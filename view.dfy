/** The view rule of the `index` route (lines 129-150): which records to show for a
    mode, and which tag to attach, computed from the unfiltered list. */
module View {
  import opened Wrappers
  import opened Text
  import opened Sheet

  /** The two tags; which one is shown depends only on the full list. */
  const OrderTags: string := "#парфюм2"
  const ReorderTags: string := "#парфюм2 #добор"

  /** `df[df["ordered_ml"] > 0]`: the records the user has ordered from. */
  function Mine(records: seq<Record>): (r: seq<Record>)
    ensures |r| <= |records|
    ensures forall x :: x in r <==> x in records && x.orderedMl > 0
  {
    if records == [] then
      []
    else
      var rest := Mine(records[1..]);
      assert forall x :: x in records <==> x == records[0] || x in records[1..];
      if records[0].orderedMl > 0 then [records[0]] + rest else rest
  }

  /** The records `mine` leaves out. */
  function NotMine(records: seq<Record>): seq<Record> {
    if records == [] then
      []
    else
      (if records[0].orderedMl > 0 then [] else [records[0]]) + NotMine(records[1..])
  }

  /** `xs` is `ys` with some elements dropped, the rest kept in order. */
  predicate IsSubsequence(xs: seq<Record>, ys: seq<Record>)
    decreases |ys|
  {
    if xs == [] then true
    else if ys == [] then false
    else (xs[0] == ys[0] && IsSubsequence(xs[1..], ys[1..])) || IsSubsequence(xs, ys[1..])
  }

  lemma {:induction false} IsSubsequenceRefl(xs: seq<Record>)
    ensures IsSubsequence(xs, xs)
    decreases |xs|
  {
    if xs != [] {
      IsSubsequenceRefl(xs[1..]);
    }
  }

  /** `mine` keeps the order of the rows: it is a subsequence of the full list. */
  lemma {:induction false} MineIsSubsequence(records: seq<Record>)
    ensures IsSubsequence(Mine(records), records)
    decreases |records|
  {
    if records != [] {
      MineIsSubsequence(records[1..]);
      var rest := Mine(records[1..]);
      if records[0].orderedMl > 0 {
        assert ([records[0]] + rest)[1..] == rest;
      }
    }
  }

  /** Filtering a concatenation filters each part: the kept rows appear in source order. */
  lemma {:induction false} MineAppend(a: seq<Record>, b: seq<Record>)
    ensures Mine(a + b) == Mine(a) + Mine(b)
    decreases |a|
  {
    if a == [] {
      assert a + b == b;
    } else {
      assert (a + b)[1..] == a[1..] + b;
      MineAppend(a[1..], b);
    }
  }

  /** `mine` and the rows it leaves out partition the full list. */
  lemma {:induction false} MinePartition(records: seq<Record>)
    ensures multiset(Mine(records)) + multiset(NotMine(records)) == multiset(records)
    ensures forall x | x in NotMine(records) :: x.orderedMl <= 0
    decreases |records|
  {
    if records != [] {
      MinePartition(records[1..]);
      assert records == [records[0]] + records[1..];
    }
  }

  /** The rows shown for `mode` (lines 138-146): none for `plan`, the ordered rows for
      `mine`, and every row for any other mode. */
  function Select(records: seq<Record>, mode: string): (r: seq<Record>)
    ensures IsSubsequence(r, records)
    ensures mode == "plan" ==> r == []
    ensures mode == "mine" ==> forall x :: x in r <==> x in records && x.orderedMl > 0
    ensures mode != "plan" && mode != "mine" ==> r == records
  {
    if mode == "plan" then
      []
    else if mode == "mine" then
      MineIsSubsequence(records);
      Mine(records)
    else
      IsSubsequenceRefl(records);
      records
  }

  /** The tag of lines 149-150: the re-order tag exactly when some row of the full list
      has a positive `ordered_ml`, that is, exactly when the `mine` view is not empty. */
  function Tag(records: seq<Record>): (tag: string)
    ensures tag == ReorderTags <==> exists i | 0 <= i < |records| :: records[i].orderedMl > 0
    ensures tag == ReorderTags <==> Mine(records) != []
    ensures tag == OrderTags <==> tag != ReorderTags
  {
    if exists i | 0 <= i < |records| :: records[i].orderedMl > 0 then
      var i :| 0 <= i < |records| && records[i].orderedMl > 0;
      assert records[i] in Mine(records);
      ReorderTags
    else
      MineWitness(records);
      OrderTags
  }

  /** A non-empty `mine` view has a row with a positive `ordered_ml`. */
  lemma MineWitness(records: seq<Record>)
    ensures Mine(records) != [] ==> exists i | 0 <= i < |records| :: records[i].orderedMl > 0
  {
    if Mine(records) != [] {
      var x := Mine(records)[0];
      var i :| 0 <= i < |records| && records[i] == x;
    }
  }

  /** What the `index` route passes to the page. */
  datatype PageView = PageView(aromas: seq<Record>, userName: string, mode: string, orderTag: string)

  /** The `index` route without its I/O: canonicalise the user name, prepare the full
      list, select the rows for the mode and tag the page from the full list. */
  function Index(t: Table, userRaw: string, mode: string): (r: Result<PageView, SchemaError>)
    requires WellFormed(t)
    ensures r.Failure? <==> forall j | 0 <= j < |t.headers| :: !IsNameHeader(t.headers[j])
    ensures r.Success? ==> r.value.userName == userRaw && r.value.mode == mode
  {
    match Prepare(t, NormalizeName(userRaw))
    case Failure(e) => Failure(e)
    case Success(full) => Success(PageView(Select(full, mode), userRaw, mode, Tag(full)))
  }

  /** The tag does not depend on the mode: switching views never changes it. */
  lemma TagIndependentOfMode(t: Table, userRaw: string, mode1: string, mode2: string)
    requires WellFormed(t) && Index(t, userRaw, mode1).Success?
    ensures Index(t, userRaw, mode2).Success?
    ensures Index(t, userRaw, mode1).value.orderTag == Index(t, userRaw, mode2).value.orderTag
  {
  }
}
