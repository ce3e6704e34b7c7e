/** `prepare_dataframe`: from the organiser's loosely structured sheet to one typed
    record per row. Columns are identified by position; pandas makes the header names
    of a loaded sheet unique, so looking a column up by name or by position is the same. */
module Sheet {
  import opened Wrappers
  import opened Text
  import opened Numbers

  /** A sheet as loaded: its headers and its rows of text cells in column order. */
  datatype Table = Table(headers: seq<string>, rows: seq<seq<string>>)

  /** Every row has one cell per header, as in any DataFrame. */
  predicate WellFormed(t: Table) {
    forall i | 0 <= i < |t.rows| :: |t.rows[i]| == |t.headers|
  }

  /** One output row: the five columns of the result frame. */
  datatype Record = Record(
    aromaName: string,
    orderedMl: int,
    price: real,
    totalCollected: int,
    remainingMl: int)

  /** The one fatal condition: no header names the aroma column. */
  datatype SchemaError = NameColumnNotFound

  const NameMarker: string := "название"
  const CollectedHeader: string := "Набрано"
  const RemainingHeader: string := "Осталось набрать"

  /** `"название" in col.lower()` */
  predicate IsNameHeader(h: string) {
    Contains(Lower(h), NameMarker)
  }

  /** The name column: the first header, in source order, that contains the marker. */
  function NameColumn(headers: seq<string>): (r: Option<nat>)
    ensures r.Some? ==> r.value < |headers| && IsNameHeader(headers[r.value])
    ensures r.Some? ==> forall j | 0 <= j < r.value :: !IsNameHeader(headers[j])
    ensures r.None? <==> forall j | 0 <= j < |headers| :: !IsNameHeader(headers[j])
  {
    if headers == [] then
      None
    else if IsNameHeader(headers[0]) then
      Some(0)
    else
      match NameColumn(headers[1..])
      case None =>
        assert forall j | 1 <= j < |headers| :: headers[j] == headers[1..][j - 1];
        None
      case Some(j) =>
        assert forall k | 1 <= k < j + 1 :: headers[k] == headers[1..][k - 1];
        Some(j + 1)
  }

  /** The `for`/`break` scan of lines 58-62. */
  method FindNameColumn(headers: seq<string>) returns (nameColumn: Option<nat>)
    ensures nameColumn == NameColumn(headers)
  {
    nameColumn := None;
    for i := 0 to |headers|
      invariant nameColumn.None?
      invariant forall j | 0 <= j < i :: !IsNameHeader(headers[j])
    {
      if IsNameHeader(headers[i]) {
        return Some(i);
      }
    }
  }

  /** The canonical form of every header, in column order. */
  function CanonicalHeaders(headers: seq<string>): (keys: seq<string>)
    ensures |keys| == |headers|
    ensures forall j | 0 <= j < |headers| :: keys[j] == NormalizeName(headers[j])
  {
    if headers == [] then [] else [NormalizeName(headers[0])] + CanonicalHeaders(headers[1..])
  }

  /** A dict built from `keys` in order, each key mapped to its position: a repeated key
      ends up at its LAST position, because later entries overwrite earlier ones. */
  function LastPositions(keys: seq<string>): (m: map<string, nat>)
    ensures forall key :: key in m <==> key in keys
    ensures forall key | key in m :: m[key] < |keys| && keys[m[key]] == key
    ensures forall key | key in m :: forall j | m[key] < j < |keys| :: keys[j] != key
  {
    if keys == [] then
      map[]
    else
      var last := |keys| - 1;
      var front := keys[..last];
      var m := LastPositions(front);
      assert forall key :: key in keys <==> key in front || key == keys[last] by {
        assert keys == front + [keys[last]];
      }
      m[keys[last] := last]
  }

  /** `{normalize_name(col): col for col in df.columns}`, with positions for columns. */
  function NormalizedColumns(headers: seq<string>): map<string, nat> {
    LastPositions(CanonicalHeaders(headers))
  }

  /** The last position of `key` in `keys`, if any. */
  function LastIndexOf(keys: seq<string>, key: string): (r: Option<nat>)
    ensures r.None? <==> key !in keys
    ensures r.Some? ==> r.value < |keys| && keys[r.value] == key
    ensures r.Some? ==> forall j | r.value < j < |keys| :: keys[j] != key
  {
    if keys == [] then
      None
    else if keys[|keys| - 1] == key then
      Some(|keys| - 1)
    else
      var r := LastIndexOf(keys[..|keys| - 1], key);
      assert keys == keys[..|keys| - 1] + [keys[|keys| - 1]];
      r
  }

  /** The column that supplies `ordered_ml`: taken only for a non-empty user name that
      equals some canonical header, and then the last header with that canonical form. */
  function UserColumn(headers: seq<string>, user: string): (r: Option<nat>)
    ensures r.None? <==> user == "" || forall j | 0 <= j < |headers| :: NormalizeName(headers[j]) != user
    ensures r.Some? ==> r.value < |headers| && NormalizeName(headers[r.value]) == user
    ensures r.Some? ==> forall j | r.value < j < |headers| :: NormalizeName(headers[j]) != user
  {
    var keys := CanonicalHeaders(headers);
    if user == "" then
      None
    else
      var r := LastIndexOf(keys, user);
      assert r.None? ==> forall j | 0 <= j < |headers| :: keys[j] != user;
      r
  }

  /** Looking the user name up in the dict of lines 67-69 (lines 75-76) selects exactly
      the column `UserColumn` describes. */
  lemma NormalizedColumnsLookup(headers: seq<string>, user: string)
    ensures var m := NormalizedColumns(headers);
      UserColumn(headers, user) == if user != "" && user in m then Some(m[user]) else None
  {
    var keys := CanonicalHeaders(headers);
    var m := LastPositions(keys);
    if user != "" {
      var r := LastIndexOf(keys, user);
      if user in m {
        var p := m[user];
        assert keys[p] == user;
        assert r.Some?;
        assert !(r.value > p);
        assert !(r.value < p);
      }
    }
  }

  /** `df[h] if h in df.columns`: the column whose header is exactly `h`. */
  function ExactColumn(headers: seq<string>, h: string): (r: Option<nat>)
    ensures r.None? <==> h !in headers
    ensures r.Some? ==> r.value < |headers| && headers[r.value] == h && h !in headers[..r.value]
  {
    if h in headers then Some(IndexOf(headers, h)) else None
  }

  /** The positions `prepare_dataframe` reads from. */
  datatype Columns = Columns(name: nat, user: Option<nat>, collected: Option<nat>, remaining: Option<nat>)

  predicate ColumnsFit(cols: Columns, width: nat) {
    && cols.name < width
    && (cols.user.Some? ==> cols.user.value < width)
    && (cols.collected.Some? ==> cols.collected.value < width)
    && (cols.remaining.Some? ==> cols.remaining.value < width)
  }

  /** The column lookups of lines 58-83 and 104-115; none when there is no name column. */
  function LocateColumns(headers: seq<string>, user: string): (r: Option<Columns>)
    ensures r.None? <==> NameColumn(headers).None?
    ensures r.Some? ==> ColumnsFit(r.value, |headers|)
  {
    match NameColumn(headers)
    case None => None
    case Some(n) =>
      Some(Columns(n, UserColumn(headers, user),
                   ExactColumn(headers, CollectedHeader), ExactColumn(headers, RemainingHeader)))
  }

  /** An integer column of the result: the coerced cell, or 0 when the column is absent. */
  function IntCell(row: seq<string>, col: Option<nat>): int
    requires col.Some? ==> col.value < |row|
  {
    match col
    case None => 0
    case Some(j) => CoerceInt(row[j])
  }

  /** The record built from one row. */
  function MakeRecord(row: seq<string>, cols: Columns): Record
    requires ColumnsFit(cols, |row|)
  {
    Record(row[cols.name], IntCell(row, cols.user), Price(row),
           IntCell(row, cols.collected), IntCell(row, cols.remaining))
  }

  /** One record per row, in row order. */
  function MakeRecords(rows: seq<seq<string>>, cols: Columns): (records: seq<Record>)
    requires forall i | 0 <= i < |rows| :: ColumnsFit(cols, |rows[i]|)
    ensures |records| == |rows|
    ensures forall i | 0 <= i < |rows| :: records[i] == MakeRecord(rows[i], cols)
  {
    seq(|rows|, i requires 0 <= i < |rows| => MakeRecord(rows[i], cols))
  }

  /** `prepare_dataframe(df, user_name)`, where `user_name` has already been through
      `normalize_name`: fails exactly when no header names the aroma column, and
      otherwise gives one record per row, in row order. */
  function Prepare(t: Table, user: string): (r: Result<seq<Record>, SchemaError>)
    requires WellFormed(t)
    ensures r.Failure? <==> forall j | 0 <= j < |t.headers| :: !IsNameHeader(t.headers[j])
    ensures r.Success? ==> |r.value| == |t.rows|
  {
    match LocateColumns(t.headers, user)
    case None => Failure(NameColumnNotFound)
    case Some(cols) =>
      Success(MakeRecords(t.rows, cols))
  }

  /** The body of `prepare_dataframe`: find the columns, then fill the result row by row. */
  method PrepareDataframe(t: Table, userName: string) returns (result: Result<seq<Record>, SchemaError>)
    requires WellFormed(t)
    ensures result == Prepare(t, userName)
  {
    var nameColumn := FindNameColumn(t.headers);
    if nameColumn.None? {
      return Failure(NameColumnNotFound);
    }
    var normalizedColumns := NormalizedColumns(t.headers);
    var userColumn: Option<nat> := None;
    if userName != "" && userName in normalizedColumns {
      userColumn := Some(normalizedColumns[userName]);
    }
    NormalizedColumnsLookup(t.headers, userName);
    var cols := Columns(nameColumn.value, userColumn,
                        ExactColumn(t.headers, CollectedHeader), ExactColumn(t.headers, RemainingHeader));
    assert LocateColumns(t.headers, userName) == Some(cols);
    var records := FillRecords(t.rows, cols);
    return Success(records);
  }

  /** Lines 71-120: the result table filled from the located columns, one record per
      row, in row order. */
  method FillRecords(rows: seq<seq<string>>, cols: Columns) returns (records: seq<Record>)
    requires forall i | 0 <= i < |rows| :: ColumnsFit(cols, |rows[i]|)
    ensures records == MakeRecords(rows, cols)
  {
    records := [];
    for i := 0 to |rows|
      invariant |records| == i
      invariant forall k | 0 <= k < i :: records[k] == MakeRecord(rows[k], cols)
    {
      var row := rows[i];
      var price := ExtractFirstValidNumber(row);
      records := records + [Record(row[cols.name], IntCell(row, cols.user), price.GetOr(0.0),
                                   IntCell(row, cols.collected), IntCell(row, cols.remaining))];
    }
  }

  /** The aroma name of every record is that row's cell in the first name column. */
  lemma PrepareNames(t: Table, user: string, n: nat)
    requires WellFormed(t)
    requires n < |t.headers| && IsNameHeader(t.headers[n])
    requires forall j | 0 <= j < n :: !IsNameHeader(t.headers[j])
    ensures Prepare(t, user).Success?
    ensures var recs := Prepare(t, user).value;
      |recs| == |t.rows| && forall i | 0 <= i < |t.rows| :: recs[i].aromaName == t.rows[i][n]
  {
    assert NameColumn(t.headers) == Some(n);
  }

  /** Without a user name, or when no header has the user name as its canonical form,
      every record has `ordered_ml` 0. */
  lemma PrepareOrderedMlAbsent(t: Table, user: string)
    requires WellFormed(t) && Prepare(t, user).Success?
    requires user == "" || forall j | 0 <= j < |t.headers| :: NormalizeName(t.headers[j]) != user
    ensures forall i | 0 <= i < |t.rows| :: Prepare(t, user).value[i].orderedMl == 0
  {
  }

  /** Otherwise `ordered_ml` is the coerced cell of the last header whose canonical form
      is the user name. */
  lemma PrepareOrderedMlLastMatch(t: Table, user: string, c: nat)
    requires WellFormed(t) && Prepare(t, user).Success?
    requires user != "" && c < |t.headers| && NormalizeName(t.headers[c]) == user
    requires forall j | c < j < |t.headers| :: NormalizeName(t.headers[j]) != user
    ensures forall i | 0 <= i < |t.rows| :: Prepare(t, user).value[i].orderedMl == CoerceInt(t.rows[i][c])
  {
    UserColumnIsLastMatch(t.headers, user, c);
  }

  lemma UserColumnIsLastMatch(headers: seq<string>, user: string, c: nat)
    requires user != "" && c < |headers| && NormalizeName(headers[c]) == user
    requires forall j | c < j < |headers| :: NormalizeName(headers[j]) != user
    ensures UserColumn(headers, user) == Some(c)
  {
    var r := UserColumn(headers, user);
    assert r.Some?;
    var d := r.value;
    assert NormalizeName(headers[d]) == user;
    assert !(d < c);
    assert !(d > c);
  }

  /** The price is never negative; it is 0 exactly when no cell of the row parses to a
      positive number, and otherwise the value of the first cell that does. */
  lemma PreparePrice(t: Table, user: string, i: nat)
    requires WellFormed(t) && Prepare(t, user).Success? && i < |t.rows|
    ensures var p := Prepare(t, user).value[i].price;
      && p >= 0.0
      && (p == 0.0 <==> forall k | 0 <= k < |t.rows[i]| :: !IsPositiveCell(t.rows[i][k]))
      && (p > 0.0 ==> exists k | 0 <= k < |t.rows[i]| ::
            PriceParse(t.rows[i][k]) == Some(p) && forall j | 0 <= j < k :: !IsPositiveCell(t.rows[i][j]))
  {
    PriceSpec(t.rows[i]);
  }

  /** `total_collected` and `remaining_ml` come only from the exact headers: 0 when the
      header is absent, otherwise the coerced cell under the first such header. */
  lemma PrepareFixedColumns(t: Table, user: string, i: nat)
    requires WellFormed(t) && Prepare(t, user).Success? && i < |t.rows|
    ensures var r := Prepare(t, user).value[i];
      && (CollectedHeader !in t.headers ==> r.totalCollected == 0)
      && (RemainingHeader !in t.headers ==> r.remainingMl == 0)
      && (CollectedHeader in t.headers ==>
            r.totalCollected == CoerceInt(t.rows[i][IndexOf(t.headers, CollectedHeader)]))
      && (RemainingHeader in t.headers ==>
            r.remainingMl == CoerceInt(t.rows[i][IndexOf(t.headers, RemainingHeader)]))
  {
  }
}
