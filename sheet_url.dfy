/** `make_csv_url` (main.py lines 20-30): turn a spreadsheet link into its CSV export link.
    URL parsing is modelled as plain splitting: the fragment is cut at the first `#`,
    the query at the first `?`, the path into segments at `/`, the query into pieces
    at `&` and each piece at its first `=`. */
module SheetUrl {
  import opened Wrappers
  import opened Text

  /** `https://docs.google.com/spreadsheets/d/` as the segments it splits into at `/`. */
  const BaseSegments: seq<string> := ["https:", "", "docs.google.com", "spreadsheets", "d"]
  const DefaultGid: string := "0"

  /** Python's `s.split(sep)` for a one-character separator. */
  function Split(s: string, sep: char): (parts: seq<string>)
    ensures |parts| >= 1
    decreases |s|
  {
    if sep !in s then [s]
    else
      var i := IndexOf(s, sep);
      [s[..i]] + Split(s[i + 1..], sep)
  }

  /** `sep.join(parts)`. */
  function Join(parts: seq<string>, sep: char): string
    requires |parts| >= 1
  {
    if |parts| == 1 then parts[0] else parts[0] + [sep] + Join(parts[1..], sep)
  }

  /** No piece of a split contains the separator. */
  lemma {:induction false} SplitPartsFree(s: string, sep: char)
    ensures forall j | 0 <= j < |Split(s, sep)| :: sep !in Split(s, sep)[j]
    decreases |s|
  {
    if sep in s {
      var i := IndexOf(s, sep);
      SplitPartsFree(s[i + 1..], sep);
    }
  }

  /** Joining the pieces of a split gives the string back. */
  lemma {:induction false} JoinSplit(s: string, sep: char)
    ensures Join(Split(s, sep), sep) == s
    decreases |s|
  {
    if sep in s {
      var i := IndexOf(s, sep);
      JoinSplit(s[i + 1..], sep);
      assert ([s[..i]] + Split(s[i + 1..], sep))[1..] == Split(s[i + 1..], sep);
      assert s == s[..i] + [sep] + s[i + 1..];
    }
  }

  /** Splitting at a first separator peels off one piece. */
  lemma SplitCons(a: string, sep: char, b: string)
    requires sep !in a
    ensures Split(a + [sep] + b, sep) == [a] + Split(b, sep)
  {
    var s := a + [sep] + b;
    assert s[|a|] == sep;
    assert s[..|a|] == a;
    assert s[|a| + 1..] == b;
    assert IndexOf(s, sep) == |a|;
  }

  /** Splitting a join of separator-free pieces gives the pieces back. */
  lemma {:induction false} SplitJoin(parts: seq<string>, sep: char)
    requires |parts| >= 1
    requires forall j | 0 <= j < |parts| :: sep !in parts[j]
    ensures Split(Join(parts, sep), sep) == parts
    decreases |parts|
  {
    if |parts| > 1 {
      var rest := parts[1..];
      SplitJoin(rest, sep);
      SplitCons(parts[0], sep, Join(rest, sep));
      assert parts == [parts[0]] + rest;
    }
  }

  /** The text before the first `c`, or all of `s`. */
  function Before(s: string, c: char): (r: string)
    ensures c !in r
    ensures r <= s
  {
    if c in s then s[..IndexOf(s, c)] else s
  }

  /** The text after the first `c`, or nothing. */
  function After(s: string, c: char): (r: string)
    ensures c in s ==> s == Before(s, c) + [c] + r
    ensures c !in s ==> r == []
  {
    if c in s then s[IndexOf(s, c) + 1..] else []
  }

  lemma BeforeAfterJoin(a: string, c: char, b: string)
    requires c !in a
    ensures Before(a + [c] + b, c) == a
    ensures After(a + [c] + b, c) == b
  {
    var s := a + [c] + b;
    assert s[|a|] == c;
    assert s[..|a|] == a;
    assert s[|a| + 1..] == b;
  }

  /** `path_parts[path_parts.index("d") + 1]`: the segment after the first `d` segment;
      `None` stands for the `ValueError` (no `d`) and the `IndexError` (`d` last). */
  function SegmentAfterD(parts: seq<string>): Option<string> {
    if parts == [] then None
    else if parts[0] == "d" then (if |parts| > 1 then Some(parts[1]) else None)
    else SegmentAfterD(parts[1..])
  }

  /** The scan agrees with the indexing of lines 23-24: `index("d")` finds the first `d`
      and the id is the segment after it, when there is one. */
  lemma {:induction false} SegmentAfterDIsIndexed(parts: seq<string>)
    ensures SegmentAfterD(parts) ==
      if "d" in parts && IndexOf(parts, "d") + 1 < |parts| then Some(parts[IndexOf(parts, "d") + 1]) else None
    decreases |parts|
  {
    if parts != [] {
      var tail := parts[1..];
      assert parts == [parts[0]] + tail;
      if parts[0] == "d" {
        var i := IndexOf(parts, "d");
        assert i == 0;
      } else {
        SegmentAfterDIsIndexed(tail);
        assert "d" in parts <==> "d" in tail;
        if "d" in tail {
          var i := IndexOf(parts, "d");
          var k := IndexOf(tail, "d");
          assert parts[k + 1] == "d";
          assert parts[..k + 1] == [parts[0]] + tail[..k];
          assert i == k + 1;
        }
      }
    }
  }

  function SpreadsheetId(path: string): Option<string> {
    SegmentAfterD(Split(path, '/'))
  }

  /** The value of a `name=value` piece named `gid` with a non-empty value: `parse_qs`
      keeps only pieces that have an `=` and drop those whose value is empty. */
  predicate IsGidPiece(piece: string) {
    '=' in piece && Before(piece, '=') == "gid" && After(piece, '=') != []
  }

  /** `parse_qs(query).get("gid", ["0"])[0]` over the pieces of the query. */
  function FirstGid(pieces: seq<string>): Option<string> {
    if pieces == [] then None
    else if IsGidPiece(pieces[0]) then Some(After(pieces[0], '='))
    else FirstGid(pieces[1..])
  }

  lemma {:induction false} FirstGidSpec(pieces: seq<string>)
    ensures FirstGid(pieces).None? <==> forall j | 0 <= j < |pieces| :: !IsGidPiece(pieces[j])
    ensures FirstGid(pieces).Some? ==> exists j | 0 <= j < |pieces| ::
              IsGidPiece(pieces[j]) && After(pieces[j], '=') == FirstGid(pieces).value &&
              forall k | 0 <= k < j :: !IsGidPiece(pieces[k])
    decreases |pieces|
  {
    if pieces != [] && !IsGidPiece(pieces[0]) {
      FirstGidSpec(pieces[1..]);
      if FirstGid(pieces).Some? {
        var j :| 0 <= j < |pieces[1..]| && IsGidPiece(pieces[1..][j]) &&
                 After(pieces[1..][j], '=') == FirstGid(pieces).value &&
                 forall k | 0 <= k < j :: !IsGidPiece(pieces[1..][k]);
        assert forall k | 0 <= k < j + 1 :: !IsGidPiece(pieces[k]) by {
          forall k | 0 <= k < j + 1 ensures !IsGidPiece(pieces[k]) {
            if k > 0 { assert pieces[k] == pieces[1..][k - 1]; }
          }
        }
      } else {
        assert forall j | 0 <= j < |pieces| :: !IsGidPiece(pieces[j]) by {
          forall j | 0 <= j < |pieces| ensures !IsGidPiece(pieces[j]) {
            if j > 0 { assert pieces[j] == pieces[1..][j - 1]; }
          }
        }
      }
    }
  }

  /** The gid of a query string: its first `gid` value, or `"0"`. */
  function Gid(query: string): string {
    FirstGid(Split(query, '&')).GetOr(DefaultGid)
  }

  /** `https://docs.google.com/spreadsheets/d/<id>/<page>`. */
  function SheetLink(id: string, page: string): string {
    Join(BaseSegments + [id, page], '/')
  }

  /** `https://docs.google.com/spreadsheets/d/<id>/export?format=csv&gid=<gid>`. */
  function ExportUrl(id: string, gid: string): string {
    SheetLink(id, "export") + "?" + Join(["format=csv", "gid=" + gid], '&')
  }

  /** `make_csv_url`: `None` where the Python code raises. */
  function MakeCsvUrl(url: string): Option<string> {
    var beforeFragment := Before(url, '#');
    match SpreadsheetId(Before(beforeFragment, '?'))
    case None => None
    case Some(id) => Some(ExportUrl(id, Gid(After(beforeFragment, '?'))))
  }

  /** A character absent from `s` is absent from every piece of its split. */
  lemma {:induction false} SplitPartsAvoid(s: string, sep: char, c: char)
    requires c !in s
    ensures forall j | 0 <= j < |Split(s, sep)| :: c !in Split(s, sep)[j]
    decreases |s|
  {
    if sep in s {
      var i := IndexOf(s, sep);
      assert s == s[..i] + s[i..];
      assert s[i..] == [s[i]] + s[i + 1..];
      SplitPartsAvoid(s[i + 1..], sep, c);
    }
  }

  /** A character other than the separator and absent from every piece is absent
      from the join. */
  lemma {:induction false} JoinAvoid(parts: seq<string>, sep: char, c: char)
    requires |parts| >= 1 && c != sep
    requires forall j | 0 <= j < |parts| :: c !in parts[j]
    ensures c !in Join(parts, sep)
    decreases |parts|
  {
    if |parts| > 1 {
      JoinAvoid(parts[1..], sep, c);
    }
  }

  /** Neither `?` nor `#` occurs in a sheet link whose id and page are free of them. */
  lemma SheetLinkAvoid(id: string, page: string, c: char)
    requires c == '?' || c == '#'
    requires c !in id && c !in page
    ensures c !in SheetLink(id, page)
  {
    var parts := BaseSegments + [id, page];
    forall j | 0 <= j < |parts| ensures c !in parts[j] {
      if j < 5 { assert parts[j] == BaseSegments[j]; }
    }
    JoinAvoid(parts, '/', c);
  }

  /** Leading segments other than `d` do not change the segment after the first `d`. */
  lemma {:induction false} SegmentAfterDSkip(front: seq<string>, rest: seq<string>)
    requires "d" !in front
    ensures SegmentAfterD(front + rest) == SegmentAfterD(rest)
    decreases |front|
  {
    if front != [] {
      assert (front + rest)[1..] == front[1..] + rest;
      SegmentAfterDSkip(front[1..], rest);
    } else {
      assert front + rest == rest;
    }
  }

  /** The id of a sheet link is the segment after `d`. */
  lemma SpreadsheetIdOfLink(id: string, page: string)
    requires '/' !in id && '/' !in page
    ensures SpreadsheetId(SheetLink(id, page)) == Some(id)
  {
    var parts := BaseSegments + [id, page];
    assert Split(SheetLink(id, page), '/') == parts by {
      forall j | 0 <= j < |parts| ensures '/' !in parts[j] {
        if j < 5 { assert parts[j] == BaseSegments[j]; }
      }
      SplitJoin(parts, '/');
    }
    assert SegmentAfterD(parts) == Some(id) by {
      var front := ["https:", "", "docs.google.com", "spreadsheets"];
      assert parts == front + ["d", id, page];
      assert "d" !in front;
      SegmentAfterDSkip(front, ["d", id, page]);
    }
  }

  /** The `format=csv` piece is not a gid. */
  lemma FormatPieceIsNotGid()
    ensures !IsGidPiece("format=csv")
  {
    assert "format=csv" == "format" + ['='] + "csv";
    BeforeAfterJoin("format", '=', "csv");
  }

  /** The query of an export link names its gid. */
  lemma GidOfExportQuery(gid: string)
    requires gid != [] && '&' !in gid
    ensures Gid(Join(["format=csv", "gid=" + gid], '&')) == gid
  {
    var piece := "gid=" + gid;
    var pieces := ["format=csv", piece];
    assert Split(Join(pieces, '&'), '&') == pieces by {
      assert '&' !in piece;
      SplitJoin(pieces, '&');
    }
    assert IsGidPiece(piece) && After(piece, '=') == gid by {
      assert piece == "gid" + ['='] + gid;
      BeforeAfterJoin("gid", '=', gid);
    }
    assert FirstGid(pieces) == FirstGid([piece]) by {
      FormatPieceIsNotGid();
      assert pieces[1..] == [piece];
    }
  }

  /** A query `gid=<gid>` names that gid. */
  lemma GidOfSinglePiece(gid: string)
    requires gid != [] && '&' !in gid
    ensures Gid("gid=" + gid) == gid
  {
    SplitJoin(["gid=" + gid], '&');
    BeforeAfterJoin("gid", '=', gid);
    assert "gid=" + gid == "gid" + ['='] + gid;
  }

  /** A link `.../d/<id>/<page>?<query>#<fragment>` exports the sheet named by the
      query's first gid; the fragment plays no part. */
  lemma MakeCsvUrlOfEditLink(id: string, page: string, query: string, fragment: string)
    requires forall c | c in "/?#" :: c !in id && c !in page
    requires '#' !in query
    ensures MakeCsvUrl(SheetLink(id, page) + "?" + query + "#" + fragment)
            == Some(ExportUrl(id, Gid(query)))
  {
    var link := SheetLink(id, page);
    SheetLinkAvoid(id, page, '?');
    SheetLinkAvoid(id, page, '#');
    assert '#' !in link + "?" + query;
    BeforeAfterJoin(link + "?" + query, '#', fragment);
    BeforeAfterJoin(link, '?', query);
    SpreadsheetIdOfLink(id, page);
  }

  /** The configured link `.../d/<id>/edit?gid=<gid>#gid=<gid>` exports sheet `gid`. */
  lemma MakeCsvUrlOfConfiguredLink(id: string, gid: string)
    requires forall c | c in "/?#" :: c !in id
    requires gid != [] && '&' !in gid && '#' !in gid
    ensures MakeCsvUrl(SheetLink(id, "edit") + "?gid=" + gid + "#gid=" + gid) == Some(ExportUrl(id, gid))
  {
    var link := SheetLink(id, "edit");
    assert link + "?gid=" + gid + "#gid=" + gid == link + "?" + ("gid=" + gid) + "#" + ("gid=" + gid);
    assert '#' !in "gid=" + gid;
    MakeCsvUrlOfEditLink(id, "edit", "gid=" + gid, "gid=" + gid);
    GidOfSinglePiece(gid);
  }

  /** A link with no query exports the first sheet, `gid=0`. */
  lemma MakeCsvUrlDefaultGid(id: string, page: string)
    requires forall c | c in "/?#" :: c !in id && c !in page
    ensures MakeCsvUrl(SheetLink(id, page)) == Some(ExportUrl(id, DefaultGid))
  {
    SheetLinkAvoid(id, page, '?');
    SheetLinkAvoid(id, page, '#');
    SpreadsheetIdOfLink(id, page);
    assert Split([], '&') == [[]];
  }

  /** An export link maps to itself. */
  lemma MakeCsvUrlOfExportUrl(id: string, gid: string)
    requires forall c | c in "/?#" :: c !in id
    requires gid != [] && '&' !in gid && '#' !in gid
    ensures MakeCsvUrl(ExportUrl(id, gid)) == Some(ExportUrl(id, gid))
  {
    var link := SheetLink(id, "export");
    var query := Join(["format=csv", "gid=" + gid], '&');
    SheetLinkAvoid(id, "export", '?');
    SheetLinkAvoid(id, "export", '#');
    assert '#' !in "gid=" + gid;
    JoinAvoid(["format=csv", "gid=" + gid], '&', '#');
    assert '#' !in link + "?" + query;
    BeforeAfterJoin(link, '?', query);
    SpreadsheetIdOfLink(id, "export");
    GidOfExportQuery(gid);
  }

  /** `make_csv_url` is idempotent: the link it builds is already an export link. */
  lemma MakeCsvUrlIdempotent(url: string)
    requires MakeCsvUrl(url).Some?
    ensures MakeCsvUrl(MakeCsvUrl(url).value) == MakeCsvUrl(url)
  {
    var beforeFragment := Before(url, '#');
    var path := Before(beforeFragment, '?');
    var query := After(beforeFragment, '?');
    var parts := Split(path, '/');
    var id := SegmentAfterD(parts).value;
    assert '#' !in path && '?' !in path;
    SegmentAfterDIsIndexed(parts);
    var i := IndexOf(parts, "d");
    assert parts[i + 1] == id;
    SplitPartsFree(path, '/');
    SplitPartsAvoid(path, '/', '#');
    SplitPartsAvoid(path, '/', '?');
    assert '#' !in query;
    var pieces := Split(query, '&');
    SplitPartsFree(query, '&');
    SplitPartsAvoid(query, '&', '#');
    FirstGidSpec(pieces);
    var gid := Gid(query);
    assert gid != [] && '&' !in gid && '#' !in gid by {
      if FirstGid(pieces).Some? {
        var j :| 0 <= j < |pieces| && IsGidPiece(pieces[j]) && After(pieces[j], '=') == gid &&
                 forall k | 0 <= k < j :: !IsGidPiece(pieces[k]);
        assert pieces[j] == Before(pieces[j], '=') + ['='] + gid;
      }
    }
    MakeCsvUrlOfExportUrl(id, gid);
  }
}
