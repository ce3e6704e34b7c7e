/** String helpers and the header/user-name canonicaliser `normalize_name`. */
module Text {

  /** The no-break space U+00A0, which spreadsheets put into names. */
  const Nbsp: char := '\U{A0}'

  /** The characters Python's `str.strip()` removes (those for which `str.isspace()` holds). */
  predicate IsSpace(c: char) {
    || c == ' '
    || '\t' <= c <= '\r'
    || '\U{1C}' <= c <= '\U{1F}'
    || c == '\U{85}'
    || c == Nbsp
    || c == '\U{1680}'
    || '\U{2000}' <= c <= '\U{200A}'
    || c == '\U{2028}' || c == '\U{2029}'
    || c == '\U{202F}' || c == '\U{205F}' || c == '\U{3000}'
  }

  /** Upper-case letters of the scripts the model covers: ASCII, Latin-1, and Cyrillic with
      its supplement (U+0400 to U+052F, which holds the Kazakh letters). In the extended
      Cyrillic blocks capitals and small letters alternate by code point. */
  predicate IsUpper(c: char) {
    || 'A' <= c <= 'Z'
    || ('\U{C0}' <= c <= '\U{DE}' && c != '\U{D7}')
    || '\U{400}' <= c <= '\U{42F}'
    || (IsPairedCyrillic(c) && c as int % 2 == 0)
    || ('\U{4C1}' <= c <= '\U{4CE}' && c as int % 2 == 1)
    || c == '\U{4C0}'
  }

  /** The extended Cyrillic ranges whose capital sits on the even code point and its
      small letter on the next one. */
  predicate IsPairedCyrillic(c: char) {
    '\U{460}' <= c <= '\U{481}' || '\U{48A}' <= c <= '\U{4BF}' || '\U{4D0}' <= c <= '\U{52F}'
  }

  /** Lower-case letters that are the image of a capital of the covered scripts. */
  predicate IsLower(c: char) {
    || 'a' <= c <= 'z'
    || ('\U{E0}' <= c <= '\U{FE}' && c != '\U{F7}')
    || '\U{430}' <= c <= '\U{45F}'
    || (IsPairedCyrillic(c) && c as int % 2 == 1)
    || ('\U{4C2}' <= c <= '\U{4CE}' && c as int % 2 == 0)
    || c == '\U{4CF}'
  }

  /** Python's `str.lower()` on one character of the covered scripts: a capital becomes
      the small letter that `UpperChar` maps back to it, anything else stays. */
  function LowerChar(c: char): (r: char)
    ensures !IsUpper(r)
    ensures !IsUpper(c) ==> r == c
    ensures IsUpper(c) ==> IsLower(r) && UpperChar(r) == c
    ensures IsSpace(r) == IsSpace(c)
  {
    if 'A' <= c <= 'Z' || ('\U{C0}' <= c <= '\U{DE}' && c != '\U{D7}') || '\U{410}' <= c <= '\U{42F}' then
      (c as int + 0x20) as char
    else if '\U{400}' <= c <= '\U{40F}' then
      (c as int + 0x50) as char
    else if (IsPairedCyrillic(c) && c as int % 2 == 0) || ('\U{4C1}' <= c <= '\U{4CE}' && c as int % 2 == 1) then
      (c as int + 1) as char
    else if c == '\U{4C0}' then
      '\U{4CF}'
    else
      c
  }

  /** Python's `str.upper()` on the small letters of the covered scripts, the partner
      of `LowerChar`. */
  function UpperChar(c: char): (r: char)
    ensures IsLower(c) ==> IsUpper(r)
    ensures !IsLower(c) ==> r == c
  {
    if 'a' <= c <= 'z' || ('\U{E0}' <= c <= '\U{FE}' && c != '\U{F7}') || '\U{430}' <= c <= '\U{44F}' then
      (c as int - 0x20) as char
    else if '\U{450}' <= c <= '\U{45F}' then
      (c as int - 0x50) as char
    else if (IsPairedCyrillic(c) && c as int % 2 == 1) || ('\U{4C2}' <= c <= '\U{4CE}' && c as int % 2 == 0) then
      (c as int - 1) as char
    else if c == '\U{4CF}' then
      '\U{4C0}'
    else
      c
  }

  /** `lower()` and `upper()` undo each other on the letters of the covered scripts, so
      two names that differ only in the case of such letters lower-case alike, and two
      names that lower-case alike differ only in case. */
  lemma LowerUpperInverse(c: char)
    ensures IsLower(c) ==> LowerChar(UpperChar(c)) == c
    ensures IsUpper(c) ==> UpperChar(LowerChar(c)) == c
  {
  }

  /** `s.lower()`: every character is mapped on its own. */
  function Lower(s: string): (r: string)
    ensures |r| == |s|
  {
    seq(|s|, i requires 0 <= i < |s| => LowerChar(s[i]))
  }

  /** After `lower()` no upper-case letter is left, whitespace stays whitespace,
      characters that were not upper-case are unchanged, and each capital becomes its
      own small letter. */
  lemma LowerSpec(s: string)
    ensures forall i | 0 <= i < |s| :: !IsUpper(Lower(s)[i]) && IsSpace(Lower(s)[i]) == IsSpace(s[i])
    ensures forall i | 0 <= i < |s| :: !IsUpper(s[i]) ==> Lower(s)[i] == s[i]
    ensures forall i | 0 <= i < |s| :: IsUpper(s[i]) ==> IsLower(Lower(s)[i]) && UpperChar(Lower(s)[i]) == s[i]
  {
  }

  /** Leading whitespace removed (the left half of `str.strip()`). */
  function TrimStart(s: string): (r: string)
    ensures |r| <= |s|
  {
    if s != [] && IsSpace(s[0]) then TrimStart(s[1..]) else s
  }

  /** What `TrimStart` removes is a whitespace prefix, and what it keeps does not start
      with whitespace. */
  lemma {:induction false} TrimStartSpec(s: string)
    ensures var r := TrimStart(s);
      && r == s[|s| - |r|..]
      && (forall i | 0 <= i < |s| - |r| :: IsSpace(s[i]))
      && (r == [] || !IsSpace(r[0]))
    decreases |s|
  {
    if s != [] && IsSpace(s[0]) {
      TrimStartSpec(s[1..]);
    }
  }

  /** Trailing whitespace removed (the right half of `str.strip()`). */
  function TrimEnd(s: string): (r: string)
    ensures |r| <= |s|
  {
    if s != [] && IsSpace(s[|s| - 1]) then TrimEnd(s[..|s| - 1]) else s
  }

  /** What `TrimEnd` removes is a whitespace suffix, and what it keeps does not end
      with whitespace. */
  lemma {:induction false} TrimEndSpec(s: string)
    ensures var r := TrimEnd(s);
      && r == s[..|r|]
      && (forall i | |r| <= i < |s| :: IsSpace(s[i]))
      && (r == [] || !IsSpace(r[|r| - 1]))
    decreases |s|
  {
    if s != [] && IsSpace(s[|s| - 1]) {
      TrimEndSpec(s[..|s| - 1]);
    }
  }

  /** `str.strip()`: whitespace removed at both ends. */
  function Strip(s: string): (r: string)
    ensures |r| <= |s|
  {
    TrimEnd(TrimStart(s))
  }

  /** `s.replace(from, to)` for single characters. */
  function ReplaceChar(s: string, from: char, to: char): (r: string)
    ensures |r| == |s|
  {
    seq(|s|, i requires 0 <= i < |s| => if s[i] == from then to else s[i])
  }

  /** After the replacement `from` is gone (when it differs from `to`), each occurrence
      of `from` has become `to`, and every other character is where it was. */
  lemma ReplaceCharSpec(s: string, from: char, to: char)
    ensures from != to ==> from !in ReplaceChar(s, from, to)
    ensures forall i | 0 <= i < |s| :: s[i] == from ==> ReplaceChar(s, from, to)[i] == to
    ensures forall i | 0 <= i < |s| :: s[i] != from ==> ReplaceChar(s, from, to)[i] == s[i]
  {
  }

  /** `s.replace("  ", " ")`: one left-to-right pass that turns each disjoint pair of
      spaces into one space. */
  function ReplaceDoubleSpaces(s: string): (r: string)
    ensures |r| <= |s|
  {
    if |s| >= 2 && s[0] == ' ' && s[1] == ' ' then
      [' '] + ReplaceDoubleSpaces(s[2..])
    else if s == [] then
      []
    else
      [s[0]] + ReplaceDoubleSpaces(s[1..])
  }

  /** The pass only removes ordinary spaces: every character it outputs is one of the
      input's. */
  lemma {:induction false} ReplaceDoubleSpacesChars(s: string)
    ensures forall c | c in ReplaceDoubleSpaces(s) :: c in s
    decreases |s|
  {
    if |s| >= 2 && s[0] == ' ' && s[1] == ' ' {
      ReplaceDoubleSpacesChars(s[2..]);
      assert forall c | c in s[2..] :: c in s;
    } else if s != [] {
      ReplaceDoubleSpacesChars(s[1..]);
      assert forall c | c in s[1..] :: c in s;
    }
  }

  /** A first or last character that is not a space is kept. */
  lemma {:induction false} ReplaceDoubleSpacesEnds(s: string)
    ensures s != [] && s[0] != ' ' ==> ReplaceDoubleSpaces(s) != [] && ReplaceDoubleSpaces(s)[0] == s[0]
    ensures s != [] && s[|s| - 1] != ' ' ==>
      ReplaceDoubleSpaces(s) != [] && ReplaceDoubleSpaces(s)[|ReplaceDoubleSpaces(s)| - 1] == s[|s| - 1]
    decreases |s|
  {
    if |s| >= 2 && s[0] == ' ' && s[1] == ' ' {
      ReplaceDoubleSpacesEnds(s[2..]);
    } else if s != [] {
      ReplaceDoubleSpacesEnds(s[1..]);
    }
  }

  /** `normalize_name`: strip, lower-case, NBSP to space, then one pass of `"  "` to `" "`. */
  function NormalizeName(s: string): string {
    ReplaceDoubleSpaces(ReplaceChar(Lower(Strip(s)), Nbsp, ' '))
  }

  /** Before the space pass, the name already has no whitespace at either end, no NBSP
      and no upper-case letter. */
  lemma PrepassSpec(s: string)
    ensures var spaced := ReplaceChar(Lower(Strip(s)), Nbsp, ' ');
      && (spaced == [] || (!IsSpace(spaced[0]) && !IsSpace(spaced[|spaced| - 1])))
      && forall i | 0 <= i < |spaced| :: !IsUpper(spaced[i]) && spaced[i] != Nbsp
  {
    var t := TrimStart(s);
    TrimStartSpec(s);
    TrimEndSpec(t);
    var stripped := Strip(s);
    var lowered := Lower(stripped);
    LowerSpec(stripped);
    var spaced := ReplaceChar(lowered, Nbsp, ' ');
    ReplaceCharSpec(lowered, Nbsp, ' ');
    assert stripped == TrimEnd(t);
    if spaced != [] {
      assert !IsSpace(stripped[0]) && !IsSpace(stripped[|stripped| - 1]);
      assert !IsSpace(lowered[0]) && !IsSpace(lowered[|lowered| - 1]);
      assert spaced[0] == lowered[0] && spaced[|spaced| - 1] == lowered[|lowered| - 1];
    }
  }

  /** A canonical name has no whitespace at either end, no NBSP and no upper-case letter. */
  lemma NormalizeNameSpec(s: string)
    ensures var r := NormalizeName(s);
      && (r == [] || (!IsSpace(r[0]) && !IsSpace(r[|r| - 1])))
      && Nbsp !in r
      && forall i | 0 <= i < |r| :: !IsUpper(r[i])
  {
    var spaced := ReplaceChar(Lower(Strip(s)), Nbsp, ' ');
    PrepassSpec(s);
    var r := ReplaceDoubleSpaces(spaced);
    ReplaceDoubleSpacesChars(spaced);
    ReplaceDoubleSpacesEnds(spaced);
    assert forall c | c in spaced :: !IsUpper(c) && c != Nbsp;
    assert forall i | 0 <= i < |r| :: r[i] in spaced;
    if r != [] {
      assert spaced != [];
    }
  }

  /** Replacing NBSP by a space before stripping gives what stripping first gives. */
  lemma {:induction false} TrimStartNbsp(s: string)
    ensures TrimStart(ReplaceChar(s, Nbsp, ' ')) == ReplaceChar(TrimStart(s), Nbsp, ' ')
    decreases |s|
  {
    var spaced := ReplaceChar(s, Nbsp, ' ');
    if s != [] && IsSpace(s[0]) {
      assert spaced[1..] == ReplaceChar(s[1..], Nbsp, ' ');
      TrimStartNbsp(s[1..]);
    }
  }

  lemma {:induction false} TrimEndNbsp(s: string)
    ensures TrimEnd(ReplaceChar(s, Nbsp, ' ')) == ReplaceChar(TrimEnd(s), Nbsp, ' ')
    decreases |s|
  {
    var spaced := ReplaceChar(s, Nbsp, ' ');
    if s != [] && IsSpace(s[|s| - 1]) {
      assert spaced[..|s| - 1] == ReplaceChar(s[..|s| - 1], Nbsp, ' ');
      TrimEndNbsp(s[..|s| - 1]);
    }
  }

  /** A name with spaces where another has NBSPs has the same canonical form: the NBSP
      step of `normalize_name` makes the two spellings indistinguishable. */
  lemma NormalizeNameNbspAsSpace(s: string)
    ensures NormalizeName(ReplaceChar(s, Nbsp, ' ')) == NormalizeName(s)
  {
    var spaced := ReplaceChar(s, Nbsp, ' ');
    TrimStartNbsp(s);
    TrimEndNbsp(TrimStart(s));
    var stripped := Strip(s);
    assert Strip(spaced) == ReplaceChar(stripped, Nbsp, ' ');
    var lowered := Lower(stripped);
    assert Lower(ReplaceChar(stripped, Nbsp, ' ')) == ReplaceChar(lowered, Nbsp, ' ') by {
      forall i | 0 <= i < |stripped|
        ensures LowerChar(ReplaceChar(stripped, Nbsp, ' ')[i]) == ReplaceChar(lowered, Nbsp, ' ')[i]
      {
        assert LowerChar(stripped[i]) == Nbsp <==> stripped[i] == Nbsp;
      }
    }
    assert ReplaceChar(ReplaceChar(lowered, Nbsp, ' '), Nbsp, ' ') == ReplaceChar(lowered, Nbsp, ' ');
  }

  /** A header whose words are separated by an NBSP matches the user name typed with an
      ordinary space. */
  lemma NormalizeNameNbspBetweenWords(w1: string, w2: string)
    requires IsCanonicalWord(w1) && IsCanonicalWord(w2)
    ensures NormalizeName(w1 + [Nbsp] + w2) == NormalizeName(w1 + " " + w2)
  {
    var s := w1 + [Nbsp] + w2;
    assert ReplaceChar(s, Nbsp, ' ') == w1 + " " + w2 by {
      assert forall i | 0 <= i < |w1| :: w1[i] != Nbsp;
      assert forall i | 0 <= i < |w2| :: w2[i] != Nbsp;
    }
    NormalizeNameNbspAsSpace(s);
  }

  /** Two adjacent ordinary spaces somewhere in `s`. */
  predicate HasDoubleSpace(s: string) {
    exists i | 0 <= i < |s| - 1 :: s[i] == ' ' && s[i + 1] == ' '
  }

  /** `k` ordinary spaces. */
  function Spaces(k: nat): (r: string)
    ensures |r| == k && forall i | 0 <= i < k :: r[i] == ' '
  {
    seq(k, _ => ' ')
  }

  /** The pass halves a run of spaces, rounding up: a run of `k` spaces becomes
      `(k + 1) / 2` spaces, so three spaces become two rather than one. */
  lemma {:induction false} ReplaceDoubleSpacesRun(k: nat, rest: string)
    requires rest == [] || rest[0] != ' '
    ensures ReplaceDoubleSpaces(Spaces(k) + rest) == Spaces((k + 1) / 2) + ReplaceDoubleSpaces(rest)
    decreases k
  {
    var s := Spaces(k) + rest;
    if k == 0 {
      assert s == rest;
    } else if k == 1 {
      assert s[1..] == rest;
      assert Spaces(1) == [' '];
    } else {
      assert s[2..] == Spaces(k - 2) + rest;
      ReplaceDoubleSpacesRun(k - 2, rest);
      assert Spaces((k + 1) / 2) == [' '] + Spaces((k - 2 + 1) / 2);
    }
  }

  /** The pass shortens a string exactly when the string holds a double space. */
  lemma {:induction false} ReplaceDoubleSpacesShortens(s: string)
    ensures HasDoubleSpace(s) <==> |ReplaceDoubleSpaces(s)| < |s|
    decreases |s|
  {
    if |s| >= 2 && s[0] == ' ' && s[1] == ' ' {
    } else if s == [] {
    } else {
      ReplaceDoubleSpacesShortens(s[1..]);
      if HasDoubleSpace(s) {
        var i :| 0 <= i < |s| - 1 && s[i] == ' ' && s[i + 1] == ' ';
        assert i != 0;
        assert s[1..][i - 1] == ' ' && s[1..][i] == ' ';
      }
      if HasDoubleSpace(s[1..]) {
        var i :| 0 <= i < |s[1..]| - 1 && s[1..][i] == ' ' && s[1..][i + 1] == ' ';
        assert s[i + 1] == ' ' && s[i + 2] == ' ';
      }
    }
  }

  /** Without a double space the pass changes nothing. */
  lemma {:induction false} ReplaceDoubleSpacesNoPair(s: string)
    requires !HasDoubleSpace(s)
    ensures ReplaceDoubleSpaces(s) == s
    decreases |s|
  {
    if s != [] {
      assert !(|s| >= 2 && s[0] == ' ' && s[1] == ' ');
      ReplaceDoubleSpacesNoPair(s[1..]);
    }
  }

  /** The pass leaves a string unchanged exactly when it holds no double space. */
  lemma ReplaceDoubleSpacesFixed(s: string)
    ensures ReplaceDoubleSpaces(s) == s <==> !HasDoubleSpace(s)
  {
    ReplaceDoubleSpacesShortens(s);
    if !HasDoubleSpace(s) {
      ReplaceDoubleSpacesNoPair(s);
    }
  }

  /** On a string that is already stripped, lower-case and free of NBSP, only the
      space pass of `normalize_name` has any effect. */
  lemma NormalizeNameOfCanonical(s: string)
    requires s == [] || (!IsSpace(s[0]) && !IsSpace(s[|s| - 1]))
    requires Nbsp !in s
    requires forall i | 0 <= i < |s| :: !IsUpper(s[i])
    ensures NormalizeName(s) == ReplaceDoubleSpaces(s)
  {
    assert TrimStart(s) == s;
    assert TrimEnd(s) == s;
    var stripped := Strip(s);
    assert stripped == s;
    var lowered := Lower(stripped);
    LowerSpec(stripped);
    assert forall i | 0 <= i < |s| :: lowered[i] == s[i];
    assert lowered == s;
    var spaced := ReplaceChar(lowered, Nbsp, ' ');
    ReplaceCharSpec(lowered, Nbsp, ' ');
    assert spaced == s;
  }

  /** A canonical name is its own canonical form exactly when the single pass left
      no double space behind: `normalize_name` is not idempotent in general. */
  lemma NormalizeNameIdempotentIff(s: string)
    ensures NormalizeName(NormalizeName(s)) == NormalizeName(s) <==> !HasDoubleSpace(NormalizeName(s))
  {
    var y := NormalizeName(s);
    NormalizeNameSpec(s);
    NormalizeNameOfCanonical(y);
    ReplaceDoubleSpacesFixed(y);
  }

  /** Three inner spaces survive as two, and only a second application removes them. */
  lemma NormalizeNameThreeSpaces()
    ensures NormalizeName("a   b") == "a  b"
    ensures NormalizeName("a  b") == "a b"
  {
    assert IsCanonicalWord("a") && IsCanonicalWord("b");
    NormalizeNameRun("a", 3, "b");
    NormalizeNameRun("a", 2, "b");
    assert "a" + Spaces(3) + "b" == "a   b";
    assert "a" + Spaces(2) + "b" == "a  b";
    assert "a" + Spaces(1) + "b" == "a b";
  }

  lemma StripJohnDoe()
    ensures Strip(" John  Doe ") == "John  Doe"
  {
    assert " John  Doe "[1..] == "John  Doe ";
    assert TrimStart(" John  Doe ") == "John  Doe ";
    assert "John  Doe "[..9] == "John  Doe";
  }

  lemma LowerJohnDoe()
    ensures Lower("John  Doe") == "john  doe"
  {
    assert LowerChar('J') == 'j' && LowerChar('D') == 'd';
  }

  lemma NormalizeJohnDoeSteps()
    ensures NormalizeName(" John  Doe ") == ReplaceDoubleSpaces("john  doe")
  {
    StripJohnDoe();
    LowerJohnDoe();
    assert ReplaceChar("john  doe", Nbsp, ' ') == "john  doe";
  }

  lemma CollapseJohnDoe()
    ensures ReplaceDoubleSpaces("john  doe") == "john doe"
  {
    assert "john  doe" == "john" + "  doe";
    ReplaceDoubleSpacesPrefix("john", "  doe");
    assert "  doe"[2..] == "doe";
    assert ReplaceDoubleSpaces("  doe") == [' '] + ReplaceDoubleSpaces("doe");
    assert !HasDoubleSpace("doe");
    ReplaceDoubleSpacesNoPair("doe");
    assert "john" + ([' '] + "doe") == "john doe";
  }

  /** A header padded with spaces, in another case, with a double space inside,
      matches the plain user name. */
  lemma NormalizeNameExample()
    ensures NormalizeName(" John  Doe ") == "john doe"
  {
    NormalizeJohnDoeSteps();
    CollapseJohnDoe();
  }

  /** The plain user name is already normalised. */
  lemma NormalizeNamePlainExample()
    ensures NormalizeName("john doe") == "john doe"
  {
    assert IsCanonicalWord("john") && IsCanonicalWord("doe");
    NormalizeNameRun("john", 1, "doe");
    assert "john" + Spaces(1) + "doe" == "john doe";
  }

  /** A Kazakh name whose capital lies in the Cyrillic supplement matches its
      lower-case spelling. */
  lemma NormalizeNameKazakhExample()
    ensures NormalizeName("\U{4D8}\U{43B}\U{438}\U{44F}") == "\U{4D9}\U{43B}\U{438}\U{44F}"
  {
    var name := "\U{4D8}\U{43B}\U{438}\U{44F}";
    var lowered := "\U{4D9}\U{43B}\U{438}\U{44F}";
    assert TrimStart(name) == name;
    assert TrimEnd(name) == name;
    assert Lower(name) == lowered;
    assert ReplaceChar(lowered, Nbsp, ' ') == lowered;
    assert !HasDoubleSpace(lowered);
    ReplaceDoubleSpacesNoPair(lowered);
  }

  /** A word: no whitespace and no upper-case letter. */
  predicate IsCanonicalWord(w: string) {
    forall i | 0 <= i < |w| :: !IsSpace(w[i]) && !IsUpper(w[i])
  }

  /** Between two canonical words, a run of `k` spaces comes out as `(k + 1) / 2` spaces. */
  lemma NormalizeNameRun(w1: string, k: nat, w2: string)
    requires w1 != [] && w2 != []
    requires IsCanonicalWord(w1) && IsCanonicalWord(w2)
    ensures NormalizeName(w1 + Spaces(k) + w2) == w1 + Spaces((k + 1) / 2) + w2
  {
    var s := w1 + Spaces(k) + w2;
    WordsAroundSpacesCanonical(w1, k, w2);
    assert !HasDoubleSpace(w2) by {
      assert forall i | 0 <= i < |w2| :: w2[i] != ' ';
    }
    calc {
      NormalizeName(s);
      { NormalizeNameOfCanonical(s); }
      ReplaceDoubleSpaces(s);
      { assert s == w1 + (Spaces(k) + w2); }
      ReplaceDoubleSpaces(w1 + (Spaces(k) + w2));
      { ReplaceDoubleSpacesPrefix(w1, Spaces(k) + w2); }
      w1 + ReplaceDoubleSpaces(Spaces(k) + w2);
      { ReplaceDoubleSpacesRun(k, w2); }
      w1 + (Spaces((k + 1) / 2) + ReplaceDoubleSpaces(w2));
      { ReplaceDoubleSpacesNoPair(w2); }
      w1 + Spaces((k + 1) / 2) + w2;
    }
  }

  lemma WordsAroundSpacesCanonical(w1: string, k: nat, w2: string)
    requires w1 != [] && w2 != []
    requires IsCanonicalWord(w1) && IsCanonicalWord(w2)
    ensures var s := w1 + Spaces(k) + w2;
      && !IsSpace(s[0]) && !IsSpace(s[|s| - 1]) && Nbsp !in s
      && forall i | 0 <= i < |s| :: !IsUpper(s[i])
  {
    var s := w1 + Spaces(k) + w2;
    forall i | 0 <= i < |s|
      ensures !IsUpper(s[i]) && s[i] != Nbsp
    {
      if i < |w1| {
        assert s[i] == w1[i];
      } else if i < |w1| + k {
        assert s[i] == ' ';
      } else {
        assert s[i] == w2[i - |w1| - k];
      }
    }
    assert s[|s| - 1] == w2[|w2| - 1];
  }

  /** The pass works word by word: a prefix without spaces is copied unchanged. */
  lemma {:induction false} ReplaceDoubleSpacesPrefix(w: string, rest: string)
    requires ' ' !in w
    ensures ReplaceDoubleSpaces(w + rest) == w + ReplaceDoubleSpaces(rest)
    decreases |w|
  {
    if w != [] {
      assert (w + rest)[1..] == w[1..] + rest;
      ReplaceDoubleSpacesPrefix(w[1..], rest);
    } else {
      assert w + rest == rest;
    }
  }

  /** The first index of `x` in `s`. */
  function IndexOf<T(==)>(s: seq<T>, x: T): (i: nat)
    requires x in s
    ensures i < |s| && s[i] == x && x !in s[..i]
  {
    if s[0] == x then 0 else
      var i := IndexOf(s[1..], x);
      assert s[1..][..i] == s[1..i + 1];
      1 + i
  }

  /** `pattern` occurs in `s` starting at index `i`. */
  predicate OccursAt(s: string, pattern: string, i: nat) {
    i + |pattern| <= |s| && s[i..i + |pattern|] == pattern
  }

  /** Python's `pattern in s` for strings. */
  predicate Contains(s: string, pattern: string) {
    exists i: nat | i <= |s| :: OccursAt(s, pattern, i)
  }
}
