/** Numeric reading of spreadsheet cells: a decimal grammar standing in for Python's
    `float()` and pandas' `to_numeric`, integer coercion, and `extract_first_valid_number`. */
module Numbers {
  import opened Wrappers
  import opened Text

  predicate IsDigit(c: char) {
    '0' <= c <= '9'
  }

  predicate AllDigits(s: string) {
    forall i | 0 <= i < |s| :: IsDigit(s[i])
  }

  /** The only characters a parsable number may contain. */
  predicate IsNumeralChar(c: char) {
    IsDigit(c) || c == '.' || c == '+' || c == '-'
  }

  function DigitValue(c: char): (d: nat)
    requires IsDigit(c)
    ensures d < 10
  {
    c as int - '0' as int
  }

  function DigitChar(d: nat): (c: char)
    requires d < 10
    ensures IsDigit(c) && DigitValue(c) == d
  {
    ('0' as int + d) as char
  }

  /** The value of a string of decimal digits, most significant first. */
  function DigitsValue(s: string): nat
    requires AllDigits(s)
  {
    if s == [] then 0 else DigitsValue(s[..|s| - 1]) * 10 + DigitValue(s[|s| - 1])
  }

  function Pow10(n: nat): (p: nat)
    ensures p >= 1
  {
    if n == 0 then 1 else 10 * Pow10(n - 1)
  }

  /** The value of the digits `whole`, a point, then the digits `fraction`. */
  function DecimalValue(whole: string, fraction: string): real
    requires AllDigits(whole) && AllDigits(fraction)
  {
    DigitsValue(whole) as real + DigitsValue(fraction) as real / Pow10(|fraction|) as real
  }

  /** An unsigned decimal: digits with at most one point and at least one digit in all
      (`"5"`, `"5."`, `".5"`, `"12.50"`). */
  function ParseUnsigned(s: string): (r: Option<real>)
    ensures r.Some? ==> r.value >= 0.0 && s != []
  {
    if '.' in s then
      var p := IndexOf(s, '.');
      var whole, fraction := s[..p], s[p + 1..];
      if AllDigits(whole) && AllDigits(fraction) && |whole| + |fraction| > 0 then
        Some(DecimalValue(whole, fraction))
      else
        None
    else if s != [] && AllDigits(s) then
      Some(DigitsValue(s) as real)
    else
      None
  }

  /** A decimal with an optional sign: the numbers the model lets a cell hold. */
  function ParseDecimal(s: string): (r: Option<real>)
    ensures r.Some? ==> s != []
    ensures r.Some? && r.value > 0.0 ==> s[0] != '-'
  {
    if s != [] && (s[0] == '+' || s[0] == '-') then
      match ParseUnsigned(s[1..])
      case None => None
      case Some(v) => Some(if s[0] == '-' then -v else v)
    else
      ParseUnsigned(s)
  }

  /** Only digits, signs and the point ever parse. */
  lemma ParseUnsignedChars(s: string)
    requires ParseUnsigned(s).Some?
    ensures forall i | 0 <= i < |s| :: IsDigit(s[i]) || s[i] == '.'
  {
    if '.' in s {
      var p := IndexOf(s, '.');
      var whole, fraction := s[..p], s[p + 1..];
      forall i | 0 <= i < |s| ensures IsDigit(s[i]) || s[i] == '.' {
        if i < p { assert s[i] == whole[i]; }
        else if i > p { assert s[i] == fraction[i - p - 1]; }
      }
    }
  }

  /** A cell that parses holds only digits, signs and the point. */
  lemma ParseDecimalChars(s: string)
    requires ParseDecimal(s).Some?
    ensures forall i | 0 <= i < |s| :: IsNumeralChar(s[i])
  {
    if s[0] == '+' || s[0] == '-' {
      ParseUnsignedChars(s[1..]);
      forall i | 1 <= i < |s| ensures IsNumeralChar(s[i]) { assert s[i] == s[1..][i - 1]; }
    } else {
      ParseUnsignedChars(s);
    }
  }

  /** A string with any character other than digits, signs and the point does not parse. */
  lemma NonNumeralNeverParses(s: string, k: nat)
    requires k < |s| && !IsNumeralChar(s[k])
    ensures ParseDecimal(s).None?
  {
    if ParseDecimal(s).Some? {
      ParseDecimalChars(s);
    }
  }

  /** `astype(int)` on a float: truncation toward zero, which differs from `Floor` on
      negative values. */
  function TruncToInt(x: real): (n: int)
    ensures x >= 0.0 ==> 0 <= n && n as real <= x < n as real + 1.0
    ensures x < 0.0 ==> n <= 0 && n as real - 1.0 < x <= n as real
  {
    if x >= 0.0 then x.Floor else -((-x).Floor)
  }

  /** `pd.to_numeric(cell, errors="coerce").fillna(0).astype(int)` on one cell: an
      unparsable cell gives 0, a number is truncated toward zero. No comma handling. */
  function CoerceInt(cell: string): int {
    match ParseDecimal(cell)
    case None => 0
    case Some(x) => TruncToInt(x)
  }

  /** The coerced value is 0 for a cell that does not parse, and otherwise the parsed
      number truncated toward zero (never rounded, never clamped at 0). */
  lemma CoerceIntTruncates(cell: string)
    ensures ParseDecimal(cell).None? ==> CoerceInt(cell) == 0
    ensures ParseDecimal(cell).Some? ==>
      var x, n := ParseDecimal(cell).value, CoerceInt(cell);
      (x >= 0.0 ==> 0 <= n && n as real <= x < n as real + 1.0) &&
      (x < 0.0 ==> n <= 0 && n as real - 1.0 < x <= n as real)
  {
  }

  /** The parse at main.py line 41: a comma is read as the decimal point. */
  function PriceParse(cell: string): Option<real> {
    ParseDecimal(ReplaceChar(cell, ',', '.'))
  }

  /** A cell that `extract_first_valid_number` accepts. */
  predicate IsPositiveCell(cell: string) {
    PriceParse(cell).Some? && PriceParse(cell).value > 0.0
  }

  /** `extract_first_valid_number`: scan the cells in column order. */
  function FirstValidNumber(row: seq<string>): Option<real> {
    if row == [] then None
    else if IsPositiveCell(row[0]) then PriceParse(row[0])
    else FirstValidNumber(row[1..])
  }

  /** The result is the value of the first cell, in column order, that parses and is
      strictly positive; there is no result exactly when no cell qualifies. */
  lemma {:induction false} FirstValidNumberSpec(row: seq<string>)
    ensures var r := FirstValidNumber(row);
      && (r.Some? ==> r.value > 0.0)
      && (r.Some? ==> exists i | 0 <= i < |row| ::
            PriceParse(row[i]) == r && forall j | 0 <= j < i :: !IsPositiveCell(row[j]))
      && (r.None? <==> forall i | 0 <= i < |row| :: !IsPositiveCell(row[i]))
  {
    if row != [] && !IsPositiveCell(row[0]) {
      FirstValidNumberSpec(row[1..]);
      var r := FirstValidNumber(row[1..]);
      assert forall i | 1 <= i < |row| :: row[1..][i - 1] == row[i];
      if r.Some? {
        var i :| 0 <= i < |row[1..]| && PriceParse(row[1..][i]) == r && forall j | 0 <= j < i :: !IsPositiveCell(row[1..][j]);
        assert PriceParse(row[i + 1]) == r && forall j | 0 <= j < i + 1 :: !IsPositiveCell(row[j]);
      }
    }
  }

  /** The loop of `extract_first_valid_number`, with its early return. */
  method ExtractFirstValidNumber(row: seq<string>) returns (r: Option<real>)
    ensures r == FirstValidNumber(row)
  {
    for i := 0 to |row|
      invariant FirstValidNumber(row[i..]) == FirstValidNumber(row)
    {
      var num := PriceParse(row[i]);
      if num.Some? && num.value > 0.0 {
        return num;
      }
      assert row[i..][1..] == row[i + 1..];
    }
    assert row[|row|..] == [];
    return None;
  }

  /** The row's price (lines 87-91): the first positive cell, else 0. */
  function Price(row: seq<string>): real {
    FirstValidNumber(row).GetOr(0.0)
  }

  /** The price is never negative; it is 0 exactly when no cell parses to a positive
      number, and otherwise the value of the first cell that does. */
  lemma PriceSpec(row: seq<string>)
    ensures var p := Price(row);
      && p >= 0.0
      && (p == 0.0 <==> forall i | 0 <= i < |row| :: !IsPositiveCell(row[i]))
      && (p > 0.0 ==> exists i | 0 <= i < |row| ::
            PriceParse(row[i]) == Some(p) && forall j | 0 <= j < i :: !IsPositiveCell(row[j]))
  {
    FirstValidNumberSpec(row);
  }

  /** Decimal digits of `n`, most significant first. */
  function FormatNat(n: nat): (s: string)
    ensures s != [] && AllDigits(s)
  {
    if n < 10 then [DigitChar(n)] else FormatNat(n / 10) + [DigitChar(n % 10)]
  }

  /** How an integer is written in a cell: an optional minus sign and its digits. */
  function FormatInt(z: int): string {
    if z < 0 then "-" + FormatNat(-z) else FormatNat(z)
  }

  lemma {:induction false} DigitsValueFormat(n: nat)
    ensures DigitsValue(FormatNat(n)) == n
    decreases n
  {
    var s := FormatNat(n);
    if n >= 10 {
      assert s[..|s| - 1] == FormatNat(n / 10);
      DigitsValueFormat(n / 10);
    }
  }

  /** Round trip: an integer written out reads back as itself, both through the
      decimal grammar and through the integer coercion of a cell. */
  lemma ParseFormatInt(z: int)
    ensures ParseDecimal(FormatInt(z)) == Some(z as real)
    ensures CoerceInt(FormatInt(z)) == z
  {
    var digits := FormatNat(if z < 0 then -z else z);
    DigitsValueFormat(if z < 0 then -z else z);
    assert '.' !in digits by {
      assert forall i | 0 <= i < |digits| :: IsDigit(digits[i]);
    }
    assert ParseUnsigned(digits) == Some((if z < 0 then -z else z) as real);
    if z < 0 {
      assert FormatInt(z)[1..] == digits;
    } else {
      assert digits[0] != '+' && digits[0] != '-' by { assert IsDigit(digits[0]); }
    }
  }

  /** The lowest `k` decimal digits of `m`, most significant first, padded with zeros. */
  function LowDigits(m: nat, k: nat): (s: string)
    ensures |s| == k && AllDigits(s)
  {
    if k == 0 then [] else LowDigits(m / 10, k - 1) + [DigitChar(m % 10)]
  }

  /** `m` with its lowest `k` decimal digits dropped. */
  function HighPart(m: nat, k: nat): nat {
    if k == 0 then m else HighPart(m / 10, k - 1)
  }

  /** The dropped digits and the kept part together rebuild the number. */
  lemma {:induction false} SplitDigits(m: nat, k: nat)
    ensures m == HighPart(m, k) * Pow10(k) + DigitsValue(LowDigits(m, k))
    decreases k
  {
    if k > 0 {
      var s := LowDigits(m, k);
      assert s[..|s| - 1] == LowDigits(m / 10, k - 1);
      SplitDigits(m / 10, k - 1);
      var h, p := HighPart(m, k), Pow10(k - 1);
      assert h * Pow10(k) == 10 * (h * p);
    }
  }

  /** `n / 10^k` written in fixed point with `k` fraction digits after the character
      `point`: `FormatFixed(35000, 2, ',')` is `"350,00"`. */
  function FormatFixed(n: nat, k: nat, point: char): string {
    FormatNat(HighPart(n, k)) + [point] + LowDigits(n, k)
  }

  /** The price cell of the sample row, written as a fixed-point number. */
  lemma FormatFixedExample()
    ensures FormatFixed(35000, 2, ',') == "350,00"
  {
    assert HighPart(35000, 2) == 350;
    assert LowDigits(35000, 2) == "00";
    assert FormatNat(350) == "350";
  }

  /** The exact value `z / 10^k` that a fixed-point number with `k` fraction digits
      denotes. */
  function Scaled(z: int, k: nat): real {
    z as real / Pow10(k) as real
  }

  /** A fixed-point number with an optional minus sign. */
  function FormatSignedFixed(z: int, k: nat, point: char): string {
    if z < 0 then "-" + FormatFixed(-z, k, point) else FormatFixed(z, k, point)
  }

  /** Whole part plus scaled fraction is the scaled whole number. */
  lemma FixedValue(h: nat, l: nat, p: nat)
    requires p >= 1
    ensures h as real + l as real / p as real == (h * p + l) as real / p as real
  {
    assert (h * p) as real / p as real == h as real;
  }

  /** The point of a fixed-point number is the first point in it. */
  lemma FixedPointIndex(whole: string, fraction: string)
    requires AllDigits(whole) && AllDigits(fraction)
    ensures var s := whole + "." + fraction;
      '.' in s && IndexOf(s, '.') == |whole| && s[..|whole|] == whole && s[|whole| + 1..] == fraction
  {
    var s := whole + "." + fraction;
    assert s[|whole|] == '.';
    var p := IndexOf(s, '.');
    assert forall i | 0 <= i < |whole| :: s[i] == whole[i] && s[i] != '.';
  }

  /** Digits, a point and digits read as the whole part plus the scaled fraction. */
  lemma ParseUnsignedParts(whole: string, fraction: string)
    requires AllDigits(whole) && AllDigits(fraction) && whole != []
    ensures ParseUnsigned(whole + "." + fraction) == Some(DecimalValue(whole, fraction))
  {
    FixedPointIndex(whole, fraction);
  }

  /** The digits of the whole part and of the fraction together carry the value. */
  lemma FixedDigitsValue(n: nat, k: nat)
    ensures DecimalValue(FormatNat(HighPart(n, k)), LowDigits(n, k)) == Scaled(n, k)
  {
    var h := HighPart(n, k);
    DigitsValueFormat(h);
    SplitDigits(n, k);
    FixedValue(h, DigitsValue(LowDigits(n, k)), Pow10(k));
  }

  /** A fixed-point number is a whole part, a point and a fraction. */
  lemma ParseFixedParts(n: nat, k: nat)
    ensures ParseUnsigned(FormatFixed(n, k, '.')) == Some(DecimalValue(FormatNat(HighPart(n, k)), LowDigits(n, k)))
  {
    var whole, fraction := FormatNat(HighPart(n, k)), LowDigits(n, k);
    assert FormatFixed(n, k, '.') == whole + "." + fraction;
    ParseUnsignedParts(whole, fraction);
  }

  lemma ParseUnsignedFixed(n: nat, k: nat)
    ensures ParseUnsigned(FormatFixed(n, k, '.')) == Some(Scaled(n, k))
  {
    ParseFixedParts(n, k);
    FixedDigitsValue(n, k);
  }

  /** No comma in a number written with a point. */
  lemma FixedHasNoComma(n: nat, k: nat)
    ensures ReplaceChar(FormatFixed(n, k, ','), ',', '.') == FormatFixed(n, k, '.')
    ensures ReplaceChar(FormatFixed(n, k, '.'), ',', '.') == FormatFixed(n, k, '.')
  {
    var digits := FormatNat(HighPart(n, k));
    assert forall i | 0 <= i < |digits| :: IsDigit(digits[i]);
  }

  lemma ScaledNegate(n: nat, k: nat)
    ensures Scaled(-(n as int), k) == -Scaled(n, k)
  {
  }

  /** A fixed-point number starts with a digit, never with a sign. */
  lemma FixedStartsWithDigit(n: nat, k: nat, point: char)
    ensures FormatFixed(n, k, point) != [] && IsDigit(FormatFixed(n, k, point)[0])
  {
    assert FormatFixed(n, k, point)[0] == FormatNat(HighPart(n, k))[0];
  }

  lemma ParseSignedFixed(z: int, k: nat)
    ensures ParseDecimal(FormatSignedFixed(z, k, '.')) == Some(Scaled(z, k))
  {
    var n: nat := if z < 0 then -z else z;
    var unsigned := FormatFixed(n, k, '.');
    ParseUnsignedFixed(n, k);
    FixedStartsWithDigit(n, k, '.');
    if z < 0 {
      assert FormatSignedFixed(z, k, '.')[1..] == unsigned;
      ScaledNegate(n, k);
    }
  }

  /** Round trip for decimals with a fraction: a fixed-point number written with a
      point reads back as its value, and so does one written with a comma at line 41. */
  lemma ParseFormatFixed(z: int, k: nat)
    ensures ParseDecimal(FormatSignedFixed(z, k, '.')) == Some(Scaled(z, k))
    ensures PriceParse(FormatSignedFixed(z, k, '.')) == Some(Scaled(z, k))
    ensures PriceParse(FormatSignedFixed(z, k, ',')) == Some(Scaled(z, k))
  {
    var n: nat := if z < 0 then -z else z;
    ParseSignedFixed(z, k);
    FixedHasNoComma(n, k);
    var pointed := FormatSignedFixed(z, k, '.');
    assert ReplaceChar(pointed, ',', '.') == pointed;
    assert ReplaceChar(FormatSignedFixed(z, k, ','), ',', '.') == pointed;
  }

  /** A cell holding any character other than digits, signs, point or comma (a
      currency sign, a unit, a space) never parses at line 41, so it is never the price. */
  lemma TextCellNeverParses(cell: string, k: nat)
    requires k < |cell| && !IsNumeralChar(cell[k]) && cell[k] != ','
    ensures PriceParse(cell).None?
    ensures !IsPositiveCell(cell)
  {
    var replaced := ReplaceChar(cell, ',', '.');
    assert replaced[k] == cell[k];
    NonNumeralNeverParses(replaced, k);
  }

  lemma ParseTwelveAndAHalf()
    ensures ParseUnsigned("12.5") == Some(12.5)
  {
    assert IndexOf("12.5", '.') == 2;
    assert "12.5"[..2] == "12" && "12"[..1] == "1" && "1"[..0] == [];
    assert "12.5"[3..] == "5" && "5"[..0] == [];
  }

  /** Integer coercion truncates toward zero and keeps negative values. */
  lemma CoerceIntTruncationExamples()
    ensures CoerceInt("12.5") == 12
    ensures CoerceInt("-12.5") == -12
  {
    ParseTwelveAndAHalf();
    assert "-12.5"[1..] == "12.5";
  }

  lemma CoerceIntNegativeExample()
    ensures CoerceInt("-5") == -5
  {
    assert ParseUnsigned("5") == Some(5.0) by {
      assert "5"[..0] == [];
    }
    assert "-5"[1..] == "5";
  }

  /** Integer coercion does not read a comma as a decimal point, so `"12,5"` becomes 0,
      as do blank and textual cells. */
  lemma CoerceIntRejectionExamples()
    ensures CoerceInt("12,5") == 0
    ensures CoerceInt("") == 0
    ensures CoerceInt("abc") == 0
  {
    NonNumeralNeverParses("12,5", 2);
    NonNumeralNeverParses("abc", 0);
  }

  lemma DashCellRejected()
    ensures !IsPositiveCell("-")
  {
    assert ReplaceChar("-", ',', '.') == "-";
    assert ParseUnsigned("-"[1..]) == None;
  }

  lemma ParseThreeHundredFifty()
    ensures ParseDecimal("350.00") == Some(350.0)
  {
    assert IndexOf("350.00", '.') == 3;
    assert "350.00"[..3] == "350" && "350.00"[4..] == "00";
    assert "350"[..2] == "35" && "35"[..1] == "3" && "3"[..0] == [];
    assert DigitsValue("350") == 350;
    assert "00"[..1] == "0" && "0"[..0] == [];
    assert DigitsValue("00") == 0;
  }

  lemma CommaPriceParses()
    ensures PriceParse("350,00") == Some(350.0)
  {
    assert ReplaceChar("350,00", ',', '.') == "350.00";
    ParseThreeHundredFifty();
  }

  /** A comma decimal point is accepted for the price. */
  lemma PriceWithComma()
    ensures Price(["Al Rehab", "-", "350,00"]) == 350.0
  {
    var good := ["Al Rehab", "-", "350,00"];
    TextCellNeverParses(good[0], 0);
    DashCellRejected();
    CommaPriceParses();
    var p := Price(good);
    var i :| 0 <= i < |good| && PriceParse(good[i]) == Some(p) && forall j | 0 <= j < i :: !IsPositiveCell(good[j]);
    assert i == 2;
  }

  /** A price written with a currency sign is skipped, so this row has no price at all:
      the character stripping after the selection never sees that cell. */
  lemma PriceWithCurrencySign()
    ensures Price(["Al Rehab", "-", "350,00 \U{20B8}"]) == 0.0
  {
    var bad := ["Al Rehab", "-", "350,00 \U{20B8}"];
    TextCellNeverParses(bad[0], 0);
    DashCellRejected();
    TextCellNeverParses(bad[2], 6);
  }
}
