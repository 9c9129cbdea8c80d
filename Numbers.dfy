/**
 * `int.TryParse` and `decimal.TryParse` as the recommender uses them: with the
 * default number styles (`Integer` and `Number`) and a culture whose decimal
 * point is '.' and whose signs are '+' and '-'.
 */
module Numbers {
  import opened Wrappers
  import opened Text

  /** The range of a C# `int`. */
  const Int32Min: int := -0x8000_0000
  const Int32Max: int := 0x7FFF_FFFF

  /** The white space the number styles allow before and after a number:
      U+0009..U+000D and U+0020 (narrower than `char.IsWhiteSpace`). */
  predicate IsNumberWhite(c: char) {
    '\t' <= c <= '\r' || c == ' '
  }

  predicate IsDigit(c: char) {
    '0' <= c <= '9'
  }

  predicate AllDigits(s: string) {
    forall i :: 0 <= i < |s| ==> IsDigit(s[i])
  }

  /** The value of a string of decimal digits, most significant first. */
  function DigitsValue(ds: string): nat
    requires AllDigits(ds)
    decreases |ds|
  {
    if ds == [] then 0
    else 10 * DigitsValue(ds[..|ds| - 1]) + (ds[|ds| - 1] as int - '0' as int)
  }

  function Pow10(n: nat): (p: nat)
    ensures p >= 1
  {
    if n == 0 then 1 else 10 * Pow10(n - 1)
  }

  /** Splits off one leading sign: whether it was '-', and the rest. */
  function Unsigned(t: string): (bool, string) {
    if t != [] && t[0] == '-' then (true, t[1..])
    else if t != [] && t[0] == '+' then (false, t[1..])
    else (false, t)
  }

  /** `int.TryParse(s, out id)`: optional white space, an optional sign, one or
      more digits, optional white space, and a value that fits in an `int`. */
  function ParseInt(s: string): (r: Option<int>)
    ensures r.Some? ==> Int32Min <= r.value <= Int32Max
  {
    var (negative, digits) := Unsigned(TrimBy(s, IsNumberWhite));
    if digits == [] || !AllDigits(digits) then None
    else
      var v: int := if negative then -(DigitsValue(digits) as int) else DigitsValue(digits);
      if Int32Min <= v <= Int32Max then Some(v) else None
  }

  /** The value of the digits `whole` "." `fraction`. */
  function Magnitude(whole: string, fraction: string): real
    requires AllDigits(whole) && AllDigits(fraction)
  {
    DigitsValue(whole) as real + DigitsValue(fraction) as real / Pow10(|fraction|) as real
  }

  /** `decimal.TryParse(s, out score)`: optional white space, an optional sign,
      digits with at most one decimal point and at least one digit, optional
      white space. The value is exact. */
  function ParseDecimal(s: string): (r: Option<real>)
    ensures r.Some? && r.value < 0.0 ==> Unsigned(TrimBy(s, IsNumberWhite)).0
  {
    var (negative, body) := Unsigned(TrimBy(s, IsNumberWhite));
    var parts := Split(body, '.');
    if |parts| > 2 then None
    else
      var whole := parts[0];
      var fraction := if |parts| == 2 then parts[1] else [];
      if |whole| + |fraction| == 0 || !AllDigits(whole) || !AllDigits(fraction) then None
      else
        var magnitude := Magnitude(whole, fraction);
        Some(if negative then -magnitude else magnitude)
  }

  // ---------------------------------------------------------------------------
  // Formatting, the partner of parsing
  // ---------------------------------------------------------------------------

  function DigitChar(d: nat): char
    requires d < 10
  {
    ('0' as int + d) as char
  }

  /** `n.ToString()` for a natural number. */
  function NatText(n: nat): string
    decreases n
  {
    if n < 10 then [DigitChar(n)] else NatText(n / 10) + [DigitChar(n % 10)]
  }

  /** `n.ToString()` for an integer. */
  function IntText(n: int): string {
    if n < 0 then ['-'] + NatText(-n) else NatText(n)
  }

  /** The digits of a natural number are digits, and read back as the number. */
  lemma {:induction false} NatTextValue(n: nat)
    ensures NatText(n) != [] && AllDigits(NatText(n))
    ensures DigitsValue(NatText(n)) == n
    decreases n
  {
    if n >= 10 {
      NatTextValue(n / 10);
      var t := NatText(n);
      assert t[..|t| - 1] == NatText(n / 10);
    }
  }

  /** The text of an integer neither starts nor ends with white space, and holds no '.'. */
  lemma IntTextShape(n: int)
    ensures var t := IntText(n);
      && t != [] && !IsNumberWhite(t[0]) && !IsNumberWhite(t[|t| - 1])
      && '.' !in t
      && Unsigned(t) == (n < 0, NatText(if n < 0 then -n else n))
  {
    var m: nat := if n < 0 then -n else n;
    NatTextValue(m);
    var digits := NatText(m);
    assert IsDigit(digits[0]) && IsDigit(digits[|digits| - 1]);
    assert forall i :: 0 <= i < |digits| ==> digits[i] != '.';
    if n < 0 {
      var t := ['-'] + digits;
      assert t[1..] == digits;
      assert forall i :: 0 <= i < |t| ==> t[i] != '.' by {
        forall i | 0 < i < |t| ensures t[i] != '.' {
          assert t[i] == digits[i - 1];
        }
      }
    }
  }

  /** A text that neither starts nor ends with number white space trims to itself. */
  lemma TrimmedAlready(t: string)
    requires t != [] && !IsNumberWhite(t[0]) && !IsNumberWhite(t[|t| - 1])
    ensures TrimBy(t, IsNumberWhite) == t
  {
    TrimPadded([], t, [], IsNumberWhite);
    assert [] + t + [] == t;
  }

  /** `int.TryParse(n.ToString())` gives `n` back exactly when `n` fits in an `int`. */
  lemma ParseIntOfText(n: int)
    ensures ParseInt(IntText(n)) == if Int32Min <= n <= Int32Max then Some(n) else None
  {
    var t := IntText(n);
    var m: nat := if n < 0 then -n else n;
    var digits := NatText(m);
    IntTextShape(n);
    NatTextValue(m);
    TrimmedAlready(t);
    assert Unsigned(TrimBy(t, IsNumberWhite)) == (n < 0, digits);
    var v: int := if n < 0 then -(DigitsValue(digits) as int) else DigitsValue(digits);
    assert v == n;
  }

  /** A run of digits with no '.' parses as a decimal with no fraction. */
  lemma ParseDecimalOfDigits(t: string, negative: bool, digits: string)
    requires TrimBy(t, IsNumberWhite) == t && Unsigned(t) == (negative, digits)
    requires digits != [] && AllDigits(digits) && '.' !in digits
    ensures ParseDecimal(t) == Some(if negative then -(DigitsValue(digits) as real) else DigitsValue(digits) as real)
  {
    SplitWithoutSep(digits, '.');
    assert AllDigits([]) && DigitsValue([]) == 0 && Pow10(0) == 1;
  }

  /** `decimal.TryParse(n.ToString())` gives `n` back. */
  lemma ParseDecimalOfText(n: int)
    ensures ParseDecimal(IntText(n)) == Some(n as real)
  {
    var t := IntText(n);
    var m: nat := if n < 0 then -n else n;
    var digits := NatText(m);
    IntTextShape(n);
    NatTextValue(m);
    TrimmedAlready(t);
    assert '.' !in digits by {
      assert forall i :: 0 <= i < |digits| ==> digits[i] != '.';
    }
    ParseDecimalOfDigits(t, n < 0, digits);
  }

  /** The text of a decimal with sign `negative`, whole part `whole` and the
      fraction digits `fraction`, as `ToString` writes a decimal with a scale
      (`"8.6"`, `"-12.50"`). */
  function DecimalText(negative: bool, whole: nat, fraction: string): string
    requires AllDigits(fraction)
  {
    (if negative then "-" else "") + NatText(whole) + "." + fraction
  }

  /** The value of that decimal: `whole` plus the fraction digits read as an
      integer and scaled down by one power of ten per digit. */
  function DecimalValue(negative: bool, whole: nat, fraction: string): real
    requires AllDigits(fraction)
  {
    var magnitude := whole as real + DigitsValue(fraction) as real / Pow10(|fraction|) as real;
    if negative then -magnitude else magnitude
  }

  /** A text with exactly one '.' splits into the text before it and the text after it. */
  lemma SplitAtPoint(before: string, after: string)
    requires '.' !in before && '.' !in after
    ensures Split(before + "." + after, '.') == [before, after]
  {
    assert before + "." + after == before + ['.'] + after;
    SplitConcat(before, after, '.');
    SplitWithoutSep(before, '.');
    SplitWithoutSep(after, '.');
  }

  /** The text of a decimal has no number white space at either end, and its
      sign is read back as written. */
  lemma DecimalTextShape(negative: bool, whole: nat, fraction: string)
    requires AllDigits(fraction)
    ensures var t := DecimalText(negative, whole, fraction);
      && t != [] && !IsNumberWhite(t[0]) && !IsNumberWhite(t[|t| - 1])
      && Unsigned(t) == (negative, NatText(whole) + "." + fraction)
  {
    var digits := NatText(whole);
    NatTextValue(whole);
    var body := digits + "." + fraction;
    assert body[0] == digits[0] && IsDigit(digits[0]);
    assert fraction != [] ==> IsDigit(fraction[|fraction| - 1]);
    if negative {
      assert DecimalText(negative, whole, fraction) == ['-'] + body;
    } else {
      assert DecimalText(negative, whole, fraction) == body;
    }
  }

  /** A trimmed, signed text with digits on both sides of one '.' parses as
      the whole part plus the fraction scaled down. */
  lemma ParseDecimalOfPoint(t: string, negative: bool, whole: string, fraction: string)
    requires TrimBy(t, IsNumberWhite) == t && Unsigned(t) == (negative, whole + "." + fraction)
    requires whole != [] && AllDigits(whole) && AllDigits(fraction)
    requires '.' !in whole && '.' !in fraction
    ensures ParseDecimal(t) == Some(if negative then -Magnitude(whole, fraction) else Magnitude(whole, fraction))
  {
    SplitAtPoint(whole, fraction);
  }

  /** The value of a decimal is the magnitude of its digits, with its sign. */
  lemma DecimalValueOfDigits(negative: bool, whole: nat, fraction: string)
    requires AllDigits(fraction)
    ensures AllDigits(NatText(whole))
    ensures DecimalValue(negative, whole, fraction)
      == if negative then -Magnitude(NatText(whole), fraction) else Magnitude(NatText(whole), fraction)
  {
    NatTextValue(whole);
  }

  /** The whole-part digits and the fraction of a decimal's text hold no '.'. */
  lemma DecimalPartsWithoutPoint(whole: nat, fraction: string)
    requires AllDigits(fraction)
    ensures '.' !in NatText(whole) && '.' !in fraction
  {
    var digits := NatText(whole);
    NatTextValue(whole);
    assert forall i :: 0 <= i < |digits| ==> digits[i] != '.';
    assert forall i :: 0 <= i < |fraction| ==> fraction[i] != '.';
  }

  /** `decimal.TryParse` reads the text of a decimal back as its value. */
  lemma ParseDecimalOfDecimalText(negative: bool, whole: nat, fraction: string)
    requires AllDigits(fraction)
    ensures ParseDecimal(DecimalText(negative, whole, fraction)) == Some(DecimalValue(negative, whole, fraction))
  {
    var t := DecimalText(negative, whole, fraction);
    DecimalTextShape(negative, whole, fraction);
    TrimmedAlready(t);
    NatTextValue(whole);
    DecimalPartsWithoutPoint(whole, fraction);
    ParseDecimalOfPoint(t, negative, NatText(whole), fraction);
    DecimalValueOfDigits(negative, whole, fraction);
  }

  predicate NoDigit(s: string) {
    forall i :: 0 <= i < |s| ==> !IsDigit(s[i])
  }

  /** No piece of a split text holds a digit the text does not hold. */
  lemma {:induction false} SplitNoDigit(s: string, sep: char)
    requires NoDigit(s)
    ensures forall p :: p in Split(s, sep) ==> NoDigit(p)
    decreases |s|
  {
    if s != [] {
      assert NoDigit(s[1..]);
      SplitNoDigit(s[1..], sep);
      var rest := Split(s[1..], sep);
      assert rest[0] in rest;
      if s[0] != sep {
        var first := [s[0]] + rest[0];
        assert NoDigit(first);
        assert forall p :: p in rest[1..] ==> p in rest;
      }
    }
  }

  /** A text without a digit (such as "N/A") never parses as an `int`. */
  lemma ParseIntNeedsDigit(s: string)
    requires NoDigit(s)
    ensures ParseInt(s) == None
  {
    var start := TrimStart(s, IsNumberWhite);
    var trimmed := TrimEnd(start, IsNumberWhite);
    assert NoDigit(start);
    assert NoDigit(trimmed);
    var (negative, digits) := Unsigned(trimmed);
    assert NoDigit(digits);
    assert digits != [] ==> !IsDigit(digits[0]);
  }

  /** A text without a digit never parses as a decimal. */
  lemma ParseDecimalNeedsDigit(s: string)
    requires NoDigit(s)
    ensures ParseDecimal(s) == None
  {
    var start := TrimStart(s, IsNumberWhite);
    var trimmed := TrimEnd(start, IsNumberWhite);
    assert NoDigit(start);
    assert NoDigit(trimmed);
    var (negative, body) := Unsigned(trimmed);
    assert NoDigit(body);
    SplitNoDigit(body, '.');
    var parts := Split(body, '.');
    if |parts| <= 2 {
      assert parts[0] in parts;
      assert |parts| == 2 ==> parts[1] in parts;
      var whole := parts[0];
      var fraction := if |parts| == 2 then parts[1] else [];
      assert |whole| > 0 ==> !IsDigit(whole[0]);
      assert |fraction| > 0 ==> !IsDigit(fraction[0]);
    }
  }
}
