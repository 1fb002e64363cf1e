/**
 * JavaScript numbers as the data pipeline uses them: `Number(x)` on a
 * string, `String(n)`, truthiness, `===`, `<` and `>`.
 *
 * A finite number is kept as an exact decimal `mantissa / 10^scale`;
 * NaN is its own case. Binary rounding, infinities, and exponent or
 * radix-prefixed literals are not represented.
 */
module JsNumbers {
  import opened JsStrings

  datatype Number = NaN | Dec(mantissa: int, scale: nat)

  function Pow10(e: nat): (r: nat)
    ensures r >= 1
  {
    if e == 0 then 1 else 10 * Pow10(e - 1)
  }

  /** `if (n)`: NaN and zero (of either sign) are falsy, every other number is truthy. */
  predicate IsTruthy(n: Number)
  {
    n.Dec? && n.mantissa != 0
  }

  /**
   * The sign of `a - b` for two finite numbers, compared exactly:
   * `m / 10^e` against `m' / 10^e'` is `m * 10^e'` against `m' * 10^e`.
   */
  function CrossDiff(a: Number, b: Number): int
    requires a.Dec? && b.Dec?
  {
    a.mantissa * Pow10(b.scale) - b.mantissa * Pow10(a.scale)
  }

  /** `a === b` on two numbers: NaN equals nothing, not even itself. */
  predicate StrictEquals(a: Number, b: Number)
  {
    a.Dec? && b.Dec? && CrossDiff(a, b) == 0
  }

  /** `a > b`: false whenever either side is NaN. */
  predicate IsGreater(a: Number, b: Number)
  {
    a.Dec? && b.Dec? && CrossDiff(a, b) > 0
  }

  /** `a < b`: false whenever either side is NaN. */
  predicate IsLess(a: Number, b: Number)
  {
    a.Dec? && b.Dec? && CrossDiff(a, b) < 0
  }

  // ---------------------------------------------------------------------
  // Number(s) for a string s
  // ---------------------------------------------------------------------

  /** The characters `Number(s)` ignores at both ends: white space and line terminators. */
  predicate IsJsWhitespace(c: char)
  {
    || c == ' ' || c == '\t' || c == '\n' || c == '\r'
    || c as int == 0x0B || c as int == 0x0C || c as int == 0xA0 || c as int == 0x1680
    || (0x2000 <= c as int <= 0x200A)
    || c as int == 0x2028 || c as int == 0x2029 || c as int == 0x202F || c as int == 0x205F
    || c as int == 0x3000 || c as int == 0xFEFF
  }

  function TrimStart(s: string): string
  {
    if s != [] && IsJsWhitespace(s[0]) then TrimStart(s[1..]) else s
  }

  function TrimEnd(s: string): string
  {
    if s != [] && IsJsWhitespace(s[|s| - 1]) then TrimEnd(s[..|s| - 1]) else s
  }

  function Trim(s: string): string
  {
    TrimEnd(TrimStart(s))
  }

  predicate IsDigit(c: char)
  {
    '0' <= c <= '9'
  }

  predicate AllDigits(s: string)
  {
    forall i :: 0 <= i < |s| ==> IsDigit(s[i])
  }

  /** The value of a string of decimal digits, most significant first. */
  function DigitsValue(s: string): nat
    requires AllDigits(s)
  {
    if s == [] then 0 else 10 * DigitsValue(s[..|s| - 1]) + (s[|s| - 1] as int - '0' as int)
  }

  /** Digits, optionally with one `.` and more digits; at least one digit in all. */
  function ParseUnsigned(t: string): Number
  {
    var dot := IndexOf(t, '.');
    var whole := t[..dot];
    var frac := if dot < |t| then t[dot + 1..] else "";
    if (whole == [] && frac == []) || !AllDigits(whole) || !AllDigits(frac) then NaN
    else Dec(DigitsValue(whole) * Pow10(|frac|) + DigitsValue(frac), |frac|)
  }

  function Negate(n: Number): Number
  {
    match n
    case NaN => NaN
    case Dec(m, e) => Dec(-m, e)
  }

  /** `Number(s)`: a blank string is 0, a malformed one NaN. */
  function ParseNumber(s: string): Number
  {
    var t := Trim(s);
    if t == [] then Dec(0, 0)
    else if t[0] == '-' then Negate(ParseUnsigned(t[1..]))
    else if t[0] == '+' then ParseUnsigned(t[1..])
    else ParseUnsigned(t)
  }

  // ---------------------------------------------------------------------
  // String(n)
  // ---------------------------------------------------------------------

  /** Drops trailing zero digits of the fraction: the shortest decimal with the same value. */
  function DropTrailingZeros(m: int, e: nat): (int, nat)
    decreases e
  {
    if e > 0 && m % 10 == 0 then DropTrailingZeros(m / 10, e - 1) else (m, e)
  }

  function DigitChar(d: nat): (c: char)
    requires d < 10
    ensures IsDigit(c)
  {
    ('0' as int + d) as char
  }

  function NatToString(n: nat): (r: string)
    ensures |r| >= 1 && AllDigits(r)
  {
    if n < 10 then [DigitChar(n)] else NatToString(n / 10) + [DigitChar(n % 10)]
  }

  /** Left-pads with `'0'` up to `width` characters. */
  function ZeroPad(s: string, width: nat): (r: string)
    ensures |r| == if |s| >= width then |s| else width
    decreases width - |s|
  {
    if |s| >= width then s else ZeroPad("0" + s, width)
  }

  /** The digits of `a / 10^e` for a natural `a`, with a `.` before the last `e` of them. */
  function UnsignedToString(a: nat, e: nat): string
  {
    if e == 0 then NatToString(a) else PointBefore(ZeroPad(NatToString(a), e + 1), e)
  }

  /** Puts a `.` before the last `e` characters of `s`. */
  function PointBefore(s: string, e: nat): string
    requires e < |s|
  {
    s[..|s| - e] + "." + s[|s| - e..]
  }

  /** `String(n)` for a number, in plain (non-exponent) decimal notation. */
  function NumberToString(n: Number): string
  {
    match n
    case NaN => "NaN"
    case Dec(m0, e0) =>
      var (m, e) := DropTrailingZeros(m0, e0);
      (if m < 0 then "-" else "") + UnsignedToString(if m < 0 then -m else m, e)
  }

  // ---------------------------------------------------------------------
  // Properties
  // ---------------------------------------------------------------------

  /** A blank string (empty, or only white space) converts to 0, which is falsy. */
  lemma BlankIsZero(s: string)
    requires forall i :: 0 <= i < |s| ==> IsJsWhitespace(s[i])
    ensures ParseNumber(s) == Dec(0, 0) && !IsTruthy(ParseNumber(s))
  {
    TrimStartBlank(s);
  }

  lemma {:induction false} TrimStartBlank(s: string)
    requires forall i :: 0 <= i < |s| ==> IsJsWhitespace(s[i])
    ensures TrimStart(s) == []
    decreases |s|
  {
    if s != [] {
      TrimStartBlank(s[1..]);
    }
  }

  /**
   * A character that is neither white space, a digit, `.`, `+` nor `-`
   * anywhere in the string makes `Number(s)` NaN (so `Number("abc")` is NaN).
   */
  lemma ForeignCharIsNaN(s: string, k: nat)
    requires k < |s|
    requires !IsJsWhitespace(s[k]) && !IsDigit(s[k]) && s[k] != '.' && s[k] != '+' && s[k] != '-'
    ensures ParseNumber(s) == NaN
  {
    var c := s[k];
    TrimStartKeeps(s, c);
    TrimEndKeeps(TrimStart(s), c);
    var t := Trim(s);
    assert c in t;
    if t[0] == '-' || t[0] == '+' {
      assert c in t[1..] by {
        var j :| 0 <= j < |t| && t[j] == c;
        assert j > 0 && t[1..][j - 1] == c;
      }
      UnsignedForeignCharIsNaN(t[1..], c);
    } else {
      UnsignedForeignCharIsNaN(t, c);
    }
  }

  lemma UnsignedForeignCharIsNaN(u: string, c: char)
    requires c in u && c != '.' && !IsDigit(c)
    ensures ParseUnsigned(u) == NaN
  {
    var j :| 0 <= j < |u| && u[j] == c;
    var dot := IndexOf(u, '.');
    if j < dot {
      assert u[..dot][j] == c;
    } else {
      assert u[dot + 1..][j - dot - 1] == c;
    }
  }

  lemma {:induction false} TrimStartKeeps(s: string, c: char)
    requires c in s && !IsJsWhitespace(c)
    ensures c in TrimStart(s)
    decreases |s|
  {
    if IsJsWhitespace(s[0]) {
      assert c in s[1..] by {
        var j :| 0 <= j < |s| && s[j] == c;
        assert j > 0 && s[1..][j - 1] == c;
      }
      TrimStartKeeps(s[1..], c);
    }
  }

  lemma {:induction false} TrimEndKeeps(s: string, c: char)
    requires c in s && !IsJsWhitespace(c)
    ensures c in TrimEnd(s)
    decreases |s|
  {
    if IsJsWhitespace(s[|s| - 1]) {
      assert c in s[..|s| - 1] by {
        var j :| 0 <= j < |s| && s[j] == c;
        assert j < |s| - 1 && s[..|s| - 1][j] == c;
      }
      TrimEndKeeps(s[..|s| - 1], c);
    }
  }

  // ---------------------------------------------------------------------
  // String(n) and Number(s) are inverse on numbers
  // ---------------------------------------------------------------------

  /** The number `String(n)` denotes: `n` with trailing zero digits of its fraction dropped. */
  function Canonical(n: Number): Number
  {
    match n
    case NaN => NaN
    case Dec(m, e) => var (m', e') := DropTrailingZeros(m, e); Dec(m', e')
  }

  /**
   * Converting a number to a string and back gives the same number: NaN
   * back to NaN, and a finite number to one of equal value.
   */
  lemma ParseNumberToString(n: Number)
    ensures ParseNumber(NumberToString(n)) == Canonical(n)
    ensures n.NaN? ==> ParseNumber(NumberToString(n)).NaN?
    ensures n.Dec? ==> StrictEquals(ParseNumber(NumberToString(n)), n)
  {
    match n
    case NaN =>
      NaNStringIsNaN();
    case Dec(m0, e0) =>
      DecRoundTrip(m0, e0);
  }

  /** `Number("NaN")` is NaN. */
  lemma NaNStringIsNaN()
    ensures ParseNumber("NaN") == NaN
  {
    ForeignCharIsNaN("NaN", 0);
  }

  /** A finite number comes back with its trailing fraction zeros dropped. */
  lemma DecRoundTrip(m0: int, e0: nat)
    ensures var (m, e) := DropTrailingZeros(m0, e0);
      ParseNumber(NumberToString(Dec(m0, e0))) == Dec(m, e) && m * Pow10(e0) == m0 * Pow10(e)
  {
    var (m, e) := DropTrailingZeros(m0, e0);
    DropTrailingZerosValue(m0, e0);
    var a := if m < 0 then -m else m;
    var body := UnsignedToString(a, e);
    UnsignedToStringParses(a, e);
    SignedParse(m < 0, body);
    assert NumberToString(Dec(m0, e0)) == (if m < 0 then "-" else "") + body;
  }

  /** Text that begins and ends with a digit. */
  predicate DigitEnds(s: string)
  {
    |s| >= 1 && IsDigit(s[0]) && IsDigit(s[|s| - 1])
  }

  /** The unsigned text reads back as the decimal it was made from, and begins and ends with a digit. */
  lemma UnsignedToStringParses(a: nat, e: nat)
    ensures DigitEnds(UnsignedToString(a, e))
    ensures ParseUnsigned(UnsignedToString(a, e)) == Dec(a, e)
  {
    if e == 0 {
      NatToStringParses(a);
    } else {
      PaddedParses(a, e);
    }
  }

  lemma NatToStringParses(a: nat)
    ensures DigitEnds(NatToString(a))
    ensures ParseUnsigned(NatToString(a)) == Dec(a, 0)
  {
    NatToStringValue(a);
    ParseUnsignedInteger(NatToString(a));
  }

  lemma PaddedParses(a: nat, e: nat)
    requires e >= 1
    ensures DigitEnds(PointBefore(ZeroPad(NatToString(a), e + 1), e))
    ensures ParseUnsigned(PointBefore(ZeroPad(NatToString(a), e + 1), e)) == Dec(a, e)
  {
    NatToStringValue(a);
    ZeroPadValue(NatToString(a), e + 1);
    PointBeforeParses(ZeroPad(NatToString(a), e + 1), e);
  }

  /** Digits with a `.` put before the last `e` of them read back as their value over `10^e`. */
  lemma PointBeforeParses(s: string, e: nat)
    requires 1 <= e < |s| && AllDigits(s)
    ensures DigitEnds(PointBefore(s, e))
    ensures ParseUnsigned(PointBefore(s, e)) == Dec(DigitsValue(s), e)
  {
    PointBeforeEnds(s, e);
    PointBeforeValue(s, e);
  }

  lemma PointBeforeEnds(s: string, e: nat)
    requires 1 <= e < |s| && AllDigits(s)
    ensures DigitEnds(PointBefore(s, e))
  {
    var t := PointBefore(s, e);
    assert t[0] == s[0];
    assert t[|t| - 1] == s[|s| - 1];
  }

  lemma PointBeforeValue(s: string, e: nat)
    requires 1 <= e < |s| && AllDigits(s)
    ensures ParseUnsigned(PointBefore(s, e)) == Dec(DigitsValue(s), e)
  {
    var w := s[..|s| - e];
    var f := s[|s| - e..];
    SplitDigits(s, |s| - e);
    ParseUnsignedDecimal(w, f);
  }

  /** Both halves of a string of digits are strings of digits, and put back together they give it again. */
  lemma SplitDigits(s: string, k: nat)
    requires k <= |s| && AllDigits(s)
    ensures AllDigits(s[..k]) && AllDigits(s[k..]) && s[..k] + s[k..] == s
  {
  }

  /** Text that begins and ends with a digit is not trimmed, and a leading `-` negates it. */
  lemma SignedParse(negative: bool, body: string)
    requires DigitEnds(body)
    ensures ParseNumber((if negative then "-" else "") + body)
         == if negative then Negate(ParseUnsigned(body)) else ParseUnsigned(body)
  {
    var str := (if negative then "-" else "") + body;
    assert str[|str| - 1] == body[|body| - 1];
    NoTrim(str);
    if negative {
      assert str[0] == '-';
      assert str[1..] == body;
    } else {
      assert str == body;
    }
  }

  /** Nothing is trimmed from text whose ends are not white space. */
  lemma NoTrim(s: string)
    requires |s| >= 1 && !IsJsWhitespace(s[0]) && !IsJsWhitespace(s[|s| - 1])
    ensures Trim(s) == s
  {
    assert TrimStart(s) == s;
  }

  /** Dropping trailing zeros keeps the value: m / 10^e == m' / 10^e', stated without division. */
  lemma {:induction false} DropTrailingZerosValue(m: int, e: nat)
    ensures var (m', e') := DropTrailingZeros(m, e); e' <= e && m * Pow10(e') == m' * Pow10(e)
    decreases e
  {
    if e > 0 && m % 10 == 0 {
      var (m', e') := DropTrailingZeros(m / 10, e - 1);
      DropTrailingZerosValue(m / 10, e - 1);
      ScaleByTen(m / 10, m', Pow10(e'), Pow10(e - 1));
    }
  }

  /** If `q p == m' p'` then `(10 q) p == m' (10 p')`. */
  lemma ScaleByTen(q: int, m': int, p: int, p': int)
    requires q * p == m' * p'
    ensures (10 * q) * p == m' * (10 * p')
  {
    calc {
      (10 * q) * p;
      10 * (q * p);
      10 * (m' * p');
      m' * (10 * p');
    }
  }

  /** Reading back the digits of `String(n)` for a natural number gives the number. */
  lemma {:induction false} NatToStringValue(n: nat)
    ensures DigitsValue(NatToString(n)) == n
  {
    if n >= 10 {
      NatToStringValue(n / 10);
      var s := NatToString(n / 10) + [DigitChar(n % 10)];
      assert s[..|s| - 1] == NatToString(n / 10);
    }
  }

  /** The value of digits `w` followed by digits `f`. */
  lemma {:induction false} DigitsAppend(w: string, f: string)
    requires AllDigits(w) && AllDigits(f)
    ensures AllDigits(w + f)
    ensures DigitsValue(w + f) == DigitsValue(w) * Pow10(|f|) + DigitsValue(f)
    decreases |f|
  {
    if f == [] {
      assert w + f == w;
    } else {
      var f' := f[..|f| - 1];
      DigitsAppend(w, f');
      var wf := w + f;
      assert wf[..|wf| - 1] == w + f';
      assert wf[|wf| - 1] == f[|f| - 1];
      ShiftDigit(DigitsValue(w), Pow10(|f'|), DigitsValue(f'), f[|f| - 1] as int - '0' as int);
    }
  }

  /** Appending digit `d` to `a` followed by `b`: `10 (a p + b) + d == a (10 p) + (10 b + d)`. */
  lemma ShiftDigit(a: int, p: int, b: int, d: int)
    ensures 10 * (a * p + b) + d == a * (10 * p) + (10 * b + d)
  {
    calc {
      10 * (a * p + b) + d;
      (10 * a) * p + 10 * b + d;
      a * (10 * p) + (10 * b + d);
    }
  }

  /** Left-padding with zeros keeps the digits and their value. */
  lemma {:induction false} ZeroPadValue(s: string, width: nat)
    requires AllDigits(s)
    ensures AllDigits(ZeroPad(s, width)) && DigitsValue(ZeroPad(s, width)) == DigitsValue(s)
    decreases width - |s|
  {
    if |s| < width {
      DigitsAppend("0", s);
      ZeroPadValue("0" + s, width);
    }
  }

  /** A string of digits parses to its value. */
  lemma ParseUnsignedInteger(digits: string)
    requires |digits| >= 1 && AllDigits(digits)
    ensures ParseUnsigned(digits) == Dec(DigitsValue(digits), 0)
  {
    NoDot(digits);
    assert digits[..|digits|] == digits;
  }

  /** Digits, a dot and digits parse to the decimal they spell. */
  lemma ParseUnsignedDecimal(w: string, f: string)
    requires |w| >= 1 && AllDigits(w) && AllDigits(f)
    ensures ParseUnsigned(w + "." + f) == Dec(DigitsValue(w + f), |f|)
  {
    var u := w + "." + f;
    NoDot(w);
    IndexOfFirst(w, '.', f);
    assert u[..|w|] == w;
    assert u[|w| + 1..] == f;
    DigitsAppend(w, f);
  }

  /** A string of digits holds no `.`. */
  lemma NoDot(s: string)
    requires AllDigits(s)
    ensures '.' !in s
  {
  }
}
