/**
 * Python's `float(text)` on an already stripped string, and `int(x)` on the float it gives.
 * A finite float is kept as the exact decimal it was written as, `digits * 10^exponent`:
 * no binary rounding and no overflow to infinity.
 */
module FloatText {
  import opened Wrappers
  import opened Text

  /** A float as `float()` returns it. */
  datatype PyFloat = Finite(digits: int, exponent: int) | Infinity(negative: bool) | NotANumber

  /** A decimal without sign and exponent, as `(digits, exponent)`. */
  datatype Decimal = Decimal(digits: nat, exponent: int)

  /** The value of a string of decimal digits (0 for none), or None if a non-digit occurs. */
  function ReadDigits(s: string): Option<nat>
  {
    if s == [] then Some(0)
    else if !IsDigit(s[|s| - 1]) then None
    else
      match ReadDigits(s[..|s| - 1])
      case None => None
      case Some(v) => Some(10 * v + DigitValue(s[|s| - 1]))
  }

  /** `digits[.digits]` or `.digits`: at least one digit and at most one point. */
  function ParseMantissa(s: string): Option<Decimal>
  {
    var k := IndexOf(s, '.');
    var whole := if k == -1 then s else s[..k];
    var fraction := if k == -1 then [] else s[k + 1..];
    if whole == [] && fraction == [] then None
    else
      match ReadDigits(whole + fraction)
      case None => None
      case Some(v) => Some(Decimal(v, 0 - |fraction|))
  }

  /** An exponent: an optional sign and at least one digit. */
  function ParseExponent(s: string): Option<int>
  {
    var negative := s != [] && s[0] == '-';
    var digits := if s != [] && (s[0] == '-' || s[0] == '+') then s[1..] else s;
    if digits == [] then None
    else
      match ReadDigits(digits)
      case None => None
      case Some(v) => Some(if negative then 0 - v else v)
  }

  /** The position of the first `e` or `E`, or -1. */
  function ExponentMark(s: string): (k: int)
    ensures -1 <= k < |s|
  {
    if s == [] then -1
    else if s[0] == 'e' || s[0] == 'E' then 0
    else
      var k := ExponentMark(s[1..]);
      if k == -1 then -1 else k + 1
  }

  /** A decimal number without a sign, with an optional `e`/`E` exponent. */
  function ParseUnsigned(s: string): Option<Decimal>
  {
    var k := ExponentMark(s);
    if k == -1 then ParseMantissa(s)
    else
      match (ParseMantissa(s[..k]), ParseExponent(s[k + 1..]))
      case (Some(m), Some(e)) => Some(Decimal(m.digits, m.exponent + e))
      case _ => None
  }

  /**
   * `float(s)`: an optional sign, then `inf`, `infinity` or `nan` in any letter case, or a
   * decimal number; None where Python raises ValueError.
   */
  function ParseFloat(s: string): Option<PyFloat>
  {
    var negative := s != [] && s[0] == '-';
    var body := if s != [] && (s[0] == '-' || s[0] == '+') then s[1..] else s;
    if SameIgnoringCase(body, "inf") || SameIgnoringCase(body, "infinity") then Some(Infinity(negative))
    else if SameIgnoringCase(body, "nan") then Some(NotANumber)
    else
      match ParseUnsigned(body)
      case None => None
      case Some(d) => Some(Finite(if negative then 0 - d.digits else d.digits, d.exponent))
  }

  /** `int(x)` on `digits * 10^exponent`: the integer toward zero. */
  function Truncate(digits: int, exponent: int): int
  {
    if exponent >= 0 then digits * Pow10(exponent)
    else if digits >= 0 then digits / Pow10(-exponent)
    else -((-digits) / Pow10(-exponent))
  }

  lemma DivisionBounds(m: nat, p: nat)
    requires p > 0
    ensures 0 <= (m / p) * p <= m < (m / p) * p + p
  {
    assert m == (m / p) * p + m % p;
  }

  /**
   * `int(x)` keeps the sign of `x` and drops less than one unit: for a negative exponent,
   * `|digits| - p < |n| * p <= |digits|` where `p = 10^-exponent`.
   */
  lemma TruncateBounds(digits: int, exponent: int)
    requires exponent < 0
    ensures var n := Truncate(digits, exponent);
            var p := Pow10(-exponent);
            && (digits >= 0 ==> 0 <= n * p <= digits < n * p + p)
            && (digits < 0 ==> digits <= n * p <= 0 && n * p - p < digits)
  {
    var p := Pow10(-exponent);
    if digits >= 0 {
      DivisionBounds(digits, p);
    } else {
      DivisionBounds(-digits, p);
      var q := (-digits) / p;
      assert Truncate(digits, exponent) * p == -(q * p);
    }
  }

  /** `int(x)`: None for an infinity (OverflowError) and for NaN (ValueError). */
  function IntOfFloat(x: PyFloat): (r: Option<int>)
    ensures r.Some? <==> x.Finite?
  {
    if x.Finite? then Some(Truncate(x.digits, x.exponent)) else None
  }

  /** Digit strings are read as the number they spell. */
  lemma {:induction false} ReadDigitsValue(s: string)
    requires AllDigits(s)
    ensures ReadDigits(s) == Some(DigitsValue(s))
  {
    if s != [] {
      ReadDigitsValue(s[..|s| - 1]);
    }
  }

  /** Digits contain no `e`, `E` or point. */
  lemma {:induction false} DigitsHaveNoMarks(s: string)
    requires AllDigits(s)
    ensures ExponentMark(s) == -1 && IndexOf(s, '.') == -1
  {
    if s != [] {
      DigitsHaveNoMarks(s[1..]);
    }
  }

  /** A body that starts with a digit is no sign, no infinity and no NaN. */
  lemma ParseFloatNumber(body: string, d: Decimal)
    requires body != [] && IsDigit(body[0]) && ParseUnsigned(body) == Some(d)
    ensures ParseFloat(body) == Some(Finite(d.digits, d.exponent))
    ensures ParseFloat("-" + body) == Some(Finite(0 - d.digits, d.exponent))
  {
    var t := "-" + body;
    assert t[1..] == body;
  }

  /** Digits alone are read as the whole number they spell. */
  lemma ParseUnsignedDigits(s: string)
    requires s != [] && AllDigits(s)
    ensures ParseUnsigned(s) == Some(Decimal(DigitsValue(s), 0))
  {
    DigitsHaveNoMarks(s);
    ReadDigitsValue(s);
    assert s + [] == s;
  }

  /** Digits, with or without a minus sign, are read as the integer they spell. */
  lemma ParseFloatDigits(s: string)
    requires s != [] && AllDigits(s)
    ensures ParseFloat(s) == Some(Finite(DigitsValue(s), 0))
    ensures ParseFloat("-" + s) == Some(Finite(0 - DigitsValue(s), 0))
  {
    ParseUnsignedDigits(s);
    ParseFloatNumber(s, Decimal(DigitsValue(s), 0));
  }

  /** A point between two digit strings, the first not empty, is read as a mantissa. */
  lemma ParseUnsignedPoint(w: string, f: string)
    requires AllDigits(w) && AllDigits(f) && w != []
    ensures ParseUnsigned(w + "." + f) == Some(Decimal(DigitsValue(w + f), 0 - |f|))
  {
    DigitsHaveNoMarks(w);
    DigitsHaveNoMarks(f);
    assert ExponentMark(".") == -1;
    ExponentMarkAppend(".", f);
    ExponentMarkAppend(w, "." + f);
    assert w + "." + f == w + ("." + f);
    ParseMantissaPoint(w, f);
  }

  lemma ParseMantissaPoint(w: string, f: string)
    requires AllDigits(w) && AllDigits(f) && w != []
    ensures ParseMantissa(w + "." + f) == Some(Decimal(DigitsValue(w + f), 0 - |f|))
  {
    var s := w + "." + f;
    DigitsHaveNoMarks(w);
    assert s == w + ("." + f);
    IndexOfAppend(w, "." + f, '.');
    assert s[..|w|] == w && s[|w| + 1..] == f;
    assert AllDigits(w + f);
    ReadDigitsValue(w + f);
  }

  /** No mark in `a` or in `b` means no mark in `a + b`. */
  lemma {:induction false} ExponentMarkAppend(a: string, b: string)
    requires ExponentMark(a) == -1 && ExponentMark(b) == -1
    ensures ExponentMark(a + b) == -1
  {
    if a == [] {
      assert a + b == b;
    } else {
      assert (a + b)[1..] == a[1..] + b;
      ExponentMarkAppend(a[1..], b);
    }
  }

  /** `c` first found in `b` behind an `a` without it is found at `|a|`. */
  lemma {:induction false} IndexOfAppend(a: string, b: string, c: char)
    requires IndexOf(a, c) == -1 && b != [] && b[0] == c
    ensures IndexOf(a + b, c) == |a|
  {
    if a == [] {
      assert a + b == b;
    } else {
      assert (a + b)[1..] == a[1..] + b;
      IndexOfAppend(a[1..], b, c);
    }
  }

  lemma ShiftStep(x: int, y: int, z: int, last: int)
    ensures 10 * (x * y + z) + last == x * (10 * y) + (10 * z + last)
  {
  }

  /** The value of digits written after others: the first part shifted left. */
  lemma {:induction false} DigitsValueAppend(a: string, b: string)
    requires AllDigits(a) && AllDigits(b)
    ensures DigitsValue(a + b) == DigitsValue(a) * Pow10(|b|) + DigitsValue(b)
  {
    if b == [] {
      assert a + b == a;
    } else {
      var ab := a + b;
      var b' := b[..|b| - 1];
      assert ab[..|ab| - 1] == a + b';
      assert ab[|ab| - 1] == b[|b| - 1];
      DigitsValueAppend(a, b');
      var last := DigitValue(b[|b| - 1]);
      assert DigitsValue(ab) == 10 * DigitsValue(a + b') + last;
      assert DigitsValue(b) == 10 * DigitsValue(b') + last;
      assert Pow10(|b|) == 10 * Pow10(|b'|);
      ShiftStep(DigitsValue(a), Pow10(|b'|), DigitsValue(b'), last);
    }
  }

  /** Digits, a point and digits are read as one decimal with the fraction's length as scale. */
  lemma ParseFloatPoint(w: string, f: string)
    requires AllDigits(w) && AllDigits(f) && w != []
    ensures ParseFloat(w + "." + f) == Some(Finite(DigitsValue(w + f), 0 - |f|))
  {
    ParseUnsignedPoint(w, f);
    ParseFloatNumber(w + "." + f, Decimal(DigitsValue(w + f), 0 - |f|));
  }

  /**
   * `int(float(w + "." + f))` for digit strings `w` and `f` is the integer `w` spells: the
   * fraction is dropped, as Python truncates toward zero.
   */
  lemma IntOfFloatPoint(w: string, f: string)
    requires AllDigits(w) && AllDigits(f) && w != []
    ensures ParseFloat(w + "." + f).Some?
    ensures IntOfFloat(ParseFloat(w + "." + f).value) == Some(DigitsValue(w))
  {
    ParseFloatPoint(w, f);
    TruncateAppended(w, f);
  }

  /** Dropping the last `|f|` digits of `w + f` leaves the value of `w`. */
  lemma TruncateAppended(w: string, f: string)
    requires AllDigits(w) && AllDigits(f)
    ensures Truncate(DigitsValue(w + f), 0 - |f|) == DigitsValue(w)
  {
    var p := Pow10(|f|);
    DigitsValueAppend(w, f);
    DigitsValueBound(f);
    DivisionExact(DigitsValue(w), DigitsValue(f), p);
    if |f| > 0 {
      TruncateScaledDown(DigitsValue(w + f), |f|);
    } else {
      TruncateWhole(DigitsValue(w + f));
    }
  }

  lemma TruncateScaledDown(digits: nat, k: nat)
    requires k > 0
    ensures Truncate(digits, 0 - k) == digits / Pow10(k)
  {
  }

  /** `k` digits spell less than `10^k`. */
  lemma {:induction false} DigitsValueBound(s: string)
    requires AllDigits(s)
    ensures DigitsValue(s) < Pow10(|s|)
  {
    if s != [] {
      DigitsValueBound(s[..|s| - 1]);
    }
  }

  /** Division by `p` undoes `q * p + r` for a remainder below `p`. */
  lemma DivisionExact(q: nat, r: nat, p: nat)
    requires r < p
    ensures (q * p + r) / p == q
  {
    var m := q * p + r;
    DivisionBounds(m, p);
    var d := m / p;
    if d < q {
      MultiplyMonotone(d + 1, q, p);
    } else if d > q {
      MultiplyMonotone(q + 1, d, p);
    }
  }

  lemma MultiplyMonotone(a: nat, b: nat, p: nat)
    requires a <= b
    ensures a * p <= b * p
  {
    assert b * p == a * p + (b - a) * p;
  }

  lemma TruncateWhole(n: int)
    ensures Truncate(n, 0) == n
  {
    assert Pow10(0) == 1;
  }

  /** `int(float(s))` and `int(float("-" + s))` for digits `s` are the integer `s` spells and its negation. */
  lemma IntOfFloatDigits(s: string)
    requires s != [] && AllDigits(s)
    ensures ParseFloat(s).Some? && IntOfFloat(ParseFloat(s).value) == Some(DigitsValue(s))
    ensures ParseFloat("-" + s).Some? && IntOfFloat(ParseFloat("-" + s).value) == Some(0 - DigitsValue(s))
  {
    ParseFloatDigits(s);
    TruncateWhole(DigitsValue(s));
    TruncateWhole(0 - DigitsValue(s));
  }
}
