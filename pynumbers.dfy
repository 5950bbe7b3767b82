/**
 * Python's `int(text)` and `float(text)` on the short numeric texts the listing parser meets.
 * Numbers are exact: `float(text)` is read as an exact decimal rather than rounded to the nearest
 * binary double, so a product such as `float("2.3") * 100_000` is exact here while Python's
 * double gives 229999.99999999997 and `int()` of it 229999.
 */
module PyNumbers {
  import opened Wrappers

  predicate IsDigit(c: char) {
    '0' <= c <= '9'
  }

  predicate AllDigits(s: string) {
    forall i :: 0 <= i < |s| ==> IsDigit(s[i])
  }

  predicate IsSign(c: char) {
    c == '+' || c == '-'
  }

  function DigitValue(c: char): nat
    requires IsDigit(c)
  {
    c as int - '0' as int
  }

  function DigitChar(d: nat): (c: char)
    requires d < 10
    ensures IsDigit(c) && DigitValue(c) == d
  {
    ('0' as int + d) as char
  }

  /** The number a string of decimal digits spells; no digits spell 0. */
  function DigitsValue(s: string): nat
    requires AllDigits(s)
    decreases |s|
  {
    if s == [] then 0 else DigitsValue(s[..|s| - 1]) * 10 + DigitValue(s[|s| - 1])
  }

  function Pow10(n: nat): (r: nat)
    ensures r >= 1
  {
    if n == 0 then 1 else 10 * Pow10(n - 1)
  }

  lemma {:induction false} Pow10Add(a: nat, b: nat)
    ensures Pow10(a + b) == Pow10(a) * Pow10(b)
    decreases a
  {
    if a > 0 {
      Pow10Add(a - 1, b);
    }
  }

  /** Python's `str(n)` for a natural number: its decimal digits, with no leading zero. */
  function ShowNat(n: nat): (s: string)
    ensures s != [] && AllDigits(s)
    ensures |s| == 1 || s[0] != '0'
    decreases n
  {
    if n < 10 then [DigitChar(n)] else ShowNat(n / 10) + [DigitChar(n % 10)]
  }

  /** Reading back the digits `str(n)` writes gives `n`. */
  lemma {:induction false} ShowNatRoundTrip(n: nat)
    ensures DigitsValue(ShowNat(n)) == n
    decreases n
  {
    if n >= 10 {
      ShowNatRoundTrip(n / 10);
      var s := ShowNat(n);
      assert s[..|s| - 1] == ShowNat(n / 10);
    }
  }

  /** Digits written after others shift them left by their own count. */
  lemma {:induction false} DigitsValueAppend(a: string, b: string)
    requires AllDigits(a) && AllDigits(b)
    ensures AllDigits(a + b)
    ensures DigitsValue(a + b) == DigitsValue(a) * Pow10(|b|) + DigitsValue(b)
    decreases |b|
  {
    assert AllDigits(a + b) by {
      forall i | 0 <= i < |a + b| ensures IsDigit((a + b)[i]) {
        if i >= |a| {
          assert (a + b)[i] == b[i - |a|];
        }
      }
    }
    if b == [] {
      assert a + b == a;
    } else {
      var b' := b[..|b| - 1];
      DigitsValueAppend(a, b');
      assert (a + b)[..|a + b| - 1] == a + b';
      assert b[..|b| - 1] == b';
      var d := DigitValue(b[|b| - 1]);
      assert DigitsValue(a + b) == DigitsValue(a + b') * 10 + d;
      assert DigitsValue(b) == DigitsValue(b') * 10 + d;
      ShiftOneDigit(DigitsValue(a), Pow10(|b'|), DigitsValue(b'), d);
    }
  }

  lemma ShiftOneDigit(x: int, p: int, y: int, d: int)
    ensures (x * p + y) * 10 + d == x * (10 * p) + (y * 10 + d)
  {
  }

  // ---------------------------------------------------------------- int()

  /** An optional sign followed by one or more ASCII digits: the texts `int()` accepts. */
  predicate IntText(t: string) {
    t != [] && (IsDigit(t[0]) || |t| > 1)
    && forall i :: 0 <= i < |t| ==> IsDigit(t[i]) || (i == 0 && IsSign(t[i]))
  }

  /**
   * Python's `int(t)` for a token without whitespace: an optional sign and one or more ASCII digits.
   * None where Python raises ValueError.
   */
  function ParseInt(t: string): (r: Option<int>)
    ensures r.Some? <==> IntText(t)
    ensures r.Some? && r.value < 0 ==> t[0] == '-'
  {
    if t != [] && IsSign(t[0]) then
      var body := t[1..];
      if body != [] && AllDigits(body) then
        assert forall i :: 1 <= i < |t| ==> t[i] == body[i - 1];
        var v: int := DigitsValue(body);
        Some(if t[0] == '-' then -v else v)
      else
        None
    else if t != [] && AllDigits(t) then
      Some(DigitsValue(t))
    else
      None
  }

  /** Digits read as their value, and a leading "+" changes nothing: `int("+12") == int("12") == 12`. */
  lemma LeadingPlus(d: string)
    requires d != [] && AllDigits(d)
    ensures ParseInt(d) == Some(DigitsValue(d))
    ensures ParseInt("+" + d) == ParseInt(d)
  {
    assert !IsSign(d[0]);
    SignedDigits('+', d);
  }

  /** A leading zero changes nothing, with or without a minus: `int("012") == int("12")`, `int("-012") == int("-12")`. */
  lemma LeadingZero(d: string)
    requires d != [] && AllDigits(d)
    ensures ParseInt("0" + d) == ParseInt(d)
    ensures ParseInt("-" + ("0" + d)) == ParseInt("-" + d)
  {
    assert !IsSign(d[0]);
    ZeroDigits(d);
    SignedDigits('-', d);
    SignedDigits('-', "0" + d);
  }

  /** A sign and then digits read as the digits' value, negated for "-". */
  lemma SignedDigits(sign: char, d: string)
    requires IsSign(sign) && d != [] && AllDigits(d)
    ensures ParseInt([sign] + d) == Some(if sign == '-' then -(DigitsValue(d) as int) else DigitsValue(d))
  {
    var t := [sign] + d;
    assert t[0] == sign && t[1..] == d;
  }

  /** A leading zero adds nothing to the digits' value. */
  lemma ZeroDigits(d: string)
    requires d != [] && AllDigits(d)
    ensures AllDigits("0" + d) && DigitsValue("0" + d) == DigitsValue(d)
    ensures ParseInt("0" + d) == Some(DigitsValue(d))
  {
    DigitsValueAppend("0", d);
    assert DigitsValue("0") == 0 by {
      assert "0"[..0] == [];
    }
    var t := "0" + d;
    assert !IsSign(t[0]);
  }

  /** Python's `str(i)`. */
  function ShowInt(i: int): string {
    if i < 0 then "-" + ShowNat(-i) else ShowNat(i)
  }

  /** `int(str(i)) == i`. */
  lemma IntRoundTrip(i: int)
    ensures ParseInt(ShowInt(i)) == Some(i)
  {
    if i < 0 {
      NegativeIntText(-i);
    } else {
      NaturalIntText(i);
    }
  }

  lemma NegativeIntText(n: nat)
    requires n > 0
    ensures ParseInt("-" + ShowNat(n)) == Some(-(n as int))
  {
    ShowNatRoundTrip(n);
    assert ("-" + ShowNat(n))[1..] == ShowNat(n);
  }

  lemma NaturalIntText(n: nat)
    ensures ParseInt(ShowNat(n)) == Some(n)
  {
    ShowNatRoundTrip(n);
    assert !IsSign(ShowNat(n)[0]);
  }

  // ---------------------------------------------------------------- float()

  /** An exact decimal number: `mantissa` × 10^`exponent`, negated when `negative`. */
  datatype Decimal = Decimal(negative: bool, mantissa: nat, exponent: int)

  predicate IsPoint(c: char) {
    c == '.'
  }

  predicate IsExponentMark(c: char) {
    c == 'e' || c == 'E'
  }

  /** The code points that can appear in a text `float()` accepts as a finite number. */
  predicate FloatChar(c: char) {
    IsDigit(c) || IsSign(c) || IsPoint(c) || IsExponentMark(c)
  }

  /** The index of the first code point of `s` that satisfies `mark`, or |s| when there is none. */
  function FirstIndex(s: string, mark: char -> bool): (k: nat)
    ensures k <= |s| && (k < |s| ==> mark(s[k]))
    ensures forall i :: 0 <= i < k ==> !mark(s[i])
    decreases |s|
  {
    if s == [] || mark(s[0]) then 0 else 1 + FirstIndex(s[1..], mark)
  }

  /**
   * An unsigned mantissa `digits[.digits]` or `.digits`, with at least one digit, as the exact decimal
   * it spells: all its digits, scaled down by the number of them that follow the point.
   */
  function ParseMantissa(m: string): (r: Option<Decimal>)
    ensures r.Some? ==> !r.value.negative && r.value.exponent <= 0
    ensures r.Some? ==> forall i :: 0 <= i < |m| ==> IsDigit(m[i]) || IsPoint(m[i])
  {
    var dot := FirstIndex(m, IsPoint);
    var whole := m[..dot];
    var frac := if dot < |m| then m[dot + 1..] else [];
    if AllDigits(whole) && AllDigits(frac) && |whole| + |frac| > 0 then
      DigitsValueAppend(whole, frac);
      MantissaChars(m, dot);
      Some(Decimal(false, DigitsValue(whole + frac), -|frac|))
    else
      None
  }

  /** Digits before a point and digits after it: every character is a digit or the point. */
  lemma MantissaChars(m: string, dot: nat)
    requires dot <= |m| && (dot < |m| ==> IsPoint(m[dot]))
    requires AllDigits(m[..dot]) && AllDigits(if dot < |m| then m[dot + 1..] else [])
    ensures forall i :: 0 <= i < |m| ==> IsDigit(m[i]) || IsPoint(m[i])
  {
    forall i | 0 <= i < |m|
      ensures IsDigit(m[i]) || IsPoint(m[i])
    {
      if i < dot {
        assert m[i] == m[..dot][i];
      } else if dot < i {
        assert m[i] == m[dot + 1..][i - dot - 1];
      }
    }
  }

  /** Python's `float(u)` for a text with no sign in front: a mantissa and an optional exponent. */
  function ParseUnsignedFloat(u: string): (r: Option<Decimal>)
    ensures r.Some? ==> !r.value.negative
    ensures r.Some? ==> forall i :: 0 <= i < |u| ==> FloatChar(u[i])
  {
    var e := FirstIndex(u, IsExponentMark);
    var mantissa := ParseMantissa(u[..e]);
    var exponent := if e < |u| then ParseInt(u[e + 1..]) else Some(0);
    if mantissa.Some? && exponent.Some? then
      UnsignedChars(u, e);
      Some(Decimal(false, mantissa.value.mantissa, mantissa.value.exponent + exponent.value))
    else
      None
  }

  /** A mantissa, then an exponent mark and an integer: every character is one `float()` accepts. */
  lemma UnsignedChars(u: string, e: nat)
    requires e <= |u| && (e < |u| ==> IsExponentMark(u[e]))
    requires forall i :: 0 <= i < e ==> IsDigit(u[..e][i]) || IsPoint(u[..e][i])
    requires e < |u| ==> IntText(u[e + 1..])
    ensures forall i :: 0 <= i < |u| ==> FloatChar(u[i])
  {
    forall i | 0 <= i < |u|
      ensures FloatChar(u[i])
    {
      if i < e {
        assert u[i] == u[..e][i];
      } else if e < i {
        assert u[i] == u[e + 1..][i - e - 1];
      }
    }
  }

  /**
   * Python's `float(t)` for a text without surrounding whitespace, as an exact decimal:
   * an optional sign, a mantissa, and an optional exponent `e` or `E` followed by a signed integer.
   * None where Python raises ValueError. The texts "inf", "nan" and "infinity" that `float()` also
   * accepts are None here; `int()` of those raises in Python, so every caller fails on them either way.
   */
  function ParseFloat(t: string): (r: Option<Decimal>)
    ensures r.Some? ==> forall i :: 0 <= i < |t| ==> FloatChar(t[i])
  {
    if t != [] && IsSign(t[0]) then
      var u := ParseUnsignedFloat(t[1..]);
      if u.Some? then
        assert forall i :: 1 <= i < |t| ==> t[i] == t[1..][i - 1];
        Some(u.value.(negative := t[0] == '-'))
      else
        None
    else
      ParseUnsignedFloat(t)
  }

  /** `d` written in scientific notation, as `-1234e-2` for -12.34. */
  function ScientificText(d: Decimal): string {
    var unsigned := ShowNat(d.mantissa) + "e" + ShowInt(d.exponent);
    if d.negative then "-" + unsigned else unsigned
  }

  /** Every exact decimal is read back from its scientific notation. */
  lemma FloatRoundTrip(d: Decimal)
    ensures ParseFloat(ScientificText(d)) == Some(d)
  {
    var digits := ShowNat(d.mantissa);
    var unsigned := digits + "e" + ShowInt(d.exponent);
    UnsignedScientific(digits, d.mantissa, d.exponent);
    if d.negative {
      assert ScientificText(d) == "-" + unsigned;
      NegatedFloat(unsigned);
    } else {
      assert ScientificText(d) == unsigned;
      assert unsigned[0] == digits[0];
      UnsignedFloat(unsigned);
    }
  }

  /** A minus sign in front negates what the rest reads as. */
  lemma NegatedFloat(u: string)
    requires ParseUnsignedFloat(u).Some?
    ensures ParseFloat("-" + u) == Some(ParseUnsignedFloat(u).value.(negative := true))
  {
    assert ("-" + u)[1..] == u;
  }

  /**
   * The sign law of `float()`: for a text with no sign of its own, a leading "-" negates what
   * `float()` reads, a leading "+" changes nothing, and either fails exactly when the text does.
   */
  lemma SignedFloat(u: string)
    requires u == [] || !IsSign(u[0])
    ensures ParseFloat("-" + u).Some? <==> ParseFloat(u).Some?
    ensures ParseFloat("+" + u) == ParseFloat(u)
    ensures ParseFloat(u).Some? ==> ParseFloat("-" + u) == Some(ParseFloat(u).value.(negative := true))
  {
    assert ("-" + u)[1..] == u && ("+" + u)[1..] == u;
    assert ParseFloat(u) == ParseUnsignedFloat(u);
  }

  /** A text that starts with a digit has no sign to read. */
  lemma UnsignedFloat(u: string)
    requires u != [] && IsDigit(u[0])
    ensures ParseFloat(u) == ParseUnsignedFloat(u)
  {
  }

  lemma UnsignedScientific(digits: string, m: nat, x: int)
    requires digits == ShowNat(m)
    ensures ParseUnsignedFloat(digits + "e" + ShowInt(x)) == Some(Decimal(false, m, x))
  {
    var unsigned := digits + "e" + ShowInt(x);
    NoMarkInDigits(unsigned, |digits|, IsExponentMark);
    assert unsigned[..|digits|] == digits;
    assert unsigned[|digits| + 1..] == ShowInt(x);
    IntRoundTrip(x);
    MantissaOfDigits(digits);
    ShowNatRoundTrip(m);
  }

  /** A text of digits alone is a mantissa with no fraction. */
  lemma MantissaOfDigits(digits: string)
    requires AllDigits(digits) && digits != []
    ensures ParseMantissa(digits) == Some(Decimal(false, DigitsValue(digits), 0))
  {
    NoMarkInDigits(digits, |digits|, IsPoint);
    assert digits[..|digits|] == digits;
    assert digits + [] == digits;
  }

  /** A plain decimal text: the digits of `n`, then, when `frac` is not empty, a point and `frac`. */
  function PointText(n: nat, frac: string): string
    requires AllDigits(frac)
  {
    ShowNat(n) + (if frac == [] then [] else "." + frac)
  }

  /** `float()` reads a plain decimal text as its digits scaled by the number of fraction digits. */
  lemma ParsePointText(n: nat, frac: string)
    requires AllDigits(frac)
    ensures AllDigits(ShowNat(n) + frac)
    ensures ParseFloat(PointText(n, frac)) == Some(Decimal(false, DigitsValue(ShowNat(n) + frac), -|frac|))
  {
    var digits := ShowNat(n);
    var t := PointText(n, frac);
    DigitsValueAppend(digits, frac);
    if frac == [] {
      assert t == digits;
      assert digits + frac == digits;
      MantissaOfDigits(digits);
    } else {
      assert t == digits + "." + frac;
      MantissaOfPointText(digits, frac);
    }
    forall i | 0 <= i < |t| ensures !IsExponentMark(t[i]) {
      assert IsDigit(t[i]) || IsPoint(t[i]);
    }
    NoExponent(t);
    assert t[0] == digits[0];
  }

  /** Digits, a point and more digits make a mantissa whose fraction digits are those after the point. */
  lemma MantissaOfPointText(digits: string, frac: string)
    requires AllDigits(digits) && AllDigits(frac) && digits != []
    ensures AllDigits(digits + frac)
    ensures ParseMantissa(digits + "." + frac) == Some(Decimal(false, DigitsValue(digits + frac), -|frac|))
  {
    var m := digits + "." + frac;
    DigitsValueAppend(digits, frac);
    NoMarkInDigits(m, |digits|, IsPoint);
    assert m[..|digits|] == digits;
    assert m[|digits| + 1..] == frac;
  }

  /** A mantissa with no exponent after it is read as it stands. */
  lemma NoExponent(u: string)
    requires ParseMantissa(u).Some?
    ensures ParseUnsignedFloat(u) == ParseMantissa(u)
  {
    forall i | 0 <= i < |u| ensures !IsExponentMark(u[i]) {
      assert IsDigit(u[i]) || IsPoint(u[i]);
    }
    NoMarkInDigits(u, |u|, IsExponentMark);
    assert u[..|u|] == u;
  }

  lemma NoMarkInDigits(s: string, k: nat, mark: char -> bool)
    requires k <= |s| && forall i :: 0 <= i < k ==> !mark(s[i])
    requires k < |s| ==> mark(s[k])
    ensures FirstIndex(s, mark) == k
    decreases k
  {
    if k > 0 {
      assert forall i :: 0 <= i < k - 1 ==> s[1..][i] == s[i + 1];
      NoMarkInDigits(s[1..], k - 1, mark);
    }
  }

  function Abs(i: int): nat {
    if i < 0 then -i else i
  }

  /** Natural division rounds down: the quotient times the divisor is at most the dividend, and one more is too much. */
  lemma DivBounds(m: nat, p: nat, q: int)
    requires p >= 1 && q == m / p
    ensures 0 <= q && q * p <= m < (q + 1) * p
  {
  }

  /** m × 10^n. */
  function ScaleUp(m: nat, n: nat): (q: nat)
    ensures q == m * Pow10(n)
  {
    var p := Pow10(n);
    assert m * p >= 0;
    m * p
  }

  /** m / 10^n, truncated. */
  function ScaleDown(m: nat, n: nat): (q: nat)
    ensures q * Pow10(n) <= m < (q + 1) * Pow10(n)
  {
    var p := Pow10(n);
    var q: int := m / p;
    DivBounds(m, p, q);
    q
  }

  /** The size of m × 10^shift, truncated toward zero when `shift` is negative. */
  function ShiftedMagnitude(m: nat, shift: int): (q: nat)
    ensures shift >= 0 ==> q == m * Pow10(shift)
    ensures shift < 0 ==> q * Pow10(-shift) <= m < (q + 1) * Pow10(-shift)
  {
    if shift >= 0 then ScaleUp(m, shift) else ScaleDown(m, -shift)
  }

  /**
   * `int(value × 10^k)`: the exact product truncated toward zero, the way Python's `int()` truncates
   * the float it is given.
   */
  function TruncScaled(d: Decimal, k: nat): (r: int)
    ensures Abs(r) == ShiftedMagnitude(d.mantissa, d.exponent + k)
    ensures d.negative ==> r <= 0
    ensures !d.negative ==> r >= 0
  {
    var q: int := ShiftedMagnitude(d.mantissa, d.exponent + k);
    if d.negative then -q else q
  }
}
