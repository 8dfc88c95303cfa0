/** The JavaScript built-ins the graticule core leans on, over exact numbers:
    String(n) for whole numbers, Number.prototype.toFixed, parseFloat on the texts
    toFixed produces, parseInt, String.prototype.split, and Number.prototype.toString
    of a terminating decimal.  Numbers are exact reals; binary floating point is
    not modelled. */
module JsText {

  datatype Option<T> = None | Some(value: T)

  function Abs(x: real): (r: real)
    ensures r >= 0.0 && (r == x || r == -x)
  {
    if x < 0.0 then -x else x
  }

  function Pow10(n: nat): (r: nat)
    ensures r >= 1
  {
    if n == 0 then 1 else 10 * Pow10(n - 1)
  }

  // ---------------------------------------------------------------------------
  // Digit strings

  predicate IsDigit(c: char) {
    '0' <= c <= '9'
  }

  predicate AllDigits(s: string) {
    forall i :: 0 <= i < |s| ==> IsDigit(s[i])
  }

  function DigitChar(d: nat): (c: char)
    requires d < 10
    ensures IsDigit(c)
  {
    ('0' as int + d) as char
  }

  function DigitValue(c: char): (d: nat)
    requires IsDigit(c)
    ensures d < 10
  {
    c as int - '0' as int
  }

  function Zeros(k: nat): (s: string)
    ensures |s| == k && AllDigits(s)
    ensures forall i :: 0 <= i < k ==> s[i] == '0'
  {
    seq(k, _ => '0')
  }

  /** String(n) for a whole number n >= 0: its decimal digits without leading zeros. */
  function NatText(n: nat): (s: string)
    ensures |s| >= 1 && AllDigits(s)
    ensures |s| > 1 ==> s[0] != '0'
  {
    if n < 10 then [DigitChar(n)] else NatText(n / 10) + [DigitChar(n % 10)]
  }

  /** The value of a string of decimal digits (most significant first). */
  function ParseNat(s: string): nat
    requires AllDigits(s)
  {
    if s == [] then 0 else ParseNat(s[..|s| - 1]) * 10 + DigitValue(s[|s| - 1])
  }

  /** The longest prefix of s made of decimal digits. */
  function DigitPrefix(s: string): (p: string)
    ensures AllDigits(p) && p <= s
    ensures |p| < |s| ==> !IsDigit(s[|p|])
  {
    if s != [] && IsDigit(s[0]) then [s[0]] + DigitPrefix(s[1..]) else []
  }

  lemma {:induction false} ParseNatText(n: nat)
    ensures ParseNat(NatText(n)) == n
  {
    if n >= 10 {
      var s := NatText(n);
      assert s[..|s| - 1] == NatText(n / 10);
      ParseNatText(n / 10);
    }
  }

  lemma {:induction false} ParseNatAppend(a: string, b: string)
    requires AllDigits(a) && AllDigits(b)
    ensures AllDigits(a + b)
    ensures ParseNat(a + b) == ParseNat(a) * Pow10(|b|) + ParseNat(b)
  {
    if b == [] {
      assert a + b == a;
    } else {
      var b' := b[..|b| - 1];
      var d := DigitValue(b[|b| - 1]);
      assert (a + b)[..|a + b| - 1] == a + b';
      assert ParseNat(a + b) == ParseNat(a + b') * 10 + d;
      assert ParseNat(b) == ParseNat(b') * 10 + d;
      ParseNatAppend(a, b');
      ShiftDigit(ParseNat(a), Pow10(|b'|), ParseNat(b'), d);
    }
  }

  lemma ShiftDigit(x: nat, p: nat, y: nat, d: nat)
    ensures (x * p + y) * 10 + d == x * (10 * p) + (y * 10 + d)
  {
  }

  lemma {:induction false} ParseNatZeros(k: nat)
    ensures ParseNat(Zeros(k)) == 0
  {
    if k > 0 {
      assert Zeros(k)[..k - 1] == Zeros(k - 1);
      ParseNatZeros(k - 1);
    }
  }

  lemma {:induction false} DigitPrefixOf(a: string, rest: string)
    requires AllDigits(a)
    requires rest == [] || !IsDigit(rest[0])
    ensures DigitPrefix(a + rest) == a
  {
    if a != [] {
      assert (a + rest)[1..] == a[1..] + rest;
      DigitPrefixOf(a[1..], rest);
    }
  }

  // ---------------------------------------------------------------------------
  // Rounding, as done by toFixed and Math.round

  /** The integer n with n / 10^digits nearest to |x|, the larger one on a tie:
      the digits toFixed(digits) prints for x. */
  function FixedUnits(x: real, digits: nat): (u: nat)
    ensures u as real <= Abs(x) * Pow10(digits) as real + 0.5 < u as real + 1.0
  {
    (Abs(x) * Pow10(digits) as real + 0.5).Floor
  }

  /** Number(x.toFixed(digits)) under exact arithmetic: x rounded half away from zero. */
  function RoundTo(x: real, digits: nat): (r: real)
    ensures (x < 0.0 ==> r <= 0.0) && (x >= 0.0 ==> r >= 0.0)
    ensures Abs(r) == FixedUnits(x, digits) as real / Pow10(digits) as real
  {
    var m := FixedUnits(x, digits) as real / Pow10(digits) as real;
    if x < 0.0 then -m else m
  }

  /** What rounding to `digits` decimals promises: the result is a whole number u
      of units 10^-digits (u is what toFixed prints) and it lies within half a unit of
      |x|, a tie going to the larger magnitude; RoundTo's own contract says it keeps
      the sign of x. */
  lemma RoundToNearest(x: real, digits: nat)
    ensures Abs(RoundTo(x, digits)) == FixedUnits(x, digits) as real / Pow10(digits) as real
    ensures Abs(x) - 0.5 / Pow10(digits) as real < Abs(RoundTo(x, digits))
      <= Abs(x) + 0.5 / Pow10(digits) as real
  {
    UnitsWithinHalf(Abs(x), Abs(RoundTo(x, digits)), FixedUnits(x, digits), Pow10(digits));
  }

  /** u units of 1/p, u being a * p rounded to the nearest whole number, lie within
      half a unit of a. */
  lemma UnitsWithinHalf(a: real, m: real, u: nat, p: nat)
    requires p >= 1 && m == u as real / p as real
    requires u as real <= a * p as real + 0.5 < u as real + 1.0
    ensures a - 0.5 / p as real < m <= a + 0.5 / p as real
  {
    assert m <= a + 0.5 / p as real by {
      assert u as real <= (a + 0.5 / p as real) * p as real;
    }
    assert a - 0.5 / p as real < m by {
      assert (a - 0.5 / p as real) * p as real < u as real;
    }
  }

  /** Math.round(x): the nearest integer, ties toward +infinity. */
  function JsRound(x: real): (k: int)
    ensures k as real - 0.5 <= x < k as real + 0.5
  {
    (x + 0.5).Floor
  }

  /** Math.trunc(x): the integer part of x, rounded toward zero. */
  function Trunc(x: real): int
  {
    if x < 0.0 then -((-x).Floor) else x.Floor
  }

  /** The % operator on numbers: the remainder of a truncating division, with
      the sign of the dividend. */
  function JsRem(a: real, b: real): real
    requires b != 0.0
  {
    a - b * Trunc(a / b) as real
  }

  /** The digits of u / 10^digits with exactly `digits` fractional digits, as
      toFixed prints a non-negative number whose scaled, rounded value is u. */
  function UnitsText(u: nat, digits: nat): (s: string)
    ensures |s| >= 1
  {
    if digits == 0 then NatText(u)
    else
      var padded := Padded(u, digits);
      var k := |padded|;
      padded[..k - digits] + "." + padded[k - digits..]
  }

  /** The digits of u, with leading zeros up to at least digits + 1 of them. */
  function Padded(u: nat, digits: nat): (s: string)
    ensures |s| > digits && AllDigits(s)
  {
    PadDigits(NatText(u), digits)
  }

  function PadDigits(m: string, digits: nat): (s: string)
    requires AllDigits(m)
    ensures |s| > digits && |s| >= |m| && AllDigits(s)
  {
    if |m| <= digits then Zeros(digits + 1 - |m|) + m else m
  }

  lemma PadDigitsValue(m: string, digits: nat)
    requires AllDigits(m)
    ensures ParseNat(PadDigits(m, digits)) == ParseNat(m)
  {
    if |m| <= digits {
      var z := Zeros(digits + 1 - |m|);
      ParseNatAppend(z, m);
      ParseNatZeros(digits + 1 - |m|);
      assert ParseNat(z + m) == 0 * Pow10(|m|) + ParseNat(m);
    }
  }

  lemma PaddedValue(u: nat, digits: nat)
    ensures ParseNat(Padded(u, digits)) == u
  {
    PadDigitsValue(NatText(u), digits);
    ParseNatText(u);
  }

  /** x.toFixed(digits): an optional "-", then |x| rounded to `digits` decimals in
      plain notation.  This is what toFixed prints for |x| < 10^21; from 10^21 on
      toFixed prints String(x) in exponent notation, which is not modelled. */
  function ToFixed(x: real, digits: nat): (s: string)
  {
    (if x < 0.0 then "-" else "") + UnitsText(FixedUnits(x, digits), digits)
  }

  /** parseFloat on a text of the form [-]digits[.digits], the only form toFixed
      produces below 10^21. */
  function ParseFloat(s: string): real {
    if |s| > 0 && s[0] == '-' then -ParseUnsigned(s[1..]) else ParseUnsigned(s)
  }

  function ParseUnsigned(s: string): real {
    var i := DigitPrefix(s);
    var rest := s[|i|..];
    if |rest| > 0 && rest[0] == '.' then PointValue(i, DigitPrefix(rest[1..])) else PointValue(i, [])
  }

  /** The value of the decimal text i.f, given its whole digits i and fractional digits f. */
  function PointValue(i: string, f: string): real
    requires AllDigits(i) && AllDigits(f)
  {
    ParseNat(i) as real + ParseNat(f) as real / Pow10(|f|) as real
  }

  /** The shape of UnitsText: whole digits, then (when digits > 0) a point and
      exactly `digits` fractional digits. */
  lemma UnitsTextShape(u: nat, digits: nat) returns (a: string, b: string)
    ensures AllDigits(a) && AllDigits(b) && |a| >= 1 && |b| == digits
    ensures ParseNat(a) * Pow10(digits) + ParseNat(b) == u
    ensures digits == 0 ==> UnitsText(u, digits) == a && b == []
    ensures digits > 0 ==> UnitsText(u, digits) == a + "." + b
  {
    if digits == 0 {
      a, b := NatText(u), [];
      ParseNatText(u);
    } else {
      var padded := Padded(u, digits);
      PaddedValue(u, digits);
      var k := |padded|;
      a, b := padded[..k - digits], padded[k - digits..];
      assert padded == a + b;
      ParseNatAppend(a, b);
    }
  }

  lemma ScaledSum(i: nat, f: nat, p: nat, u: nat)
    requires p >= 1 && i * p + f == u
    ensures i as real + f as real / p as real == u as real / p as real
  {
    assert u as real == i as real * p as real + f as real;
  }

  lemma ParseUnsignedPoint(a: string, b: string)
    requires AllDigits(a) && AllDigits(b)
    ensures ParseUnsigned(a + "." + b) == PointValue(a, b)
  {
    var s := a + "." + b;
    var tail := "." + b;
    assert s == a + tail;
    DigitPrefixOf(a, tail);
    assert DigitPrefix(s) == a;
    assert s[|a|..] == tail;
    assert tail[1..] == b;
    DigitPrefixOf(b, []);
    assert b + [] == b;
    assert DigitPrefix(b) == b;
  }

  /** parseFloat reads back exactly the value toFixed printed. */
  lemma ParseUnitsText(u: nat, digits: nat)
    ensures ParseUnsigned(UnitsText(u, digits)) == u as real / Pow10(digits) as real
  {
    var a, b := UnitsTextShape(u, digits);
    if digits == 0 {
      ParseWhole(a);
    } else {
      ParsePoint(a, b, u, digits);
    }
  }

  lemma ParseWhole(a: string)
    requires AllDigits(a)
    ensures ParseUnsigned(a) == ParseNat(a) as real
  {
    DigitPrefixOf(a, []);
    assert a + [] == a;
  }

  lemma ParsePoint(a: string, b: string, u: nat, digits: nat)
    requires AllDigits(a) && AllDigits(b) && |b| == digits
    requires ParseNat(a) * Pow10(digits) + ParseNat(b) == u
    ensures ParseUnsigned(a + "." + b) == u as real / Pow10(digits) as real
  {
    ParseUnsignedPoint(a, b);
    ScaledSum(ParseNat(a), ParseNat(b), Pow10(|b|), u);
  }

  /** The round trip the graticule relies on: Number(x.toFixed(n)) is x rounded. */
  lemma ParseToFixed(x: real, digits: nat)
    ensures ParseFloat(ToFixed(x, digits)) == RoundTo(x, digits)
  {
    var t := UnitsText(FixedUnits(x, digits), digits);
    ParseUnitsText(FixedUnits(x, digits), digits);
    if x < 0.0 {
      assert ToFixed(x, digits) == "-" + t;
      assert ("-" + t)[1..] == t;
    } else {
      assert ToFixed(x, digits) == t;
      assert t[0] != '-' by {
        var a, b := UnitsTextShape(FixedUnits(x, digits), digits);
        assert t[0] == a[0];
      }
    }
  }

  /** Number(x.toFixed(digits)): print x with toFixed and read the text back. */
  method NumberToFixed(x: real, digits: nat) returns (r: real)
    ensures r == RoundTo(x, digits)
  {
    r := ParseFloat(ToFixed(x, digits));
    ParseToFixed(x, digits);
  }

  // ---------------------------------------------------------------------------
  // parseInt and split

  /** parseInt(s, 10) on a text without leading blanks: an optional sign, then the
      leading digits; None stands for NaN (no digits). */
  function ParseInt(s: string): Option<int> {
    var neg := |s| > 0 && s[0] == '-';
    var body := if |s| > 0 && (s[0] == '-' || s[0] == '+') then s[1..] else s;
    var ds := DigitPrefix(body);
    if ds == [] then None
    else if neg then Some(-(ParseNat(ds) as int))
    else Some(ParseNat(ds))
  }

  /** s.split(c) for a one-character separator. */
  function Split(s: string, c: char): (parts: seq<string>)
    ensures |parts| >= 1
    ensures c in s ==> |parts| >= 2
  {
    if s == [] then [""]
    else
      var rest := Split(s[1..], c);
      if s[0] == c then [""] + rest else [[s[0]] + rest[0]] + rest[1..]
  }

  lemma {:induction false} SplitNone(s: string, c: char)
    requires c !in s
    ensures Split(s, c) == [s]
  {
    if s != [] {
      SplitNone(s[1..], c);
      assert [s[0]] + s[1..] == s;
    }
  }

  lemma {:induction false} SplitFirst(a: string, c: char, b: string)
    requires c !in a
    ensures Split(a + [c] + b, c) == [a] + Split(b, c)
  {
    if a == [] {
      assert a + [c] + b == [c] + b;
      assert ([c] + b)[1..] == b;
    } else {
      assert (a + [c] + b)[1..] == a[1..] + [c] + b;
      SplitFirst(a[1..], c, b);
      assert [a[0]] + a[1..] == a;
    }
  }

  lemma ParseIntNegated(m: nat)
    ensures ParseInt("-" + NatText(m)) == Some(-(m as int))
  {
    var s := "-" + NatText(m);
    assert s[1..] == NatText(m);
    DigitPrefixOf(NatText(m), []);
    assert NatText(m) + [] == NatText(m);
    ParseNatText(m);
  }

  // ---------------------------------------------------------------------------
  // Number.prototype.toString of a terminating decimal

  /** A non-negative number held as its shortest decimal: coef * 10^-exp, with no
      trailing zero in coef when exp > 0, and zero held as Decimal(0, 0). */
  datatype Decimal = Decimal(coef: nat, exp: nat)

  predicate Normal(d: Decimal) {
    (d.coef == 0 ==> d.exp == 0) && (d.exp > 0 ==> d.coef % 10 != 0)
  }

  function Value(d: Decimal): (r: real)
    ensures r >= 0.0 && (r == 0.0 <==> d.coef == 0)
  {
    d.coef as real / Pow10(d.exp) as real
  }

  /** The position of the decimal point relative to the first significant digit
      (the n of Number::toString in ECMA-262). */
  function PointPosition(d: Decimal): int {
    |NatText(d.coef)| - d.exp
  }

  /** x.toString() for x = Value(d) below 10^21: plain decimal notation, or
      exponent notation d[.ddd]e-k when x < 10^-6. */
  function NumberText(d: Decimal): (s: string)
    requires Normal(d) && PointPosition(d) <= 21
  {
    var digits := NatText(d.coef);
    if d.coef == 0 then "0"
    else if PointPosition(d) > -6 then UnitsText(d.coef, d.exp)
    else
      Mantissa(digits) + "e" + "-" + NatText(1 - PointPosition(d))
  }

  /** The mantissa of exponent notation: the first digit, then the others after a point. */
  function Mantissa(digits: string): string
    requires |digits| >= 1
  {
    [digits[0]] + (if |digits| > 1 then "." + digits[1..] else "")
  }

  lemma UnitsTextChars(u: nat, digits: nat)
    ensures 'e' !in UnitsText(u, digits) && '-' !in UnitsText(u, digits)
    ensures digits == 0 ==> '.' !in UnitsText(u, digits)
  {
    var a, b := UnitsTextShape(u, digits);
  }
}
