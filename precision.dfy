/** The precision-digit counter of the graticule (_getvaluenumber): how many
    fractional digits the text of a number carries. */
module Precision {
  import opened JsText

  /** The count read off a number's text s: in exponent form, the exponent's
      magnitude plus the mantissa's fractional digits; otherwise the digits after
      the point (none when there is no point).  None stands for NaN, which an
      exponent without digits would produce. */
  function TextDigits(s: string): Option<nat> {
    if 'e' in s then
      var parts := Split(s, 'e');
      var mantissa := Split(parts[0], '.');
      var frac := if |mantissa| > 1 then mantissa[1] else "";
      match ParseInt(parts[1])
      case None => None
      case Some(e) => Some((if e < 0 then -e else e) + |frac|)
    else
      var parts := Split(s, '.');
      Some(if |parts| > 1 then |parts[1]| else 0)
  }

  /** _getvaluenumber(x) for the number x = Value(d): 0 for zero, otherwise the
      count read off x.toString().  It is exactly the number of decimals of x. */
  function FractionDigits(d: Decimal): (r: Option<nat>)
    requires Normal(d) && PointPosition(d) <= 21
    ensures r == Some(d.exp)
  {
    if d.coef == 0 then Some(0)
    else
      NumberTextDigits(d);
      TextDigits(NumberText(d))
  }

  lemma NumberTextDigits(d: Decimal)
    requires Normal(d) && PointPosition(d) <= 21 && d.coef > 0
    ensures TextDigits(NumberText(d)) == Some(d.exp)
  {
    if PointPosition(d) > -6 {
      PlainNumberDigits(d);
    } else {
      ExponentNumberDigits(d);
    }
  }

  /** From 10^-6 upwards the number is printed in plain notation. */
  lemma PlainNumberDigits(d: Decimal)
    requires Normal(d) && -6 < PointPosition(d) <= 21 && d.coef > 0
    ensures TextDigits(NumberText(d)) == Some(d.exp)
  {
    PlainNumberText(d);
    PlainTextDigits(d.coef, d.exp);
  }

  lemma PlainNumberText(d: Decimal)
    requires Normal(d) && -6 < PointPosition(d) <= 21 && d.coef > 0
    ensures NumberText(d) == UnitsText(d.coef, d.exp)
  {
  }

  /** Below 10^-6 the number is printed as mantissa, "e-" and the exponent. */
  lemma ExponentNumberDigits(d: Decimal)
    requires Normal(d) && PointPosition(d) <= -6 && d.coef > 0
    ensures TextDigits(NumberText(d)) == Some(d.exp)
  {
    var digits := NatText(d.coef);
    var m: nat := 1 - PointPosition(d);
    ExponentNumberText(d, digits, m);
    ExponentTextDigits(digits, m, d.exp);
  }

  lemma ExponentNumberText(d: Decimal, digits: string, m: nat)
    requires Normal(d) && PointPosition(d) <= -6 && d.coef > 0
    requires digits == NatText(d.coef) && m == 1 - PointPosition(d)
    ensures NumberText(d) == Mantissa(digits) + "e" + "-" + NatText(m)
    ensures m + |digits| - 1 == d.exp
  {
  }

  /** Plain notation: the count is the number of digits after the point. */
  lemma PlainTextDigits(u: nat, digits: nat)
    ensures TextDigits(UnitsText(u, digits)) == Some(digits)
  {
    var s := UnitsText(u, digits);
    UnitsTextChars(u, digits);
    if digits == 0 {
      SplitNone(s, '.');
    } else {
      var a, b := UnitsTextShape(u, digits);
      assert '.' !in a && '.' !in b;
      assert s == a + ['.'] + b;
      SplitFirst(a, '.', b);
      SplitNone(b, '.');
    }
  }

  /** Exponent notation D[.DDD]e-m: the count is m plus the mantissa's fractional digits. */
  lemma ExponentTextDigits(digits: string, m: nat, k: nat)
    requires |digits| >= 1 && AllDigits(digits) && k == m + |digits| - 1
    ensures TextDigits(Mantissa(digits) + "e" + "-" + NatText(m)) == Some(k)
  {
    var x := Mantissa(digits);
    var y := "-" + NatText(m);
    MantissaNoExponent(digits);
    DigitsNoExponent(NatText(m));
    ExponentParts(x, y);
    assert Mantissa(digits) + "e" + "-" + NatText(m) == x + ['e'] + y;
    ParseIntNegated(m);
    MantissaFraction(digits);
  }

  lemma ExponentParts(x: string, y: string)
    requires 'e' !in x && 'e' !in y
    ensures 'e' in x + ['e'] + y
    ensures Split(x + ['e'] + y, 'e') == [x, y]
  {
    assert (x + ['e'] + y)[|x|] == 'e';
    SplitFirst(x, 'e', y);
    SplitNone(y, 'e');
  }

  lemma MantissaNoExponent(digits: string)
    requires |digits| >= 1 && AllDigits(digits)
    ensures 'e' !in Mantissa(digits)
  {
    assert IsDigit(digits[0]);
  }

  lemma DigitsNoExponent(s: string)
    requires AllDigits(s)
    ensures 'e' !in s && 'e' !in "-" + s
  {
  }

  lemma MantissaFraction(digits: string)
    requires |digits| >= 1 && AllDigits(digits)
    ensures var parts := Split(Mantissa(digits), '.');
      |if |parts| > 1 then parts[1] else ""| == |digits| - 1
  {
    var x := Mantissa(digits);
    if |digits| > 1 {
      assert x == [digits[0]] + ['.'] + digits[1..];
      assert '.' !in [digits[0]] && '.' !in digits[1..];
      SplitFirst([digits[0]], '.', digits[1..]);
      SplitNone(digits[1..], '.');
    } else {
      SplitNone(x, '.');
    }
  }
}
