/** Coordinate labels: a latitude or longitude printed as whole degrees, as
    degrees and minutes, or as degrees, minutes and seconds, chosen from the grid
    step, with a hemisphere suffix.  The two sexagesimal printers round the last
    field with toFixed and carry a rounded-up 60 into the field above; they are
    proved to print the single rounding of the whole value, split into fields. */
module CoordFormat {
  import opened JsText
  import opened StepSelector

  // ---------------------------------------------------------------------------
  // _du2dufen and _du2dufenmiao, line by line

  /** Degrees and minutes, the minutes with n decimals: d°mm′. Only |value| is
      printed. */
  function DegreesToDm(value: real, n: nat): string
    requires n <= 100
  {
    MagnitudeToDm(Abs(value), n)
  }

  /** _du2dufen from value2 = |value| on: whole degrees v1 and the minutes left over,
      printed with toFixed(n). */
  function MagnitudeToDm(value2: real, n: nat): string
    requires n <= 100 && value2 >= 0.0
  {
    var v1: nat := value2.Floor;
    CarryDm(v1, ToFixed(MinutesAfter(value2, v1), n), n)
  }

  /** (value2 - v1) * 60: the minutes in what is left of value2 after v1 degrees. */
  function MinutesAfter(value2: real, v1: int): real {
    (value2 - v1 as real) * 60.0
  }

  /** The rest of _du2dufen, from whole degrees v1 and the printed minutes v2:
      minutes that round up to 60 become 0 and carry one degree. */
  function CarryDm(v1: nat, v2: string, n: nat): string
    requires n <= 100
  {
    var carry := ParseFloat(v2) >= 60.0;
    var v2c := if carry then ToFixed(0.0, n) else v2;
    var v1c := if carry then v1 + 1 else v1;
    var v21 := if ParseFloat(v2c) < 10.0 then "0" + v2c else v2c;
    NatText(v1c) + "°" + v21 + "′"
  }

  /** Degrees, minutes and seconds, the seconds with n decimals: d°mm′ss″. Only
      |value| is printed. */
  function DegreesToDms(value: real, n: nat): string
    requires n <= 100
  {
    MagnitudeToDms(Abs(value), n)
  }

  /** _du2dufenmiao from value2 = |value| on: whole degrees v1, whole minutes v2,
      and the seconds left over, taken with % 60 and printed with toFixed(n). */
  function MagnitudeToDms(value2: real, n: nat): string
    requires n <= 100 && value2 >= 0.0
  {
    var v1: nat := value2.Floor;
    var v2: nat := ((value2 - v1 as real) * 60.0).Floor;
    var seconds := JsRem((value2 - v1 as real) * 3600.0, 60.0);
    CarryDms(v1, v2, ToFixed(seconds, n), n)
  }

  /** The rest of _du2dufenmiao, from whole degrees v1, whole minutes v2 and the
      printed seconds v3: seconds that round up to 60 become 0 and carry one
      minute, and 60 minutes become 0 and carry one degree. */
  function CarryDms(v1: nat, v2: nat, v3: string, n: nat): string
    requires n <= 100
  {
    var carry := ParseFloat(v3) >= 60.0;
    var v3c := if carry then ToFixed(0.0, n) else v3;
    var v2c := if carry then v2 + 1 else v2;
    var v1c := if v2c >= 60 then v1 + 1 else v1;
    var v2cc := if v2c >= 60 then 0 else v2c;
    var v31 := if ParseFloat(v3c) < 10.0 then "0" + v3c else v3c;
    var v21 := if v2cc < 10 then "0" + NatText(v2cc) else NatText(v2cc);
    NatText(v1c) + "°" + v21 + "′" + v31 + "″"
  }

  // ---------------------------------------------------------------------------
  // Reference: round the whole value once, then split it into fields

  /** An angle as whole degrees and minutes counted in units of 10^-n minutes. */
  datatype Dm = Dm(deg: nat, minUnits: nat)

  /** An angle as whole degrees, whole minutes and seconds counted in units of
      10^-n seconds. */
  datatype Dms = Dms(deg: nat, min: nat, secUnits: nat)

  /** A total of 10^-n minutes split into degrees and a minutes field. */
  function SplitDm(total: nat, n: nat): (d: Dm)
    ensures d.minUnits < 60 * Pow10(n)
    ensures d.deg * (60 * Pow10(n)) + d.minUnits == total
  {
    var unit := 60 * Pow10(n);
    DivMod(total, unit);
    Dm(total / unit, total % unit)
  }

  /** A total of 10^-n seconds split into degrees, minutes and a seconds field. */
  function SplitDms(total: nat, n: nat): (d: Dms)
    ensures d.min < 60 && d.secUnits < 60 * Pow10(n)
    ensures (d.deg * 60 + d.min) * (60 * Pow10(n)) + d.secUnits == total
  {
    var unit := 60 * Pow10(n);
    var minutes := total / unit;
    DivMod(total, unit);
    DivMod(minutes, 60);
    Dms(minutes / 60, minutes % 60, total % unit)
  }

  /** A field of at most two whole digits, zero-padded to two, with n decimals. */
  function Field(u: nat, n: nat): (s: string)
    ensures |s| >= 1
  {
    if u < 10 * Pow10(n) then "0" + UnitsText(u, n) else UnitsText(u, n)
  }

  /** Whole minutes or degrees, zero-padded to two digits. */
  function WholeField(m: nat): string {
    if m < 10 then "0" + NatText(m) else NatText(m)
  }

  function DmText(d: Dm, n: nat): string {
    NatText(d.deg) + "°" + Field(d.minUnits, n) + "′"
  }

  function DmsText(d: Dms, n: nat): string {
    NatText(d.deg) + "°" + WholeField(d.min) + "′" + Field(d.secUnits, n) + "″"
  }

  lemma DivMod(a: nat, b: nat)
    requires b > 0
    ensures a / b >= 0 && (a / b) * b + a % b == a && a % b < b
  {
  }

  lemma MulLe(a: int, b: int, c: nat)
    requires a <= b
    ensures a * c <= b * c
  {
  }

  /** Division with remainder has one answer. */
  lemma DivModUnique(total: nat, unit: nat, q: nat, r: nat)
    requires unit > 0 && r < unit && q * unit + r == total
    ensures total / unit == q && total % unit == r
  {
    DivMod(total, unit);
    if total / unit < q {
      MulLe(total / unit + 1, q, unit);
    } else if q < total / unit {
      MulLe(q + 1, total / unit, unit);
    }
  }

  /** The split into degrees and minutes is the only one with a minutes field
      below 60. */
  lemma SplitDmUnique(total: nat, n: nat, d: Dm)
    requires d.minUnits < 60 * Pow10(n)
    requires d.deg * (60 * Pow10(n)) + d.minUnits == total
    ensures SplitDm(total, n) == d
  {
    DivModUnique(total, 60 * Pow10(n), d.deg, d.minUnits);
  }

  /** The split into degrees, minutes and seconds is the only one with minutes
      and seconds fields below 60. */
  lemma SplitDmsUnique(total: nat, n: nat, d: Dms)
    requires d.min < 60 && d.secUnits < 60 * Pow10(n)
    requires (d.deg * 60 + d.min) * (60 * Pow10(n)) + d.secUnits == total
    ensures SplitDms(total, n) == d
  {
    DivModUnique(total, 60 * Pow10(n), d.deg * 60 + d.min, d.secUnits);
    DivModUnique(d.deg * 60 + d.min, 60, d.deg, d.min);
  }

  // ---------------------------------------------------------------------------
  // The fields before rounding, and what rounding the last one does

  lemma MulLess(x: real, y: real, p: real)
    requires x < y && p > 0.0
    ensures x * p < y * p
  {
  }

  lemma FloorShift(k: int, x: real)
    ensures (k as real + x).Floor == k + x.Floor
  {
  }

  /** A magnitude as whole degrees and the minutes left over. */
  lemma DmFields(a: real) returns (deg: nat, min: real)
    requires a >= 0.0
    ensures deg == a.Floor && min == MinutesAfter(a, a.Floor)
    ensures 0.0 <= min < 60.0
    ensures Abs(a * 60.0) == deg as real * 60.0 + min
  {
    deg := a.Floor;
    min := (a - deg as real) * 60.0;
  }

  /** A magnitude as whole degrees, whole minutes and the seconds left over, the
      last computed as _du2dufenmiao does, with the % operator. */
  lemma DmsFields(a: real) returns (deg: nat, min: nat, sec: real)
    requires a >= 0.0
    ensures deg == a.Floor && min == ((a - a.Floor as real) * 60.0).Floor
    ensures sec == JsRem((a - a.Floor as real) * 3600.0, 60.0)
    ensures min < 60 && 0.0 <= sec < 60.0
    ensures Abs(a * 3600.0) == (deg * 60 + min) as real * 60.0 + sec
  {
    deg := a.Floor;
    var f := a - deg as real;
    min := (f * 60.0).Floor;
    assert f * 3600.0 / 60.0 == f * 60.0;
    assert Trunc(f * 3600.0 / 60.0) == min;
    sec := JsRem(f * 3600.0, 60.0);
    assert sec == f * 3600.0 - 60.0 * min as real;
  }

  /** Rounding a field below 60 gives at most 60 whole units of that field. */
  lemma RoundedField(x: real, n: nat)
    requires 0.0 <= x < 60.0
    ensures FixedUnits(x, n) <= 60 * Pow10(n)
  {
    var p := Pow10(n) as real;
    MulLess(x, 60.0, p);
  }

  /** Rounding the whole total is rounding the last field, plus the whole part
      above it. */
  lemma TotalUnits(x: real, whole: nat, part: real, n: nat)
    requires part >= 0.0 && Abs(x) == whole as real * 60.0 + part
    ensures FixedUnits(x, n) == whole * (60 * Pow10(n)) + FixedUnits(part, n)
  {
    var p := Pow10(n) as real;
    var k := whole * (60 * Pow10(n));
    assert Abs(x) * p + 0.5 == k as real + (part * p + 0.5);
    FloorShift(k, part * p + 0.5);
  }

  /** What toFixed prints for a field that is not negative. */
  lemma FieldText(x: real, n: nat)
    requires x >= 0.0
    ensures ToFixed(x, n) == UnitsText(FixedUnits(x, n), n)
  {
    assert ToFixed(x, n) == "" + UnitsText(FixedUnits(x, n), n);
  }

  /** What parseFloat reads back from the text of u units of 10^-n. */
  lemma ParseUnits(u: nat, n: nat)
    ensures ParseFloat(UnitsText(u, n)) == u as real / Pow10(n) as real
  {
    UnitsTextChars(u, n);
    assert UnitsText(u, n)[0] in UnitsText(u, n);
    ParseUnitsText(u, n);
  }

  lemma ZeroField(n: nat)
    ensures FixedUnits(0.0, n) == 0 && ToFixed(0.0, n) == UnitsText(0, n)
  {
    assert Abs(0.0) * Pow10(n) as real + 0.5 == 0.5;
    assert (0.5).Floor == 0;
    assert ToFixed(0.0, n) == "" + UnitsText(0, n);
  }

  /** Comparing a printed field with a whole number c is comparing its units
      with c whole units. */
  lemma UnitsAtLeast(u: nat, n: nat, c: nat)
    ensures u as real / Pow10(n) as real >= c as real <==> u >= c * Pow10(n)
  {
    var p := Pow10(n) as real;
    var q := u as real / p;
    assert q * p == u as real;
    if q >= c as real {
      MulLe2(c as real, q, p);
    } else {
      MulLess(q, c as real, p);
    }
  }

  lemma MulLe2(x: real, y: real, p: real)
    requires x <= y && p > 0.0
    ensures x * p <= y * p
  {
  }

  lemma AddUnit(whole: nat, unit: nat)
    ensures (whole + 1) * unit == whole * unit + unit
  {
  }

  // ---------------------------------------------------------------------------
  // The printers print the rounded total

  /** The fields _du2dufen prints: degrees, and minutes rounded to u, carried when
      they round up to 60. */
  function DmCarried(deg: nat, u: nat, n: nat): Dm {
    if u < 60 * Pow10(n) then Dm(deg, u) else Dm(deg + 1, 0)
  }

  /** The fields _du2dufenmiao prints: degrees, minutes, and seconds rounded to u,
      carried when they round up to 60. */
  function DmsCarried(deg: nat, min: nat, u: nat, n: nat): Dms {
    if u < 60 * Pow10(n) then Dms(deg, min, u)
    else if min < 59 then Dms(deg, min + 1, 0)
    else Dms(deg + 1, 0, 0)
  }

  lemma DmSplit(value: real, n: nat, deg: nat, min: real)
    requires 0.0 <= min < 60.0 && Abs(value * 60.0) == deg as real * 60.0 + min
    ensures SplitDm(FixedUnits(value * 60.0, n), n) == DmCarried(deg, FixedUnits(min, n), n)
  {
    var unit := 60 * Pow10(n);
    RoundedField(min, n);
    TotalUnits(value * 60.0, deg, min, n);
    if FixedUnits(min, n) == unit {
      AddUnit(deg, unit);
    }
    SplitDmUnique(FixedUnits(value * 60.0, n), n, DmCarried(deg, FixedUnits(min, n), n));
  }

  lemma DmsSplit(value: real, n: nat, deg: nat, min: nat, sec: real)
    requires min < 60 && 0.0 <= sec < 60.0
    requires Abs(value * 3600.0) == (deg * 60 + min) as real * 60.0 + sec
    ensures SplitDms(FixedUnits(value * 3600.0, n), n) == DmsCarried(deg, min, FixedUnits(sec, n), n)
  {
    var unit := 60 * Pow10(n);
    RoundedField(sec, n);
    TotalUnits(value * 3600.0, deg * 60 + min, sec, n);
    if FixedUnits(sec, n) == unit {
      AddUnit(deg * 60 + min, unit);
    }
    SplitDmsUnique(FixedUnits(value * 3600.0, n), n, DmsCarried(deg, min, FixedUnits(sec, n), n));
  }

  lemma DmOfMagnitude(value: real, a: real, n: nat)
    requires n <= 100 && a == Abs(value)
    ensures DegreesToDm(value, n) == MagnitudeToDm(a, n)
  {
  }

  lemma DmsOfMagnitude(value: real, a: real, n: nat)
    requires n <= 100 && a == Abs(value)
    ensures DegreesToDms(value, n) == MagnitudeToDms(a, n)
  {
  }

  /** Scaling a value and its magnitude gives the same rounded units. */
  lemma FixedUnitsOfMagnitude(value: real, a: real, n: nat)
    requires a == Abs(value)
    ensures FixedUnits(value * 60.0, n) == FixedUnits(a * 60.0, n)
    ensures FixedUnits(value * 3600.0, n) == FixedUnits(a * 3600.0, n)
  {
    assert Abs(value * 60.0) == a * 60.0 == Abs(a * 60.0);
    assert Abs(value * 3600.0) == a * 3600.0 == Abs(a * 3600.0);
  }

  /** The carry of _du2dufen prints the carried fields. */
  lemma CarryDmText(deg: nat, u: nat, n: nat)
    requires n <= 100 && u <= 60 * Pow10(n)
    ensures CarryDm(deg, UnitsText(u, n), n) == DmText(DmCarried(deg, u, n), n)
  {
    ParseUnits(u, n);
    ParseUnits(0, n);
    ZeroField(n);
    UnitsAtLeast(u, n, 60);
    UnitsAtLeast(u, n, 10);
    UnitsAtLeast(0, n, 10);
  }

  /** The carries of _du2dufenmiao print the carried fields. */
  lemma CarryDmsText(deg: nat, min: nat, u: nat, n: nat)
    requires n <= 100 && min < 60 && u <= 60 * Pow10(n)
    ensures CarryDms(deg, min, UnitsText(u, n), n) == DmsText(DmsCarried(deg, min, u, n), n)
  {
    ParseUnits(u, n);
    ParseUnits(0, n);
    ZeroField(n);
    UnitsAtLeast(u, n, 60);
    UnitsAtLeast(u, n, 10);
    UnitsAtLeast(0, n, 10);
  }

  // ---------------------------------------------------------------------------
  // The printers print the rounded total

  /** _du2dufen prints |value| rounded once to 10^-n minutes, split into degrees
      and a minutes field below 60: the carry makes a rounded-up 60′ one degree. */
  lemma DegreesToDmRounds(value: real, n: nat)
    requires n <= 100
    ensures DegreesToDm(value, n) == DmText(SplitDm(FixedUnits(value * 60.0, n), n), n)
  {
    var a := Abs(value);
    DmOfMagnitude(value, a, n);
    MagnitudeToDmRounds(a, n);
    FixedUnitsOfMagnitude(value, a, n);
  }

  lemma MagnitudeToDmRounds(a: real, n: nat)
    requires n <= 100 && a >= 0.0
    ensures MagnitudeToDm(a, n) == DmText(SplitDm(FixedUnits(a * 60.0, n), n), n)
  {
    DmUnfold(a, n);
    DmFieldsRound(a, n);
  }

  /** MagnitudeToDm hands its fields to CarryDm. */
  lemma DmUnfold(a: real, n: nat)
    requires n <= 100 && a >= 0.0
    ensures MagnitudeToDm(a, n) == CarryDm(a.Floor, ToFixed(MinutesAfter(a, a.Floor), n), n)
  {
  }

  /** CarryDm on the fields of a prints the rounded total. */
  lemma DmFieldsRound(a: real, n: nat)
    requires n <= 100 && a >= 0.0
    ensures CarryDm(a.Floor, ToFixed(MinutesAfter(a, a.Floor), n), n)
      == DmText(SplitDm(FixedUnits(a * 60.0, n), n), n)
  {
    var deg, min := DmFields(a);
    CarryDmRound(a, n, deg, min);
  }

  lemma CarryDmRound(a: real, n: nat, deg: nat, min: real)
    requires n <= 100 && 0.0 <= min < 60.0 && Abs(a * 60.0) == deg as real * 60.0 + min
    ensures CarryDm(deg, ToFixed(min, n), n) == DmText(SplitDm(FixedUnits(a * 60.0, n), n), n)
  {
    DmSplit(a, n, deg, min);
    FieldText(min, n);
    RoundedField(min, n);
    CarryDmText(deg, FixedUnits(min, n), n);
  }

  /** _du2dufenmiao prints |value| rounded once to 10^-n seconds, split into
      degrees, minutes below 60 and a seconds field below 60: the two carries make
      a rounded-up 60″ one minute, and then 60′ one degree. */
  lemma DegreesToDmsRounds(value: real, n: nat)
    requires n <= 100
    ensures DegreesToDms(value, n) == DmsText(SplitDms(FixedUnits(value * 3600.0, n), n), n)
  {
    var a := Abs(value);
    DmsOfMagnitude(value, a, n);
    MagnitudeToDmsRounds(a, n);
    FixedUnitsOfMagnitude(value, a, n);
  }

  lemma MagnitudeToDmsRounds(a: real, n: nat)
    requires n <= 100 && a >= 0.0
    ensures MagnitudeToDms(a, n) == DmsText(SplitDms(FixedUnits(a * 3600.0, n), n), n)
  {
    DmsUnfold(a, n);
    DmsFieldsRound(a, n);
  }

  /** MagnitudeToDms hands its fields to CarryDms. */
  lemma DmsUnfold(a: real, n: nat)
    requires n <= 100 && a >= 0.0
    ensures MagnitudeToDms(a, n) == CarryDms(a.Floor, ((a - a.Floor as real) * 60.0).Floor,
      ToFixed(JsRem((a - a.Floor as real) * 3600.0, 60.0), n), n)
  {
  }

  /** CarryDms on the fields of a prints the rounded total. */
  lemma DmsFieldsRound(a: real, n: nat)
    requires n <= 100 && a >= 0.0
    ensures CarryDms(a.Floor, ((a - a.Floor as real) * 60.0).Floor,
      ToFixed(JsRem((a - a.Floor as real) * 3600.0, 60.0), n), n)
      == DmsText(SplitDms(FixedUnits(a * 3600.0, n), n), n)
  {
    var deg, min, sec := DmsFields(a);
    CarryDmsRound(a, n, deg, min, sec);
  }

  lemma CarryDmsRound(a: real, n: nat, deg: nat, min: nat, sec: real)
    requires n <= 100 && min < 60 && 0.0 <= sec < 60.0
    requires Abs(a * 3600.0) == (deg * 60 + min) as real * 60.0 + sec
    ensures CarryDms(deg, min, ToFixed(sec, n), n) == DmsText(SplitDms(FixedUnits(a * 3600.0, n), n), n)
  {
    DmsSplit(a, n, deg, min, sec);
    RoundedField(sec, n);
    FieldText(sec, n);
    CarryDmsText(deg, min, FixedUnits(sec, n), n);
  }

  /** The printers ignore the sign: the hemisphere goes into the suffix. */
  lemma SignIgnored(value: real, n: nat)
    requires n <= 100
    ensures DegreesToDm(-value, n) == DegreesToDm(value, n)
    ensures DegreesToDms(-value, n) == DegreesToDms(value, n)
  {
    AbsNegated(value);
  }

  lemma AbsNegated(x: real)
    ensures Abs(-x) == Abs(x)
  {
  }

  // ---------------------------------------------------------------------------
  // _formatCoord

  datatype Axis = Longitude | Latitude

  /** The coordinate value passed in: a sign and a magnitude held as a terminating
      decimal, so that String(Math.abs(val)) can be written out. */
  datatype Coord = Coord(negative: bool, magnitude: Decimal)

  function Signed(c: Coord): real {
    if c.negative then -Value(c.magnitude) else Value(c.magnitude)
  }

  /** The hemisphere suffix: east or north of zero, west or south of it, none at 0. */
  function Suffix(val: real, axis: Axis): string {
    match axis
    case Longitude => if val > 0.0 then " E" else if val < 0.0 then " W" else ""
    case Latitude => if val > 0.0 then " N" else if val < 0.0 then " S" else ""
  }

  /** The least p >= from with y * 10^p >= 1, searched up to 100; 101 stands for
      every count above 100, which toFixed refuses. */
  function LeastScale(y: real, from: nat): (p: nat)
    requires from <= 101
    ensures from <= p <= 101
    ensures p <= 100 ==> Reaches(y, p)
    ensures forall q :: from <= q < p ==> !Reaches(y, q)
    decreases 101 - from
  {
    if from == 101 || Reaches(y, from) then from else LeastScale(y, from + 1)
  }

  /** y shown with p decimals is not zero: y * 10^p >= 1. */
  predicate Reaches(y: real, p: nat) {
    y * Pow10(p) as real >= 1.0
  }

  /** Math.max(0, Math.ceil(-Math.log10(step * 3600))), which _formatCoord passes to
      toFixed: None for a zero step (the count is +Infinity and toFixed throws), 0
      for a negative step (the count is NaN, which toFixed reads as 0), and
      otherwise the fewest decimals that show the step in seconds. */
  function SecondDecimals(step: real): Option<nat> {
    if step > 0.0 then Some(LeastScale(step * 3600.0, 0))
    else if step == 0.0 then None
    else Some(0)
  }

  /** The branches of _formatCoord: the text of the angle for the grid step, before
      the hemisphere suffix; None where toFixed throws a RangeError. */
  function AngleText(c: Coord, step: real): Option<string>
    requires Normal(c.magnitude) && PointPosition(c.magnitude) <= 21
  {
    var val := Signed(c);
    if step >= 1.0 then Some(NumberText(c.magnitude) + "°")
    else if step >= 0.016666667 then Some(DegreesToDm(val, 0))
    else if step >= 0.00027778 then Some(DegreesToDms(val, 0))
    else
      match SecondDecimals(step)
      case None => None
      case Some(places) => if places <= 100 then Some(DegreesToDms(val, places)) else None
  }

  /** _formatCoord: the angle text followed by the hemisphere suffix; None where
      toFixed throws a RangeError (more than 100 decimals, or an infinite count). */
  function FormatCoord(c: Coord, step: real, axis: Axis): Option<string>
    requires Normal(c.magnitude) && PointPosition(c.magnitude) <= 21
  {
    var suffix := Suffix(Signed(c), axis);
    match AngleText(c, step)
    case None => None
    case Some(text) => Some(text + suffix)
  }

  // ---------------------------------------------------------------------------
  // Properties of _formatCoord

  lemma Pow10Monotone(p: nat, q: nat)
    requires p <= q
    ensures Pow10(p) <= Pow10(q)
    decreases q - p
  {
    if p < q {
      Pow10Monotone(p, q - 1);
    }
  }

  /** More decimals show at least as much. */
  lemma ReachesMonotone(y: real, p: nat, q: nat)
    requires y > 0.0 && p <= q && Reaches(y, p)
    ensures Reaches(y, q)
  {
    Pow10Monotone(p, q);
    MulLe2(Pow10(p) as real, Pow10(q) as real, y);
  }

  /** Below the seconds threshold the text is refused exactly where the step
      cannot be shown with 100 decimals of seconds. */
  lemma FineStepRefused(step: real)
    requires step > 0.0
    ensures LeastScale(step * 3600.0, 0) > 100 <==> !Reaches(step * 3600.0, 100)
  {
    var y := step * 3600.0;
    var p := LeastScale(y, 0);
    if p <= 100 {
      ReachesMonotone(y, p, 100);
    }
  }

  /** From the seconds threshold up, all steps get a text. */
  lemma CoarseStepShown(step: real)
    requires step >= 0.00027778
    ensures Reaches(step * 3600.0, 100)
  {
    assert Pow10(0) == 1;
    assert Reaches(step * 3600.0, 0);
    ReachesMonotone(step * 3600.0, 0, 100);
  }

  /** _formatCoord fails exactly where toFixed throws: for a zero step, and for a
      positive step too fine to show in seconds with 100 decimals. */
  lemma FormatCoordRefused(c: Coord, step: real, axis: Axis)
    requires Normal(c.magnitude) && PointPosition(c.magnitude) <= 21
    ensures FormatCoord(c, step, axis).None? <==>
      step == 0.0 || (step > 0.0 && !Reaches(step * 3600.0, 100))
  {
    if step >= 0.00027778 {
      CoarseStepShown(step);
    } else if step > 0.0 {
      FineStepRefused(step);
    }
  }

  /** The angle text does not depend on the sign of the coordinate. */
  lemma AngleTextSignIgnored(m: Decimal, step: real)
    requires Normal(m) && PointPosition(m) <= 21
    ensures AngleText(Coord(false, m), step) == AngleText(Coord(true, m), step)
  {
    var v := Value(m);
    assert Signed(Coord(true, m)) == -v && Signed(Coord(false, m)) == v;
    if step >= 1.0 {
    } else if step >= 0.016666667 {
      SignIgnored(v, 0);
      assert AngleText(Coord(true, m), step) == Some(DegreesToDm(-v, 0));
    } else if step >= 0.00027778 {
      SignIgnored(v, 0);
      assert AngleText(Coord(true, m), step) == Some(DegreesToDms(-v, 0));
    } else {
      var places := SecondDecimals(step);
      if places.Some? && places.value <= 100 {
        SignIgnored(v, places.value);
        assert AngleText(Coord(true, m), step) == Some(DegreesToDms(-v, places.value));
      }
    }
  }

  lemma SplitSuffix(x: string, suffix: string)
    ensures (x + suffix)[..|x|] == x && (x + suffix)[|x|..] == suffix
  {
  }

  /** Mirrored coordinates get the same text with the opposite hemisphere; zero
      gets the angle text alone, with no hemisphere, whatever its sign. */
  lemma FormatCoordMirror(m: Decimal, step: real, axis: Axis)
    requires Normal(m) && PointPosition(m) <= 21
    ensures var east := FormatCoord(Coord(false, m), step, axis);
      var west := FormatCoord(Coord(true, m), step, axis);
      (east.Some? <==> west.Some?) &&
      (m.coef == 0 ==> east == west && east == AngleText(Coord(false, m), step)) &&
      (m.coef > 0 && east.Some? ==>
        |east.value| >= 2 && |west.value| == |east.value| &&
        east.value[..|east.value| - 2] == west.value[..|west.value| - 2] &&
        east.value[|east.value| - 2..] == (if axis == Longitude then " E" else " N") &&
        west.value[|west.value| - 2..] == (if axis == Longitude then " W" else " S"))
  {
    AngleTextSignIgnored(m, step);
    var v := Value(m);
    assert Signed(Coord(true, m)) == -v && Signed(Coord(false, m)) == v;
    var text := AngleText(Coord(false, m), step);
    if m.coef == 0 && text.Some? {
      assert Suffix(v, axis) == "";
      assert text.value + "" == text.value;
    }
    if m.coef > 0 && text.Some? {
      var pos := if axis == Longitude then " E" else " N";
      var neg := if axis == Longitude then " W" else " S";
      assert Suffix(v, axis) == pos && Suffix(-v, axis) == neg;
      SplitSuffix(text.value, pos);
      SplitSuffix(text.value, neg);
    }
  }

  /** The finest table step, 1″ (0.000277778), lies below the 0.00027778
      threshold, so it takes the fine-step branch; that branch asks for no
      decimals, and prints as the 2″ step does. */
  lemma FinestStepWholeSeconds(c: Coord, axis: Axis)
    requires Normal(c.magnitude) && PointPosition(c.magnitude) <= 21
    ensures Value(NiceSteps[18]) < 0.00027778 <= Value(NiceSteps[17])
    ensures FormatCoord(c, Value(NiceSteps[18]), axis) == FormatCoord(c, Value(NiceSteps[17]), axis)
  {
    NiceStepValues();
    assert Reaches(0.000277778 * 3600.0, 0);
  }

  lemma NatTextTwoDigits(n: nat)
    requires 10 <= n < 100
    ensures NatText(n) == [DigitChar(n / 10), DigitChar(n % 10)]
  {
  }

  /** 45 degrees west on a one-degree grid. */
  lemma ExampleWholeDegrees()
    ensures FormatCoord(Coord(true, Decimal(45, 0)), 1.0, Longitude) == Some("45° W")
  {
    assert Pow10(0) == 1;
    assert Value(Decimal(45, 0)) == 45.0;
    assert Signed(Coord(true, Decimal(45, 0))) == -45.0;
    NatTextTwoDigits(45);
    assert NumberText(Decimal(45, 0)) == "45";
    assert Suffix(-45.0, Longitude) == " W";
    assert "45" + "°" + " W" == "45° W";
  }

  /** Zero on a one-degree grid: "0°", without a hemisphere. */
  lemma ExampleZero()
    ensures FormatCoord(Coord(false, Decimal(0, 0)), 1.0, Latitude) == Some("0°")
  {
    assert Pow10(0) == 1;
    assert Signed(Coord(false, Decimal(0, 0))) == 0.0;
    assert NumberText(Decimal(0, 0)) == "0";
    assert Suffix(0.0, Latitude) == "";
    assert "0" + "°" + "" == "0°";
  }

  /** 30.5 degrees rounds to 1830 whole minutes: 30°30′. */
  lemma HalfDegreeUnits()
    ensures SplitDm(FixedUnits(30.5 * 60.0, 0), 0) == Dm(30, 30)
  {
    assert Pow10(0) == 1;
    assert 30.5 * 60.0 == 1830.0;
    assert Abs(1830.0) == 1830.0;
    assert FixedUnits(1830.0, 0) == 1830;
    SplitDmUnique(1830, 0, Dm(30, 30));
  }

  lemma HalfDegreeText()
    ensures DegreesToDm(30.5, 0) == "30°30′"
  {
    DegreesToDmRounds(30.5, 0);
    HalfDegreeUnits();
    HalfDegreeFields();
  }

  lemma HalfDegreeFields()
    ensures DmText(Dm(30, 30), 0) == "30°30′"
  {
    assert Pow10(0) == 1;
    NatTextTwoDigits(30);
    assert Field(30, 0) == "30";
  }

  /** 30.5 degrees north on a half-degree grid: 30 degrees 30 minutes. */
  lemma ExampleDegreesMinutes()
    ensures FormatCoord(Coord(false, Decimal(305, 1)), 0.5, Latitude) == Some("30°30′ N")
  {
    assert Pow10(1) == 10;
    assert Signed(Coord(false, Decimal(305, 1))) == 30.5;
    HalfDegreeText();
    assert AngleText(Coord(false, Decimal(305, 1)), 0.5) == Some("30°30′");
    assert Suffix(30.5, Latitude) == " N";
    assert "30°30′" + " N" == "30°30′ N";
  }

  /** -0.9999999 degrees is 3599.99964 seconds, which round to 3600: 1°00′00″. */
  lemma DoubleCarryUnits()
    ensures SplitDms(FixedUnits(-0.9999999 * 3600.0, 0), 0) == Dms(1, 0, 0)
  {
    assert Pow10(0) == 1;
    assert -0.9999999 * 3600.0 == -3599.99964;
    assert Abs(-3599.99964) == 3599.99964;
    assert FixedUnits(-3599.99964, 0) == 3600;
    SplitDmsUnique(3600, 0, Dms(1, 0, 0));
  }

  /** Just short of one degree, the seconds round up to 60 and carry twice. */
  lemma ExampleDoubleCarry()
    ensures DegreesToDms(-0.9999999, 0) == "1°00′00″"
  {
    DegreesToDmsRounds(-0.9999999, 0);
    DoubleCarryUnits();
    DoubleCarryFields();
  }

  lemma DoubleCarryFields()
    ensures DmsText(Dms(1, 0, 0), 0) == "1°00′00″"
  {
    assert Pow10(0) == 1;
    assert Field(0, 0) == "00";
  }

  /** 10.5 degrees is 378000 tenths of a second: 10°30′00.0″. */
  lemma TenthSecondUnits()
    ensures SplitDms(FixedUnits(10.5 * 3600.0, 1), 1) == Dms(10, 30, 0)
  {
    assert Pow10(1) == 10;
    assert 10.5 * 3600.0 == 37800.0;
    assert Abs(37800.0) == 37800.0;
    assert FixedUnits(37800.0, 1) == 378000;
    SplitDmsUnique(378000, 1, Dms(10, 30, 0));
  }

  lemma TenthSecondFields()
    ensures DmsText(Dms(10, 30, 0), 1) == "10°30′00.0″"
  {
    assert Pow10(1) == 10;
    NatTextTwoDigits(10);
    NatTextTwoDigits(30);
    assert UnitsText(0, 1) == "0.0";
    assert Field(0, 1) == "00.0";
  }

  lemma TenthSecondText()
    ensures DegreesToDms(10.5, 1) == "10°30′00.0″"
  {
    DegreesToDmsRounds(10.5, 1);
    TenthSecondUnits();
    TenthSecondFields();
  }

  /** A 0.0001-degree step is 0.36″, which takes one decimal of seconds. */
  lemma TenThousandthStepDecimals()
    ensures SecondDecimals(0.0001) == Some(1)
  {
    assert Pow10(0) == 1 && Pow10(1) == 10;
    assert !Reaches(0.0001 * 3600.0, 0) && Reaches(0.0001 * 3600.0, 1);
  }

  /** 10.5 degrees east on a 0.0001-degree grid: seconds with one decimal. */
  lemma ExampleSecondDecimals()
    ensures FormatCoord(Coord(false, Decimal(105, 1)), 0.0001, Longitude) == Some("10°30′00.0″ E")
  {
    assert Pow10(1) == 10;
    assert Signed(Coord(false, Decimal(105, 1))) == 10.5;
    TenThousandthStepDecimals();
    TenthSecondText();
    assert AngleText(Coord(false, Decimal(105, 1)), 0.0001) == Some("10°30′00.0″");
    assert Suffix(10.5, Longitude) == " E";
    assert "10°30′00.0″" + " E" == "10°30′00.0″ E";
  }
}
