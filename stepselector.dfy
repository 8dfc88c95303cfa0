/** Step selection and break generation of the graticule (_getCoordBreaks): pick a
    nice angular step from a fixed table, then list the multiples of that step that
    fall inside the visible interval, as fixed-decimal texts. */
module StepSelector {
  import opened JsText
  import opened Precision

  /** The nice steps in degrees, largest first: whole degrees, then minutes and
      seconds written as degree fractions with nine decimals. */
  const NiceSteps: seq<Decimal> := [
    Decimal(60, 0), Decimal(30, 0), Decimal(20, 0), Decimal(10, 0),
    Decimal(5, 0), Decimal(2, 0), Decimal(1, 0),
    Decimal(5, 1),           // 30′
    Decimal(333333333, 9),   // 20′
    Decimal(166666667, 9),   // 10′
    Decimal(83333333, 9),    // 5′
    Decimal(33333333, 9),    // 2′
    Decimal(16666667, 9),    // 1′
    Decimal(8333333, 9),     // 30″
    Decimal(5555556, 9),     // 20″
    Decimal(2777778, 9),     // 10″
    Decimal(1388889, 9),     // 5″
    Decimal(555556, 9),      // 2″
    Decimal(277778, 9)       // 1″
  ]

  /** What _getCoordBreaks returns: the break texts and the chosen step. */
  datatype CoordBreaks = CoordBreaks(breaks: seq<string>, step: real)

  lemma NatTextLength(n: nat, k: nat)
    requires n < Pow10(k)
    ensures |NatText(n)| <= k || (n < 10 && k == 0)
  {
    if n >= 10 {
      assert k >= 1;
      NatTextLength(n / 10, k - 1);
    }
  }

  lemma Pow10Nine()
    ensures Pow10(1) == 10 && Pow10(9) == 1000000000
  {
    assert Pow10(2) == 100;
    assert Pow10(4) == 10000;
    assert Pow10(6) == 1000000;
    assert Pow10(8) == 100000000;
  }

  /** The table in exact decimal literals: whole degrees, minutes, seconds. */
  lemma NiceStepValues()
    ensures |NiceSteps| == 19
    ensures Value(NiceSteps[0]) == 60.0 && Value(NiceSteps[1]) == 30.0
    ensures Value(NiceSteps[2]) == 20.0 && Value(NiceSteps[3]) == 10.0
    ensures Value(NiceSteps[4]) == 5.0 && Value(NiceSteps[5]) == 2.0
    ensures Value(NiceSteps[6]) == 1.0 && Value(NiceSteps[7]) == 0.5
    ensures Value(NiceSteps[8]) == 0.333333333 && Value(NiceSteps[9]) == 0.166666667
    ensures Value(NiceSteps[10]) == 0.083333333 && Value(NiceSteps[11]) == 0.033333333
    ensures Value(NiceSteps[12]) == 0.016666667 && Value(NiceSteps[13]) == 0.008333333
    ensures Value(NiceSteps[14]) == 0.005555556 && Value(NiceSteps[15]) == 0.002777778
    ensures Value(NiceSteps[16]) == 0.001388889 && Value(NiceSteps[17]) == 0.000555556
    ensures Value(NiceSteps[18]) == 0.000277778
  {
    Pow10Nine();
    NineDecimals(NiceSteps[8]);
    NineDecimals(NiceSteps[9]);
    NineDecimals(NiceSteps[10]);
    NineDecimals(NiceSteps[11]);
    NineDecimals(NiceSteps[12]);
    NineDecimals(NiceSteps[13]);
    NineDecimals(NiceSteps[14]);
    NineDecimals(NiceSteps[15]);
    NineDecimals(NiceSteps[16]);
    NineDecimals(NiceSteps[17]);
    NineDecimals(NiceSteps[18]);
  }

  lemma NineDecimals(d: Decimal)
    requires d.exp == 9
    ensures Value(d) == d.coef as real / 1000000000.0
  {
    Pow10Nine();
  }

  /** Every entry is a positive decimal in shortest form, small enough for plain
      notation: the form the digit counter reads. */
  lemma NiceStepsWellFormed(i: nat)
    requires i < |NiceSteps|
    ensures Normal(NiceSteps[i]) && NiceSteps[i].coef > 0 && PointPosition(NiceSteps[i]) <= 21
  {
    var d := NiceSteps[i];
    Pow10Nine();
    assert d.coef < Pow10(9);
    NatTextLength(d.coef, 9);
  }

  /** The table is strictly descending. */
  lemma NiceStepsDescending(i: nat, j: nat)
    requires i < j < |NiceSteps|
    ensures Value(NiceSteps[i]) > Value(NiceSteps[j])
  {
    NiceStepValues();
  }

  /** The scan of a step table from entry k on: the first entry not above the rough
      step, or the last entry. */
  function FirstFit(steps: seq<Decimal>, rough: real, k: nat): (i: nat)
    requires k < |steps|
    ensures k <= i < |steps|
    decreases |steps| - k
  {
    if rough >= Value(steps[k]) || k == |steps| - 1 then k else FirstFit(steps, rough, k + 1)
  }

  lemma {:induction false} FirstFitSpec(steps: seq<Decimal>, rough: real, k: nat)
    requires k < |steps|
    ensures rough >= Value(steps[FirstFit(steps, rough, k)]) || FirstFit(steps, rough, k) == |steps| - 1
    ensures forall j :: k <= j < FirstFit(steps, rough, k) ==> rough < Value(steps[j])
    decreases |steps| - k
  {
    if !(rough >= Value(steps[k]) || k == |steps| - 1) {
      FirstFitSpec(steps, rough, k + 1);
    }
  }

  /** The index of the step chosen for a rough step (the table scan of _getCoordBreaks). */
  function StepIndex(rough: real): (i: nat)
    ensures i < |NiceSteps|
  {
    FirstFit(NiceSteps, rough, 0)
  }

  /** The scan stops at the first (largest) entry not above the rough step, or at the
      finest entry when every entry is above it. */
  lemma StepIndexSpec(rough: real)
    ensures rough >= Value(NiceSteps[StepIndex(rough)]) || StepIndex(rough) == |NiceSteps| - 1
    ensures forall j :: 0 <= j < StepIndex(rough) ==> rough < Value(NiceSteps[j])
  {
    FirstFitSpec(NiceSteps, rough, 0);
  }

  lemma NiceStepPositive(i: nat)
    requires i < |NiceSteps|
    ensures NiceSteps[i].coef > 0
  {
  }

  /** The table entry chosen for a rough step; every entry is a positive step. */
  function ChooseStep(rough: real): (d: Decimal)
    ensures d.coef > 0
  {
    var i := StepIndex(rough);
    NiceStepPositive(i);
    NiceSteps[i]
  }

  /** The two properties of StepIndex pin it down. */
  lemma StepIndexUnique(rough: real, i: nat)
    requires i < |NiceSteps|
    requires rough >= Value(NiceSteps[i]) || i == |NiceSteps| - 1
    requires forall j :: 0 <= j < i ==> rough < Value(NiceSteps[j])
    ensures StepIndex(rough) == i
  {
    StepIndexSpec(rough);
  }

  /** The chosen step is the largest table entry not above the rough step, and it
      is not above the rough step unless the rough step is below the finest entry. */
  lemma ChooseStepIsLargestFit(rough: real, j: nat)
    requires j < |NiceSteps|
    ensures Value(NiceSteps[j]) <= rough ==> Value(NiceSteps[j]) <= Value(ChooseStep(rough))
    ensures Value(ChooseStep(rough)) <= rough || Value(ChooseStep(rough)) == Value(NiceSteps[18])
  {
    StepIndexSpec(rough);
    var i := StepIndex(rough);
    if Value(NiceSteps[j]) <= rough && i < j {
      NiceStepsDescending(i, j);
    }
  }

  /** A larger rough step never yields a finer step. */
  lemma ChooseStepMonotone(r1: real, r2: real)
    requires r1 <= r2
    ensures Value(ChooseStep(r1)) <= Value(ChooseStep(r2))
  {
    var i1, i2 := StepIndex(r1), StepIndex(r2);
    FirstFitMonotone(NiceSteps, r1, r2, i1, i2);
    if i2 < i1 {
      NiceStepsDescending(i2, i1);
    }
  }

  /** On any table, a larger rough step stops the scan no later. */
  lemma FirstFitMonotone(steps: seq<Decimal>, r1: real, r2: real, i1: nat, i2: nat)
    requires 0 < |steps| && r1 <= r2
    requires i1 == FirstFit(steps, r1, 0) && i2 == FirstFit(steps, r2, 0)
    ensures i2 <= i1
  {
    FirstFitSpec(steps, r1, 0);
    FirstFitSpec(steps, r2, 0);
  }

  /** The multiples of the step in (min, max], in ascending order: the breaks
      _getCoordBreaks computes under exact arithmetic. */
  function BreakValues(min: real, max: real, step: real): seq<real>
    requires step > 0.0
  {
    var lo := (min / step).Floor + 1;
    var hi := (max / step).Floor;
    seq(if lo <= hi then hi - lo + 1 else 0, i => (lo + i) as real * step)
  }

  /** The break values printed with toFixed at the step's number of decimals. */
  function BreakTexts(min: real, max: real, step: real, digits: nat): seq<string>
    requires step > 0.0
  {
    var vs := BreakValues(min, max, step);
    seq(|vs|, i requires 0 <= i < |vs| => ToFixed(vs[i], digits))
  }

  /** _getCoordBreaks(min, max, targetN): an empty list with step 1 for a reversed
      interval; otherwise the step chosen for (max - min) / targetN and the texts of
      its multiples in (min, max], printed with the step's own number of decimals. */
  method GetCoordBreaks(tMin: real, tMax: real, targetN: nat) returns (r: CoordBreaks)
    requires targetN > 0
    ensures tMin > tMax ==> r == CoordBreaks([], 1.0)
    ensures tMin <= tMax ==>
      var dx := ChooseStep((tMax - tMin) / targetN as real);
      r.step == Value(dx) && r.breaks == BreakTexts(tMin, tMax, Value(dx), dx.exp)
  {
    if tMin > tMax {
      return CoordBreaks([], 1.0);
    }
    var roughStep := (tMax - tMin) / targetN as real;

    var dx := NiceSteps[|NiceSteps| - 1];
    ghost var chosen := |NiceSteps| - 1;
    var kk := 0;
    while kk < |NiceSteps|
      invariant 0 <= kk <= |NiceSteps|
      invariant forall j :: 0 <= j < kk ==> roughStep < Value(NiceSteps[j])
      invariant dx == NiceSteps[|NiceSteps| - 1] && chosen == |NiceSteps| - 1
    {
      if roughStep >= Value(NiceSteps[kk]) {
        dx := NiceSteps[kk];
        chosen := kk;
        break;
      }
      kk := kk + 1;
    }
    StepIndexUnique(roughStep, chosen);
    assert dx == ChooseStep(roughStep);

    NiceStepsWellFormed(chosen);
    var nnn := FractionDigits(dx).value;
    var step := Value(dx);
    ValueScaled(dx, step, nnn);
    var breaks := EmitBreaks(tMin, tMax, step, nnn, dx.coef);
    r := CoordBreaks(breaks, step);
  }

  /** The second half of _getCoordBreaks: snap min and max to multiples of the step,
      count the multiples between them with Math.round, and print each candidate that
      lies in [min, max] with toFixed. The texts are those of the multiples of the
      step in (min, max]. */
  method EmitBreaks(tMin: real, tMax: real, step: real, nnn: nat, ghost coef: nat)
    returns (breaks: seq<string>)
    requires tMin <= tMax && step > 0.0 && step * Pow10(nnn) as real == coef as real
    ensures breaks == BreakTexts(tMin, tMax, step, nnn)
  {
    var tttmax := (tMax / step).Floor;
    var tttmin := (tMin / step).Floor;
    var levelMax := SnapToStep(tttmax as real * step, tttmax, step, nnn, coef);
    NextMultiple(tttmin, step);
    var levelMin := SnapToStep(tttmin as real * step + step, tttmin + 1, step, nnn, coef);
    var levelnum := JsRound((levelMax - levelMin) / step) + 1;
    LevelCount(levelMin, levelMax, tttmin + 1, tttmax, step);
    BreakCount(tMin, tMax, step);

    ghost var lo := tttmin + 1;
    ghost var texts := BreakTexts(tMin, tMax, step, nnn);
    BreakTextsLength(tMin, tMax, step, nnn);
    assert |texts| == levelnum;
    breaks := [];
    var jj := 0;
    while jj < levelnum
      invariant 0 <= jj <= levelnum
      invariant breaks == texts[..jj]
    {
      CandidateMultiple(levelMin, lo, jj, step);
      var val := SnapToStep(levelMin + jj as real * step, lo + jj, step, nnn, coef);
      BreakTextAt(tMin, tMax, step, nnn, lo, jj);
      BreakWithin(tMin, tMax, step, jj);
      if val >= tMin && val <= tMax {
        breaks := breaks + [ToFixed(val, nnn)];
      }
      assert texts[..jj + 1] == texts[..jj] + [texts[jj]];
      jj := jj + 1;
    }
    assert texts[..jj] == texts;
  }

  // ---------------------------------------------------------------------------
  // Arithmetic behind break generation

  lemma MulDivCancel(b: real, s: real)
    requires s > 0.0
    ensures (b / s) * s == b
    ensures (b * s) / s == b
  {
  }

  lemma NextMultiple(k: int, step: real)
    ensures k as real * step + step == (k + 1) as real * step
  {
  }

  lemma CandidateMultiple(levelMin: real, lo: int, jj: nat, step: real)
    requires levelMin == lo as real * step
    ensures levelMin + jj as real * step == (lo + jj) as real * step
  {
  }

  /** Multiplying an inequality by a positive step. */
  lemma ScaleStrict(a: real, b: real, s: real)
    requires s > 0.0 && a > b / s
    ensures a * s > b
  {
    var d := a - b / s;
    MulDivCancel(b, s);
    assert a * s - b == d * s;
  }

  lemma ScaleWeak(a: real, b: real, s: real)
    requires s > 0.0 && a <= b / s
    ensures a * s <= b
  {
    var d := b / s - a;
    MulDivCancel(b, s);
    assert b - a * s == d * s;
  }

  /** Dividing by a positive number keeps the order. */
  lemma DivMonotone(a: real, b: real, s: real)
    requires s > 0.0 && a <= b
    ensures a / s <= b / s
  {
    var d := b / s - a / s;
    MulDivCancel(a, s);
    MulDivCancel(b, s);
    assert d * s == b - a;
  }

  /** A multiple k * step above a lies above the multiple floor(a / step). */
  lemma QuotientBelow(a: real, k: int, s: real)
    requires s > 0.0 && a < k as real * s
    ensures (a / s).Floor < k
  {
    var q := a / s;
    MulDivCancel(a, s);
    var d := k as real - q;
    assert d * s == k as real * s - q * s;
  }

  /** A multiple k * step not above b is at most the multiple floor(b / step). */
  lemma QuotientAtLeast(b: real, k: int, s: real)
    requires s > 0.0 && k as real * s <= b
    ensures k <= (b / s).Floor
  {
    DivMonotone(k as real * s, b, s);
    MulDivCancel(k as real, s);
    assert k as real <= b / s;
    FloorAtLeast(b / s, k);
  }

  lemma FloorAtLeast(x: real, k: int)
    requires k as real <= x
    ensures k <= x.Floor
  {
  }

  /** A table step of `digits` decimals, scaled by 10^digits, is its whole coefficient. */
  lemma ValueScaled(d: Decimal, step: real, digits: nat)
    requires step == Value(d) && digits == d.exp
    ensures step * Pow10(digits) as real == d.coef as real
  {
    MulDivCancel(d.coef as real, Pow10(d.exp) as real);
  }

  lemma Unscale(a: real, p: real, w: real)
    requires p > 0.0 && a * p == w
    ensures w / p == a
  {
    MulDivCancel(a, p);
  }

  /** A magnitude that is whole once scaled is printed by toFixed without rounding. */
  lemma FixedWhole(x: real, digits: nat, w: nat)
    requires Abs(x) * Pow10(digits) as real == w as real
    ensures FixedUnits(x, digits) == w
  {
    assert (w as real + 0.5).Floor == w;
  }

  /** A value whose scaled magnitude is whole is left alone by rounding. */
  lemma RoundWhole(x: real, digits: nat, w: nat)
    requires Abs(x) * Pow10(digits) as real == w as real
    ensures RoundTo(x, digits) == x
  {
    FixedWhole(x, digits, w);
    Unscale(Abs(x), Pow10(digits) as real, w as real);
  }

  /** A whole multiple of a step with `digits` decimals survives
      Number(x.toFixed(digits)). */
  lemma SnapProduct(k: int, step: real, digits: nat, coef: nat)
    requires step >= 0.0 && step * Pow10(digits) as real == coef as real
    ensures RoundTo(k as real * step, digits) == k as real * step
  {
    var ak: nat := if k < 0 then -k else k;
    var x := k as real * step;
    assert Abs(x) == ak as real * step;
    assert Abs(x) * Pow10(digits) as real == ak as real * (step * Pow10(digits) as real);
    RoundWhole(x, digits, ak * coef);
  }

  /** The same, for a term x that equals the multiple k * step. */
  lemma SnapMultiple(x: real, k: int, step: real, digits: nat, coef: nat)
    requires step >= 0.0 && step * Pow10(digits) as real == coef as real
    requires x == k as real * step
    ensures RoundTo(x, digits) == x
  {
    SnapProduct(k, step, digits, coef);
  }

  /** Number(x.toFixed(digits)) where x is the multiple k * step of a step with
      `digits` decimals: the multiple itself. */
  method SnapToStep(x: real, ghost k: int, step: real, digits: nat, ghost coef: nat) returns (r: real)
    requires step >= 0.0 && step * Pow10(digits) as real == coef as real
    requires x == k as real * step
    ensures r == x
  {
    r := NumberToFixed(x, digits);
    SnapMultiple(x, k, step, digits, coef);
  }

  /** The first and last multiple are in order, so the count below is never negative. */
  lemma BreakBounds(min: real, max: real, step: real)
    requires step > 0.0 && min <= max
    ensures (min / step).Floor <= (max / step).Floor
  {
    DivMonotone(min, max, step);
  }

  lemma DiffScaled(a: real, b: real, s: real)
    requires s > 0.0
    ensures (a * s - b * s) / s == a - b
  {
    assert a * s - b * s == (a - b) * s;
    MulDivCancel(a - b, s);
  }

  /** Math.round((levelMax - levelMin) / step) + 1 is the number of multiples from
      lo to hi when levelMin and levelMax are those multiples. */
  lemma LevelCount(levelMin: real, levelMax: real, lo: int, hi: int, step: real)
    requires step > 0.0
    requires levelMin == lo as real * step && levelMax == hi as real * step
    ensures JsRound((levelMax - levelMin) / step) + 1 == hi - lo + 1
  {
    DiffScaled(hi as real, lo as real, step);
    assert JsRound((hi - lo) as real) == hi - lo;
  }

  /** The number of multiples of the step in (min, max]. */
  lemma BreakCount(min: real, max: real, step: real)
    requires step > 0.0 && min <= max
    ensures |BreakValues(min, max, step)| == (max / step).Floor - (min / step).Floor
  {
    BreakBounds(min, max, step);
  }

  /** The k-th candidate of the emission loop lies inside (min, max]. */
  lemma BreakWithin(min: real, max: real, step: real, k: nat)
    requires step > 0.0
    requires k < |BreakValues(min, max, step)|
    ensures min < BreakValues(min, max, step)[k] <= max
  {
    var lo := (min / step).Floor + 1;
    var hi := (max / step).Floor;
    ScaleStrict((lo + k) as real, min, step);
    ScaleWeak((lo + k) as real, max, step);
  }

  lemma BreakTextsLength(min: real, max: real, step: real, digits: nat)
    requires step > 0.0
    ensures |BreakTexts(min, max, step, digits)| == |BreakValues(min, max, step)|
  {
  }

  /** The jj-th break is the multiple lo + jj, lo being the first multiple above min,
      and the jj-th break text is that break printed with toFixed. */
  lemma BreakTextAt(min: real, max: real, step: real, digits: nat, lo: int, jj: nat)
    requires step > 0.0 && lo == (min / step).Floor + 1
    requires jj < |BreakValues(min, max, step)|
    ensures |BreakTexts(min, max, step, digits)| == |BreakValues(min, max, step)|
    ensures BreakValues(min, max, step)[jj] == (lo + jj) as real * step
    ensures BreakTexts(min, max, step, digits)[jj] == ToFixed(BreakValues(min, max, step)[jj], digits)
  {
  }

  // ---------------------------------------------------------------------------
  // What the breaks are

  /** Every break lies in the half-open interval (min, max]. */
  lemma BreaksWithin(min: real, max: real, step: real)
    requires step > 0.0
    ensures forall i :: 0 <= i < |BreakValues(min, max, step)| ==>
      min < BreakValues(min, max, step)[i] <= max
  {
    forall i | 0 <= i < |BreakValues(min, max, step)|
      ensures min < BreakValues(min, max, step)[i] <= max
    {
      BreakWithin(min, max, step, i);
    }
  }

  /** The breaks are strictly ascending, one step apart. */
  lemma BreaksAscending(min: real, max: real, step: real, i: nat, j: nat)
    requires step > 0.0
    requires i < j < |BreakValues(min, max, step)|
    ensures BreakValues(min, max, step)[i] < BreakValues(min, max, step)[j]
    ensures j == i + 1 ==> BreakValues(min, max, step)[j] - BreakValues(min, max, step)[i] == step
  {
    var lo := (min / step).Floor + 1;
    assert BreakValues(min, max, step)[j] - BreakValues(min, max, step)[i] == (j - i) as real * step;
  }

  /** The breaks are exactly the multiples of the step in (min, max]: a multiple
      of the step is a break if and only if it exceeds min and does not exceed max. */
  lemma BreaksAreMultiplesInRange(min: real, max: real, step: real, k: int)
    requires step > 0.0
    ensures (exists i :: 0 <= i < |BreakValues(min, max, step)| && BreakValues(min, max, step)[i] == k as real * step)
        <==> min < k as real * step <= max
  {
    var bs := BreakValues(min, max, step);
    var lo := (min / step).Floor + 1;
    if min < k as real * step <= max {
      QuotientBelow(min, k, step);
      QuotientAtLeast(max, k, step);
      assert bs[k - lo] == k as real * step;
    }
    if exists i :: 0 <= i < |bs| && bs[i] == k as real * step {
      var i :| 0 <= i < |bs| && bs[i] == k as real * step;
      BreakWithin(min, max, step, i);
    }
  }

  /** Each break text reads back as its break value (the caller parses them). */
  lemma BreakTextsParse(min: real, max: real, step: real, digits: nat, coef: nat, i: nat)
    requires step > 0.0 && step * Pow10(digits) as real == coef as real
    requires i < |BreakValues(min, max, step)|
    ensures ParseFloat(BreakTexts(min, max, step, digits)[i]) == BreakValues(min, max, step)[i]
  {
    var k := (min / step).Floor + 1 + i;
    var x := BreakValueAt(min, max, step, k, i);
    BreakTextOf(min, max, step, digits, i, x);
    MultipleParses(x, k, step, digits, coef);
  }

  /** The i-th break is the multiple k * step of the step, k = floor(min / step) + 1 + i. */
  lemma BreakValueAt(min: real, max: real, step: real, k: int, i: nat) returns (x: real)
    requires step > 0.0 && k == (min / step).Floor + 1 + i
    requires i < |BreakValues(min, max, step)|
    ensures x == BreakValues(min, max, step)[i] && x == k as real * step
  {
    x := BreakValues(min, max, step)[i];
  }

  /** The i-th break text is the toFixed text of the i-th break. */
  lemma BreakTextOf(min: real, max: real, step: real, digits: nat, i: nat, x: real)
    requires step > 0.0 && i < |BreakValues(min, max, step)|
    requires x == BreakValues(min, max, step)[i]
    ensures i < |BreakTexts(min, max, step, digits)|
    ensures BreakTexts(min, max, step, digits)[i] == ToFixed(x, digits)
  {
  }

  /** The toFixed text of a multiple of the step reads back as that multiple. */
  lemma MultipleParses(x: real, k: int, step: real, digits: nat, coef: nat)
    requires step >= 0.0 && step * Pow10(digits) as real == coef as real
    requires x == k as real * step
    ensures ParseFloat(ToFixed(x, digits)) == x
  {
    SnapMultiple(x, k, step, digits, coef);
    ParseToFixed(x, digits);
  }

  /** With the same target count, a wider interval never gets a finer step. */
  lemma WiderIntervalCoarserStep(min1: real, max1: real, min2: real, max2: real, targetN: nat)
    requires targetN > 0
    requires max1 - min1 <= max2 - min2
    ensures Value(ChooseStep((max1 - min1) / targetN as real))
         <= Value(ChooseStep((max2 - min2) / targetN as real))
  {
    DivMonotone(max1 - min1, max2 - min2, targetN as real);
    ChooseStepMonotone((max1 - min1) / targetN as real, (max2 - min2) / targetN as real);
  }

  /** The table's decimals as the digit counter reports them: 0 for whole degrees,
      1 for 30′, 9 for the rest. */
  lemma NiceStepDigits(i: nat)
    requires i < |NiceSteps|
    ensures Normal(NiceSteps[i]) && PointPosition(NiceSteps[i]) <= 21
    ensures FractionDigits(NiceSteps[i]) == Some(if i < 7 then 0 else if i == 7 then 1 else 9)
  {
    NiceStepsWellFormed(i);
    NiceStepExponent(i);
  }

  lemma NiceStepExponent(i: nat)
    requires i < |NiceSteps|
    ensures NiceSteps[i].exp == if i < 7 then 0 else if i == 7 then 1 else 9
  {
  }

  /** The interval [-10, 10] with target 3: rough step 20/3, step 5, breaks at
      -5, 0, 5 and 10 (10 is a multiple and equals max, so it is kept). */
  lemma ExampleTenDegrees()
    ensures StepIndex(20.0 / 3.0) == 4
    ensures Value(NiceSteps[4]) == 5.0 && NiceSteps[4].exp == 0
    ensures BreakTexts(-10.0, 10.0, 5.0, 0) == ["-5", "0", "5", "10"]
  {
    NiceStepValues();
    StepIndexUnique(20.0 / 3.0, 4);
    assert (-10.0 / 5.0).Floor == -2;
    assert (10.0 / 5.0).Floor == 2;
    var vs := BreakValues(-10.0, 10.0, 5.0);
    assert vs == [-5.0, 0.0, 5.0, 10.0];
    assert NatText(10) == NatText(1) + "0";
    assert ToFixed(-5.0, 0) == "-5";
    assert ToFixed(0.0, 0) == "0";
    assert ToFixed(5.0, 0) == "5";
    assert ToFixed(10.0, 0) == "10";
  }
}
