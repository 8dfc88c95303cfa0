# Graticule labels and breaks, modelled in Dafny

This project models the numeric core of the Leaflet carto-graticule control
(`Leaflet.CartoGraticule.js`). The control draws a latitude/longitude grid and
labels it. It has four numeric pieces:

- `_getCoordBreaks` picks a "nice" grid step for a visible range and a target
  line count. Steps go from 60° down to 1″. It then lists the grid values in the
  range as text.
- `_getvaluenumber` counts how many decimals a number's text carries.
- `_du2dufen` prints an angle in degrees and minutes (d°mm′).
  `_du2dufenmiao` prints it in degrees, minutes and seconds (d°mm′ss″). Both
  round the last field with `toFixed` and carry a rounded-up 60 into the field
  above.
- `_formatCoord` chooses the printer from the grid step and adds the
  hemisphere suffix (E/W, N/S).

Numbers are exact reals. The JavaScript built-ins the code uses are written out in
module `JsText`: `toFixed`, `parseFloat`, `Math.round`, `%`, `parseInt`,
`split`, `String(n)` and `Number.prototype.toString`. The modules follow the
source:

- `JsText`: the built-ins.
- `Precision`: `_getvaluenumber`.
- `StepSelector`: `_getCoordBreaks`. The method keeps both of the source's loops,
  the table scan and the break emission. It is proved equal to the specification
  functions `ChooseStep` and `BreakTexts`.
- `CoordFormat`: `_formatCoord`, `_du2dufen` and `_du2dufenmiao`. The printers
  follow the source line by line. They are proved equal to a reference: round the
  whole angle once to 10^-n of the last unit, then split it by division and
  remainder.

Three facts about the source that the model keeps:

- the step table at lines 370-387 has 19 entries, from 60° down to 1″
  (`StepSelector.NiceStepValues`);
- line 363 returns an empty list with step 1 when the interval is reversed
  (`StepSelector.GetCoordBreaks`);
- for the interval [-10, 10] with target 3, the breaks are "-5", "0", "5" and "10".
  10 is a multiple of 5 and equals the maximum, so line 411 keeps it
  (`StepSelector.ExampleTenDegrees`).

## Model

| member | source | states |
|---|---|---|
| JsText.FixedUnits | Leaflet.CartoGraticule.js:441 | the digits toFixed(n) prints are \|x\|·10^n rounded to the nearest integer, ties upward |
| JsText.RoundTo | Leaflet.CartoGraticule.js:403-404 | Number(x.toFixed(n)) under exact arithmetic: a non-negative x rounds to a non-negative result and a negative x to a non-positive one; the rest of its contract restates its body and is characterised by JsText.RoundToNearest |
| JsText.RoundToNearest | Leaflet.CartoGraticule.js:403-404 | the magnitude of the result is a whole number of units 10^-n (the digits toFixed prints) and lies within half a unit of \|x\|, a tie going to the larger magnitude |
| JsText.ToFixed | Leaflet.CartoGraticule.js:441 | no contract of its own; characterised by JsText.ParseToFixed and JsText.FixedUnits |
| JsText.ParseFloat | Leaflet.CartoGraticule.js:444 | no contract of its own; characterised by JsText.ParseToFixed |
| JsText.ParseInt | Leaflet.CartoGraticule.js:429 | no contract of its own; characterised by JsText.ParseIntNegated |
| JsText.JsRem | Leaflet.CartoGraticule.js:439 | no contract of its own; characterised by CoordFormat.DmsFields |
| JsText.NumberText | Leaflet.CartoGraticule.js:425 | no contract of its own; characterised by Precision.FractionDigits and Precision.NumberTextDigits |
| JsText.ParseToFixed | Leaflet.CartoGraticule.js:403-404 | parseFloat of any toFixed(n) text is exactly x rounded to n decimals |
| JsText.NumberToFixed | Leaflet.CartoGraticule.js:410 | Number(x.toFixed(n)), computed by printing and parsing back, is RoundTo(x, n) |
| JsText.JsRound | Leaflet.CartoGraticule.js:406 | Math.round gives the integer k with k - 1/2 <= x < k + 1/2 |
| JsText.NatText | Leaflet.CartoGraticule.js:455 | String(v1) of a whole number is a non-empty digit string with no leading zero |
| JsText.Split | Leaflet.CartoGraticule.js:428 | split returns at least one part, and at least two when the separator occurs |
| JsText.SplitFirst | Leaflet.CartoGraticule.js:428 | splitting a + c + b, where a has no c, gives a followed by the parts of b |
| JsText.ParseIntNegated | Leaflet.CartoGraticule.js:429 | parseInt of "-" followed by the digits of m is -m |
| Precision.TextDigits | Leaflet.CartoGraticule.js:425-432 | no contract of its own; characterised by Precision.PlainTextDigits and Precision.ExponentTextDigits |
| Precision.FractionDigits | Leaflet.CartoGraticule.js:422-433 | for every shortest-form decimal below 10^21, including zero and numbers printed in exponent form, the count is exactly its number of decimals |
| Precision.NumberTextDigits | Leaflet.CartoGraticule.js:425-432 | the count read off toString of a non-zero number is its number of decimals |
| Precision.PlainTextDigits | Leaflet.CartoGraticule.js:431-432 | in plain notation the count is the number of digits after the point, 0 without a point |
| Precision.ExponentTextDigits | Leaflet.CartoGraticule.js:427-429 | in notation D.DDDe-m the count is m plus the mantissa's digits after the point |
| StepSelector.NiceSteps | Leaflet.CartoGraticule.js:370-387 | no contract of its own; characterised by StepSelector.NiceStepValues |
| StepSelector.FirstFit | Leaflet.CartoGraticule.js:392-397 | the index lies in the table from the start index on; characterised by StepSelector.FirstFitSpec |
| StepSelector.StepIndex | Leaflet.CartoGraticule.js:389-397 | the index lies in the table; characterised by StepSelector.StepIndexSpec and StepSelector.StepIndexUnique |
| StepSelector.ChooseStep | Leaflet.CartoGraticule.js:389-397 | the step is positive; characterised by StepSelector.ChooseStepIsLargestFit and StepSelector.ChooseStepMonotone |
| StepSelector.BreakValues | Leaflet.CartoGraticule.js:400-414 | no contract of its own; characterised by StepSelector.BreaksWithin, StepSelector.BreaksAscending and StepSelector.BreaksAreMultiplesInRange |
| StepSelector.BreakTexts | Leaflet.CartoGraticule.js:410-412 | no contract of its own; characterised by StepSelector.BreakTextsParse |
| StepSelector.NiceStepValues | Leaflet.CartoGraticule.js:370-387 | the table has 19 entries with the listed values, from 60 down to 0.000277778 |
| StepSelector.NiceStepsDescending | Leaflet.CartoGraticule.js:370-387 | the table is strictly descending |
| StepSelector.NiceStepsWellFormed | Leaflet.CartoGraticule.js:370-387 | every entry is a positive shortest-form decimal below 10^21, the form the digit counter reads |
| StepSelector.NiceStepDigits | Leaflet.CartoGraticule.js:399 | the digit counter gives 0 for the whole-degree steps, 1 for 0.5, and 9 for the rest |
| StepSelector.FirstFitSpec | Leaflet.CartoGraticule.js:392-397 | the scan stops at an entry not above the rough step, or at the last entry; every entry before it is above the rough step |
| StepSelector.StepIndexSpec | Leaflet.CartoGraticule.js:389-397 | the chosen index is the first entry not above the rough step, or the finest entry when none fits |
| StepSelector.StepIndexUnique | Leaflet.CartoGraticule.js:389-397 | any index with those two properties is the chosen one |
| StepSelector.ChooseStepIsLargestFit | Leaflet.CartoGraticule.js:389-397 | the chosen step is the largest entry not above the rough step; it exceeds the rough step only when it is the finest entry |
| StepSelector.FirstFitMonotone | Leaflet.CartoGraticule.js:392-397 | in any table, a larger rough step stops the scan no later |
| StepSelector.ChooseStepMonotone | Leaflet.CartoGraticule.js:365-397 | a larger rough step never gives a finer step |
| StepSelector.WiderIntervalCoarserStep | Leaflet.CartoGraticule.js:362-397 | with the same target count, a wider interval never gets a finer step |
| StepSelector.GetCoordBreaks | Leaflet.CartoGraticule.js:362-420 | a reversed interval gives no breaks and step 1; otherwise the step is ChooseStep((max - min) / targetN), and the breaks are the texts of its multiples in (min, max] |
| StepSelector.EmitBreaks | Leaflet.CartoGraticule.js:399-414 | snapping, counting with Math.round and filtering to [min, max] emit exactly the multiples of the step in (min, max], each printed with toFixed |
| StepSelector.SnapToStep | Leaflet.CartoGraticule.js:403-404 | Number(x.toFixed(n)) of a multiple of a step with n decimals is that multiple |
| StepSelector.SnapMultiple | Leaflet.CartoGraticule.js:410 | rounding a multiple of a step with n decimals to n decimals leaves it unchanged |
| StepSelector.LevelCount | Leaflet.CartoGraticule.js:406 | Math.round((levelMax - levelMin) / step) + 1 counts the multiples from levelMin to levelMax |
| StepSelector.BreakCount | Leaflet.CartoGraticule.js:400-406 | there are floor(max / step) - floor(min / step) breaks |
| StepSelector.BreaksWithin | Leaflet.CartoGraticule.js:411 | every break lies in (min, max] |
| StepSelector.BreaksAscending | Leaflet.CartoGraticule.js:409-414 | the breaks ascend, and neighbours are one step apart |
| StepSelector.BreaksAreMultiplesInRange | Leaflet.CartoGraticule.js:400-414 | k·step is a break if and only if it lies in (min, max] |
| StepSelector.BreakTextsParse | Leaflet.CartoGraticule.js:412 | each break text parses back to its break value |
| StepSelector.ExampleTenDegrees | Leaflet.CartoGraticule.js:362-420 | for [-10, 10] with target 3, the step is 5 and the breaks are "-5", "0", "5", "10" |
| CoordFormat.DegreesToDm | Leaflet.CartoGraticule.js:458-465 | no contract of its own; characterised by CoordFormat.DegreesToDmRounds and CoordFormat.SignIgnored |
| CoordFormat.MagnitudeToDm | Leaflet.CartoGraticule.js:460-461 | no contract of its own; characterised by CoordFormat.MagnitudeToDmRounds |
| CoordFormat.CarryDm | Leaflet.CartoGraticule.js:462-464 | no contract of its own; characterised by CoordFormat.CarryDmText |
| CoordFormat.DegreesToDms | Leaflet.CartoGraticule.js:435-456 | no contract of its own; characterised by CoordFormat.DegreesToDmsRounds and CoordFormat.SignIgnored |
| CoordFormat.MagnitudeToDms | Leaflet.CartoGraticule.js:437-441 | no contract of its own; characterised by CoordFormat.MagnitudeToDmsRounds |
| CoordFormat.CarryDms | Leaflet.CartoGraticule.js:444-455 | no contract of its own; characterised by CoordFormat.CarryDmsText |
| CoordFormat.SplitDm | Leaflet.CartoGraticule.js:458-465 | a total of 10^-n minutes splits into degrees and a minutes field below 60 that add back to the total |
| CoordFormat.SplitDms | Leaflet.CartoGraticule.js:435-456 | a total of 10^-n seconds splits into degrees, minutes below 60 and a seconds field below 60 that add back to the total |
| CoordFormat.SplitDmUnique | Leaflet.CartoGraticule.js:458-465 | any such split of the total is SplitDm's |
| CoordFormat.SplitDmsUnique | Leaflet.CartoGraticule.js:435-456 | any such split of the total is SplitDms's |
| CoordFormat.DmFields | Leaflet.CartoGraticule.js:459-461 | v1 = floor(\|value\|); the minutes left over lie in [0, 60) and add back to \|value\|·60 |
| CoordFormat.DmsFields | Leaflet.CartoGraticule.js:436-439 | v1, v2 and the seconds from % 60 are fields below 60 that add back to \|value\|·3600 |
| CoordFormat.TotalUnits | Leaflet.CartoGraticule.js:441 | rounding whole units plus a remainder gives the whole units plus the rounded remainder |
| CoordFormat.DmSplit | Leaflet.CartoGraticule.js:461-462 | the split of the once-rounded minutes total equals the whole degrees with the rounded minutes field, carried |
| CoordFormat.DmsSplit | Leaflet.CartoGraticule.js:441-451 | the split of the once-rounded seconds total equals the degrees and minutes with the rounded seconds field, carried |
| CoordFormat.DegreesToDmRounds | Leaflet.CartoGraticule.js:458-465 | _du2dufen prints \|value\| rounded once to 10^-n minutes, split into degrees and minutes; a rounded-up 60′ becomes one more degree |
| CoordFormat.MagnitudeToDmRounds | Leaflet.CartoGraticule.js:460-464 | the same, from value2 = \|value\| on |
| CoordFormat.DegreesToDmsRounds | Leaflet.CartoGraticule.js:435-456 | _du2dufenmiao prints \|value\| rounded once to 10^-n seconds, split into degrees, minutes and seconds; a rounded-up 60″ carries into the minutes and then the degrees |
| CoordFormat.MagnitudeToDmsRounds | Leaflet.CartoGraticule.js:437-455 | the same, from value2 = \|value\| on |
| CoordFormat.CarryDmText | Leaflet.CartoGraticule.js:462-464 | for a rounded minutes field of at most 60′, the carry and padding of _du2dufen print degrees and minutes, with 60′ carried as one more degree and 0′ |
| CoordFormat.CarryDmsText | Leaflet.CartoGraticule.js:444-455 | for a rounded seconds field of at most 60″, the carries and padding of _du2dufenmiao print degrees, minutes and seconds, with 60″ carried into the minutes and 60′ into the degrees |
| CoordFormat.SignIgnored | Leaflet.CartoGraticule.js:436 | both printers give the same text for value and -value (Math.abs) |
| CoordFormat.Suffix | Leaflet.CartoGraticule.js:342-347 | no contract of its own; characterised by CoordFormat.FormatCoordMirror and CoordFormat.ExampleZero |
| CoordFormat.SecondDecimals | Leaflet.CartoGraticule.js:357 | no contract of its own; characterised by CoordFormat.FineStepRefused, CoordFormat.FormatCoordRefused and CoordFormat.TenThousandthStepDecimals |
| CoordFormat.AngleText | Leaflet.CartoGraticule.js:349-359 | no contract of its own; characterised by CoordFormat.AngleTextSignIgnored |
| CoordFormat.FormatCoord | Leaflet.CartoGraticule.js:340-360 | no contract of its own; characterised by CoordFormat.FormatCoordRefused, CoordFormat.FormatCoordMirror and the examples |
| CoordFormat.LeastScale | Leaflet.CartoGraticule.js:357 | the least p from the start, up to 100, with y·10^p >= 1; 101 when there is none |
| CoordFormat.FineStepRefused | Leaflet.CartoGraticule.js:357-358 | the decimal count exceeds 100 exactly when the step in seconds does not reach 10^-100 |
| CoordFormat.CoarseStepShown | Leaflet.CartoGraticule.js:353-354 | a step at or above the seconds threshold always reaches 10^-100 |
| CoordFormat.FormatCoordRefused | Leaflet.CartoGraticule.js:340-360 | _formatCoord gives no text exactly for a zero step, or a positive step too fine for 100 decimals of seconds, where toFixed throws |
| CoordFormat.AngleTextSignIgnored | Leaflet.CartoGraticule.js:341-358 | in every branch the angle text is the same for a coordinate and its mirror |
| CoordFormat.FormatCoordMirror | Leaflet.CartoGraticule.js:340-360 | mirrored coordinates get the same text up to the suffix; the suffix is " E"/" N" for positive and " W"/" S" for negative; zero gets the angle text alone, with no suffix, whatever its sign |
| CoordFormat.FinestStepWholeSeconds | Leaflet.CartoGraticule.js:353-358 | the 1″ table step falls below the 0.00027778 threshold, yet prints as the 2″ step does |
| CoordFormat.ExampleWholeDegrees | Leaflet.CartoGraticule.js:349-350 | -45 on a one-degree longitude grid prints "45° W" |
| CoordFormat.ExampleZero | Leaflet.CartoGraticule.js:344-350 | 0 on a one-degree latitude grid prints "0°", with no hemisphere |
| CoordFormat.ExampleDegreesMinutes | Leaflet.CartoGraticule.js:351-352 | 30.5 on a half-degree latitude grid prints "30°30′ N" |
| CoordFormat.ExampleDoubleCarry | Leaflet.CartoGraticule.js:444-451 | -0.9999999 in whole seconds prints "1°00′00″": both carries fire |
| CoordFormat.TenThousandthStepDecimals | Leaflet.CartoGraticule.js:357 | a 0.0001° step takes one decimal of seconds |
| CoordFormat.ExampleSecondDecimals | Leaflet.CartoGraticule.js:355-358 | 10.5 on a 0.0001° longitude grid prints "10°30′00.0″ E" |

## Left out

- The UMD wrapper, and the control's lifecycle: options, onAdd/onRemove, map events and redraw. These have no numeric content.
- Drawing: `_drawCoordinates`, and creating the grid lines, ticks and label elements. These are DOM and canvas output.
- IEEE-754 floating point: all numbers are exact reals. The model does not capture binary rounding error in `*`, `/`, `%` or in the table literals.
- `Math.log10` is computed exactly. `CoordFormat.SecondDecimals` finds the least p with step·3600·10^p >= 1 instead of evaluating ceil(-log10(step·3600)). The two agree under exact arithmetic.
- `toFixed` and `toString` are modelled only below 10^21, where they print plain digits. Above that they switch to exponent notation, which is not modelled.
- StepSelector.GetCoordBreaks: for breaks of magnitude 10^21 or more its ensures describe plain-digit texts, whereas toFixed prints exponent notation there; no bound is placed on the interval, since the source accepts any.
- `parseFloat` is modelled only on the texts `toFixed` produces.
- `parseInt` is modelled only on texts without leading white space.
- `StepSelector.GetCoordBreaks` requires targetN > 0. A zero target divides by zero in the source, giving an infinite or NaN rough step.
- `StepSelector.GetCoordBreaks` drops the parameter `latlngsy`, which the source never reads.
- The type argument of `_formatCoord` is an `Axis` with two values: the source treats any value other than 'lng' as latitude.
- The coordinate passed to `_formatCoord` is a sign plus a shortest-form terminating decimal (`CoordFormat.Coord`), so that `String(Math.abs(val))` can be written out.
- `CoordFormat.DegreesToDm` and `CoordFormat.DegreesToDms` require n <= 100: `toFixed` throws a RangeError beyond that. `CoordFormat.FormatCoord` returns None where the source would throw.
- `CoordFormat.LeastScale` uses 101 to stand for every count above 100.
- `StepSelector.EmitBreaks`: the second half of `_getCoordBreaks` (lines 399-414) is a method of its own, called by `StepSelector.GetCoordBreaks`. It takes the step and its digit count as inputs.
- `StepSelector.SnapToStep`: its contract covers only the multiples of the step, the only values `_getCoordBreaks` passes to `Number(x.toFixed(n))`.
- The printers are split into layers: `DegreesToDm(s)` takes |value|, `MagnitudeToDm(s)` computes the fields, and `CarryDm(s)` does the carry and padding. `_formatCoord` is `AngleText` followed by the suffix. Together the layers do exactly what the source functions do.
