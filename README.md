# build-your-own-radar: ring geometry, blip layout and sheet input, in Dafny

This project models the computational core of *build-your-own-radar*, a
tool that draws a technology radar. A radar has four quadrants and a few
concentric rings, and every technology on it (a "blip") belongs to one
quadrant and one ring. The model covers four parts of the program:

- **The ring calculator** (`RingCalculator`, ringcalculator.dfy). Ring
  boundaries are prefix sums of the weight table `[0,6,5,5,5,4,2,1]`, scaled
  so that the last ring ends at the maximum radius.
- **Blip layout** (`Radar`, radar.dfy):
  - the chart centre;
  - `calculateBlipCoordinates`, which gives each blip of a ring an evenly
    spaced vertical slot, pushes it right to clear the ring's inner arc, and
    measures the room left for its label;
  - the collision test;
  - the per-ring slot loop of `plotBlips`;
  - the element id of a tag.
- **The header validator** (`ContentValidator`, contentvalidator.dfy). It
  trims the column names and requires six named columns.
- **The row sanitiser** (`InputSanitizer`, inputsanitizer.dfy):
  - key and value trimming;
  - the display fields passed through `sanitizeHtml`;
  - `|`-separated tags;
  - header-index lookup for protected sheets;
  - the status-based reducer.

Three support modules hold what the core relies on:

- `JsNumber` (jsnumber.dfy) covers numbers: exact reals plus NaN and the two
  infinities, with IEEE 754 division by zero and NaN propagation.
- `Strings` (strings.dfy) covers `trim` over the ECMAScript white-space set,
  `split` and `join` on one character, a global one-character `replace`, and
  `indexOf`.
- `ExceptionMessages` holds the two error messages the validator raises.

How JavaScript features are represented:

- `Math.sqrt` is a function parameter `sqrt`. Facts that need it assume
  `IsSqrt(sqrt)`: the non-negative root of a non-negative real.
- `encodeURIComponent` and `sanitizeHtml` are parameters the model never
  looks inside.
- Mutable state takes the source's form:
  - the slot loop of `plotBlips` is a method with a counter, and it appends
    each position to a `seq` value that stands for the JavaScript array;
  - `trimWhiteSpaces` is a loop filling a dictionary;
  - `sanitize` and `sanitizeForProtectedSheet` are methods that set
    properties one after another;
  - the reducer pushes onto a `BlipList` object.
- Each of those methods is proved equal to a specification function, and the
  lemmas are stated about that function.

**Edge cases of the code that the model keeps as written:**

- A ring with a single blip divides by `blipTotal - 1 = 0`
  (src/graphing/radar.js:141). Its slot is then `0 * Infinity`, which is
  NaN, or `0 * NaN` when `topmostY` is 7. `Radar.OneBlipSlotIsNaN` and
  `Radar.OneBlipRingIsNotPlaced` state this outcome. The slot lemmas need
  `blipTotal >= 2`.
- Nothing rejects zero rings or more than seven rings, and nothing rejects
  degenerate ring geometry:
  - with no rings every radius is NaN or an infinity
    (`RingCalculator.RadiusWithoutRings`);
  - past seven rings the extra boundaries all sit on the outer edge
    (`RingCalculator.RingsBeyondTableCollapse`).
- `sanitize` reads the ring from a `Horizon` column
  (src/util/inputSanitizer.js:39), but the validator requires a `Ring`
  column (src/util/contentValidator.js:26). The model keeps both.

## Model

| member | source | states |
|---|---|---|
| RingCalculator.SumIsPrefixSum | src/util/ringCalculator.js:2-10 | `sum(n)` is the inclusive prefix sum of the weights through index `n` (0, 6, 11, 16, 21, 25, 27, 28), and 28 for every `n >= 7` |
| RingCalculator.Sum | src/util/ringCalculator.js:6-10 | `sum(length)`: the weights of `sequence.slice(0, length + 1)` added up; its properties are in the lemmas below |
| RingCalculator.SumZeroIff | src/util/ringCalculator.js:6-10 | `sum(n)` is 0 exactly for `n` = 0, `n` = -1, and `n <= -8` |
| RingCalculator.SumMonotone | src/util/ringCalculator.js:6-10 | `sum` is non-decreasing from -1 on, because no weight is negative |
| RingCalculator.SumPositive | src/util/ringCalculator.js:6-10 | `sum(n) > 0` for `n >= 1` |
| RingCalculator.GetRadius | src/util/ringCalculator.js:12-17 | the radius is a finite number exactly when the total `sum(numberOfRings)` is non-zero |
| RingCalculator.RadiusFinite | src/util/ringCalculator.js:12-17 | with at least one ring, every boundary radius is finite |
| RingCalculator.RadiusWithoutRings | src/util/ringCalculator.js:12-17 | with zero rings the total is 0: the radius is NaN when `maxRadius` or `sum(ring)` is 0, and an infinity otherwise; it is never finite |
| RingCalculator.RadiusAtCentre | src/util/ringCalculator.js:12-17 | `getRadius(0)` is 0 |
| RingCalculator.RadiusAtOuterEdge | src/util/ringCalculator.js:12-17 | `getRadius(numberOfRings)` is `maxRadius` when there is at least one ring |
| RingCalculator.RadiusMonotone | src/util/ringCalculator.js:12-17 | for `maxRadius >= 0` and `0 <= r1 <= r2 <= numberOfRings`: `0 <= getRadius(r1) <= getRadius(r2) <= maxRadius` |
| RingCalculator.RingsBeyondTableCollapse | src/util/ringCalculator.js:2-17 | nothing rejects more than seven rings; every boundary from 7 up to `numberOfRings` equals `maxRadius` |
| RingCalculator.FourRingExample | src/util/ringCalculator.js:2-17 | with 4 rings and radius 400: `getRadius(1) = 400*6/21` and `getRadius(4) = 400` |
| JsNumber.Div | src/util/ringCalculator.js:16 | `a / b` on numbers: finite exactly when the divisor is non-zero, NaN in, NaN out |
| JsNumber.Add | src/graphing/radar.js:150 | `a + b` on numbers: the sum of finite numbers; NaN in, NaN out |
| JsNumber.Sub | src/graphing/radar.js:151 | `a - b` on numbers: the difference of finite numbers; NaN in, NaN out |
| JsNumber.Less | src/graphing/radar.js:144 | `a < b`: false whenever either side is NaN, and the order of the reals on finite numbers |
| JsNumber.Abs | src/graphing/radar.js:158 | `Math.abs`: a finite number's distance from 0 |
| JsNumber.Mul | src/graphing/radar.js:142 | `a * b` on numbers: the product of finite numbers; NaN in, NaN out; an infinity times 0 is NaN; two infinities give an infinity whose sign is the product of their signs |
| JsNumber.Sqrt | src/graphing/radar.js:144-147 | `Math.sqrt`: the root given by `sqrt` for a non-negative finite argument, NaN for a negative one, and for an infinity NaN exactly when it is negative |
| Radar.Round | src/graphing/radar.js:37 | `Math.round` gives the integer within half of `x`, and a half rounds up |
| Radar.CenterX | src/graphing/radar.js:32-34 | `centerX()` is 0 |
| Radar.CenterY | src/graphing/radar.js:36-38 | `centerY()` is 7 times `Math.round(size / 8)`; see CenterYOfWholeSize |
| Radar.CenterYOfWholeSize | src/graphing/radar.js:36-38 | for a whole-pixel `size`, `centerY()` is `7 * ((size + 4) / 8)` in integer division |
| Radar.Margin | src/graphing/radar.js:132-134 | the margin lies between 0 and an eighth of the ring's width, and is strictly smaller than an eighth exactly when `minRadius` is 0 |
| Radar.TopmostY | src/graphing/radar.js:138 | `topmostY` is the smaller of `centerY() - 14` and `minRadius + 7/8 * gap` |
| Radar.YGap | src/graphing/radar.js:141 | `yGap = (topmostY - 7) / (blipTotal - 1)` in JavaScript number arithmetic; see YSpacedValue and OneBlipSlotIsNaN |
| Radar.YSpaced | src/graphing/radar.js:142 | `ySpaced = topmostY - blipIndex * yGap`; see the slot lemmas |
| Radar.XMargin | src/graphing/radar.js:143-145 | the two guarded assignments of `xMargin`; see XMarginCases |
| Radar.CalculateBlipCoordinates | src/graphing/radar.js:131-154 | `calculateBlipCoordinates` as a whole; see SlotCoordinates, LabelWidthNonNegative and SlotsDoNotOverlap |
| Radar.YSpacedValue | src/graphing/radar.js:141-142 | with two blips or more, slot `i` is `topmostY - i * (topmostY - 7) / (blipTotal - 1)` |
| Radar.SlotInterpolates | src/graphing/radar.js:141-142 | slot `i` is the weighted average of `topmostY` and 7, with weights `n-1-i` and `i` |
| Radar.SlotsEndAtBounds | src/graphing/radar.js:139-142 | the first slot is `topmostY` and the last is `bottommostY` = 7 |
| Radar.SlotsDescend | src/graphing/radar.js:141-142 | when `topmostY > 7`, slots strictly descend as the index grows |
| Radar.SlotsWithinBounds | src/graphing/radar.js:139-142 | every slot lies in `[7, topmostY]` |
| Radar.OneBlipSlotIsNaN | src/graphing/radar.js:141-142 | with one blip the spacing is not finite and the slot is NaN |
| Radar.OneBlipRingIsNotPlaced | src/graphing/radar.js:131-154 | a lone blip of a ring gets `x = margin`, a NaN `y` and a NaN label width |
| Radar.XMarginCases | src/graphing/radar.js:143-145 | `xMargin` at a finite height is: the margin at or above the stand-off; NaN below minus the stand-off; otherwise the larger of the margin and `sqrt(standOff² - y²)` |
| Radar.XMarginAtLeastMargin | src/graphing/radar.js:143-145 | `xMargin` is never a number below the margin: it is NaN or at least the margin |
| Radar.XMarginOnStandOffCircle | src/graphing/radar.js:144 | when the chord is taken, the blip lies on the stand-off circle: `x² + y² = standOff²` |
| Radar.SlotCoordinates | src/graphing/radar.js:143-153 | at a slot of height `y` whose offset `xMargin` is the number `xm`, inside the outer arc (`y² <= maxRadius²`): the blip is at `x = xm`, `y = centerY() - y`, and its label width is `sqrt(maxRadius² - y²) - xm`, all finite |
| Radar.LabelWidthNonNegative | src/graphing/radar.js:143-153 | nothing clamps the label width, yet for a proper ring (`0 <= minRadius < maxRadius`, at least two blips, `topmostY >= 7`) it is finite and non-negative |
| Radar.ThereIsCollisionIff | src/graphing/radar.js:156-160 | `thereIsCollision` holds exactly when some recorded position is closer than the blip's width on both axes; it is false for an empty record |
| Radar.ThereIsCollision | src/graphing/radar.js:156-160 | `thereIsCollision`, the `some` over recorded positions; see ThereIsCollisionIff |
| Radar.SlotsDoNotOverlap | src/graphing/radar.js:141-158 | two slots of a ring never overlap when the blip width is at most the slot spacing |
| Radar.PlacedSlotsHaveNoCollision | src/graphing/radar.js:156-160 | under that width bound, no slot collides with the slots placed before it |
| Radar.RingBlips | src/graphing/radar.js:176-178 | the ring filter keeps exactly the quadrant's blips of that ring |
| Radar.RingBlipsAppend | src/graphing/radar.js:176-178 | the filter distributes over concatenation, so input order is kept |
| Radar.RingCoordinates | src/graphing/radar.js:198-210 | the positions a ring's loop records, one per blip, gaps included; see PlotRingBlips |
| Radar.VisibleBlips | src/graphing/radar.js:211 | the draw calls of one ring: its non-gap blips with their slots; see VisibleBlipsIff |
| Radar.RingDrawing | src/graphing/radar.js:176-212 | the draw calls of ring `i` between `getRadius(i)` and `getRadius(i + 1)`, none for a ring without blips; see PlotBlips |
| Radar.QuadrantDrawing | src/graphing/radar.js:175-213 | the draw calls of a quadrant, ring after ring; see DrawnAreVisibleQuadrantBlips and EveryVisibleBlipIsDrawn |
| Radar.VisibleBlipsIff | src/graphing/radar.js:211 | a ring draws exactly its non-gap blips, each with the coordinates of its own slot |
| Radar.ConcatMember | src/graphing/radar.js:175-213 | a draw call of the quadrant is a draw call of one of its rings, and each ring's draw calls are the quadrant's |
| Radar.PlotRingBlips | src/graphing/radar.js:198-212 | the slot loop: the counter advances for every blip, gaps included; every coordinate is appended (`RingCoordinates`); only non-gap blips are drawn |
| Radar.PlotBlips | src/graphing/radar.js:175-213 | `plotBlips` for a quadrant: rings without blips are skipped; the others are drawn ring by ring between `getRadius(i)` and `getRadius(i+1)` |
| Radar.DrawnAreVisibleQuadrantBlips | src/graphing/radar.js:175-213 | every drawn blip is a non-gap blip of the quadrant whose ring is one of the rings |
| Radar.EveryVisibleBlipIsDrawn | src/graphing/radar.js:175-213 | every non-gap blip of a ring is drawn, at the slot given by its position among that ring's blips |
| Radar.InternalTag | src/graphing/radar.js:482-484 | the id starts with `tag-list-item-` and its suffix holds no `%` |
| Radar.InternalTagIgnoresSpaces | src/graphing/radar.js:482-484 | tags that differ only in spaces get the same id |
| Radar.InternalTagOfPlainTag | src/graphing/radar.js:482-484 | a tag without spaces whose encoding has no escapes gets `tag-list-item-` followed by its encoding |
| Strings.Trim | src/util/contentValidator.js:14 | `trim` leaves no white space at either end and never lengthens |
| Strings.TrimIsInfix | src/util/contentValidator.js:14 | `trim` removes only white space: the result is the infix between a white-space prefix and a white-space suffix |
| Strings.TrimOfPadded | src/util/contentValidator.js:14 | white space around a trimmed string is exactly what `trim` removes |
| Strings.TrimIdempotent | src/util/inputSanitizer.js:26 | trimming twice is trimming once |
| Strings.SplitCount | src/util/inputSanitizer.js:41 | `split` on one character gives one more piece than there are separators |
| Strings.Split | src/util/inputSanitizer.js:41 | no piece of `split(c)` contains `c` |
| Strings.JoinSplit | src/util/inputSanitizer.js:41 | joining the pieces of `split(c)` with `c` gives the string back |
| Strings.SplitJoin | src/util/inputSanitizer.js:41 | splitting a join of separator-free pieces gives the pieces back |
| Strings.RemoveAll | src/graphing/radar.js:483 | a global one-character `replace` leaves no occurrence of the character and keeps every other character |
| Strings.RemoveAllAppend | src/graphing/radar.js:483 | removal distributes over concatenation, so the kept characters keep their order |
| Strings.IndexOf | src/util/contentValidator.js:27 | `indexOf` is -1 exactly when the element is absent; otherwise it is the first position holding it |
| ContentValidator.New | src/util/contentValidator.js:13-15 | the stored names are the input names trimmed, with the same length and order |
| ContentValidator.VerifyContent | src/util/contentValidator.js:17-21 | it throws `MISSING_CONTENT` exactly when there are no column names, and passes otherwise |
| ContentValidator.CheckEach | src/util/contentValidator.js:26-30 | the `each` loop passes exactly when every field is among the names, and otherwise throws `MISSING_HEADERS` |
| ContentValidator.VerifyHeaders | src/util/contentValidator.js:23-31 | it passes exactly when all of Technology, Ring, Theme, Description, Status and Tags are among the trimmed names, and otherwise throws `MISSING_HEADERS` |
| ContentValidator.TrimmedNameIn | src/util/contentValidator.js:13-15 | a name is stored exactly when it is the trim of some given name |
| ContentValidator.VerifyHeadersSuperset | src/util/contentValidator.js:26-30 | any superset of a passing header row passes |
| ContentValidator.VerifyHeadersIgnoresOrder | src/util/contentValidator.js:26-30 | rows with the same set of names get the same verdict, whatever the order or repetition |
| ContentValidator.PaddedHeaderCounts | src/util/contentValidator.js:13-15 | a header padded with white space, such as `' Technology '`, counts as the bare name |
| ContentValidator.PaddedRequiredHeadersPass | src/util/contentValidator.js:13-30 | the six required names with white-space padding pass |
| ContentValidator.MissingColumnFails | src/util/contentValidator.js:26-30 | a row in which no name trims to one required column fails with `MISSING_HEADERS` |
| InputSanitizer.TrimmedFields | src/util/inputSanitizer.js:23-29 | every value of the trimmed dictionary has no surrounding white space |
| InputSanitizer.TrimKey | src/util/inputSanitizer.js:26 | `key.trim()`: a named key trimmed, an array index unchanged |
| InputSanitizer.TrimmedFieldsKeys | src/util/inputSanitizer.js:23-29 | the dictionary's keys are exactly the trimmed keys of the row |
| InputSanitizer.TrimWhiteSpaces | src/util/inputSanitizer.js:23-29 | the `forOwn` loop builds `TrimmedFields` of the row |
| InputSanitizer.LastVisitedWins | src/util/inputSanitizer.js:25-27 | keys that collide after trimming keep the trimmed value visited last |
| InputSanitizer.TrimmedRowUnchanged | src/util/inputSanitizer.js:23-29 | a row with trimmed, distinct keys and trimmed cells comes through unchanged |
| InputSanitizer.Tags | src/util/inputSanitizer.js:41 | there is one tag more than there are `\|` characters, and each tag is trimmed and free of `\|` |
| InputSanitizer.TagsOfEmptyField | src/util/inputSanitizer.js:87 | an empty tags cell gives `['']` |
| InputSanitizer.TagsRoundTrip | src/util/inputSanitizer.js:41 | trimmed, `\|`-free tags joined by `\|` are read back as written |
| InputSanitizer.TagsOfPieces | src/util/inputSanitizer.js:41 | a tags cell made of `\|`-free pieces joined by `\|` gives exactly those pieces, each trimmed, in order; with `Strings.JoinSplit` this covers every cell |
| InputSanitizer.Lookup | src/util/inputSanitizer.js:36-40 | `blip[key]`: the trimmed value when the key is present and `undefined` otherwise |
| InputSanitizer.WithDisplay | src/util/inputSanitizer.js:36-41 | the six property assignments: the keys are the trimmed ones plus the six display keys, the other properties keep their trimmed values, and each display property holds its new value |
| InputSanitizer.SanitizedRow | src/util/inputSanitizer.js:32-44 | `sanitize` throws exactly when there is no `Tags` property. Otherwise the other properties keep their trimmed values, and description, name, status, ring and topic come from Description, Technology, Status, Horizon and Theme through `sanitizeHtml` (relaxed for the first two, restricted for the rest), with tags from `Tags` |
| InputSanitizer.Sanitize | src/util/inputSanitizer.js:32-44 | the property-by-property assignments compute `SanitizedRow` |
| InputSanitizer.FieldAt | src/util/inputSanitizer.js:68-80 | a missing header gives `''`; otherwise the field is the cell at the header's first position, `undefined` past the end of the row |
| InputSanitizer.FieldAtFirstHeader | src/util/inputSanitizer.js:68-80 | with a repeated header, only the first occurrence is read |
| InputSanitizer.ProtectedSheetRow | src/util/inputSanitizer.js:65-90 | `sanitizeForProtectedSheet` throws exactly when the `Tags` header's cell is missing. Otherwise the cells keep their trimmed values and the display fields come from the header positions through `sanitizeHtml` |
| InputSanitizer.SanitizeForProtectedSheet | src/util/inputSanitizer.js:65-90 | the statement-by-statement method computes `ProtectedSheetRow` |
| InputSanitizer.ProtectedSheetWithoutTags | src/util/inputSanitizer.js:80-87 | without a `Tags` header, a row never throws and gets the single tag `''` |
| InputSanitizer.Kept | src/util/inputSanitizer.js:48-61 | the `switch`: a row is kept when its `Status` is ok, new, strike, moved or gap; `hide` and any other value drop it |
| InputSanitizer.Reduce | src/util/inputSanitizer.js:46-63 | the reducer throws exactly when `sanitize` does. Otherwise it keeps the list as a prefix, adds at most one row, and appends the sanitised row exactly when its status is ok, new, strike, moved or gap |
| InputSanitizer.ReducerReadsRawStatus | src/util/inputSanitizer.js:48 | the decision depends on the trimmed `Status` cell, not on the sanitised `status` |
| InputSanitizer.KeptIgnoresSanitizer | src/util/inputSanitizer.js:46-63 | no choice of `sanitizeHtml` changes which rows are kept |
| InputSanitizer.ReduceAll | src/util/inputSanitizer.js:46-63 | the reducer applied to each row in turn, ending at the first row that throws; see ReduceAllKeepsKnownStatuses |
| InputSanitizer.ReduceAllKeepsKnownStatuses | src/util/inputSanitizer.js:46-63 | folding the reducer keeps the starting list as a prefix, adds at most one row per input row, and every added row has a kept status |
| InputSanitizer.Reducer | src/util/inputSanitizer.js:46-63 | pushes onto the accumulator in place exactly as `Reduce` says, and leaves it untouched when `sanitize` throws |

## Left out

- SVG and DOM drawing: quadrants, ring arcs, blip shapes, legends, header, footer, buttons and the tags table. `drawBlipInCoordinates` appears only as the list of its calls (`Radar.Drawn`).
- `wrap`: it measures rendered text.
- Interaction handlers, search with timers, quadrant selection and redrawing: they are UI state.
- `constructSheetUrl`, `AutoComplete` and `QueryParams`: they depend on the browser location and on modules that are not part of this model.
- The `Chance` seed: the generator is built per ring and quadrant, but the placement never reads it. `calculateBlipCoordinates` also ignores its `blip` and `startAngle` arguments.
- `findBlipCoordinates`: it only forwards to `calculateBlipCoordinates`. It is passed the coordinates recorded so far, and `thereIsCollision` is never called on them, so collisions do not steer placement.
- `console.log` calls: they are output only. One of them is the warning for an unknown status in the reducer.
- `sanitizeHtml`, `encodeURIComponent` and `Math.sqrt` are parameters, so their internals are not modelled. The `&amp;` text filter of the restricted options is part of `sanitizeHtml`'s behaviour.
- Floating point: numbers are exact reals, so rounding and negative zero are not modelled. `JsNumber` keeps NaN and the infinities.
- `Math.round` is exact on reals. The only value it receives is `size / 8`.
- Ring identity: `blip.ring() === ring` compares objects. The model compares rings as values.
- Property keys: JavaScript stores a column name that trims to an array index such as `"1"` in the same property as that array cell. The model keeps `Named` and `Index` keys apart.
- Non-string cells: a cell that is not a string would fail at `value.trim()`. The model takes every cell as a string.
- `TOO_MANY_RINGS`, `SHEET_NOT_FOUND` and `UNAUTHORIZED`: the modelled code never raises them.
- Immutability of the validator: in the model the column list is a value, so neither check can modify it. No lemma states this.
- Radar.LabelWidthNonNegative: it covers only proper rings of two blips or more. For degenerate geometry the code can produce a negative or NaN label width, and the model leaves those values unconstrained.
