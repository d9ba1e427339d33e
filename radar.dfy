/** Blip placement of the radar chart (src/graphing/radar.js).
    Each quadrant is drawn ring by ring: the quadrant's blips of one ring
    are given evenly spaced vertical slots, from near the top of the ring
    down to just above the horizontal axis, and each is pushed right far
    enough to clear the ring's inner arc. Positions are JavaScript numbers
    (JsNumber.Num): with a single blip in a ring the spacing divides by zero. */
module Radar {
  import opened JsNumber
  import RingCalculator
  import Strings

  const HalfBlipHeight: real := 7.0
  const BlipHeight: real := 2.0 * HalfBlipHeight

  /** A ring of the radar; rings are told apart by value. */
  datatype Ring = Ring(order: nat, name: string)

  /** What the layout reads of a blip: its ring, its status and its drawn width. */
  datatype Blip = Blip(number: nat, name: string, ring: Ring, status: string, width: real)

  /** The array `[x, y, xMax - x]`: where a blip goes and how wide its label may be. */
  datatype Coordinates = Coordinates(x: Num, y: Num, labelWidth: Num)

  /** One call of `drawBlipInCoordinates(blip, coordinates, ...)`. */
  datatype Drawn = Drawn(blip: Blip, coordinates: Coordinates)

  // ---------------------------------------------------------------------
  // Chart centre

  /** `Math.round(x)`: the nearest integer, a half rounded up. */
  function Round(x: real): (n: int)
    ensures n as real - 0.5 <= x < n as real + 0.5
  {
    (x + 0.5).Floor
  }

  lemma RoundUnique(x: real, n: int)
    requires n as real - 0.5 <= x < n as real + 0.5
    ensures Round(x) == n
  {
  }

  /** `centerX()` */
  function CenterX(): real
  {
    0.0
  }

  /** `centerY()`: the chart's centre line, 7 times the rounded eighth of its size. */
  function CenterY(size: real): real
  {
    7.0 * Round(size / 8.0) as real
  }

  /** For a whole-pixel size, rounding the eighth is integer division of `size + 4` by 8. */
  lemma CenterYOfWholeSize(size: nat)
    ensures CenterY(size as real) == 7.0 * ((size + 4) / 8) as real
  {
    var q := (size + 4) / 8;
    assert q * 8 <= size + 4 < q * 8 + 8;
    assert q as real - 0.5 <= size as real / 8.0 < q as real + 0.5;
    RoundUnique(size as real / 8.0, q);
  }

  // ---------------------------------------------------------------------
  // calculateBlipCoordinates

  /** `margin`: an eighth of the ring's width, a tenth for the ring at the centre. */
  function Margin(minRadius: real, maxRadius: real): (margin: real)
    ensures minRadius <= maxRadius ==> 0.0 <= margin <= (maxRadius - minRadius) / 8.0
    ensures minRadius < maxRadius ==> (margin < (maxRadius - minRadius) / 8.0 <==> minRadius == 0.0)
  {
    var gap := maxRadius - minRadius;
    if minRadius == 0.0 then 1.0 / 10.0 * gap else 1.0 / 8.0 * gap
  }

  /** `topmostY`: the higher slot may neither leave the chart's view box
      (a blip's height below the top) nor come within an eighth of the ring's
      outer edge. */
  function TopmostY(size: real, minRadius: real, maxRadius: real): (top: real)
    ensures top <= CenterY(size) - BlipHeight
    ensures top <= minRadius + 7.0 / 8.0 * (maxRadius - minRadius)
    ensures top == CenterY(size) - BlipHeight || top == minRadius + 7.0 / 8.0 * (maxRadius - minRadius)
  {
    var viewTop := CenterY(size) - BlipHeight;
    var ringTop := minRadius + 7.0 / 8.0 * (maxRadius - minRadius);
    if ringTop < viewTop then ringTop else viewTop
  }

  /** `yGap`: the distance between neighbouring slots. */
  function YGap(topmostY: real, blipTotal: int): Num
  {
    Div(Finite(topmostY - HalfBlipHeight), Finite((blipTotal - 1) as real))
  }

  /** `ySpaced`: the height of slot `blipIndex` above the centre line. */
  function YSpaced(topmostY: real, blipTotal: int, blipIndex: int): Num
  {
    Sub(Finite(topmostY), Mul(Finite(blipIndex as real), YGap(topmostY, blipTotal)))
  }

  /** `xMargin`: the horizontal offset of a blip at height `ySpaced`. Below the
      stand-off it is the half-chord of the stand-off circle, and never less
      than the margin. */
  function XMargin(sqrt: real -> real, margin: real, standOff: real, ySpaced: Num): Num
  {
    var xMargin :=
      if Less(ySpaced, Finite(standOff))
      then Sqrt(sqrt, Sub(Finite(standOff * standOff), Mul(ySpaced, ySpaced)))
      else Finite(margin);
    if Less(xMargin, Finite(margin)) then Finite(margin) else xMargin
  }

  /** `calculateBlipCoordinates(blip, chance, minRadius, maxRadius, startAngle,
      blipTotal, blipIndex)`; the blip, the generator and the start angle do
      not enter the result. */
  function CalculateBlipCoordinates(sqrt: real -> real, size: real, minRadius: real, maxRadius: real,
                                    blipTotal: int, blipIndex: int): Coordinates
  {
    var margin := Margin(minRadius, maxRadius);
    var standOff := minRadius + margin;
    var topmostY := TopmostY(size, minRadius, maxRadius);
    var ySpaced := YSpaced(topmostY, blipTotal, blipIndex);
    var xMargin := XMargin(sqrt, margin, standOff, ySpaced);
    var xMax := Sqrt(sqrt, Sub(Finite(maxRadius * maxRadius), Mul(ySpaced, ySpaced)));
    var x := Add(Finite(CenterX()), xMargin);
    var y := Sub(Finite(CenterY(size)), ySpaced);
    Coordinates(x, y, Sub(xMax, x))
  }

  // ---------------------------------------------------------------------
  // Slots

  /** With two blips or more the slots are finite: slot `i` is `topmostY`
      moved down `i` times the spacing. */
  lemma YSpacedValue(topmostY: real, blipTotal: int, blipIndex: int)
    requires blipTotal >= 2
    ensures YSpaced(topmostY, blipTotal, blipIndex)
         == Finite(topmostY - blipIndex as real * ((topmostY - HalfBlipHeight) / (blipTotal - 1) as real))
  {
  }

  /** Slot `i` of `n` is the weighted average of `topmostY` and the bottom
      height 7, with weights `n - 1 - i` and `i`. */
  lemma SlotInterpolates(topmostY: real, blipTotal: int, blipIndex: int)
    requires blipTotal >= 2
    ensures YSpaced(topmostY, blipTotal, blipIndex)
         == Finite((topmostY * (blipTotal - 1 - blipIndex) as real + HalfBlipHeight * blipIndex as real)
                   / (blipTotal - 1) as real)
  {
    YSpacedValue(topmostY, blipTotal, blipIndex);
    Interpolation(topmostY, HalfBlipHeight, (blipTotal - 1) as real, blipIndex as real);
  }

  lemma Interpolation(top: real, bottom: real, d: real, i: real)
    requires d > 0.0
    ensures top - i * ((top - bottom) / d) == (top * (d - i) + bottom * i) / d
  {
    var g := (top - bottom) / d;
    assert g * d == top - bottom;
    assert (top - i * g) * d == top * d - i * (g * d);
    assert (top - i * g) * d == top * (d - i) + bottom * i;
  }

  /** The first slot is at `topmostY`, the last at the bottom height 7. */
  lemma SlotsEndAtBounds(topmostY: real, blipTotal: int)
    requires blipTotal >= 2
    ensures YSpaced(topmostY, blipTotal, 0) == Finite(topmostY)
    ensures YSpaced(topmostY, blipTotal, blipTotal - 1) == Finite(HalfBlipHeight)
  {
    SlotInterpolates(topmostY, blipTotal, 0);
    SlotInterpolates(topmostY, blipTotal, blipTotal - 1);
    var d := (blipTotal - 1) as real;
    assert (topmostY * d + HalfBlipHeight * 0.0) / d == topmostY;
    assert (topmostY * 0.0 + HalfBlipHeight * d) / d == HalfBlipHeight;
  }

  /** Later blips of a ring sit strictly lower, when there is room between
      `topmostY` and the bottom height. */
  lemma SlotsDescend(topmostY: real, blipTotal: int, i: int, j: int)
    requires blipTotal >= 2 && topmostY > HalfBlipHeight
    requires i < j
    ensures YSpaced(topmostY, blipTotal, i).Finite? && YSpaced(topmostY, blipTotal, j).Finite?
    ensures YSpaced(topmostY, blipTotal, j).v < YSpaced(topmostY, blipTotal, i).v
  {
    YSpacedValue(topmostY, blipTotal, i);
    YSpacedValue(topmostY, blipTotal, j);
    var g := (topmostY - HalfBlipHeight) / (blipTotal - 1) as real;
    assert g > 0.0;
    MulStrict(i as real, j as real, g);
  }

  lemma MulStrict(a: real, b: real, g: real)
    requires a < b && g > 0.0
    ensures a * g < b * g
  {
  }

  /** Every slot of a ring lies between the bottom height 7 and `topmostY`. */
  lemma SlotsWithinBounds(topmostY: real, blipTotal: int, blipIndex: int)
    requires blipTotal >= 2 && topmostY >= HalfBlipHeight
    requires 0 <= blipIndex < blipTotal
    ensures YSpaced(topmostY, blipTotal, blipIndex).Finite?
    ensures HalfBlipHeight <= YSpaced(topmostY, blipTotal, blipIndex).v <= topmostY
  {
    SlotInterpolates(topmostY, blipTotal, blipIndex);
    var d, i := (blipTotal - 1) as real, blipIndex as real;
    AverageBetween(topmostY, HalfBlipHeight, d, i);
  }

  lemma AverageBetween(top: real, bottom: real, d: real, i: real)
    requires bottom <= top && 0.0 <= i <= d && d > 0.0
    ensures bottom <= (top * (d - i) + bottom * i) / d <= top
  {
    var n := top * (d - i) + bottom * i;
    assert n - bottom * d == (top - bottom) * (d - i);
    MulNonNegative(top - bottom, d - i);
    assert top * d - n == (top - bottom) * i;
    MulNonNegative(top - bottom, i);
    DivideBetween(bottom, n, top, d);
  }

  lemma DivideBetween(lo: real, n: real, hi: real, d: real)
    requires d > 0.0 && lo * d <= n <= hi * d
    ensures lo <= n / d <= hi
  {
    var q := n / d;
    assert q * d == n;
    if q < lo {
      MulStrict(q, lo, d);
      assert false;
    }
    if hi < q {
      MulStrict(hi, q, d);
      assert false;
    }
  }

  /** A ring with a single blip divides by zero: the spacing is an infinity
      (or NaN when `topmostY` is 7), `0 * yGap` is NaN, and the slot is NaN,
      not `topmostY`. */
  lemma OneBlipSlotIsNaN(topmostY: real)
    ensures !YGap(topmostY, 1).Finite?
    ensures YSpaced(topmostY, 1, 0) == NaN
  {
  }

  /** So a lone blip of a ring is placed at the margin with a NaN height and
      a NaN label width. */
  lemma OneBlipRingIsNotPlaced(sqrt: real -> real, size: real, minRadius: real, maxRadius: real)
    ensures CalculateBlipCoordinates(sqrt, size, minRadius, maxRadius, 1, 0)
         == Coordinates(Finite(Margin(minRadius, maxRadius)), NaN, NaN)
  {
    OneBlipSlotIsNaN(TopmostY(size, minRadius, maxRadius));
  }

  // ---------------------------------------------------------------------
  // Horizontal offset and label width

  /** All cases of `xMargin` at a finite height `y`: the margin at or above
      the stand-off; below it, the larger of the margin and the half-chord,
      or NaN when `y` is below minus the stand-off and the root is of a
      negative number. It is never a number below the margin. */
  lemma XMarginCases(sqrt: real -> real, margin: real, standOff: real, y: real)
    ensures y >= standOff ==> XMargin(sqrt, margin, standOff, Finite(y)) == Finite(margin)
    ensures y < standOff && standOff * standOff < y * y ==> XMargin(sqrt, margin, standOff, Finite(y)) == NaN
    ensures y < standOff && y * y <= standOff * standOff ==>
              XMargin(sqrt, margin, standOff, Finite(y))
              == Finite(if sqrt(standOff * standOff - y * y) < margin then margin
                        else sqrt(standOff * standOff - y * y))
  {
    var d := standOff * standOff - y * y;
    assert Sub(Finite(standOff * standOff), Mul(Finite(y), Finite(y))) == Finite(d);
  }

  /** `xMargin` is NaN or at least the margin, whatever the height. */
  lemma XMarginAtLeastMargin(sqrt: real -> real, margin: real, standOff: real, ySpaced: Num)
    ensures var r := XMargin(sqrt, margin, standOff, ySpaced);
            r.NaN? || (r.Finite? && r.v >= margin)
  {
  }

  /** When the half-chord is taken, the blip lies on the stand-off circle. */
  lemma XMarginOnStandOffCircle(sqrt: real -> real, margin: real, standOff: real, y: real)
    requires IsSqrt(sqrt)
    requires y < standOff && y * y <= standOff * standOff
    requires sqrt(standOff * standOff - y * y) >= margin
    ensures XMargin(sqrt, margin, standOff, Finite(y)).Finite?
    ensures var x := XMargin(sqrt, margin, standOff, Finite(y)).v;
            x * x + y * y == standOff * standOff
  {
    XMarginCases(sqrt, margin, standOff, y);
  }

  /** The room between a ring's outer arc and the vertical axis at any height
      up to an eighth of the ring below its outer edge is at least the margin. */
  lemma OuterRoom(maxRadius: real, gap: real, margin: real, y: real)
    requires 0.0 < gap <= maxRadius
    requires 0.0 <= margin <= gap / 8.0
    requires 0.0 <= y <= maxRadius - gap / 8.0
    ensures margin * margin <= maxRadius * maxRadius - y * y
  {
    var e := gap / 8.0;
    var top := maxRadius - e;
    assert y * y <= top * top by {
      if y < top {
        SquareStrict(y, top);
      }
    }
    assert maxRadius * maxRadius - top * top == e * (2.0 * maxRadius - e);
    assert 2.0 * maxRadius - e >= e;
    assert e * (2.0 * maxRadius - e) >= e * e;
    assert margin * margin <= e * e by {
      if margin < e {
        SquareStrict(margin, e);
      }
    }
  }

  /** Nothing clamps the label width, but it cannot go negative: when the
      ring is a proper band and the top slot is above the bottom height,
      every blip of a ring of two or more gets a finite, non-negative label
      width. */
  lemma LabelWidthNonNegative(sqrt: real -> real, size: real, minRadius: real, maxRadius: real,
                              blipTotal: int, blipIndex: int)
    requires IsSqrt(sqrt)
    requires 0.0 <= minRadius < maxRadius
    requires 2 <= blipTotal && 0 <= blipIndex < blipTotal
    requires TopmostY(size, minRadius, maxRadius) >= HalfBlipHeight
    ensures var c := CalculateBlipCoordinates(sqrt, size, minRadius, maxRadius, blipTotal, blipIndex);
            c.x.Finite? && c.labelWidth.Finite? && c.labelWidth.v >= 0.0
  {
    var gap := maxRadius - minRadius;
    var margin := Margin(minRadius, maxRadius);
    var standOff := minRadius + margin;
    var top := TopmostY(size, minRadius, maxRadius);
    SlotsWithinBounds(top, blipTotal, blipIndex);
    var y := YSpaced(top, blipTotal, blipIndex).v;
    var room := maxRadius * maxRadius - y * y;
    OuterRoom(maxRadius, gap, margin, y);
    SqrtAbove(sqrt, room, margin);
    XMarginCases(sqrt, margin, standOff, y);
    if y < standOff {
      var chord := standOff * standOff - y * y;
      SquareStrict(y, standOff);
      assert standOff * standOff <= maxRadius * maxRadius by {
        if standOff < maxRadius {
          SquareStrict(standOff, maxRadius);
        }
      }
      SqrtMonotone(sqrt, chord, room);
    }
    LabelWidthOfOffsets(sqrt, size, minRadius, maxRadius, blipTotal, blipIndex, y, room);
  }

  lemma LabelWidthOfOffsets(sqrt: real -> real, size: real, minRadius: real, maxRadius: real,
                            blipTotal: int, blipIndex: int, y: real, room: real)
    requires YSpaced(TopmostY(size, minRadius, maxRadius), blipTotal, blipIndex) == Finite(y)
    requires room == maxRadius * maxRadius - y * y && room >= 0.0
    requires var xm := XMargin(sqrt, Margin(minRadius, maxRadius), minRadius + Margin(minRadius, maxRadius), Finite(y));
             xm.Finite? && xm.v <= sqrt(room)
    ensures var c := CalculateBlipCoordinates(sqrt, size, minRadius, maxRadius, blipTotal, blipIndex);
            c.x.Finite? && c.labelWidth.Finite? && c.labelWidth.v >= 0.0
  {
    CoordinatesOfSlot(sqrt, size, minRadius, maxRadius, blipTotal, blipIndex, y);
    var xm := XMargin(sqrt, Margin(minRadius, maxRadius), minRadius + Margin(minRadius, maxRadius), Finite(y));
    assert Add(Finite(0.0), xm) == Finite(xm.v);
    assert Sqrt(sqrt, Finite(room)) == Finite(sqrt(room));
  }

  /** `calculateBlipCoordinates` at a slot whose height is the number `y`. */
  lemma CoordinatesOfSlot(sqrt: real -> real, size: real, minRadius: real, maxRadius: real,
                          blipTotal: int, blipIndex: int, y: real)
    requires YSpaced(TopmostY(size, minRadius, maxRadius), blipTotal, blipIndex) == Finite(y)
    ensures var c := CalculateBlipCoordinates(sqrt, size, minRadius, maxRadius, blipTotal, blipIndex);
            var margin := Margin(minRadius, maxRadius);
            c.x == Add(Finite(0.0), XMargin(sqrt, margin, minRadius + margin, Finite(y)))
            && c.y == Finite(CenterY(size) - y)
            && c.labelWidth == Sub(Sqrt(sqrt, Finite(maxRadius * maxRadius - y * y)), c.x)
  {
    var yy := y * y;
    assert Mul(Finite(y), Finite(y)) == Finite(yy);
    assert Sub(Finite(maxRadius * maxRadius), Finite(yy)) == Finite(maxRadius * maxRadius - yy);
  }

  /** A slot at the height `y` whose horizontal offset is the number `xm`
      and which lies inside the outer arc: the blip sits at `xm` to the right
      of the centre, `y` above the centre line, and its label has the room
      from `xm` to the outer arc at that height. */
  lemma SlotCoordinates(sqrt: real -> real, size: real, minRadius: real, maxRadius: real,
                        blipTotal: int, blipIndex: int, y: real, xm: real)
    requires YSpaced(TopmostY(size, minRadius, maxRadius), blipTotal, blipIndex) == Finite(y)
    requires XMargin(sqrt, Margin(minRadius, maxRadius), minRadius + Margin(minRadius, maxRadius), Finite(y)) == Finite(xm)
    requires y * y <= maxRadius * maxRadius
    ensures CalculateBlipCoordinates(sqrt, size, minRadius, maxRadius, blipTotal, blipIndex)
         == Coordinates(Finite(xm), Finite(CenterY(size) - y), Finite(sqrt(maxRadius * maxRadius - y * y) - xm))
  {
    CoordinatesOfSlot(sqrt, size, minRadius, maxRadius, blipTotal, blipIndex, y);
    assert Add(Finite(0.0), Finite(xm)) == Finite(xm);
    assert Sqrt(sqrt, Finite(maxRadius * maxRadius - y * y)) == Finite(sqrt(maxRadius * maxRadius - y * y));
  }

  // ---------------------------------------------------------------------
  // Collisions

  /** Two positions closer than `width` on both axes. */
  predicate Overlaps(width: real, current: Coordinates, coordinates: Coordinates)
  {
    Less(Abs(Sub(current.x, coordinates.x)), Finite(width))
    && Less(Abs(Sub(current.y, coordinates.y)), Finite(width))
  }

  /** `thereIsCollision(blip, coordinates, allCoordinates)`, the `some` of
      `allCoordinates` taken from the front. */
  predicate ThereIsCollision(blip: Blip, coordinates: Coordinates, allCoordinates: seq<Coordinates>)
  {
    allCoordinates != []
    && (Overlaps(blip.width, allCoordinates[0], coordinates)
        || ThereIsCollision(blip, coordinates, allCoordinates[1..]))
  }

  /** A collision is a recorded position that overlaps the new one; an empty
      record has none. */
  lemma {:induction false} ThereIsCollisionIff(blip: Blip, coordinates: Coordinates, allCoordinates: seq<Coordinates>)
    ensures ThereIsCollision(blip, coordinates, allCoordinates)
        <==> exists k :: 0 <= k < |allCoordinates| && Overlaps(blip.width, allCoordinates[k], coordinates)
  {
    if allCoordinates != [] {
      ThereIsCollisionIff(blip, coordinates, allCoordinates[1..]);
      if ThereIsCollision(blip, coordinates, allCoordinates[1..]) {
        var k :| 0 <= k < |allCoordinates| - 1 && Overlaps(blip.width, allCoordinates[1..][k], coordinates);
        assert Overlaps(blip.width, allCoordinates[k + 1], coordinates);
      }
      if exists k :: 0 <= k < |allCoordinates| && Overlaps(blip.width, allCoordinates[k], coordinates) {
        var k :| 0 <= k < |allCoordinates| && Overlaps(blip.width, allCoordinates[k], coordinates);
        if k > 0 {
          assert Overlaps(blip.width, allCoordinates[1..][k - 1], coordinates);
        }
      }
    }
  }

  /** Slots of one ring never overlap when their spacing is at least the
      blip's width: their heights differ by a whole number of spacings. */
  lemma SlotsDoNotOverlap(sqrt: real -> real, size: real, minRadius: real, maxRadius: real,
                          blipTotal: int, i: int, j: int, width: real)
    requires blipTotal >= 2 && 0 <= i < j
    requires width <= (TopmostY(size, minRadius, maxRadius) - HalfBlipHeight) / (blipTotal - 1) as real
    ensures !Overlaps(width, CalculateBlipCoordinates(sqrt, size, minRadius, maxRadius, blipTotal, i),
                             CalculateBlipCoordinates(sqrt, size, minRadius, maxRadius, blipTotal, j))
  {
    var top := TopmostY(size, minRadius, maxRadius);
    SlotHeightsApart(top, blipTotal, i, j, width);
    var yi := YSpaced(top, blipTotal, i).v;
    var yj := YSpaced(top, blipTotal, j).v;
    CoordinatesOfSlot(sqrt, size, minRadius, maxRadius, blipTotal, i, yi);
    CoordinatesOfSlot(sqrt, size, minRadius, maxRadius, blipTotal, j, yj);
    RowsApart(width, CalculateBlipCoordinates(sqrt, size, minRadius, maxRadius, blipTotal, i),
              CalculateBlipCoordinates(sqrt, size, minRadius, maxRadius, blipTotal, j), CenterY(size), yi, yj);
  }

  /** Two slots are at least one spacing apart. */
  lemma SlotHeightsApart(topmostY: real, blipTotal: int, i: int, j: int, width: real)
    requires blipTotal >= 2 && 0 <= i < j
    requires width <= (topmostY - HalfBlipHeight) / (blipTotal - 1) as real
    ensures YSpaced(topmostY, blipTotal, i).Finite? && YSpaced(topmostY, blipTotal, j).Finite?
    ensures var d := YSpaced(topmostY, blipTotal, i).v - YSpaced(topmostY, blipTotal, j).v;
            width <= if d < 0.0 then -d else d
  {
    var g := (topmostY - HalfBlipHeight) / (blipTotal - 1) as real;
    YSpacedValue(topmostY, blipTotal, i);
    YSpacedValue(topmostY, blipTotal, j);
    SpacingApart(i as real, j as real, g, width);
    assert (topmostY - i as real * g) - (topmostY - j as real * g) == (j as real - i as real) * g;
  }

  lemma RowsApart(width: real, a: Coordinates, b: Coordinates, centerY: real, ya: real, yb: real)
    requires a.y == Finite(centerY - ya) && b.y == Finite(centerY - yb)
    requires width <= (if ya - yb < 0.0 then -(ya - yb) else ya - yb)
    ensures !Overlaps(width, a, b)
  {
    assert Sub(a.y, b.y) == Finite(yb - ya);
  }

  lemma SpacingApart(i: real, j: real, g: real, width: real)
    requires i + 1.0 <= j && width <= g
    ensures width <= (if (j - i) * g < 0.0 then -((j - i) * g) else (j - i) * g)
  {
    var k := j - i - 1.0;
    assert (j - i) * g == k * g + g;
    if g >= 0.0 {
      MulNonNegative(k, g);
    } else {
      MulNonNegative(k, -g);
      assert k * (-g) == -(k * g);
    }
  }

  lemma MulNonNegative(a: real, b: real)
    requires 0.0 <= a && 0.0 <= b
    ensures 0.0 <= a * b
  {
  }

  /** Placed in order, no blip of a ring whose spacing is at least the blip's
      width collides with the ones placed before it. */
  lemma PlacedSlotsHaveNoCollision(sqrt: real -> real, size: real, minRadius: real, maxRadius: real,
                                   blipTotal: int, blip: Blip, k: int)
    requires blipTotal >= 2 && 0 <= k < blipTotal
    requires blip.width <= (TopmostY(size, minRadius, maxRadius) - HalfBlipHeight) / (blipTotal - 1) as real
    ensures !ThereIsCollision(blip, CalculateBlipCoordinates(sqrt, size, minRadius, maxRadius, blipTotal, k),
                              RingCoordinates(sqrt, size, minRadius, maxRadius, blipTotal)[..k])
  {
    var all := RingCoordinates(sqrt, size, minRadius, maxRadius, blipTotal);
    var c := CalculateBlipCoordinates(sqrt, size, minRadius, maxRadius, blipTotal, k);
    ThereIsCollisionIff(blip, c, all[..k]);
    forall i | 0 <= i < k
      ensures !Overlaps(blip.width, all[..k][i], c)
    {
      SlotsDoNotOverlap(sqrt, size, minRadius, maxRadius, blipTotal, i, k, blip.width);
    }
  }

  // ---------------------------------------------------------------------
  // plotBlips

  /** `blips.filter(blip => blip.ring() === ring)` */
  function RingBlips(blips: seq<Blip>, ring: Ring): (r: seq<Blip>)
    ensures |r| <= |blips|
    ensures forall b :: b in r <==> b in blips && b.ring == ring
  {
    if blips == [] then []
    else
      var rest := RingBlips(blips[..|blips| - 1], ring);
      var last := blips[|blips| - 1];
      assert blips == blips[..|blips| - 1] + [last];
      if last.ring == ring then rest + [last] else rest
  }

  /** Filtering keeps input order: it distributes over concatenation. */
  lemma {:induction false} RingBlipsAppend(a: seq<Blip>, b: seq<Blip>, ring: Ring)
    ensures RingBlips(a + b, ring) == RingBlips(a, ring) + RingBlips(b, ring)
  {
    if b != [] {
      var b' := b[..|b| - 1];
      assert (a + b)[..|a + b| - 1] == a + b';
      RingBlipsAppend(a, b', ring);
    } else {
      assert a + b == a;
    }
  }

  /** The coordinates computed for the `blipTotal` slots of a ring, in order. */
  function RingCoordinates(sqrt: real -> real, size: real, minRadius: real, maxRadius: real,
                           blipTotal: nat): (all: seq<Coordinates>)
    ensures |all| == blipTotal
  {
    seq(blipTotal, k requires 0 <= k < blipTotal =>
      CalculateBlipCoordinates(sqrt, size, minRadius, maxRadius, blipTotal, k))
  }

  /** The draw calls for a ring: each blip whose status is not `gap`, with the
      coordinates of its own slot. */
  function VisibleBlips(ringBlips: seq<Blip>, coordinates: seq<Coordinates>): (drawn: seq<Drawn>)
    requires |ringBlips| == |coordinates|
    ensures |drawn| <= |ringBlips|
  {
    if ringBlips == [] then []
    else
      var n := |ringBlips| - 1;
      var rest := VisibleBlips(ringBlips[..n], coordinates[..n]);
      if ringBlips[n].status != "gap" then rest + [Drawn(ringBlips[n], coordinates[n])] else rest
  }

  /** One more blip of the ring: drawn at the end when it is not a gap. */
  lemma VisibleBlipsStep(ringBlips: seq<Blip>, coordinates: seq<Coordinates>, c: Coordinates, k: nat)
    requires k < |ringBlips| && |coordinates| == k
    ensures VisibleBlips(ringBlips[..k + 1], coordinates + [c])
         == VisibleBlips(ringBlips[..k], coordinates)
            + (if ringBlips[k].status != "gap" then [Drawn(ringBlips[k], c)] else [])
  {
    assert ringBlips[..k + 1][..k] == ringBlips[..k];
    assert (coordinates + [c])[..k] == coordinates;
  }

  /** A draw call is made exactly for each non-gap blip, with its slot's coordinates. */
  lemma {:induction false} VisibleBlipsIff(ringBlips: seq<Blip>, coordinates: seq<Coordinates>, d: Drawn)
    requires |ringBlips| == |coordinates|
    ensures d in VisibleBlips(ringBlips, coordinates)
        <==> exists k :: 0 <= k < |ringBlips| && d == Drawn(ringBlips[k], coordinates[k])
                                                && ringBlips[k].status != "gap"
  {
    if ringBlips != [] {
      var n := |ringBlips| - 1;
      VisibleBlipsIff(ringBlips[..n], coordinates[..n], d);
      if exists k :: 0 <= k < |ringBlips| && d == Drawn(ringBlips[k], coordinates[k]) && ringBlips[k].status != "gap" {
        var k :| 0 <= k < |ringBlips| && d == Drawn(ringBlips[k], coordinates[k]) && ringBlips[k].status != "gap";
        if k < n {
          assert d == Drawn(ringBlips[..n][k], coordinates[..n][k]);
        }
      }
    }
  }

  /** The draw calls made for ring `i` of the quadrant. */
  function RingDrawing(sqrt: real -> real, size: real, rings: seq<Ring>, blips: seq<Blip>, i: nat): seq<Drawn>
    requires i < |rings|
  {
    var ringBlips := RingBlips(blips, rings[i]);
    if |ringBlips| == 0 then []
    else
      RingCalculator.RadiusFinite(|rings|, size, i);
      RingCalculator.RadiusFinite(|rings|, size, i + 1);
      var minRadius := RingCalculator.GetRadius(|rings|, size, i).v;
      var maxRadius := RingCalculator.GetRadius(|rings|, size, i + 1).v;
      VisibleBlips(ringBlips, RingCoordinates(sqrt, size, minRadius, maxRadius, |ringBlips|))
  }

  /** The draw calls of every ring of the quadrant, ring by ring. */
  function RingDrawings(sqrt: real -> real, size: real, rings: seq<Ring>, blips: seq<Blip>): (parts: seq<seq<Drawn>>)
    ensures |parts| == |rings|
  {
    seq(|rings|, i requires 0 <= i < |rings| => RingDrawing(sqrt, size, rings, blips, i))
  }

  /** The draw calls of several rings, one ring after the other. */
  function Concat(parts: seq<seq<Drawn>>): seq<Drawn>
  {
    if parts == [] then [] else Concat(parts[..|parts| - 1]) + parts[|parts| - 1]
  }

  /** A draw call of the concatenation is a draw call of one of the rings, and back. */
  lemma {:induction false} ConcatMember(parts: seq<seq<Drawn>>, d: Drawn)
    ensures d in Concat(parts) <==> exists i :: 0 <= i < |parts| && d in parts[i]
  {
    if parts != [] {
      var n := |parts| - 1;
      ConcatMember(parts[..n], d);
      if exists i :: 0 <= i < |parts| && d in parts[i] {
        var i :| 0 <= i < |parts| && d in parts[i];
        if i < n {
          assert d in parts[..n][i];
        }
      }
    }
  }

  /** The draw calls of the whole quadrant. */
  function QuadrantDrawing(sqrt: real -> real, size: real, rings: seq<Ring>, blips: seq<Blip>): seq<Drawn>
  {
    Concat(RingDrawings(sqrt, size, rings, blips))
  }

  /** The slot loop of one ring: the counter advances for every blip, gaps
      included, every coordinate is recorded, and only non-gap blips are drawn. */
  method PlotRingBlips(sqrt: real -> real, size: real, minRadius: real, maxRadius: real, ringBlips: seq<Blip>)
    returns (allBlipCoordinatesInRing: seq<Coordinates>, drawn: seq<Drawn>)
    ensures allBlipCoordinatesInRing == RingCoordinates(sqrt, size, minRadius, maxRadius, |ringBlips|)
    ensures drawn == VisibleBlips(ringBlips, allBlipCoordinatesInRing)
  {
    ghost var slots := RingCoordinates(sqrt, size, minRadius, maxRadius, |ringBlips|);
    allBlipCoordinatesInRing := [];
    drawn := [];
    var blipNumberInRing := 0;
    for k := 0 to |ringBlips|
      invariant blipNumberInRing == k
      invariant allBlipCoordinatesInRing == slots[..k]
      invariant drawn == VisibleBlips(ringBlips[..k], allBlipCoordinatesInRing)
    {
      var blip := ringBlips[k];
      var coordinates := CalculateBlipCoordinates(sqrt, size, minRadius, maxRadius, |ringBlips|, blipNumberInRing);
      assert coordinates == slots[k];
      assert slots[..k + 1] == slots[..k] + [coordinates];
      VisibleBlipsStep(ringBlips, allBlipCoordinatesInRing, coordinates, k);
      blipNumberInRing := blipNumberInRing + 1;
      allBlipCoordinatesInRing := allBlipCoordinatesInRing + [coordinates];
      if blip.status != "gap" {
        drawn := drawn + [Drawn(blip, coordinates)];
      }
    }
    assert ringBlips[..|ringBlips|] == ringBlips;
    assert slots[..|ringBlips|] == slots;
  }

  /** `plotBlips` for one quadrant: for each ring with blips, the ring's
      bounds from the ring calculator and its slot loop; the result is the
      sequence of draw calls. */
  method PlotBlips(sqrt: real -> real, size: real, rings: seq<Ring>, blips: seq<Blip>) returns (drawn: seq<Drawn>)
    ensures drawn == QuadrantDrawing(sqrt, size, rings, blips)
  {
    ghost var parts := RingDrawings(sqrt, size, rings, blips);
    drawn := [];
    for i := 0 to |rings|
      invariant drawn == Concat(parts[..i])
    {
      assert parts[..i + 1][..i] == parts[..i];
      var ring := rings[i];
      var ringBlips := RingBlips(blips, ring);
      if |ringBlips| != 0 {
        RingCalculator.RadiusFinite(|rings|, size, i);
        RingCalculator.RadiusFinite(|rings|, size, i + 1);
        var minRadius := RingCalculator.GetRadius(|rings|, size, i).v;
        var maxRadius := RingCalculator.GetRadius(|rings|, size, i + 1).v;
        var allBlipCoordinatesInRing, ringDrawn := PlotRingBlips(sqrt, size, minRadius, maxRadius, ringBlips);
        drawn := drawn + ringDrawn;
      }
      assert parts[i] == RingDrawing(sqrt, size, rings, blips, i);
    }
    assert parts[..|rings|] == parts;
  }

  /** Every draw call of a quadrant is for one of its blips, of one of the
      given rings, whose status is not `gap`. */
  lemma DrawnAreVisibleQuadrantBlips(sqrt: real -> real, size: real, rings: seq<Ring>, blips: seq<Blip>, d: Drawn)
    requires d in QuadrantDrawing(sqrt, size, rings, blips)
    ensures d.blip in blips && d.blip.status != "gap" && d.blip.ring in rings
  {
    var parts := RingDrawings(sqrt, size, rings, blips);
    ConcatMember(parts, d);
    var i :| 0 <= i < |parts| && d in parts[i];
    var ringBlips := RingBlips(blips, rings[i]);
    RingCalculator.RadiusFinite(|rings|, size, i);
    RingCalculator.RadiusFinite(|rings|, size, i + 1);
    var minRadius := RingCalculator.GetRadius(|rings|, size, i).v;
    var maxRadius := RingCalculator.GetRadius(|rings|, size, i + 1).v;
    VisibleBlipsIff(ringBlips, RingCoordinates(sqrt, size, minRadius, maxRadius, |ringBlips|), d);
  }

  /** Every non-gap blip of a ring that is drawn is drawn, at the slot given
      by its position among that ring's blips. */
  lemma EveryVisibleBlipIsDrawn(sqrt: real -> real, size: real, rings: seq<Ring>, blips: seq<Blip>,
                                i: nat, k: nat)
    requires i < |rings|
    requires k < |RingBlips(blips, rings[i])|
    requires RingBlips(blips, rings[i])[k].status != "gap"
    ensures |rings| >= 1
    ensures var ringBlips := RingBlips(blips, rings[i]);
            Drawn(ringBlips[k],
                  CalculateBlipCoordinates(sqrt, size,
                    RingCalculator.GetRadius(|rings|, size, i).v, RingCalculator.GetRadius(|rings|, size, i + 1).v,
                    |ringBlips|, k))
            in QuadrantDrawing(sqrt, size, rings, blips)
  {
    var ringBlips := RingBlips(blips, rings[i]);
    RingCalculator.RadiusFinite(|rings|, size, i);
    RingCalculator.RadiusFinite(|rings|, size, i + 1);
    var minRadius := RingCalculator.GetRadius(|rings|, size, i).v;
    var maxRadius := RingCalculator.GetRadius(|rings|, size, i + 1).v;
    var all := RingCoordinates(sqrt, size, minRadius, maxRadius, |ringBlips|);
    var d := Drawn(ringBlips[k], all[k]);
    VisibleBlipsIff(ringBlips, all, d);
    var parts := RingDrawings(sqrt, size, rings, blips);
    assert d in parts[i];
    ConcatMember(parts, d);
  }

  // ---------------------------------------------------------------------
  // Tags

  const TagPrefix: string := "tag-list-item-"

  /** `internalTag(tag)`: an element id for a tag, from the tag without its
      spaces, URI-encoded, with the `%` of the escapes dropped. */
  function InternalTag(encodeURIComponent: string -> string, tag: string): (id: string)
    ensures |TagPrefix| <= |id| && id[..|TagPrefix|] == TagPrefix
    ensures '%' !in id[|TagPrefix|..]
  {
    TagPrefix + Strings.RemoveAll(encodeURIComponent(Strings.RemoveAll(tag, ' ')), '%')
  }

  /** Tags that differ only in spaces share an id. */
  lemma InternalTagIgnoresSpaces(encodeURIComponent: string -> string, tag1: string, tag2: string)
    requires Strings.RemoveAll(tag1, ' ') == Strings.RemoveAll(tag2, ' ')
    ensures InternalTag(encodeURIComponent, tag1) == InternalTag(encodeURIComponent, tag2)
  {
  }

  /** A tag without spaces whose encoding has no escapes keeps its encoding as the id suffix. */
  lemma InternalTagOfPlainTag(encodeURIComponent: string -> string, tag: string)
    requires ' ' !in tag && '%' !in encodeURIComponent(tag)
    ensures InternalTag(encodeURIComponent, tag) == TagPrefix + encodeURIComponent(tag)
  {
    Strings.RemoveAllAbsent(tag, ' ');
    Strings.RemoveAllAbsent(encodeURIComponent(tag), '%');
  }
}
