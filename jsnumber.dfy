/** JavaScript numbers, as the radar's arithmetic sees them.
    A number is an exact real, NaN, or one of the two infinities; the
    operations below follow IEEE 754 on those values. Rounding to 64-bit
    doubles and the sign of zero are not modelled (every zero is +0). */
module JsNumber {

  datatype Num = Finite(v: real) | NaN | Infinity(positive: bool)

  function Neg(a: Num): Num
  {
    match a
    case Finite(x) => Finite(-x)
    case NaN => NaN
    case Infinity(p) => Infinity(!p)
  }

  /** `a + b` */
  function Add(a: Num, b: Num): (r: Num)
    ensures a.Finite? && b.Finite? ==> r == Finite(a.v + b.v)
    ensures a.NaN? || b.NaN? ==> r.NaN?
  {
    match (a, b)
    case (NaN, _) => NaN
    case (_, NaN) => NaN
    case (Finite(x), Finite(y)) => Finite(x + y)
    case (Infinity(p), Finite(_)) => Infinity(p)
    case (Finite(_), Infinity(q)) => Infinity(q)
    case (Infinity(p), Infinity(q)) => if p == q then Infinity(p) else NaN
  }

  /** `a - b`, which IEEE 754 defines as `a + (-b)` */
  function Sub(a: Num, b: Num): (r: Num)
    ensures a.Finite? && b.Finite? ==> r == Finite(a.v - b.v)
    ensures a.NaN? || b.NaN? ==> r.NaN?
  {
    Add(a, Neg(b))
  }

  /** `a * b`; an infinity times zero is NaN */
  function Mul(a: Num, b: Num): (r: Num)
    ensures a.Finite? && b.Finite? ==> r == Finite(a.v * b.v)
    ensures a.NaN? || b.NaN? ==> r.NaN?
    ensures (a.Infinity? && b == Finite(0.0)) || (a == Finite(0.0) && b.Infinity?) ==> r.NaN?
    ensures a.Infinity? && b.Infinity? ==> r == Infinity(a.positive == b.positive)
  {
    if a.NaN? || b.NaN? then NaN
    else if a.Finite? && b.Finite? then Finite(a.v * b.v)
    else if a.Finite? then (if a.v == 0.0 then NaN else Infinity(b.positive == (a.v > 0.0)))
    else if b.Finite? then (if b.v == 0.0 then NaN else Infinity(a.positive == (b.v > 0.0)))
    else Infinity(a.positive == b.positive)
  }

  /** `a / b`; a finite non-zero number over zero is an infinity, zero over zero is NaN */
  function Div(a: Num, b: Num): (r: Num)
    ensures a.Finite? && b.Finite? ==> (r.Finite? <==> b.v != 0.0)
    ensures a.Finite? && b.Finite? && b.v != 0.0 ==> r == Finite(a.v / b.v)
    ensures a.NaN? || b.NaN? ==> r.NaN?
  {
    match (a, b)
    case (NaN, _) => NaN
    case (_, NaN) => NaN
    case (Finite(x), Finite(y)) =>
      if y != 0.0 then Finite(x / y) else if x == 0.0 then NaN else Infinity(x > 0.0)
    case (Finite(_), Infinity(_)) => Finite(0.0)
    case (Infinity(p), Finite(y)) => if y == 0.0 then Infinity(p) else Infinity(p == (y > 0.0))
    case (Infinity(_), Infinity(_)) => NaN
  }

  /** `a < b`; every comparison with NaN is false */
  predicate Less(a: Num, b: Num)
    ensures Less(a, b) ==> !a.NaN? && !b.NaN? && a != b
    ensures a.Finite? && b.Finite? ==> (Less(a, b) <==> a.v < b.v)
  {
    match (a, b)
    case (NaN, _) => false
    case (_, NaN) => false
    case (Finite(x), Finite(y)) => x < y
    case (Infinity(p), Finite(_)) => !p
    case (Finite(_), Infinity(q)) => q
    case (Infinity(p), Infinity(q)) => !p && q
  }

  /** `Math.abs(a)` */
  function Abs(a: Num): (r: Num)
    ensures a.Finite? ==> r.Finite? && r.v >= 0.0 && (r.v == a.v || r.v == -a.v)
  {
    match a
    case Finite(x) => Finite(if x < 0.0 then -x else x)
    case NaN => NaN
    case Infinity(_) => Infinity(true)
  }

  /** Facts about `Math.sqrt` on non-negative reals: the non-negative root. */
  ghost predicate IsSqrt(sqrt: real -> real)
  {
    forall x :: 0.0 <= x ==> 0.0 <= sqrt(x) && sqrt(x) * sqrt(x) == x
  }

  /** `Math.sqrt(a)`, with `sqrt` giving the root of a non-negative real;
      a negative argument gives NaN. */
  function Sqrt(sqrt: real -> real, a: Num): (r: Num)
    ensures a.Finite? ==> (r.Finite? <==> a.v >= 0.0)
    ensures a.Finite? && a.v >= 0.0 ==> r == Finite(sqrt(a.v))
    ensures a.Finite? && a.v < 0.0 ==> r.NaN?
    ensures a.Infinity? ==> (r.NaN? <==> !a.positive)
  {
    match a
    case Finite(x) => if x < 0.0 then NaN else Finite(sqrt(x))
    case NaN => NaN
    case Infinity(p) => if p then Infinity(true) else NaN
  }

  /** Squaring is strictly monotone on non-negative reals. */
  lemma SquareStrict(x: real, y: real)
    requires 0.0 <= x < y
    ensures x * x < y * y
  {
    var d := y - x;
    assert y * y == x * x + d * (x + y);
    assert d * (x + y) > 0.0;
  }

  /** Among non-negative reals, a larger square has the larger root. */
  lemma SquareOrder(x: real, y: real)
    requires 0.0 <= x && 0.0 <= y
    requires x * x <= y * y
    ensures x <= y
  {
    if x > y {
      SquareStrict(y, x);
      assert false;
    }
  }

  /** The root is monotone: a consequence of IsSqrt alone. */
  lemma SqrtMonotone(sqrt: real -> real, a: real, b: real)
    requires IsSqrt(sqrt)
    requires 0.0 <= a <= b
    ensures 0.0 <= sqrt(a) <= sqrt(b)
  {
    SquareOrder(sqrt(a), sqrt(b));
  }

  /** A root is at least any non-negative number whose square fits under it. */
  lemma SqrtAbove(sqrt: real -> real, a: real, m: real)
    requires IsSqrt(sqrt)
    requires 0.0 <= m
    requires m * m <= a
    ensures m <= sqrt(a)
  {
    SquareOrder(m, sqrt(a));
  }
}
