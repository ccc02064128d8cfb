/** `LongCoordinateUtil.kt`: the same operators for `LongCoordinate`, in Java `long`
    arithmetic; the overloads taking an `Int` widen it to `long` first. */
module LongCoordinateOps {
  import opened Wrappers
  import opened Arith
  import opened JavaInt
  import opened Directions
  import opened LongCoordinates
  import CoordinateOps

  /** `List<Long>.toCoordinate()`: `check(size == 2)`, then the two elements. */
  function ToCoordinate(l: seq<Int64>): (r: Result<LongCoordinate>)
    ensures r.Ok? <==> |l| == 2
    ensures r.Ok? ==> r.value.x == l[0] && r.value.y == l[1]
    ensures r.Err? ==> r.error == IllegalState
  {
    if |l| != 2 then Err(IllegalState) else Ok(LongCoordinate(l[0], l[1]))
  }

  /** `Pair<Long, Long>.toCoordinate()`. */
  function PairToCoordinate(p: (Int64, Int64)): LongCoordinate
  {
    LongCoordinate(p.0, p.1)
  }

  /** A coordinate's components, as a list or as a pair, convert back to it. */
  lemma {:induction false} ToCoordinateRoundTrip(c: LongCoordinate)
    ensures ToCoordinate([c.x, c.y]) == Ok(c)
    ensures PairToCoordinate((c.x, c.y)) == c
  {
  }

  /** `plus`: by a coordinate, by a direction's offset, or by the same number on both axes
      (an `Int` number is widened to `long`, so it is the `long` overload). */
  function Plus(a: LongCoordinate, b: LongCoordinate): LongCoordinate
  {
    ResolveBy(a, b)
  }

  function PlusDir(a: LongCoordinate, d: Direction): LongCoordinate
  {
    ResolveDir(a, d)
  }

  function PlusScalar(a: LongCoordinate, n: Int64): LongCoordinate
  {
    Resolve(a, n, n)
  }

  /** `minus`: componentwise `long` differences; the scalar form is `resolve(-num, -num)`,
      and `-num` wraps for `Long.MIN_VALUE`. */
  function Minus(a: LongCoordinate, b: LongCoordinate): LongCoordinate
  {
    LongCoordinate(Sub64(a.x, b.x), Sub64(a.y, b.y))
  }

  function MinusDir(a: LongCoordinate, d: Direction): LongCoordinate
  {
    LongCoordinate(Sub64(a.x, X(d)), Sub64(a.y, Y(d)))
  }

  function MinusScalar(a: LongCoordinate, n: Int64): LongCoordinate
  {
    Resolve(a, Neg64(n), Neg64(n))
  }

  /** Subtracting undoes adding and adding undoes subtracting, whatever overflows. */
  lemma {:induction false} MinusUndoesPlus(a: LongCoordinate, b: LongCoordinate)
    ensures Minus(Plus(a, b), b) == a
    ensures Plus(Minus(a, b), b) == a
  {
    Sub64AsAdd(a.x, b.x);
    Sub64AsAdd(a.y, b.y);
  }

  lemma {:induction false} MinusDirUndoesPlusDir(a: LongCoordinate, d: Direction)
    ensures MinusDir(PlusDir(a, d), d) == a
    ensures PlusDir(MinusDir(a, d), d) == a
  {
    Sub64AsAdd(a.x, X(d));
    Sub64AsAdd(a.y, Y(d));
  }

  lemma {:induction false} MinusScalarUndoesPlusScalar(a: LongCoordinate, n: Int64)
    ensures MinusScalar(PlusScalar(a, n), n) == a
    ensures PlusScalar(MinusScalar(a, n), n) == a
  {
    Add64Undo(a.x, n);
    Add64Undo(a.y, n);
    Neg64Involution(n);
    Add64Undo(a.x, Neg64(n));
    Add64Undo(a.y, Neg64(n));
  }

  /** `times`: `multiply(other)` and `multiply(num)`. */
  function Times(a: LongCoordinate, b: LongCoordinate): LongCoordinate
  {
    MultiplyBy(a, b)
  }

  function TimesScalar(a: LongCoordinate, n: Int64): LongCoordinate
  {
    Scale(a, n)
  }

  /** `div`: Java `long` division on each axis; `ArithmeticException` on a zero divisor. */
  function DivBy(a: LongCoordinate, b: LongCoordinate): (r: Result<LongCoordinate>)
    ensures r.Err? <==> b.x == 0 || b.y == 0
    ensures r.Err? ==> r.error == Arithmetic
  {
    if b.x == 0 || b.y == 0 then Err(Arithmetic) else Ok(LongCoordinate(Div64(a.x, b.x), Div64(a.y, b.y)))
  }

  /** `div(num: Int)`: the `int` divisor is widened, then each axis is a `long` division. */
  function DivScalar(a: LongCoordinate, n: Int32): (r: Result<LongCoordinate>)
    ensures r.Err? <==> n == 0
    ensures r.Err? ==> r.error == Arithmetic
  {
    if n == 0 then Err(Arithmetic) else Ok(LongCoordinate(Div64(a.x, n), Div64(a.y, n)))
  }

  /** `rem`: Java's `%` on each axis. */
  function RemBy(a: LongCoordinate, b: LongCoordinate): (r: Result<LongCoordinate>)
    ensures r.Err? <==> b.x == 0 || b.y == 0
    ensures r.Err? ==> r.error == Arithmetic
  {
    if b.x == 0 || b.y == 0 then Err(Arithmetic)
    else
      RemFits(a.x, b.x, LONG_MIN);
      RemFits(a.y, b.y, LONG_MIN);
      Ok(LongCoordinate(Rem(a.x, b.x), Rem(a.y, b.y)))
  }

  /** `mod`: Kotlin's `Long.mod` on each axis, the remainder of the floored quotient. */
  function Mod(a: LongCoordinate, b: LongCoordinate): (r: Result<LongCoordinate>)
    ensures r.Err? <==> b.x == 0 || b.y == 0
    ensures r.Err? ==> r.error == Arithmetic
  {
    if b.x == 0 || b.y == 0 then Err(Arithmetic) else Ok(LongCoordinate(FloorMod(a.x, b.x), FloorMod(a.y, b.y)))
  }

  /** `div` and `rem` are the truncated quotient and its remainder on each axis. */
  lemma {:induction false} DivRem(a: LongCoordinate, b: LongCoordinate)
    requires b.x != 0 && b.y != 0
    ensures DivBy(a, b).Ok? && RemBy(a, b).Ok?
    ensures Abs(RemBy(a, b).value.x) < Abs(b.x) && Abs(RemBy(a, b).value.y) < Abs(b.y)
    ensures RemBy(a, b).value.x == 0 || (RemBy(a, b).value.x > 0 <==> a.x > 0)
    ensures RemBy(a, b).value.y == 0 || (RemBy(a, b).value.y > 0 <==> a.y > 0)
    ensures !(a.x == LONG_MIN && b.x == -1) ==> a.x == b.x * DivBy(a, b).value.x + RemBy(a, b).value.x
    ensures !(a.y == LONG_MIN && b.y == -1) ==> a.y == b.y * DivBy(a, b).value.y + RemBy(a, b).value.y
  {
    if !(a.x == LONG_MIN && b.x == -1) {
      DivFits(a.x, b.x, LONG_MIN);
    }
    if !(a.y == LONG_MIN && b.y == -1) {
      DivFits(a.y, b.y, LONG_MIN);
    }
  }

  /** `mod` is floor-mod: with a positive divisor it lands in `[0, divisor)`, with a negative
      one in `(divisor, 0]`, and it differs from the dividend by a multiple of the divisor. */
  lemma {:induction false} ModIsFloorMod(a: LongCoordinate, b: LongCoordinate)
    requires b.x != 0 && b.y != 0
    ensures Mod(a, b).Ok?
    ensures b.x > 0 ==> 0 <= Mod(a, b).value.x < b.x
    ensures b.x < 0 ==> b.x < Mod(a, b).value.x <= 0
    ensures b.y > 0 ==> 0 <= Mod(a, b).value.y < b.y
    ensures b.y < 0 ==> b.y < Mod(a, b).value.y <= 0
    ensures Divides(b.x, a.x - Mod(a, b).value.x) && Divides(b.y, a.y - Mod(a, b).value.y)
  {
  }

  /** `betweenCoordsInclusive(other, consumer)`: the consumer's calls, in order, over the
      bounding box of the two corners, rows outer and columns inner. */
  method BetweenCoordsInclusive(a: LongCoordinate, b: LongCoordinate) returns (calls: seq<(int, int)>)
    ensures calls == CoordinateOps.Box(MinOf(a.x, b.x), MaxOf(a.x, b.x), MinOf(a.y, b.y), MaxOf(a.y, b.y))
  {
    var minY, maxY := MinOf(a.y, b.y), MaxOf(a.y, b.y);
    var minX, maxX := MinOf(a.x, b.x), MaxOf(a.x, b.x);
    calls := [];
    var y := minY;
    while y <= maxY
      invariant minY <= y <= maxY + 1
      invariant calls == CoordinateOps.Box(minX, maxX, minY, y - 1)
      decreases maxY - y
    {
      var x := minX;
      while x <= maxX
        invariant minX <= x <= maxX + 1
        invariant calls == CoordinateOps.Box(minX, maxX, minY, y - 1) + CoordinateOps.Row(minX, x - 1, y)
        decreases maxX - x
      {
        calls := calls + [(x, y)];
        x := x + 1;
      }
      y := y + 1;
    }
  }

  /** Every point of the bounding box is visited exactly once, in row-major order: the
      `i`-th call is column `i % w` of row `i / w`, and a point is visited iff it is in the box. */
  lemma {:induction false} BetweenCoordsVisits(a: LongCoordinate, b: LongCoordinate, p: (int, int))
    ensures |CoordinateOps.Box(MinOf(a.x, b.x), MaxOf(a.x, b.x), MinOf(a.y, b.y), MaxOf(a.y, b.y))| == (Abs(a.x - b.x) + 1) * (Abs(a.y - b.y) + 1)
    ensures p in CoordinateOps.Box(MinOf(a.x, b.x), MaxOf(a.x, b.x), MinOf(a.y, b.y), MaxOf(a.y, b.y)) <==>
              MinOf(a.x, b.x) <= p.0 <= MaxOf(a.x, b.x) && MinOf(a.y, b.y) <= p.1 <= MaxOf(a.y, b.y)
  {
    CoordinateOps.BoxShape(MinOf(a.x, b.x), MaxOf(a.x, b.x), MinOf(a.y, b.y), MaxOf(a.y, b.y));
    CoordinateOps.BoxMembers(MinOf(a.x, b.x), MaxOf(a.x, b.x), MinOf(a.y, b.y), MaxOf(a.y, b.y), p);
  }
}
