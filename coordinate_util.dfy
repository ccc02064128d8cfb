/** `CoordinateUtil.kt`: Kotlin operators on `Coordinate` (`+`, `-`, `*`, `/`, `%`, `mod`), the
    list-to-coordinate conversion, and the walk over every point of a bounding box. Every
    component operation is Java `int` arithmetic. */
module CoordinateOps {
  import opened Wrappers
  import opened Arith
  import opened JavaInt
  import opened Directions
  import opened Coordinates

  /** `List<Int>.toCoordinate()`: `check(size == 2)`, then the two elements. */
  function ToCoordinate(l: seq<Int32>): (r: Result<Coordinate>)
    ensures r.Ok? <==> |l| == 2
    ensures r.Ok? ==> r.value.x == l[0] && r.value.y == l[1]
    ensures r.Err? ==> r.error == IllegalState
  {
    if |l| != 2 then Err(IllegalState) else Ok(Coordinate(l[0], l[1]))
  }

  /** `Pair<Int, Int>.toCoordinate()`. */
  function PairToCoordinate(p: (Int32, Int32)): Coordinate
  {
    Coordinate(p.0, p.1)
  }

  /** A coordinate's components, as a list or as a pair, convert back to it. */
  lemma {:induction false} ToCoordinateRoundTrip(c: Coordinate)
    ensures ToCoordinate([c.x, c.y]) == Ok(c)
    ensures PairToCoordinate((c.x, c.y)) == c
  {
  }

  /** `plus`: by a coordinate, by a direction's offset, or by the same number on both axes. */
  function Plus(a: Coordinate, b: Coordinate): Coordinate
  {
    ResolveBy(a, b)
  }

  function PlusDir(a: Coordinate, d: Direction): Coordinate
  {
    ResolveDir(a, d)
  }

  function PlusScalar(a: Coordinate, n: Int32): Coordinate
  {
    Resolve(a, n, n)
  }

  /** `minus`: componentwise `int` differences; the scalar form is `resolve(-num, -num)`, and
      `-num` wraps for `MIN_VALUE`. */
  function Minus(a: Coordinate, b: Coordinate): Coordinate
  {
    Coordinate(Sub32(a.x, b.x), Sub32(a.y, b.y))
  }

  function MinusDir(a: Coordinate, d: Direction): Coordinate
  {
    Coordinate(Sub32(a.x, X(d)), Sub32(a.y, Y(d)))
  }

  function MinusScalar(a: Coordinate, n: Int32): Coordinate
  {
    Resolve(a, Neg32(n), Neg32(n))
  }

  /** Subtracting undoes adding and adding undoes subtracting, for every operand kind and
      whatever overflows: (a + b) - b == a and (a - b) + b == a. */
  lemma {:induction false} MinusUndoesPlus(a: Coordinate, b: Coordinate)
    ensures Minus(Plus(a, b), b) == a
    ensures Plus(Minus(a, b), b) == a
  {
    Sub32AsAdd(a.x, b.x);
    Sub32AsAdd(a.y, b.y);
  }

  lemma {:induction false} MinusDirUndoesPlusDir(a: Coordinate, d: Direction)
    ensures MinusDir(PlusDir(a, d), d) == a
    ensures PlusDir(MinusDir(a, d), d) == a
  {
    Sub32AsAdd(a.x, X(d));
    Sub32AsAdd(a.y, Y(d));
  }

  lemma {:induction false} MinusScalarUndoesPlusScalar(a: Coordinate, n: Int32)
    ensures MinusScalar(PlusScalar(a, n), n) == a
    ensures PlusScalar(MinusScalar(a, n), n) == a
  {
    Add32Undo(a.x, n);
    Add32Undo(a.y, n);
    Neg32Involution(n);
    Add32Undo(a.x, Neg32(n));
    Add32Undo(a.y, Neg32(n));
  }

  /** `minus(dir)` is a step the opposite way. */
  lemma {:induction false} MinusDirIsPlusOpposite(a: Coordinate, d: Direction)
    ensures MinusDir(a, d) == PlusDir(a, Opposite(d))
  {
    Sub32AsAdd(a.x, X(d));
    Sub32AsAdd(a.y, Y(d));
  }

  /** `times`: `multiply(other)` and `multiply(num)`. */
  function Times(a: Coordinate, b: Coordinate): Coordinate
  {
    MultiplyBy(a, b)
  }

  function TimesScalar(a: Coordinate, n: Int32): Coordinate
  {
    Scale(a, n)
  }

  /** `div`: Java `int` division on each axis, which throws `ArithmeticException` on a zero
      divisor (checked for x first, then y). */
  function DivBy(a: Coordinate, b: Coordinate): (r: Result<Coordinate>)
    ensures r.Err? <==> b.x == 0 || b.y == 0
    ensures r.Err? ==> r.error == Arithmetic
  {
    if b.x == 0 || b.y == 0 then Err(Arithmetic) else Ok(Coordinate(Div32(a.x, b.x), Div32(a.y, b.y)))
  }

  function DivScalar(a: Coordinate, n: Int32): (r: Result<Coordinate>)
    ensures r.Err? <==> n == 0
    ensures r.Err? ==> r.error == Arithmetic
  {
    if n == 0 then Err(Arithmetic) else Ok(Coordinate(Div32(a.x, n), Div32(a.y, n)))
  }

  /** `rem`: Java's `%` on each axis, the remainder of the truncated quotient. */
  function RemBy(a: Coordinate, b: Coordinate): (r: Result<Coordinate>)
    ensures r.Err? <==> b.x == 0 || b.y == 0
    ensures r.Err? ==> r.error == Arithmetic
  {
    if b.x == 0 || b.y == 0 then Err(Arithmetic)
    else
      RemFits(a.x, b.x, INT_MIN);
      RemFits(a.y, b.y, INT_MIN);
      Ok(Coordinate(Rem(a.x, b.x), Rem(a.y, b.y)))
  }

  /** `mod`: Kotlin's `Int.mod` on each axis, the remainder of the floored quotient. */
  function Mod(a: Coordinate, b: Coordinate): (r: Result<Coordinate>)
    ensures r.Err? <==> b.x == 0 || b.y == 0
    ensures r.Err? ==> r.error == Arithmetic
  {
    if b.x == 0 || b.y == 0 then Err(Arithmetic) else Ok(Coordinate(FloorMod(a.x, b.x), FloorMod(a.y, b.y)))
  }

  /** `div` and `rem` are the truncated quotient and its remainder: on each axis the remainder
      is smaller than the divisor and has the dividend's sign, and, unless `MIN_VALUE` is
      divided by -1, divisor * quotient + remainder is the dividend exactly. */
  lemma {:induction false} DivRem(a: Coordinate, b: Coordinate)
    requires b.x != 0 && b.y != 0
    ensures DivBy(a, b).Ok? && RemBy(a, b).Ok?
    ensures Abs(RemBy(a, b).value.x) < Abs(b.x) && Abs(RemBy(a, b).value.y) < Abs(b.y)
    ensures RemBy(a, b).value.x == 0 || (RemBy(a, b).value.x > 0 <==> a.x > 0)
    ensures RemBy(a, b).value.y == 0 || (RemBy(a, b).value.y > 0 <==> a.y > 0)
    ensures !(a.x == INT_MIN && b.x == -1) ==> a.x == b.x * DivBy(a, b).value.x + RemBy(a, b).value.x
    ensures !(a.y == INT_MIN && b.y == -1) ==> a.y == b.y * DivBy(a, b).value.y + RemBy(a, b).value.y
  {
    if !(a.x == INT_MIN && b.x == -1) {
      DivFits(a.x, b.x, INT_MIN);
    }
    if !(a.y == INT_MIN && b.y == -1) {
      DivFits(a.y, b.y, INT_MIN);
    }
  }

  /** The quotient rounds toward zero: it is the exact quotient with the fraction dropped. */
  lemma {:induction false} DivTruncates(a: Coordinate, b: Coordinate)
    requires b.x != 0 && b.y != 0 && !(a.x == INT_MIN && b.x == -1)
    ensures Abs(b.x) * Abs(DivBy(a, b).value.x) <= Abs(a.x) < Abs(b.x) * Abs(DivBy(a, b).value.x) + Abs(b.x)
  {
    DivFits(a.x, b.x, INT_MIN);
  }

  /** With positive divisors `mod` lands in `[0, divisor)` on each axis and differs from the
      dividend by a multiple of the divisor. */
  lemma {:induction false} ModRange(a: Coordinate, b: Coordinate)
    requires b.x > 0 && b.y > 0
    ensures Mod(a, b).Ok?
    ensures 0 <= Mod(a, b).value.x < b.x && 0 <= Mod(a, b).value.y < b.y
    ensures Divides(b.x, a.x - Mod(a, b).value.x) && Divides(b.y, a.y - Mod(a, b).value.y)
  {
  }

  /** The points of the box `[x0, x1] x [y0, y1]` in the order `betweenCoordsInclusive` hands
      them to its consumer: rows from `y0` down to `y1`, each row from `x0` to `x1`. */
  function Box(x0: int, x1: int, y0: int, y1: int): seq<(int, int)>
    decreases y1 - y0
  {
    if y1 < y0 then [] else Box(x0, x1, y0, y1 - 1) + Row(x0, x1, y1)
  }

  function Row(x0: int, x1: int, y: int): (r: seq<(int, int)>)
    decreases x1 - x0
  {
    if x1 < x0 then [] else Row(x0, x1 - 1, y) + [(x1, y)]
  }

  /** A row holds `x1 - x0 + 1` points, left to right. */
  lemma {:induction false} RowShape(x0: int, x1: int, y: int)
    requires x0 <= x1 + 1
    ensures |Row(x0, x1, y)| == x1 - x0 + 1
    ensures forall i :: 0 <= i < |Row(x0, x1, y)| ==> Row(x0, x1, y)[i] == (x0 + i, y)
    decreases x1 - x0
  {
    if x0 <= x1 {
      RowShape(x0, x1 - 1, y);
    }
  }

  /** The box in row-major order: its `i`-th point is column `i % w` of row `i / w`, for the
      width `w`, so it has `w * h` points and visits each one exactly once. */
  lemma {:induction false} BoxShape(x0: int, x1: int, y0: int, y1: int)
    requires x0 <= x1 && y0 <= y1 + 1
    ensures |Box(x0, x1, y0, y1)| == (x1 - x0 + 1) * (y1 - y0 + 1)
    ensures forall i :: 0 <= i < |Box(x0, x1, y0, y1)| ==>
              Box(x0, x1, y0, y1)[i] == (x0 + i % (x1 - x0 + 1), y0 + i / (x1 - x0 + 1))
    decreases y1 - y0
  {
    var w := x1 - x0 + 1;
    if y0 <= y1 {
      var h := y1 - y0;
      BoxShape(x0, x1, y0, y1 - 1);
      RowShape(x0, x1, y1);
      var front, row := Box(x0, x1, y0, y1 - 1), Row(x0, x1, y1);
      assert |front| == w * h;
      MulStep(w, h);
      forall i | 0 <= i < |front| + |row|
        ensures (front + row)[i] == (x0 + i % w, y0 + i / w)
      {
        if i >= |front| {
          ModUnique(i, w, h, i - w * h);
        }
      }
    }
  }

  lemma {:induction false} MulStep(w: int, h: int)
    ensures w * h + w == w * (h + 1)
  {
  }

  /** A point is in the box exactly when it lies within both ranges. */
  lemma {:induction false} BoxMembers(x0: int, x1: int, y0: int, y1: int, p: (int, int))
    ensures p in Box(x0, x1, y0, y1) <==> x0 <= p.0 <= x1 && y0 <= p.1 <= y1
    decreases y1 - y0
  {
    if y0 <= y1 {
      BoxMembers(x0, x1, y0, y1 - 1, p);
      RowMembers(x0, x1, y1, p);
    }
  }

  lemma {:induction false} RowMembers(x0: int, x1: int, y: int, p: (int, int))
    ensures p in Row(x0, x1, y) <==> x0 <= p.0 <= x1 && p.1 == y
    decreases x1 - x0
  {
    if x0 <= x1 {
      RowMembers(x0, x1 - 1, y, p);
    }
  }

  /** `betweenCoordsInclusive(other, consumer)`: the consumer's calls, in order. The corners
      may be given in any order: the loops run from the smaller to the larger component. */
  method BetweenCoordsInclusive(a: Coordinate, b: Coordinate) returns (calls: seq<(int, int)>)
    ensures calls == Box(MinOf(a.x, b.x), MaxOf(a.x, b.x), MinOf(a.y, b.y), MaxOf(a.y, b.y))
  {
    var minY, maxY := MinOf(a.y, b.y), MaxOf(a.y, b.y);
    var minX, maxX := MinOf(a.x, b.x), MaxOf(a.x, b.x);
    calls := [];
    var y := minY;
    while y <= maxY
      invariant minY <= y <= maxY + 1
      invariant calls == Box(minX, maxX, minY, y - 1)
      decreases maxY - y
    {
      var x := minX;
      while x <= maxX
        invariant minX <= x <= maxX + 1
        invariant calls == Box(minX, maxX, minY, y - 1) + Row(minX, x - 1, y)
        decreases maxX - x
      {
        calls := calls + [(x, y)];
        x := x + 1;
      }
      y := y + 1;
    }
  }

  /** The walk makes (|dx| + 1) * (|dy| + 1) calls, visits a point iff it lies in the
      bounding box, and makes the same calls whichever corner comes first. */
  lemma {:induction false} BetweenCoordsVisits(a: Coordinate, b: Coordinate, p: (int, int))
    ensures |Box(MinOf(a.x, b.x), MaxOf(a.x, b.x), MinOf(a.y, b.y), MaxOf(a.y, b.y))| == (Abs(a.x - b.x) + 1) * (Abs(a.y - b.y) + 1)
    ensures p in Box(MinOf(a.x, b.x), MaxOf(a.x, b.x), MinOf(a.y, b.y), MaxOf(a.y, b.y)) <==>
              MinOf(a.x, b.x) <= p.0 <= MaxOf(a.x, b.x) && MinOf(a.y, b.y) <= p.1 <= MaxOf(a.y, b.y)
    ensures Box(MinOf(a.x, b.x), MaxOf(a.x, b.x), MinOf(a.y, b.y), MaxOf(a.y, b.y)) == Box(MinOf(b.x, a.x), MaxOf(b.x, a.x), MinOf(b.y, a.y), MaxOf(b.y, a.y))
  {
    BoxShape(MinOf(a.x, b.x), MaxOf(a.x, b.x), MinOf(a.y, b.y), MaxOf(a.y, b.y));
    BoxMembers(MinOf(a.x, b.x), MaxOf(a.x, b.x), MinOf(a.y, b.y), MaxOf(a.y, b.y), p);
  }
}
