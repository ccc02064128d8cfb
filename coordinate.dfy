/** `Coordinate.java`: a grid position with Java `int` components. Every sum, product and
    negation is Java's, so it wraps around modulo 2^32. */
module Coordinates {
  import opened Wrappers
  import opened JavaInt
  import opened JavaText
  import opened Directions

  datatype Coordinate = Coordinate(x: Int32, y: Int32)

  /** `Coordinate.ORIGIN`. */
  const Origin := Coordinate(0, 0)

  /** `parse("x,y")`: the text before the first comma and the text after it, each read by
      `Integer.parseInt`; without a comma `substring(0, -1)` throws. */
  function Parse(s: string): (r: Result<Coordinate>)
    ensures IndexOf(s, ',', 0) == -1 ==> r == Err(IndexOutOfBounds)
    ensures r.Err? ==> r.error == IndexOutOfBounds || r.error == NumberFormat
  {
    var comma := IndexOf(s, ',', 0);
    var xText :- Substring(s, 0, comma);
    var x :- ParseInt(xText);
    var yText :- SubstringFrom(s, comma + 1);
    var y :- ParseInt(yText);
    Ok(Coordinate(x, y))
  }

  /** The text `toString`-style numbers make parses back to the coordinate. */
  lemma {:induction false} ParseRoundTrip(c: Coordinate)
    ensures Parse(Decimal(c.x) + "," + Decimal(c.y)) == Ok(c)
  {
    var px, py := Decimal(c.x), Decimal(c.y);
    var s := px + "," + py;
    DecimalHasNoComma(c.x);
    IndexOfAfter(px, "," + py, 0);
    assert s == px + ("," + py);
    assert s[..|px|] == px;
    assert s[|px| + 1..] == py;
    ParseDecimal(c.x, INT_MIN, INT_MAX);
    ParseDecimal(c.y, INT_MIN, INT_MAX);
  }

  /** A second comma ends up in the `y` text, which `parseInt` refuses. */
  lemma {:induction false} ParseThreeParts()
    ensures Parse("1,2,3") == Err(NumberFormat)
  {
    assert IndexOf("1,2,3", ',', 0) == 1;
    assert "1,2,3"[0..1] == "1";
    assert "1,2,3"[2..] == "2,3";
    assert "2,3"[..2] == "2," && "2,"[..1] == "2";
    assert DigitsOf("2,3") == None;
  }

  /** `resolve(x, y)`: the coordinate moved by an offset, each component added in `int`; the
      zero offset returns `this`, which is the same value as the sum. */
  function Resolve(c: Coordinate, dx: Int32, dy: Int32): (r: Coordinate)
    ensures r == Coordinate(Add32(c.x, dx), Add32(c.y, dy))
  {
    if dx == 0 && dy == 0 then c else Coordinate(Add32(c.x, dx), Add32(c.y, dy))
  }

  /** Without overflow, `resolve` adds the offset exactly. */
  lemma {:induction false} ResolveExact(c: Coordinate, dx: Int32, dy: Int32)
    requires IsInt(c.x + dx) && IsInt(c.y + dy)
    ensures Resolve(c, dx, dy) == Coordinate(c.x + dx, c.y + dy)
  {
  }

  /** `resolve(other)`. */
  function ResolveBy(c: Coordinate, other: Coordinate): Coordinate
  {
    Resolve(c, other.x, other.y)
  }

  /** Both components negated in `int` (`-MIN_VALUE` is `MIN_VALUE`). */
  function Negate(c: Coordinate): (r: Coordinate)
    ensures ResolveBy(c, r) == Origin
  {
    Coordinate(Neg32(c.x), Neg32(c.y))
  }

  /** `resolve(other)` is the wrapped componentwise sum: ORIGIN changes nothing, the order of
      the operands does not matter, moves compose associatively, and moving by the negated
      offset undoes a move, overflow or not. */
  lemma {:induction false} ResolveLaws(a: Coordinate, b: Coordinate, e: Coordinate)
    ensures ResolveBy(a, Origin) == a
    ensures ResolveBy(a, b) == ResolveBy(b, a)
    ensures ResolveBy(a, ResolveBy(b, e)) == ResolveBy(ResolveBy(a, b), e)
    ensures ResolveBy(ResolveBy(a, b), Negate(b)) == a
  {
    ResolveOrigin(a);
    ResolveCommutes(a, b);
    ResolveAssoc(a, b, e);
    ResolveUndo(a, b);
  }

  lemma {:induction false} ResolveOrigin(a: Coordinate)
    ensures ResolveBy(a, Origin) == a
  {
  }

  lemma {:induction false} ResolveCommutes(a: Coordinate, b: Coordinate)
    ensures ResolveBy(a, b) == ResolveBy(b, a)
  {
  }

  lemma {:induction false} ResolveAssoc(a: Coordinate, b: Coordinate, e: Coordinate)
    ensures ResolveBy(a, ResolveBy(b, e)) == ResolveBy(ResolveBy(a, b), e)
  {
    Add32Assoc(a.x, b.x, e.x);
    Add32Assoc(a.y, b.y, e.y);
  }

  lemma {:induction false} ResolveUndo(a: Coordinate, b: Coordinate)
    ensures ResolveBy(ResolveBy(a, b), Negate(b)) == a
  {
    Add32Undo(a.x, b.x);
    Add32Undo(a.y, b.y);
  }

  /** `Direction.asCoords()`: the direction's offset as a coordinate. */
  function AsCoords(d: Direction): (r: Coordinate)
    ensures r != Origin
  {
    TableShape(d, d);
    Coordinate(X(d), Y(d))
  }

  /** The offset of the opposite direction is the negated offset. */
  lemma {:induction false} AsCoordsOpposite(d: Direction)
    ensures AsCoords(Opposite(d)) == Negate(AsCoords(d))
  {
  }

  /** `resolve(direction)`: one step in the direction. */
  function ResolveDir(c: Coordinate, d: Direction): (r: Coordinate)
    ensures r != c
    ensures IsInt(c.x + X(d)) && IsInt(c.y + Y(d)) ==> r == Coordinate(c.x + X(d), c.y + Y(d))
  {
    Resolve(c, X(d), Y(d))
  }

  /** A step is `resolve` by the direction's offset, and a step the opposite way undoes it. */
  lemma {:induction false} StepBack(c: Coordinate, d: Direction)
    ensures ResolveDir(c, d) == ResolveBy(c, AsCoords(d))
    ensures ResolveDir(ResolveDir(c, d), Opposite(d)) == c
  {
    StepIsResolve(c, d);
    StepThenBack(c, d);
  }

  lemma {:induction false} StepIsResolve(c: Coordinate, d: Direction)
    ensures ResolveDir(c, d) == ResolveBy(c, AsCoords(d))
  {
  }

  lemma {:induction false} StepThenBack(c: Coordinate, d: Direction)
    ensures ResolveDir(ResolveDir(c, d), Opposite(d)) == c
  {
    StepIsResolve(c, d);
    StepIsResolve(ResolveDir(c, d), Opposite(d));
    AsCoordsOpposite(d);
    ResolveUndo(c, AsCoords(d));
  }

  /** Different directions lead to different neighbours. */
  lemma {:induction false} StepInjective(c: Coordinate, d: Direction, e: Direction)
    requires ResolveDir(c, d) == ResolveDir(c, e)
    ensures d == e
  {
    Add32Cancel(c.x, X(d), X(e));
    Add32Cancel(c.y, Y(d), Y(e));
    ParseOffset(d);
    ParseOffset(e);
  }

  /** The offset of `count` steps, each component multiplied in `int`. */
  function Offset(d: Direction, count: Int32): Coordinate
  {
    Coordinate(Mul32(X(d), count), Mul32(Y(d), count))
  }

  /** `resolve(direction, count)`: `count` steps at once. */
  function ResolveDirTimes(c: Coordinate, d: Direction, count: Int32): Coordinate
  {
    ResolveBy(c, Offset(d, count))
  }

  /** Without overflow, `count` steps add `count` times the direction's offset. */
  lemma {:induction false} ResolveDirTimesExact(c: Coordinate, d: Direction, count: Int32)
    requires IsInt(c.x + X(d) * count) && IsInt(c.y + Y(d) * count)
    ensures ResolveDirTimes(c, d, count) == Coordinate(c.x + X(d) * count, c.y + Y(d) * count)
  {
    ExactComponent(c.x, X(d), count);
    ExactComponent(c.y, Y(d), count);
  }

  /** One component of `ResolveDirTimesExact`. */
  lemma {:induction false} ExactComponent(p: Int32, u: Int32, n: Int32)
    requires -1 <= u <= 1 && IsInt(p + u * n)
    ensures Add32(p, Mul32(u, n)) == p + u * n
  {
    Mul32Unit(n, u);
    assert u * n == if u == 0 then 0 else if u == 1 then n else -(n as int);
  }

  /** One more step is one more `resolve(direction)`, overflow or not; zero steps stay put. */
  lemma {:induction false} ResolveDirTimesStep(c: Coordinate, d: Direction, count: Int32)
    requires count < INT_MAX
    ensures ResolveDirTimes(c, d, 0) == c
    ensures ResolveDirTimes(c, d, count + 1) == ResolveDir(ResolveDirTimes(c, d, count), d)
  {
    ZeroSteps(c, d);
    OneMoreStep(c, d, count);
  }

  lemma {:induction false} ZeroSteps(c: Coordinate, d: Direction)
    ensures ResolveDirTimes(c, d, 0) == c
  {
    Mul32Unit(0, X(d));
    Mul32Unit(0, Y(d));
    assert Offset(d, 0) == Origin;
  }

  lemma {:induction false} OneMoreStep(c: Coordinate, d: Direction, count: Int32)
    requires count < INT_MAX
    ensures ResolveDirTimes(c, d, count + 1) == ResolveDir(ResolveDirTimes(c, d, count), d)
  {
    var o := Offset(d, count);
    OffsetStep(d, count);
    ResolveAssoc(c, o, AsCoords(d));
    StepIsResolve(ResolveBy(c, o), d);
  }

  /** The offset of one more step is the offset moved by one step. */
  lemma {:induction false} OffsetStep(d: Direction, count: Int32)
    requires count < INT_MAX
    ensures Offset(d, count + 1) == ResolveBy(Offset(d, count), AsCoords(d))
  {
    OffsetComponent(X(d), count);
    OffsetComponent(Y(d), count);
  }

  /** `u * (n + 1)` is `u * n + u` in `int` arithmetic. */
  lemma {:induction false} OffsetComponent(u: Int32, n: Int32)
    requires -1 <= u <= 1 && n < INT_MAX
    ensures Mul32(u, n + 1) == Add32(Mul32(u, n), u)
  {
    Mul32Unit(n, u);
    Mul32Unit(n + 1, u);
  }

  /** `multiply(xFactor, yFactor)`: componentwise `int` products; the factors (1, 1) return
      `this`, which is the same value as the products. */
  function Multiply(c: Coordinate, xFactor: Int32, yFactor: Int32): (r: Coordinate)
    ensures r == Coordinate(Mul32(c.x, xFactor), Mul32(c.y, yFactor))
  {
    if xFactor == 1 && yFactor == 1 then c else Coordinate(Mul32(c.x, xFactor), Mul32(c.y, yFactor))
  }

  /** `multiply(mut)` and `multiply(factor)`. */
  function MultiplyBy(c: Coordinate, mut: Coordinate): Coordinate
  {
    Multiply(c, mut.x, mut.y)
  }

  function Scale(c: Coordinate, factor: Int32): Coordinate
  {
    Multiply(c, factor, factor)
  }

  /** Without overflow, `multiply` multiplies exactly. */
  lemma {:induction false} MultiplyExact(c: Coordinate, xFactor: Int32, yFactor: Int32)
    requires IsInt(c.x * xFactor) && IsInt(c.y * yFactor)
    ensures Multiply(c, xFactor, yFactor) == Coordinate(c.x * xFactor, c.y * yFactor)
  {
  }

  /** The factors (1, 1) change nothing, the factor -1 negates, and so multiplying by -1
      twice gives the coordinate back, `MIN_VALUE` included. */
  lemma {:induction false} MultiplyLaws(c: Coordinate)
    ensures Scale(c, 1) == c
    ensures Scale(c, -1) == Negate(c)
    ensures Scale(Scale(c, -1), -1) == c
  {
    MultiplyNegate(c);
    MultiplyNegate(Negate(c));
    NegateInvolution(c);
  }

  lemma {:induction false} MultiplyNegate(c: Coordinate)
    ensures Scale(c, -1) == Negate(c)
  {
    Mul32Unit(c.x, -1);
    Mul32Unit(c.y, -1);
  }

  lemma {:induction false} NegateInvolution(c: Coordinate)
    ensures Negate(Negate(c)) == c
  {
  }

  /** `swapXY()`. */
  function SwapXY(c: Coordinate): Coordinate
  {
    Coordinate(c.y, c.x)
  }

  /** Swapping twice gives the coordinate back, and swapping commutes with moves. */
  lemma {:induction false} SwapXYInvolution(a: Coordinate, b: Coordinate)
    ensures SwapXY(SwapXY(a)) == a
    ensures SwapXY(ResolveBy(a, b)) == ResolveBy(SwapXY(a), SwapXY(b))
  {
  }

  /** A quarter turn about the origin, (x, y) to (-y, x): on the y-down grid this is the
      clockwise turn `Direction.clockwise` makes. */
  function QuarterTurn(c: Coordinate): Coordinate
  {
    Coordinate(Neg32(c.y), c.x)
  }

  /** `k` quarter turns. */
  function Turns(c: Coordinate, k: nat): Coordinate
  {
    if k == 0 then c else QuarterTurn(Turns(c, k - 1))
  }

  /** `rotate90(degrees)`: the normalised angle (as `Direction.fromDegrees` computes it)
      selects a rotation built from `swapXY` and `multiply`; any other angle is an
      `IllegalStateException`. */
  function Rotate90(c: Coordinate, degrees: Int32): (r: Result<Coordinate>)
    ensures r.Err? ==> r.error == IllegalState
  {
    match Normalized(degrees)
    case 90 => Ok(Multiply(SwapXY(c), -1, 1))
    case 180 => Ok(Multiply(c, -1, -1))
    case 270 => Ok(Multiply(SwapXY(c), 1, -1))
    case 0 => Ok(c)
    case _ => Err(IllegalState)
  }

  /** The three rotation cases of `rotate90` are one, two and three quarter turns, and four
      quarter turns are the identity, overflow or not. */
  lemma {:induction false} QuarterTurns(c: Coordinate)
    ensures Multiply(SwapXY(c), -1, 1) == Turns(c, 1)
    ensures Multiply(c, -1, -1) == Turns(c, 2)
    ensures Multiply(SwapXY(c), 1, -1) == Turns(c, 3)
    ensures Turns(c, 4) == c
  {
    OneTurn(c);
    TwoTurns(c);
    ThreeTurns(c);
    FourTurns(c);
  }

  lemma {:induction false} OneTurn(c: Coordinate)
    ensures Multiply(SwapXY(c), -1, 1) == Turns(c, 1)
  {
    Mul32Unit(c.y, -1);
    Mul32Unit(c.x, 1);
    assert Turns(c, 1) == QuarterTurn(c);
  }

  lemma {:induction false} TwoTurns(c: Coordinate)
    ensures Multiply(c, -1, -1) == Turns(c, 2)
  {
    MultiplyNegate(c);
    assert Turns(c, 1) == QuarterTurn(c);
    assert Turns(c, 2) == QuarterTurn(Turns(c, 1));
  }

  lemma {:induction false} ThreeTurns(c: Coordinate)
    ensures Multiply(SwapXY(c), 1, -1) == Turns(c, 3)
  {
    Mul32Unit(c.y, 1);
    Mul32Unit(c.x, -1);
    assert Turns(c, 1) == QuarterTurn(c);
    assert Turns(c, 2) == QuarterTurn(Turns(c, 1));
    assert Turns(c, 3) == QuarterTurn(Turns(c, 2));
  }

  lemma {:induction false} FourTurns(c: Coordinate)
    ensures Turns(c, 4) == c
  {
    assert Turns(c, 1) == QuarterTurn(c);
    assert Turns(c, 2) == QuarterTurn(Turns(c, 1));
    assert Turns(c, 3) == QuarterTurn(Turns(c, 2));
    assert Turns(c, 4) == QuarterTurn(Turns(c, 3));
  }

  /** From one negative turn up, `rotate90` succeeds exactly on multiples of 90 and turns the
      coordinate once per right angle in the angle reduced modulo 360. */
  lemma {:induction false} Rotate90Turns(c: Coordinate, degrees: Int32)
    requires degrees >= -360
    ensures Rotate90(c, degrees).Ok? <==> degrees % 90 == 0
    ensures Rotate90(c, degrees).Ok? ==> Rotate90(c, degrees).value == Turns(c, degrees % 360 / 90)
  {
    NormalizedMod(degrees);
    var m := degrees % 360;
    assert m % 90 == degrees % 90;
    Rotate90Accepts(c, degrees, m);
    if m % 90 == 0 {
      Rotate90Value(c, degrees, m);
    }
  }

  lemma {:induction false} Rotate90Accepts(c: Coordinate, degrees: Int32, m: int)
    requires 0 <= m < 360 && Normalized(degrees) == m
    ensures Rotate90(c, degrees).Ok? <==> m % 90 == 0
  {
  }

  lemma {:induction false} Rotate90Value(c: Coordinate, degrees: Int32, m: int)
    requires 0 <= m < 360 && Normalized(degrees) == m && m % 90 == 0
    ensures Rotate90(c, degrees) == Ok(Turns(c, m / 90))
  {
    if m == 90 {
      OneTurn(c);
    } else if m == 180 {
      TwoTurns(c);
    } else if m == 270 {
      ThreeTurns(c);
    }
  }

  /** Rotating a direction's offset by 90 degrees gives the clockwise direction's offset. */
  lemma {:induction false} Rotate90Clockwise(d: Direction)
    ensures Rotate90(AsCoords(d), 90) == Ok(AsCoords(Clockwise(d)))
  {
    assert Normalized(90) == 90;
    OneTurn(AsCoords(d));
    assert Turns(AsCoords(d), 1) == QuarterTurn(AsCoords(d));
  }

  /** Below one negative turn the truncating `%` leaves a negative angle, so -450 fails. */
  lemma {:induction false} Rotate90BelowOneTurn(c: Coordinate)
    ensures Rotate90(c, -450).Err?
  {
    assert Normalized(-450) == -90;
  }

  /** The Manhattan distance, exactly. */
  function Manhattan(a: Coordinate, b: Coordinate): nat
  {
    (if a.x >= b.x then a.x - b.x else b.x - a.x) + (if a.y >= b.y then a.y - b.y else b.y - a.y)
  }

  /** `distance(other)`, which is `distance(other.x, other.y)`: `Math.abs` of each difference,
      all in `int`. Where the exact distance fits in an `int`, that is the result. */
  function Distance(a: Coordinate, b: Coordinate): (r: Int32)
    ensures Manhattan(a, b) <= INT_MAX ==> r == Manhattan(a, b)
  {
    Add32(AbsInt(Sub32(a.x, b.x)), AbsInt(Sub32(a.y, b.y)))
  }

  /** The distance is symmetric even when it overflows. */
  lemma {:induction false} DistanceSymmetric(a: Coordinate, b: Coordinate)
    ensures Distance(a, b) == Distance(b, a)
  {
    Sub32Swap(a.x, b.x);
    AbsNeg32(Sub32(a.x, b.x));
    Sub32Swap(a.y, b.y);
    AbsNeg32(Sub32(a.y, b.y));
  }

  /** Where it fits in an `int` the distance is a metric: non-negative, zero exactly between
      equal coordinates, and within the triangle inequality. */
  lemma {:induction false} DistanceMetric(a: Coordinate, b: Coordinate, c: Coordinate)
    requires Manhattan(a, b) <= INT_MAX && Manhattan(b, c) <= INT_MAX && Manhattan(a, c) <= INT_MAX
    ensures Distance(a, b) >= 0
    ensures Distance(a, b) == 0 <==> a == b
    ensures Distance(a, c) <= Distance(a, b) + Distance(b, c)
  {
  }

  /** Overflowing differences can make far-apart coordinates look identical. */
  lemma {:induction false} DistanceWraps()
    ensures Distance(Coordinate(0, 0), Coordinate(INT_MIN, INT_MIN)) == 0
  {
  }

  /** `distanceToOrigin()` as written: `x + y`, which is not a distance once a component is
      negative. */
  function DistanceToOriginAsWritten(c: Coordinate): (r: Int32)
    ensures IsInt(c.x + c.y) ==> r == c.x + c.y
  {
    Add32(c.x, c.y)
  }

  /** (-1, -1) is two steps from the origin, but `x + y` says -2. */
  lemma {:induction false} DistanceToOriginCounterexample()
    ensures DistanceToOriginAsWritten(Coordinate(-1, -1)) == -2
    ensures Distance(Coordinate(-1, -1), Origin) == 2
  {
  }

  /** `distanceToOrigin()` as documented: the Manhattan distance to ORIGIN, as the 3- and
      4-dimensional records compute it. It agrees with `x + y` on the non-negative quadrant. */
  function DistanceToOrigin(c: Coordinate): (r: Int32)
    ensures Manhattan(c, Origin) <= INT_MAX ==> r == Manhattan(c, Origin)
    ensures c.x >= 0 && c.y >= 0 ==> r == DistanceToOriginAsWritten(c)
  {
    Distance(c, Origin)
  }

  /** `relative(other)`: the first of the cardinal, then ordinal, directions whose step
      reaches `other`, or null. */
  method Relative(c: Coordinate, other: Coordinate) returns (r: Option<Direction>)
    ensures r.Some? ==> ResolveDir(c, r.value) == other
    ensures r.None? <==> forall d: Direction :: ResolveDir(c, d) != other
    ensures forall d: Direction :: ResolveDir(c, d) == other ==> r == Some(d)
  {
    var ds := CardinalOrdinal();
    var i := 0;
    while i < |ds|
      invariant 0 <= i <= |ds|
      invariant forall j :: 0 <= j < i ==> ResolveDir(c, ds[j]) != other
    {
      if ResolveDir(c, ds[i]) == other {
        forall d: Direction | ResolveDir(c, d) == other
          ensures d == ds[i]
        {
          StepInjective(c, d, ds[i]);
        }
        return Some(ds[i]);
      }
      i := i + 1;
    }
    forall d: Direction
      ensures ResolveDir(c, d) != other
    {
      ArraysShape(d);
      var j :| 0 <= j < |ds| && ds[j] == d;
    }
    return None;
  }

  /** `down()`, `up()`, `left()` and `right()`: one step SOUTH, NORTH, WEST and EAST. */
  function Down(c: Coordinate): Coordinate { ResolveDir(c, South) }
  function Up(c: Coordinate): Coordinate { ResolveDir(c, North) }
  function Left(c: Coordinate): Coordinate { ResolveDir(c, West) }
  function Right(c: Coordinate): Coordinate { ResolveDir(c, East) }

  /** Each of them changes one component by one in `int`, down and up undo each other, and so
      do left and right. */
  lemma {:induction false} Steps(c: Coordinate)
    ensures Down(c) == Coordinate(c.x, Add32(c.y, 1)) && Up(c) == Coordinate(c.x, Add32(c.y, -1))
    ensures Left(c) == Coordinate(Add32(c.x, -1), c.y) && Right(c) == Coordinate(Add32(c.x, 1), c.y)
    ensures Up(Down(c)) == c && Down(Up(c)) == c
    ensures Left(Right(c)) == c && Right(Left(c)) == c
  {
    StepForms(c);
    StepInverses(c);
  }

  lemma {:induction false} StepForms(c: Coordinate)
    ensures Down(c) == Coordinate(c.x, Add32(c.y, 1)) && Up(c) == Coordinate(c.x, Add32(c.y, -1))
    ensures Left(c) == Coordinate(Add32(c.x, -1), c.y) && Right(c) == Coordinate(Add32(c.x, 1), c.y)
  {
  }

  lemma {:induction false} StepInverses(c: Coordinate)
    ensures Up(Down(c)) == c && Down(Up(c)) == c
    ensures Left(Right(c)) == c && Right(Left(c)) == c
  {
    VerticalInverses(c);
    HorizontalInverses(c);
  }

  lemma {:induction false} VerticalInverses(c: Coordinate)
    ensures Up(Down(c)) == c && Down(Up(c)) == c
  {
    StepThenBack(c, South);
    StepThenBack(c, North);
  }

  lemma {:induction false} HorizontalInverses(c: Coordinate)
    ensures Left(Right(c)) == c && Right(Left(c)) == c
  {
    StepThenBack(c, West);
    StepThenBack(c, East);
  }

  /** `getAxis(axis)`: the component on that axis. */
  function GetAxis(c: Coordinate, axis: Axis): Int32
  {
    if axis == AxisX then c.x else c.y
  }

  /** A step along an axis adds the direction's offset on that axis and leaves the other
      component alone. */
  lemma {:induction false} GetAxisStep(c: Coordinate, d: Direction, a: Axis)
    requires AxisOf(d) == Some(a)
    ensures GetAxis(ResolveDir(c, d), OtherAxis(a)) == GetAxis(c, OtherAxis(a))
    ensures GetAxis(ResolveDir(c, d), a) == Add32(GetAxis(c, a), Directions.GetAxis(d, a))
  {
    TableShape(d, d);
  }
}
