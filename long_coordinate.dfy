/** `LongCoordinate.java`: the 2-dimensional coordinate with Java `long` components. Sums,
    products and negations wrap around modulo 2^64; the offsets `resolve(direction, count)`
    computes are `int` products, which wrap modulo 2^32 before they are widened. */
module LongCoordinates {
  import opened Wrappers
  import opened JavaInt
  import opened JavaText
  import opened Directions
  import Coordinates

  datatype LongCoordinate = LongCoordinate(x: Int64, y: Int64)

  /** `LongCoordinate.ORIGIN`. */
  const Origin := LongCoordinate(0, 0)

  /** `of(Coordinate)`: the same components, widened to `long`. */
  function Of(c: Coordinates.Coordinate): (r: LongCoordinate)
    ensures r.x == c.x && r.y == c.y
  {
    LongCoordinate(c.x, c.y)
  }

  /** Widening loses nothing, and it commutes with `resolve` as long as the `int` sum does
      not wrap. */
  lemma {:induction false} OfLaws(a: Coordinates.Coordinate, b: Coordinates.Coordinate)
    ensures Of(a) == Of(b) ==> a == b
    ensures IsInt(a.x + b.x) && IsInt(a.y + b.y) ==>
              Of(Coordinates.ResolveBy(a, b)) == ResolveBy(Of(a), Of(b))
  {
  }

  /** `parse("x,y")`: the text before the first comma and the text after it, each read by
      `Long.parseLong`; without a comma `substring(0, -1)` throws. */
  function Parse(s: string): (r: Result<LongCoordinate>)
    ensures IndexOf(s, ',', 0) == -1 ==> r == Err(IndexOutOfBounds)
    ensures r.Err? ==> r.error == IndexOutOfBounds || r.error == NumberFormat
  {
    var comma := IndexOf(s, ',', 0);
    var xText :- Substring(s, 0, comma);
    var x :- ParseLong(xText);
    var yText :- SubstringFrom(s, comma + 1);
    var y :- ParseLong(yText);
    Ok(LongCoordinate(x, y))
  }

  /** The decimal text of a coordinate parses back to it. */
  lemma {:induction false} ParseRoundTrip(c: LongCoordinate)
    ensures Parse(Decimal(c.x) + "," + Decimal(c.y)) == Ok(c)
  {
    var px, py := Decimal(c.x), Decimal(c.y);
    var s := px + "," + py;
    DecimalHasNoComma(c.x);
    IndexOfAfter(px, "," + py, 0);
    assert s == px + ("," + py);
    assert s[..|px|] == px;
    assert s[|px| + 1..] == py;
    ParseDecimal(c.x, LONG_MIN, LONG_MAX);
    ParseDecimal(c.y, LONG_MIN, LONG_MAX);
  }

  /** Every text `Coordinate.parse` reads, this `parse` reads to the widened coordinate. */
  lemma {:induction false} ParseWidens(s: string)
    requires Coordinates.Parse(s).Ok?
    ensures Parse(s) == Ok(Of(Coordinates.Parse(s).value))
  {
    var comma := IndexOf(s, ',', 0);
    ParseNumberWiden(s[0..comma], INT_MIN, INT_MAX, LONG_MIN, LONG_MAX);
    ParseNumberWiden(s[comma + 1..], INT_MIN, INT_MAX, LONG_MIN, LONG_MAX);
  }

  /** `resolve(x, y)`: componentwise `long` sums; the zero offset returns `this`, which is
      the same value as the sum. */
  function Resolve(c: LongCoordinate, dx: Int64, dy: Int64): (r: LongCoordinate)
    ensures r == LongCoordinate(Add64(c.x, dx), Add64(c.y, dy))
  {
    if dx == 0 && dy == 0 then c else LongCoordinate(Add64(c.x, dx), Add64(c.y, dy))
  }

  /** Without overflow, `resolve` adds the offset exactly. */
  lemma {:induction false} ResolveExact(c: LongCoordinate, dx: Int64, dy: Int64)
    requires IsLong(c.x + dx) && IsLong(c.y + dy)
    ensures Resolve(c, dx, dy) == LongCoordinate(c.x + dx, c.y + dy)
  {
  }

  /** `resolve(other)`. */
  function ResolveBy(c: LongCoordinate, other: LongCoordinate): LongCoordinate
  {
    Resolve(c, other.x, other.y)
  }

  /** Both components negated in `long`. */
  function Negate(c: LongCoordinate): LongCoordinate
  {
    LongCoordinate(Neg64(c.x), Neg64(c.y))
  }

  /** `resolve(other)` is the wrapped componentwise sum: ORIGIN changes nothing, the operands
      commute, moves compose associatively, and the negated offset undoes a move. */
  lemma {:induction false} ResolveLaws(a: LongCoordinate, b: LongCoordinate, e: LongCoordinate)
    ensures ResolveBy(a, Origin) == a
    ensures ResolveBy(a, b) == ResolveBy(b, a)
    ensures ResolveBy(a, ResolveBy(b, e)) == ResolveBy(ResolveBy(a, b), e)
    ensures ResolveBy(ResolveBy(a, b), Negate(b)) == a
  {
    ResolveOrigin(a);
    ResolveCommutes(a, b);
    ResolveAssoc(a, b, e);
    ResolveUndo(a, b);
  }

  lemma {:induction false} ResolveOrigin(a: LongCoordinate)
    ensures ResolveBy(a, Origin) == a
  {
  }

  lemma {:induction false} ResolveCommutes(a: LongCoordinate, b: LongCoordinate)
    ensures ResolveBy(a, b) == ResolveBy(b, a)
  {
  }

  lemma {:induction false} ResolveAssoc(a: LongCoordinate, b: LongCoordinate, e: LongCoordinate)
    ensures ResolveBy(a, ResolveBy(b, e)) == ResolveBy(ResolveBy(a, b), e)
  {
    Add64Assoc(a.x, b.x, e.x);
    Add64Assoc(a.y, b.y, e.y);
  }

  lemma {:induction false} ResolveUndo(a: LongCoordinate, b: LongCoordinate)
    ensures ResolveBy(ResolveBy(a, b), Negate(b)) == a
  {
    Add64Undo(a.x, b.x);
    Add64Undo(a.y, b.y);
  }

  /** A direction's offset as a `long` coordinate. */
  function AsCoords(d: Direction): (r: LongCoordinate)
    ensures r != Origin
  {
    TableShape(d, d);
    LongCoordinate(X(d), Y(d))
  }

  /** `resolve(direction)`: one step in the direction. */
  function ResolveDir(c: LongCoordinate, d: Direction): LongCoordinate
  {
    Resolve(c, X(d), Y(d))
  }

  /** A step is `resolve` by the direction's offset, and a step the opposite way undoes it. */
  lemma {:induction false} StepBack(c: LongCoordinate, d: Direction)
    ensures ResolveDir(c, d) == ResolveBy(c, AsCoords(d))
    ensures ResolveDir(ResolveDir(c, d), Opposite(d)) == c
  {
    StepIsResolve(c, d);
    StepThenBack(c, d);
  }

  lemma {:induction false} StepIsResolve(c: LongCoordinate, d: Direction)
    ensures ResolveDir(c, d) == ResolveBy(c, AsCoords(d))
  {
  }

  lemma {:induction false} StepThenBack(c: LongCoordinate, d: Direction)
    ensures ResolveDir(ResolveDir(c, d), Opposite(d)) == c
  {
    StepIsResolve(c, d);
    StepIsResolve(ResolveDir(c, d), Opposite(d));
    assert AsCoords(Opposite(d)) == Negate(AsCoords(d));
    ResolveUndo(c, AsCoords(d));
  }

  /** Different directions lead to different neighbours. */
  lemma {:induction false} StepInjective(c: LongCoordinate, d: Direction, e: Direction)
    requires ResolveDir(c, d) == ResolveDir(c, e)
    ensures d == e
  {
    Add64Cancel(c.x, X(d), X(e));
    Add64Cancel(c.y, Y(d), Y(e));
    ParseOffset(d);
    ParseOffset(e);
  }

  /** `resolve(direction, count)` as written: the offsets `direction.x * count` and
      `direction.y * count` are `int` products, widened to `long` only afterwards. */
  function ResolveDirTimesAsWritten(c: LongCoordinate, d: Direction, count: Int32): (r: LongCoordinate)
    ensures count != INT_MIN && IsLong(c.x + X(d) * count) && IsLong(c.y + Y(d) * count) ==>
              r == LongCoordinate(c.x + X(d) * count, c.y + Y(d) * count)
  {
    ExactComponent(c.x, X(d), count);
    ExactComponent(c.y, Y(d), count);
    Resolve(c, Mul32(X(d), count), Mul32(Y(d), count))
  }

  /** `Integer.MIN_VALUE` steps WEST: the `int` product -1 * MIN_VALUE wraps to MIN_VALUE, so
      the coordinate moves 2^31 the wrong way although the `long` sum is exact. */
  lemma {:induction false} ResolveDirTimesCounterexample()
    ensures ResolveDirTimesAsWritten(Origin, West, INT_MIN) == LongCoordinate(INT_MIN, 0)
    ensures ResolveDirTimes(Origin, West, INT_MIN) == LongCoordinate(-(INT_MIN as int), 0)
  {
    Mul32Unit(INT_MIN, -1);
    Mul32Unit(INT_MIN, 0);
    Mul64Unit(INT_MIN, -1);
    Mul64Unit(INT_MIN, 0);
  }

  /** `resolve(direction, count)` with the products taken in `long`, as the `long`
      components call for. */
  function ResolveDirTimes(c: LongCoordinate, d: Direction, count: Int32): LongCoordinate
  {
    Resolve(c, Mul64(X(d), count), Mul64(Y(d), count))
  }

  /** With `long` products, `count` steps are exactly `count` times the offset whenever the
      sum fits, and where the `int` product does not wrap both forms agree. */
  lemma {:induction false} ResolveDirTimesExact(c: LongCoordinate, d: Direction, count: Int32)
    ensures IsLong(c.x + X(d) * count) && IsLong(c.y + Y(d) * count) ==>
              ResolveDirTimes(c, d, count) == LongCoordinate(c.x + X(d) * count, c.y + Y(d) * count)
    ensures count != INT_MIN ==> ResolveDirTimes(c, d, count) == ResolveDirTimesAsWritten(c, d, count)
  {
    ExactComponent(c.x, X(d), count);
    ExactComponent(c.y, Y(d), count);
  }

  /** One component of ResolveDirTimesExact. */
  lemma {:induction false} ExactComponent(p: Int64, u: int, n: Int32)
    requires -1 <= u <= 1
    ensures IsLong(p + u * n) ==> Add64(p, Mul64(u, n)) == p + u * n
    ensures n != INT_MIN ==> Mul64(u, n) == Mul32(u, n)
  {
    Mul64Unit(n, u);
    Mul32Unit(n, u);
    assert u * n == if u == 0 then 0 else if u == 1 then n else -(n as int);
  }

  /** One more step is one more `resolve(direction)` for every `count`, and zero steps stay
      put. */
  lemma {:induction false} ResolveDirTimesStep(c: LongCoordinate, d: Direction, count: Int32)
    requires count < INT_MAX
    ensures ResolveDirTimes(c, d, 0) == c
    ensures ResolveDirTimes(c, d, count + 1) == ResolveDir(ResolveDirTimes(c, d, count), d)
  {
    ZeroSteps(c, d);
    OneMoreStep(c, d, count);
  }

  lemma {:induction false} ZeroSteps(c: LongCoordinate, d: Direction)
    ensures ResolveDirTimes(c, d, 0) == c
  {
    Mul64Unit(0, X(d));
    Mul64Unit(0, Y(d));
  }

  lemma {:induction false} OneMoreStep(c: LongCoordinate, d: Direction, count: Int32)
    requires count < INT_MAX
    ensures ResolveDirTimes(c, d, count + 1) == ResolveDir(ResolveDirTimes(c, d, count), d)
  {
    var o := LongCoordinate(Mul64(X(d), count), Mul64(Y(d), count));
    OffsetComponent(X(d), count);
    OffsetComponent(Y(d), count);
    ResolveAssoc(c, o, AsCoords(d));
    StepIsResolve(ResolveBy(c, o), d);
  }

  /** `u * (n + 1)` is `u * n + u` in `long` arithmetic. */
  lemma {:induction false} OffsetComponent(u: int, n: Int32)
    requires -1 <= u <= 1 && n < INT_MAX
    ensures Mul64(u, n + 1) == Add64(Mul64(u, n), u)
  {
    Mul64Unit(n, u);
    Mul64Unit(n + 1, u);
  }

  /** The as-written form breaks the step law at `count = MIN_VALUE`: one more step WEST
      lands 2^32 away from one step WEST of `MIN_VALUE` steps. */
  lemma {:induction false} ResolveDirTimesAsWrittenStepFails()
    ensures ResolveDirTimesAsWritten(Origin, West, INT_MIN + 1) !=
            ResolveDir(ResolveDirTimesAsWritten(Origin, West, INT_MIN), West)
  {
    ResolveDirTimesCounterexample();
    Mul32Unit(INT_MIN + 1, -1);
    Mul32Unit(INT_MIN + 1, 0);
  }

  /** `multiply(xFactor, yFactor)`: componentwise `long` products; the factors (1, 1)
      return `this`, the same value as the products. */
  function Multiply(c: LongCoordinate, xFactor: Int64, yFactor: Int64): (r: LongCoordinate)
    ensures r == LongCoordinate(Mul64(c.x, xFactor), Mul64(c.y, yFactor))
  {
    if xFactor == 1 && yFactor == 1 then c else LongCoordinate(Mul64(c.x, xFactor), Mul64(c.y, yFactor))
  }

  /** `multiply(mut)` and `multiply(factor)`. */
  function MultiplyBy(c: LongCoordinate, mut: LongCoordinate): LongCoordinate
  {
    Multiply(c, mut.x, mut.y)
  }

  function Scale(c: LongCoordinate, factor: Int64): LongCoordinate
  {
    Multiply(c, factor, factor)
  }

  /** Without overflow, `multiply` multiplies exactly. */
  lemma {:induction false} MultiplyExact(c: LongCoordinate, xFactor: Int64, yFactor: Int64)
    requires IsLong(c.x * xFactor) && IsLong(c.y * yFactor)
    ensures Multiply(c, xFactor, yFactor) == LongCoordinate(c.x * xFactor, c.y * yFactor)
  {
  }

  /** The factor 1 changes nothing, -1 negates, and -1 twice gives the coordinate back. */
  lemma {:induction false} MultiplyLaws(c: LongCoordinate)
    ensures Scale(c, 1) == c
    ensures Scale(c, -1) == Negate(c)
    ensures Scale(Scale(c, -1), -1) == c
  {
    MultiplyNegate(c);
    MultiplyNegate(Negate(c));
    NegateInvolution(c);
  }

  lemma {:induction false} MultiplyNegate(c: LongCoordinate)
    ensures Scale(c, -1) == Negate(c)
  {
    Mul64Unit(c.x, -1);
    Mul64Unit(c.y, -1);
  }

  lemma {:induction false} NegateInvolution(c: LongCoordinate)
    ensures Negate(Negate(c)) == c
  {
  }

  /** `swapXY()`. */
  function SwapXY(c: LongCoordinate): LongCoordinate
  {
    LongCoordinate(c.y, c.x)
  }

  /** Swapping twice gives the coordinate back, and swapping commutes with moves. */
  lemma {:induction false} SwapXYInvolution(a: LongCoordinate, b: LongCoordinate)
    ensures SwapXY(SwapXY(a)) == a
    ensures SwapXY(ResolveBy(a, b)) == ResolveBy(SwapXY(a), SwapXY(b))
  {
  }

  /** A quarter turn about the origin, (x, y) to (-y, x). */
  function QuarterTurn(c: LongCoordinate): LongCoordinate
  {
    LongCoordinate(Neg64(c.y), c.x)
  }

  /** `k` quarter turns. */
  function Turns(c: LongCoordinate, k: nat): LongCoordinate
  {
    if k == 0 then c else QuarterTurn(Turns(c, k - 1))
  }

  /** `rotate90(degrees)`: the same normalisation and the same four cases as
      `Coordinate.rotate90`; any other angle is an `IllegalStateException`. */
  function Rotate90(c: LongCoordinate, degrees: Int32): (r: Result<LongCoordinate>)
    ensures r.Err? ==> r.error == IllegalState
  {
    match Normalized(degrees)
    case 90 => Ok(Multiply(SwapXY(c), -1, 1))
    case 180 => Ok(Multiply(c, -1, -1))
    case 270 => Ok(Multiply(SwapXY(c), 1, -1))
    case 0 => Ok(c)
    case _ => Err(IllegalState)
  }

  /** The three rotation cases are one, two and three quarter turns, and four quarter turns
      are the identity, overflow or not. */
  lemma {:induction false} QuarterTurns(c: LongCoordinate)
    ensures Multiply(SwapXY(c), -1, 1) == Turns(c, 1)
    ensures Multiply(c, -1, -1) == Turns(c, 2)
    ensures Multiply(SwapXY(c), 1, -1) == Turns(c, 3)
    ensures Turns(c, 4) == c
  {
    OneTurn(c);
    TwoTurns(c);
    ThreeTurns(c);
    FourTurns(c);
  }

  lemma {:induction false} OneTurn(c: LongCoordinate)
    ensures Multiply(SwapXY(c), -1, 1) == Turns(c, 1)
  {
    Mul64Unit(c.y, -1);
    Mul64Unit(c.x, 1);
    assert Turns(c, 1) == QuarterTurn(c);
  }

  lemma {:induction false} TwoTurns(c: LongCoordinate)
    ensures Multiply(c, -1, -1) == Turns(c, 2)
  {
    MultiplyNegate(c);
    assert Turns(c, 1) == QuarterTurn(c);
    assert Turns(c, 2) == QuarterTurn(Turns(c, 1));
  }

  lemma {:induction false} ThreeTurns(c: LongCoordinate)
    ensures Multiply(SwapXY(c), 1, -1) == Turns(c, 3)
  {
    Mul64Unit(c.y, 1);
    Mul64Unit(c.x, -1);
    assert Turns(c, 1) == QuarterTurn(c);
    assert Turns(c, 2) == QuarterTurn(Turns(c, 1));
    assert Turns(c, 3) == QuarterTurn(Turns(c, 2));
  }

  lemma {:induction false} FourTurns(c: LongCoordinate)
    ensures Turns(c, 4) == c
  {
    assert Turns(c, 1) == QuarterTurn(c);
    assert Turns(c, 2) == QuarterTurn(Turns(c, 1));
    assert Turns(c, 3) == QuarterTurn(Turns(c, 2));
    assert Turns(c, 4) == QuarterTurn(Turns(c, 3));
  }

  /** From one negative turn up, `rotate90` succeeds exactly on multiples of 90 and turns the
      coordinate once per right angle in the angle reduced modulo 360. */
  lemma {:induction false} Rotate90Turns(c: LongCoordinate, degrees: Int32)
    requires degrees >= -360
    ensures Rotate90(c, degrees).Ok? <==> degrees % 90 == 0
    ensures Rotate90(c, degrees).Ok? ==> Rotate90(c, degrees).value == Turns(c, degrees % 360 / 90)
  {
    NormalizedMod(degrees);
    var m := degrees % 360;
    assert m % 90 == degrees % 90;
    Rotate90Accepts(c, degrees, m);
    if m % 90 == 0 {
      Rotate90Value(c, degrees, m);
    }
  }

  lemma {:induction false} Rotate90Accepts(c: LongCoordinate, degrees: Int32, m: int)
    requires 0 <= m < 360 && Normalized(degrees) == m
    ensures Rotate90(c, degrees).Ok? <==> m % 90 == 0
  {
  }

  lemma {:induction false} Rotate90Value(c: LongCoordinate, degrees: Int32, m: int)
    requires 0 <= m < 360 && Normalized(degrees) == m && m % 90 == 0
    ensures Rotate90(c, degrees) == Ok(Turns(c, m / 90))
  {
    if m == 90 {
      OneTurn(c);
    } else if m == 180 {
      TwoTurns(c);
    } else if m == 270 {
      ThreeTurns(c);
    }
  }

  /** The Manhattan distance, exactly. */
  function Manhattan(a: LongCoordinate, b: LongCoordinate): nat
  {
    (if a.x >= b.x then a.x - b.x else b.x - a.x) + (if a.y >= b.y then a.y - b.y else b.y - a.y)
  }

  /** `distance(other)`: `Math.abs` of each `long` difference, summed in `long`. Where the
      exact distance fits in a `long`, that is the result. */
  function Distance(a: LongCoordinate, b: LongCoordinate): (r: Int64)
    ensures Manhattan(a, b) <= LONG_MAX ==> r == Manhattan(a, b)
  {
    Add64(AbsLong(Sub64(a.x, b.x)), AbsLong(Sub64(a.y, b.y)))
  }

  /** The distance is symmetric even when it overflows. */
  lemma {:induction false} DistanceSymmetric(a: LongCoordinate, b: LongCoordinate)
    ensures Distance(a, b) == Distance(b, a)
  {
    Sub64Swap(a.x, b.x);
    AbsNeg64(Sub64(a.x, b.x));
    Sub64Swap(a.y, b.y);
    AbsNeg64(Sub64(a.y, b.y));
  }

  /** Where it fits in a `long` the distance is a metric. */
  lemma {:induction false} DistanceMetric(a: LongCoordinate, b: LongCoordinate, c: LongCoordinate)
    requires Manhattan(a, b) <= LONG_MAX && Manhattan(b, c) <= LONG_MAX && Manhattan(a, c) <= LONG_MAX
    ensures Distance(a, b) >= 0
    ensures Distance(a, b) == 0 <==> a == b
    ensures Distance(a, c) <= Distance(a, b) + Distance(b, c)
  {
  }

  /** The distance of two widened coordinates is their exact Manhattan distance: `long`
      differences of `int` components cannot overflow. */
  lemma {:induction false} DistanceOf(a: Coordinates.Coordinate, b: Coordinates.Coordinate)
    ensures Distance(Of(a), Of(b)) == Coordinates.Manhattan(a, b)
  {
  }

  /** `distanceToOrigin()` as written: `x + y`, which is not a distance once a component is
      negative. */
  function DistanceToOriginAsWritten(c: LongCoordinate): (r: Int64)
    ensures IsLong(c.x + c.y) ==> r == c.x + c.y
  {
    Add64(c.x, c.y)
  }

  /** (-1, -1) is two steps from the origin, but `x + y` says -2. */
  lemma {:induction false} DistanceToOriginCounterexample()
    ensures DistanceToOriginAsWritten(LongCoordinate(-1, -1)) == -2
    ensures Distance(LongCoordinate(-1, -1), Origin) == 2
  {
  }

  /** `distanceToOrigin()` as documented: the Manhattan distance to ORIGIN. It agrees with
      `x + y` on the non-negative quadrant. */
  function DistanceToOrigin(c: LongCoordinate): (r: Int64)
    ensures Manhattan(c, Origin) <= LONG_MAX ==> r == Manhattan(c, Origin)
    ensures c.x >= 0 && c.y >= 0 ==> r == DistanceToOriginAsWritten(c)
  {
    Distance(c, Origin)
  }

  /** The first direction of `ds` whose step reaches `other`. */
  function FirstReaching(c: LongCoordinate, other: LongCoordinate, ds: seq<Direction>): (r: Option<Direction>)
    ensures r.Some? ==> r.value in ds && ResolveDir(c, r.value) == other
    ensures r.None? ==> forall i :: 0 <= i < |ds| ==> ResolveDir(c, ds[i]) != other
  {
    if |ds| == 0 then None
    else if ResolveDir(c, ds[0]) == other then Some(ds[0])
    else FirstReaching(c, other, ds[1..])
  }

  /** `relative(other)`: the stream of cardinal then ordinal directions filtered by
      `resolve(d).equals(other)`, `findAny`, or null. */
  function Relative(c: LongCoordinate, other: LongCoordinate): Option<Direction>
  {
    FirstReaching(c, other, CardinalOrdinal())
  }

  /** `relative` answers null exactly when no step reaches `other`; otherwise the one
      direction whose step does, so it does not matter which match `findAny` picks. */
  lemma {:induction false} RelativeSpec(c: LongCoordinate, other: LongCoordinate)
    ensures Relative(c, other).Some? ==> ResolveDir(c, Relative(c, other).value) == other
    ensures Relative(c, other).None? <==> forall d: Direction :: ResolveDir(c, d) != other
    ensures forall d: Direction :: ResolveDir(c, d) == other ==> Relative(c, other) == Some(d)
  {
    var ds := CardinalOrdinal();
    forall d: Direction | ResolveDir(c, d) == other
      ensures Relative(c, other) == Some(d)
    {
      ArraysShape(d);
      var j :| 0 <= j < |ds| && ds[j] == d;
      StepInjective(c, d, Relative(c, other).value);
    }
  }

  /** `down()`, `up()`, `left()` and `right()`: one step SOUTH, NORTH, WEST and EAST. */
  function Down(c: LongCoordinate): LongCoordinate { ResolveDir(c, South) }
  function Up(c: LongCoordinate): LongCoordinate { ResolveDir(c, North) }
  function Left(c: LongCoordinate): LongCoordinate { ResolveDir(c, West) }
  function Right(c: LongCoordinate): LongCoordinate { ResolveDir(c, East) }

  /** Each of them changes one component by one in `long`, and opposite ones undo each
      other. */
  lemma {:induction false} Steps(c: LongCoordinate)
    ensures Down(c) == LongCoordinate(c.x, Add64(c.y, 1)) && Up(c) == LongCoordinate(c.x, Add64(c.y, -1))
    ensures Left(c) == LongCoordinate(Add64(c.x, -1), c.y) && Right(c) == LongCoordinate(Add64(c.x, 1), c.y)
    ensures Up(Down(c)) == c && Down(Up(c)) == c
    ensures Left(Right(c)) == c && Right(Left(c)) == c
  {
    StepForms(c);
    VerticalInverses(c);
    HorizontalInverses(c);
  }

  lemma {:induction false} StepForms(c: LongCoordinate)
    ensures Down(c) == LongCoordinate(c.x, Add64(c.y, 1)) && Up(c) == LongCoordinate(c.x, Add64(c.y, -1))
    ensures Left(c) == LongCoordinate(Add64(c.x, -1), c.y) && Right(c) == LongCoordinate(Add64(c.x, 1), c.y)
  {
  }

  lemma {:induction false} VerticalInverses(c: LongCoordinate)
    ensures Up(Down(c)) == c && Down(Up(c)) == c
  {
    StepThenBack(c, South);
    StepThenBack(c, North);
  }

  lemma {:induction false} HorizontalInverses(c: LongCoordinate)
    ensures Left(Right(c)) == c && Right(Left(c)) == c
  {
    StepThenBack(c, West);
    StepThenBack(c, East);
  }

  /** `getAxis(axis)`: the component on that axis. */
  function GetAxis(c: LongCoordinate, axis: Axis): Int64
  {
    if axis == AxisX then c.x else c.y
  }

  /** A step along an axis adds the direction's offset on that axis and leaves the other
      component alone. */
  lemma {:induction false} GetAxisStep(c: LongCoordinate, d: Direction, a: Axis)
    requires AxisOf(d) == Some(a)
    ensures GetAxis(ResolveDir(c, d), OtherAxis(a)) == GetAxis(c, OtherAxis(a))
    ensures GetAxis(ResolveDir(c, d), a) == Add64(GetAxis(c, a), Directions.GetAxis(d, a))
  {
    TableShape(d, d);
  }
}
