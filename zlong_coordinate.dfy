/** `ZLongCoordinate.java`: a 3-dimensional position with Java `long` components; sums,
    differences and products wrap around modulo 2^64. */
module ZLongCoordinates {
  import opened Wrappers
  import opened Arith
  import opened JavaInt
  import opened JavaText
  import opened ZDirections

  datatype ZLongCoordinate = ZLongCoordinate(x: Int64, y: Int64, z: Int64)

  /** `ZLongCoordinate.ORIGIN`. */
  const Origin := ZLongCoordinate(0, 0, 0)

  /** `parse("x,y,z")`: the texts before the first comma, between the first and the second
      comma, and after the second, each read by `Long.parseLong`. A missing comma makes a
      `substring` call throw. */
  function Parse(s: string): (r: Result<ZLongCoordinate>)
    ensures r.Err? ==> r.error == IndexOutOfBounds || r.error == NumberFormat
  {
    var v :- Fields(s, 2, LONG_MIN, LONG_MAX);
    Ok(ZLongCoordinate(v[0], v[1], v[2]))
  }

  /** Without a first comma `parse` fails on a `substring` bound. */
  lemma {:induction false} ParseNeedsComma(s: string)
    ensures IndexOf(s, ',', 0) == -1 ==> Parse(s) == Err(IndexOutOfBounds)
  {
    if IndexOf(s, ',', 0) == -1 {
      FieldsNeedComma(s, 2, LONG_MIN, LONG_MAX);
    }
  }

  /** The decimal text of a coordinate, its components joined by commas, parses back to it. */
  lemma {:induction false} ParseRoundTrip(c: ZLongCoordinate)
    ensures Parse(Joined([c.x, c.y, c.z])) == Ok(c)
  {
    FieldsRoundTrip([c.x, c.y, c.z], LONG_MIN, LONG_MAX);
  }

  /** The joined text is the components' decimal forms with a comma between each two. */
  lemma {:induction false} JoinedText(c: ZLongCoordinate)
    ensures Joined([c.x, c.y, c.z]) == Decimal(c.x) + "," + Decimal(c.y) + "," + Decimal(c.z)
  {
    assert [c.x, c.y, c.z][1..] == [c.y, c.z] && [c.y, c.z][1..] == [c.z];
    var yz := Decimal(c.y) + "," + Decimal(c.z);
    assert Joined([c.y, c.z]) == yz;
    assert Joined([c.x, c.y, c.z]) == Decimal(c.x) + "," + yz;
  }

  /** `resolve(x, y, z)`: componentwise `long` sums. */
  function Resolve(c: ZLongCoordinate, dx: Int64, dy: Int64, dz: Int64): ZLongCoordinate
  {
    ZLongCoordinate(Add64(c.x, dx), Add64(c.y, dy), Add64(c.z, dz))
  }

  /** `resolve(other)`. */
  function ResolveBy(c: ZLongCoordinate, other: ZLongCoordinate): ZLongCoordinate
  {
    Resolve(c, other.x, other.y, other.z)
  }

  /** Without overflow, `resolve` adds exactly. */
  lemma {:induction false} ResolveExact(c: ZLongCoordinate, dx: Int64, dy: Int64, dz: Int64)
    requires IsLong(c.x + dx) && IsLong(c.y + dy) && IsLong(c.z + dz)
    ensures Resolve(c, dx, dy, dz) == ZLongCoordinate(c.x + dx, c.y + dy, c.z + dz)
  {
  }

  /** ORIGIN changes nothing, the operands commute, and moves compose associatively. */
  lemma {:induction false} ResolveLaws(a: ZLongCoordinate, b: ZLongCoordinate, e: ZLongCoordinate)
    ensures ResolveBy(a, Origin) == a
    ensures ResolveBy(a, b) == ResolveBy(b, a)
    ensures ResolveBy(a, ResolveBy(b, e)) == ResolveBy(ResolveBy(a, b), e)
  {
    ResolveAssoc(a, b, e);
  }

  lemma {:induction false} ResolveAssoc(a: ZLongCoordinate, b: ZLongCoordinate, e: ZLongCoordinate)
    ensures ResolveBy(a, ResolveBy(b, e)) == ResolveBy(ResolveBy(a, b), e)
  {
    Add64Assoc(a.x, b.x, e.x);
    Add64Assoc(a.y, b.y, e.y);
    Add64Assoc(a.z, b.z, e.z);
  }

  /** `resolve(direction)`: one step by the direction's `int` offsets. */
  function ResolveDir(c: ZLongCoordinate, d: ZDirection): ZLongCoordinate
  {
    Resolve(c, ZDirections.X(d), ZDirections.Y(d), ZDirections.Z(d))
  }

  /** A step changes the component on the direction's axis by one and leaves the other two
      alone. */
  lemma {:induction false} StepOnAxis(c: ZLongCoordinate, d: ZDirection, a: ZAxis)
    ensures a != AxisOf(d) ==> GetAxis(ResolveDir(c, d), a) == GetAxis(c, a)
    ensures GetAxis(ResolveDir(c, d), AxisOf(d)) == Add64(GetAxis(c, AxisOf(d)), OnAxis(d, AxisOf(d)))
  {
    TableShape(d, d, a);
  }

  /** `subtract(other)`: componentwise `long` differences. */
  function Subtract(a: ZLongCoordinate, b: ZLongCoordinate): ZLongCoordinate
  {
    ZLongCoordinate(Sub64(a.x, b.x), Sub64(a.y, b.y), Sub64(a.z, b.z))
  }

  /** `subtract` undoes `resolve`, overflow or not: (a + b) - b == a, and (a - b) + b == a. */
  lemma {:induction false} SubtractUndoesResolve(a: ZLongCoordinate, b: ZLongCoordinate)
    ensures Subtract(ResolveBy(a, b), b) == a
    ensures ResolveBy(Subtract(a, b), b) == a
  {
    Sub64AsAdd(a.x, b.x);
    Sub64AsAdd(a.y, b.y);
    Sub64AsAdd(a.z, b.z);
  }

  /** The 3-dimensional Manhattan distance, exactly. */
  function Manhattan(a: ZLongCoordinate, b: ZLongCoordinate): nat
  {
    Abs(a.x - b.x) + Abs(a.y - b.y) + Abs(a.z - b.z)
  }

  /** `distanceManhattan(other)`: `Math.abs` of each difference, added up, all in `long`;
      where the exact distance fits in a `long`, that is the result. */
  function DistanceManhattan(a: ZLongCoordinate, b: ZLongCoordinate): (r: Int64)
  {
    Add64(Add64(AbsLong(Sub64(a.x, b.x)), AbsLong(Sub64(a.y, b.y))), AbsLong(Sub64(a.z, b.z)))
  }

  /** Where the exact distance fits, `distanceManhattan` is the exact distance. */
  lemma {:induction false} DistanceManhattanExact(a: ZLongCoordinate, b: ZLongCoordinate)
    requires Manhattan(a, b) <= LONG_MAX
    ensures DistanceManhattan(a, b) == Manhattan(a, b)
  {
    ManhattanSum(a, b);
    AbsDiff64(a.x, b.x);
    AbsDiff64(a.y, b.y);
    AbsDiff64(a.z, b.z);
    Add64Sum3(AbsLong(Sub64(a.x, b.x)), AbsLong(Sub64(a.y, b.y)), AbsLong(Sub64(a.z, b.z)));
  }

  /** The distance is symmetric even when it overflows, and it is the distance of the
      difference to the origin. */
  lemma {:induction false} DistanceSymmetric(a: ZLongCoordinate, b: ZLongCoordinate)
    ensures DistanceManhattan(a, b) == DistanceManhattan(b, a)
    ensures DistanceManhattan(a, b) == DistanceToOrigin(Subtract(a, b))
  {
    Sub64Swap(a.x, b.x);
    AbsNeg64(Sub64(a.x, b.x));
    Sub64Swap(a.y, b.y);
    AbsNeg64(Sub64(a.y, b.y));
    Sub64Swap(a.z, b.z);
    AbsNeg64(Sub64(a.z, b.z));
  }

  /** Where it fits in a `long` the distance is a metric. */
  lemma {:induction false} DistanceMetric(a: ZLongCoordinate, b: ZLongCoordinate, c: ZLongCoordinate)
    requires Manhattan(a, b) <= LONG_MAX && Manhattan(b, c) <= LONG_MAX && Manhattan(a, c) <= LONG_MAX
    ensures DistanceManhattan(a, b) >= 0
    ensures DistanceManhattan(a, b) == 0 <==> a == b
    ensures DistanceManhattan(a, c) <= DistanceManhattan(a, b) + DistanceManhattan(b, c)
  {
    DistanceManhattanExact(a, b);
    DistanceManhattanExact(b, c);
    DistanceManhattanExact(a, c);
    ManhattanMetric(a, b, c);
  }

  /** The exact distance is zero only between equal coordinates and obeys the triangle
      inequality. */
  lemma {:induction false} ManhattanMetric(a: ZLongCoordinate, b: ZLongCoordinate, c: ZLongCoordinate)
    ensures Manhattan(a, b) == 0 <==> a == b
    ensures Manhattan(a, c) <= Manhattan(a, b) + Manhattan(b, c)
  {
    ManhattanZero(a, b);
    ManhattanTriangle(a, b, c);
  }

  lemma {:induction false} ManhattanZero(a: ZLongCoordinate, b: ZLongCoordinate)
    ensures Manhattan(a, b) == 0 <==> a == b
  {
    if Manhattan(a, b) == 0 {
      assert a.x == b.x && a.y == b.y && a.z == b.z;
    }
  }

  lemma {:induction false} ManhattanTriangle(a: ZLongCoordinate, b: ZLongCoordinate, c: ZLongCoordinate)
    ensures Manhattan(a, c) <= Manhattan(a, b) + Manhattan(b, c)
  {
    ManhattanSum(a, c);
    ManhattanSum(a, b);
    ManhattanSum(b, c);
    ComponentTriangles(a, b, c);
  }

  lemma {:induction false} ManhattanSum(a: ZLongCoordinate, b: ZLongCoordinate)
    ensures Manhattan(a, b) == Abs(a.x - b.x) + Abs(a.y - b.y) + Abs(a.z - b.z)
  {
  }

  lemma {:induction false} ComponentTriangles(a: ZLongCoordinate, b: ZLongCoordinate, c: ZLongCoordinate)
    ensures Abs(a.x - c.x) + Abs(a.y - c.y) + Abs(a.z - c.z) <= (Abs(a.x - b.x) + Abs(a.y - b.y) + Abs(a.z - b.z)) + (Abs(b.x - c.x) + Abs(b.y - c.y) + Abs(b.z - c.z))
  {
    AbsTriangle(a.x, b.x, c.x);
    AbsTriangle(a.y, b.y, c.y);
    AbsTriangle(a.z, b.z, c.z);
  }

  /** `distanceToOrigin()`: `distanceManhattan(0, 0, 0)`, so |x| + |y| + |z| where that fits. */
  function DistanceToOrigin(c: ZLongCoordinate): (r: Int64)
  {
    DistanceManhattan(c, Origin)
  }

  /** Where it fits, the distance to the origin is the sum of the magnitudes. */
  lemma {:induction false} DistanceToOriginExact(c: ZLongCoordinate)
    requires Abs(c.x) + Abs(c.y) + Abs(c.z) <= LONG_MAX
    ensures DistanceToOrigin(c) == Abs(c.x) + Abs(c.y) + Abs(c.z)
  {
    DistanceManhattanExact(c, Origin);
  }

  /** The squared Euclidean distance, exactly. */
  function SquaredExact(a: ZLongCoordinate, b: ZLongCoordinate): int
  {
    (a.x - b.x) * (a.x - b.x) + (a.y - b.y) * (a.y - b.y) + (a.z - b.z) * (a.z - b.z)
  }

  /** `distanceSquared(x2, y2, z2)`: the three `long` differences, each squared and the
      squares added, all in `long`. */
  function DistanceSquared(a: ZLongCoordinate, b: ZLongCoordinate): Int64
  {
    var dx, dy, dz := Sub64(a.x, b.x), Sub64(a.y, b.y), Sub64(a.z, b.z);
    Add64(Add64(Mul64(dx, dx), Mul64(dy, dy)), Mul64(dz, dz))
  }

  /** Where the exact squared distance fits in a `long`, `distanceSquared` is that value. */
  lemma {:induction false} DistanceSquaredExact(a: ZLongCoordinate, b: ZLongCoordinate)
    requires SquaredExact(a, b) <= LONG_MAX
    ensures DistanceSquared(a, b) == SquaredExact(a, b)
  {
    var ex, ey, ez := a.x - b.x, a.y - b.y, a.z - b.z;
    SquaresBounded(ex, ey, ez, LONG_MAX);
    Square64Fits(ex);
    Square64Fits(ey);
    Square64Fits(ez);
  }

  /** The squared distance is symmetric, overflow or not. */
  lemma {:induction false} DistanceSquaredSymmetric(a: ZLongCoordinate, b: ZLongCoordinate)
    ensures DistanceSquared(a, b) == DistanceSquared(b, a)
  {
    Sub64Swap(a.x, b.x);
    Mul64NegSquare(Sub64(a.x, b.x));
    Sub64Swap(a.y, b.y);
    Mul64NegSquare(Sub64(a.y, b.y));
    Sub64Swap(a.z, b.z);
    Mul64NegSquare(Sub64(a.z, b.z));
  }

  /** Where it fits, the squared distance is non-negative and zero only between equal
      coordinates. */
  lemma {:induction false} DistanceSquaredZero(a: ZLongCoordinate, b: ZLongCoordinate)
    requires SquaredExact(a, b) <= LONG_MAX
    ensures DistanceSquared(a, b) >= 0
    ensures DistanceSquared(a, b) == 0 <==> a == b
  {
    DistanceSquaredExact(a, b);
    SumOfSquaresZero(a.x - b.x, a.y - b.y, a.z - b.z);
  }

  /** `getAxis(axis)`: the component on that axis. */
  function GetAxis(c: ZLongCoordinate, axis: ZAxis): Int64
  {
    match axis
    case ZX => c.x
    case ZY => c.y
    case ZZ => c.z
  }

  /** The three axes read back the three components. */
  lemma {:induction false} GetAxisComponents(c: ZLongCoordinate)
    ensures ZLongCoordinate(GetAxis(c, ZX), GetAxis(c, ZY), GetAxis(c, ZZ)) == c
  {
  }
}
