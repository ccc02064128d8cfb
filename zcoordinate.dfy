/** `ZCoordinate.java`: a 3-dimensional position with Java `int` components; sums and
    differences wrap around modulo 2^32. */
module ZCoordinates {
  import opened Wrappers
  import opened Arith
  import opened JavaInt
  import opened JavaText
  import opened ZDirections

  datatype ZCoordinate = ZCoordinate(x: Int32, y: Int32, z: Int32)

  /** `ZCoordinate.ORIGIN`. */
  const Origin := ZCoordinate(0, 0, 0)

  /** `parse("x,y,z")`: the texts before the first comma, between the first and the second
      comma, and after the second, each read by `Integer.parseInt`. A missing comma makes a
      `substring` call throw. */
  function Parse(s: string): (r: Result<ZCoordinate>)
    ensures r.Err? ==> r.error == IndexOutOfBounds || r.error == NumberFormat
  {
    var v :- Fields(s, 2, INT_MIN, INT_MAX);
    Ok(ZCoordinate(v[0], v[1], v[2]))
  }

  /** Without a first comma `parse` fails on a `substring` bound. */
  lemma {:induction false} ParseNeedsComma(s: string)
    ensures IndexOf(s, ',', 0) == -1 ==> Parse(s) == Err(IndexOutOfBounds)
  {
    if IndexOf(s, ',', 0) == -1 {
      FieldsNeedComma(s, 2, INT_MIN, INT_MAX);
    }
  }

  /** The decimal text of a coordinate, its components joined by commas, parses back to it. */
  lemma {:induction false} ParseRoundTrip(c: ZCoordinate)
    ensures Parse(Joined([c.x, c.y, c.z])) == Ok(c)
  {
    FieldsRoundTrip([c.x, c.y, c.z], INT_MIN, INT_MAX);
  }

  /** The joined text is the components' decimal forms with a comma between each two. */
  lemma {:induction false} JoinedText(c: ZCoordinate)
    ensures Joined([c.x, c.y, c.z]) == Decimal(c.x) + "," + Decimal(c.y) + "," + Decimal(c.z)
  {
    assert [c.x, c.y, c.z][1..] == [c.y, c.z] && [c.y, c.z][1..] == [c.z];
    var yz := Decimal(c.y) + "," + Decimal(c.z);
    assert Joined([c.y, c.z]) == yz;
    assert Joined([c.x, c.y, c.z]) == Decimal(c.x) + "," + yz;
  }

  /** `resolve(x, y, z)`: componentwise `int` sums (no shortcut for the zero offset here). */
  function Resolve(c: ZCoordinate, dx: Int32, dy: Int32, dz: Int32): ZCoordinate
  {
    ZCoordinate(Add32(c.x, dx), Add32(c.y, dy), Add32(c.z, dz))
  }

  /** `resolve(other)`. */
  function ResolveBy(c: ZCoordinate, other: ZCoordinate): ZCoordinate
  {
    Resolve(c, other.x, other.y, other.z)
  }

  /** Without overflow, `resolve` adds exactly. */
  lemma {:induction false} ResolveExact(c: ZCoordinate, dx: Int32, dy: Int32, dz: Int32)
    requires IsInt(c.x + dx) && IsInt(c.y + dy) && IsInt(c.z + dz)
    ensures Resolve(c, dx, dy, dz) == ZCoordinate(c.x + dx, c.y + dy, c.z + dz)
  {
  }

  /** ORIGIN changes nothing, the operands commute, and moves compose associatively. */
  lemma {:induction false} ResolveLaws(a: ZCoordinate, b: ZCoordinate, e: ZCoordinate)
    ensures ResolveBy(a, Origin) == a
    ensures ResolveBy(a, b) == ResolveBy(b, a)
    ensures ResolveBy(a, ResolveBy(b, e)) == ResolveBy(ResolveBy(a, b), e)
  {
    ResolveAssoc(a, b, e);
  }

  lemma {:induction false} ResolveAssoc(a: ZCoordinate, b: ZCoordinate, e: ZCoordinate)
    ensures ResolveBy(a, ResolveBy(b, e)) == ResolveBy(ResolveBy(a, b), e)
  {
    Add32Assoc(a.x, b.x, e.x);
    Add32Assoc(a.y, b.y, e.y);
    Add32Assoc(a.z, b.z, e.z);
  }

  /** `ZDirection.asCoords()`: the direction's offset. */
  function AsCoords(d: ZDirection): (r: ZCoordinate)
    ensures r != Origin
  {
    ZCoordinate(ZDirections.X(d), ZDirections.Y(d), ZDirections.Z(d))
  }

  /** `resolve(direction)`: one step. */
  function ResolveDir(c: ZCoordinate, d: ZDirection): ZCoordinate
  {
    Resolve(c, ZDirections.X(d), ZDirections.Y(d), ZDirections.Z(d))
  }

  /** A step is `resolve` by the offset; it changes the component on the direction's axis by
      one and leaves the other two alone. */
  lemma {:induction false} StepOnAxis(c: ZCoordinate, d: ZDirection, a: ZAxis)
    ensures ResolveDir(c, d) == ResolveBy(c, AsCoords(d))
    ensures a != AxisOf(d) ==> GetAxis(ResolveDir(c, d), a) == GetAxis(c, a)
    ensures GetAxis(ResolveDir(c, d), AxisOf(d)) == Add32(GetAxis(c, AxisOf(d)), OnAxis(d, AxisOf(d)))
  {
    TableShape(d, d, a);
  }

  /** `subtract(other)`: componentwise `int` differences. */
  function Subtract(a: ZCoordinate, b: ZCoordinate): ZCoordinate
  {
    ZCoordinate(Sub32(a.x, b.x), Sub32(a.y, b.y), Sub32(a.z, b.z))
  }

  /** `subtract` undoes `resolve`, overflow or not: (a + b) - b == a, and (a - b) + b == a. */
  lemma {:induction false} SubtractUndoesResolve(a: ZCoordinate, b: ZCoordinate)
    ensures Subtract(ResolveBy(a, b), b) == a
    ensures ResolveBy(Subtract(a, b), b) == a
  {
    Sub32AsAdd(a.x, b.x);
    Sub32AsAdd(a.y, b.y);
    Sub32AsAdd(a.z, b.z);
  }

  /** The 3-dimensional Manhattan distance, exactly. */
  function Manhattan(a: ZCoordinate, b: ZCoordinate): nat
  {
    Abs(a.x - b.x) + Abs(a.y - b.y) + Abs(a.z - b.z)
  }

  /** `distance(other)`: `Math.abs` of each difference, added up, all in `int`; where the
      exact distance fits in an `int`, that is the result. */
  function Distance(a: ZCoordinate, b: ZCoordinate): (r: Int32)
  {
    Add32(Add32(AbsInt(Sub32(a.x, b.x)), AbsInt(Sub32(a.y, b.y))), AbsInt(Sub32(a.z, b.z)))
  }

  /** Where the exact distance fits, `Distance` is the exact distance. */
  lemma {:induction false} DistanceExact(a: ZCoordinate, b: ZCoordinate)
    requires Manhattan(a, b) <= INT_MAX
    ensures Distance(a, b) == Manhattan(a, b)
  {
    ManhattanSum(a, b);
    AbsDiff32(a.x, b.x);
    AbsDiff32(a.y, b.y);
    AbsDiff32(a.z, b.z);
    Add32Sum3(AbsInt(Sub32(a.x, b.x)), AbsInt(Sub32(a.y, b.y)), AbsInt(Sub32(a.z, b.z)));
  }

  /** The distance is symmetric even when it overflows, and it is the distance of the
      difference to the origin. */
  lemma {:induction false} DistanceSymmetric(a: ZCoordinate, b: ZCoordinate)
    ensures Distance(a, b) == Distance(b, a)
    ensures Distance(a, b) == DistanceToOrigin(Subtract(a, b))
  {
    Sub32Swap(a.x, b.x);
    AbsNeg32(Sub32(a.x, b.x));
    Sub32Swap(a.y, b.y);
    AbsNeg32(Sub32(a.y, b.y));
    Sub32Swap(a.z, b.z);
    AbsNeg32(Sub32(a.z, b.z));
  }

  /** Where it fits in an `int` the distance is a metric. */
  lemma {:induction false} DistanceMetric(a: ZCoordinate, b: ZCoordinate, c: ZCoordinate)
    requires Manhattan(a, b) <= INT_MAX && Manhattan(b, c) <= INT_MAX && Manhattan(a, c) <= INT_MAX
    ensures Distance(a, b) >= 0
    ensures Distance(a, b) == 0 <==> a == b
    ensures Distance(a, c) <= Distance(a, b) + Distance(b, c)
  {
    DistanceExact(a, b);
    DistanceExact(b, c);
    DistanceExact(a, c);
    ManhattanMetric(a, b, c);
  }

  /** The exact distance is zero only between equal coordinates and obeys the triangle
      inequality. */
  lemma {:induction false} ManhattanMetric(a: ZCoordinate, b: ZCoordinate, c: ZCoordinate)
    ensures Manhattan(a, b) == 0 <==> a == b
    ensures Manhattan(a, c) <= Manhattan(a, b) + Manhattan(b, c)
  {
    ManhattanZero(a, b);
    ManhattanTriangle(a, b, c);
  }

  lemma {:induction false} ManhattanZero(a: ZCoordinate, b: ZCoordinate)
    ensures Manhattan(a, b) == 0 <==> a == b
  {
    if Manhattan(a, b) == 0 {
      assert a.x == b.x && a.y == b.y && a.z == b.z;
    }
  }

  lemma {:induction false} ManhattanTriangle(a: ZCoordinate, b: ZCoordinate, c: ZCoordinate)
    ensures Manhattan(a, c) <= Manhattan(a, b) + Manhattan(b, c)
  {
    ManhattanSum(a, c);
    ManhattanSum(a, b);
    ManhattanSum(b, c);
    ComponentTriangles(a, b, c);
  }

  lemma {:induction false} ManhattanSum(a: ZCoordinate, b: ZCoordinate)
    ensures Manhattan(a, b) == Abs(a.x - b.x) + Abs(a.y - b.y) + Abs(a.z - b.z)
  {
  }

  lemma {:induction false} ComponentTriangles(a: ZCoordinate, b: ZCoordinate, c: ZCoordinate)
    ensures Abs(a.x - c.x) + Abs(a.y - c.y) + Abs(a.z - c.z) <= (Abs(a.x - b.x) + Abs(a.y - b.y) + Abs(a.z - b.z)) + (Abs(b.x - c.x) + Abs(b.y - c.y) + Abs(b.z - c.z))
  {
    AbsTriangle(a.x, b.x, c.x);
    AbsTriangle(a.y, b.y, c.y);
    AbsTriangle(a.z, b.z, c.z);
  }

  /** `distanceToOrigin()`: `distance(0, 0, 0)`, so |x| + |y| + |z| where that fits. */
  function DistanceToOrigin(c: ZCoordinate): (r: Int32)
  {
    Distance(c, Origin)
  }

  /** Where it fits, the distance to the origin is the sum of the magnitudes. */
  lemma {:induction false} DistanceToOriginExact(c: ZCoordinate)
    requires Abs(c.x) + Abs(c.y) + Abs(c.z) <= INT_MAX
    ensures DistanceToOrigin(c) == Abs(c.x) + Abs(c.y) + Abs(c.z)
  {
    DistanceExact(c, Origin);
  }

  /** `getAxis(axis)`: the component on that axis. */
  function GetAxis(c: ZCoordinate, axis: ZAxis): Int32
  {
    match axis
    case ZX => c.x
    case ZY => c.y
    case ZZ => c.z
  }

  /** The three axes read back the three components. */
  lemma {:induction false} GetAxisComponents(c: ZCoordinate)
    ensures ZCoordinate(GetAxis(c, ZX), GetAxis(c, ZY), GetAxis(c, ZZ)) == c
  {
  }
}
