/** `HyperCoordinate.java`: a 4-dimensional position with Java `int` components; sums and
    differences wrap around modulo 2^32. */
module HyperCoordinates {
  import opened Wrappers
  import opened Arith
  import opened JavaInt
  import opened JavaText

  datatype HyperCoordinate = HyperCoordinate(x: Int32, y: Int32, z: Int32, w: Int32)

  /** `HyperCoordinate.ORIGIN`. */
  const Origin := HyperCoordinate(0, 0, 0, 0)

  /** `parse("x,y,z,w")`: the texts before the first comma, between successive commas, and
      after the third, each read by `Integer.parseInt`. A missing comma makes a `substring`
      call throw. */
  function Parse(s: string): (r: Result<HyperCoordinate>)
    ensures r.Err? ==> r.error == IndexOutOfBounds || r.error == NumberFormat
  {
    var v :- Fields(s, 3, INT_MIN, INT_MAX);
    Ok(HyperCoordinate(v[0], v[1], v[2], v[3]))
  }

  /** Without a first comma `parse` fails on a `substring` bound. */
  lemma {:induction false} ParseNeedsComma(s: string)
    ensures IndexOf(s, ',', 0) == -1 ==> Parse(s) == Err(IndexOutOfBounds)
  {
    if IndexOf(s, ',', 0) == -1 {
      FieldsNeedComma(s, 3, INT_MIN, INT_MAX);
    }
  }

  /** The decimal text of a coordinate, its components joined by commas, parses back to it. */
  lemma {:induction false} ParseRoundTrip(c: HyperCoordinate)
    ensures Parse(Joined([c.x, c.y, c.z, c.w])) == Ok(c)
  {
    FieldsRoundTrip([c.x, c.y, c.z, c.w], INT_MIN, INT_MAX);
  }

  /** The joined text is the components' decimal forms with a comma between each two. */
  lemma {:induction false} JoinedText(c: HyperCoordinate)
    ensures Joined([c.x, c.y, c.z, c.w]) == Decimal(c.x) + "," + Decimal(c.y) + "," + Decimal(c.z) + "," + Decimal(c.w)
  {
    assert [c.x, c.y, c.z, c.w][1..] == [c.y, c.z, c.w] && [c.y, c.z, c.w][1..] == [c.z, c.w];
    assert [c.z, c.w][1..] == [c.w];
    var zw := Decimal(c.z) + "," + Decimal(c.w);
    assert Joined([c.z, c.w]) == zw;
    var yzw := Decimal(c.y) + "," + zw;
    assert Joined([c.y, c.z, c.w]) == yzw;
    assert Joined([c.x, c.y, c.z, c.w]) == Decimal(c.x) + "," + yzw;
  }

  /** `resolve(x, y, z, w)`: componentwise `int` sums. */
  function Resolve(c: HyperCoordinate, dx: Int32, dy: Int32, dz: Int32, dw: Int32): HyperCoordinate
  {
    HyperCoordinate(Add32(c.x, dx), Add32(c.y, dy), Add32(c.z, dz), Add32(c.w, dw))
  }

  /** `resolve(other)`. */
  function ResolveBy(c: HyperCoordinate, other: HyperCoordinate): HyperCoordinate
  {
    Resolve(c, other.x, other.y, other.z, other.w)
  }

  /** Without overflow, `resolve` adds all four components exactly. */
  lemma {:induction false} ResolveExact(c: HyperCoordinate, o: HyperCoordinate)
    requires IsInt(c.x + o.x) && IsInt(c.y + o.y) && IsInt(c.z + o.z) && IsInt(c.w + o.w)
    ensures ResolveBy(c, o) == HyperCoordinate(c.x + o.x, c.y + o.y, c.z + o.z, c.w + o.w)
  {
  }

  /** ORIGIN changes nothing, the operands commute, and moves compose associatively. */
  lemma {:induction false} ResolveLaws(a: HyperCoordinate, b: HyperCoordinate, e: HyperCoordinate)
    ensures ResolveBy(a, Origin) == a
    ensures ResolveBy(a, b) == ResolveBy(b, a)
    ensures ResolveBy(a, ResolveBy(b, e)) == ResolveBy(ResolveBy(a, b), e)
  {
    ResolveAssoc(a, b, e);
  }

  lemma {:induction false} ResolveAssoc(a: HyperCoordinate, b: HyperCoordinate, e: HyperCoordinate)
    ensures ResolveBy(a, ResolveBy(b, e)) == ResolveBy(ResolveBy(a, b), e)
  {
    Add32Assoc(a.x, b.x, e.x);
    Add32Assoc(a.y, b.y, e.y);
    Add32Assoc(a.z, b.z, e.z);
    Add32Assoc(a.w, b.w, e.w);
  }

  /** The 4-dimensional Manhattan distance, exactly. */
  function Manhattan(a: HyperCoordinate, b: HyperCoordinate): nat
  {
    Abs(a.x - b.x) + Abs(a.y - b.y) + Abs(a.z - b.z) + Abs(a.w - b.w)
  }

  /** `distanceManhattan(other)`: `Math.abs` of each `int` difference, added up in `int`;
      where the exact distance fits in an `int`, that is the result. */
  function DistanceManhattan(a: HyperCoordinate, b: HyperCoordinate): (r: Int32)
  {
    Add32(Add32(Add32(AbsInt(Sub32(a.x, b.x)), AbsInt(Sub32(a.y, b.y))), AbsInt(Sub32(a.z, b.z))),
          AbsInt(Sub32(a.w, b.w)))
  }

  /** Where the exact distance fits, `distanceManhattan` is the exact distance. */
  lemma {:induction false} DistanceManhattanExact(a: HyperCoordinate, b: HyperCoordinate)
    requires Manhattan(a, b) <= INT_MAX
    ensures DistanceManhattan(a, b) == Manhattan(a, b)
  {
    ManhattanSum(a, b);
    AbsDiff32(a.x, b.x);
    AbsDiff32(a.y, b.y);
    AbsDiff32(a.z, b.z);
    AbsDiff32(a.w, b.w);
    Add32Sum4(AbsInt(Sub32(a.x, b.x)), AbsInt(Sub32(a.y, b.y)), AbsInt(Sub32(a.z, b.z)), AbsInt(Sub32(a.w, b.w)));
  }

  /** The distance is symmetric even when it overflows. */
  lemma {:induction false} DistanceSymmetric(a: HyperCoordinate, b: HyperCoordinate)
    ensures DistanceManhattan(a, b) == DistanceManhattan(b, a)
  {
    Sub32Swap(a.x, b.x);
    AbsNeg32(Sub32(a.x, b.x));
    Sub32Swap(a.y, b.y);
    AbsNeg32(Sub32(a.y, b.y));
    Sub32Swap(a.z, b.z);
    AbsNeg32(Sub32(a.z, b.z));
    Sub32Swap(a.w, b.w);
    AbsNeg32(Sub32(a.w, b.w));
  }

  /** Where it fits in an `int` the distance is a metric. */
  lemma {:induction false} DistanceMetric(a: HyperCoordinate, b: HyperCoordinate, c: HyperCoordinate)
    requires Manhattan(a, b) <= INT_MAX && Manhattan(b, c) <= INT_MAX && Manhattan(a, c) <= INT_MAX
    ensures DistanceManhattan(a, b) >= 0
    ensures DistanceManhattan(a, b) == 0 <==> a == b
    ensures DistanceManhattan(a, c) <= DistanceManhattan(a, b) + DistanceManhattan(b, c)
  {
    DistanceManhattanExact(a, b);
    DistanceManhattanExact(b, c);
    DistanceManhattanExact(a, c);
    ManhattanMetric(a, b, c);
  }

  /** The exact distance is zero only between equal coordinates and obeys the triangle
      inequality. */
  lemma {:induction false} ManhattanMetric(a: HyperCoordinate, b: HyperCoordinate, c: HyperCoordinate)
    ensures Manhattan(a, b) == 0 <==> a == b
    ensures Manhattan(a, c) <= Manhattan(a, b) + Manhattan(b, c)
  {
    ManhattanZero(a, b);
    ManhattanTriangle(a, b, c);
  }

  lemma {:induction false} ManhattanZero(a: HyperCoordinate, b: HyperCoordinate)
    ensures Manhattan(a, b) == 0 <==> a == b
  {
    if Manhattan(a, b) == 0 {
      assert a.x == b.x && a.y == b.y && a.z == b.z && a.w == b.w;
    }
  }

  lemma {:induction false} ManhattanTriangle(a: HyperCoordinate, b: HyperCoordinate, c: HyperCoordinate)
    ensures Manhattan(a, c) <= Manhattan(a, b) + Manhattan(b, c)
  {
    ManhattanSum(a, c);
    ManhattanSum(a, b);
    ManhattanSum(b, c);
    ComponentTriangles(a, b, c);
  }

  lemma {:induction false} ManhattanSum(a: HyperCoordinate, b: HyperCoordinate)
    ensures Manhattan(a, b) == Abs(a.x - b.x) + Abs(a.y - b.y) + Abs(a.z - b.z) + Abs(a.w - b.w)
  {
  }

  lemma {:induction false} ComponentTriangles(a: HyperCoordinate, b: HyperCoordinate, c: HyperCoordinate)
    ensures Abs(a.x - c.x) + Abs(a.y - c.y) + Abs(a.z - c.z) + Abs(a.w - c.w) <= (Abs(a.x - b.x) + Abs(a.y - b.y) + Abs(a.z - b.z) + Abs(a.w - b.w)) + (Abs(b.x - c.x) + Abs(b.y - c.y) + Abs(b.z - c.z) + Abs(b.w - c.w))
  {
    AbsTriangle(a.x, b.x, c.x);
    AbsTriangle(a.y, b.y, c.y);
    AbsTriangle(a.z, b.z, c.z);
    AbsTriangle(a.w, b.w, c.w);
  }

  /** `distanceToOrigin()`: `distanceManhattan(0, 0, 0, 0)`, so |x| + |y| + |z| + |w| where
      that fits. */
  function DistanceToOrigin(c: HyperCoordinate): (r: Int32)
  {
    DistanceManhattan(c, Origin)
  }

  /** Where it fits, the distance to the origin is the sum of the magnitudes. */
  lemma {:induction false} DistanceToOriginExact(c: HyperCoordinate)
    requires Abs(c.x) + Abs(c.y) + Abs(c.z) + Abs(c.w) <= INT_MAX
    ensures DistanceToOrigin(c) == Abs(c.x) + Abs(c.y) + Abs(c.z) + Abs(c.w)
  {
    DistanceManhattanExact(c, Origin);
  }

  /** The squared Euclidean distance, exactly. */
  function SquaredExact(a: HyperCoordinate, b: HyperCoordinate): int
  {
    (a.x - b.x) * (a.x - b.x) + (a.y - b.y) * (a.y - b.y) + (a.z - b.z) * (a.z - b.z) + (a.w - b.w) * (a.w - b.w)
  }

  /** `distanceSquared(x2, y2, z2, w2)` as written: each difference is an `int` subtraction,
      which wraps before it is widened to `long`; the squares and their sum are `long`. */
  function DistanceSquaredAsWritten(a: HyperCoordinate, b: HyperCoordinate): (r: Int64)
    ensures IsInt(a.x - b.x) && IsInt(a.y - b.y) && IsInt(a.z - b.z) && IsInt(a.w - b.w) ==> r == DistanceSquared(a, b)
  {
    var dx, dy, dz, dw := Sub32(a.x, b.x), Sub32(a.y, b.y), Sub32(a.z, b.z), Sub32(a.w, b.w);
    Add64(Add64(Add64(Mul64(dx, dx), Mul64(dy, dy)), Mul64(dz, dz)), Mul64(dw, dw))
  }

  /** The widened differences the `long` locals evidently call for: each difference is exact,
      and the squares and their sum are `long`. */
  function DistanceSquared(a: HyperCoordinate, b: HyperCoordinate): Int64
  {
    var dx, dy, dz, dw := a.x - b.x, a.y - b.y, a.z - b.z, a.w - b.w;
    Add64(Add64(Add64(Mul64(dx, dx), Mul64(dy, dy)), Mul64(dz, dz)), Mul64(dw, dw))
  }

  /** Where the exact squared distance fits in a `long`, the widened form is that value. */
  lemma {:induction false} DistanceSquaredExact(a: HyperCoordinate, b: HyperCoordinate)
    requires SquaredExact(a, b) <= LONG_MAX
    ensures DistanceSquared(a, b) == SquaredExact(a, b)
  {
    var ex, ey, ez, ew := a.x - b.x, a.y - b.y, a.z - b.z, a.w - b.w;
    SquaresBounded4(ex, ey, ez, ew, LONG_MAX);
    Square64Fits(ex);
    Square64Fits(ey);
    Square64Fits(ez);
    Square64Fits(ew);
  }

  /** The code as written agrees with the exact value only while the `int` differences do
      not wrap. */
  lemma {:induction false} DistanceSquaredAsWrittenExact(a: HyperCoordinate, b: HyperCoordinate)
    requires IsInt(a.x - b.x) && IsInt(a.y - b.y) && IsInt(a.z - b.z) && IsInt(a.w - b.w)
    requires SquaredExact(a, b) <= LONG_MAX
    ensures DistanceSquaredAsWritten(a, b) == SquaredExact(a, b)
  {
    DistanceSquaredExact(a, b);
  }

  /** Two points 3 * 10^9 apart on the x axis: the exact squared distance 9 * 10^18 fits in a
      `long`, but the `int` difference wraps to -1294967296 and the code returns its square. */
  lemma {:induction false} DistanceSquaredCounterexample()
    ensures DistanceSquaredAsWritten(HyperCoordinate(2000000000, 0, 0, 0), HyperCoordinate(-1000000000, 0, 0, 0))
            == 1676940297709551616
    ensures DistanceSquared(HyperCoordinate(2000000000, 0, 0, 0), HyperCoordinate(-1000000000, 0, 0, 0))
            == SquaredExact(HyperCoordinate(2000000000, 0, 0, 0), HyperCoordinate(-1000000000, 0, 0, 0))
            == 9000000000000000000
  {
    assert Sub32(2000000000, -1000000000) == -1294967296;
    assert Mul64(-1294967296, -1294967296) == 1676940297709551616;
    assert Mul64(3000000000, 3000000000) == 9000000000000000000;
  }

  /** The squared distance is symmetric, overflow or not. */
  lemma {:induction false} DistanceSquaredSymmetric(a: HyperCoordinate, b: HyperCoordinate)
    ensures DistanceSquared(a, b) == DistanceSquared(b, a)
  {
    assert (b.x - a.x) * (b.x - a.x) == (a.x - b.x) * (a.x - b.x);
    assert (b.y - a.y) * (b.y - a.y) == (a.y - b.y) * (a.y - b.y);
    assert (b.z - a.z) * (b.z - a.z) == (a.z - b.z) * (a.z - b.z);
    assert (b.w - a.w) * (b.w - a.w) == (a.w - b.w) * (a.w - b.w);
  }

  /** Where it fits, the squared distance is non-negative and zero only between equal
      coordinates. */
  lemma {:induction false} DistanceSquaredZero(a: HyperCoordinate, b: HyperCoordinate)
    requires SquaredExact(a, b) <= LONG_MAX
    ensures DistanceSquared(a, b) >= 0
    ensures DistanceSquared(a, b) == 0 <==> a == b
  {
    DistanceSquaredExact(a, b);
    SumOfSquaresZero4(a.x - b.x, a.y - b.y, a.z - b.z, a.w - b.w);
  }
}
