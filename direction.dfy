/** The eight compass directions of `Direction.java`: each has a bearing in degrees
    (NORTH at 0, clockwise in 45-degree steps) and a unit offset on a grid whose y axis
    points down, so NORTH is (0, -1). */
module Directions {
  import opened Wrappers
  import opened JavaInt

  datatype Direction =
    | North | NorthEast | East | SouthEast | South | SouthWest | West | NorthWest

  /** `Direction.Axis`. */
  datatype Axis = AxisX | AxisY

  /** The constant table: degrees, x, y and axis of each direction. */
  function Degrees(d: Direction): (r: int)
    ensures 0 <= r < 360 && r % 45 == 0
  {
    match d
    case North => 0
    case NorthEast => 45
    case East => 90
    case SouthEast => 135
    case South => 180
    case SouthWest => 225
    case West => 270
    case NorthWest => 315
  }

  function X(d: Direction): (r: int)
    ensures -1 <= r <= 1
  {
    match d
    case North => 0
    case NorthEast => 1
    case East => 1
    case SouthEast => 1
    case South => 0
    case SouthWest => -1
    case West => -1
    case NorthWest => -1
  }

  function Y(d: Direction): (r: int)
    ensures -1 <= r <= 1
  {
    match d
    case North => -1
    case NorthEast => -1
    case East => 0
    case SouthEast => 1
    case South => 1
    case SouthWest => 1
    case West => 0
    case NorthWest => -1
  }

  /** The axis a cardinal direction moves along; ordinals have none (`null`). */
  function AxisOf(d: Direction): Option<Axis>
  {
    match d
    case North => Some(AxisY)
    case East => Some(AxisX)
    case South => Some(AxisY)
    case West => Some(AxisX)
    case _ => None
  }

  predicate IsCardinal(d: Direction)
  {
    d == North || d == East || d == South || d == West
  }

  /** Every direction is a distinct non-zero unit offset, its bearing a multiple of 45 below
      360, and exactly the cardinals move along an axis: the one their offset is non-zero on. */
  lemma {:induction false} TableShape(d: Direction, e: Direction)
    ensures -1 <= X(d) <= 1 && -1 <= Y(d) <= 1 && (X(d), Y(d)) != (0, 0)
    ensures 0 <= Degrees(d) < 360 && Degrees(d) % 45 == 0
    ensures d != e ==> Degrees(d) != Degrees(e) && (X(d), Y(d)) != (X(e), Y(e))
    ensures AxisOf(d).Some? <==> IsCardinal(d)
    ensures AxisOf(d) == Some(AxisX) <==> X(d) != 0 && Y(d) == 0
    ensures AxisOf(d) == Some(AxisY) <==> X(d) == 0 && Y(d) != 0
  {
  }

  /** The cardinal directions, `{NORTH, EAST, SOUTH, WEST}`. */
  function Cardinal(): seq<Direction>
  {
    [North, East, South, West]
  }

  /** The ordinal directions, `{NORTHEAST, SOUTHEAST, SOUTHWEST, NORTHWEST}`. */
  function Ordinal(): seq<Direction>
  {
    [NorthEast, SouthEast, SouthWest, NorthWest]
  }

  /** The cardinals and then the ordinals. */
  function CardinalOrdinal(): seq<Direction>
  {
    [North, East, South, West, NorthEast, SouthEast, SouthWest, NorthWest]
  }

  /** The arrays split the directions into cardinals and ordinals, each listed once, the
      cardinals clockwise from NORTH and the ordinals clockwise from NORTHEAST. */
  lemma {:induction false} ArraysShape(d: Direction)
    ensures CardinalOrdinal() == Cardinal() + Ordinal()
    ensures d in CardinalOrdinal()
    ensures d in Cardinal() <==> IsCardinal(d)
    ensures d in Ordinal() <==> !IsCardinal(d)
    ensures forall i, j :: 0 <= i < j < 8 ==> CardinalOrdinal()[i] != CardinalOrdinal()[j]
    ensures forall i :: 0 <= i < 3 ==> Degrees(Cardinal()[i]) + 90 == Degrees(Cardinal()[i + 1])
    ensures forall i :: 0 <= i < 3 ==> Degrees(Ordinal()[i]) + 90 == Degrees(Ordinal()[i + 1])
  {
  }

  /** `getCardinalDirections(up, right, down, left)`: `Map.of` throws on a repeated key. */
  function CardinalMap(up: char, right: char, down: char, left: char): (r: Result<map<char, Direction>>)
    ensures r.Ok? <==> |{up, right, down, left}| == 4
    ensures r.Ok? ==> r.value.Keys == {up, right, down, left}
    ensures r.Ok? ==> r.value[up] == North && r.value[right] == East
                      && r.value[down] == South && r.value[left] == West
  {
    if up == right || up == down || up == left || right == down || right == left || down == left
    then Err(IllegalArgument)
    else Ok(map[up := North, right := East, down := South, left := West])
  }

  /** `parseDirection(xDiff, yDiff)`: the direction with that offset. */
  function ParseDirection(dx: int, dy: int): (r: Result<Direction>)
    ensures r.Ok? <==> -1 <= dx <= 1 && -1 <= dy <= 1 && (dx, dy) != (0, 0)
    ensures r.Ok? ==> X(r.value) == dx && Y(r.value) == dy
    ensures r.Err? ==> r.error == IllegalArgument
  {
    match dx
    case -1 =>
      (match dy
       case -1 => Ok(NorthWest)
       case 0 => Ok(West)
       case 1 => Ok(SouthWest)
       case _ => Err(IllegalArgument))
    case 0 =>
      (match dy
       case -1 => Ok(North)
       case 1 => Ok(South)
       case _ => Err(IllegalArgument))
    case 1 =>
      (match dy
       case -1 => Ok(NorthEast)
       case 0 => Ok(East)
       case 1 => Ok(SouthEast)
       case _ => Err(IllegalArgument))
    case _ => Err(IllegalArgument)
  }

  /** `parseDirection` inverts the offset table. */
  lemma {:induction false} ParseOffset(d: Direction)
    ensures ParseDirection(X(d), Y(d)) == Ok(d)
  {
  }

  /** `getCardinalDirection(c)`: N/U/^, E/R/>, S/D/v and W/L/<. */
  function CardinalOf(c: char): (r: Result<Direction>)
    ensures r.Ok? <==> c in "NU^ER>SDvWL<"
    ensures r.Ok? ==> IsCardinal(r.value)
    ensures r.Err? ==> r.error == IllegalState
  {
    match c
    case 'N' => Ok(North)
    case 'U' => Ok(North)
    case '^' => Ok(North)
    case 'E' => Ok(East)
    case 'R' => Ok(East)
    case '>' => Ok(East)
    case 'S' => Ok(South)
    case 'D' => Ok(South)
    case 'v' => Ok(South)
    case 'W' => Ok(West)
    case 'L' => Ok(West)
    case '<' => Ok(West)
    case _ => Err(IllegalState)
  }

  /** `getCharURDL`. */
  function CharURDL(d: Direction): (r: Result<char>)
    ensures r.Ok? <==> IsCardinal(d)
    ensures r.Err? ==> r.error == IllegalState
  {
    match d
    case North => Ok('U')
    case East => Ok('R')
    case South => Ok('D')
    case West => Ok('L')
    case _ => Err(IllegalState)
  }

  /** `getCharNESW`. */
  function CharNESW(d: Direction): (r: Result<char>)
    ensures r.Ok? <==> IsCardinal(d)
    ensures r.Err? ==> r.error == IllegalState
  {
    match d
    case North => Ok('N')
    case East => Ok('E')
    case South => Ok('S')
    case West => Ok('W')
    case _ => Err(IllegalState)
  }

  /** `getCharArrow`. */
  function CharArrow(d: Direction): (r: Result<char>)
    ensures r.Ok? <==> IsCardinal(d)
    ensures r.Err? ==> r.error == IllegalState
  {
    match d
    case North => Ok('^')
    case East => Ok('>')
    case South => Ok('v')
    case West => Ok('<')
    case _ => Err(IllegalState)
  }

  /** Each character getter is a right inverse of `getCardinalDirection` on the cardinals,
      and the three give different characters for different directions. */
  lemma {:induction false} CharsRoundTrip(d: Direction, e: Direction)
    requires IsCardinal(d) && IsCardinal(e)
    ensures CardinalOf(CharURDL(d).value) == Ok(d)
    ensures CardinalOf(CharNESW(d).value) == Ok(d)
    ensures CardinalOf(CharArrow(d).value) == Ok(d)
    ensures d != e ==> CharURDL(d) != CharURDL(e) && CharNESW(d) != CharNESW(e)
                       && CharArrow(d) != CharArrow(e)
  {
  }

  /** The direction at a bearing in `[0, 360)`: the `degreesMap` lookup. */
  function AtDegrees(deg: int): (r: Option<Direction>)
    ensures r.Some? <==> 0 <= deg < 360 && deg % 45 == 0
    ensures r.Some? ==> Degrees(r.value) == deg
  {
    match deg
    case 0 => Some(North)
    case 45 => Some(NorthEast)
    case 90 => Some(East)
    case 135 => Some(SouthEast)
    case 180 => Some(South)
    case 225 => Some(SouthWest)
    case 270 => Some(West)
    case 315 => Some(NorthWest)
    case _ => None
  }

  /** The angle `fromDegrees` and `Coordinate.rotate90` look up: one turn is added to a
      negative angle, then Java's `% 360` (truncating) is taken. */
  function Normalized(degrees: int): (n: int)
    ensures -360 < n < 360
  {
    Rem(if degrees < 0 then 360 + degrees else degrees, 360)
  }

  /** From one negative turn up, the normalised angle is the angle reduced modulo 360. */
  lemma {:induction false} NormalizedMod(degrees: int)
    requires degrees >= -360
    ensures Normalized(degrees) == degrees % 360
  {
    var deg := if degrees < 0 then 360 + degrees else degrees;
    assert Rem(deg, 360) == deg % 360;
    if degrees < 0 { assert deg == degrees + 360; }
  }

  /** `fromDegrees`: the direction at the normalised angle. */
  function FromDegrees(degrees: Int32): (r: Result<Direction>)
    ensures r.Err? ==> r.error == IllegalArgument
  {
    match AtDegrees(Normalized(degrees))
    case None => Err(IllegalArgument)
    case Some(d) => Ok(d)
  }

  /** For bearings from one negative turn up, `fromDegrees` succeeds exactly on multiples of
      45 and gives the direction at the bearing reduced modulo 360. */
  lemma {:induction false} FromDegreesTurns(degrees: Int32)
    requires degrees >= -360
    ensures FromDegrees(degrees).Ok? <==> degrees % 45 == 0
    ensures FromDegrees(degrees).Ok? ==> Degrees(FromDegrees(degrees).value) == degrees % 360
  {
    NormalizedMod(degrees);
    assert (degrees % 360) % 45 == degrees % 45;
  }

  /** Below one negative turn the truncating `%` leaves a negative bearing, so even a multiple
      of 45 such as -450 fails. */
  lemma {:induction false} FromDegreesBelowOneTurn()
    ensures FromDegrees(-450).Err? && -450 % 45 == 0
  {
    assert Normalized(-450) == -90;
  }

  /** `fromDegrees` inverts the bearing table. */
  lemma {:induction false} FromDegreesTable(d: Direction)
    ensures FromDegrees(Degrees(d)) == Ok(d)
  {
    NormalizedMod(Degrees(d));
  }

  /** `relativeDegrees(degrees)`: `fromDegrees` of the sum, added in `int`. */
  function RelativeDegrees(d: Direction, degrees: Int32): Result<Direction>
  {
    FromDegrees(Wrap32(Degrees(d) + degrees))
  }

  /** A turn by a multiple of 45 within one turn either way lands on the direction at the
      summed bearing. */
  lemma {:induction false} RelativeTurn(d: Direction, degrees: Int32)
    requires -360 <= degrees <= 360 && degrees % 45 == 0
    ensures RelativeDegrees(d, degrees).Ok?
    ensures Degrees(RelativeDegrees(d, degrees).value) == (Degrees(d) + degrees) % 360
  {
    var s := Degrees(d) + degrees;
    assert Wrap32(s) == s;
    var j := degrees / 45;
    assert degrees == 45 * j;
    LinearMod(s, Degrees(d) / 45 + j, 45);
    FromDegreesTurns(s);
  }

  /** The direction at a bearing, from the table. */
  lemma {:induction false} DegreesDetermine(d: Direction, e: Direction)
    requires Degrees(d) == Degrees(e)
    ensures d == e
  {
  }

  /** `opposite`: the turn by 180 degrees, which negates the offset. */
  function Opposite(d: Direction): (r: Direction)
    ensures X(r) == -X(d) && Y(r) == -Y(d)
    ensures AxisOf(r) == AxisOf(d)
  {
    RelativeTurn(d, 180);
    var r := RelativeDegrees(d, 180).value;
    DegreesDetermine(r, AtDegrees((Degrees(d) + 180) % 360).value);
    r
  }

  /** `clockwise`: the turn by 90 degrees, which takes offset (x, y) to (-y, x). */
  function Clockwise(d: Direction): (r: Direction)
    ensures X(r) == -Y(d) && Y(r) == X(d)
    ensures Degrees(r) == (Degrees(d) + 90) % 360
  {
    RelativeTurn(d, 90);
    var r := RelativeDegrees(d, 90).value;
    DegreesDetermine(r, AtDegrees((Degrees(d) + 90) % 360).value);
    r
  }

  /** `counterClockwise`: the turn by -90 degrees, which takes offset (x, y) to (y, -x). */
  function CounterClockwise(d: Direction): (r: Direction)
    ensures X(r) == Y(d) && Y(r) == -X(d)
    ensures Degrees(r) == (Degrees(d) + 270) % 360
  {
    RelativeTurn(d, -90);
    var r := RelativeDegrees(d, -90).value;
    DegreesDetermine(r, AtDegrees((Degrees(d) + 270) % 360).value);
    r
  }

  /** Turning back undoes a turn, two opposites are the identity, and two clockwise turns
      are the opposite. */
  lemma {:induction false} TurnsInverse(d: Direction)
    ensures Opposite(Opposite(d)) == d
    ensures CounterClockwise(Clockwise(d)) == d
    ensures Clockwise(CounterClockwise(d)) == d
    ensures Clockwise(Clockwise(d)) == Opposite(d)
  {
    ParseOffset(d);
    ParseOffset(Opposite(Opposite(d)));
    ParseOffset(CounterClockwise(Clockwise(d)));
    ParseOffset(Clockwise(CounterClockwise(d)));
    ParseOffset(Clockwise(Clockwise(d)));
    ParseOffset(Opposite(d));
  }

  /** `getAxis(axis)`: the offset on that axis. */
  function GetAxis(d: Direction, axis: Axis): (r: int)
    ensures axis == AxisX ==> r == X(d)
    ensures axis == AxisY ==> r == Y(d)
  {
    if axis == AxisX then X(d) else Y(d)
  }

  /** `Axis.opposite`: the other axis. */
  function OtherAxis(a: Axis): (r: Axis)
    ensures r != a
  {
    if a == AxisX then AxisY else AxisX
  }

  /** `Axis.getDirections`: EAST, WEST for X and NORTH, SOUTH for Y. */
  function AxisDirections(a: Axis): seq<Direction>
  {
    if a == AxisX then [East, West] else [North, South]
  }

  /** The directions of an axis are exactly the cardinals moving along it. */
  lemma {:induction false} AxisDirectionsMembers(a: Axis, d: Direction)
    ensures |AxisDirections(a)| == 2
    ensures d in AxisDirections(a) <==> AxisOf(d) == Some(a)
  {
  }

  /** The two directions of an axis are opposite, and `Axis.opposite` is an involution. */
  lemma {:induction false} AxisDirectionsOpposite(a: Axis)
    ensures Opposite(AxisDirections(a)[0]) == AxisDirections(a)[1]
    ensures OtherAxis(OtherAxis(a)) == a
  {
    if a == AxisX {
      ParseOffset(Opposite(East));
      ParseOffset(West);
    } else {
      ParseOffset(Opposite(North));
      ParseOffset(South);
    }
  }
}
