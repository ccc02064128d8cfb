/** `ZDirection.java`: the six directions that move along a single one of the x, y and z
    axes, with the `Direction` compass cardinals as the four in the plane. */
module ZDirections {
  import opened Wrappers
  import Directions

  datatype ZDirection = North | East | South | West | Up | Down

  /** `ZDirection.Axis`. */
  datatype ZAxis = ZX | ZY | ZZ

  /** The constant table: the unit offset and the axis of each direction. */
  function X(d: ZDirection): int
  {
    match d
    case East => 1
    case West => -1
    case _ => 0
  }

  function Y(d: ZDirection): int
  {
    match d
    case North => -1
    case South => 1
    case _ => 0
  }

  function Z(d: ZDirection): int
  {
    match d
    case Up => 1
    case Down => -1
    case _ => 0
  }

  function AxisOf(d: ZDirection): ZAxis
  {
    match d
    case North => ZY
    case South => ZY
    case East => ZX
    case West => ZX
    case _ => ZZ
  }

  /** The offset's component on an axis. */
  function OnAxis(d: ZDirection, a: ZAxis): (r: int)
  {
    match a
    case ZX => X(d)
    case ZY => Y(d)
    case ZZ => Z(d)
  }

  /** Every constant is a unit vector that is non-zero on its own axis only, and distinct
      constants have distinct offsets. */
  lemma {:induction false} TableShape(d: ZDirection, e: ZDirection, a: ZAxis)
    ensures OnAxis(d, AxisOf(d)) == 1 || OnAxis(d, AxisOf(d)) == -1
    ensures a != AxisOf(d) ==> OnAxis(d, a) == 0
    ensures d != e ==> (X(d), Y(d), Z(d)) != (X(e), Y(e), Z(e))
  {
  }

  /** `oneAxisDirections()`: the `ONE_AXIS` array. */
  function OneAxis(): seq<ZDirection>
  {
    [North, East, South, West, Up, Down]
  }

  /** The array lists every direction exactly once, the compass cardinals first. */
  lemma {:induction false} OneAxisShape(d: ZDirection)
    ensures |OneAxis()| == 6 && d in OneAxis()
    ensures forall i, j :: 0 <= i < j < 6 ==> OneAxis()[i] != OneAxis()[j]
    ensures forall i :: 0 <= i < 4 ==> ToDirection(OneAxis()[i]).Ok?
  {
  }

  /** `fromDirection(direction)`: the cardinals map to their namesakes, the ordinals throw
      `IllegalArgumentException`. */
  function FromDirection(d: Directions.Direction): (r: Result<ZDirection>)
    ensures r.Ok? <==> Directions.IsCardinal(d)
    ensures r.Err? ==> r.error == IllegalArgument
    ensures r.Ok? ==> X(r.value) == Directions.X(d) && Y(r.value) == Directions.Y(d) && Z(r.value) == 0
  {
    match d
    case North => Ok(North)
    case East => Ok(East)
    case South => Ok(South)
    case West => Ok(West)
    case _ => Err(IllegalArgument)
  }

  /** `toDirection()`: the four plane directions map back, UP and DOWN throw. */
  function ToDirection(d: ZDirection): (r: Result<Directions.Direction>)
    ensures r.Ok? <==> Z(d) == 0
    ensures r.Err? ==> r.error == IllegalArgument
    ensures r.Ok? ==> Directions.X(r.value) == X(d) && Directions.Y(r.value) == Y(d)
  {
    match d
    case North => Ok(Directions.North)
    case East => Ok(Directions.East)
    case South => Ok(Directions.South)
    case West => Ok(Directions.West)
    case _ => Err(IllegalArgument)
  }

  /** The two conversions are inverse on the cardinals and the plane directions. */
  lemma {:induction false} DirectionRoundTrip(d: Directions.Direction, z: ZDirection)
    ensures Directions.IsCardinal(d) ==> ToDirection(FromDirection(d).value) == Ok(d)
    ensures Z(z) == 0 ==> FromDirection(ToDirection(z).value) == Ok(z)
  {
  }
}
