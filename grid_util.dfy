/** `GridUtil.kt`: grids as Java arrays of rows, read and written at a coordinate, built from
    input lines, searched and folded in row-major order (rows top to bottom, each row left to
    right), and walked by an iterator that takes its width from row 0. */
module Grids {
  import opened Wrappers
  import opened Arith
  import opened JavaInt
  import opened Directions
  import opened Coordinates

  /** Java array and string lengths are `int`s, so every index of a row fits in an `int`. */
  predicate JavaSized<T>(g: seq<seq<T>>)
  {
    |g| <= INT_MAX && forall y :: 0 <= y < |g| ==> |g[y]| <= INT_MAX
  }

  /** A coordinate names a cell: its row exists and is long enough. */
  predicate InBounds<T>(g: seq<seq<T>>, c: Coordinate)
  {
    0 <= c.y < |g| && 0 <= c.x < |g[c.y]|
  }

  /** Row-major order: an earlier row, or the same row further left. */
  predicate Before(p: Coordinate, q: Coordinate)
  {
    p.y < q.y || (p.y == q.y && p.x < q.x)
  }

  // ---------------------------------------------------------------- reading and writing

  /** `grid[coord]`: `this[coord.y][coord.x]`, which throws `ArrayIndexOutOfBoundsException`
      for a coordinate outside the grid. */
  function Get<T>(g: seq<seq<T>>, c: Coordinate): Result<T>
  {
    if InBounds(g, c) then Ok(g[c.y][c.x]) else Err(IndexOutOfBounds)
  }

  /** The grid after one cell is written. */
  function Updated<T>(g: seq<seq<T>>, c: Coordinate, v: T): seq<seq<T>>
    requires InBounds(g, c)
  {
    g[c.y := g[c.y][c.x := v]]
  }

  /** Writing a cell keeps the shape, makes that cell read back the new value and leaves every
      other cell as it was. */
  lemma {:induction false} SetOnlyThatCell<T>(g: seq<seq<T>>, c: Coordinate, v: T, p: Coordinate)
    requires InBounds(g, c)
    ensures |Updated(g, c, v)| == |g|
    ensures forall y :: 0 <= y < |g| ==> |Updated(g, c, v)[y]| == |g[y]|
    ensures Get(Updated(g, c, v), p) == if p == c then Ok(v) else Get(g, p)
  {
  }

  /** A grid object: the array of rows that `set` writes into. */
  class Grid<T> {
    var cells: seq<seq<T>>

    constructor(cells: seq<seq<T>>)
      ensures this.cells == cells
    {
      this.cells := cells;
    }

    /** `grid[coord] = value`: writes `this[coord.y][coord.x]`; outside the grid the index
        check throws before anything is written. */
    method Set(c: Coordinate, v: T) returns (r: Result<()>)
      modifies this
      ensures r.Ok? <==> InBounds(old(cells), c)
      ensures r.Ok? ==> cells == Updated(old(cells), c, v)
      ensures r.Err? ==> r.error == IndexOutOfBounds && cells == old(cells)
    {
      if !InBounds(cells, c) {
        return Err(IndexOutOfBounds);
      }
      cells := cells[c.y := cells[c.y][c.x := v]];
      r := Ok(());
    }
  }

  // ---------------------------------------------------------------- building from lines

  /** `toGrid(func)` and its typed variants: one row per line, one cell per character. */
  function ToGrid<T>(lines: seq<string>, f: char -> T): (g: seq<seq<T>>)
    ensures |g| == |lines|
    ensures forall y :: 0 <= y < |g| ==> |g[y]| == |lines[y]|
  {
    seq(|lines|, y requires 0 <= y < |lines| => seq(|lines[y]|, x requires 0 <= x < |lines[y]| => f(lines[y][x])))
  }

  /** `toGridWithCoord(func)`: the cell function also receives the cell's coordinate. */
  function ToGridWithCoord<T>(lines: seq<string>, f: (Coordinate, char) -> T): (g: seq<seq<T>>)
    requires JavaSized(lines)
    ensures |g| == |lines|
    ensures forall y :: 0 <= y < |g| ==> |g[y]| == |lines[y]|
  {
    seq(|lines|, y requires 0 <= y < |lines| =>
      seq(|lines[y]|, x requires 0 <= x < |lines[y]| => f(Coordinate(x, y), lines[y][x])))
  }

  /** A built grid has a cell exactly where the lines have a character, and that cell holds
      the function of the character (and of its coordinate). */
  lemma {:induction false} ToGridCells<T>(lines: seq<string>, f: char -> T, h: (Coordinate, char) -> T, c: Coordinate)
    requires JavaSized(lines)
    ensures InBounds(ToGrid(lines, f), c) <==> InBounds(lines, c)
    ensures Get(ToGrid(lines, f), c) == if InBounds(lines, c) then Ok(f(lines[c.y][c.x])) else Err(IndexOutOfBounds)
    ensures Get(ToGridWithCoord(lines, h), c) == if InBounds(lines, c) then Ok(h(c, lines[c.y][c.x])) else Err(IndexOutOfBounds)
  {
  }

  // ---------------------------------------------------------------- searching lines

  /** `findFirstCoord(target)`: the first cell in row-major order holding the target, or
      `null` when none does. */
  method FindFirstCoord(lines: seq<string>, target: char) returns (r: Option<Coordinate>)
    requires JavaSized(lines)
    ensures r.Some? ==> InBounds(lines, r.value) && lines[r.value.y][r.value.x] == target
    ensures r.Some? ==> forall c :: InBounds(lines, c) && Before(c, r.value) ==> lines[c.y][c.x] != target
    ensures r.None? ==> forall c :: InBounds(lines, c) ==> lines[c.y][c.x] != target
  {
    var y := 0;
    while y < |lines|
      invariant 0 <= y <= |lines|
      invariant forall c :: InBounds(lines, c) && c.y < y ==> lines[c.y][c.x] != target
    {
      var x := 0;
      while x < |lines[y]|
        invariant 0 <= x <= |lines[y]|
        invariant forall c :: InBounds(lines, c) && (c.y < y || (c.y == y && c.x < x)) ==> lines[c.y][c.x] != target
      {
        if lines[y][x] == target {
          return Some(Coordinate(x, y));
        }
        x := x + 1;
      }
      y := y + 1;
    }
    return None;
  }

  /** `findAllCoords(target)`: exactly the cells holding the target. */
  method FindAllCoords(lines: seq<string>, target: char) returns (r: set<Coordinate>)
    requires JavaSized(lines)
    ensures forall c :: c in r <==> InBounds(lines, c) && lines[c.y][c.x] == target
  {
    r := {};
    var y := 0;
    while y < |lines|
      invariant 0 <= y <= |lines|
      invariant forall c :: c in r <==> InBounds(lines, c) && c.y < y && lines[c.y][c.x] == target
    {
      var x := 0;
      while x < |lines[y]|
        invariant 0 <= x <= |lines[y]|
        invariant forall c :: c in r <==> InBounds(lines, c) && (c.y < y || (c.y == y && c.x < x)) && lines[c.y][c.x] == target
      {
        if lines[y][x] == target {
          r := r + {Coordinate(x, y)};
        }
        x := x + 1;
      }
      y := y + 1;
    }
  }

  // ---------------------------------------------------------------- neighbours

  /** The neighbour iterators: for each direction of the list in turn, the step from the cell
      (in `int` arithmetic) paired with the direction, when `GridHelper.isValid` accepts it. */
  function Neighbors<T>(g: seq<seq<T>>, c: Coordinate, dirs: seq<Direction>): (r: seq<(Direction, Coordinate)>)
    ensures |r| <= |dirs|
  {
    if |dirs| == 0 then []
    else
      var next := ResolveDir(c, dirs[0]);
      (if InBounds(g, next) then [(dirs[0], next)] else []) + Neighbors(g, c, dirs[1..])
  }

  /** `getCardinalNeighbors`, `getOrdinalNeighbors`, `getCardinalOrdinalNeighbors`. */
  function CardinalNeighbors<T>(g: seq<seq<T>>, c: Coordinate): seq<(Direction, Coordinate)>
  {
    Neighbors(g, c, Cardinal())
  }

  function OrdinalNeighbors<T>(g: seq<seq<T>>, c: Coordinate): seq<(Direction, Coordinate)>
  {
    Neighbors(g, c, Ordinal())
  }

  function CardinalOrdinalNeighbors<T>(g: seq<seq<T>>, c: Coordinate): seq<(Direction, Coordinate)>
  {
    Neighbors(g, c, CardinalOrdinal())
  }

  /** The directions of a list of pairs. */
  function DirsOf(r: seq<(Direction, Coordinate)>): (ds: seq<Direction>)
    ensures |ds| == |r|
  {
    if |r| == 0 then [] else [r[0].0] + DirsOf(r[1..])
  }

  /** `xs` is `ys` with some elements dropped, the rest in their order. */
  predicate IsSubseq<X(==)>(xs: seq<X>, ys: seq<X>)
    decreases |ys|
  {
    if |xs| == 0 then true
    else if |ys| == 0 then false
    else (xs[0] == ys[0] && IsSubseq(xs[1..], ys[1..])) || IsSubseq(xs, ys[1..])
  }

  /** A pair is yielded exactly when its direction is listed and its step lands in the grid. */
  lemma {:induction false} NeighborsYield<T>(g: seq<seq<T>>, c: Coordinate, dirs: seq<Direction>, d: Direction, n: Coordinate)
    ensures (d, n) in Neighbors(g, c, dirs) <==> d in dirs && n == ResolveDir(c, d) && InBounds(g, n)
  {
    if |dirs| > 0 {
      NeighborsYield(g, c, dirs[1..], d, n);
      var next := ResolveDir(c, dirs[0]);
      var rest := Neighbors(g, c, dirs[1..]);
      if InBounds(g, next) {
        assert Neighbors(g, c, dirs) == [(dirs[0], next)] + rest;
      } else {
        assert Neighbors(g, c, dirs) == rest;
      }
      assert d in dirs <==> d == dirs[0] || d in dirs[1..] by {
        assert dirs == [dirs[0]] + dirs[1..];
      }
    }
  }

  /** The pairs come in the order of the list. */
  lemma {:induction false} NeighborsInOrder<T>(g: seq<seq<T>>, c: Coordinate, dirs: seq<Direction>)
    ensures IsSubseq(DirsOf(Neighbors(g, c, dirs)), dirs)
  {
    if |dirs| > 0 {
      NeighborsInOrder(g, c, dirs[1..]);
      var next := ResolveDir(c, dirs[0]);
      var rest := Neighbors(g, c, dirs[1..]);
      if InBounds(g, next) {
        assert Neighbors(g, c, dirs) == [(dirs[0], next)] + rest;
        assert DirsOf([(dirs[0], next)] + rest) == [dirs[0]] + DirsOf(rest) by {
          assert ([(dirs[0], next)] + rest)[1..] == rest;
        }
      } else {
        assert Neighbors(g, c, dirs) == rest;
      }
    }
  }

  /** In the top-left corner of a grid of at least two rows and two columns the cardinal
      neighbours are EAST and then SOUTH, and NORTH and WEST fall outside. */
  lemma {:induction false} CornerNeighbors<T>(g: seq<seq<T>>)
    requires |g| >= 2 && |g[0]| >= 2 && |g[1]| >= 1
    ensures CardinalNeighbors(g, Coordinate(0, 0)) == [(East, Coordinate(1, 0)), (South, Coordinate(0, 1))]
  {
    var c := Coordinate(0, 0);
    assert ResolveDir(c, North) == Coordinate(0, -1);
    assert ResolveDir(c, East) == Coordinate(1, 0);
    assert ResolveDir(c, South) == Coordinate(0, 1);
    assert ResolveDir(c, West) == Coordinate(-1, 0);
    assert [West][1..] == [];
    assert Neighbors(g, c, [West]) == [];
    assert [South, West][1..] == [West];
    assert Neighbors(g, c, [South, West]) == [(South, Coordinate(0, 1))];
    assert [East, South, West][1..] == [South, West];
    assert Neighbors(g, c, [East, South, West]) == [(East, Coordinate(1, 0)), (South, Coordinate(0, 1))];
    assert Cardinal()[1..] == [East, South, West];
  }

  // ---------------------------------------------------------------- the grid iterator

  /** The pairs a `GridIterator` of width `w` has yielded once it stands at `(x, y)`: every
      full row above, then the first `x` cells of row `y`; only the first `w` cells of a row
      are read whatever its own length. */
  function Walked<T>(g: seq<seq<T>>, w: int, y: int, x: int): (r: seq<(Coordinate, T)>)
    requires JavaSized(g) && 0 <= x <= w && 0 <= y
    requires (x == 0 && y <= |g|) || (y < |g| && x <= |g[y]|)
    requires forall k :: 0 <= k < y ==> w <= |g[k]|
    decreases y, x
  {
    if x == 0 && y == 0 then []
    else if x == 0 then Walked(g, w, y - 1, w)
    else Walked(g, w, y, x - 1) + [(Coordinate(x - 1, y), g[y][x - 1])]
  }

  /** The `i`-th pair of a walk of width `w`: cell `(i % w, i / w)`, inside the grid, with
      its value. */
  ghost predicate WalkCell<T>(g: seq<seq<T>>, w: int, i: int, p: (Coordinate, T))
    requires 1 <= w
  {
    p.0.x as int == i % w && p.0.y as int == i / w && InBounds(g, p.0) && p.1 == g[p.0.y][p.0.x]
  }

  /** The walk in row-major order: its `i`-th pair is cell `(i % w, i / w)`, so the walk up to
      `(x, y)` has `y * w + x` pairs and meets each cell once. */
  lemma {:induction false} WalkedShape<T>(g: seq<seq<T>>, w: int, y: int, x: int)
    requires JavaSized(g) && 0 <= x <= w && 0 <= y && 1 <= w
    requires (x == 0 && y <= |g|) || (y < |g| && x <= |g[y]|)
    requires forall k :: 0 <= k < y ==> w <= |g[k]|
    ensures |Walked(g, w, y, x)| == y * w + x
    ensures forall i :: 0 <= i < |Walked(g, w, y, x)| ==> WalkCell(g, w, i, Walked(g, w, y, x)[i])
    decreases y, x, 1
  {
    if x == 0 && y == 0 {
    } else if x == 0 {
      WalkedRowEnd(g, w, y);
    } else {
      WalkedShape(g, w, y, x - 1);
      var front := Walked(g, w, y, x - 1);
      var last := (Coordinate(x - 1, y), g[y][x - 1]);
      LastCell(g, w, y, x - 1, |front|);
      AppendCell(g, w, front, last);
    }
  }

  /** At the start of row `y` the walk holds the `y` full rows above. */
  lemma {:induction false} WalkedRowEnd<T>(g: seq<seq<T>>, w: int, y: int)
    requires JavaSized(g) && 1 <= w && 1 <= y <= |g|
    requires forall k :: 0 <= k < y ==> w <= |g[k]|
    ensures |Walked(g, w, y, 0)| == y * w
    ensures forall i :: 0 <= i < |Walked(g, w, y, 0)| ==> WalkCell(g, w, i, Walked(g, w, y, 0)[i])
    decreases y, 0, 0
  {
    assert Walked(g, w, y, 0) == Walked(g, w, y - 1, w);
    WalkedShape(g, w, y - 1, w);
    MulStep(w, y - 1);
  }

  /** The cell under the iterator is the walk's pair number `y * w + x`. */
  lemma {:induction false} LastCell<T>(g: seq<seq<T>>, w: int, y: int, x: int, k: int)
    requires JavaSized(g) && 0 <= x < w && 0 <= y < |g| && x < |g[y]| && k == y * w + x
    ensures WalkCell(g, w, k, (Coordinate(x, y), g[y][x]))
  {
    ModUnique(k, w, y, x);
  }

  lemma {:induction false} AppendCell<T>(g: seq<seq<T>>, w: int, front: seq<(Coordinate, T)>, last: (Coordinate, T))
    requires 1 <= w
    requires forall i :: 0 <= i < |front| ==> WalkCell(g, w, i, front[i])
    requires WalkCell(g, w, |front|, last)
    ensures forall i :: 0 <= i < |front| + 1 ==> WalkCell(g, w, i, (front + [last])[i])
  {
    forall i | 0 <= i < |front| + 1
      ensures WalkCell(g, w, i, (front + [last])[i])
    {
      if i < |front| {
        assert (front + [last])[i] == front[i];
      }
    }
  }

  /** One more `next()`: the walk grows by the cell under the iterator. */
  lemma {:induction false} WalkedStep<T>(g: seq<seq<T>>, w: int, y: int, x: int)
    requires JavaSized(g) && 0 <= x < w && 0 <= y < |g| && x < |g[y]|
    requires forall k :: 0 <= k < y ==> w <= |g[k]|
    ensures x + 1 < w ==> Walked(g, w, y, x + 1) == Walked(g, w, y, x) + [(Coordinate(x, y), g[y][x])]
    ensures x + 1 == w ==> Walked(g, w, y + 1, 0) == Walked(g, w, y, x) + [(Coordinate(x, y), g[y][x])]
  {
    if x + 1 == w {
      assert Walked(g, w, y + 1, 0) == Walked(g, w, y, w);
    }
  }

  lemma {:induction false} MulStep(w: int, h: int)
    ensures w * h + w == w * (h + 1)
  {
  }

  /** `GridIterator`: walks `(x, y)` over a `height`-by-`width` box reading each cell through
      `grid[coord]`; `next()` reads before it moves, so a failed read leaves it in place. */
  class GridIterator<T> {
    const height: Int32
    const width: Int32
    const cells: seq<seq<T>>
    var x: Int32
    var y: Int32

    ghost predicate Valid()
      reads this
    {
      JavaSized(cells) && height as int == |cells| && 0 <= width &&
      0 <= y <= height && 0 <= x && (x < width || x == 0) &&
      (y == height ==> x == 0) &&
      (forall k :: 0 <= k < y ==> width as int <= |cells[k]|) &&
      (y < height ==> x as int <= |cells[y]|)
    }

    /** The grid's own dimensions: `height` is its row count, `width` row 0's length. */
    constructor(g: seq<seq<T>>)
      requires JavaSized(g) && |g| >= 1
      ensures Valid()
      ensures cells == g && height as int == |g| && width as int == |g[0]| && x == 0 && y == 0
    {
      height, width, cells := |g|, |g[0]|, g;
      x, y := 0, 0;
    }

    /** `hasNext()`. */
    predicate HasNext()
      reads this
    {
      y < height
    }

    /** `next()`: the pair at `(x, y)`, then one step right, wrapping to the next row at
        `width`. */
    method Next() returns (r: Result<(Coordinate, T)>)
      requires Valid()
      modifies this
      ensures Valid()
      ensures r.Ok? <==> InBounds(cells, Coordinate(old(x), old(y)))
      ensures r.Ok? ==> r.value == (Coordinate(old(x), old(y)), cells[old(y)][old(x)])
      ensures r.Ok? && old(x) + 1 < width ==> x == old(x) + 1 && y == old(y)
      ensures r.Ok? && old(x) + 1 >= width ==> x == 0 && y == old(y) + 1
      ensures r.Err? ==> r.error == IndexOutOfBounds && x == old(x) && y == old(y)
    {
      var c := Coordinate(x, y);
      var value := Get(cells, c);
      if value.Err? {
        return Err(value.error);
      }
      x := x + 1;
      if x >= width {
        x := 0;
        y := y + 1;
      }
      r := Ok((c, value.value));
    }
  }

  /** `withCoordinate()`: iterating it yields every cell of the `height * width` box once,
      row-major, when each row is at least as long as row 0; an empty grid throws at
      `this[0]`, and a shorter row, or a row 0 of length zero, throws at the first cell it
      lacks. */
  method WithCoordinate<T>(g: seq<seq<T>>) returns (r: Result<seq<(Coordinate, T)>>)
    requires JavaSized(g)
    ensures r.Ok? <==> |g| >= 1 && |g[0]| >= 1 && forall k :: 0 <= k < |g| ==> |g[0]| <= |g[k]|
    ensures r.Ok? ==> r.value == Walked(g, |g[0]|, |g|, 0)
    ensures r.Err? ==> r.error == IndexOutOfBounds
  {
    if |g| == 0 {
      return Err(IndexOutOfBounds);
    }
    var it := new GridIterator<T>(g);
    var items := [];
    while it.HasNext()
      invariant it.Valid() && it.cells == g && it.height as int == |g| && it.width as int == |g[0]|
      invariant items == Walked(g, |g[0]|, it.y as int, it.x as int)
      invariant |g[0]| == 0 ==> it.y == 0
      decreases it.height - it.y, it.width - it.x
    {
      ghost var x0, y0 := it.x as int, it.y as int;
      var next := it.Next();
      if next.Err? {
        assert |g[y0]| <= x0;
        return Err(IndexOutOfBounds);
      }
      WalkedStep(g, |g[0]|, y0, x0);
      items := items + [next.value];
    }
    if |g[0]| == 0 {
      return Err(IndexOutOfBounds);
    }
    return Ok(items);
  }

  // ---------------------------------------------------------------- row-major folds

  /** The cells `forEach2D` visits, every row with its own length, as (coordinate, value)
      pairs: rows `0 .. y - 1` in full. */
  function Cells<T>(g: seq<seq<T>>, y: nat): (r: seq<(Coordinate, T)>)
    requires JavaSized(g) && y <= |g|
  {
    if y == 0 then [] else Cells(g, y - 1) + RowCells(g, y - 1, |g[y - 1]|)
  }

  /** The first `x` cells of row `y`. */
  function RowCells<T>(g: seq<seq<T>>, y: nat, x: nat): (r: seq<(Coordinate, T)>)
    requires JavaSized(g) && y < |g| && x <= |g[y]|
  {
    if x == 0 then [] else RowCells(g, y, x - 1) + [(Coordinate(x - 1, y), g[y][x - 1])]
  }

  /** All the cells of the grid. */
  function AllCells<T>(g: seq<seq<T>>): seq<(Coordinate, T)>
    requires JavaSized(g)
  {
    Cells(g, |g|)
  }

  /** Partial walk `(x, y)`: the full rows above and the first `x` cells of row `y`. */
  function Visited<T>(g: seq<seq<T>>, y: nat, x: nat): seq<(Coordinate, T)>
    requires JavaSized(g) && y < |g| && x <= |g[y]|
  {
    Cells(g, y) + RowCells(g, y, x)
  }

  /** The partial walks start each row at its full predecessors, grow one cell at a time
      and end where the next row begins. */
  lemma {:induction false} VisitedSteps<T>(g: seq<seq<T>>, y: nat, x: nat)
    requires JavaSized(g) && y < |g| && x < |g[y]|
    ensures Visited(g, y, 0) == Cells(g, y)
    ensures Visited(g, y, x + 1) == Visited(g, y, x) + [(Coordinate(x, y), g[y][x])]
    ensures Visited(g, y, |g[y]|) == Cells(g, y + 1)
  {
    assert Cells(g, y) + [] == Cells(g, y);
  }

  lemma {:induction false} VisitedEmptyRow<T>(g: seq<seq<T>>, y: nat)
    requires JavaSized(g) && y < |g|
    ensures Visited(g, y, 0) == Cells(g, y)
    ensures Visited(g, y, |g[y]|) == Cells(g, y + 1)
  {
    assert Cells(g, y) + [] == Cells(g, y);
  }

  lemma {:induction false} RowCellsMembers<T>(g: seq<seq<T>>, y: nat, x: nat, p: (Coordinate, T))
    requires JavaSized(g) && y < |g| && x <= |g[y]|
    ensures p in RowCells(g, y, x) <==> p.0.y as int == y && 0 <= p.0.x < x && p.1 == g[y][p.0.x]
  {
    if x > 0 {
      RowCellsMembers(g, y, x - 1, p);
    }
  }

  /** `forEach2D` meets exactly the cells of the grid, each with its value. */
  lemma {:induction false} CellsMembers<T>(g: seq<seq<T>>, y: nat, p: (Coordinate, T))
    requires JavaSized(g) && y <= |g|
    ensures p in Cells(g, y) <==> InBounds(g, p.0) && p.0.y < y && p.1 == g[p.0.y][p.0.x]
  {
    if y > 0 {
      CellsMembers(g, y - 1, p);
      RowCellsMembers(g, y - 1, |g[y - 1]|, p);
    }
  }

  /** ... in strictly increasing row-major order, so no cell is met twice. */
  lemma {:induction false} CellsOrdered<T>(g: seq<seq<T>>, y: nat)
    requires JavaSized(g) && y <= |g|
    ensures forall i, j :: 0 <= i < j < |Cells(g, y)| ==> Before(Cells(g, y)[i].0, Cells(g, y)[j].0)
    ensures forall i :: 0 <= i < |Cells(g, y)| ==> Cells(g, y)[i].0.y < y
  {
    if y > 0 {
      CellsOrdered(g, y - 1);
      RowCellsOrdered(g, y - 1, |g[y - 1]|);
    }
  }

  lemma {:induction false} RowCellsOrdered<T>(g: seq<seq<T>>, y: nat, x: nat)
    requires JavaSized(g) && y < |g| && x <= |g[y]|
    ensures forall i, j :: 0 <= i < j < |RowCells(g, y, x)| ==> Before(RowCells(g, y, x)[i].0, RowCells(g, y, x)[j].0)
    ensures forall i :: 0 <= i < |RowCells(g, y, x)| ==> RowCells(g, y, x)[i].0.y as int == y && RowCells(g, y, x)[i].0.x < x
    ensures |RowCells(g, y, x)| == x
  {
    if x > 0 {
      RowCellsOrdered(g, y, x - 1);
    }
  }

  /** The number of cells: the sum of the row lengths. */
  function TotalCells<T>(g: seq<seq<T>>, y: nat): nat
    requires y <= |g|
  {
    if y == 0 then 0 else TotalCells(g, y - 1) + |g[y - 1]|
  }

  lemma {:induction false} CellsCount<T>(g: seq<seq<T>>, y: nat)
    requires JavaSized(g) && y <= |g|
    ensures |Cells(g, y)| == TotalCells(g, y)
  {
    if y > 0 {
      CellsCount(g, y - 1);
      RowCellsOrdered(g, y - 1, |g[y - 1]|);
    }
  }

  /** The transformed cells, in order. */
  function MapCells<T, R>(f: (Coordinate, T) -> R, cs: seq<(Coordinate, T)>): (r: seq<R>)
    ensures |r| == |cs|
    ensures forall i :: 0 <= i < |cs| ==> r[i] == f(cs[i].0, cs[i].1)
  {
    if |cs| == 0 then [] else MapCells(f, cs[..|cs| - 1]) + [f(cs[|cs| - 1].0, cs[|cs| - 1].1)]
  }

  /** The cells satisfying the predicate, in order. */
  function FilterCells<T>(p: (Coordinate, T) -> bool, cs: seq<(Coordinate, T)>): (r: seq<(Coordinate, T)>)
    ensures |r| <= |cs|
  {
    if |cs| == 0 then []
    else FilterCells(p, cs[..|cs| - 1]) + (if p(cs[|cs| - 1].0, cs[|cs| - 1].1) then [cs[|cs| - 1]] else [])
  }

  /** The `Int` and the `Long` selector values added up exactly. */
  function ExactSum32<T>(f: (Coordinate, T) -> Int32, cs: seq<(Coordinate, T)>): int
  {
    if |cs| == 0 then 0 else ExactSum32(f, cs[..|cs| - 1]) + f(cs[|cs| - 1].0, cs[|cs| - 1].1)
  }

  function ExactSum64<T>(f: (Coordinate, T) -> Int64, cs: seq<(Coordinate, T)>): int
  {
    if |cs| == 0 then 0 else ExactSum64(f, cs[..|cs| - 1]) + f(cs[|cs| - 1].0, cs[|cs| - 1].1)
  }

  /** Each fold takes one more cell at the end. */
  lemma {:induction false} FoldsSnoc<T, R>(f: (Coordinate, T) -> R, p: (Coordinate, T) -> bool, cs: seq<(Coordinate, T)>, e: (Coordinate, T))
    ensures MapCells(f, cs + [e]) == MapCells(f, cs) + [f(e.0, e.1)]
    ensures FilterCells(p, cs + [e]) == FilterCells(p, cs) + (if p(e.0, e.1) then [e] else [])
  {
    assert (cs + [e])[..|cs|] == cs;
  }

  /** A filtered cell is a cell satisfying the predicate, and every such cell is kept. */
  lemma {:induction false} FilterMembers<T>(p: (Coordinate, T) -> bool, cs: seq<(Coordinate, T)>, e: (Coordinate, T))
    ensures e in FilterCells(p, cs) <==> e in cs && p(e.0, e.1)
  {
    if |cs| > 0 {
      FilterMembers(p, cs[..|cs| - 1], e);
      assert cs == cs[..|cs| - 1] + [cs[|cs| - 1]];
    }
  }

  /** The cells a predicate keeps and those its negation keeps are all the cells. */
  lemma {:induction false} FilterSplit<T>(p: (Coordinate, T) -> bool, cs: seq<(Coordinate, T)>)
    ensures |FilterCells(p, cs)| + |FilterCells((c, t) => !p(c, t), cs)| == |cs|
  {
    if |cs| > 0 {
      FilterSplit(p, cs[..|cs| - 1]);
    }
  }

  /** The running `Int` counter of `count2D` and the running sums of `sumOf2D`, each step
      one Java addition. */
  function CountWrapped<T>(p: (Coordinate, T) -> bool, cs: seq<(Coordinate, T)>): Int32
  {
    if |cs| == 0 then 0
    else Add32(CountWrapped(p, cs[..|cs| - 1]), if p(cs[|cs| - 1].0, cs[|cs| - 1].1) then 1 else 0)
  }

  function SumWrapped32<T>(f: (Coordinate, T) -> Int32, cs: seq<(Coordinate, T)>): Int32
  {
    if |cs| == 0 then 0 else Add32(SumWrapped32(f, cs[..|cs| - 1]), f(cs[|cs| - 1].0, cs[|cs| - 1].1))
  }

  function SumWrapped64<T>(f: (Coordinate, T) -> Int64, cs: seq<(Coordinate, T)>): Int64
  {
    if |cs| == 0 then 0 else Add64(SumWrapped64(f, cs[..|cs| - 1]), f(cs[|cs| - 1].0, cs[|cs| - 1].1))
  }

  lemma {:induction false} WrappedSnoc<T>(p: (Coordinate, T) -> bool, f: (Coordinate, T) -> Int32, h: (Coordinate, T) -> Int64,
                       cs: seq<(Coordinate, T)>, e: (Coordinate, T))
    ensures CountWrapped(p, cs + [e]) == if p(e.0, e.1) then Add32(CountWrapped(p, cs), 1) else CountWrapped(p, cs)
    ensures SumWrapped32(f, cs + [e]) == Add32(SumWrapped32(f, cs), f(e.0, e.1))
    ensures SumWrapped64(h, cs + [e]) == Add64(SumWrapped64(h, cs), h(e.0, e.1))
  {
    assert (cs + [e])[..|cs|] == cs;
  }

  /** The counter is the number of selected cells wrapped to 32 bits, and each running sum is
      the exact sum of the selector values wrapped to the width of the sum. */
  lemma {:induction false} CountWrappedIsWrap<T>(p: (Coordinate, T) -> bool, cs: seq<(Coordinate, T)>)
    ensures CountWrapped(p, cs) as int == Wrap32(|FilterCells(p, cs)|)
  {
    if |cs| > 0 {
      var front, e := cs[..|cs| - 1], cs[|cs| - 1];
      CountWrappedIsWrap(p, front);
      WrapStep32(CountWrapped(p, front), |FilterCells(p, front)|, if p(e.0, e.1) then 1 else 0);
    }
  }

  lemma {:induction false} SumWrapped32IsWrap<T>(f: (Coordinate, T) -> Int32, cs: seq<(Coordinate, T)>)
    ensures SumWrapped32(f, cs) as int == Wrap32(ExactSum32(f, cs))
  {
    if |cs| > 0 {
      var front, e := cs[..|cs| - 1], cs[|cs| - 1];
      SumWrapped32IsWrap(f, front);
      WrapStep32(SumWrapped32(f, front), ExactSum32(f, front), f(e.0, e.1));
    }
  }

  lemma {:induction false} SumWrapped64IsWrap<T>(f: (Coordinate, T) -> Int64, cs: seq<(Coordinate, T)>)
    ensures SumWrapped64(f, cs) as int == Wrap64(ExactSum64(f, cs))
  {
    if |cs| > 0 {
      var front, e := cs[..|cs| - 1], cs[|cs| - 1];
      SumWrapped64IsWrap(f, front);
      WrapStep64(SumWrapped64(f, front), ExactSum64(f, front), f(e.0, e.1));
    }
  }

  /** `forEach2D(action)`: the action's calls in order, every row with its own length, each
      call given the cell's coordinate and value. */
  method ForEach2D<T>(g: seq<seq<T>>) returns (calls: seq<(Coordinate, T)>)
    requires JavaSized(g)
    ensures calls == AllCells(g)
  {
    calls := [];
    var y := 0;
    while y < |g|
      invariant 0 <= y <= |g|
      invariant calls == Cells(g, y)
    {
      VisitedEmptyRow(g, y);
      var x := 0;
      while x < |g[y]|
        invariant 0 <= x <= |g[y]|
        invariant calls == Visited(g, y, x)
      {
        VisitedSteps(g, y, x);
        calls := calls + [(Coordinate(x, y), g[y][x])];
        x := x + 1;
      }
      y := y + 1;
    }
  }

  /** `map2D(transform)`: each call of the action appends the transformed cell. */
  method Map2D<T, R>(g: seq<seq<T>>, f: (Coordinate, T) -> R) returns (list: seq<R>)
    requires JavaSized(g)
    ensures list == MapCells(f, AllCells(g))
  {
    var calls := ForEach2D(g);
    list := [];
    for i := 0 to |calls|
      invariant list == MapCells(f, calls[..i])
    {
      FoldsSnoc(f, (c, t) => false, calls[..i], calls[i]);
      assert calls[..i + 1] == calls[..i] + [calls[i]];
      list := list + [f(calls[i].0, calls[i].1)];
    }
    assert calls[..|calls|] == calls;
  }

  /** `filter2D(predicate)`: each call appends the cell when the predicate accepts it. */
  method Filter2D<T>(g: seq<seq<T>>, p: (Coordinate, T) -> bool) returns (list: seq<(Coordinate, T)>)
    requires JavaSized(g)
    ensures list == FilterCells(p, AllCells(g))
  {
    var calls := ForEach2D(g);
    list := [];
    for i := 0 to |calls|
      invariant list == FilterCells(p, calls[..i])
    {
      FoldsSnoc((c, t) => 0, p, calls[..i], calls[i]);
      assert calls[..i + 1] == calls[..i] + [calls[i]];
      if p(calls[i].0, calls[i].1) {
        list := list + [calls[i]];
      }
    }
    assert calls[..|calls|] == calls;
  }

  /** `count2D(selector)`: an `Int` counter bumped once per selected cell. */
  method Count2D<T>(g: seq<seq<T>>, p: (Coordinate, T) -> bool) returns (n: Int32)
    requires JavaSized(g)
    ensures n == CountWrapped(p, AllCells(g))
  {
    var calls := ForEach2D(g);
    n := 0;
    for i := 0 to |calls|
      invariant n == CountWrapped(p, calls[..i])
    {
      WrappedSnoc(p, (c, t) => 0, (c, t) => 0, calls[..i], calls[i]);
      assert calls[..i + 1] == calls[..i] + [calls[i]];
      if p(calls[i].0, calls[i].1) {
        n := Add32(n, 1);
      }
    }
    assert calls[..|calls|] == calls;
  }

  /** `sumOf2D(selector)` with an `Int` selector: `sum += selector(coord, t)` in `Int`. */
  method SumOf2D<T>(g: seq<seq<T>>, f: (Coordinate, T) -> Int32) returns (s: Int32)
    requires JavaSized(g)
    ensures s == SumWrapped32(f, AllCells(g))
  {
    var calls := ForEach2D(g);
    s := 0;
    for i := 0 to |calls|
      invariant s == SumWrapped32(f, calls[..i])
    {
      WrappedSnoc((c, t) => false, f, (c, t) => 0, calls[..i], calls[i]);
      assert calls[..i + 1] == calls[..i] + [calls[i]];
      s := Add32(s, f(calls[i].0, calls[i].1));
    }
    assert calls[..|calls|] == calls;
  }

  /** `sumOf2D(selector)` with a `Long` selector: `sum += selector(coord, t)` in `Long`. */
  method SumOf2DLong<T>(g: seq<seq<T>>, f: (Coordinate, T) -> Int64) returns (s: Int64)
    requires JavaSized(g)
    ensures s == SumWrapped64(f, AllCells(g))
  {
    var calls := ForEach2D(g);
    s := 0;
    for i := 0 to |calls|
      invariant s == SumWrapped64(f, calls[..i])
    {
      WrappedSnoc((c, t) => false, (c, t) => 0, f, calls[..i], calls[i]);
      assert calls[..i + 1] == calls[..i] + [calls[i]];
      s := Add64(s, f(calls[i].0, calls[i].1));
    }
    assert calls[..|calls|] == calls;
  }

  /** With fewer cells than `Int.MAX_VALUE`, `count2D` is the exact number of selected cells,
      and the selected and unselected counts add up to the number of cells. */
  lemma {:induction false} CountExact<T>(g: seq<seq<T>>, p: (Coordinate, T) -> bool)
    requires JavaSized(g) && TotalCells(g, |g|) <= INT_MAX
    ensures CountWrapped(p, AllCells(g)) as int == |FilterCells(p, AllCells(g))|
    ensures |FilterCells(p, AllCells(g))| + |FilterCells((c, t) => !p(c, t), AllCells(g))| == TotalCells(g, |g|)
  {
    CellsCount(g, |g|);
    FilterSplit(p, AllCells(g));
    CountWrappedIsWrap(p, AllCells(g));
  }
}
