/** `Day04.kt`: a grid of paper rolls (`@`). A roll is accessible when fewer than four of its
    in-grid neighbours, the eight around it, are rolls. `part1` counts the accessible rolls;
    `part2` keeps sweeping the grid in row-major order, clearing every roll that is accessible
    when the sweep reaches it, until a sweep clears nothing, and counts the rolls cleared. */
module Day04 {
  import opened Wrappers
  import opened JavaInt
  import opened Directions
  import opened Coordinates
  import opened Grids

  // ---------------------------------------------------------------- cells and neighbours

  /** `toBooleanGrid { it == '@' }`: a cell holds a roll iff its character is `@`. */
  function IsRoll(ch: char): bool
  {
    ch == '@'
  }

  /** Every neighbour `getCardinalOrdinalNeighbors` yields lies in the grid. */
  lemma {:induction false} NeighborsInside(g: seq<seq<bool>>, c: Coordinate)
    ensures forall i :: 0 <= i < |CardinalOrdinalNeighbors(g, c)| ==> InBounds(g, CardinalOrdinalNeighbors(g, c)[i].1)
  {
    var ns := CardinalOrdinalNeighbors(g, c);
    forall i | 0 <= i < |ns|
      ensures InBounds(g, ns[i].1)
    {
      NeighborsYield(g, c, CardinalOrdinal(), ns[i].0, ns[i].1);
    }
  }

  /** `count { (_, neighbor) -> grid[neighbor] }` over a list of neighbours in the grid. */
  function RollsAmong(g: seq<seq<bool>>, ns: seq<(Direction, Coordinate)>): (n: nat)
    requires forall i :: 0 <= i < |ns| ==> InBounds(g, ns[i].1)
    ensures n <= |ns|
  {
    if |ns| == 0 then 0
    else
      var n := ns[|ns| - 1].1;
      assert InBounds(g, n);
      RollsAmong(g, ns[..|ns| - 1]) + (if g[n.y][n.x] then 1 else 0)
  }

  /** `isAccessible(coord, isRoll)`: a roll with fewer than four rolls among its neighbours. */
  function Accessible(g: seq<seq<bool>>, c: Coordinate, isRoll: bool): bool
  {
    isRoll && (NeighborsInside(g, c); RollsAmong(g, CardinalOrdinalNeighbors(g, c)) < 4)
  }

  /** `::isAccessible` as the selector `count2D` calls. */
  function AccessibleIn(g: seq<seq<bool>>): (Coordinate, bool) -> bool
  {
    (c, t) => Accessible(g, c, t)
  }

  /** A roll with at most three neighbours at all, such as a roll in a corner, is accessible,
      and so is a roll whose neighbours hold no roll. */
  lemma {:induction false} FewNeighbors(g: seq<seq<bool>>, c: Coordinate)
    requires |CardinalOrdinalNeighbors(g, c)| <= 3
    ensures Accessible(g, c, true)
  {
    NeighborsInside(g, c);
  }

  // ---------------------------------------------------------------- counting rolls

  /** The rolls in a row and in a grid. */
  function RowRolls(r: seq<bool>): nat
  {
    if |r| == 0 then 0 else RowRolls(r[..|r| - 1]) + (if r[|r| - 1] then 1 else 0)
  }

  function Rolls(g: seq<seq<bool>>): nat
  {
    if |g| == 0 then 0 else Rolls(g[..|g| - 1]) + RowRolls(g[|g| - 1])
  }

  /** Writing one cell of a row changes its count by that cell alone. */
  lemma {:induction false} RowRollsWrite(r: seq<bool>, x: nat, v: bool)
    requires x < |r|
    ensures RowRolls(r[x := v]) + (if r[x] then 1 else 0) == RowRolls(r) + (if v then 1 else 0)
  {
    var n := |r| - 1;
    if x == n {
      assert r[x := v][..n] == r[..n];
    } else {
      assert r[x := v][..n] == r[..n][x := v];
      RowRollsWrite(r[..n], x, v);
    }
  }

  /** Replacing one row changes the grid's count by the difference of the two rows. */
  lemma {:induction false} RollsReplace(g: seq<seq<bool>>, y: nat, r: seq<bool>)
    requires y < |g|
    ensures Rolls(g[y := r]) + RowRolls(g[y]) == Rolls(g) + RowRolls(r)
  {
    var n := |g| - 1;
    if y == n {
      assert g[y := r][..n] == g[..n];
    } else {
      assert g[y := r][..n] == g[..n][y := r];
      RollsReplace(g[..n], y, r);
    }
  }

  /** Clearing a roll leaves one roll fewer. */
  lemma {:induction false} ClearOne(g: seq<seq<bool>>, c: Coordinate)
    requires InBounds(g, c) && g[c.y][c.x]
    ensures Rolls(Updated(g, c, false)) + 1 == Rolls(g)
  {
    RowRollsWrite(g[c.y], c.x, false);
    RollsReplace(g, c.y, g[c.y][c.x := false]);
  }

  // ---------------------------------------------------------------- one sweep

  /** Two grids with the same rows of the same lengths. */
  predicate SameShape(g: seq<seq<bool>>, h: seq<seq<bool>>)
  {
    |g| == |h| && forall y :: 0 <= y < |g| ==> |g[y]| == |h[y]|
  }

  /** `h` holds a roll only where `g` does. */
  predicate Cleared(g: seq<seq<bool>>, h: seq<seq<bool>>)
    requires SameShape(g, h)
  {
    forall y, x :: 0 <= y < |g| && 0 <= x < |g[y]| && h[y][x] ==> g[y][x]
  }

  /** Every coordinate of a list of cells lies in the grid. */
  predicate Inside(g: seq<seq<bool>>, cs: seq<(Coordinate, bool)>)
  {
    forall i :: 0 <= i < |cs| ==> InBounds(g, cs[i].0)
  }

  lemma {:induction false} AllCellsInside(g: seq<seq<bool>>)
    requires JavaSized(g)
    ensures Inside(g, AllCells(g))
  {
    forall i | 0 <= i < |AllCells(g)|
      ensures InBounds(g, AllCells(g)[i].0)
    {
      CellsMembers(g, |g|, AllCells(g)[i]);
    }
  }

  /** One `count2D` pass of `part2` over the given cells in order: each cell that is an
      accessible roll in the grid as it stands when the pass reaches it is cleared, so later
      cells see the earlier clearings. The result is the new grid and the number cleared. */
  function Sweep(g: seq<seq<bool>>, cs: seq<(Coordinate, bool)>): (r: (seq<seq<bool>>, nat))
    ensures SameShape(g, r.0)
  {
    if |cs| == 0 then (g, 0)
    else
      var p := Sweep(g, cs[..|cs| - 1]);
      Visit(p.0, p.1, cs[|cs| - 1].0)
  }

  /** The selector at one cell: the roll there is cleared and counted if it is accessible in
      the grid as it now is. (Every cell a pass visits is in the grid; outside it nothing
      happens.) */
  function Visit(h: seq<seq<bool>>, n: nat, c: Coordinate): (r: (seq<seq<bool>>, nat))
    ensures SameShape(h, r.0)
  {
    if InBounds(h, c) && Accessible(h, c, h[c.y][c.x]) then (Updated(h, c, false), n + 1) else (h, n)
  }

  /** A sweep only clears rolls, and it clears exactly as many as it counts. */
  lemma {:induction false} SweepClears(g: seq<seq<bool>>, cs: seq<(Coordinate, bool)>)
    ensures Cleared(g, Sweep(g, cs).0)
    ensures Rolls(Sweep(g, cs).0) + Sweep(g, cs).1 == Rolls(g)
  {
    if |cs| > 0 {
      var front := cs[..|cs| - 1];
      SweepClears(g, front);
      var p := Sweep(g, front);
      var c := cs[|cs| - 1].0;
      if InBounds(p.0, c) && Accessible(p.0, c, p.0[c.y][c.x]) {
        ClearOne(p.0, c);
      }
    }
  }

  /** A sweep that clears nothing leaves the grid as it was, and then none of its cells was
      an accessible roll. */
  lemma {:induction false} SweepNothing(g: seq<seq<bool>>, cs: seq<(Coordinate, bool)>)
    requires Inside(g, cs) && Sweep(g, cs).1 == 0
    ensures Sweep(g, cs).0 == g
    ensures forall i :: 0 <= i < |cs| ==> !Accessible(g, cs[i].0, g[cs[i].0.y][cs[i].0.x])
  {
    if |cs| > 0 {
      var front := cs[..|cs| - 1];
      assert Inside(g, front);
      SweepNothing(g, front);
      assert InBounds(g, cs[|cs| - 1].0);
      forall i | 0 <= i < |cs|
        ensures !Accessible(g, cs[i].0, g[cs[i].0.y][cs[i].0.x])
      {
        if i < |cs| - 1 {
          assert cs[i] == front[i];
        }
      }
    }
  }

  /** A pass part way: `g` and `n` are the grid and the exact count after sweeping `cs` from
      `g0`, and `count` is that count in an `Int` counter. */
  predicate Swept(g: seq<seq<bool>>, g0: seq<seq<bool>>, cs: seq<(Coordinate, bool)>, n: nat, count: Int32)
  {
    g == Sweep(g0, cs).0 && n == Sweep(g0, cs).1 && count == Count32(n)
  }

  /** The pass over the whole grid. */
  function FullSweep(g: seq<seq<bool>>): (r: (seq<seq<bool>>, nat))
    requires JavaSized(g)
    ensures SameShape(g, r.0) && JavaSized(r.0)
  {
    Sweep(g, AllCells(g))
  }

  /** A full sweep that clears nothing finds no accessible roll anywhere. */
  lemma {:induction false} FullSweepNothing(g: seq<seq<bool>>, c: Coordinate)
    requires JavaSized(g) && FullSweep(g).1 == 0 && InBounds(g, c)
    ensures FullSweep(g).0 == g && !Accessible(g, c, g[c.y][c.x])
  {
    AllCellsInside(g);
    SweepNothing(g, AllCells(g));
    CellsMembers(g, |g|, (c, g[c.y][c.x]));
    var i :| 0 <= i < |AllCells(g)| && AllCells(g)[i] == (c, g[c.y][c.x]);
  }

  // ---------------------------------------------------------------- sweeping until stable

  /** `generateSequence(0) { ... }.last()`: sweep; a sweep whose `Int` count is 0 ends the
      sequence, any other adds its count. The result is the final grid, the exact number
      cleared by the counted sweeps, and the number of sweeps run. */
  function Settle(g: seq<seq<bool>>): (r: (seq<seq<bool>>, nat, nat))
    requires JavaSized(g)
    ensures SameShape(g, r.0) && r.2 >= 1
    decreases Rolls(g)
  {
    var p := FullSweep(g);
    if Count32(p.1) == 0 then (p.0, 0, 1)
    else
      SweepClears(g, AllCells(g));
      var r := Settle(p.0);
      (r.0, p.1 + r.1, r.2 + 1)
  }

  /** One step of `Settle`: a sweep counted as 0 ends it; any other clears at least one roll
      and is followed by the rest. */
  lemma {:induction false} SettleStep(g: seq<seq<bool>>)
    requires JavaSized(g)
    ensures Count32(FullSweep(g).1) == 0 ==> Settle(g).0 == FullSweep(g).0 && Settle(g).1 == 0 && Settle(g).2 == 1
    ensures Count32(FullSweep(g).1) != 0 ==>
              FullSweep(g).1 >= 1 && Rolls(FullSweep(g).0) < Rolls(g) &&
              Settle(g).0 == Settle(FullSweep(g).0).0 && Settle(g).1 == FullSweep(g).1 + Settle(FullSweep(g).0).1 &&
              Settle(g).2 == Settle(FullSweep(g).0).2 + 1
  {
    AllCellsInside(g);
    SweepClears(g, AllCells(g));
  }

  /** A sweep counted as nonzero clears at least one roll, so sweeps never outnumber the rolls
      by more than the final one, and the grid only loses rolls. */
  lemma {:induction false} SettleBounds(g: seq<seq<bool>>)
    requires JavaSized(g)
    ensures Cleared(g, Settle(g).0)
    ensures Settle(g).2 <= Rolls(g) + 1
    decreases Rolls(g)
  {
    AllCellsInside(g);
    SweepClears(g, AllCells(g));
    var (h, n) := FullSweep(g);
    if Count32(n) != 0 {
      SettleBounds(h);
    }
  }

  /** With fewer cells than `Int.MAX_VALUE`, the sweeps stop only when nothing is accessible,
      and the count is the number of rolls that disappeared. */
  lemma {:induction false} SettleStable(g: seq<seq<bool>>)
    requires JavaSized(g) && TotalCells(g, |g|) <= INT_MAX
    ensures Rolls(Settle(g).0) + Settle(g).1 == Rolls(g)
    ensures forall c :: InBounds(Settle(g).0, c) ==> !Accessible(Settle(g).0, c, Settle(g).0[c.y][c.x])
    decreases Rolls(g)
  {
    AllCellsInside(g);
    SweepClears(g, AllCells(g));
    var (h, n) := FullSweep(g);
    CellsCount(g, |g|);
    assert n <= Rolls(g) <= TotalCells(g, |g|) by {
      RollsAtMostCells(g);
    }
    Count32Wraps(n);
    if n == 0 {
      SweepNothing(g, AllCells(g));
      assert Settle(g).0 == g;
      forall c | InBounds(g, c)
        ensures !Accessible(g, c, g[c.y][c.x])
      {
        FullSweepNothing(g, c);
      }
    } else {
      SameShapeCells(g, h, |g|);
      SettleStable(h);
    }
  }

  /** A grid holds no more rolls than cells. */
  lemma {:induction false} RollsAtMostCells(g: seq<seq<bool>>)
    ensures Rolls(g) <= TotalCells(g, |g|)
  {
    if |g| > 0 {
      var n := |g| - 1;
      RollsAtMostCells(g[..n]);
      RowRollsAtMost(g[n]);
      SameRowsCells(g, g[..n], n);
    }
  }

  lemma {:induction false} RowRollsAtMost(r: seq<bool>)
    ensures RowRolls(r) <= |r|
  {
    if |r| > 0 {
      RowRollsAtMost(r[..|r| - 1]);
    }
  }

  /** The cell count of the first `y` rows depends on those rows alone. */
  lemma {:induction false} SameRowsCells(g: seq<seq<bool>>, h: seq<seq<bool>>, y: nat)
    requires y <= |g| && y <= |h| && forall i :: 0 <= i < y ==> |g[i]| == |h[i]|
    ensures TotalCells(g, y) == TotalCells(h, y)
  {
    if y > 0 {
      SameRowsCells(g, h, y - 1);
    }
  }

  lemma {:induction false} SameShapeCells(g: seq<seq<bool>>, h: seq<seq<bool>>, y: nat)
    requires SameShape(g, h) && y <= |g|
    ensures TotalCells(g, y) == TotalCells(h, y)
  {
    SameRowsCells(g, h, y);
  }

  /** `parse` keeps the shape of the input, and a cell holds a roll iff its character is `@`. */
  lemma {:induction false} ParsedRolls(lines: seq<string>, c: Coordinate)
    requires JavaSized(lines)
    ensures JavaSized(ToGrid(lines, IsRoll))
    ensures InBounds(ToGrid(lines, IsRoll), c) <==> InBounds(lines, c)
    ensures InBounds(lines, c) ==> (ToGrid(lines, IsRoll)[c.y][c.x] <==> lines[c.y][c.x] == '@')
  {
    var g := ToGrid(lines, IsRoll);
    assert forall y :: 0 <= y < |g| ==> |g[y]| == |lines[y]|;
  }

  /** What `part1` counts: with fewer cells than `Int.MAX_VALUE` the count is exact, and the
      cells counted are exactly the accessible rolls of the grid. */
  lemma {:induction false} AccessibleCount(g: seq<seq<bool>>, e: (Coordinate, bool))
    requires JavaSized(g) && TotalCells(g, |g|) <= INT_MAX
    ensures CountWrapped(AccessibleIn(g), AllCells(g)) as int == |FilterCells(AccessibleIn(g), AllCells(g))|
    ensures e in FilterCells(AccessibleIn(g), AllCells(g)) <==>
              InBounds(g, e.0) && e.1 == g[e.0.y][e.0.x] && Accessible(g, e.0, e.1)
  {
    CountExact(g, AccessibleIn(g));
    FilterMembers(AccessibleIn(g), AllCells(g), e);
    CellsMembers(g, |g|, e);
  }

  // ---------------------------------------------------------------- the solver object

  /** `Day04`: the grid that `parse` builds and `part2` clears in place. */
  class Solver {
    var grid: seq<seq<bool>>

    constructor()
      ensures grid == []
    {
      grid := [];
    }

    /** `parse()`: one row per line, a roll wherever the line has `@`. */
    method Parse(lines: seq<string>)
      modifies this
      ensures grid == ToGrid(lines, IsRoll)
    {
      grid := ToGrid(lines, IsRoll);
    }

    /** `part1()`: `count2D` of the accessible cells, in an `Int` counter. */
    method Part1() returns (n: Int32)
      requires JavaSized(grid)
      ensures n == CountWrapped(AccessibleIn(grid), AllCells(grid))
    {
      n := Count2D(grid, AccessibleIn(grid));
    }

    /** One pass of `part2`: `count2D` whose selector clears each accessible roll as the scan
        reaches it, and counts it in an `Int`. */
    method Pass() returns (toAdd: Int32)
      requires JavaSized(grid)
      modifies this
      ensures grid == FullSweep(old(grid)).0
      ensures toAdd == Count32(FullSweep(old(grid)).1)
    {
      ghost var g0 := grid;
      ghost var n := 0;
      toAdd := 0;
      var y := 0;
      while y < |grid|
        invariant 0 <= y <= |g0|
        invariant Swept(grid, g0, Cells(g0, y), n, toAdd)
      {
        n, toAdd := SweepRow(y, g0, n, toAdd);
        y := y + 1;
      }
    }

    /** The inner loop of one pass: row `y`, left to right. */
    method SweepRow(y: int, ghost g0: seq<seq<bool>>, ghost n: nat, toAdd: Int32) returns (ghost n': nat, toAdd': Int32)
      requires JavaSized(g0) && 0 <= y < |g0|
      requires Swept(grid, g0, Cells(g0, y), n, toAdd)
      modifies this
      ensures Swept(grid, g0, Cells(g0, y + 1), n', toAdd')
    {
      VisitedEmptyRow(g0, y);
      n', toAdd' := n, toAdd;
      var width := |grid[y]|;
      assert width == |g0[y]|;
      var x := 0;
      while x < width
        invariant 0 <= x <= width
        invariant Swept(grid, g0, Visited(g0, y, x), n', toAdd')
      {
        VisitedSteps(g0, y, x);
        n', toAdd' := Select(Coordinate(x, y), g0, Visited(g0, y, x), g0[y][x], n', toAdd');
        x := x + 1;
      }
      assert Visited(g0, y, x) == Cells(g0, y + 1);
    }

    /** The selector of one pass at one cell: clears the roll there if it is accessible in
        the grid as it now is, and counts it. */
    method Select(c: Coordinate, ghost g0: seq<seq<bool>>, ghost front: seq<(Coordinate, bool)>, ghost t: bool,
                  ghost n: nat, toAdd: Int32) returns (ghost n': nat, toAdd': Int32)
      requires InBounds(grid, c)
      requires Swept(grid, g0, front, n, toAdd)
      modifies this
      ensures Swept(grid, g0, front + [(c, t)], n', toAdd')
    {
      assert (front + [(c, t)])[..|front|] == front;
      n', toAdd' := n, toAdd;
      if Accessible(grid, c, grid[c.y][c.x]) {
        grid := Updated(grid, c, false);
        toAdd' := Add32(toAdd, 1);
        n' := n + 1;
      }
    }

    /** `part2()`: passes until one counts 0, adding each count in `Int` arithmetic; the grid
        ends as `Settle` leaves it. */
    method Part2() returns (part2: Int32)
      requires JavaSized(grid)
      modifies this
      ensures grid == Settle(old(grid)).0
      ensures part2 == Count32(Settle(old(grid)).1)
    {
      ghost var g0 := grid;
      ghost var removed: nat := 0;
      part2 := 0;
      while true
        invariant JavaSized(grid)
        invariant Remaining(g0, grid, removed)
        invariant part2 == Count32(removed)
        decreases Rolls(grid)
      {
        var done;
        done, part2, removed := Round(g0, part2, removed);
        if done {
          break;
        }
      }
    }

    /** One iteration of `part2`'s loop: a pass, then either the exit on a zero count or the
        count added to the total. */
    method Round(ghost g0: seq<seq<bool>>, part2: Int32, ghost removed: nat)
      returns (done: bool, part2': Int32, ghost removed': nat)
      requires JavaSized(g0) && JavaSized(grid)
      requires Remaining(g0, grid, removed)
      requires part2 == Count32(removed)
      modifies this
      ensures done ==> grid == Settle(g0).0 && part2' == Count32(Settle(g0).1)
      ensures !done ==> JavaSized(grid) && Rolls(grid) < Rolls(old(grid))
      ensures !done ==> Remaining(g0, grid, removed')
      ensures !done ==> part2' == Count32(removed')
    {
      ghost var before := grid;
      var toAdd := Pass();
      ghost var n := FullSweep(before).1;
      SettleRound(g0, before, removed);
      done := toAdd == 0;
      if done {
        part2', removed' := part2, removed;
      } else {
        part2' := AddCount(part2, toAdd, removed, n);
        removed' := removed + n;
      }
    }
  }

  /** `part2 += toAdd` in `Int` arithmetic, on two wrapped counts. */
  method AddCount(total: Int32, toAdd: Int32, ghost m: nat, ghost n: nat) returns (sum: Int32)
    requires total == Count32(m) && toAdd == Count32(n)
    ensures sum == Count32(m + n)
  {
    Count32Add(m, n);
    sum := Add32(total, toAdd);
  }

  /** One round of `part2`'s loop, from the state `before` it starts in: the loop's view of
      what remains to settle, after a pass that counted none and after one that counted some. */
  lemma {:induction false} SettleRound(g0: seq<seq<bool>>, before: seq<seq<bool>>, removed: nat)
    requires JavaSized(g0) && JavaSized(before)
    requires Remaining(g0, before, removed)
    ensures JavaSized(FullSweep(before).0)
    ensures Count32(FullSweep(before).1) == 0 ==>
              Settle(g0).0 == FullSweep(before).0 && Settle(g0).1 == removed
    ensures Count32(FullSweep(before).1) != 0 ==>
              Rolls(FullSweep(before).0) < Rolls(before) &&
              Remaining(g0, FullSweep(before).0, removed + FullSweep(before).1)
  {
    SettleStep(before);
  }

  /** What is left of `Settle(g0)` from grid `g` on, once `removed` rolls have gone: the same
      final grid, and `removed` plus what `g` still loses. */
  predicate Remaining(g0: seq<seq<bool>>, g: seq<seq<bool>>, removed: nat)
    requires JavaSized(g0) && JavaSized(g)
  {
    Settle(g0).0 == Settle(g).0 && Settle(g0).1 == removed + Settle(g).1
  }

}
