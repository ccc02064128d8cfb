/** Day 9: red tiles at the corners of a closed rectilinear polygon. Every pair of corners
    spans a rectangle; the first answer is the largest rectangle, the second the largest one
    the polygon contains, judged row by row at the corners' rows against a table of the
    outline's horizontal runs (`horizRanges`). */
module Day09 {
  import opened Wrappers
  import opened Arith
  import opened JavaInt
  import opened Coordinates
  import opened CoordinateOps
  import opened Sorting
  import opened Itertools
  import opened Collections

  /** A piece of outline on one row, `(startX, endX)`. */
  type Span = (Int32, Int32)

  /** `horizRanges`: the pieces of outline recorded for each row. */
  type Table = map<Int32, seq<Span>>

  // ---------------------------------------------------------------------------------------
  // Input and the corner rows
  // ---------------------------------------------------------------------------------------

  /** `lines.map { Coordinate.parse(it) }`: the first line that does not parse throws. */
  function ParseCoords(lines: seq<string>): (r: Result<seq<Coordinate>>)
    ensures r.Ok? ==> |r.value| == |lines|
    ensures r.Err? ==> r.error == IndexOutOfBounds || r.error == NumberFormat
  {
    if |lines| == 0 then Ok([])
    else
      var front :- ParseCoords(lines[..|lines| - 1]);
      var c :- Parse(lines[|lines| - 1]);
      Ok(front + [c])
  }

  /** Each coordinate is its line parsed. */
  lemma {:induction false} ParseCoordsValue(lines: seq<string>, k: int)
    requires ParseCoords(lines).Ok? && 0 <= k < |lines|
    ensures Parse(lines[k]) == Ok(ParseCoords(lines).value[k])
  {
    var front := lines[..|lines| - 1];
    var c := Parse(lines[|lines| - 1]);
    assert ParseCoords(front).Ok? && c.Ok?;
    var cs := ParseCoords(front).value + [c.value];
    assert ParseCoords(lines) == Ok(cs);
    if k < |front| {
      ParseCoordsValue(front, k);
      assert front[k] == lines[k];
      assert cs[k] == ParseCoords(front).value[k];
    } else {
      assert k == |lines| - 1;
    }
  }

  function RowKey(y: Int32): int
  {
    y
  }

  function Rows(coords: seq<Coordinate>): seq<Int32>
  {
    seq(|coords|, k requires 0 <= k < |coords| => coords[k].y)
  }

  /** `yVals`: `coords.map { it.y }.distinct().sorted()`. */
  function YValues(coords: seq<Coordinate>): seq<Int32>
  {
    SortBy(Distinct(Rows(coords)), RowKey)
  }

  predicate Increasing(ys: seq<Int32>)
  {
    forall i, j :: 0 <= i < j < |ys| ==> ys[i] < ys[j]
  }

  /** `yVals` holds each corner row once, in increasing order. */
  lemma {:induction false} YValuesShape(coords: seq<Coordinate>)
    ensures Increasing(YValues(coords))
    ensures forall v :: v in YValues(coords) <==> exists k :: 0 <= k < |coords| && coords[k].y == v
  {
    var d := Distinct(Rows(coords));
    var ys := YValues(coords);
    SortByCorrect(d, RowKey);
    forall i, j | 0 <= i < j < |ys|
      ensures ys[i] < ys[j]
    {
      assert RowKey(ys[i]) <= RowKey(ys[j]);
      if ys[i] == ys[j] {
        TwoCopies(ys, i, j);
      }
    }
    forall v
      ensures v in ys <==> v in Rows(coords)
    {
      assert v in ys <==> v in multiset(ys);
      assert v in d <==> v in multiset(d);
    }
    forall v
      ensures v in Rows(coords) <==> exists k :: 0 <= k < |coords| && coords[k].y == v
    {
      if v in Rows(coords) {
        var k :| 0 <= k < |coords| && Rows(coords)[k] == v;
        assert coords[k].y == v;
      }
      if exists k :: 0 <= k < |coords| && coords[k].y == v {
        var k :| 0 <= k < |coords| && coords[k].y == v;
        assert Rows(coords)[k] == v;
      }
    }
  }

  // ---------------------------------------------------------------------------------------
  // The table of outline pieces, lines 40-54
  // ---------------------------------------------------------------------------------------

  function Lesser(p: Int32, q: Int32): Int32
  {
    if p <= q then p else q
  }

  function Greater(p: Int32, q: Int32): Int32
  {
    if p <= q then q else p
  }

  /** The pieces recorded for row `y`; a row without any has no entry. */
  function Get(t: Table, y: Int32): seq<Span>
  {
    if y in t then t[y] else []
  }

  /** `horizRanges.getOrPut(y, ::mutableListOf).add(s)`. */
  function Append(t: Table, y: Int32, s: Span): Table
  {
    t[y := Get(t, y) + [s]]
  }

  /** The scan of lines 44-48 over the sorted corner rows: rows below `lo` are skipped, the
      first row above `hi` ends it, and every row between gets the one-tile piece `(x, x)`. */
  function Cross(t: Table, ys: seq<Int32>, x: Int32, lo: Int32, hi: Int32): Table
    decreases |ys|
  {
    if |ys| == 0 then t
    else if ys[0] < lo then Cross(t, ys[1..], x, lo, hi)
    else if ys[0] > hi then t
    else Cross(Append(t, ys[0], (x, x)), ys[1..], x, lo, hi)
  }

  /** `min(a.y, b.y) + 1` and `max(a.y, b.y) - 1` in `int` arithmetic. */
  function Low(a: Coordinate, b: Coordinate): Int32
  {
    Add32(Lesser(a.y, b.y), 1)
  }

  function High(a: Coordinate, b: Coordinate): Int32
  {
    Sub32(Greater(a.y, b.y), 1)
  }

  /** One edge `a -> b` of the outline: a vertical edge crosses the corner rows strictly
      inside it, any other edge is recorded whole on the row of `a`. */
  function AddEdge(t: Table, ys: seq<Int32>, a: Coordinate, b: Coordinate): Table
  {
    if a.x == b.x then Cross(t, ys, a.x, Low(a, b), High(a, b))
    else Append(t, a.y, (Lesser(a.x, b.x), Greater(a.x, b.x)))
  }

  /** `coords + listOf(coords[0])`: the corners with the first repeated, so that
      `windowed(2)` closes the outline. */
  function Ring(coords: seq<Coordinate>): seq<Coordinate>
    requires |coords| > 0
  {
    coords + [coords[0]]
  }

  /** The table after the first `k` edges of the ring. */
  function TableOf(ring: seq<Coordinate>, ys: seq<Int32>, k: nat): Table
    requires k < |ring|
  {
    if k == 0 then map[] else AddEdge(TableOf(ring, ys, k - 1), ys, ring[k - 1], ring[k])
  }

  /** What edge `a -> b` contributes to row `y`, row by row rather than edge by edge. */
  function Contribution(a: Coordinate, b: Coordinate, ys: seq<Int32>, y: Int32): seq<Span>
  {
    if a.x == b.x then
      if y in ys && Low(a, b) <= y <= High(a, b) then [(a.x, a.x)] else []
    else if y == a.y then [(Lesser(a.x, b.x), Greater(a.x, b.x))]
    else []
  }

  /** The pieces of row `y` after the first `k` edges: each edge's contribution, in edge order. */
  function RowOf(ring: seq<Coordinate>, ys: seq<Int32>, y: Int32, k: nat): seq<Span>
    requires k < |ring|
  {
    if k == 0 then [] else RowOf(ring, ys, y, k - 1) + Contribution(ring[k - 1], ring[k], ys, y)
  }

  /** No row of the table has an empty list, so `horiz.first()` always has an element. */
  predicate Filled(t: Table)
  {
    forall y :: y in t ==> t[y] != []
  }

  /** With the corner rows in increasing order, the scan of lines 44-48 gives each row
      between `lo` and `hi` exactly one piece `(x, x)` and no other row anything. */
  lemma {:induction false} CrossRow(t: Table, ys: seq<Int32>, x: Int32, lo: Int32, hi: Int32, y: Int32)
    requires Increasing(ys)
    ensures Get(Cross(t, ys, x, lo, hi), y) ==
      Get(t, y) + (if y in ys && lo <= y <= hi then [(x, x)] else [])
    decreases |ys|
  {
    if |ys| > 0 {
      var rest := ys[1..];
      TailIncreasing(ys);
      assert y in ys <==> y == ys[0] || y in rest;
      if y in rest {
        HeadLeast(ys, y);
      }
      if ys[0] < lo {
        CrossRow(t, rest, x, lo, hi, y);
      } else if ys[0] <= hi {
        CrossRow(Append(t, ys[0], (x, x)), rest, x, lo, hi, y);
      }
    }
  }

  lemma {:induction false} TailIncreasing(ys: seq<Int32>)
    requires Increasing(ys) && |ys| > 0
    ensures Increasing(ys[1..])
  {
    var rest := ys[1..];
    forall i, j | 0 <= i < j < |rest|
      ensures rest[i] < rest[j]
    {
      assert rest[i] == ys[i + 1] && rest[j] == ys[j + 1];
    }
  }

  lemma {:induction false} HeadLeast(ys: seq<Int32>, y: Int32)
    requires Increasing(ys) && |ys| > 0 && y in ys[1..]
    ensures ys[0] < y
  {
    var k :| 0 <= k < |ys[1..]| && ys[1..][k] == y;
    assert ys[k + 1] == y;
  }

  /** The scan only ever adds pieces, so no row is left with an empty list. */
  lemma {:induction false} CrossFilled(t: Table, ys: seq<Int32>, x: Int32, lo: Int32, hi: Int32)
    requires Filled(t)
    ensures Filled(Cross(t, ys, x, lo, hi))
    decreases |ys|
  {
    if |ys| > 0 {
      if ys[0] < lo {
        CrossFilled(t, ys[1..], x, lo, hi);
      } else if ys[0] <= hi {
        CrossFilled(Append(t, ys[0], (x, x)), ys[1..], x, lo, hi);
      }
    }
  }

  lemma {:induction false} TableRow(ring: seq<Coordinate>, ys: seq<Int32>, k: nat, y: Int32)
    requires Increasing(ys) && k < |ring|
    ensures Get(TableOf(ring, ys, k), y) == RowOf(ring, ys, y, k)
  {
    if k > 0 {
      TableRow(ring, ys, k - 1, y);
      var a, b := ring[k - 1], ring[k];
      if a.x == b.x {
        CrossRow(TableOf(ring, ys, k - 1), ys, a.x, Low(a, b), High(a, b), y);
      }
    }
  }

  lemma {:induction false} TableFilled(ring: seq<Coordinate>, ys: seq<Int32>, k: nat)
    requires k < |ring|
    ensures Filled(TableOf(ring, ys, k))
  {
    if k > 0 {
      TableFilled(ring, ys, k - 1);
      var a, b := ring[k - 1], ring[k];
      if a.x == b.x {
        CrossFilled(TableOf(ring, ys, k - 1), ys, a.x, Low(a, b), High(a, b));
      }
    }
  }

  /** The table built by the loop of lines 40-52 lists, for every row, the pieces each edge
      contributes to it, in edge order; every listed row has a piece. */
  lemma {:induction false} TableRows(ring: seq<Coordinate>, ys: seq<Int32>, k: nat)
    requires Increasing(ys) && k < |ring|
    ensures forall y: Int32 :: Get(TableOf(ring, ys, k), y) == RowOf(ring, ys, y, k)
    ensures Filled(TableOf(ring, ys, k))
  {
    forall y: Int32
      ensures Get(TableOf(ring, ys, k), y) == RowOf(ring, ys, y, k)
    {
      TableRow(ring, ys, k, y);
    }
    TableFilled(ring, ys, k);
  }

  /** A row is recorded exactly when some edge contributes to it. */
  lemma {:induction false} TableKeys(ring: seq<Coordinate>, ys: seq<Int32>, k: nat, y: Int32)
    requires Increasing(ys) && k < |ring|
    ensures y in TableOf(ring, ys, k) <==> RowOf(ring, ys, y, k) != []
  {
    TableRows(ring, ys, k);
    assert Get(TableOf(ring, ys, k), y) == RowOf(ring, ys, y, k);
  }

  /** The rows a vertical edge crosses are those strictly between its ends, unless the edge
      has no length and lies on the lowest or highest row, where `+ 1` or `- 1` wraps. */
  lemma {:induction false} CrossedRows(a: Coordinate, b: Coordinate, y: Int32)
    requires a.y != b.y || INT_MIN < a.y < INT_MAX
    ensures Low(a, b) <= y <= High(a, b) <==> Lesser(a.y, b.y) < y < Greater(a.y, b.y)
  {
  }

  /** `sortBy { (a, _) -> a }` on one list. */
  function Start(s: Span): int
  {
    s.0
  }

  /** Line 54: every list of the table sorted by start, stably. */
  function SortRows(t: Table): Table
  {
    map y | y in t :: SortBy(t[y], Start)
  }

  /** After line 54 every row's pieces are in order of start, and they are the same pieces. */
  lemma {:induction false} SortRowsSorted(t: Table)
    ensures SortRows(t).Keys == t.Keys
    ensures forall y :: y in t ==>
      SortedBy(SortRows(t)[y], Start) && multiset(SortRows(t)[y]) == multiset(t[y])
    ensures Filled(t) ==> Filled(SortRows(t))
  {
    forall y | y in t
      ensures SortedBy(SortRows(t)[y], Start) && multiset(SortRows(t)[y]) == multiset(t[y])
    {
      SortByCorrect(t[y], Start);
    }
  }

  // ---------------------------------------------------------------------------------------
  // Rectangle sizes, lines 61-63
  // ---------------------------------------------------------------------------------------

  /** `abs(d) + 1` for one component `d = p - q` of `b - a`, all in `int` arithmetic. */
  function Side(p: Int32, q: Int32): Int32
  {
    Add32(AbsInt(Sub32(p, q)), 1)
  }

  /** `(abs(dimensions.x) + 1).toLong() * (abs(dimensions.y) + 1)`: the `int` sides
      widened, so the product itself never wraps. */
  function Size(a: Coordinate, b: Coordinate): Int64
  {
    var d := Minus(b, a);
    var w, h := Add32(AbsInt(d.x), 1), Add32(AbsInt(d.y), 1);
    IntProductBound(w, h);
    w * h
  }

  /** Corners closer than `Int.MAX_VALUE` on both axes span `(|dx| + 1)(|dy| + 1)` tiles. */
  lemma {:induction false} SizeExact(a: Coordinate, b: Coordinate)
    requires Abs(b.x - a.x) < INT_MAX && Abs(b.y - a.y) < INT_MAX
    ensures Size(a, b) == (Abs(b.x - a.x) + 1) * (Abs(b.y - a.y) + 1)
  {
    assert Minus(b, a) == Coordinate(b.x - a.x, b.y - a.y);
  }

  /** The size does not depend on which corner comes first. */
  lemma {:induction false} SizeSymmetric(a: Coordinate, b: Coordinate)
    ensures Size(a, b) == Size(b, a)
  {
    SideSymmetric(b.x, a.x);
    SideSymmetric(b.y, a.y);
    assert Minus(b, a) == Coordinate(Sub32(b.x, a.x), Sub32(b.y, a.y));
    assert Minus(a, b) == Coordinate(Sub32(a.x, b.x), Sub32(a.y, b.y));
  }

  lemma {:induction false} SideSymmetric(p: Int32, q: Int32)
    ensures Side(p, q) == Side(q, p)
    ensures Side(p, q) == Add32(AbsInt(Sub32(p, q)), 1)
  {
  }

  /** The corners of pair `p`, by index. */
  function SizeOf(coords: seq<Coordinate>, p: (int, int)): Int64
    requires 0 <= p.0 < |coords| && 0 <= p.1 < |coords|
  {
    Size(coords[p.0], coords[p.1])
  }

  predicate InRange(n: nat, pairs: seq<(int, int)>)
  {
    forall k :: 0 <= k < |pairs| ==> 0 <= pairs[k].0 < n && 0 <= pairs[k].1 < n
  }

  lemma {:induction false} PairsInRange(n: nat)
    ensures InRange(n, Pairs(n))
  {
    PairsMembers(n);
    forall k | 0 <= k < |Pairs(n)|
      ensures 0 <= Pairs(n)[k].0 < n && 0 <= Pairs(n)[k].1 < n
    {
      assert Pairs(n)[k] in Pairs(n);
    }
  }

  /** `part1` over the pairs from `k` on: the larger of 0 and every size. */
  function LargestFrom(coords: seq<Coordinate>, pairs: seq<(int, int)>, k: nat): int
    requires InRange(|coords|, pairs)
    decreases |pairs| - k
  {
    if k >= |pairs| then 0 else MaxOf(SizeOf(coords, pairs[k]), LargestFrom(coords, pairs, k + 1))
  }

  /** `part1` is at least every pair's size, and is one of them unless it is the initial 0. */
  lemma {:induction false} LargestIsMax(coords: seq<Coordinate>, pairs: seq<(int, int)>, k: nat)
    requires InRange(|coords|, pairs)
    ensures LargestFrom(coords, pairs, k) >= 0
    ensures forall m :: k <= m < |pairs| ==> SizeOf(coords, pairs[m]) <= LargestFrom(coords, pairs, k)
    ensures LargestFrom(coords, pairs, k) == 0 ||
      exists m :: k <= m < |pairs| && LargestFrom(coords, pairs, k) == SizeOf(coords, pairs[m])
    decreases |pairs| - k
  {
    if k < |pairs| {
      LargestIsMax(coords, pairs, k + 1);
    }
  }

  // ---------------------------------------------------------------------------------------
  // The containment test, lines 68-84
  // ---------------------------------------------------------------------------------------

  /** `horiz.withIndex().first { (_, l) -> l.first <= minX }`: the first piece starting at or
      left of `minX`; none such throws. */
  function FirstAtOrLeft(h: seq<Span>, minX: int): (r: Result<nat>)
    ensures r.Ok? ==> r.value < |h| && h[r.value].0 <= minX &&
                      forall j :: 0 <= j < r.value ==> h[j].0 > minX
    ensures r.Err? ==> r.error == NoSuchElement && forall j :: 0 <= j < |h| ==> h[j].0 > minX
  {
    if |h| == 0 then Err(NoSuchElement)
    else if h[0].0 <= minX then Ok(0)
    else
      var i :- FirstAtOrLeft(h[1..], minX);
      Ok(i + 1)
  }

  /** Lines 76-83 for one row whose pieces are `h`: `Ok(false)` is `continue@loop` (the pair
      is rejected), `Ok(true)` moves on to the next row. */
  function RowVerdict(h: seq<Span>, minX: int, maxX: int): Result<bool>
  {
    if |h| == 0 then Err(NoSuchElement)
    else if minX < h[0].0 then Ok(false)
    else
      var i := FirstAtOrLeft(h, minX).value;
      if maxX <= h[i].1 then Ok(true)
      else if i % 2 == 1 then Ok(false)
      else if i + 1 >= |h| || h[i + 1].1 < maxX then Ok(false)
      else Ok(true)
  }

  /** Once the first piece starts at or left of `minX`, the search of line 77 always lands on
      that first piece, so the odd-index test is never taken: a row passes exactly when the
      span `[minX, maxX]` starts inside the first piece and ends inside the first or the
      second; in particular a span starting left of the first piece is rejected. */
  lemma {:induction false} RowVerdictMeaning(h: seq<Span>, minX: int, maxX: int)
    requires |h| > 0
    ensures RowVerdict(h, minX, maxX) ==
      Ok(h[0].0 <= minX && (maxX <= h[0].1 || (|h| > 1 && maxX <= h[1].1)))
  {
    if h[0].0 <= minX {
      assert FirstAtOrLeft(h, minX) == Ok(0);
    }
  }

  /** The loop of lines 73-84 over the corner rows from the front of `ys`: rows outside
      `minY..maxY` are skipped and a row without pieces is `horizRanges[y]!!` on null. */
  function FitsFrom(t: Table, ys: seq<Int32>, minX: int, maxX: int, minY: int, maxY: int): (r: Result<bool>)
    ensures r.Err? ==> r.error == NullPointer || r.error == NoSuchElement
    decreases |ys|
  {
    if |ys| == 0 then Ok(true)
    else if !(minY <= ys[0] <= maxY) then FitsFrom(t, ys[1..], minX, maxX, minY, maxY)
    else if ys[0] !in t then Err(NullPointer)
    else
      var v :- RowVerdict(t[ys[0]], minX, maxX);
      if !v then Ok(false) else FitsFrom(t, ys[1..], minX, maxX, minY, maxY)
  }

  /** Whether the rectangle with corners `a` and `b` passes every row test. */
  function Fits(t: Table, ys: seq<Int32>, a: Coordinate, b: Coordinate): Result<bool>
  {
    FitsFrom(t, ys, Lesser(a.x, b.x), Greater(a.x, b.x), Lesser(a.y, b.y), Greater(a.y, b.y))
  }

  /** A rectangle passes exactly when every corner row within its span is in the table and
      its row test passes. */
  lemma {:induction false} FitsMeaning(t: Table, ys: seq<Int32>, minX: int, maxX: int, minY: int, maxY: int)
    ensures FitsFrom(t, ys, minX, maxX, minY, maxY) == Ok(true) <==>
      forall k :: 0 <= k < |ys| && minY <= ys[k] <= maxY ==>
        ys[k] in t && RowVerdict(t[ys[k]], minX, maxX) == Ok(true)
    decreases |ys|
  {
    if |ys| > 0 {
      FitsMeaning(t, ys[1..], minX, maxX, minY, maxY);
      assert forall k :: 1 <= k < |ys| ==> ys[k] == ys[1..][k - 1];
    }
  }

  // ---------------------------------------------------------------------------------------
  // The scan over all pairs, lines 56-89
  // ---------------------------------------------------------------------------------------

  /** The loop of lines 60-87 from pair `k` on, `part1` and `part2` as computed so far. */
  function Scan(coords: seq<Coordinate>, t: Table, ys: seq<Int32>, pairs: seq<(int, int)>, k: nat,
                part1: Int64, part2: Int64): Result<(Int64, Int64)>
    requires InRange(|coords|, pairs)
    decreases |pairs| - k
  {
    if k >= |pairs| then Ok((part1, part2))
    else
      var a, b := coords[pairs[k].0], coords[pairs[k].1];
      var size := Size(a, b);
      var p1: Int64 := MaxOf(part1, size);
      if size < part2 then Scan(coords, t, ys, pairs, k + 1, p1, part2)
      else
        var ok :- Fits(t, ys, a, b);
        Scan(coords, t, ys, pairs, k + 1, p1, if ok then size else part2)
  }

  /** Whether pair `p` passes the containment test. */
  predicate Accepted(coords: seq<Coordinate>, t: Table, ys: seq<Int32>, p: (int, int))
    requires 0 <= p.0 < |coords| && 0 <= p.1 < |coords|
  {
    Fits(t, ys, coords[p.0], coords[p.1]) == Ok(true)
  }

  /** The first answer is the running maximum of the sizes. */
  lemma {:induction false} ScanFirst(coords: seq<Coordinate>, t: Table, ys: seq<Int32>,
                                      pairs: seq<(int, int)>, k: nat, part1: Int64, part2: Int64)
    requires InRange(|coords|, pairs) && part1 >= 0
    ensures Scan(coords, t, ys, pairs, k, part1, part2).Ok? ==>
      Scan(coords, t, ys, pairs, k, part1, part2).value.0 == MaxOf(part1, LargestFrom(coords, pairs, k))
    decreases |pairs| - k
  {
    if k < |pairs| {
      var size := SizeOf(coords, pairs[k]);
      var p1: Int64 := MaxOf(part1, size);
      var rest := LargestFrom(coords, pairs, k + 1);
      assert MaxOf(p1, rest) == MaxOf(part1, MaxOf(size, rest));
      var r := Scan(coords, t, ys, pairs, k, part1, part2);
      var ok := Fits(t, ys, coords[pairs[k].0], coords[pairs[k].1]);
      if size < part2 {
        assert r == Scan(coords, t, ys, pairs, k + 1, p1, part2);
        ScanFirst(coords, t, ys, pairs, k + 1, p1, part2);
      } else if ok.Ok? {
        var p2: Int64 := if ok.value then size else part2;
        assert r == Scan(coords, t, ys, pairs, k + 1, p1, p2);
        ScanFirst(coords, t, ys, pairs, k + 1, p1, p2);
      }
    }
  }

  /** `part2` never decreases and never passes `part1`; it ends at least at the size of every
      accepted pair, and it is one of them unless it kept its starting value. */
  lemma {:induction false} ScanSecond(coords: seq<Coordinate>, t: Table, ys: seq<Int32>,
                                       pairs: seq<(int, int)>, k: nat, part1: Int64, part2: Int64)
    requires InRange(|coords|, pairs) && part2 <= part1
    ensures var r := Scan(coords, t, ys, pairs, k, part1, part2);
      r.Ok? ==>
        part2 <= r.value.1 <= r.value.0 &&
        (forall m :: k <= m < |pairs| && Accepted(coords, t, ys, pairs[m]) ==>
           SizeOf(coords, pairs[m]) <= r.value.1) &&
        (r.value.1 == part2 ||
         exists m :: k <= m < |pairs| && Accepted(coords, t, ys, pairs[m]) &&
           r.value.1 == SizeOf(coords, pairs[m]))
    decreases |pairs| - k
  {
    if k < |pairs| {
      var size := SizeOf(coords, pairs[k]);
      var p1: Int64 := MaxOf(part1, size);
      ScanSecond(coords, t, ys, pairs, k + 1, p1, part2);
      if size >= part2 {
        ScanSecond(coords, t, ys, pairs, k + 1, p1, size);
      }
    }
  }

  /** `horizRanges` once sorted, line 54. */
  function ShapeTable(coords: seq<Coordinate>): Table
    requires |coords| > 0
  {
    SortRows(TableOf(Ring(coords), YValues(coords), |coords|))
  }

  /** Lines 56-89 over all pairs of corners. */
  function Rectangles(coords: seq<Coordinate>): Result<(Int64, Int64)>
    requires |coords| > 0
  {
    PairsInRange(|coords|);
    Scan(coords, ShapeTable(coords), YValues(coords), Pairs(|coords|), 0, 0, 0)
  }

  /** Lines 35-89. An empty input fails at `coords[0]`. */
  function Answer(lines: seq<string>): Result<(Int64, Int64)>
  {
    var coords :- ParseCoords(lines);
    if |coords| == 0 then Err(IndexOutOfBounds) else Rectangles(coords)
  }

  /** A rectangle is rejected when, on some corner row it spans, it starts left of the first
      piece of outline (lines 73-76). */
  lemma {:induction false} LeftOfFirstRejects(t: Table, ys: seq<Int32>, a: Coordinate, b: Coordinate, k: int)
    requires 0 <= k < |ys| && Lesser(a.y, b.y) <= ys[k] <= Greater(a.y, b.y)
    requires ys[k] in t && t[ys[k]] != [] && Lesser(a.x, b.x) < t[ys[k]][0].0
    ensures Fits(t, ys, a, b) != Ok(true)
  {
    FitsMeaning(t, ys, Lesser(a.x, b.x), Greater(a.x, b.x), Lesser(a.y, b.y), Greater(a.y, b.y));
  }

  /** The first answer is the largest rectangle over all pairs of corners (or 0). */
  lemma {:induction false} AnswerFirst(lines: seq<string>)
    requires Answer(lines).Ok?
    ensures ParseCoords(lines).Ok?
    ensures var coords, r := ParseCoords(lines).value, Answer(lines).value;
      (forall i, j :: 0 <= i < j < |coords| ==> Size(coords[i], coords[j]) <= r.0) &&
      (r.0 == 0 || exists i, j :: 0 <= i < j < |coords| && r.0 == Size(coords[i], coords[j]))
  {
    LargestOfAll(ParseCoords(lines).value);
  }

  lemma {:induction false} LargestOfAll(coords: seq<Coordinate>)
    requires |coords| > 0
    ensures var r := Rectangles(coords);
      r.Ok? ==>
        (forall i, j :: 0 <= i < j < |coords| ==> Size(coords[i], coords[j]) <= r.value.0) &&
        (r.value.0 == 0 || exists i, j :: 0 <= i < j < |coords| && r.value.0 == Size(coords[i], coords[j]))
  {
    var n := |coords|;
    var pairs := Pairs(n);
    PairsInRange(n);
    PairsMembers(n);
    var r := Rectangles(coords);
    ScanFirst(coords, ShapeTable(coords), YValues(coords), pairs, 0, 0, 0);
    LargestIsMax(coords, pairs, 0);
    if r.Ok? {
      forall i, j | 0 <= i < j < n
        ensures Size(coords[i], coords[j]) <= r.value.0
      {
        assert (i, j) in pairs;
        var m :| 0 <= m < |pairs| && pairs[m] == (i, j);
        assert SizeOf(coords, pairs[m]) <= r.value.0;
      }
      if r.value.0 != 0 {
        var m :| 0 <= m < |pairs| && r.value.0 == SizeOf(coords, pairs[m]);
        assert pairs[m] in pairs;
        assert r.value.0 == Size(coords[pairs[m].0], coords[pairs[m].1]);
      }
    }
  }

  /** Whether the polygon of `coords` contains the rectangle with corners `i` and `j`, as the
      row tests judge it. */
  predicate Contains(coords: seq<Coordinate>, i: int, j: int)
    requires 0 <= i < |coords| && 0 <= j < |coords|
  {
    Fits(ShapeTable(coords), YValues(coords), coords[i], coords[j]) == Ok(true)
  }

  /** The second answer is at most the first, at least every contained rectangle, and one of
      them unless it is 0. */
  lemma {:induction false} AnswerSecond(lines: seq<string>)
    requires Answer(lines).Ok?
    ensures ParseCoords(lines).Ok? && |ParseCoords(lines).value| > 0
    ensures var coords, r := ParseCoords(lines).value, Answer(lines).value;
      0 <= r.1 <= r.0 &&
      (forall i, j :: 0 <= i < j < |coords| && Contains(coords, i, j) ==> Size(coords[i], coords[j]) <= r.1) &&
      (r.1 == 0 || exists i, j :: 0 <= i < j < |coords| && Contains(coords, i, j) && r.1 == Size(coords[i], coords[j]))
  {
    ContainedLargest(ParseCoords(lines).value);
  }

  lemma {:induction false} ContainedLargest(coords: seq<Coordinate>)
    requires |coords| > 0
    ensures var r := Rectangles(coords);
      r.Ok? ==>
        0 <= r.value.1 <= r.value.0 &&
        (forall i, j :: 0 <= i < j < |coords| && Contains(coords, i, j) ==> Size(coords[i], coords[j]) <= r.value.1) &&
        (r.value.1 == 0 ||
         exists i, j :: 0 <= i < j < |coords| && Contains(coords, i, j) && r.value.1 == Size(coords[i], coords[j]))
  {
    PairsInRange(|coords|);
    ScanSecond(coords, ShapeTable(coords), YValues(coords), Pairs(|coords|), 0, 0, 0);
    ContainedAbove(coords);
    ContainedAttained(coords);
  }

  /** No contained rectangle is larger than the second answer. */
  lemma {:induction false} ContainedAbove(coords: seq<Coordinate>)
    requires |coords| > 0
    ensures var r := Rectangles(coords);
      r.Ok? ==> forall i, j :: 0 <= i < j < |coords| && Contains(coords, i, j) ==> Size(coords[i], coords[j]) <= r.value.1
  {
    var n := |coords|;
    var t, ys := ShapeTable(coords), YValues(coords);
    var pairs := Pairs(n);
    PairsInRange(n);
    PairsMembers(n);
    var r := Scan(coords, t, ys, pairs, 0, 0, 0);
    ScanSecond(coords, t, ys, pairs, 0, 0, 0);
    if r.Ok? {
      forall i, j | 0 <= i < j < n && Contains(coords, i, j)
        ensures Size(coords[i], coords[j]) <= r.value.1
      {
        assert (i, j) in pairs;
        var m :| 0 <= m < |pairs| && pairs[m] == (i, j);
        assert Accepted(coords, t, ys, pairs[m]);
      }
    }
  }

  /** A second answer other than 0 is the size of a contained rectangle. */
  lemma {:induction false} ContainedAttained(coords: seq<Coordinate>)
    requires |coords| > 0
    ensures var r := Rectangles(coords);
      r.Ok? && r.value.1 != 0 ==>
        exists i, j :: 0 <= i < j < |coords| && Contains(coords, i, j) && r.value.1 == Size(coords[i], coords[j])
  {
    var n := |coords|;
    var t, ys := ShapeTable(coords), YValues(coords);
    var pairs := Pairs(n);
    PairsInRange(n);
    var r := Scan(coords, t, ys, pairs, 0, 0, 0);
    ScanSecond(coords, t, ys, pairs, 0, 0, 0);
    if r.Ok? && r.value.1 != 0 {
      var m :| 0 <= m < |pairs| && Accepted(coords, t, ys, pairs[m]) && r.value.1 == SizeOf(coords, pairs[m]);
      PairsMembers(n);
      var i, j := pairs[m].0, pairs[m].1;
      assert pairs[m] in pairs;
      assert 0 <= i < j < n;
      assert Contains(coords, i, j) && r.value.1 == Size(coords[i], coords[j]);
    }
  }

  // ---------------------------------------------------------------------------------------
  // The method
  // ---------------------------------------------------------------------------------------

  /** Lines 44-48. */
  method AddCrossings(t: Table, ys: seq<Int32>, x: Int32, lo: Int32, hi: Int32) returns (u: Table)
    ensures u == Cross(t, ys, x, lo, hi)
  {
    u := t;
    for j := 0 to |ys|
      invariant Cross(t, ys, x, lo, hi) == Cross(u, ys[j..], x, lo, hi)
    {
      assert ys[j..][0] == ys[j] && ys[j..][1..] == ys[j + 1..];
      var y := ys[j];
      if y < lo {
        continue;
      }
      if y > hi {
        return;
      }
      u := Append(u, y, (x, x));
    }
    assert ys[|ys|..] == [];
  }

  /** Lines 40-52. */
  method BuildTable(coords: seq<Coordinate>, ys: seq<Int32>) returns (t: Table)
    requires |coords| > 0
    ensures t == TableOf(Ring(coords), ys, |coords|)
  {
    var ring := coords + [coords[0]];
    t := map[];
    for i := 0 to |coords|
      invariant t == TableOf(ring, ys, i)
    {
      var a, b := ring[i], ring[i + 1];
      if a.x == b.x {
        var minY := Add32(Lesser(a.y, b.y), 1);
        var maxY := Sub32(Greater(a.y, b.y), 1);
        t := AddCrossings(t, ys, a.x, minY, maxY);
      } else {
        t := Append(t, a.y, (Lesser(a.x, b.x), Greater(a.x, b.x)));
      }
    }
  }

  /** Lines 68-84 for one pair. */
  method Contained(t: Table, ys: seq<Int32>, a: Coordinate, b: Coordinate) returns (r: Result<bool>)
    ensures r == Fits(t, ys, a, b)
  {
    var minX, minY := Lesser(a.x, b.x), Lesser(a.y, b.y);
    var maxX, maxY := Greater(a.x, b.x), Greater(a.y, b.y);
    for j := 0 to |ys|
      invariant Fits(t, ys, a, b) == FitsFrom(t, ys[j..], minX, maxX, minY, maxY)
    {
      assert ys[j..][0] == ys[j] && ys[j..][1..] == ys[j + 1..];
      var y := ys[j];
      if !(minY <= y <= maxY) {
        continue;
      }
      if y !in t {
        return Err(NullPointer);
      }
      var horiz := t[y];
      if |horiz| == 0 {
        return Err(NoSuchElement);
      }
      if minX < horiz[0].0 {
        return Ok(false);
      }
      var evenOdds := FirstAtOrLeft(horiz, minX).value;
      if maxX <= horiz[evenOdds].1 {
        continue;
      }
      if evenOdds % 2 == 1 {
        return Ok(false);
      }
      if evenOdds + 1 >= |horiz| || horiz[evenOdds + 1].1 < maxX {
        return Ok(false);
      }
    }
    assert ys[|ys|..] == [];
    return Ok(true);
  }

  /** Lines 56-89. */
  method Search(coords: seq<Coordinate>, t: Table, ys: seq<Int32>) returns (r: Result<(Int64, Int64)>)
    ensures (PairsInRange(|coords|); r == Scan(coords, t, ys, Pairs(|coords|), 0, 0, 0))
  {
    var pairs := Pairs(|coords|);
    PairsInRange(|coords|);
    var part1: Int64 := 0;
    var part2: Int64 := 0;
    for k := 0 to |pairs|
      invariant Scan(coords, t, ys, pairs, 0, 0, 0) == Scan(coords, t, ys, pairs, k, part1, part2)
    {
      var a, b := coords[pairs[k].0], coords[pairs[k].1];
      var size := Size(a, b);
      part1 := MaxOf(part1, size);
      if size < part2 {
        continue;
      }
      var ok := Contained(t, ys, a, b);
      if ok.Err? {
        return Err(ok.error);
      }
      if !ok.value {
        continue;
      }
      part2 := size;
    }
    return Ok((part1, part2));
  }

  /** Lines 35-89. */
  method Evaluate(lines: seq<string>) returns (r: Result<(Int64, Int64)>)
    ensures r == Answer(lines)
  {
    var parsed := ParseCoords(lines);
    if parsed.Err? {
      return Err(parsed.error);
    }
    var coords := parsed.value;
    if |coords| == 0 {
      return Err(IndexOutOfBounds);
    }
    var ys := YValues(coords);
    var t := BuildTable(coords, ys);
    t := SortRows(t);
    assert t == ShapeTable(coords);
    r := Search(coords, t, ys);
  }
}
