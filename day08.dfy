/** Day 8: junction boxes in 3-space joined into circuits, closest pairs first. A union-find
    structure over the boxes takes the pairs in order of squared distance; the first answer
    multiplies the three largest circuit sizes once pair 1000 has been joined, the second
    multiplies the x coordinates of the pair whose union leaves a single circuit. */
module Day08 {
  import opened Wrappers
  import opened JavaInt
  import opened ZCoordinates
  import opened Sorting
  import opened DisjointSets
  import opened Itertools

  // ---------------------------------------------------------------------------------------
  // Input and pairs
  // ---------------------------------------------------------------------------------------

  /** `lines.map { ZCoordinate.parse(it) }`: the first line that does not parse throws. */
  function ParseCoords(lines: seq<string>): (r: Result<seq<ZCoordinate>>)
    ensures r.Ok? ==> |r.value| == |lines|
    ensures r.Err? ==> r.error == IndexOutOfBounds || r.error == NumberFormat
  {
    if |lines| == 0 then Ok([])
    else
      var front :- ParseCoords(lines[..|lines| - 1]);
      var c :- Parse(lines[|lines| - 1]);
      Ok(front + [c])
  }

  /** Each coordinate is its line parsed. */
  lemma {:induction false} ParseCoordsValue(lines: seq<string>, k: int)
    requires ParseCoords(lines).Ok? && 0 <= k < |lines|
    ensures Parse(lines[k]) == Ok(ParseCoords(lines).value[k])
  {
    var front := lines[..|lines| - 1];
    var c := Parse(lines[|lines| - 1]);
    assert ParseCoords(front).Ok? && c.Ok?;
    var cs := ParseCoords(front).value + [c.value];
    assert ParseCoords(lines) == Ok(cs);
    if k < |front| {
      ParseCoordsValue(front, k);
      assert front[k] == lines[k];
      assert cs[k] == ParseCoords(front).value[k];
    } else {
      assert k == |lines| - 1;
    }
  }

  /** `distanceSquared` of two coordinates, exactly: the sum of the squared differences. */
  function SquaredDistance(a: ZCoordinate, b: ZCoordinate): nat
  {
    (a.x - b.x) * (a.x - b.x) + (a.y - b.y) * (a.y - b.y) + (a.z - b.z) * (a.z - b.z)
  }

  /** The squared distance is symmetric and zero exactly between equal coordinates. */
  lemma {:induction false} SquaredDistanceMetric(a: ZCoordinate, b: ZCoordinate)
    ensures SquaredDistance(a, b) == SquaredDistance(b, a)
    ensures SquaredDistance(a, b) == 0 <==> a == b
  {
    if a != b {
      if a.x != b.x {
        SquarePositive(a.x - b.x);
      } else if a.y != b.y {
        SquarePositive(a.y - b.y);
      } else {
        SquarePositive(a.z - b.z);
      }
    }
  }

  lemma {:induction false} SquarePositive(d: int)
    requires d != 0
    ensures d * d > 0
  {
  }

  /** The sort key of a pair of indices: the squared distance of the two coordinates. */
  function PairDistance(coords: seq<ZCoordinate>, p: (int, int)): int
  {
    if 0 <= p.0 < |coords| && 0 <= p.1 < |coords| then SquaredDistance(coords[p.0], coords[p.1]) else 0
  }

  function ByDistance(coords: seq<ZCoordinate>): ((int, int)) -> int
  {
    p => PairDistance(coords, p)
  }

  /** `pairs.sortBy { … }`: the pairs in order of non-decreasing squared distance. */
  function SortedPairs(coords: seq<ZCoordinate>): seq<(int, int)>
  {
    SortBy(Pairs(|coords|), ByDistance(coords))
  }

  /** Every pair of distinct boxes comes exactly once, and closer pairs come first. */
  lemma {:induction false} SortedPairsOrder(coords: seq<ZCoordinate>)
    ensures SortedBy(SortedPairs(coords), ByDistance(coords))
    ensures multiset(SortedPairs(coords)) == multiset(Pairs(|coords|))
    ensures forall p :: p in SortedPairs(coords) <==> 0 <= p.0 < p.1 < |coords|
  {
    SortByCorrect(Pairs(|coords|), ByDistance(coords));
    PairsMembers(|coords|);
    forall p: (int, int)
      ensures p in SortedPairs(coords) <==> p in Pairs(|coords|)
    {
      assert p in SortedPairs(coords) <==> p in multiset(SortedPairs(coords));
      assert p in Pairs(|coords|) <==> p in multiset(Pairs(|coords|));
    }
  }

  // ---------------------------------------------------------------------------------------
  // The union-find state after a run of unions
  // ---------------------------------------------------------------------------------------

  /** The root of every element and the rank table of a `DisjointSet`. */
  datatype Unions = Unions(roots: seq<int>, ranks: seq<int>)

  /** Every root names an element, and there is a rank per element. */
  predicate Fits(u: Unions)
  {
    |u.ranks| == |u.roots| && forall i :: 0 <= i < |u.roots| ==> 0 <= u.roots[i] < |u.roots|
  }

  /** `union(a, b)` on the roots and ranks: two different roots are merged into the winner
      by rank, which on a tie goes up by one. */
  function Unite(u: Unions, a: int, b: int): (r: Unions)
    ensures |r.roots| == |u.roots| && |r.ranks| == |u.ranks|
  {
    if !(0 <= a < |u.roots| && 0 <= b < |u.roots|) then u
    else
      var ra, rb := u.roots[a], u.roots[b];
      if ra == rb || !(0 <= ra < |u.ranks| && 0 <= rb < |u.ranks|) then u
      else Unions(Relabel(u.roots, ra, rb, Winner(u.ranks, ra, rb)), Promoted(u.ranks, ra, rb))
  }

  /** `new DisjointSet(n)` followed by `union` of each pair in turn. */
  function AfterPairs(n: nat, pairs: seq<(int, int)>): (u: Unions)
    ensures |u.roots| == n && |u.ranks| == n
  {
    if |pairs| == 0 then Unions(Identity(n), Zeros(n))
    else
      var last := pairs[|pairs| - 1];
      Unite(AfterPairs(n, pairs[..|pairs| - 1]), last.0, last.1)
  }

  lemma {:induction false} UniteFits(u: Unions, a: int, b: int)
    requires Fits(u)
    ensures Fits(Unite(u, a, b))
  {
  }

  lemma {:induction false} AfterPairsFits(n: nat, pairs: seq<(int, int)>)
    ensures Fits(AfterPairs(n, pairs))
  {
    if |pairs| > 0 {
      var last := pairs[|pairs| - 1];
      AfterPairsFits(n, pairs[..|pairs| - 1]);
      UniteFits(AfterPairs(n, pairs[..|pairs| - 1]), last.0, last.1);
    }
  }

  /** The number of disjoint sets: the number of distinct roots. */
  function SetCount(roots: seq<int>): nat
  {
    |set i | 0 <= i < |roots| :: roots[i]|
  }

  // ---------------------------------------------------------------------------------------
  // The reference partition
  // ---------------------------------------------------------------------------------------

  /** The labels after merging each pair in turn, every element starting alone. */
  function LabelsAfter(n: nat, pairs: seq<(int, int)>): (r: seq<int>)
    ensures |r| == n
  {
    if |pairs| == 0 then Identity(n)
    else
      var last := pairs[|pairs| - 1];
      Merge(LabelsAfter(n, pairs[..|pairs| - 1]), last.0, last.1)
  }

  /** One union by rank groups the elements as one merge does. */
  lemma {:induction false} UniteMerges(u: Unions, labels: seq<int>, a: int, b: int)
    requires Fits(u) && SamePartition(u.roots, labels)
    ensures SamePartition(Unite(u, a, b).roots, Merge(labels, a, b))
  {
    if 0 <= a < |u.roots| && 0 <= b < |u.roots| && u.roots[a] != u.roots[b] {
      RelabelMerges(u.roots, labels, a, b, Winner(u.ranks, u.roots[a], u.roots[b]));
    } else if 0 <= a < |u.roots| && 0 <= b < |u.roots| {
      assert Together(u.roots, labels, a, b);
      assert Merge(labels, a, b) == labels;
    }
  }


  /** Union by rank with path compression sorts the elements into the same sets as merging
      labels pair by pair. */
  lemma {:induction false} UnionsArePartition(n: nat, pairs: seq<(int, int)>)
    ensures SamePartition(AfterPairs(n, pairs).roots, LabelsAfter(n, pairs))
  {
    if |pairs| > 0 {
      var front := pairs[..|pairs| - 1];
      var last := pairs[|pairs| - 1];
      UnionsArePartition(n, front);
      AfterPairsFits(n, front);
      UniteMerges(AfterPairs(n, front), LabelsAfter(n, front), last.0, last.1);
    }
  }

  /** Every pair already taken ends up in one set. */
  lemma {:induction false} PairsJoined(n: nat, pairs: seq<(int, int)>, k: int)
    requires 0 <= k < |pairs| && 0 <= pairs[k].0 < n && 0 <= pairs[k].1 < n
    requires forall q :: 0 <= q < |pairs| ==> 0 <= pairs[q].0 < n && 0 <= pairs[q].1 < n
    ensures LabelsAfter(n, pairs)[pairs[k].0] == LabelsAfter(n, pairs)[pairs[k].1]
    ensures AfterPairs(n, pairs).roots[pairs[k].0] == AfterPairs(n, pairs).roots[pairs[k].1]
  {
    var front := pairs[..|pairs| - 1];
    var last := pairs[|pairs| - 1];
    if k < |front| {
      PairsJoined(n, front, k);
      assert front[k] == pairs[k];
      MergeJoins(LabelsAfter(n, front), last.0, last.1, pairs[k].0, pairs[k].1);
    } else {
      MergeJoins(LabelsAfter(n, front), last.0, last.1, 0, 0);
    }
    UnionsArePartition(n, pairs);
    assert Together(AfterPairs(n, pairs).roots, LabelsAfter(n, pairs), pairs[k].0, pairs[k].1);
  }

  /** One set left: every element has the same root. */
  lemma {:induction false} OneSetJoinsAll(roots: seq<int>, i: int, j: int)
    requires SetCount(roots) == 1 && 0 <= i < |roots| && 0 <= j < |roots|
    ensures roots[i] == roots[j]
  {
    var s := set k | 0 <= k < |roots| :: roots[k];
    assert roots[i] in s && roots[j] in s;
    if roots[i] != roots[j] {
      assert {roots[i], roots[j]} <= s;
      assert |{roots[i], roots[j]}| == 2;
      SubsetSize({roots[i], roots[j]}, s);
      assert false;
    }
  }

  lemma {:induction false} SubsetSize(a: set<int>, b: set<int>)
    requires a <= b
    ensures |a| <= |b|
  {
    assert b == a + (b - a);
  }

  // ---------------------------------------------------------------------------------------
  // Circuit sizes
  // ---------------------------------------------------------------------------------------

  /** The values of a map, keys taken in some order. */
  ghost function ValuesList(m: map<int, int>): (r: seq<int>)
    decreases |m|
  {
    if !exists k :: k in m then []
    else
      var k :| k in m;
      ValuesList(m - {k}) + [m[k]]
  }

  /** Any key may be taken first: the values are the same numbers whatever the order. */
  lemma {:induction false} ValuesListRemove(m: map<int, int>, k: int)
    requires k in m
    ensures multiset(ValuesList(m)) == multiset(ValuesList(m - {k})) + multiset{m[k]}
    decreases |m|
  {
    var k' :| k' in m && ValuesList(m) == ValuesList(m - {k'}) + [m[k']];
    if k' != k {
      var both := m - {k'} - {k};
      assert both == m - {k} - {k'};
      ValuesListRemove(m - {k'}, k);
      ValuesListRemove(m - {k}, k');
      assert (m - {k'})[k] == m[k] && (m - {k})[k'] == m[k'];
      RemoveBoth(multiset(ValuesList(m)), multiset(ValuesList(m - {k'})), multiset(ValuesList(both)),
                 multiset(ValuesList(m - {k})), m[k], m[k']);
    }
  }

  /** Taking `y` and then `x` out of a multiset leaves what taking `x` and then `y` does. */
  lemma {:induction false} RemoveBoth(all: multiset<int>, withoutY: multiset<int>, neither: multiset<int>, withoutX: multiset<int>, x: int, y: int)
    requires all == withoutY + multiset{y} && withoutY == neither + multiset{x} && withoutX == neither + multiset{y}
    ensures all == withoutX + multiset{x}
  {
  }

  /** `resolveSizes().values`: the circuit sizes, here taken in the order of their roots. */
  method SizeValues(m: map<int, int>, n: nat) returns (vals: seq<int>)
    requires forall k :: k in m ==> 0 <= k < n
    ensures multiset(vals) == multiset(ValuesList(m))
  {
    vals := [];
    var rest := m;
    for root := 0 to n
      invariant multiset(ValuesList(m)) == multiset(vals) + multiset(ValuesList(rest))
      invariant forall k :: k in rest ==> root <= k < n
    {
      if root in rest {
        ValuesListRemove(rest, root);
        vals := vals + [rest[root]];
        rest := rest - {root};
      }
    }
    assert forall k :: k !in rest;
  }

  /** `sortedDescending().take(3)`. */
  function TopThree(vals: seq<int>): (r: seq<int>)
    ensures |r| == if |vals| < 3 then |vals| else 3
  {
    var s := SortBy(vals, Negated);
    s[..if |s| < 3 then |s| else 3]
  }

  /** `… .reduce(Int::times)`: the product in `int` arithmetic; `reduce` of nothing throws. */
  function TopProduct(vals: seq<int>): Result<Int32>
  {
    if |vals| == 0 then Err(UnsupportedOperation) else Ok(Wrap32(Product(TopThree(vals))) as Int32)
  }

  /** The three taken are the largest: none left behind is bigger, and together with those
      left behind they are the numbers given. */
  lemma {:induction false} TopThreeLargest(vals: seq<int>)
    ensures var s, t := SortBy(vals, Negated), TopThree(vals);
      s[..|t|] == t && multiset(s) == multiset(vals) &&
      forall i, j :: 0 <= i < |t| && |t| <= j < |s| ==> t[i] >= s[j]
  {
    var s := SortBy(vals, Negated);
    SortByCorrect(vals, Negated);
    var t := TopThree(vals);
    forall i, j | 0 <= i < |t| && |t| <= j < |s|
      ensures t[i] >= s[j]
    {
      assert t[i] == s[i];
      assert Negated(s[i]) <= Negated(s[j]);
    }
  }

  /** The answer depends only on which sizes there are, not on the map's order. */
  lemma {:induction false} TopProductOrderFree(xs: seq<int>, ys: seq<int>)
    requires multiset(xs) == multiset(ys)
    ensures TopProduct(xs) == TopProduct(ys)
  {
    DescendingOrderFree(xs, ys);
    assert |xs| == |multiset(xs)| == |multiset(ys)| == |ys|;
  }

  // ---------------------------------------------------------------------------------------
  // The answers
  // ---------------------------------------------------------------------------------------

  /** `coords[a].x.toLong() * coords[b].x`. */
  function XProduct(coords: seq<ZCoordinate>, p: (int, int)): Int64
  {
    if 0 <= p.0 < |coords| && 0 <= p.1 < |coords| then Mul64(coords[p.0].x, coords[p.1].x) else 0
  }

  /** Two `int`s multiplied as `long`s never wrap. */
  lemma {:induction false} XProductExact(coords: seq<ZCoordinate>, p: (int, int))
    requires 0 <= p.0 < |coords| && 0 <= p.1 < |coords|
    ensures XProduct(coords, p) == coords[p.0].x * coords[p.1].x
  {
    var a, b := coords[p.0].x as int, coords[p.1].x as int;
    IntProductBound(a, b);
  }

  /** The loop of `evaluate` from pair `k` on, with `part1` as computed so far: after each
      union `part1` is fixed at index 1000, and the method returns at the first pair after
      whose union a single set is left; running out of pairs is an `error`. */
  ghost function Run(coords: seq<ZCoordinate>, pairs: seq<(int, int)>, k: nat, part1: Int32): Result<(Int32, Int64)>
    decreases |pairs| - k
  {
    if k >= |pairs| then Err(IllegalState)
    else
      var u := AfterPairs(|coords|, pairs[..k + 1]);
      var p1 :- if k == 1000 then TopProduct(ValuesList(Sizes(u.roots))) else Ok(part1);
      if SetCount(u.roots) == 1 then Ok((p1, XProduct(coords, pairs[k])))
      else Run(coords, pairs, k + 1, p1)
  }

  /** `evaluate()` on the puzzle input. */
  ghost function Answer(lines: seq<string>): Result<(Int32, Int64)>
  {
    var coords :- ParseCoords(lines);
    Run(coords, SortedPairs(coords), 0, 0)
  }

  /** The number of sets of a valid structure is its number of distinct roots. */
  lemma {:induction false} NumSetsCounts(ds: DisjointSet)
    requires ds.Valid()
    ensures ds.numSets == SetCount(ds.RootSeq())
  {
    var p, rk := ds.parent[..], ds.rank[..];
    var rs := ds.RootSeq();
    assert rs == RootsBy(p, rk);
    RootsByRoots(p, rk);
    assert (set i | 0 <= i < |rs| :: rs[i]) == Roots(p);
  }

  /** The structure holds the roots and ranks after the first `i` pairs. */
  ghost predicate Holds(dset: DisjointSet, n: nat, pairs: seq<(int, int)>, i: nat)
    reads dset, dset.parent, dset.rank
  {
    i <= |pairs| && dset.Valid() && dset.parent.Length == n &&
    dset.RootSeq() == AfterPairs(n, pairs[..i]).roots && dset.rank[..] == AfterPairs(n, pairs[..i]).ranks
  }

  /** Lines 33-52. */
  method Evaluate(lines: seq<string>) returns (r: Result<(Int32, Int64)>)
    ensures r == Answer(lines)
  {
    var parsed := ParseCoords(lines);
    if parsed.Err? {
      return Err(parsed.error);
    }
    r := Connect(parsed.value);
  }

  /** Lines 35-51: the pairs joined closest first until one circuit is left. */
  method Connect(coords: seq<ZCoordinate>) returns (r: Result<(Int32, Int64)>)
    ensures r == Run(coords, SortedPairs(coords), 0, 0)
  {
    var n := |coords|;
    var dset := new DisjointSet(n);
    var pairs := SortedPairs(coords);
    SortedPairsOrder(coords);
    assert dset.RootSeq() == Identity(n);
    var part1: Int32 := 0;
    for i := 0 to |pairs|
      invariant Holds(dset, n, pairs, i) && fresh(dset.parent) && fresh(dset.rank)
      invariant Run(coords, pairs, 0, 0) == Run(coords, pairs, i, part1)
    {
      assert pairs[i] in pairs;
      var next := Advance(dset, n, pairs, i, part1);
      RunStep(coords, pairs, i, part1);
      if next.Err? {
        return Err(next.error);
      }
      part1 := next.value;
      if dset.numSets == 1 {
        return Ok((part1, XProduct(coords, pairs[i])));
      }
    }
    return Err(IllegalState);
  }

  /** One pair of the run unfolded. */
  lemma {:induction false} RunStep(coords: seq<ZCoordinate>, pairs: seq<(int, int)>, i: nat, part1: Int32)
    requires i < |pairs|
    ensures var u := AfterPairs(|coords|, pairs[..i + 1]);
      var p1 := if i == 1000 then TopProduct(ValuesList(Sizes(u.roots))) else Ok(part1);
      Run(coords, pairs, i, part1) ==
        if p1.Err? then Err(p1.error)
        else if SetCount(u.roots) == 1 then Ok((p1.value, XProduct(coords, pairs[i])))
        else Run(coords, pairs, i + 1, p1.value)
  {
  }

  /** One turn of the loop, lines 41-45: `union` of pair `i`, then `part1` at index 1000. */
  method Advance(dset: DisjointSet, n: nat, pairs: seq<(int, int)>, i: nat, part1: Int32) returns (p1: Result<Int32>)
    requires Holds(dset, n, pairs, i) && i < |pairs| && 0 <= pairs[i].0 < n && 0 <= pairs[i].1 < n
    modifies dset, dset.parent, dset.rank
    ensures Holds(dset, n, pairs, i + 1) && dset.parent == old(dset.parent) && dset.rank == old(dset.rank)
    ensures dset.numSets == SetCount(AfterPairs(n, pairs[..i + 1]).roots)
    ensures p1 == if i == 1000 then TopProduct(ValuesList(Sizes(AfterPairs(n, pairs[..i + 1]).roots))) else Ok(part1)
  {
    Step(dset, n, pairs, i);
    p1 := Ok(part1);
    if i == 1000 {
      p1 := LargestThree(dset);
    }
    NumSetsCounts(dset);
  }

  /** Line 45: the product of the three largest set sizes. */
  method LargestThree(dset: DisjointSet) returns (r: Result<Int32>)
    requires dset.Valid()
    modifies dset.parent
    ensures dset.Valid() && dset.numSets == old(dset.numSets) && dset.rank[..] == old(dset.rank[..])
    ensures dset.RootSeq() == old(dset.RootSeq())
    ensures r == TopProduct(ValuesList(Sizes(dset.RootSeq())))
  {
    var m := dset.ResolveSizes();
    var vals := SizeValues(m, dset.parent.Length);
    TopProductOrderFree(vals, ValuesList(m));
    r := TopProduct(vals);
  }

  /** `dset.union(a, b)` for pair `i`: the structure now holds the roots and ranks after the
      first `i + 1` pairs. */
  method Step(dset: DisjointSet, n: nat, pairs: seq<(int, int)>, i: nat)
    requires dset.Valid() && dset.parent.Length == n && i < |pairs|
    requires 0 <= pairs[i].0 < n && 0 <= pairs[i].1 < n
    requires dset.RootSeq() == AfterPairs(n, pairs[..i]).roots && dset.rank[..] == AfterPairs(n, pairs[..i]).ranks
    modifies dset, dset.parent, dset.rank
    ensures dset.Valid() && dset.parent.Length == n && dset.parent == old(dset.parent) && dset.rank == old(dset.rank)
    ensures dset.RootSeq() == AfterPairs(n, pairs[..i + 1]).roots && dset.rank[..] == AfterPairs(n, pairs[..i + 1]).ranks
  {
    var (a, b) := pairs[i];
    assert pairs[..i + 1][..i] == pairs[..i];
    ghost var u := AfterPairs(n, pairs[..i]);
    AfterPairsFits(n, pairs[..i]);
    var _ := dset.Union(a, b);
    assert AfterPairs(n, pairs[..i + 1]) == Unite(u, a, b);
  }
}
