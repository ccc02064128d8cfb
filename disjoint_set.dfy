/**
 * A union-find structure with path compression and union by rank, over the elements
 * 0 .. size-1. The pure layer describes a parent table as a sequence and the root each
 * element reaches by following parents; the class updates the arrays in place and keeps
 * its set counter equal to the number of roots.
 */
module DisjointSets {
  import opened Wrappers

  /** Every parent link points inside the table. */
  predicate InRange(p: seq<int>)
  {
    forall i :: 0 <= i < |p| ==> 0 <= p[i] < |p|
  }

  /** Parent links strictly increase the rank, and ranks lie in 0 .. |p|: following parents
      always ends at a root. */
  ghost predicate RankOrdered(p: seq<int>, rk: seq<int>)
  {
    |p| == |rk| && InRange(p) &&
    (forall i :: 0 <= i < |rk| ==> 0 <= rk[i] <= |p|) &&
    (forall i :: 0 <= i < |p| && p[i] != i ==> rk[i] < rk[p[i]])
  }

  /** The root reached from `i`: a self-parented element, of strictly higher rank unless it
      is `i` itself. */
  function Root(p: seq<int>, rk: seq<int>, i: int): (r: int)
    requires RankOrdered(p, rk) && 0 <= i < |p|
    ensures 0 <= r < |p| && p[r] == r
    ensures r == i || rk[i] < rk[r]
    decreases |p| - rk[i]
  {
    if p[i] == i then i else Root(p, rk, p[i])
  }

  /** The elements that are their own parent. */
  function Roots(p: seq<int>): set<int>
  {
    set i | 0 <= i < |p| && p[i] == i
  }

  /** `q` arises from `p` by path compression: every element keeps its parent or is
      re-linked straight to its root. */
  ghost predicate Compressed(p: seq<int>, q: seq<int>, rk: seq<int>)
    requires RankOrdered(p, rk)
  {
    |q| == |p| && forall k :: 0 <= k < |p| ==> q[k] == p[k] || q[k] == Root(p, rk, k)
  }

  /** The root does not depend on which valid rank table witnesses termination. */
  lemma {:induction false} RootRankIndependent(p: seq<int>, rk1: seq<int>, rk2: seq<int>, i: int)
    requires RankOrdered(p, rk1) && RankOrdered(p, rk2) && 0 <= i < |p|
    ensures Root(p, rk1, i) == Root(p, rk2, i)
    decreases |p| - rk1[i]
  {
    if p[i] != i {
      RootRankIndependent(p, rk1, rk2, p[i]);
    }
  }

  /** Path compression keeps the rank order. */
  lemma {:induction false} CompressedOrdered(p: seq<int>, q: seq<int>, rk: seq<int>)
    requires RankOrdered(p, rk) && Compressed(p, q, rk)
    ensures RankOrdered(q, rk)
  {
    forall k | 0 <= k < |q| && q[k] != k
      ensures rk[k] < rk[q[k]]
    {
      var _ := Root(p, rk, k);
    }
  }

  /** Path compression leaves the root of every element unchanged. */
  lemma {:induction false} CompressedRoot(p: seq<int>, q: seq<int>, rk: seq<int>, j: int)
    requires RankOrdered(p, rk) && Compressed(p, q, rk) && RankOrdered(q, rk) && 0 <= j < |p|
    ensures Root(q, rk, j) == Root(p, rk, j)
    decreases |p| - rk[j]
  {
    var r := Root(p, rk, j);
    if q[j] == j {
      assert p[j] == j;
    } else {
      CompressedRoot(p, q, rk, q[j]);
      if q[j] != p[j] {
        assert Root(p, rk, r) == r;
      }
    }
  }

  /** Path compression keeps the set of roots. */
  lemma {:induction false} CompressedRoots(p: seq<int>, q: seq<int>, rk: seq<int>)
    requires RankOrdered(p, rk) && Compressed(p, q, rk)
    ensures Roots(q) == Roots(p)
  {
    forall k | 0 <= k < |p|
      ensures q[k] == k <==> p[k] == k
    {
      var _ := Root(p, rk, k);
    }
  }

  /** Linking root `c` under root `nr` (whose rank strictly exceeds `c`'s in the new rank
      table `rk2`, which differs from `rk` at most by raising `nr`) keeps the table ordered. */
  lemma {:induction false} LinkOrdered(p: seq<int>, rk: seq<int>, rk2: seq<int>, c: int, nr: int)
    requires RankOrdered(p, rk) && 0 <= c < |p| && 0 <= nr < |p| && c != nr
    requires p[c] == c && p[nr] == nr
    requires |rk2| == |rk| && rk2[nr] <= |p| && rk2[c] < rk2[nr]
    requires forall k :: 0 <= k < |rk| && k != nr ==> rk2[k] == rk[k]
    requires rk[nr] <= rk2[nr]
    ensures RankOrdered(p[c := nr], rk2)
  {
  }

  /** After linking `c` under `nr`, the elements that reached `c` reach `nr`; every other
      element keeps its root. */
  lemma {:induction false} LinkRoot(p: seq<int>, rk: seq<int>, rk2: seq<int>, c: int, nr: int, j: int)
    requires RankOrdered(p, rk) && 0 <= c < |p| && 0 <= nr < |p| && c != nr
    requires p[c] == c && p[nr] == nr && RankOrdered(p[c := nr], rk2) && 0 <= j < |p|
    ensures Root(p[c := nr], rk2, j) == if Root(p, rk, j) == c then nr else Root(p, rk, j)
    decreases |p| - rk[j]
  {
    var q := p[c := nr];
    if j == c {
      assert q[nr] == nr;
    } else if p[j] != j {
      LinkRoot(p, rk, rk2, c, nr, p[j]);
    }
  }

  /** Linking root `c` under root `nr`: the table stays ordered, one root disappears, and
      the elements that reached `c` now reach `nr`. */
  lemma {:induction false} LinkForest(p: seq<int>, rk: seq<int>, rk2: seq<int>, c: int, nr: int)
    requires RankOrdered(p, rk) && 0 <= c < |p| && 0 <= nr < |p| && c != nr
    requires p[c] == c && p[nr] == nr
    requires |rk2| == |rk| && rk2[nr] <= |p| && rk2[c] < rk2[nr]
    requires forall k :: 0 <= k < |rk| && k != nr ==> rk2[k] == rk[k]
    requires rk[nr] <= rk2[nr]
    ensures RankOrdered(p[c := nr], rk2)
    ensures RootsBy(p[c := nr], rk2) == Relabel(RootsBy(p, rk), c, nr, nr)
    ensures Relabel(RootsBy(p, rk), c, nr, nr) == Relabel(RootsBy(p, rk), nr, c, nr)
  {
    LinkOrdered(p, rk, rk2, c, nr);
    forall j | 0 <= j < |p|
      ensures Root(p[c := nr], rk2, j) == if Root(p, rk, j) == c then nr else Root(p, rk, j)
    {
      LinkRoot(p, rk, rk2, c, nr, j);
    }
    assert Root(p, rk, nr) == nr;
  }

  /** Linking one root under another removes exactly that root. */
  lemma {:induction false} LinkRoots(p: seq<int>, c: int, nr: int)
    requires 0 <= c < |p| && 0 <= nr < |p| && c != nr && p[c] == c && p[nr] == nr
    ensures Roots(p[c := nr]) == Roots(p) - {c}
    ensures |Roots(p[c := nr])| == |Roots(p)| - 1 && |Roots(p)| >= 2
  {
    var q := p[c := nr];
    assert Roots(q) == Roots(p) - {c};
    assert nr in Roots(q);
  }

  /** The parent table and the rank table at construction. */
  function Identity(n: nat): (p: seq<int>)
    ensures |p| == n && forall i :: 0 <= i < n ==> p[i] == i
  {
    seq(n, i => i)
  }

  function Zeros(n: nat): (rk: seq<int>)
    ensures |rk| == n && forall i :: 0 <= i < n ==> rk[i] == 0
  {
    seq(n, i => 0)
  }

  /** At construction every element is its own root, so there are `n` roots. */
  lemma {:induction false} InitialRoots(n: nat)
    ensures RankOrdered(Identity(n), Zeros(n))
    ensures |Roots(Identity(n))| == n
    ensures forall j :: 0 <= j < n ==> Root(Identity(n), Zeros(n), j) == j
  {
    if n > 0 {
      InitialRoots(n - 1);
      assert Roots(Identity(n)) == Roots(Identity(n - 1)) + {n - 1};
    } else {
      assert Roots(Identity(0)) == {};
    }
  }

  /** The root of every element, by index. */
  function RootsBy(p: seq<int>, rk: seq<int>): (rs: seq<int>)
    requires RankOrdered(p, rk)
    ensures |rs| == |p| && forall i :: 0 <= i < |p| ==> rs[i] == Root(p, rk, i)
  {
    seq(|p|, i requires 0 <= i < |p| => Root(p, rk, i))
  }

  /** The roots reached are exactly the self-parented elements. */
  lemma {:induction false} RootsByRoots(p: seq<int>, rk: seq<int>)
    requires RankOrdered(p, rk)
    ensures (set i | 0 <= i < |p| :: RootsBy(p, rk)[i]) == Roots(p)
  {
    var rs := RootsBy(p, rk);
    forall r | r in Roots(p)
      ensures r in set i | 0 <= i < |p| :: rs[i]
    {
      assert rs[r] == r;
    }
  }

  /** The roots after a union: elements that reached `a` or `b` now reach `r`. */
  function Relabel(rs: seq<int>, a: int, b: int, r: int): (rs2: seq<int>)
    ensures |rs2| == |rs|
    ensures forall i :: 0 <= i < |rs| ==> rs2[i] == if rs[i] == a || rs[i] == b then r else rs[i]
  {
    seq(|rs|, i requires 0 <= i < |rs| => if rs[i] == a || rs[i] == b then r else rs[i])
  }

  // ---------------------------------------------------------------------------------------
  // The reference partition
  // ---------------------------------------------------------------------------------------

  /** Joining the sets of `a` and `b` the simplest way: every element labelled as `b` takes
      the label of `a`. */
  function Merge(labels: seq<int>, a: int, b: int): (r: seq<int>)
    ensures |r| == |labels|
    ensures 0 <= a < |labels| && 0 <= b < |labels| ==> r[a] == labels[a] && r[b] == labels[a]
    ensures !(0 <= a < |labels| && 0 <= b < |labels|) ==> r == labels
    ensures 0 <= a < |labels| && 0 <= b < |labels| ==> forall i :: 0 <= i < |r| && labels[i] != labels[b] ==> r[i] == labels[i]
  {
    if 0 <= a < |labels| && 0 <= b < |labels| then
      seq(|labels|, i requires 0 <= i < |labels| => if labels[i] == labels[b] then labels[a] else labels[i])
    else labels
  }

  /** Elements `i` and `j` are together in both labellings or in neither. */
  ghost predicate Together(xs: seq<int>, ys: seq<int>, i: int, j: int)
    requires 0 <= i < |xs| && 0 <= j < |xs| && |ys| == |xs|
  {
    xs[i] == xs[j] <==> ys[i] == ys[j]
  }

  /** Two labellings put the same elements together. */
  ghost predicate SamePartition(xs: seq<int>, ys: seq<int>)
  {
    |xs| == |ys| && forall i, j :: 0 <= i < |xs| && 0 <= j < |xs| ==> Together(xs, ys, i, j)
  }

  /** Giving the roots of `a` and `b` one of the two as their common root groups the
      elements as merging the labels of `a` and `b` does. */
  lemma {:induction false} RelabelMerges(rs: seq<int>, labels: seq<int>, a: int, b: int, w: int)
    requires SamePartition(rs, labels) && 0 <= a < |rs| && 0 <= b < |rs| && (w == rs[a] || w == rs[b])
    ensures SamePartition(Relabel(rs, rs[a], rs[b], w), Merge(labels, a, b))
  {
    var rs2 := Relabel(rs, rs[a], rs[b], w);
    var ls := Merge(labels, a, b);
    forall i, j | 0 <= i < |rs| && 0 <= j < |rs|
      ensures Together(rs2, ls, i, j)
    {
      assert Together(rs, labels, i, a) && Together(rs, labels, i, b) && Together(rs, labels, i, j);
      assert Together(rs, labels, j, a) && Together(rs, labels, j, b);
    }
  }

  /** The labels after the loops of `findClusters` reach position (i, j), merging the labels
      of every related pair they pass; row `i` has reached `j`. */
  function Scan<T>(data: seq<T>, rel: (T, T) -> bool, i: int, j: int): (ls: seq<int>)
    requires 0 <= i < j <= |data|
    ensures |ls| == |data|
    decreases i, j
  {
    if j == i + 1 then Scanned(data, rel, i)
    else
      var ls := Scan(data, rel, i, j - 1);
      if rel(data[i], data[j - 1]) then Merge(ls, i, j - 1) else ls
  }

  /** The labels after the first `i` rounds of the outer loop of `findClusters`. */
  function Scanned<T>(data: seq<T>, rel: (T, T) -> bool, i: int): (ls: seq<int>)
    requires 0 <= i <= |data|
    ensures |ls| == |data|
    decreases i, 0
  {
    if i == 0 then Identity(|data|) else Scan(data, rel, i - 1, |data|)
  }

  /** One step of the inner loop of `findClusters`: a related pair relabels the two roots to
      one of them, an unrelated one changes nothing; either way the roots group the elements
      as the labels one step on do. */
  lemma {:induction false} ScanStep<T>(data: seq<T>, rel: (T, T) -> bool, i: int, j: int,
                                       rs: seq<int>, rs2: seq<int>, w: int)
    requires 0 <= i < j < |data| && SamePartition(rs, Scan(data, rel, i, j))
    requires rel(data[i], data[j]) ==> rs2 == Relabel(rs, rs[i], rs[j], w) && (w == rs[i] || w == rs[j])
    requires !rel(data[i], data[j]) ==> rs2 == rs
    ensures SamePartition(rs2, Scan(data, rel, i, j + 1))
  {
    if rel(data[i], data[j]) {
      RelabelMerges(rs, Scan(data, rel, i, j), i, j, w);
    }
  }

  /** After a merge `a` and `b` share a label, and elements that shared one still do. */
  lemma {:induction false} MergeJoins(labels: seq<int>, a: int, b: int, i: int, j: int)
    requires 0 <= a < |labels| && 0 <= b < |labels| && 0 <= i < |labels| && 0 <= j < |labels|
    ensures Merge(labels, a, b)[a] == Merge(labels, a, b)[b]
    ensures labels[i] == labels[j] ==> Merge(labels, a, b)[i] == Merge(labels, a, b)[j]
  {
  }

  /** Every pair `a < b` the predicate relates that the loops have passed by position (i, j)
      shares a label there. */
  lemma {:induction false} ScanJoined<T>(data: seq<T>, rel: (T, T) -> bool, i: int, j: int, a: int, b: int)
    requires 0 <= i < j <= |data| && 0 <= a < b < |data| && rel(data[a], data[b])
    requires a < i || (a == i && b < j)
    ensures Scan(data, rel, i, j)[a] == Scan(data, rel, i, j)[b]
    decreases i, j
  {
    if j == i + 1 {
      if i > 0 {
        ScanJoined(data, rel, i - 1, |data|, a, b);
      }
    } else {
      var ls := Scan(data, rel, i, j - 1);
      if a == i && b == j - 1 {
        MergeJoins(ls, a, b, a, b);
      } else {
        ScanJoined(data, rel, i, j - 1, a, b);
        if rel(data[i], data[j - 1]) {
          MergeJoins(ls, i, j - 1, a, b);
        }
      }
    }
  }

  /** Both elements of every related pair end up with one label. */
  lemma {:induction false} ScannedJoined<T>(data: seq<T>, rel: (T, T) -> bool, a: int, b: int)
    requires 0 <= a < b < |data| && rel(data[a], data[b])
    ensures Scanned(data, rel, |data|)[a] == Scanned(data, rel, |data|)[b]
  {
    ScanJoined(data, rel, |data| - 1, |data|, a, b);
  }

  /** Elements `x` and `y` are related directly: the predicate holds of them, the smaller
      index first, as `findClusters` asks it. */
  ghost predicate Adjacent<T>(data: seq<T>, rel: (T, T) -> bool, x: int, y: int)
    requires 0 <= x < |data| && 0 <= y < |data|
  {
    (x < y && rel(data[x], data[y])) || (y < x && rel(data[y], data[x]))
  }

  /** A walk through the indices of `data` along directly related elements. */
  ghost predicate Path<T>(data: seq<T>, rel: (T, T) -> bool, p: seq<int>)
  {
    |p| > 0 && (forall k :: 0 <= k < |p| ==> 0 <= p[k] < |data|) &&
    forall k :: 0 <= k < |p| - 1 ==> Adjacent(data, rel, p[k], p[k + 1])
  }

  /** `x` and `y` are joined by a chain of related elements. */
  ghost predicate Connected<T>(data: seq<T>, rel: (T, T) -> bool, x: int, y: int)
  {
    exists p :: Path(data, rel, p) && p[0] == x && p[|p| - 1] == y
  }

  /** Two chains that meet make one. */
  lemma {:induction false} ConnectedTrans<T>(data: seq<T>, rel: (T, T) -> bool, x: int, y: int, z: int)
    requires Connected(data, rel, x, y) && Connected(data, rel, y, z)
    ensures Connected(data, rel, x, z)
  {
    var p :| Path(data, rel, p) && p[0] == x && p[|p| - 1] == y;
    var q :| Path(data, rel, q) && q[0] == y && q[|q| - 1] == z;
    var r := p + q[1..];
    forall k | 0 <= k < |r| ensures 0 <= r[k] < |data| {
      if k >= |p| {
        assert r[k] == q[k - |p| + 1];
      }
    }
    forall k | 0 <= k < |r| - 1 ensures Adjacent(data, rel, r[k], r[k + 1]) {
      if k < |p| - 1 {
        assert r[k] == p[k] && r[k + 1] == p[k + 1];
      } else {
        assert r[k] == q[k - |p| + 1] && r[k + 1] == q[k - |p| + 2];
      }
    }
    assert Path(data, rel, r) && r[0] == x && r[|r| - 1] == z;
  }

  /** Labels that the loops made equal by position (i, j) belong to connected elements. */
  lemma {:induction false} ScanConnected<T>(data: seq<T>, rel: (T, T) -> bool, i: int, j: int, x: int, y: int)
    requires 0 <= i < j <= |data| && 0 <= x < |data| && 0 <= y < |data|
    requires Scan(data, rel, i, j)[x] == Scan(data, rel, i, j)[y]
    ensures Connected(data, rel, x, y)
    decreases i, j
  {
    if j == i + 1 {
      if i == 0 {
        assert Path(data, rel, [x]);
      } else {
        ScanConnected(data, rel, i - 1, |data|, x, y);
      }
    } else {
      var ls := Scan(data, rel, i, j - 1);
      var a, b := i, j - 1;
      if !rel(data[a], data[b]) || (ls[x] == ls[b] <==> ls[y] == ls[b]) {
        ScanConnected(data, rel, i, j - 1, x, y);
      } else {
        assert Path(data, rel, [b, a]);
        if ls[x] == ls[b] {
          ScanConnected(data, rel, i, j - 1, x, b);
          ScanConnected(data, rel, i, j - 1, a, y);
          ConnectedTrans(data, rel, x, b, a);
          ConnectedTrans(data, rel, x, a, y);
        } else {
          assert Path(data, rel, [a, b]);
          ScanConnected(data, rel, i, j - 1, x, a);
          ScanConnected(data, rel, i, j - 1, b, y);
          ConnectedTrans(data, rel, x, a, b);
          ConnectedTrans(data, rel, x, b, y);
        }
      }
    }
  }

  /** Both ends of a chain of related elements end up with one label. */
  lemma {:induction false} PathJoined<T>(data: seq<T>, rel: (T, T) -> bool, p: seq<int>)
    requires Path(data, rel, p)
    ensures Scanned(data, rel, |data|)[p[0]] == Scanned(data, rel, |data|)[p[|p| - 1]]
  {
    if |p| > 1 {
      var front := p[..|p| - 1];
      assert Path(data, rel, front) by {
        forall k | 0 <= k < |front| - 1 ensures Adjacent(data, rel, front[k], front[k + 1]) {
          assert front[k] == p[k] && front[k + 1] == p[k + 1];
        }
      }
      PathJoined(data, rel, front);
      var u, v := p[|p| - 2], p[|p| - 1];
      assert Adjacent(data, rel, u, v);
      if u < v {
        ScannedJoined(data, rel, u, v);
      } else {
        ScannedJoined(data, rel, v, u);
      }
    }
  }

  /** The labels `findClusters` ends with put two elements together exactly when a chain of
      related elements joins them. */
  lemma {:induction false} ScannedConnected<T>(data: seq<T>, rel: (T, T) -> bool, x: int, y: int)
    requires 0 <= x < |data| && 0 <= y < |data|
    ensures Scanned(data, rel, |data|)[x] == Scanned(data, rel, |data|)[y] <==> Connected(data, rel, x, y)
  {
    if Scanned(data, rel, |data|)[x] == Scanned(data, rel, |data|)[y] {
      ScanConnected(data, rel, |data| - 1, |data|, x, y);
    }
    if Connected(data, rel, x, y) {
      var p :| Path(data, rel, p) && p[0] == x && p[|p| - 1] == y;
      PathJoined(data, rel, p);
    }
  }

  /** Roots grouped as the labels `findClusters` ends with: related pairs share a root, and
      two elements share one exactly when a chain of related elements joins them. */
  lemma {:induction false} ClustersConnected<T>(rs: seq<int>, data: seq<T>, rel: (T, T) -> bool)
    requires SamePartition(rs, Scanned(data, rel, |data|))
    ensures forall i, j :: 0 <= i < j < |data| && rel(data[i], data[j]) ==> rs[i] == rs[j]
    ensures forall x, y :: 0 <= x < |data| && 0 <= y < |data| ==> (rs[x] == rs[y] <==> Connected(data, rel, x, y))
  {
    var ls := Scanned(data, rel, |data|);
    forall i, j | 0 <= i < j < |data| && rel(data[i], data[j]) ensures rs[i] == rs[j] {
      ScannedJoined(data, rel, i, j);
      assert Together(rs, ls, i, j);
    }
    forall x, y | 0 <= x < |data| && 0 <= y < |data| ensures rs[x] == rs[y] <==> Connected(data, rel, x, y) {
      ScannedConnected(data, rel, x, y);
      assert Together(rs, ls, x, y);
    }
  }

  /** A labelling groups its elements as itself does. */
  lemma {:induction false} SamePartitionRefl(xs: seq<int>)
    ensures SamePartition(xs, xs)
  {
    forall i, j | 0 <= i < |xs| && 0 <= j < |xs| ensures Together(xs, xs, i, j) {
    }
  }

  /** The root `union` keeps: the one of higher rank, `x`'s on a tie. */
  function Winner(rk: seq<int>, rx: int, ry: int): int
    requires 0 <= rx < |rk| && 0 <= ry < |rk|
  {
    if rk[rx] < rk[ry] then ry else rx
  }

  /** The ranks after `union`: on a tie the kept root `rx` goes up by one. */
  function Promoted(rk: seq<int>, rx: int, ry: int): seq<int>
    requires 0 <= rx < |rk| && 0 <= ry < |rk|
  {
    if rk[rx] == rk[ry] then rk[rx := rk[rx] + 1] else rk
  }

  /** A well-formed forest of `n` trees: ranks grow towards the roots and no rank exceeds
      the number of `union`s performed so far. */
  ghost predicate Forest(p: seq<int>, rk: seq<int>, n: int)
  {
    RankOrdered(p, rk) && n == |Roots(p)| &&
    forall i :: 0 <= i < |rk| ==> rk[i] <= |p| - n
  }

  /** The parent table after `union` links the roots `rx` and `ry`. */
  function Linked(p: seq<int>, rk: seq<int>, rx: int, ry: int): seq<int>
    requires 0 <= rx < |p| && 0 <= ry < |p| && |rk| == |p|
  {
    if rk[rx] < rk[ry] then p[rx := ry] else p[ry := rx]
  }

  /** Linking two distinct roots keeps the forest well formed with one tree fewer, sends both
      to the winner, and relabels the roots of every other element accordingly. */
  lemma {:induction false} LinkState(p: seq<int>, rk: seq<int>, rx: int, ry: int, n: int)
    requires Forest(p, rk, n) && 0 <= rx < |p| && 0 <= ry < |p| && rx != ry
    requires p[rx] == rx && p[ry] == ry
    ensures Forest(Linked(p, rk, rx, ry), Promoted(rk, rx, ry), n - 1)
    ensures RootsBy(Linked(p, rk, rx, ry), Promoted(rk, rx, ry)) == Relabel(RootsBy(p, rk), rx, ry, Winner(rk, rx, ry))
    ensures Root(Linked(p, rk, rx, ry), Promoted(rk, rx, ry), rx) == Winner(rk, rx, ry)
    ensures Root(Linked(p, rk, rx, ry), Promoted(rk, rx, ry), ry) == Winner(rk, rx, ry)
  {
    var rk2 := Promoted(rk, rx, ry);
    if rk[rx] < rk[ry] {
      LinkUnder(p, rk, rk2, rx, ry, n);
    } else {
      LinkUnder(p, rk, rk2, ry, rx, n);
    }
  }

  /** LinkState for one orientation: root `c` goes under root `nr`, with ranks `rk2`. */
  lemma {:induction false} LinkUnder(p: seq<int>, rk: seq<int>, rk2: seq<int>, c: int, nr: int, n: int)
    requires Forest(p, rk, n) && 0 <= c < |p| && 0 <= nr < |p| && c != nr
    requires p[c] == c && p[nr] == nr
    requires |rk2| == |rk| && rk[c] <= rk[nr] && rk[nr] <= rk2[nr] <= rk[nr] + 1 && rk2[c] < rk2[nr]
    requires forall k :: 0 <= k < |rk| && k != nr ==> rk2[k] == rk[k]
    ensures Forest(p[c := nr], rk2, n - 1)
    ensures RootsBy(p[c := nr], rk2) == Relabel(RootsBy(p, rk), c, nr, nr)
    ensures RootsBy(p[c := nr], rk2) == Relabel(RootsBy(p, rk), nr, c, nr)
    ensures Root(p[c := nr], rk2, c) == nr && Root(p[c := nr], rk2, nr) == nr
  {
    LinkRoots(p, c, nr);
    LinkForest(p, rk, rk2, c, nr);
    assert Root(p, rk, c) == c && Root(p, rk, nr) == nr;
  }

  /** The `Int2IntArrayMap` `resolve` fills: each root, in order of first appearance, mapped
      to the number of distinct roots before it. */
  function RootIndex(rs: seq<int>): (m: map<int, int>)
    ensures forall i :: 0 <= i < |rs| ==> rs[i] in m
    ensures forall k :: k in m ==> 0 <= m[k] < |m|
  {
    if |rs| == 0 then map[]
    else
      var m := RootIndex(rs[..|rs| - 1]);
      var r := rs[|rs| - 1];
      assert forall i :: 0 <= i < |rs| - 1 ==> rs[..|rs| - 1][i] == rs[i];
      if r in m then m else m[r := |m|]
  }

  /** The index has exactly the roots as keys and gives distinct roots distinct positions. */
  lemma {:induction false} RootIndexShape(rs: seq<int>)
    ensures RootIndex(rs).Keys == set i | 0 <= i < |rs| :: rs[i]
    ensures forall k, k' :: k in RootIndex(rs) && k' in RootIndex(rs) && k != k' ==> RootIndex(rs)[k] != RootIndex(rs)[k']
  {
    RootIndexKeys(rs);
    RootIndexDistinct(rs);
  }

  lemma {:induction false} RootIndexKeys(rs: seq<int>)
    ensures RootIndex(rs).Keys == set i | 0 <= i < |rs| :: rs[i]
  {
    if |rs| > 0 {
      var init := rs[..|rs| - 1];
      RootIndexKeys(init);
      assert forall i :: 0 <= i < |rs| - 1 ==> init[i] == rs[i];
      assert (set i | 0 <= i < |rs| :: rs[i]) == (set i | 0 <= i < |init| :: init[i]) + {rs[|rs| - 1]};
    }
  }

  lemma {:induction false} RootIndexDistinct(rs: seq<int>)
    ensures forall k, k' :: k in RootIndex(rs) && k' in RootIndex(rs) && k != k' ==> RootIndex(rs)[k] != RootIndex(rs)[k']
  {
    if |rs| > 0 {
      RootIndexDistinct(rs[..|rs| - 1]);
    }
  }

  /** The position `resolve` gives each element: the index of its root's set. */
  function Homes(rs: seq<int>): (h: seq<int>)
    ensures |h| == |rs| && forall i :: 0 <= i < |rs| ==> 0 <= h[i] < |RootIndex(rs)|
  {
    var m := RootIndex(rs);
    seq(|rs|, i requires 0 <= i < |rs| => m[rs[i]])
  }

  /** The set of `data[j]`, `j < n`, whose position is `k`. */
  function Group<T>(data: seq<T>, homes: seq<int>, k: int, n: int): set<T>
    requires 0 <= n <= |data| && n <= |homes|
  {
    set j | 0 <= j < n && homes[j] == k :: data[j]
  }

  lemma {:induction false} GroupStep<T>(data: seq<T>, homes: seq<int>, k: int, n: int)
    requires 0 <= n < |data| && n < |homes|
    ensures Group(data, homes, k, n + 1) == Group(data, homes, k, n) + if homes[n] == k then {data[n]} else {}
  {
  }

  /** `groups[k]` is `Group(data, homes, k, n)` for every `k`. */
  ghost predicate Grouped<T>(groups: seq<set<T>>, data: seq<T>, homes: seq<int>, n: int)
    requires 0 <= n <= |data| && n <= |homes|
  {
    forall k :: 0 <= k < |groups| ==> groups[k] == Group(data, homes, k, n)
  }

  /** Adding `data[n]` to the set at its position extends the grouping by one element. */
  lemma {:induction false} GroupedStep<T>(groups: seq<set<T>>, data: seq<T>, homes: seq<int>, n: int)
    requires 0 <= n < |data| && n < |homes| && 0 <= homes[n] < |groups|
    requires Grouped(groups, data, homes, n)
    ensures Grouped(groups[homes[n] := groups[homes[n]] + {data[n]}], data, homes, n + 1)
  {
    var g := groups[homes[n] := groups[homes[n]] + {data[n]}];
    forall k | 0 <= k < |g|
      ensures g[k] == Group(data, homes, k, n + 1)
    {
      GroupStep(data, homes, k, n);
    }
  }

  /** The index `resolve` builds has one entry per root, so one set per root. */
  lemma {:induction false} RootIndexRoots(p: seq<int>, rk: seq<int>)
    requires RankOrdered(p, rk)
    ensures RootIndex(RootsBy(p, rk)).Keys == Roots(p)
    ensures |RootIndex(RootsBy(p, rk))| == |Roots(p)|
  {
    RootsByRoots(p, rk);
    RootIndexShape(RootsBy(p, rk));
    var m := RootIndex(RootsBy(p, rk));
    assert |m| == |m.Keys|;
  }

  /** The values `resolveSizes` reports: for each root, the number of elements under it. */
  function Sizes(rs: seq<int>): map<int, int>
  {
    if |rs| == 0 then map[]
    else
      var m := Sizes(rs[..|rs| - 1]);
      var r := rs[|rs| - 1];
      m[r := if r in m then m[r] + 1 else 1]
  }

  /** The sizes have one key per distinct root, and each counts that root's occurrences. */
  lemma {:induction false} SizesShape(rs: seq<int>)
    ensures Sizes(rs).Keys == set i | 0 <= i < |rs| :: rs[i]
    ensures forall k :: k in Sizes(rs) ==> Sizes(rs)[k] == multiset(rs)[k]
  {
    if |rs| > 0 {
      var init, r := rs[..|rs| - 1], rs[|rs| - 1];
      SizesShape(init);
      assert rs == init + [r];
      assert forall i :: 0 <= i < |rs| - 1 ==> init[i] == rs[i];
    }
  }

  /** One more element extends the index as `putIfAbsent(root, size)` does. */
  lemma {:induction false} RootIndexSnoc(rs: seq<int>, i: int)
    requires 0 <= i < |rs|
    ensures RootIndex(rs[..i + 1]) ==
            if rs[i] in RootIndex(rs[..i]) then RootIndex(rs[..i]) else RootIndex(rs[..i])[rs[i] := |RootIndex(rs[..i])|]
  {
    assert rs[..i + 1][..i] == rs[..i];
  }

  /** One more element counts once more in the sizes, as `mergeInt(root, 1, Integer::sum)` does. */
  lemma {:induction false} SizesSnoc(rs: seq<int>, i: int)
    requires 0 <= i < |rs|
    ensures Sizes(rs[..i + 1]) ==
            Sizes(rs[..i])[rs[i] := if rs[i] in Sizes(rs[..i]) then Sizes(rs[..i])[rs[i]] + 1 else 1]
  {
    assert rs[..i + 1][..i] == rs[..i];
  }

  /** The counting loop's step: one more occurrence of the root of element `i`. */
  lemma {:induction false} SizesStep(rs: seq<int>, i: int, m: map<int, int>, root: int)
    requires 0 <= i < |rs| && m == Sizes(rs[..i]) && root == rs[i]
    ensures m[root := if root in m then m[root] + 1 else 1] == Sizes(rs[..i + 1])
  {
    SizesSnoc(rs, i);
  }

  /** The sum of the values of a map. */
  ghost function MapSum(m: map<int, int>): int
    decreases |m|
  {
    if !exists k :: k in m then 0
    else
      var k :| k in m;
      m[k] + MapSum(m - {k})
  }

  /** Any key may be taken out first. */
  lemma {:induction false} MapSumRemove(m: map<int, int>, k: int)
    requires k in m
    ensures MapSum(m) == m[k] + MapSum(m - {k})
    decreases |m|
  {
    var k' :| k' in m && MapSum(m) == m[k'] + MapSum(m - {k'});
    if k' != k {
      MapSumRemove(m - {k'}, k);
      MapSumRemove(m - {k}, k');
      assert m - {k'} - {k} == m - {k} - {k'};
    }
  }

  /** The sizes add up to the number of elements. */
  lemma {:induction false} SizesTotal(rs: seq<int>)
    ensures MapSum(Sizes(rs)) == |rs|
  {
    if |rs| > 0 {
      var init, r := rs[..|rs| - 1], rs[|rs| - 1];
      SizesTotal(init);
      var m := Sizes(init);
      var m2 := Sizes(rs);
      MapSumRemove(m2, r);
      assert m2 - {r} == m - {r};
      if r in m {
        MapSumRemove(m, r);
      } else {
        assert m - {r} == m;
      }
    }
  }

  /** The sizes of a forest are keyed by its roots and add up to its number of elements. */
  lemma {:induction false} ForestSizes(p: seq<int>, rk: seq<int>)
    requires RankOrdered(p, rk)
    ensures Sizes(RootsBy(p, rk)).Keys == Roots(p)
    ensures MapSum(Sizes(RootsBy(p, rk))) == |p|
  {
    RootsByRoots(p, rk);
    SizesShape(RootsBy(p, rk));
    SizesTotal(RootsBy(p, rk));
  }

  class DisjointSet {
    var parent: array<int>
    var rank: array<int>
    var numSets: int

    /** The arrays form a rank-ordered forest, the counter is the number of roots, and no
        rank exceeds the number of unions performed so far. */
    ghost predicate Valid()
      reads this, parent, rank
    {
      parent != rank && Forest(parent[..], rank[..], numSets)
    }

    /** The root of `i` in the current forest. */
    ghost function RootOf(i: int): int
      reads this, parent, rank
      requires Valid() && 0 <= i < parent.Length
    {
      Root(parent[..], rank[..], i)
    }

    /** The root of every element, by index. */
    ghost function RootSeq(): (rs: seq<int>)
      reads this, parent, rank
      requires Valid()
      ensures |rs| == parent.Length
      ensures forall i :: 0 <= i < |rs| ==> rs[i] == RootOf(i)
    {
      RootsBy(parent[..], rank[..])
    }

    /** `new DisjointSet(size)`: every element alone in its own set. */
    constructor(size: nat)
      ensures Valid() && fresh(parent) && fresh(rank)
      ensures parent.Length == size && numSets == size
      ensures forall i :: 0 <= i < size ==> parent[i] == i && rank[i] == 0 && RootOf(i) == i
      ensures RootSeq() == Identity(size)
    {
      parent := new int[size];
      rank := new int[size](i => 0);
      numSets := size;
      new;
      var i := 0;
      while i < size
        invariant 0 <= i <= size
        invariant forall k :: 0 <= k < i ==> parent[k] == k
        modifies parent
      {
        parent[i] := i;
        i := i + 1;
      }
      assert parent[..] == Identity(size);
      assert rank[..] == Zeros(size);
      InitialRoots(size);
    }

    /** `find(i)`: the root of `i`; every element on the way is re-linked to its root, which
        changes no element's root and no rank. */
    method Find(i: int) returns (r: int)
      requires Valid() && 0 <= i < parent.Length
      modifies parent
      ensures Valid() && numSets == old(numSets) && rank[..] == old(rank[..])
      ensures r == old(RootOf(i)) && parent[r] == r && parent[i] == r
      ensures Compressed(old(parent[..]), parent[..], rank[..])
      ensures forall j :: 0 <= j < parent.Length ==> RootOf(j) == old(RootOf(j))
      ensures RootSeq() == old(RootSeq())
      decreases parent.Length - rank[i]
    {
      ghost var p0 := parent[..];
      var child := parent[i];
      if i == child {
        return i;
      }
      r := Find(child);
      ghost var p1 := parent[..];
      parent[i] := r;
      ghost var p2 := parent[..];
      assert p2 == p1[i := r];
      assert Root(p0, rank[..], i) == r;
      assert Compressed(p0, p2, rank[..]);
      CompressedOrdered(p0, p2, rank[..]);
      CompressedRoots(p0, p2, rank[..]);
      forall j | 0 <= j < parent.Length
        ensures Root(p2, rank[..], j) == Root(p0, rank[..], j)
      {
        CompressedRoot(p0, p2, rank[..], j);
      }
    }

    /** `find(i)` as the read-only loops use it: the root, with the forest's meaning kept. */
    method FindKeeping(i: int) returns (r: int)
      requires Valid() && 0 <= i < parent.Length
      modifies parent
      ensures Valid() && numSets == old(numSets) && rank[..] == old(rank[..])
      ensures RootSeq() == old(RootSeq()) && r == old(RootSeq())[i]
    {
      r := Find(i);
    }

    /** `union(x, y)`: merges the sets of `x` and `y`. The root of lower rank is linked under
        the other; on a tie `y`'s root goes under `x`'s, whose rank grows by one. */
    method Union(x: int, y: int) returns (merged: bool)
      requires Valid() && 0 <= x < parent.Length && 0 <= y < parent.Length
      modifies this, parent, rank
      ensures Valid() && parent == old(parent) && rank == old(rank)
      ensures merged <==> old(RootOf(x)) != old(RootOf(y))
      ensures numSets == if merged then old(numSets) - 1 else old(numSets)
      ensures RootOf(x) == RootOf(y)
      ensures merged ==> RootOf(x) == Winner(old(rank[..]), old(RootOf(x)), old(RootOf(y)))
      ensures RootOf(x) == old(RootOf(x)) || RootOf(x) == old(RootOf(y))
      ensures RootSeq() == Relabel(old(RootSeq()), old(RootOf(x)), old(RootOf(y)), RootOf(x))
      ensures !merged ==> RootSeq() == old(RootSeq())
      ensures rank[..] == if merged then Promoted(old(rank[..]), old(RootOf(x)), old(RootOf(y))) else old(rank[..])
    {
      if x == y {
        assert RootSeq() == Relabel(RootSeq(), RootOf(x), RootOf(y), RootOf(x));
        return false;
      }
      var xRoot := Find(x);
      var yRoot := Find(y);
      if xRoot != yRoot {
        Link(xRoot, yRoot);
        return true;
      }
      assert RootSeq() == Relabel(RootSeq(), xRoot, yRoot, xRoot);
      return false;
    }

    /** The linking step of `union` for two distinct roots. */
    method Link(xRoot: int, yRoot: int)
      requires Valid() && 0 <= xRoot < parent.Length && 0 <= yRoot < parent.Length && xRoot != yRoot
      requires parent[xRoot] == xRoot && parent[yRoot] == yRoot
      modifies this, parent, rank
      ensures Valid() && parent == old(parent) && rank == old(rank)
      ensures numSets == old(numSets) - 1
      ensures RootOf(xRoot) == RootOf(yRoot) == Winner(old(rank[..]), xRoot, yRoot)
      ensures RootSeq() == Relabel(old(RootSeq()), xRoot, yRoot, RootOf(xRoot))
      ensures rank[..] == Promoted(old(rank[..]), xRoot, yRoot)
    {
      ghost var p, rk, n := parent[..], rank[..], numSets;
      LinkState(p, rk, xRoot, yRoot, n);
      var xRank := rank[xRoot];
      var yRank := rank[yRoot];
      if xRank < yRank {
        parent[xRoot] := yRoot;
      } else {
        parent[yRoot] := xRoot;
        if xRank == yRank {
          rank[xRoot] := rank[xRoot] + 1;
        }
      }
      numSets := numSets - 1;
      assert parent[..] == Linked(p, rk, xRoot, yRoot);
      assert rank[..] == Promoted(rk, xRoot, yRoot);
    }

    /** `findClusters(data, inSameCluster)`: a fresh structure over the indices of `data` in
        which `union(i, j)` was called for every pair `i < j` the predicate relates. */
    static method FindClusters<T>(data: seq<T>, inSameCluster: (T, T) -> bool) returns (ds: DisjointSet)
      ensures fresh(ds) && fresh(ds.parent) && fresh(ds.rank) && ds.Valid() && ds.parent.Length == |data|
      ensures forall i, j :: 0 <= i < j < |data| && inSameCluster(data[i], data[j]) ==> ds.RootOf(i) == ds.RootOf(j)
      ensures forall x, y :: 0 <= x < |data| && 0 <= y < |data| ==>
        (ds.RootOf(x) == ds.RootOf(y) <==> Connected(data, inSameCluster, x, y))
      ensures SamePartition(ds.RootSeq(), Scanned(data, inSameCluster, |data|))
    {
      ds := new DisjointSet(|data|);
      SamePartitionRefl(ds.RootSeq());
      var i := 0;
      while i < |data|
        invariant 0 <= i <= |data|
        invariant fresh(ds) && fresh(ds.parent) && fresh(ds.rank) && ds.Valid() && ds.parent.Length == |data|
        invariant SamePartition(ds.RootSeq(), Scanned(data, inSameCluster, i))
      {
        ds.UnionMatches(data, inSameCluster, i);
        i := i + 1;
      }
      ClustersConnected(ds.RootSeq(), data, inSameCluster);
    }

    /** The inner loop of `findClusters`: `union(i, j)` for every later `j` related to `i`. */
    method UnionMatches<T>(data: seq<T>, inSameCluster: (T, T) -> bool, i: int)
      requires Valid() && parent.Length == |data| && 0 <= i < |data|
      requires SamePartition(RootSeq(), Scanned(data, inSameCluster, i))
      modifies this, parent, rank
      ensures Valid() && parent == old(parent) && rank == old(rank)
      ensures SamePartition(RootSeq(), Scanned(data, inSameCluster, i + 1))
    {
      var j := i + 1;
      while j < |data|
        invariant i + 1 <= j <= |data|
        invariant Valid() && parent == old(parent) && rank == old(rank)
        invariant SamePartition(RootSeq(), Scan(data, inSameCluster, i, j))
      {
        UnionIfRelated(data, inSameCluster, i, j);
        j := j + 1;
      }
    }

    /** One step of the inner loop of `findClusters`. */
    method UnionIfRelated<T>(data: seq<T>, inSameCluster: (T, T) -> bool, i: int, j: int)
      requires Valid() && parent.Length == |data| && 0 <= i < j < |data|
      requires SamePartition(RootSeq(), Scan(data, inSameCluster, i, j))
      modifies this, parent, rank
      ensures Valid() && parent == old(parent) && rank == old(rank)
      ensures SamePartition(RootSeq(), Scan(data, inSameCluster, i, j + 1))
    {
      ghost var rs := RootSeq();
      if inSameCluster(data[i], data[j]) {
        var _ := Union(i, j);
      }
      ScanStep(data, inSameCluster, i, j, rs, RootSeq(), RootOf(i));
    }

    /** `resolve(data)`: one set per disjoint set, in order of the first element of each;
        set k holds `data[i]` for every element `i` whose root was the k-th to appear.
        A list shorter than the structure fails on the index. */
    method Resolve<T>(data: seq<T>) returns (r: Result<seq<set<T>>>)
      requires Valid()
      modifies parent
      ensures Valid() && numSets == old(numSets) && rank[..] == old(rank[..]) && RootSeq() == old(RootSeq())
      ensures r.Err? <==> |data| < parent.Length
      ensures r.Err? ==> r.error == IndexOutOfBounds
      ensures r.Ok? ==> |r.value| == numSets == |RootIndex(RootSeq())|
      ensures r.Ok? ==> Grouped(r.value, data, Homes(RootSeq()), parent.Length)
    {
      var index := IndexRoots();
      RootIndexRoots(parent[..], rank[..]);
      var result := EmptySets(numSets);
      r := Distribute(data, index, result);
    }

    /** The second loop of `resolve`: one empty set per disjoint set. */
    static method EmptySets<T>(n: nat) returns (result: seq<set<T>>)
      ensures |result| == n
      ensures forall k :: 0 <= k < |result| ==> result[k] == {}
    {
      result := [];
      var i := 0;
      while i < n
        invariant 0 <= i <= n && |result| == i
        invariant forall k :: 0 <= k < i ==> result[k] == {}
      {
        result := result + [{}];
        i := i + 1;
      }
    }

    /** The first loop of `resolve`: the index of each root's set. */
    method IndexRoots() returns (index: map<int, int>)
      requires Valid()
      modifies parent
      ensures Valid() && numSets == old(numSets) && rank[..] == old(rank[..]) && RootSeq() == old(RootSeq())
      ensures index == RootIndex(RootSeq())
    {
      ghost var rs := RootSeq();
      index := map[];
      var i := 0;
      while i < parent.Length
        invariant 0 <= i <= parent.Length
        invariant Valid() && RootSeq() == rs
        invariant index == RootIndex(rs[..i])
      {
        var root := FindKeeping(i);
        RootIndexSnoc(rs, i);
        if root !in index {
          index := index[root := |index|];
        }
        i := i + 1;
      }
      assert rs[..parent.Length] == rs;
    }

    /** The last loop of `resolve`: each element's datum goes into its root's set. */
    method Distribute<T>(data: seq<T>, index: map<int, int>, empty: seq<set<T>>) returns (r: Result<seq<set<T>>>)
      requires Valid() && index == RootIndex(RootSeq()) && |empty| == |index|
      requires forall k :: 0 <= k < |empty| ==> empty[k] == {}
      modifies parent
      ensures Valid() && numSets == old(numSets) && rank[..] == old(rank[..]) && RootSeq() == old(RootSeq())
      ensures r.Err? <==> |data| < parent.Length
      ensures r.Err? ==> r.error == IndexOutOfBounds
      ensures r.Ok? ==> |r.value| == |empty| && Grouped(r.value, data, Homes(RootSeq()), parent.Length)
    {
      ghost var rs := RootSeq();
      ghost var homes := Homes(rs);
      var result := empty;
      var i := 0;
      while i < parent.Length
        invariant 0 <= i <= parent.Length && i <= |data|
        invariant Valid() && RootSeq() == rs
        invariant |result| == |empty| && Grouped(result, data, homes, i)
      {
        var k := HomeOf(index, i);
        if i >= |data| {
          return Err(IndexOutOfBounds);
        }
        GroupedStep(result, data, homes, i);
        result := result[k := result[k] + {data[i]}];
        i := i + 1;
      }
      r := Ok(result);
    }

    /** `find(i)` followed by the index lookup of the last loop of `resolve`. */
    method HomeOf(index: map<int, int>, i: int) returns (k: int)
      requires Valid() && index == RootIndex(RootSeq()) && 0 <= i < parent.Length
      modifies parent
      ensures Valid() && RootSeq() == old(RootSeq()) && k == Homes(RootSeq())[i]
    {
      var root := FindKeeping(i);
      k := index[root];
    }

    /** `resolveSizes()`: each root mapped to the number of elements under it; the sizes add
        up to the number of elements. */
    method ResolveSizes() returns (m: map<int, int>)
      requires Valid()
      modifies parent
      ensures Valid() && numSets == old(numSets) && rank[..] == old(rank[..]) && RootSeq() == old(RootSeq())
      ensures m == Sizes(RootSeq()) && m.Keys == Roots(parent[..])
      ensures MapSum(m) == parent.Length
    {
      ghost var rs := RootSeq();
      m := map[];
      var i := 0;
      while i < parent.Length
        invariant 0 <= i <= parent.Length
        invariant Valid() && RootSeq() == rs
        invariant m == Sizes(rs[..i])
      {
        var root := FindKeeping(i);
        SizesStep(rs, i, m, root);
        m := m[root := if root in m then m[root] + 1 else 1];
        i := i + 1;
      }
      assert rs[..parent.Length] == rs;
      ForestSizes(parent[..], rank[..]);
    }

    /** `getNumSets()`: the number of disjoint sets. */
    function NumSets(): (n: int)
      reads this, parent, rank
      requires Valid()
      ensures n == |Roots(parent[..])|
    {
      numSets
    }
  }
}
