/** `Itertools.combinations(list, 2)`, which the days use over a list of `n` items. The helper
    itself is not part of this model; it is taken to list the index pairs `(i, j)`, `i < j`,
    in lexicographic order, the order of the standard recursive construction. */
module Itertools {

  /** The pairs `(i, j)`, `i < j < n`, whose first element is `i`, in order of `j`. */
  function Row(i: nat, n: nat): (r: seq<(int, int)>)
    ensures |r| == if i < n then n - i - 1 else 0
    ensures forall k :: 0 <= k < |r| ==> r[k] == (i, i + 1 + k)
  {
    if i < n then seq(n - i - 1, k requires 0 <= k < n - i - 1 => (i, i + 1 + k)) else []
  }

  /** `combinations(indices, 2)` from first element `i` on: the pairs in
      lexicographic order. */
  function PairsFrom(i: nat, n: nat): seq<(int, int)>
    decreases n - i
  {
    if i >= n then [] else Row(i, n) + PairsFrom(i + 1, n)
  }

  function Pairs(n: nat): seq<(int, int)>
  {
    PairsFrom(0, n)
  }

  /** The listed pairs are exactly the pairs of distinct indices, smaller first. */
  lemma {:induction false} PairsFromMembers(i: nat, n: nat)
    ensures forall p :: p in PairsFrom(i, n) <==> i <= p.0 < p.1 < n
    decreases n - i
  {
    if i < n {
      PairsFromMembers(i + 1, n);
      var row := Row(i, n);
      forall p: (int, int) | i <= p.0 < p.1 < n
        ensures p in PairsFrom(i, n)
      {
        if p.0 == i {
          assert row[p.1 - i - 1] == p;
        }
      }
    }
  }

  /** There are `(n - i) (n - i - 1) / 2` of them, so no pair comes twice. */
  lemma {:induction false} PairsFromCount(i: nat, n: nat)
    ensures 2 * |PairsFrom(i, n)| == if i < n then (n - i) * (n - i - 1) else 0
    decreases n - i
  {
    if i < n {
      PairsFromCount(i + 1, n);
      SquareStep(n - i);
    }
  }

  lemma {:induction false} SquareStep(m: int)
    requires m >= 1
    ensures m * (m - 1) == 2 * (m - 1) + (m - 1) * (m - 2)
  {
  }

  lemma {:induction false} PairsMembers(n: nat)
    ensures forall p :: p in Pairs(n) <==> 0 <= p.0 < p.1 < n
    ensures 2 * |Pairs(n)| == n * (n - 1)
  {
    PairsFromMembers(0, n);
    PairsFromCount(0, n);
  }
}
