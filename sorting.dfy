/** The library sorts the days call (`sorted()`, `sortedBy { key }`, `sortBy { key }`): stable
    sorts by an integer key, written as an insertion sort; and counting with a predicate,
    which a reordering does not change. */
module Sorting {

  /** Non-decreasing keys. */
  predicate SortedBy<T>(xs: seq<T>, key: T -> int)
  {
    forall i, j :: 0 <= i < j < |xs| ==> key(xs[i]) <= key(xs[j])
  }

  /** The key of `sorted()` on numbers. */
  function Itself(x: int): int
  {
    x
  }

  /** `x` placed after every element of `s` whose key is not above its own. */
  function Insert<T>(x: T, s: seq<T>, key: T -> int): (r: seq<T>)
    ensures |r| == |s| + 1
  {
    if |s| == 0 then [x]
    else if key(s[|s| - 1]) <= key(x) then s + [x]
    else Insert(x, s[..|s| - 1], key) + [s[|s| - 1]]
  }

  /** Each element in turn inserted into the sorted front, so equal keys keep their order. */
  function SortBy<T>(xs: seq<T>, key: T -> int): (r: seq<T>)
    ensures |r| == |xs|
  {
    if |xs| == 0 then [] else Insert(xs[|xs| - 1], SortBy(xs[..|xs| - 1], key), key)
  }

  lemma {:induction false} InsertPermutes<T>(x: T, s: seq<T>, key: T -> int)
    ensures multiset(Insert(x, s, key)) == multiset(s) + multiset{x}
  {
    if |s| > 0 && key(s[|s| - 1]) > key(x) {
      var front := s[..|s| - 1];
      InsertPermutes(x, front, key);
      assert s == front + [s[|s| - 1]];
    }
  }

  /** Inserting keeps every key under a bound that `x` and all of `s` are under. */
  lemma {:induction false} InsertBelow<T>(x: T, s: seq<T>, key: T -> int, bound: int)
    requires key(x) <= bound && forall i :: 0 <= i < |s| ==> key(s[i]) <= bound
    ensures forall i :: 0 <= i < |Insert(x, s, key)| ==> key(Insert(x, s, key)[i]) <= bound
  {
    if |s| > 0 && key(s[|s| - 1]) > key(x) {
      InsertBelow(x, s[..|s| - 1], key, bound);
    }
  }

  lemma {:induction false} InsertSorted<T>(x: T, s: seq<T>, key: T -> int)
    requires SortedBy(s, key)
    ensures SortedBy(Insert(x, s, key), key)
  {
    if |s| > 0 {
      var last := s[|s| - 1];
      if key(x) < key(last) {
        var front := s[..|s| - 1];
        InsertSorted(x, front, key);
        InsertBelow(x, front, key, key(last));
      }
    }
  }

  /** `sortedBy`: the result is ordered by the key and holds the same elements, each as often. */
  lemma {:induction false} SortByCorrect<T>(xs: seq<T>, key: T -> int)
    ensures SortedBy(SortBy(xs, key), key)
    ensures multiset(SortBy(xs, key)) == multiset(xs)
  {
    if |xs| > 0 {
      var front := xs[..|xs| - 1];
      SortByCorrect(front, key);
      InsertSorted(xs[|xs| - 1], SortBy(front, key), key);
      InsertPermutes(xs[|xs| - 1], SortBy(front, key), key);
      assert xs == front + [xs[|xs| - 1]];
    }
  }

  /** The elements of `xs` whose key is `k`, in their order in `xs`. */
  function WithKey<T>(xs: seq<T>, key: T -> int, k: int): (r: seq<T>)
    ensures |r| <= |xs|
    ensures forall i :: 0 <= i < |r| ==> key(r[i]) == k
  {
    if |xs| == 0 then []
    else WithKey(xs[..|xs| - 1], key, k) + (if key(xs[|xs| - 1]) == k then [xs[|xs| - 1]] else [])
  }

  /** Inserting `x` puts it after every element of its own key and moves no other element
      past one of that key. */
  lemma {:induction false} InsertWithKey<T>(x: T, s: seq<T>, key: T -> int, k: int)
    ensures WithKey(Insert(x, s, key), key, k) == WithKey(s, key, k) + (if key(x) == k then [x] else [])
  {
    if |s| > 0 {
      var front, last := s[..|s| - 1], s[|s| - 1];
      assert (s + [x])[..|s|] == s;
      if key(last) > key(x) {
        InsertWithKey(x, front, key, k);
        var ins := Insert(x, front, key);
        assert (ins + [last])[..|ins|] == ins;
      }
    }
  }

  /** `sortedBy` is stable: the elements of each key come out in the order they went in. */
  lemma {:induction false} SortByStable<T>(xs: seq<T>, key: T -> int, k: int)
    ensures WithKey(SortBy(xs, key), key, k) == WithKey(xs, key, k)
  {
    if |xs| > 0 {
      var front := xs[..|xs| - 1];
      SortByStable(front, key, k);
      InsertWithKey(xs[|xs| - 1], SortBy(front, key), key, k);
    }
  }

  /** The elements of `xs` that satisfy `p`, counted with multiplicity. */
  function CountWhere<T>(xs: seq<T>, p: T -> bool): (n: nat)
    ensures n <= |xs|
  {
    if |xs| == 0 then 0 else CountWhere(xs[..|xs| - 1], p) + (if p(xs[|xs| - 1]) then 1 else 0)
  }

  lemma {:induction false} CountWhereAppend<T>(xs: seq<T>, ys: seq<T>, p: T -> bool)
    ensures CountWhere(xs + ys, p) == CountWhere(xs, p) + CountWhere(ys, p)
    decreases |ys|
  {
    if |ys| > 0 {
      var front := ys[..|ys| - 1];
      CountWhereAppend(xs, front, p);
      var s := xs + ys;
      assert s[..|s| - 1] == xs + front;
      assert CountWhere(s, p) == CountWhere(xs + front, p) + (if p(ys[|ys| - 1]) then 1 else 0);
      assert CountWhere(ys, p) == CountWhere(front, p) + (if p(ys[|ys| - 1]) then 1 else 0);
    } else {
      assert xs + ys == xs;
    }
  }

  /** A count does not depend on the order of the elements. */
  lemma {:induction false} CountWherePermutation<T>(xs: seq<T>, ys: seq<T>, p: T -> bool)
    requires multiset(xs) == multiset(ys)
    ensures CountWhere(xs, p) == CountWhere(ys, p)
    decreases |xs|
  {
    if |xs| == 0 {
      assert |ys| == |multiset(ys)| == 0;
    } else {
      var x := xs[|xs| - 1];
      assert x in multiset(xs);
      var i :| 0 <= i < |ys| && ys[i] == x;
      var rest := ys[..i] + ys[i + 1..];
      RemoveMatching(xs, ys, i);
      CountWherePermutation(xs[..|xs| - 1], rest, p);
      CountWhereRemove(ys, i, p);
    }
  }

  /** Taking the last element of `xs` and a copy of it in `ys` away leaves the same elements. */
  lemma {:induction false} RemoveMatching<T>(xs: seq<T>, ys: seq<T>, i: int)
    requires multiset(xs) == multiset(ys) && |xs| > 0 && 0 <= i < |ys| && ys[i] == xs[|xs| - 1]
    ensures multiset(xs[..|xs| - 1]) == multiset(ys[..i] + ys[i + 1..])
  {
    var x := xs[|xs| - 1];
    var front := xs[..|xs| - 1];
    assert xs == front + [x];
    assert ys == ys[..i] + [x] + ys[i + 1..];
    assert multiset(ys) == multiset(ys[..i]) + multiset{x} + multiset(ys[i + 1..]);
    assert multiset(xs) == multiset(front) + multiset{x};
    assert multiset(front) == multiset(xs) - multiset{x};
    assert multiset(ys[..i] + ys[i + 1..]) == multiset(ys) - multiset{x};
  }

  /** The count of `ys` is the count without element `i`, plus that element's share. */
  lemma {:induction false} CountWhereRemove<T>(ys: seq<T>, i: int, p: T -> bool)
    requires 0 <= i < |ys|
    ensures CountWhere(ys, p) == CountWhere(ys[..i] + ys[i + 1..], p) + (if p(ys[i]) then 1 else 0)
  {
    assert ys[..i + 1] + ys[i + 1..] == ys;
    CountWhereAppend(ys[..i + 1], ys[i + 1..], p);
    CountWherePrefix(ys, i, p);
    CountWhereAppend(ys[..i], ys[i + 1..], p);
  }

  /** One element more of a prefix adds that element's share. */
  lemma {:induction false} CountWherePrefix<T>(ys: seq<T>, i: int, p: T -> bool)
    requires 0 <= i < |ys|
    ensures CountWhere(ys[..i + 1], p) == CountWhere(ys[..i], p) + (if p(ys[i]) then 1 else 0)
  {
    assert ys[..i + 1][..i] == ys[..i];
  }

  /** Two tests that agree on every element count the same elements. */
  lemma {:induction false} CountWhereAgree<T>(xs: seq<T>, p: T -> bool, q: T -> bool)
    requires forall i :: 0 <= i < |xs| ==> p(xs[i]) == q(xs[i])
    ensures CountWhere(xs, p) == CountWhere(xs, q)
  {
    if |xs| > 0 {
      CountWhereAgree(xs[..|xs| - 1], p, q);
    }
  }

  /** The key of `sortedDescending()` on numbers. */
  function Negated(x: int): int
  {
    -x
  }

  /** Two non-increasing sequences holding the same numbers are the same sequence. */
  lemma {:induction false} DescendingUnique(xs: seq<int>, ys: seq<int>)
    requires SortedBy(xs, Negated) && SortedBy(ys, Negated) && multiset(xs) == multiset(ys)
    ensures xs == ys
    decreases |xs|
  {
    assert |xs| == |multiset(xs)| == |multiset(ys)| == |ys|;
    if |xs| > 0 {
      SameHeads(xs, ys);
      DescendingUnique(xs[1..], ys[1..]);
      assert xs == [xs[0]] + xs[1..] && ys == [ys[0]] + ys[1..];
    }
  }

  /** Two non-increasing sequences of the same numbers start alike and go on alike. */
  lemma {:induction false} SameHeads(xs: seq<int>, ys: seq<int>)
    requires |xs| > 0 && |ys| > 0
    requires SortedBy(xs, Negated) && SortedBy(ys, Negated) && multiset(xs) == multiset(ys)
    ensures xs[0] == ys[0] && multiset(xs[1..]) == multiset(ys[1..])
    ensures SortedBy(xs[1..], Negated) && SortedBy(ys[1..], Negated)
  {
    HeadIsMax(xs, ys[0]);
    HeadIsMax(ys, xs[0]);
    assert xs == [xs[0]] + xs[1..] && ys == [ys[0]] + ys[1..];
    assert multiset(xs[1..]) == multiset(xs) - multiset{xs[0]};
    assert multiset(ys[1..]) == multiset(ys) - multiset{ys[0]};
    SortedTail(xs, Negated);
    SortedTail(ys, Negated);
  }

  /** The head of a non-increasing sequence is its largest number. */
  lemma {:induction false} HeadIsMax(xs: seq<int>, y: int)
    requires SortedBy(xs, Negated) && y in multiset(xs)
    ensures xs[0] >= y
  {
    var i :| 0 <= i < |xs| && xs[i] == y;
    assert Negated(xs[0]) <= Negated(xs[i]);
  }

  lemma {:induction false} SortedTail<T>(xs: seq<T>, key: T -> int)
    requires |xs| > 0 && SortedBy(xs, key)
    ensures SortedBy(xs[1..], key)
  {
    forall i, j | 0 <= i < j < |xs| - 1
      ensures key(xs[1..][i]) <= key(xs[1..][j])
    {
      assert xs[1..][i] == xs[i + 1] && xs[1..][j] == xs[j + 1];
    }
  }

  /** `sortedDescending()` does not depend on the order it is given the numbers in. */
  lemma {:induction false} DescendingOrderFree(xs: seq<int>, ys: seq<int>)
    requires multiset(xs) == multiset(ys)
    ensures SortBy(xs, Negated) == SortBy(ys, Negated)
  {
    SortByCorrect(xs, Negated);
    SortByCorrect(ys, Negated);
    DescendingUnique(SortBy(xs, Negated), SortBy(ys, Negated));
  }
}
