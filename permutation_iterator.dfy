/** The Steinhaus-Johnson-Trotter ("plain changes") permutation iterator. The input is
    permuted through integer keys 1..n (key `v` stands for the `v`-th input element), each key
    carrying a direction (`false` is left, `true` is right). */
module Permutations {
  import opened Wrappers

  /** The key at `i` is mobile: the neighbour it faces exists and holds a smaller key. */
  predicate Mobile(ks: seq<int>, dir: seq<bool>, i: int)
    requires |dir| == |ks| && 0 <= i < |ks|
  {
    (dir[i] && i < |ks| - 1 && ks[i] > ks[i + 1]) || (!dir[i] && i > 0 && ks[i] > ks[i - 1])
  }

  /** The first scan of `next()` over the first `i` keys: the index and the value of the
      largest mobile key found so far, `(-1, -1)` while there is none. */
  function MobileScan(ks: seq<int>, dir: seq<bool>, i: nat): (r: (int, int))
    requires |dir| == |ks| && i <= |ks|
    ensures r.0 == -1 ==> r.1 == -1
    ensures r.0 != -1 ==> 0 <= r.0 < i && Mobile(ks, dir, r.0) && r.1 == ks[r.0]
  {
    if i == 0 then (-1, -1)
    else
      var b := MobileScan(ks, dir, i - 1);
      if Mobile(ks, dir, i - 1) && ks[i - 1] > b.1 then (i - 1, ks[i - 1]) else b
  }

  /** Over non-negative keys the scan finds a mobile key exactly when there is one, and the
      one it finds is the first of the largest. */
  lemma {:induction false} MobileScanLargest(ks: seq<int>, dir: seq<bool>, i: nat)
    requires |dir| == |ks| && i <= |ks|
    requires forall j :: 0 <= j < |ks| ==> ks[j] >= 0
    ensures MobileScan(ks, dir, i).1 == -1 <==> forall j :: 0 <= j < i ==> !Mobile(ks, dir, j)
    ensures forall j :: 0 <= j < i && Mobile(ks, dir, j) ==> ks[j] <= MobileScan(ks, dir, i).1
    ensures forall j :: 0 <= j < MobileScan(ks, dir, i).0 && Mobile(ks, dir, j) ==> ks[j] < MobileScan(ks, dir, i).1
  {
    if i > 0 {
      MobileScanLargest(ks, dir, i - 1);
    }
  }

  /** `s` with the entries at `i` and `j` exchanged. */
  function Swap<T>(s: seq<T>, i: int, j: int): (r: seq<T>)
    requires 0 <= i < |s| && 0 <= j < |s|
    ensures |r| == |s| && r[i] == s[j] && r[j] == s[i]
    ensures forall k :: 0 <= k < |s| && k != i && k != j ==> r[k] == s[k]
  {
    s[i := s[j]][j := s[i]]
  }

  /** A swap keeps the elements. */
  lemma {:induction false} SwapMultiset<T>(s: seq<T>, i: int, j: int)
    requires 0 <= i < |s| && 0 <= j < |s|
    ensures multiset(Swap(s, i, j)) == multiset(s)
  {
    var t := s[i := s[j]];
    assert multiset(t) == multiset(s) - multiset{s[i]} + multiset{s[j]};
    assert multiset(t[j := s[i]]) == multiset(t) - multiset{t[j]} + multiset{s[i]};
  }

  /** The directions after a step: every key larger than `largest` turns round. */
  function Flip(dir: seq<bool>, ks: seq<int>, largest: int): (d: seq<bool>)
    requires |dir| == |ks|
    ensures |d| == |dir|
    ensures forall j :: 0 <= j < |d| ==> d[j] == (if ks[j] > largest then !dir[j] else dir[j])
  {
    seq(|dir|, j requires 0 <= j < |dir| => if ks[j] > largest then !dir[j] else dir[j])
  }

  /** The keys 1..n in order: the state after construction. */
  function KeyRange(n: nat): (ks: seq<int>)
    ensures |ks| == n && forall i :: 0 <= i < n ==> ks[i] == i + 1
  {
    seq(n, i => i + 1)
  }

  /** Every key names one of the `n` input elements. */
  predicate KeysInRange(ks: seq<int>, n: int)
  {
    forall j :: 0 <= j < |ks| ==> 1 <= ks[j] <= n
  }

  /** `ks` is a permutation of 1..n. */
  ghost predicate IsKeyPerm(ks: seq<int>, n: nat)
  {
    multiset(ks) == multiset(KeyRange(n))
  }

  /** The list `next()` builds from the keys: key `v` becomes the `v`-th input element. */
  function Apply<E>(elems: seq<E>, ks: seq<int>): (r: seq<E>)
    requires KeysInRange(ks, |elems|)
    ensures |r| == |ks| && forall j :: 0 <= j < |ks| ==> r[j] == elems[ks[j] - 1]
  {
    seq(|ks|, j requires 0 <= j < |ks| => elems[ks[j] - 1])
  }

  /** One step of `next()` on the keys and directions, or None when no key is mobile. */
  function Step(ks: seq<int>, dir: seq<bool>): Option<(seq<int>, seq<bool>)>
    requires |dir| == |ks|
  {
    var (idx, largest) := MobileScan(ks, dir, |ks|);
    if largest == -1 then None
    else
      var other := if dir[idx] then idx + 1 else idx - 1;
      var ks2 := Swap(ks, idx, other);
      Some((ks2, Flip(Swap(dir, idx, other), ks2, largest)))
  }

  /** A step exchanges two keys: the keys stay a permutation of 1..n, and the list built
      from them is a rearrangement of the one built before, so it is still a permutation
      of the input. */
  lemma {:induction false} StepPermutes<E>(elems: seq<E>, ks: seq<int>, dir: seq<bool>)
    requires |dir| == |ks| && KeysInRange(ks, |elems|) && Step(ks, dir).Some?
    ensures |Step(ks, dir).value.0| == |ks| && |Step(ks, dir).value.1| == |ks|
    ensures KeysInRange(Step(ks, dir).value.0, |elems|)
    ensures multiset(Step(ks, dir).value.0) == multiset(ks)
    ensures multiset(Apply(elems, Step(ks, dir).value.0)) == multiset(Apply(elems, ks))
  {
    var (idx, largest) := MobileScan(ks, dir, |ks|);
    var other := if dir[idx] then idx + 1 else idx - 1;
    var ks2 := Swap(ks, idx, other);
    SwapMultiset(ks, idx, other);
    assert Apply(elems, ks2) == Swap(Apply(elems, ks), idx, other);
    SwapMultiset(Apply(elems, ks), idx, other);
  }

  /** The key sequences the iterator goes through from (`ks`, `dir`), at most `fuel` of them. */
  function Orbit(ks: seq<int>, dir: seq<bool>, fuel: nat): seq<seq<int>>
    requires |dir| == |ks|
    decreases fuel
  {
    if fuel == 0 then []
    else
      match Step(ks, dir)
      case None => [ks]
      case Some((ks2, dir2)) =>
        assert |ks2| == |dir2| by { Swap2Length(ks, dir); }
        [ks] + Orbit(ks2, dir2, fuel - 1)
  }

  /** A step keeps the lengths of both tables. */
  lemma {:induction false} Swap2Length(ks: seq<int>, dir: seq<bool>)
    requires |dir| == |ks| && Step(ks, dir).Some?
    ensures |Step(ks, dir).value.0| == |ks| == |Step(ks, dir).value.1|
  {
  }

  /** All directions left: the state after construction. */
  function AllLeft(n: nat): (d: seq<bool>)
    ensures |d| == n && forall i :: 0 <= i < n ==> !d[i]
  {
    seq(n, _ => false)
  }

  /** The steps from the start state for two and three elements, one plain change at a time. */
  lemma {:induction false} PlainChange2Step0()
    ensures Step([1, 2], [false, false]) == Some(([2, 1], [false, false]))
  {
    assert MobileScan([1, 2], [false, false], 1) == (-1, -1);
    assert MobileScan([1, 2], [false, false], 2) == (1, 2);
    assert Swap([1, 2], 1, 0) == [2, 1];
    assert Swap([false, false], 1, 0) == [false, false];
    assert Flip([false, false], [2, 1], 2) == [false, false];
  }

  lemma {:induction false} PlainChange2Step1()
    ensures Step([2, 1], [false, false]) == None
  {
    assert MobileScan([2, 1], [false, false], 1) == (-1, -1);
    assert MobileScan([2, 1], [false, false], 2) == (-1, -1);
  }

  lemma {:induction false} PlainChange3Step0()
    ensures Step([1, 2, 3], [false, false, false]) == Some(([1, 3, 2], [false, false, false]))
  {
    assert MobileScan([1, 2, 3], [false, false, false], 1) == (-1, -1);
    assert MobileScan([1, 2, 3], [false, false, false], 2) == (1, 2);
    assert MobileScan([1, 2, 3], [false, false, false], 3) == (2, 3);
    assert Swap([1, 2, 3], 2, 1) == [1, 3, 2];
    assert Swap([false, false, false], 2, 1) == [false, false, false];
    assert Flip([false, false, false], [1, 3, 2], 3) == [false, false, false];
  }

  lemma {:induction false} PlainChange3Step1()
    ensures Step([1, 3, 2], [false, false, false]) == Some(([3, 1, 2], [false, false, false]))
  {
    assert MobileScan([1, 3, 2], [false, false, false], 1) == (-1, -1);
    assert MobileScan([1, 3, 2], [false, false, false], 2) == (1, 3);
    assert MobileScan([1, 3, 2], [false, false, false], 3) == (1, 3);
    assert Swap([1, 3, 2], 1, 0) == [3, 1, 2];
    assert Swap([false, false, false], 1, 0) == [false, false, false];
    assert Flip([false, false, false], [3, 1, 2], 3) == [false, false, false];
  }

  lemma {:induction false} PlainChange3Step2()
    ensures Step([3, 1, 2], [false, false, false]) == Some(([3, 2, 1], [true, false, false]))
  {
    assert MobileScan([3, 1, 2], [false, false, false], 1) == (-1, -1);
    assert MobileScan([3, 1, 2], [false, false, false], 2) == (-1, -1);
    assert MobileScan([3, 1, 2], [false, false, false], 3) == (2, 2);
    assert Swap([3, 1, 2], 2, 1) == [3, 2, 1];
    assert Swap([false, false, false], 2, 1) == [false, false, false];
    assert Flip([false, false, false], [3, 2, 1], 2) == [true, false, false];
  }

  lemma {:induction false} PlainChange3Step3()
    ensures Step([3, 2, 1], [true, false, false]) == Some(([2, 3, 1], [false, true, false]))
  {
    assert MobileScan([3, 2, 1], [true, false, false], 1) == (0, 3);
    assert MobileScan([3, 2, 1], [true, false, false], 2) == (0, 3);
    assert MobileScan([3, 2, 1], [true, false, false], 3) == (0, 3);
    assert Swap([3, 2, 1], 0, 1) == [2, 3, 1];
    assert Swap([true, false, false], 0, 1) == [false, true, false];
    assert Flip([false, true, false], [2, 3, 1], 3) == [false, true, false];
  }

  lemma {:induction false} PlainChange3Step4()
    ensures Step([2, 3, 1], [false, true, false]) == Some(([2, 1, 3], [false, false, true]))
  {
    assert MobileScan([2, 3, 1], [false, true, false], 1) == (-1, -1);
    assert MobileScan([2, 3, 1], [false, true, false], 2) == (1, 3);
    assert MobileScan([2, 3, 1], [false, true, false], 3) == (1, 3);
    assert Swap([2, 3, 1], 1, 2) == [2, 1, 3];
    assert Swap([false, true, false], 1, 2) == [false, false, true];
    assert Flip([false, false, true], [2, 1, 3], 3) == [false, false, true];
  }

  lemma {:induction false} PlainChange3Step5()
    ensures Step([2, 1, 3], [false, false, true]) == None
  {
    assert MobileScan([2, 1, 3], [false, false, true], 1) == (-1, -1);
    assert MobileScan([2, 1, 3], [false, false, true], 2) == (-1, -1);
    assert MobileScan([2, 1, 3], [false, false, true], 3) == (-1, -1);
  }

  /** The orbit goes on with the state one step later. */
  lemma {:induction false} OrbitStep(ks: seq<int>, dir: seq<bool>, fuel: nat, ks2: seq<int>, dir2: seq<bool>)
    requires |dir| == |ks| && |dir2| == |ks2| && fuel > 0 && Step(ks, dir) == Some((ks2, dir2))
    ensures Orbit(ks, dir, fuel) == [ks] + Orbit(ks2, dir2, fuel - 1)
  {
  }

  /** For up to two elements the iterator yields exactly n! key sequences: one, the empty
      one, for no element; one for a single element; and both orders of two. */
  lemma {:induction false} SmallOrbits()
    ensures Orbit([], [], 3) == [[]]
    ensures Orbit([1], [false], 3) == [[1]]
    ensures Orbit([1, 2], [false, false], 4) == [[1, 2], [2, 1]]
  {
    assert MobileScan([1], [false], 1) == (-1, -1);
    PlainChange2Step0();
    PlainChange2Step1();
    OrbitStep([1, 2], [false, false], 4, [2, 1], [false, false]);
  }

  /** For three elements the iterator yields exactly 3! = 6 key sequences, each a distinct
      permutation of 1..3, in plain-changes order. */
  lemma {:induction false} ThreeOrbit()
    ensures Orbit([1, 2, 3], [false, false, false], 8) ==
            [[1, 2, 3], [1, 3, 2], [3, 1, 2], [3, 2, 1], [2, 3, 1], [2, 1, 3]]
  {
    PlainChange3Step5();
    assert Orbit([2, 1, 3], [false, false, true], 3) == [[2, 1, 3]];
    PlainChange3Step4();
    OrbitStep([2, 3, 1], [false, true, false], 4, [2, 1, 3], [false, false, true]);
    PlainChange3Step3();
    OrbitStep([3, 2, 1], [true, false, false], 5, [2, 3, 1], [false, true, false]);
    PlainChange3Step2();
    OrbitStep([3, 1, 2], [false, false, false], 6, [3, 2, 1], [true, false, false]);
    PlainChange3Step1();
    OrbitStep([1, 3, 2], [false, false, false], 7, [3, 1, 2], [false, false, false]);
    PlainChange3Step0();
    OrbitStep([1, 2, 3], [false, false, false], 8, [1, 3, 2], [false, false, false]);
  }

  /** `PermutationIterator`: `keys` and `direction` are the SJT tables, updated in place by
      `next()`; `nextPermutation` is the list the next call returns, None once exhausted. */
  class PermutationIterator<E> {
    /** The object map: key `v` stands for `elems[v - 1]`. */
    const elems: seq<E>
    const keys: array<int>
    const direction: array<bool>
    var nextPermutation: Option<seq<E>>

    ghost predicate Valid()
      reads this, keys, direction
    {
      keys.Length == direction.Length == |elems| &&
      KeysInRange(keys[..], |elems|) && IsKeyPerm(keys[..], |elems|) &&
      multiset(Apply(elems, keys[..])) == multiset(elems) &&
      (nextPermutation.Some? ==> nextPermutation.value == Apply(elems, keys[..]))
    }

    /** The constructor: keys 1..n, every direction left, and the input itself pending. */
    constructor(coll: seq<E>)
      ensures Valid() && fresh(keys) && fresh(direction) && elems == coll
      ensures keys[..] == KeyRange(|coll|) && direction[..] == AllLeft(|coll|)
      ensures nextPermutation == Some(coll)
    {
      elems := coll;
      keys := new int[|coll|];
      direction := new bool[|coll|](_ => false);
      new;
      assert direction[..] == AllLeft(|coll|);
      var value := 1;
      while value <= |coll|
        modifies keys
        invariant 1 <= value <= |coll| + 1
        invariant forall j :: 0 <= j < value - 1 ==> keys[j] == j + 1
      {
        keys[value - 1] := value;
        value := value + 1;
      }
      nextPermutation := Some(coll);
      assert keys[..] == KeyRange(|coll|);
      assert Apply(elems, keys[..]) == coll;
    }

    /** `hasNext()`: a permutation is pending. */
    function HasNext(): (b: bool)
      reads this
      ensures b <==> nextPermutation.Some?
    {
      nextPermutation != None
    }

    /** The first loop of `next()`: the index and value of the largest mobile key. */
    method LargestMobile() returns (index: int, largest: int)
      requires Valid()
      ensures (index, largest) == MobileScan(keys[..], direction[..], keys.Length)
    {
      index, largest := -1, -1;
      for i := 0 to keys.Length
        invariant (index, largest) == MobileScan(keys[..], direction[..], i)
      {
        if (direction[i] && i < keys.Length - 1 && keys[i] > keys[i + 1]) ||
           (!direction[i] && i > 0 && keys[i] > keys[i - 1])
        {
          if keys[i] > largest {
            largest := keys[i];
            index := i;
          }
        }
      }
    }

    /** The second loop of `next()`: turn every key larger than `largest` round and build
        the list the keys stand for. */
    method FlipAndBuild(largest: int) returns (nextP: seq<E>)
      requires keys.Length == direction.Length && KeysInRange(keys[..], |elems|)
      modifies direction
      ensures direction[..] == Flip(old(direction[..]), keys[..], largest)
      ensures nextP == Apply(elems, keys[..])
    {
      nextP := [];
      for i := 0 to keys.Length
        invariant forall j :: 0 <= j < i ==> direction[j] == (if keys[j] > largest then !old(direction[j]) else old(direction[j]))
        invariant forall j :: i <= j < keys.Length ==> direction[j] == old(direction[j])
        invariant nextP == Apply(elems, keys[..i])
      {
        if keys[i] > largest {
          direction[i] := !direction[i];
        }
        nextP := nextP + [elems[keys[i] - 1]];
        assert keys[..i + 1] == keys[..i] + [keys[i]];
      }
      assert keys[..keys.Length] == keys[..];
    }

    /** `next()`: the pending list, after which the tables make one SJT step; with no
        mobile key the iterator is exhausted instead. An exhausted iterator throws
        NoSuchElementException. */
    method Next() returns (r: Result<seq<E>>)
      requires Valid()
      modifies this, keys, direction
      ensures Valid()
      ensures old(nextPermutation).None? ==> r == Err(NoSuchElement) && nextPermutation.None?
      ensures old(nextPermutation).Some? ==> r == Ok(old(nextPermutation).value)
      ensures r.Ok? ==> multiset(r.value) == multiset(elems)
      ensures old(nextPermutation).Some? && Step(old(keys[..]), old(direction[..])).None? ==>
                nextPermutation.None?
      ensures old(nextPermutation).None? || Step(old(keys[..]), old(direction[..])).None? ==>
                keys[..] == old(keys[..]) && direction[..] == old(direction[..])
      ensures old(nextPermutation).Some? && Step(old(keys[..]), old(direction[..])).Some? ==>
                (keys[..], direction[..]) == Step(old(keys[..]), old(direction[..])).value &&
                nextPermutation == Some(Apply(elems, keys[..]))
    {
      if nextPermutation.None? {
        return Err(NoSuchElement);
      }
      var index, largest := LargestMobile();
      if largest == -1 {
        r := Ok(nextPermutation.value);
        nextPermutation := None;
        return;
      }
      ghost var ks := keys[..];
      StepPermutes(elems, ks, direction[..]);
      var nextP := Advance(index, largest);
      r := Ok(nextPermutation.value);
      nextPermutation := Some(nextP);
    }

    /** The step of `next()` once a mobile key is found: swap it and its direction with the
        neighbour it faces, turn the larger keys round and build the new pending list. */
    method Advance(index: int, largest: int) returns (nextP: seq<E>)
      requires keys.Length == direction.Length && KeysInRange(keys[..], |elems|)
      requires (index, largest) == MobileScan(keys[..], direction[..], keys.Length) && largest != -1
      modifies keys, direction
      ensures Step(old(keys[..]), old(direction[..])) == Some((keys[..], direction[..]))
      ensures KeysInRange(keys[..], |elems|) && nextP == Apply(elems, keys[..])
    {
      ghost var ks, dir := keys[..], direction[..];
      StepPermutes(elems, ks, dir);
      var offset := if direction[index] then 1 else -1;
      var tmpKey := keys[index];
      keys[index] := keys[index + offset];
      keys[index + offset] := tmpKey;
      var tmpDirection := direction[index];
      direction[index] := direction[index + offset];
      direction[index + offset] := tmpDirection;
      assert keys[..] == Swap(ks, index, index + offset);
      assert direction[..] == Swap(dir, index, index + offset);
      nextP := FlipAndBuild(largest);
    }

    /** `remove()`: not supported. */
    method Remove() returns (r: Result<()>)
      ensures r == Err(UnsupportedOperation)
    {
      r := Err(UnsupportedOperation);
    }
  }
}
