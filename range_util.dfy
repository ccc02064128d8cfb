/** The inclusive-range helpers of `RangeUtil.kt`, for `IntRange`, `LongRange` and
    `CharRange`. A range is its two ends; a `Char` is its UTF-16 code unit, 0..65535. */
module Ranges {
  import opened Wrappers
  import opened JavaInt

  /** The element type of a range: its bounds and how `+ 1` wraps around. */
  datatype Width = IntWidth | LongWidth | CharWidth

  function MinOf(w: Width): int
  {
    match w
    case IntWidth => INT_MIN
    case LongWidth => LONG_MIN
    case CharWidth => 0
  }

  function MaxOf(w: Width): int
  {
    match w
    case IntWidth => INT_MAX
    case LongWidth => LONG_MAX
    case CharWidth => 0xFFFF
  }

  /** The value of an exact result in the element type (`Char + 1` wraps like a 16-bit
      unsigned number). */
  function WrapTo(w: Width, x: int): (r: int)
    ensures MinOf(w) <= r <= MaxOf(w)
    ensures MinOf(w) <= x <= MaxOf(w) ==> r == x
  {
    match w
    case IntWidth => Wrap32(x)
    case LongWidth => Wrap64(x)
    case CharWidth => x % 0x1_0000
  }

  /** `first..last`; it is empty when `first > last`. */
  datatype Range = Range(first: int, last: int)

  predicate InWidth(w: Width, r: Range)
  {
    MinOf(w) <= r.first <= MaxOf(w) && MinOf(w) <= r.last <= MaxOf(w)
  }

  predicate Contains(r: Range, x: int)
  {
    r.first <= x <= r.last
  }

  predicate IsEmpty(r: Range)
  {
    r.first > r.last
  }

  /** The elements of a range. */
  ghost function Elements(r: Range): set<int>
  {
    set x | r.first <= x <= r.last && Contains(r, x)
  }

  /** `IntRange.size` / `LongRange.size`: `last - first + 1` in the range's own width. */
  function Size(w: Width, r: Range): (n: int)
    requires w != CharWidth
    ensures MinOf(w) <= n <= MaxOf(w)
  {
    WrapTo(w, r.last - r.first + 1)
  }

  /** The number of integers between two bounds. */
  lemma {:induction false} CountBetween(lo: int, hi: int)
    requires lo <= hi + 1
    ensures |Elements(Range(lo, hi))| == hi - lo + 1
    decreases hi - lo
  {
    if lo <= hi {
      CountBetween(lo, hi - 1);
      assert Elements(Range(lo, hi)) == Elements(Range(lo, hi - 1)) + {hi};
    } else {
      assert Elements(Range(lo, hi)) == {};
    }
  }

  /** `size` counts the elements of a non-empty range whose count fits the width. */
  lemma {:induction false} SizeCounts(w: Width, r: Range)
    requires w != CharWidth && InWidth(w, r) && !IsEmpty(r) && r.last - r.first + 1 <= MaxOf(w)
    ensures Size(w, r) == |Elements(r)|
  {
    CountBetween(r.first, r.last);
  }

  /** `size` of a range holding more than `MAX_VALUE` elements wraps around to a negative
      number, e.g. `Int.MIN_VALUE..0`. */
  lemma {:induction false} SizeWraps()
    ensures Size(IntWidth, Range(INT_MIN, 0)) == INT_MIN + 1
  {
  }

  /** `intersectWith`: `max(firsts)..min(lasts)` when that is not empty, else null. */
  function Intersect(a: Range, b: Range): (r: Option<Range>)
    ensures r.Some? ==> !IsEmpty(r.value)
  {
    var start := if a.first >= b.first then a.first else b.first;
    var end := if a.last <= b.last then a.last else b.last;
    if start <= end then Some(Range(start, end)) else None
  }

  /** An element lies in the intersection exactly when it lies in both ranges, and the
      intersection of ranges of one width has that width. */
  lemma {:induction false} IntersectContains(w: Width, a: Range, b: Range, x: int)
    ensures (Intersect(a, b).Some? && Contains(Intersect(a, b).value, x)) <==> Contains(a, x) && Contains(b, x)
    ensures InWidth(w, a) && InWidth(w, b) && Intersect(a, b).Some? ==> InWidth(w, Intersect(a, b).value)
  {
  }

  /** `intersectWith` is commutative. */
  lemma {:induction false} IntersectCommutes(a: Range, b: Range)
    ensures Intersect(a, b) == Intersect(b, a)
  {
  }

  /** `listOf(...).filter { it.first <= it.last }`: the non-empty ranges, in order. */
  function NonEmptyOnly(rs: seq<Range>): (r: seq<Range>)
    ensures |r| <= |rs|
    ensures forall q :: q in r <==> q in rs && !IsEmpty(q)
  {
    if |rs| == 0 then []
    else if IsEmpty(rs[0]) then NonEmptyOnly(rs[1..])
    else [rs[0]] + NonEmptyOnly(rs[1..])
  }

  /** An element is covered by one of `rs`. */
  predicate Covered(rs: seq<Range>, x: int)
  {
    exists q :: q in rs && Contains(q, x)
  }

  /** `getDisjointRanges` as written: the ranges themselves when they do not overlap, and
      otherwise the parts of `min(firsts)..max(lasts)` before and after the intersection,
      with `intersection.last + 1` computed in the range's own width. */
  function DisjointRangesAsWritten(w: Width, a: Range, b: Range): seq<Range>
  {
    match Intersect(a, b)
    case None => [a, b]
    case Some(i) =>
      var start := if a.first <= b.first then a.first else b.first;
      var end := if a.last >= b.last then a.last else b.last;
      NonEmptyOnly([Range(start, i.first - 1), Range(WrapTo(w, i.last + 1), end)])
  }

  /** When both ranges end at the largest value, `intersection.last + 1` wraps around to the
      smallest one, and the second part covers every value, elements of both ranges included. */
  lemma {:induction false} DisjointRangesWrapCounterexample()
    ensures var rs := DisjointRangesAsWritten(IntWidth, Range(0, INT_MAX), Range(5, INT_MAX));
            Covered(rs, 7) && Contains(Range(0, INT_MAX), 7) && Contains(Range(5, INT_MAX), 7)
  {
    var rs := DisjointRangesAsWritten(IntWidth, Range(0, INT_MAX), Range(5, INT_MAX));
    assert Range(INT_MIN, INT_MAX) in rs;
  }

  /** The part of `min(firsts)..max(lasts)` before the intersection `i`. */
  function Before(a: Range, b: Range, i: Range): Range
  {
    Range(if a.first <= b.first then a.first else b.first, i.first - 1)
  }

  /** The part of `min(firsts)..max(lasts)` after the intersection `i`. */
  function After(a: Range, b: Range, i: Range): Range
  {
    Range(i.last + 1, if a.last >= b.last then a.last else b.last)
  }

  /** `getDisjointRanges` as intended: the part after the intersection starts one past it,
      and is empty when the intersection reaches the larger end. */
  function DisjointRanges(a: Range, b: Range): (r: seq<Range>)
    ensures |r| <= 2
  {
    match Intersect(a, b)
    case None => [a, b]
    case Some(i) => NonEmptyOnly([Before(a, b, i), After(a, b, i)])
  }

  /** Filtering two ranges keeps the non-empty ones in order. */
  lemma {:induction false} NonEmptyPair(l: Range, r: Range)
    ensures NonEmptyOnly([l, r]) == (if IsEmpty(l) then [] else [l]) + (if IsEmpty(r) then [] else [r])
  {
    assert [l, r][1..] == [r];
    assert [r][1..] == [];
  }

  /** The two agree unless the intersection ends at the width's largest value. */
  lemma {:induction false} DisjointRangesAgree(w: Width, a: Range, b: Range)
    requires InWidth(w, a) && InWidth(w, b)
    requires Intersect(a, b).Some? ==> Intersect(a, b).value.last < MaxOf(w)
    ensures DisjointRangesAsWritten(w, a, b) == DisjointRanges(a, b)
  {
  }

  /** Ranges that do not overlap come back unchanged. */
  lemma {:induction false} DisjointRangesApart(a: Range, b: Range)
    requires Intersect(a, b).None?
    ensures DisjointRanges(a, b) == [a, b]
  {
  }

  /** For overlapping ranges the result is the symmetric difference: non-empty ranges, of the
      inputs' width, in increasing order with a gap between them, covering exactly the
      elements that lie in one range but not in both. */
  lemma {:induction false} DisjointRangesSymmetricDifference(w: Width, a: Range, b: Range)
    requires Intersect(a, b).Some?
    ensures forall q :: q in DisjointRanges(a, b) ==> !IsEmpty(q)
    ensures InWidth(w, a) && InWidth(w, b) ==> forall q :: q in DisjointRanges(a, b) ==> InWidth(w, q)
    ensures |DisjointRanges(a, b)| == 2 ==> DisjointRanges(a, b)[0].last + 1 < DisjointRanges(a, b)[1].first
    ensures forall x :: Covered(DisjointRanges(a, b), x) <==> Contains(a, x) != Contains(b, x)
  {
    var i := Intersect(a, b).value;
    var left, right := Before(a, b, i), After(a, b, i);
    NonEmptyPair(left, right);
    forall x
      ensures Covered(DisjointRanges(a, b), x) <==> Contains(left, x) || Contains(right, x)
    {
      CoveredPair(left, right, x);
    }
  }

  /** An element is covered by the non-empty ones of two ranges exactly when one of the two
      holds it. */
  lemma {:induction false} CoveredPair(l: Range, r: Range, x: int)
    ensures Covered(NonEmptyOnly([l, r]), x) <==> Contains(l, x) || Contains(r, x)
  {
    NonEmptyPair(l, r);
    var rs := NonEmptyOnly([l, r]);
    if Contains(l, x) {
      assert l in rs;
    } else if Contains(r, x) {
      assert r in rs;
    }
  }

  /** `getDisjointRanges` is the same for `IntRange`, `LongRange` and `CharRange` on values
      that fit each: so is `intersectWith`. */
  lemma {:induction false} DisjointRangesWidthFree(a: Range, b: Range)
    requires InWidth(CharWidth, a) && InWidth(CharWidth, b)
    requires Intersect(a, b).Some? ==> Intersect(a, b).value.last < 0xFFFF
    ensures DisjointRangesAsWritten(CharWidth, a, b) == DisjointRangesAsWritten(IntWidth, a, b)
    ensures DisjointRangesAsWritten(IntWidth, a, b) == DisjointRangesAsWritten(LongWidth, a, b)
  {
    DisjointRangesAgree(CharWidth, a, b);
    DisjointRangesAgree(IntWidth, a, b);
    DisjointRangesAgree(LongWidth, a, b);
  }
}
