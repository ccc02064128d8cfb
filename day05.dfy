/** `Day05.kt`: a block of `a-b` lines, the ranges of fresh ingredient ids, then a blank
    line and a block of ids. `part1` is how many of the ids lie in some range; `part2` is
    the total size of the ranges after overlapping ones have been merged, which is the
    number of distinct fresh ids. */
module Day05 {
  import opened Wrappers
  import opened JavaInt
  import opened JavaText
  import opened Ranges
  import opened Collections
  import opened Sorting

  // ---------------------------------------------------------------------------------------
  // Parsing
  // ---------------------------------------------------------------------------------------

  /** `val (start, end) = l.split("-")` then `LongRange(start.toLong(), end.toLong())`: the
      destructuring fails first when there is no second piece, then each end is parsed in
      turn; pieces after the second are ignored. */
  function ParseRange(l: string): (r: Result<Range>)
    ensures r.Ok? ==> InWidth(LongWidth, r.value)
    ensures r.Err? ==> r.error == IndexOutOfBounds || r.error == NumberFormat
  {
    var pieces := Parts(l, Equal('-'));
    if |pieces| < 2 then Err(IndexOutOfBounds)
    else
      var start :- ParseLong(pieces[0]);
      var end :- ParseLong(pieces[1]);
      Ok(Range(start, end))
  }

  /** `rangeStrs.map { ... }`: the ranges in order; the first line that fails decides the
      exception. */
  function ParseRanges(ts: seq<string>): (r: Result<seq<Range>>)
    ensures r.Ok? ==> |r.value| == |ts| && forall k :: 0 <= k < |ts| ==> ParseRange(ts[k]) == Ok(r.value[k])
    ensures r.Err? ==> exists k :: 0 <= k < |ts| && ParseRange(ts[k]) == Err(r.error)
  {
    if |ts| == 0 then Ok([])
    else
      var first :- ParseRange(ts[0]);
      var rest :- ParseRanges(ts[1..]);
      assert forall k :: 1 <= k < |ts| ==> ts[1..][k - 1] == ts[k];
      Ok([first] + rest)
  }

  /** The ranges and the ids of a puzzle input, in the order they are written. */
  datatype Input = Input(ranges: seq<Range>, ids: seq<int>)

  /** `val (rangeStrs, idStrs) = lines.splitOnBlankLines()`: fewer than two blocks is an
      `IndexOutOfBoundsException`, blocks after the second are ignored; then the ranges are
      parsed, then the ids with `toLong()`. */
  function Parse(lines: seq<string>): (r: Result<Input>)
    ensures r.Ok? ==> forall q :: q in r.value.ranges ==> InWidth(LongWidth, q)
    ensures r.Ok? ==> forall x :: x in r.value.ids ==> IsLong(x)
  {
    var groups := Parts(lines, IsBlank);
    if |groups| < 2 then Err(IndexOutOfBounds)
    else
      var ranges :- ParseRanges(groups[0]);
      var ids :- ParseAll(groups[1], LONG_MIN, LONG_MAX);
      Ok(Input(ranges, ids))
  }

  /** The text of a range, `a-b`. */
  function RangeText(q: Range): string
  {
    Decimal(q.first) + "-" + Decimal(q.last)
  }

  /** A range of non-negative `long` values written out as `a-b` reads back as itself. */
  lemma {:induction false} ParseRangeRoundTrip(q: Range)
    requires 0 <= q.first <= LONG_MAX && 0 <= q.last <= LONG_MAX
    ensures ParseRange(RangeText(q)) == Ok(q)
  {
    var a, b := Decimal(q.first), Decimal(q.last);
    DigitsAreDigits(q.first);
    DigitsAreDigits(q.last);
    assert Join([a, b], '-') == RangeText(q) by {
      assert [a, b][..1] == [a];
    }
    PartsJoin([a, b], '-');
    ParseDecimal(q.first, LONG_MIN, LONG_MAX);
    ParseDecimal(q.last, LONG_MIN, LONG_MAX);
  }

  /** A negative start cannot be written: its sign is taken for the separator, and the empty
      text before it is no number. */
  lemma {:induction false} NegativeStartRejected()
    ensures ParseRange("-1-3") == Err(NumberFormat)
  {
    assert "-1-3" == Join(["", "1", "3"], '-') by {
      assert ["", "1", "3"][..2] == ["", "1"];
      assert ["", "1"][..1] == [""];
    }
    PartsJoin(["", "1", "3"], '-');
  }

  // ---------------------------------------------------------------------------------------
  // The union of the ranges
  // ---------------------------------------------------------------------------------------

  /** The key of `sortedBy { it.first }`. */
  function First(q: Range): int
  {
    q.first
  }

  /** `x` lies in some range of `rs`, as a test on ids. */
  function InSome(rs: seq<Range>): int -> bool
  {
    x => Covered(rs, x)
  }

  /** Every id some range of `rs` holds. */
  ghost function UnionOf(rs: seq<Range>): set<int>
  {
    if |rs| == 0 then {} else UnionOf(rs[..|rs| - 1]) + Elements(rs[|rs| - 1])
  }

  lemma {:induction false} CoveredSnoc(rs: seq<Range>, q: Range, x: int)
    ensures Covered(rs + [q], x) <==> Covered(rs, x) || Contains(q, x)
  {
    if Covered(rs, x) {
      var w :| w in rs && Contains(w, x);
      assert w in rs + [q];
    }
    if Contains(q, x) {
      assert q in rs + [q];
    }
  }

  /** An id is covered by some range of a list when it is covered by the front of the list
      or lies in its last range. */
  lemma {:induction false} CoveredLast(rs: seq<Range>, x: int)
    requires |rs| > 0
    ensures Covered(rs, x) <==> Covered(rs[..|rs| - 1], x) || Contains(rs[|rs| - 1], x)
  {
    CoveredSnoc(rs[..|rs| - 1], rs[|rs| - 1], x);
    assert rs[..|rs| - 1] + [rs[|rs| - 1]] == rs;
  }

  /** The union holds exactly the covered ids. */
  lemma {:induction false} UnionMembers(rs: seq<Range>, x: int)
    ensures x in UnionOf(rs) <==> Covered(rs, x)
  {
    if |rs| > 0 {
      var front := rs[..|rs| - 1];
      UnionMembers(front, x);
      CoveredLast(rs, x);
    }
  }

  /** A reordering of the ranges covers the same ids. */
  lemma {:induction false} CoveredPermutation(a: seq<Range>, b: seq<Range>, x: int)
    requires multiset(a) == multiset(b)
    ensures Covered(a, x) <==> Covered(b, x)
  {
    if Covered(a, x) {
      var w :| w in a && Contains(w, x);
      assert w in multiset(b);
    }
    if Covered(b, x) {
      var w :| w in b && Contains(w, x);
      assert w in multiset(a);
    }
  }

  // ---------------------------------------------------------------------------------------
  // Merging
  // ---------------------------------------------------------------------------------------

  /** One turn of the merge loop: a range that starts outside `current` closes it, one that
      starts inside it stretches its end to the larger of the two ends. */
  function MergeStep(done: seq<Range>, current: Range, range: Range): (seq<Range>, Range)
  {
    if !Contains(current, range.first) then (done + [current], range)
    else (done, Range(current.first, if range.last >= current.last then range.last else current.last))
  }

  /** The closed ranges and `current` after the loop has seen every range of `rs`:
      `current` starts as `rs[0]`. */
  function MergeFold(rs: seq<Range>): (r: (seq<Range>, Range))
    requires |rs| >= 1
    ensures |r.0| < |rs|
  {
    if |rs| == 1 then ([], rs[0])
    else
      var p := MergeFold(rs[..|rs| - 1]);
      MergeStep(p.0, p.1, rs[|rs| - 1])
  }

  /** `result` once `current` has been added at the end. */
  function Merged(rs: seq<Range>): (r: seq<Range>)
    requires |rs| >= 1
    ensures 1 <= |r| <= |rs|
  {
    MergeFold(rs).0 + [MergeFold(rs).1]
  }

  /** Lines 39-49: the merge loop over the sorted ranges. */
  method MergeRanges(ranges: seq<Range>) returns (result: seq<Range>)
    requires |ranges| >= 1
    ensures result == Merged(ranges)
  {
    result := [];
    var current := ranges[0];
    for i := 1 to |ranges|
      invariant result == MergeFold(ranges[..i]).0 && current == MergeFold(ranges[..i]).1
    {
      assert ranges[..i + 1][..i] == ranges[..i];
      var range := ranges[i];
      if !Contains(current, range.first) {
        result := result + [current];
        current := range;
      } else {
        current := Range(current.first, if range.last >= current.last then range.last else current.last);
      }
    }
    assert ranges[..|ranges|] == ranges;
    result := result + [current];
  }

  /** A range that starts inside `current` adds only ids next to it, so one turn of the loop
      keeps what `done`, `current` and the new range cover together. */
  lemma {:induction false} MergeStepCovers(done: seq<Range>, current: Range, range: Range, x: int)
    ensures var p := MergeStep(done, current, range);
            Covered(p.0, x) || Contains(p.1, x) <==> Covered(done, x) || Contains(current, x) || Contains(range, x)
  {
    if !Contains(current, range.first) {
      CoveredSnoc(done, current, x);
    }
  }

  /** Merging covers the same ids, whatever the order and whether or not some range is
      empty. */
  lemma {:induction false} MergeFoldCovers(rs: seq<Range>, x: int)
    requires |rs| >= 1
    ensures Covered(MergeFold(rs).0, x) || Contains(MergeFold(rs).1, x) <==> Covered(rs, x)
  {
    CoveredLast(rs, x);
    if |rs| > 1 {
      var front := rs[..|rs| - 1];
      var p := MergeFold(front);
      MergeFoldCovers(front, x);
      MergeStepCovers(p.0, p.1, rs[|rs| - 1], x);
    }
  }

  lemma {:induction false} MergedCovers(rs: seq<Range>, x: int)
    requires |rs| >= 1
    ensures Covered(Merged(rs), x) <==> Covered(rs, x)
  {
    MergeFoldCovers(rs, x);
    CoveredSnoc(MergeFold(rs).0, MergeFold(rs).1, x);
  }

  /** Non-empty ranges in increasing order, each ending before the next one starts, so no
      two share an id. */
  predicate Separated(s: seq<Range>)
  {
    (forall i :: 0 <= i < |s| ==> !IsEmpty(s[i])) &&
    (forall i :: 0 <= i < |s| - 1 ==> s[i].last < s[i + 1].first)
  }

  lemma {:induction false} SeparatedSnoc(s: seq<Range>, q: Range)
    requires Separated(s) && !IsEmpty(q) && (|s| > 0 ==> s[|s| - 1].last < q.first)
    ensures Separated(s + [q])
  {
    var t := s + [q];
    forall i | 0 <= i < |t| - 1
      ensures t[i].last < t[i + 1].first
    {
      if i < |s| - 1 {
        assert t[i] == s[i] && t[i + 1] == s[i + 1];
      }
    }
  }

  lemma {:induction false} SeparatedStretch(s: seq<Range>, c: Range, c': Range)
    requires Separated(s + [c]) && c'.first == c.first && c'.last >= c.last
    ensures Separated(s + [c'])
  {
    var t := s + [c];
    assert forall i :: 0 <= i < |s| ==> t[i] == s[i];
    assert t[|s|] == c;
    assert Separated(s) by {
      forall i | 0 <= i < |s| - 1
        ensures s[i].last < s[i + 1].first
      {
        assert t[i].last < t[i + 1].first;
      }
    }
    if |s| > 0 {
      assert t[|s| - 1].last < t[|s|].first;
    }
    SeparatedSnoc(s, c');
  }

  /** All ranges non-empty. */
  predicate NonEmpty(rs: seq<Range>)
  {
    forall i :: 0 <= i < |rs| ==> !IsEmpty(rs[i])
  }

  /** On non-empty ranges sorted by their first id, the loop closes `current` only when the
      next range starts past its end; `current` never starts after the last range seen. */
  lemma {:induction false} MergeFoldSeparated(rs: seq<Range>)
    requires |rs| >= 1 && SortedBy(rs, First) && NonEmpty(rs)
    ensures Separated(MergeFold(rs).0 + [MergeFold(rs).1])
    ensures MergeFold(rs).1.first <= rs[|rs| - 1].first
  {
    if |rs| == 1 {
      assert Separated([] + [rs[0]]);
    } else {
      var front := rs[..|rs| - 1];
      var range := rs[|rs| - 1];
      assert First(front[|front| - 1]) <= First(range);
      MergeFoldSeparated(front);
      var p := MergeFold(front);
      if !Contains(p.1, range.first) {
        SeparatedSnoc(p.0 + [p.1], range);
      } else {
        SeparatedStretch(p.0, p.1, MergeStep(p.0, p.1, range).1);
      }
    }
  }

  /** Merged non-empty `long` ranges are again `long` ranges. */
  lemma {:induction false} MergeFoldInWidth(rs: seq<Range>)
    requires |rs| >= 1 && forall q :: q in rs ==> InWidth(LongWidth, q)
    ensures forall q :: q in MergeFold(rs).0 + [MergeFold(rs).1] ==> InWidth(LongWidth, q)
  {
    if |rs| == 1 {
      assert MergeFold(rs).0 + [MergeFold(rs).1] == [rs[0]];
    } else {
      var front := rs[..|rs| - 1];
      var range := rs[|rs| - 1];
      assert forall q :: q in front ==> q in rs;
      assert range in rs;
      MergeFoldInWidth(front);
      var p := MergeFold(front);
      assert p.1 in p.0 + [p.1];
      if !Contains(p.1, range.first) {
        assert MergeFold(rs).0 + [MergeFold(rs).1] == (p.0 + [p.1]) + [range];
      } else {
        assert MergeFold(rs).0 + [MergeFold(rs).1] == p.0 + [MergeStep(p.0, p.1, range).1];
      }
    }
  }

  // ---------------------------------------------------------------------------------------
  // Counting the union
  // ---------------------------------------------------------------------------------------

  /** The exact number of ids the ranges hold, counted range by range. */
  function TotalLength(s: seq<Range>): int
  {
    if |s| == 0 then 0 else TotalLength(s[..|s| - 1]) + (s[|s| - 1].last - s[|s| - 1].first + 1)
  }

  /** `it.size` of each range, in order. */
  function Sizes(s: seq<Range>): (r: seq<Int64>)
    ensures |r| == |s|
  {
    if |s| == 0 then [] else Sizes(s[..|s| - 1]) + [Size(LongWidth, s[|s| - 1])]
  }

  /** Separated ranges share no id, so the union has as many ids as the ranges together, and
      none beyond the end of the last range. */
  lemma {:induction false} SeparatedUnion(s: seq<Range>)
    requires Separated(s)
    ensures |UnionOf(s)| == TotalLength(s)
    ensures |s| > 0 ==> forall x :: x in UnionOf(s) ==> x <= s[|s| - 1].last
  {
    if |s| > 0 {
      var front := s[..|s| - 1];
      var q := s[|s| - 1];
      assert Separated(front);
      SeparatedUnion(front);
      CountBetween(q.first, q.last);
      if |front| > 0 {
        assert front[|front| - 1].last < q.first;
      }
      assert UnionOf(front) !! Elements(q);
    }
  }

  /** `sumOf { it.size }` is the exact total while that fits in a `long`. */
  lemma {:induction false} SizesExact(s: seq<Range>)
    requires NonEmpty(s)
    ensures TotalLength(s) >= |s|
    ensures TotalLength(s) <= LONG_MAX ==> Sum64(Sizes(s)) == TotalLength(s)
  {
    if |s| > 0 {
      var front := s[..|s| - 1];
      var q := s[|s| - 1];
      assert NonEmpty(front);
      SizesExact(front);
      Sum64Snoc(Sizes(front), Size(LongWidth, q));
    }
  }

  /** `part2` counts the distinct ids some range holds, when every range is non-empty and
      that count fits in a `long`. */
  lemma {:induction false} Part2Counts(rs: seq<Range>)
    requires |rs| >= 1 && NonEmpty(rs) && |UnionOf(rs)| <= LONG_MAX
    ensures Sum64(Sizes(Merged(SortBy(rs, First)))) == |UnionOf(rs)|
  {
    var s := SortBy(rs, First);
    SortByCorrect(rs, First);
    assert NonEmpty(s) by {
      forall i | 0 <= i < |s|
        ensures !IsEmpty(s[i])
      {
        assert s[i] in multiset(rs);
      }
    }
    var m := Merged(s);
    MergeFoldSeparated(s);
    assert UnionOf(m) == UnionOf(rs) by {
      forall x
        ensures x in UnionOf(m) <==> x in UnionOf(rs)
      {
        UnionMembers(m, x);
        UnionMembers(rs, x);
        MergedCovers(s, x);
        CoveredPermutation(s, rs, x);
      }
    }
    SeparatedUnion(m);
    SizesExact(m);
  }

  /** Merged sorted ranges are the union written out: separated `long` ranges covering what
      the input covers. */
  lemma {:induction false} MergedSeparated(rs: seq<Range>)
    requires |rs| >= 1 && SortedBy(rs, First) && NonEmpty(rs) && forall q :: q in rs ==> InWidth(LongWidth, q)
    ensures Separated(Merged(rs))
    ensures forall q :: q in Merged(rs) ==> InWidth(LongWidth, q)
  {
    MergeFoldSeparated(rs);
    MergeFoldInWidth(rs);
  }

  /** A range written backwards is kept and has a negative size, so it lowers `part2`. */
  lemma {:induction false} InvertedRangeCountsNegative()
    ensures Sum64(Sizes(Merged([Range(5, 3)]))) == -1
  {
    assert Merged([Range(5, 3)]) == [Range(5, 3)];
    assert Sizes([Range(5, 3)]) == [-1] by {
      assert [Range(5, 3)][..0] == [];
    }
    assert [-1][..0] == [];
  }

  // ---------------------------------------------------------------------------------------
  // Looking the ids up
  // ---------------------------------------------------------------------------------------

  /** Every range before `idx` ends before `bound`. */
  predicate EndBefore(ranges: seq<Range>, idx: int, bound: int)
    requires 0 <= idx <= |ranges|
  {
    forall j :: 0 <= j < idx ==> ranges[j].last < bound
  }

  /** Lines 54-57: the first range from `idx` on that holds `id`, or the number of ranges. */
  method FindFrom(ranges: seq<Range>, id: int, idx: int) returns (next: int)
    requires 0 <= idx <= |ranges|
    ensures idx <= next <= |ranges|
    ensures next < |ranges| ==> Contains(ranges[next], id)
    ensures forall j :: idx <= j < next ==> !Contains(ranges[j], id)
  {
    next := idx;
    while next < |ranges| && !Contains(ranges[next], id)
      invariant idx <= next <= |ranges|
      invariant forall j :: idx <= j < next ==> !Contains(ranges[j], id)
    {
      next := next + 1;
    }
  }

  /** With the ranges sorted by start, every range before the one found for `id` ends
      before `id`: the ones skipped start no later than it and do not hold `id`. */
  lemma {:induction false} FoundEndBefore(ranges: seq<Range>, id: int, idx: int, bound: int, next: int)
    requires SortedBy(ranges, First) && 0 <= idx <= next < |ranges| && Contains(ranges[next], id)
    requires EndBefore(ranges, idx, bound) && bound <= id
    requires forall j :: idx <= j < next ==> !Contains(ranges[j], id)
    ensures EndBefore(ranges, next, id) && Covered(ranges, id)
  {
    forall j | idx <= j < next
      ensures ranges[j].last < id
    {
      assert First(ranges[j]) <= First(ranges[next]);
    }
    assert ranges[next] in ranges;
  }

  /** An id no range from `idx` on holds, past the ends of the ranges before `idx`, lies in
      no range. */
  lemma {:induction false} NotFoundUncovered(ranges: seq<Range>, id: int, idx: int, bound: int)
    requires 0 <= idx <= |ranges| && EndBefore(ranges, idx, bound) && bound <= id
    requires forall j :: idx <= j < |ranges| ==> !Contains(ranges[j], id)
    ensures !Covered(ranges, id)
  {
    assert forall j :: 0 <= j < |ranges| ==> !Contains(ranges[j], id);
  }

  /** One id counted: the count of a prefix one longer. */
  lemma {:induction false} CountNext(ids: seq<int>, k: int, p: int -> bool)
    requires 0 <= k < |ids|
    ensures CountWhere(ids[..k + 1], p) == CountWhere(ids[..k], p) + (if p(ids[k]) then 1 else 0)
  {
    assert ids[..k + 1][..k] == ids[..k];
  }

  /** Lines 51-62: each id is looked for from the range where the previous one was found;
      `part1` (an `int`) counts the ids found. Every id in some range is found. */
  method CountFound(ranges: seq<Range>, ids: seq<int>) returns (part1: Int32)
    requires SortedBy(ranges, First) && SortedBy(ids, Itself)
    ensures part1 == Count32(CountWhere(ids, InSome(ranges)))
  {
    part1 := 0;
    var idx := 0;
    ghost var counted := 0;
    for k := 0 to |ids|
      invariant 0 <= idx <= |ranges|
      invariant idx > 0 ==> k > 0 && EndBefore(ranges, idx, ids[k - 1])
      invariant counted == CountWhere(ids[..k], InSome(ranges)) && part1 == Count32(counted)
    {
      var id := ids[k];
      ghost var bound := if k > 0 then ids[k - 1] else id;
      assert Itself(bound) <= Itself(id);
      var next := FindFrom(ranges, id, idx);
      CountNext(ids, k, InSome(ranges));
      if next >= |ranges| {
        NotFoundUncovered(ranges, id, idx, bound);
        continue;
      }
      FoundEndBefore(ranges, id, idx, bound, next);
      part1 := Add32(part1, 1);
      counted := counted + 1;
      idx := next;
    }
    assert ids[..|ids|] == ids;
  }

  /** Sorting the ranges and the ids does not change how many of the ids are fresh. */
  lemma {:induction false} Part1Unsorted(rs: seq<Range>, ids: seq<int>)
    ensures CountWhere(SortBy(ids, Itself), InSome(SortBy(rs, First))) == CountWhere(ids, InSome(rs))
  {
    SortByCorrect(ids, Itself);
    SortByCorrect(rs, First);
    CountWherePermutation(SortBy(ids, Itself), ids, InSome(SortBy(rs, First)));
    forall i | 0 <= i < |ids|
      ensures InSome(SortBy(rs, First))(ids[i]) == InSome(rs)(ids[i])
    {
      CoveredPermutation(SortBy(rs, First), rs, ids[i]);
    }
    CountWhereAgree(ids, InSome(SortBy(rs, First)), InSome(rs));
  }

  // ---------------------------------------------------------------------------------------
  // The whole evaluation
  // ---------------------------------------------------------------------------------------

  /** `evaluate()`: `part1` is the number of ids, in input order, that lie in some range;
      `part2` the sizes of the merged ranges added up as `long`s. No range at all is an
      `IndexOutOfBoundsException` from `ranges[0]`, raised after the ids are parsed. */
  method Evaluate(lines: seq<string>) returns (r: Result<(Int32, Int64)>)
    ensures Parse(lines).Err? ==> r == Err(Parse(lines).error)
    ensures Parse(lines).Ok? && |Parse(lines).value.ranges| == 0 ==> r == Err(IndexOutOfBounds)
    ensures Parse(lines).Ok? && |Parse(lines).value.ranges| > 0 ==>
              var input := Parse(lines).value;
              r == Ok((Count32(CountWhere(input.ids, InSome(input.ranges))),
                       Sum64(Sizes(Merged(SortBy(input.ranges, First))))))
  {
    var groups := SplitOnBlankLines(lines);
    if |groups| < 2 {
      return Err(IndexOutOfBounds);
    }
    var parsedRanges := ParseRanges(groups[0]);
    if parsedRanges.Err? {
      return Err(parsedRanges.error);
    }
    var ranges := SortBy(parsedRanges.value, First);
    var parsedIds := ParseAll(groups[1], LONG_MIN, LONG_MAX);
    if parsedIds.Err? {
      return Err(parsedIds.error);
    }
    var ids := SortBy(parsedIds.value, Itself);
    if |ranges| == 0 {
      return Err(IndexOutOfBounds);
    }
    var result := MergeRanges(ranges);
    SortByCorrect(parsedRanges.value, First);
    SortByCorrect(parsedIds.value, Itself);
    var part1 := CountFound(ranges, ids);
    Part1Unsorted(parsedRanges.value, parsedIds.value);
    r := Ok((part1, Sum64(Sizes(result))));
  }
}
