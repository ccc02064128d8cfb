/** `Day02.kt`: one line of comma-separated `l-r` ranges of product ids. Every id in every
    range is written in decimal; `part2` adds up the ids whose digits are one block written at
    least twice, `part1` the ids whose digits are one block written exactly twice. */
module Day02 {
  import opened Wrappers
  import opened Arith
  import opened JavaInt
  import opened JavaText
  import opened Collections

  // ---------------------------------------------------------------------------------------
  // The digit test
  // ---------------------------------------------------------------------------------------

  /** Every character equals the one `size` places before it. */
  predicate Periodic(s: string, size: nat)
  {
    forall k :: size <= k < |s| ==> s[k] == s[k - size]
  }

  /** `part2`'s test: some block size from 1 to half the length divides the length, and the
      string repeats with that period. */
  predicate RepeatedBlock(s: string)
  {
    exists size :: 1 <= size <= |s| / 2 && |s| % size == 0 && Periodic(s, size)
  }

  /** `part1`'s test: an even, non-zero length and two equal halves. */
  predicate HalvesEqual(s: string)
  {
    |s| >= 2 && |s| % 2 == 0 && s[..|s| / 2] == s[|s| / 2..]
  }

  /** `b` written `m` times. */
  function Power(b: string, m: nat): (r: string)
    ensures |r| == m * |b|
  {
    if m == 0 then "" else Power(b, m - 1) + b
  }

  /** The `k`-th character of a power of `b` is the character of `b` at `k % |b|`. */
  lemma {:induction false} PowerAt(b: string, m: nat, k: int)
    requires |b| >= 1 && 0 <= k < m * |b|
    ensures Power(b, m)[k] == b[k % |b|]
  {
    var n := (m - 1) * |b|;
    if k < n {
      PowerAt(b, m - 1, k);
    } else {
      ModUnique(k, |b|, m - 1, k - n);
    }
  }

  /** A periodic string is its first block cycled: each character is the one at the position
      modulo the period. */
  lemma {:induction false} PeriodicAt(s: string, size: nat, k: int)
    requires size >= 1 && Periodic(s, size) && 0 <= k < |s|
    ensures s[k] == s[k % size]
    decreases k
  {
    if k < size {
      ModUnique(k, size, 0, k);
    } else {
      PeriodicAt(s, size, k - size);
      ModUnique(k, size, (k - size) / size + 1, (k - size) % size);
    }
  }

  /** Conversely, a string whose characters repeat those of its first block is periodic. */
  lemma {:induction false} CycledIsPeriodic(s: string, size: nat)
    requires size >= 1 && forall k :: 0 <= k < |s| ==> s[k] == s[k % size]
    ensures Periodic(s, size)
  {
    forall k | size <= k < |s|
      ensures s[k] == s[k - size]
    {
      ModUnique(k, size, (k - size) / size + 1, (k - size) % size);
    }
  }

  /** A length that a block size at most half of it divides is that many blocks, at least two. */
  lemma {:induction false} BlockCount(len: nat, size: nat)
    requires 1 <= size <= len / 2 && len % size == 0
    ensures len == (len / size) * size && len / size >= 2
  {
    var m := len / size;
    assert len == m * size;
    assert (m - 2) * size == len - 2 * size >= 0;
  }

  /** A reference form of `part2`'s test: the string is some non-empty block written two or
      more times. */
  lemma {:induction false} RepeatedIsPower(s: string)
    ensures RepeatedBlock(s) <==> exists b: string, m: nat :: |b| >= 1 && m >= 2 && s == Power(b, m)
  {
    if RepeatedBlock(s) {
      var size :| 1 <= size <= |s| / 2 && |s| % size == 0 && Periodic(s, size);
      BlockCount(|s|, size);
      var b, m := s[..size], |s| / size;
      forall k | 0 <= k < |s|
        ensures s[k] == Power(b, m)[k]
      {
        PeriodicAt(s, size, k);
        PowerAt(b, m, k);
      }
      assert s == Power(b, m);
    }
    if exists b: string, m: nat :: |b| >= 1 && m >= 2 && s == Power(b, m) {
      var b: string, m: nat :| |b| >= 1 && m >= 2 && s == Power(b, m);
      var size := |b|;
      ModUnique(|s|, size, m, 0);
      assert |s| >= 2 * size;
      forall k | 0 <= k < |s|
        ensures s[k] == s[k % size]
      {
        PowerAt(b, m, k);
        PowerAt(b, m, k % size);
        ModUnique(k % size, size, 0, k % size);
      }
      CycledIsPeriodic(s, size);
    }
  }

  /** Two equal halves are the half-length period, so every `part1` string passes `part2`'s
      test too. */
  lemma {:induction false} HalvesArePeriodic(s: string)
    requires |s| >= 2 && |s| % 2 == 0
    ensures HalvesEqual(s) <==> Periodic(s, |s| / 2)
  {
    var h := |s| / 2;
    if HalvesEqual(s) {
      forall k | h <= k < |s|
        ensures s[k] == s[k - h]
      {
        assert s[k] == s[h..][k - h];
      }
    }
    if Periodic(s, h) {
      forall t | 0 <= t < h
        ensures s[..h][t] == s[h..][t]
      {
        assert s[h + t] == s[h + t - h];
      }
    }
  }

  lemma {:induction false} HalvesAreRepeated(s: string)
    requires HalvesEqual(s)
    ensures RepeatedBlock(s)
  {
    HalvesArePeriodic(s);
    ModUnique(|s|, |s| / 2, 2, 0);
  }

  /** Where the blocks `i` and `i + 1` of size `size` lie, and that they are equal exactly when
      each character of block `i + 1` equals the one a block earlier. */
  lemma {:induction false} BlockPair(s: string, size: nat, i: nat)
    requires 1 <= size <= |s| / 2 && |s| % size == 0 && i < |s| / size - 1
    ensures (i + 1) * size == i * size + size && (i + 2) * size == (i + 1) * size + size
    ensures (i + 2) * size <= |s|
    ensures s[i * size..(i + 1) * size] == s[(i + 1) * size..(i + 2) * size] <==>
              forall k :: (i + 1) * size <= k < (i + 2) * size ==> s[k] == s[k - size]
  {
    BlockCount(|s|, size);
    var m := |s| / size;
    assert (i + 2) * size <= m * size;
    var a := (i + 1) * size;
    var sub, next := s[a - size..a], s[a..a + size];
    if sub == next {
      forall k | a <= k < a + size
        ensures s[k] == s[k - size]
      {
        assert s[k] == next[k - a] && s[k - size] == sub[k - a];
      }
    }
    if forall k :: a <= k < a + size ==> s[k] == s[k - size] {
      forall t | 0 <= t < size
        ensures sub[t] == next[t]
      {
        assert s[a + t] == s[a + t - size];
      }
    }
  }

  /** The inner loop for one block size: compare each block with the next, stopping at the
      first pair that differs. */
  method BlocksAgree(s: string, size: nat) returns (ok: bool)
    requires 1 <= size <= |s| / 2 && |s| % size == 0
    ensures ok <==> Periodic(s, size)
  {
    BlockCount(|s|, size);
    var n := |s| / size;
    var i := 0;
    ghost var lo := 0;
    while i < n - 1
      invariant 0 <= i <= n - 1 && lo == i * size && lo + size <= |s|
      invariant forall k :: size <= k < lo + size ==> s[k] == s[k - size]
    {
      BlockPair(s, size, i);
      var sub := s[i * size..(i + 1) * size];
      var next := s[(i + 1) * size..(i + 2) * size];
      if sub != next {
        return false;
      }
      i := i + 1;
      lo := lo + size;
    }
    assert lo + size == n * size;
    return true;
  }

  /** The labelled loop over block sizes `len / 2` down to 1 (`j` counting the sizes tried):
      a size that does not divide the length is skipped, the first size whose blocks all agree
      ends the search. `first` says that it was the first size tried. */
  method Classify(s: string) returns (found: bool, first: bool)
    ensures found <==> RepeatedBlock(s)
    ensures first <==> |s| / 2 >= 1 && |s| % (|s| / 2) == 0 && Periodic(s, |s| / 2)
  {
    var half := |s| / 2;
    var j := 0;
    while j < half
      invariant 0 <= j <= half
      invariant forall size :: half - j < size <= half ==> !(|s| % size == 0 && Periodic(s, size))
    {
      var size := half - j;
      if |s| % size == 0 {
        var ok := BlocksAgree(s, size);
        if ok {
          return true, j == 0;
        }
      }
      j := j + 1;
    }
    return false, false;
  }

  /** What an id adds to each part. */
  function Score1(n: Int64): Int64
  {
    if HalvesEqual(Decimal(n)) then n else 0
  }

  function Score2(n: Int64): Int64
  {
    if RepeatedBlock(Decimal(n)) then n else 0
  }

  /** Every id `part1` counts, `part2` counts as well. */
  lemma {:induction false} Part1IdsInPart2(n: Int64)
    ensures Score1(n) != 0 ==> Score2(n) == n == Score1(n)
  {
    if HalvesEqual(Decimal(n)) {
      HalvesAreRepeated(Decimal(n));
    }
  }

  /** The body of the inner `sumOf`: the test of one id; `add1` says whether `part1 += id`. */
  method Examine(n: Int64) returns (add1: bool, v: Int64)
    ensures add1 <==> HalvesEqual(Decimal(n))
    ensures v == Score2(n)
  {
    var str := Decimal(n);
    var repeated, first := Classify(str);
    add1 := repeated && first && |str| % 2 == 0;
    v := if repeated then n else 0;
    if |str| % 2 == 0 && |str| >= 2 {
      HalvesArePeriodic(str);
      ModUnique(|str|, |str| / 2, 2, 0);
      if HalvesEqual(str) {
        HalvesAreRepeated(str);
      }
    }
    assert |str| >= 1;
  }

  // ---------------------------------------------------------------------------------------
  // Sums over the ranges
  // ---------------------------------------------------------------------------------------

  /** `f` of each id of `l..hi`, in order. */
  function Over(f: Int64 -> Int64, l: Int64, hi: int): (r: seq<Int64>)
    requires hi <= LONG_MAX
    ensures |r| == if hi < l then 0 else hi - l + 1
    decreases hi - l
  {
    if hi < l then [] else Over(f, l, hi - 1) + [f(hi as Int64)]
  }

  /** One more id of the range is one more score at the end. */
  lemma {:induction false} OverSnoc(f: Int64 -> Int64, l: Int64, hi: int, before: seq<Int64>)
    requires l <= hi <= LONG_MAX
    ensures before + Over(f, l, hi) == (before + Over(f, l, hi - 1)) + [f(hi as Int64)]
  {
    var init := Over(f, l, hi - 1);
    assert Over(f, l, hi) == init + [f(hi as Int64)];
    assert before + (init + [f(hi as Int64)]) == (before + init) + [f(hi as Int64)];
  }

  /** `f` of every id, range after range. */
  function Flat(f: Int64 -> Int64, rs: seq<(Int64, Int64)>): seq<Int64>
  {
    if |rs| == 0 then [] else Flat(f, rs[..|rs| - 1]) + Over(f, rs[|rs| - 1].0, rs[|rs| - 1].1)
  }

  /** What the outer `sumOf` adds up: one `long` sum per range. */
  function RangeSums(f: Int64 -> Int64, rs: seq<(Int64, Int64)>): seq<Int64>
  {
    if |rs| == 0 then [] else RangeSums(f, rs[..|rs| - 1]) + [Sum64(Over(f, rs[|rs| - 1].0, rs[|rs| - 1].1))]
  }

  /** A sum of per-range `long` sums is the exact total over all ids, wrapped once. */
  lemma {:induction false} RangeSumsWrap(f: Int64 -> Int64, rs: seq<(Int64, Int64)>)
    ensures Sum64(RangeSums(f, rs)) as int == Wrap64(Sum(Flat(f, rs)))
  {
    RangeSumsFlat(f, rs);
    Sum64Wraps(Flat(f, rs));
  }

  /** Summing range by range in `long` arithmetic is summing all ids at once. */
  lemma {:induction false} RangeSumsFlat(f: Int64 -> Int64, rs: seq<(Int64, Int64)>)
    ensures Sum64(RangeSums(f, rs)) == Sum64(Flat(f, rs))
  {
    if |rs| > 0 {
      var init, last := rs[..|rs| - 1], rs[|rs| - 1];
      var piece := Over(f, last.0, last.1);
      RangeSumsFlat(f, init);
      var sums := RangeSums(f, init);
      assert RangeSums(f, rs) == sums + [Sum64(piece)];
      Sum64Snoc(sums, Sum64(piece));
      assert Flat(f, rs) == Flat(f, init) + piece;
      Sum64Append(Flat(f, init), piece);
    }
  }

  /** `part1 += id` for a counted id, nothing otherwise: the `long` sum of one more score. */
  lemma {:induction false} AddScore(part1: Int64, done: seq<Int64>, k: Int64, add1: bool)
    requires part1 == Sum64(done) && (add1 <==> HalvesEqual(Decimal(k)))
    ensures (if add1 then Add64(part1, k) else part1) == Sum64(done + [Score1(k)])
  {
    Sum64Snoc(done, Score1(k));
  }

  /** The inner loop's state once the ids `l..k - 1` are done: `sum1` is `part1` plus their
      part-1 scores and `inner` the sum of their part-2 scores, both in `long` arithmetic. */
  predicate Done(l: Int64, k: int, part1: Int64, sum1: Int64, inner: Int64)
  {
    k <= LONG_MAX + 1
    && sum1 == Add64(part1, Sum64(Over(Score1, l, k - 1)))
    && inner == Sum64(Over(Score2, l, k - 1))
  }

  /** The inner loop over one range `l..hi`: `part1` carried on, the range's `long` sum from 0. */
  method SumRange(l: Int64, hi: Int64, part1: Int64, ghost before: seq<Int64>) returns (part1': Int64, inner: Int64)
    requires part1 == Sum64(before)
    ensures part1' == Sum64(before + Over(Score1, l, hi))
    ensures inner == Sum64(Over(Score2, l, hi))
  {
    part1', inner := part1, 0;
    assert Done(l, l, part1, part1', inner);
    for k: int := l to if hi < l then l else hi as int + 1
      invariant Done(l, k, part1, part1', inner)
    {
      part1', inner := ScoreId(l, k as Int64, part1, part1', inner);
    }
    DoneRange(l, hi, part1, part1', inner, before);
  }

  /** A finished inner loop: both sums cover the whole range. */
  lemma {:induction false} DoneRange(l: Int64, hi: Int64, part1: Int64, sum1: Int64, inner: Int64, before: seq<Int64>)
    requires part1 == Sum64(before)
    requires Done(l, if hi < l then l else hi as int + 1, part1, sum1, inner)
    ensures sum1 == Sum64(before + Over(Score1, l, hi))
    ensures inner == Sum64(Over(Score2, l, hi))
  {
    assert Over(Score1, l, hi) == Over(Score1, l, (if hi < l then l else hi as int + 1) - 1);
    assert Over(Score2, l, hi) == Over(Score2, l, (if hi < l then l else hi as int + 1) - 1);
    Sum64Append(before, Over(Score1, l, hi));
  }

  /** One id `k` of the range: its part-1 score added to `part1`, its part-2 score to the
      range's sum. */
  method ScoreId(l: Int64, k: Int64, part1: Int64, sum1: Int64, inner: Int64) returns (sum1': Int64, inner': Int64)
    requires l <= k
    requires Done(l, k, part1, sum1, inner)
    ensures Done(l, k as int + 1, part1, sum1', inner')
  {
    var add1, v := Examine(k);
    var done1 := Over(Score1, l, k as int - 1);
    Sum64Snoc(done1, Score1(k));
    Add64Assoc(part1, Sum64(done1), Score1(k));
    Sum64Snoc(Over(Score2, l, k as int - 1), v);
    sum1' := if add1 then Add64(sum1, k) else sum1;
    inner' := Add64(inner, v);
  }

  // ---------------------------------------------------------------------------------------
  // Parsing and the whole evaluation
  // ---------------------------------------------------------------------------------------

  /** One `l-r` text: `split("-")`, `toLongs()` (the first piece that is no `long` throws
      `NumberFormatException`), then `toPair()` (not exactly two pieces: `require` fails). */
  function ParseRange(t: string): (r: Result<(Int64, Int64)>)
    ensures r.Ok? ==> |Parts(t, Equal('-'))| == 2
    ensures r.Ok? ==> ParseLong(Parts(t, Equal('-'))[0]) == Ok(r.value.0 as int) &&
                      ParseLong(Parts(t, Equal('-'))[1]) == Ok(r.value.1 as int)
    ensures r.Err? ==> r.error == NumberFormat || r.error == IllegalArgument
  {
    var nums :- ParseAll(Parts(t, Equal('-')), LONG_MIN, LONG_MAX);
    var p :- ToPair(nums);
    Ok((p.0 as Int64, p.1 as Int64))
  }

  /** `split(",").map { ... }`: the ranges in order; the first text that fails decides the
      exception. */
  function ParseRangeTexts(ts: seq<string>): (r: Result<seq<(Int64, Int64)>>)
    ensures r.Ok? ==> |r.value| == |ts| && forall k :: 0 <= k < |ts| ==> ParseRange(ts[k]) == Ok(r.value[k])
    ensures r.Err? ==> exists k :: 0 <= k < |ts| && ParseRange(ts[k]) == Err(r.error)
  {
    if |ts| == 0 then Ok([])
    else
      var first :- ParseRange(ts[0]);
      var rest :- ParseRangeTexts(ts[1..]);
      assert forall k :: 1 <= k < |ts| ==> ts[1..][k - 1] == ts[k];
      Ok([first] + rest)
  }

  function ParseRanges(line: string): Result<seq<(Int64, Int64)>>
  {
    ParseRangeTexts(Parts(line, Equal(',')))
  }

  /** `evaluate()`: the first line's ranges, then `(part1, part2)` as `long` sums; no line at all
      is an `IndexOutOfBoundsException`, a malformed range the exception of its parse. */
  method Evaluate(lines: seq<string>) returns (r: Result<(Int64, Int64)>)
    ensures |lines| == 0 ==> r == Err(IndexOutOfBounds)
    ensures |lines| >= 1 && ParseRanges(lines[0]).Err? ==> r == Err(ParseRanges(lines[0]).error)
    ensures |lines| >= 1 && ParseRanges(lines[0]).Ok? ==>
              r == Ok((Sum64(Flat(Score1, ParseRanges(lines[0]).value)), Sum64(RangeSums(Score2, ParseRanges(lines[0]).value))))
  {
    if |lines| == 0 {
      return Err(IndexOutOfBounds);
    }
    var parsed := ParseRanges(lines[0]);
    if parsed.Err? {
      return Err(parsed.error);
    }
    var ranges := parsed.value;
    var part1: Int64 := 0;
    var part2: Int64 := 0;
    for q := 0 to |ranges|
      invariant part1 == Sum64(Flat(Score1, ranges[..q]))
      invariant part2 == Sum64(RangeSums(Score2, ranges[..q]))
    {
      part1, part2 := AddRange(ranges, q, part1, part2);
    }
    assert ranges[..|ranges|] == ranges;
    r := Ok((part1, part2));
  }

  /** One pass of the outer loop: range `q` summed by the inner loop, its `long` sum added to
      `part2`. */
  method AddRange(ranges: seq<(Int64, Int64)>, q: int, part1: Int64, part2: Int64) returns (part1': Int64, part2': Int64)
    requires 0 <= q < |ranges|
    requires part1 == Sum64(Flat(Score1, ranges[..q]))
    requires part2 == Sum64(RangeSums(Score2, ranges[..q]))
    ensures part1' == Sum64(Flat(Score1, ranges[..q + 1]))
    ensures part2' == Sum64(RangeSums(Score2, ranges[..q + 1]))
  {
    var inner;
    part1', inner := SumRange(ranges[q].0, ranges[q].1, part1, Flat(Score1, ranges[..q]));
    assert ranges[..q + 1][..q] == ranges[..q];
    ghost var sums := RangeSums(Score2, ranges[..q + 1]);
    assert sums == RangeSums(Score2, ranges[..q]) + [inner];
    Sum64Snoc(RangeSums(Score2, ranges[..q]), inner);
    part2' := Add64(part2, inner);
  }

  /** The answers are the exact totals of the counted ids, wrapped to `long`. */
  lemma {:induction false} Totals(rs: seq<(Int64, Int64)>)
    ensures Sum64(Flat(Score1, rs)) as int == Wrap64(Sum(Flat(Score1, rs)))
    ensures Sum64(RangeSums(Score2, rs)) as int == Wrap64(Sum(Flat(Score2, rs)))
  {
    Sum64Wraps(Flat(Score1, rs));
    RangeSumsWrap(Score2, rs);
  }

  /** The text of a range, `l-r`, and of a list of ranges joined by commas. */
  function RangeText(p: (Int64, Int64)): string
  {
    Decimal(p.0) + "-" + Decimal(p.1)
  }

  function RangeTexts(rs: seq<(Int64, Int64)>): (r: seq<string>)
    ensures |r| == |rs| && forall k :: 0 <= k < |rs| ==> r[k] == RangeText(rs[k])
  {
    seq(|rs|, k requires 0 <= k < |rs| => RangeText(rs[k]))
  }

  /** The decimal form of a non-negative number holds neither separator. */
  lemma {:induction false} NoSeparators(n: Int64)
    requires n >= 0
    ensures '-' !in Decimal(n) && ',' !in Decimal(n)
  {
    DigitsAreDigits(n);
  }

  /** A range of non-negative ids written as `l-r` reads back as itself. */
  lemma {:induction false} ParseRangeRoundTrip(p: (Int64, Int64))
    requires p.0 >= 0 && p.1 >= 0
    ensures ParseRange(RangeText(p)) == Ok(p)
    ensures ',' !in RangeText(p)
  {
    var a, b := Decimal(p.0), Decimal(p.1);
    NoSeparators(p.0);
    NoSeparators(p.1);
    assert Join([a, b], '-') == RangeText(p) by {
      assert [a, b][..1] == [a];
    }
    PartsJoin([a, b], '-');
    ParseDecimal(p.0, LONG_MIN, LONG_MAX);
    ParseDecimal(p.1, LONG_MIN, LONG_MAX);
    ParseTwo(a, b, p.0, p.1);
  }

  /** Two well-formed numbers parse as the list of the two. */
  lemma {:induction false} ParseTwo(a: string, b: string, x: int, y: int)
    requires ParseLong(a) == Ok(x) && ParseLong(b) == Ok(y)
    ensures ParseAll([a, b], LONG_MIN, LONG_MAX) == Ok([x, y])
  {
    var one := ParseAll([b], LONG_MIN, LONG_MAX);
    assert one.Ok? && |one.value| == 1 && one.value[0] == y;
    assert one.value == [y];
    assert [a, b][1..] == [b];
    var two := ParseAll([a, b], LONG_MIN, LONG_MAX);
    assert two.Ok? && |two.value| == 2 && two.value[0] == x && two.value[1] == y;
    assert two.value == [x, y];
  }

  lemma {:induction false} ParseRangeTextsRoundTrip(rs: seq<(Int64, Int64)>)
    requires forall k :: 0 <= k < |rs| ==> rs[k].0 >= 0 && rs[k].1 >= 0
    ensures ParseRangeTexts(RangeTexts(rs)) == Ok(rs)
  {
    if |rs| > 0 {
      ParseRangeRoundTrip(rs[0]);
      ParseRangeTextsRoundTrip(rs[1..]);
      assert RangeTexts(rs)[1..] == RangeTexts(rs[1..]);
      assert [rs[0]] + rs[1..] == rs;
    }
  }

  /** The comma-joined text of non-empty list of ranges of non-negative ids parses back to
      the list: `ParseRanges` is the inverse of writing the ranges out. */
  lemma {:induction false} ParseRangesRoundTrip(rs: seq<(Int64, Int64)>)
    requires |rs| >= 1 && forall k :: 0 <= k < |rs| ==> rs[k].0 >= 0 && rs[k].1 >= 0
    ensures ParseRanges(Join(RangeTexts(rs), ',')) == Ok(rs)
  {
    forall t | t in RangeTexts(rs)
      ensures ',' !in t
    {
      var k :| 0 <= k < |rs| && RangeTexts(rs)[k] == t;
      ParseRangeRoundTrip(rs[k]);
    }
    PartsJoin(RangeTexts(rs), ',');
    ParseRangeTextsRoundTrip(rs);
  }
}
