/** `Day01.kt`: a dial numbered 0 to 99, starting at 50, is turned by lines `L<n>` (down)
    and `R<n>` (up) one click at a time. `part1` counts the lines whose end position is 0
    (tested as `(dial ± n).mod(100)`); `part2` counts every click that leaves the dial at 0. */
module Day01 {
  import opened Wrappers
  import opened Arith
  import opened JavaInt
  import opened JavaText

  /** One input line: the direction and the click count. */
  datatype Rotation = Rotation(left: bool, num: Int32)

  /** `l[0] == 'L'` and `l.substring(1).toInt()`: an empty line throws at `l[0]`, a malformed
      count with a `NumberFormatException`. Any first character but `L` turns right. */
  function ParseRotation(l: string): (r: Result<Rotation>)
    ensures r.Ok? <==> |l| >= 1 && ParseInt(l[1..]).Ok?
    ensures r.Ok? ==> r.value == Rotation(l[0] == 'L', ParseInt(l[1..]).value)
    ensures |l| == 0 ==> r == Err(IndexOutOfBounds)
    ensures |l| >= 1 && r.Err? ==> r.error == NumberFormat
  {
    if |l| == 0 then Err(IndexOutOfBounds)
    else
      var num :- ParseInt(l[1..]);
      Ok(Rotation(l[0] == 'L', num))
  }

  /** The lines parsed in order; the first line that fails decides the error. */
  function ParseRotations(ls: seq<string>): (r: Result<seq<Rotation>>)
    ensures r.Ok? ==> |r.value| == |ls| && forall k :: 0 <= k < |ls| ==> ParseRotation(ls[k]) == Ok(r.value[k])
    ensures r.Err? ==> exists k :: 0 <= k < |ls| && ParseRotation(ls[k]) == Err(r.error)
  {
    if |ls| == 0 then Ok([])
    else
      var front :- ParseRotations(ls[..|ls| - 1]);
      var last :- ParseRotation(ls[|ls| - 1]);
      Ok(front + [last])
  }

  /** `n` clicks to the left are `-n`, to the right `+n`. */
  function Signed(left: bool, n: int): int
  {
    if left then -n else n
  }

  /** One click: `dial += ±1`, with 100 turning into 0 and -1 into 99. */
  function Click(dial: int, left: bool): int
  {
    var d := dial + (if left then -1 else 1);
    if d == 100 then 0 else if d == -1 then 99 else d
  }

  /** A click on the dial is a step modulo 100, and keeps the dial on the face. */
  lemma {:induction false} ClickMod(start: int, left: bool, k: nat, dial: int)
    requires dial == (start + Signed(left, k)) % 100
    ensures Click(dial, left) == (start + Signed(left, k + 1)) % 100
    ensures 0 <= Click(dial, left) < 100
  {
    var a := start + Signed(left, k);
    ModUnique(a, 100, a / 100, dial);
    if left {
      if dial == 0 {
        ModUnique(a - 1, 100, a / 100 - 1, 99);
      } else {
        ModUnique(a - 1, 100, a / 100, dial - 1);
      }
    } else {
      if dial == 99 {
        ModUnique(a + 1, 100, a / 100 + 1, 0);
      } else {
        ModUnique(a + 1, 100, a / 100, dial + 1);
      }
    }
  }

  /** The number of `i` in `1..n` with `start ± i` a multiple of 100: the clicks of a turn of
      `n` that leave the dial at 0. */
  function Hits(start: int, left: bool, n: int): nat
    decreases n
  {
    if n <= 0 then 0 else Hits(start, left, n - 1) + (if (start + Signed(left, n)) % 100 == 0 then 1 else 0)
  }

  /** Where a turn leaves the dial: `n` clicks from `start`; a negative count makes none. */
  function Landing(start: int, r: Rotation): int
  {
    if r.num <= 0 then start else (start + Signed(r.left, r.num)) % 100
  }

  /** `part1`'s test, `(dial + (if (left) -num else num)).mod(100) == 0`, in `int` arithmetic. */
  predicate EndsAtZero(dial: Int32, r: Rotation)
  {
    FloorMod(Add32(dial, if r.left then Neg32(r.num) else r.num), 100) == 0
  }

  /** The position and both counts after some lines. */
  datatype Tally = Tally(dial: int, part1: nat, part2: nat)

  function Turn(t: Tally, r: Rotation): Tally
    requires 0 <= t.dial < 100
  {
    Tally(Landing(t.dial, r), t.part1 + (if EndsAtZero(t.dial, r) then 1 else 0), t.part2 + Hits(t.dial, r.left, r.num))
  }

  /** The lines applied in order from the dial at 50, the dial staying on the face. */
  function Run(rs: seq<Rotation>): (t: Tally)
    ensures 0 <= t.dial < 100
  {
    if |rs| == 0 then Tally(50, 0, 0) else Turn(Run(rs[..|rs| - 1]), rs[|rs| - 1])
  }

  /** The machine's three variables hold the tally: the dial, and both counts as `int` counters. */
  predicate Holds(dial: Int32, part1: Int32, part2: Int32, t: Tally)
  {
    dial as int == t.dial && part1 == Count32(t.part1) && part2 == Count32(t.part2)
  }

  /** `evaluate()`: `(part1, part2)` as Java `int` counters, or the first line's error. */
  method Evaluate(lines: seq<string>) returns (r: Result<(Int32, Int32)>)
    ensures ParseRotations(lines).Err? ==> r == Err(ParseRotations(lines).error)
    ensures ParseRotations(lines).Ok? ==> (r.Ok? &&
              r.value == (Count32(Run(ParseRotations(lines).value).part1), Count32(Run(ParseRotations(lines).value).part2)))
  {
    var dial: Int32 := 50;
    var part1: Int32 := 0;
    var part2: Int32 := 0;
    ghost var rs: seq<Rotation> := [];
    for j := 0 to |lines|
      invariant ParseRotations(lines[..j]) == Ok(rs)
      invariant Holds(dial, part1, part2, Run(rs))
    {
      var rot := ParseRotation(lines[j]);
      if rot.Err? {
        PrefixError(lines, j + 1);
        ErrorPersists(lines, j + 1);
        return Err(rot.error);
      }
      dial, part1, part2 := Line(dial, part1, part2, rot.value, Run(rs));
      PrefixOk(lines, j + 1, rs);
      RunSnoc(rs, rot.value);
      rs := rs + [rot.value];
    }
    assert lines[..|lines|] == lines;
    r := Ok((part1, part2));
  }

  /** One line's body: the end test for `part1`, then the clicks. */
  method Line(dial: Int32, part1: Int32, part2: Int32, rot: Rotation, ghost t: Tally)
    returns (dial': Int32, part1': Int32, part2': Int32)
    requires 0 <= t.dial < 100 && Holds(dial, part1, part2, t)
    ensures Holds(dial', part1', part2', Turn(t, rot))
  {
    part1' := part1;
    if EndsAtZero(dial, rot) {
      part1' := Add32(part1, 1);
    }
    dial', part2' := Clicks(dial, rot.left, rot.num, part2, t.part2);
  }

  /** The click loop of one line: `num` single clicks, `part2` bumped at each 0. */
  method Clicks(start: Int32, left: bool, num: Int32, part2: Int32, ghost exact: nat) returns (dial: Int32, count: Int32)
    requires 0 <= start < 100 && part2 == Count32(exact)
    ensures dial as int == Landing(start, Rotation(left, num))
    ensures count == Count32(exact + Hits(start, left, num))
  {
    dial, count := start, part2;
    for i := 0 to if num < 0 then 0 else num
      invariant dial as int == (start + Signed(left, i)) % 100
      invariant count == Count32(exact + Hits(start, left, i))
    {
      ClickMod(start, left, i, dial as int);
      dial := Click(dial, left);
      if dial == 0 {
        count := Add32(count, 1);
      }
    }
    if num <= 0 {
      assert Signed(left, 0) == 0 && (start as int) % 100 == start as int;
    }
  }

  /** Parsing one more good line extends the parsed prefix by it. */
  lemma {:induction false} PrefixOk(lines: seq<string>, n: nat, rs: seq<Rotation>)
    requires 1 <= n <= |lines|
    requires ParseRotations(lines[..n - 1]) == Ok(rs) && ParseRotation(lines[n - 1]).Ok?
    ensures ParseRotations(lines[..n]) == Ok(rs + [ParseRotation(lines[n - 1]).value])
  {
    assert lines[..n][..n - 1] == lines[..n - 1];
  }

  /** Running one more line is one more turn. */
  lemma {:induction false} RunSnoc(rs: seq<Rotation>, r: Rotation)
    ensures Run(rs + [r]) == Turn(Run(rs), r)
  {
    assert (rs + [r])[..|rs|] == rs;
  }

  /** A line that fails makes every longer prefix fail with the first failure's error. */
  lemma {:induction false} PrefixError(lines: seq<string>, n: nat)
    requires 1 <= n <= |lines|
    requires ParseRotations(lines[..n - 1]).Ok? && ParseRotation(lines[n - 1]).Err?
    ensures ParseRotations(lines[..n]) == Err(ParseRotation(lines[n - 1]).error)
  {
    assert lines[..n][..n - 1] == lines[..n - 1];
  }

  /** Once a prefix fails, the whole input fails the same way. */
  lemma {:induction false} ErrorPersists(lines: seq<string>, n: nat)
    requires n <= |lines| && ParseRotations(lines[..n]).Err?
    ensures ParseRotations(lines) == ParseRotations(lines[..n])
    decreases |lines| - n
  {
    if n < |lines| {
      assert lines[..n + 1][..n] == lines[..n];
      ErrorPersists(lines, n + 1);
    } else {
      assert lines[..n] == lines;
    }
  }

  /** Away from the `int` limits, `part1`'s test is the exact end position's test, and for a
      non-negative count it asks whether the turn lands on 0. */
  lemma {:induction false} EndsAtZeroExact(dial: Int32, r: Rotation)
    requires 0 <= dial < 100 && Abs(r.num) <= INT_MAX - 100
    ensures EndsAtZero(dial, r) <==> (dial as int + Signed(r.left, r.num as int)) % 100 == 0
    ensures r.num >= 0 ==> (EndsAtZero(dial, r) <==> Landing(dial, r) == 0)
  {
    if r.num == 0 {
      ModUnique(dial as int, 100, 0, dial as int);
    }
  }

  /** `x` is a multiple of 100 exactly when `100 * k - x` is. */
  lemma {:induction false} MultipleNeg(x: int, k: int)
    ensures x % 100 == 0 <==> (100 * k - x) % 100 == 0
  {
    if x % 100 == 0 {
      ModUnique(100 * k - x, 100, k - x / 100, 0);
    }
    if (100 * k - x) % 100 == 0 {
      ModUnique(x, 100, k - (100 * k - x) / 100, 0);
    }
  }

  /** The quotient by 100 grows by one exactly when the next number is a multiple of 100. */
  lemma {:induction false} QuotientStep(a: int)
    ensures (a + 1) / 100 == a / 100 + (if (a + 1) % 100 == 0 then 1 else 0)
  {
    var q, m := a / 100, a % 100;
    if m == 99 {
      ModUnique(a + 1, 100, q + 1, 0);
    } else {
      ModUnique(a + 1, 100, q, m + 1);
    }
  }

  /** A reference count of the crossings of 0: turning right from `start` passes
      `(start + n) / 100` multiples of 100; turning left it first reaches 0 after `start` clicks
      (after 100 from 0 itself), then every 100 clicks. */
  lemma {:induction false} HitsClosedForm(start: int, left: bool, n: nat)
    requires 0 <= start < 100
    ensures Hits(start, left, n) == if left then (n + (100 - start) % 100) / 100 else (start + n) / 100
  {
    if left {
      var c := if start == 0 then 0 else 100 - start;
      ModUnique(100 - start, 100, if start == 0 then 1 else 0, c);
      HitsLeft(start, n, c);
    } else {
      HitsRight(start, n);
    }
  }

  lemma {:induction false} HitsRight(start: int, n: nat)
    requires 0 <= start < 100
    ensures Hits(start, false, n) == (start + n) / 100
  {
    if n == 0 {
      ModUnique(start, 100, 0, start);
    } else {
      HitsRight(start, n - 1);
      QuotientStep(start + n - 1);
      assert Hits(start, false, n) == Hits(start, false, n - 1) + (if (start + n) % 100 == 0 then 1 else 0);
    }
  }

  lemma {:induction false} HitsLeft(start: int, n: nat, c: int)
    requires 0 <= start < 100 && c == if start == 0 then 0 else 100 - start
    ensures Hits(start, true, n) == (n + c) / 100
  {
    if n == 0 {
      ModUnique(c, 100, 0, c);
    } else {
      HitsLeft(start, n - 1, c);
      QuotientStep(n - 1 + c);
      var k := if start == 0 then 0 else 1;
      MultipleNeg(n + c, k);
      assert 100 * k - (n + c) == start + Signed(true, n);
      assert Hits(start, true, n) == Hits(start, true, n - 1) + (if (start + Signed(true, n)) % 100 == 0 then 1 else 0);
    }
  }

  /** A turn of at least one click that lands on 0 crosses 0 at its last click. */
  lemma {:induction false} LandingHits(start: int, r: Rotation)
    requires r.num >= 1 && Landing(start, r) == 0
    ensures Hits(start, r.left, r.num) >= 1
  {
  }

  /** Every turn that `part1` counts is also a crossing that `part2` counts, as long as every
      count is positive and far from the `int` limits. */
  lemma {:induction false} Part1AtMostPart2(rs: seq<Rotation>)
    requires forall k :: 0 <= k < |rs| ==> 1 <= rs[k].num <= INT_MAX - 100
    ensures Run(rs).part1 <= Run(rs).part2
  {
    if |rs| > 0 {
      var front, r := rs[..|rs| - 1], rs[|rs| - 1];
      Part1AtMostPart2(front);
      var t := Run(front);
      if EndsAtZero(t.dial as Int32, r) {
        EndsAtZeroExact(t.dial as Int32, r);
        LandingHits(t.dial, r);
      }
    }
  }
}
