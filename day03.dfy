/** `Day03.kt`: each line is a bank of digit batteries; `calc` switches on `depth` of them,
    greedily left to right, to form the largest `depth`-digit number. `part1` sums the best
    2-digit numbers, `part2` the best 12-digit numbers. */
module Day03 {
  import opened Wrappers
  import opened JavaInt

  /** `10^k`. */
  function Pow10(k: nat): (r: nat)
    ensures r >= 1
  {
    if k == 0 then 1 else 10 * Pow10(k - 1)
  }

  /** `idx + bank.slice(idx..<end).argmax()`, with `argmax` taken to return the first index of
      a greatest element: the first position of a greatest digit in the window `idx ..< end`
      (what makes it that is `BestIsFirstMax`). */
  function Best(bank: seq<int>, idx: nat, end: int): (r: nat)
    requires idx < end <= |bank|
    ensures idx <= r < end
    decreases end
  {
    if end == idx + 1 then idx
    else
      var r := Best(bank, idx, end - 1);
      if bank[end - 1] > bank[r] then end - 1 else r
  }

  /** `Best` is a greatest digit of the window, and every digit before it is smaller. */
  lemma {:induction false} BestIsFirstMax(bank: seq<int>, idx: nat, end: int)
    requires idx < end <= |bank|
    ensures forall k :: idx <= k < end ==> bank[k] <= bank[Best(bank, idx, end)]
    ensures forall k :: idx <= k < Best(bank, idx, end) ==> bank[k] < bank[Best(bank, idx, end)]
    decreases end
  {
    if end > idx + 1 {
      BestIsFirstMax(bank, idx, end - 1);
    }
  }

  /** `scale` is 1 exactly at depth 1, and dividing it by 10 is one depth less. */
  lemma {:induction false} ScaleStep(depth: nat, scale: int)
    requires depth >= 1 && scale == Pow10(depth - 1)
    ensures scale == 1 <==> depth == 1
    ensures depth >= 2 ==> scale / 10 == Pow10(depth - 2) && scale == 10 * (scale / 10)
  {
    if depth >= 2 {
      var p := Pow10(depth - 2);
      assert scale == 10 * p;
      Arith.ModUnique(scale, 10, p, 0);
    }
  }

  /** A bank's batteries are decimal digits. */
  predicate IsBank(bank: seq<int>)
  {
    forall k :: 0 <= k < |bank| ==> 0 <= bank[k] <= 9
  }

  /** `calc(bank, depth, scale, idx)`, called with `scale == 10^(depth - 1)`: the best digit
      of the window `idx ..< size - depth + 1`, which leaves `depth - 1` batteries after it,
      times `scale`, plus the rest chosen after it. An empty window is `argmax` of an empty
      list, which fails. */
  function Calc(bank: seq<int>, depth: nat, scale: int, idx: nat): (r: Result<int>)
    requires depth >= 1 && scale == Pow10(depth - 1) && idx <= |bank|
    ensures r.Ok? <==> |bank| - idx >= depth
    ensures r.Err? ==> r.error == NoSuchElement
    decreases depth
  {
    var end := |bank| - depth + 1;
    if end <= idx then Err(NoSuchElement)
    else
      var best := Best(bank, idx, end);
      ScaleStep(depth, scale);
      if scale == 1 then Ok(bank[best])
      else Ok(scale * bank[best] + Calc(bank, depth - 1, scale / 10, best + 1).value)
  }

  /** The last level of `calc`: the best digit of the window, unscaled. */
  lemma {:induction false} CalcLast(bank: seq<int>, idx: nat)
    requires idx < |bank|
    ensures Calc(bank, 1, 1, idx) == Ok(bank[Best(bank, idx, |bank|)])
  {
  }

  /** A level above the last: the best digit of the window times `scale`, plus the rest
      chosen after it. */
  lemma {:induction false} CalcStep(bank: seq<int>, depth: nat, scale: int, idx: nat)
    requires depth >= 2 && scale == Pow10(depth - 1) && idx <= |bank| - depth
    ensures scale / 10 == Pow10(depth - 2) && scale == 10 * (scale / 10)
    ensures Calc(bank, depth - 1, scale / 10, Best(bank, idx, |bank| - depth + 1) + 1).Ok?
    ensures Calc(bank, depth, scale, idx).value ==
              scale * bank[Best(bank, idx, |bank| - depth + 1)] + Calc(bank, depth - 1, scale / 10, Best(bank, idx, |bank| - depth + 1) + 1).value
  {
    ScaleStep(depth, scale);
  }

  // ---------------------------------------------------------------------------------------
  // A reference definition: the best number over all choices of `depth` batteries
  // ---------------------------------------------------------------------------------------

  /** Digits read as a decimal number, the first one most significant. */
  function Num(ds: seq<int>): int
  {
    if |ds| == 0 then 0 else ds[0] * Pow10(|ds| - 1) + Num(ds[1..])
  }

  /** A choice of batteries: strictly increasing positions, all in `lo ..< |bank|`. */
  predicate Choice(bank: seq<int>, ix: seq<int>, lo: nat)
  {
    (forall k :: 0 <= k < |ix| ==> lo <= ix[k] < |bank|) &&
    (forall a, b :: 0 <= a < b < |ix| ==> ix[a] < ix[b])
  }

  /** The digits the chosen batteries show, in order. */
  function Digits(bank: seq<int>, ix: seq<int>): (ds: seq<int>)
    requires forall k :: 0 <= k < |ix| ==> 0 <= ix[k] < |bank|
    ensures |ds| == |ix|
  {
    if |ix| == 0 then [] else [bank[ix[0]]] + Digits(bank, ix[1..])
  }

  /** The number the chosen batteries show. */
  function Value(bank: seq<int>, ix: seq<int>): int
    requires forall k :: 0 <= k < |ix| ==> 0 <= ix[k] < |bank|
  {
    Num(Digits(bank, ix))
  }

  /** Lexicographic order on digit strings of one length. */
  predicate LexLe(a: seq<int>, b: seq<int>)
    requires |a| == |b|
  {
    |a| == 0 || a[0] < b[0] || (a[0] == b[0] && LexLe(a[1..], b[1..]))
  }

  /** The batteries `calc` turns on: the position of the best digit of each window. */
  function Picks(bank: seq<int>, depth: nat, idx: nat): (ix: seq<int>)
    requires idx + depth <= |bank|
    ensures |ix| == depth
    decreases depth
  {
    if depth == 0 then []
    else
      var best := Best(bank, idx, |bank| - depth + 1);
      [best] + Picks(bank, depth - 1, best + 1)
  }

  /** The digits `calc` picks, one per window. */
  function Picked(bank: seq<int>, depth: nat, idx: nat): (ds: seq<int>)
    requires idx + depth <= |bank|
    ensures |ds| == depth
    decreases depth
  {
    if depth == 0 then []
    else
      var best := Best(bank, idx, |bank| - depth + 1);
      [bank[best]] + Picked(bank, depth - 1, best + 1)
  }

  /** Positions of a choice climb by at least one each, so a choice of `n` batteries starts at
      least `n - 1` places before the end. */
  lemma {:induction false} ChoiceSpread(bank: seq<int>, ix: seq<int>, lo: nat, k: nat)
    requires Choice(bank, ix, lo) && k < |ix|
    ensures ix[k] >= ix[0] + k
  {
    if k > 0 {
      ChoiceSpread(bank, ix, lo, k - 1);
      assert ix[k - 1] < ix[k];
    }
  }

  /** The rest of a choice is a choice after its first position. */
  lemma {:induction false} ChoiceTail(bank: seq<int>, ix: seq<int>, lo: nat)
    requires Choice(bank, ix, lo) && |ix| >= 1
    ensures Choice(bank, ix[1..], ix[0] + 1)
  {
    forall k | 0 <= k < |ix| - 1
      ensures ix[0] + 1 <= ix[1..][k]
    {
      ChoiceSpread(bank, ix, lo, k + 1);
    }
  }

  /** Putting a position in front of a choice that lies after it gives a choice. */
  lemma {:induction false} ChoiceCons(bank: seq<int>, i: nat, rest: seq<int>, lo: nat)
    requires lo <= i < |bank| && Choice(bank, rest, i + 1)
    ensures Choice(bank, [i] + rest, lo)
  {
  }

  /** A choice from some position on is a choice from any earlier position. */
  lemma {:induction false} ChoiceWeaken(bank: seq<int>, ix: seq<int>, lo: nat, lo': nat)
    requires Choice(bank, ix, lo) && lo' <= lo
    ensures Choice(bank, ix, lo')
  {
  }

  /** The picks are a choice from `idx` on, and the picked digits are the digits at them. */
  lemma {:induction false} PicksChoice(bank: seq<int>, depth: nat, idx: nat)
    requires idx + depth <= |bank|
    ensures Choice(bank, Picks(bank, depth, idx), idx)
    ensures Digits(bank, Picks(bank, depth, idx)) == Picked(bank, depth, idx)
    decreases depth
  {
    if depth > 0 {
      var best := Best(bank, idx, |bank| - depth + 1);
      var rest := Picks(bank, depth - 1, best + 1);
      PicksChoice(bank, depth - 1, best + 1);
      ChoiceCons(bank, best, rest, idx);
      var ix := Picks(bank, depth, idx);
      assert ix == [best] + rest;
      assert Digits(bank, ix) == [bank[best]] + Digits(bank, rest);
    }
  }

  /** The first digit of a number is worth `10^(n-1)` of `n`. */
  lemma {:induction false} NumHead(ds: seq<int>)
    requires |ds| >= 1
    ensures Num(ds) == ds[0] * Pow10(|ds| - 1) + Num(ds[1..])
  {
  }

  /** `calc`'s result is the number the picked digits show. */
  lemma {:induction false} CalcAchieved(bank: seq<int>, depth: nat, scale: int, idx: nat)
    requires depth >= 1 && scale == Pow10(depth - 1) && idx + depth <= |bank|
    ensures Calc(bank, depth, scale, idx).Ok? && Calc(bank, depth, scale, idx).value == Num(Picked(bank, depth, idx))
    decreases depth
  {
    var best := Best(bank, idx, |bank| - depth + 1);
    var ds := Picked(bank, depth, idx);
    assert ds[0] == bank[best] && ds[1..] == Picked(bank, depth - 1, best + 1);
    NumHead(ds);
    if depth == 1 {
      CalcLast(bank, idx);
      assert Pow10(0) == 1;
    } else {
      CalcStep(bank, depth, scale, idx);
      CalcAchieved(bank, depth - 1, scale / 10, best + 1);
      SamePlaces(scale, bank[best], Calc(bank, depth - 1, scale / 10, best + 1).value, Pow10(|ds| - 1), ds[0], Num(ds[1..]));
    }
  }

  /** Equal digits at equal places, plus equal rests, are equal numbers. */
  lemma {:induction false} SamePlaces(scale: int, d: int, rest: int, scale': int, d': int, rest': int)
    requires scale == scale' && d == d' && rest == rest'
    ensures scale * d + rest == d' * scale' + rest'
  {
  }

  /** No choice of `depth` batteries from `idx` on shows larger digits than the picked ones,
      in lexicographic order: a choice starting with a smaller digit is smaller, and one
      starting with the best digit cannot start before its first occurrence, so what follows
      is a choice from after the first pick. */
  lemma {:induction false} PicksAreBest(bank: seq<int>, depth: nat, idx: nat, ix: seq<int>)
    requires idx + depth <= |bank| && |ix| == depth && Choice(bank, ix, idx)
    ensures LexLe(Digits(bank, ix), Picked(bank, depth, idx))
    decreases depth
  {
    if depth > 0 {
      var a, b := Digits(bank, ix), Picked(bank, depth, idx);
      var end := |bank| - depth + 1;
      var best := Best(bank, idx, end);
      ChoiceSpread(bank, ix, idx, depth - 1);
      BestIsFirstMax(bank, idx, end);
      var ta, tb := Digits(bank, ix[1..]), Picked(bank, depth - 1, best + 1);
      assert a[0] == bank[ix[0]] && a[1..] == ta;
      assert b[0] == bank[best] && b[1..] == tb;
      if a[0] == b[0] {
        assert ix[0] >= best;
        ChoiceTail(bank, ix, idx);
        ChoiceWeaken(bank, ix[1..], ix[0] + 1, best + 1);
        PicksAreBest(bank, depth - 1, best + 1, ix[1..]);
        LexCons(a, b, ta, tb);
      } else {
        assert a[0] < b[0];
        LexCons(a, b, ta, tb);
      }
    }
  }

  /** Lexicographic order compares the first digits, then the rest. */
  lemma {:induction false} LexCons(a: seq<int>, b: seq<int>, ta: seq<int>, tb: seq<int>)
    requires |a| == |b| >= 1 && a[1..] == ta && b[1..] == tb
    requires a[0] < b[0] || (a[0] == b[0] && LexLe(ta, tb))
    ensures LexLe(a, b)
  {
  }

  /** A string of decimal digits. */
  predicate IsDigits(ds: seq<int>)
  {
    forall k :: 0 <= k < |ds| ==> 0 <= ds[k] <= 9
  }

  /** `n` digits stay below `10^n`. */
  lemma {:induction false} NumBound(ds: seq<int>)
    requires IsDigits(ds)
    ensures 0 <= Num(ds) < Pow10(|ds|)
  {
    if |ds| > 0 {
      NumBound(ds[1..]);
      var d, p := ds[0], Pow10(|ds| - 1);
      Arith.MulNonNeg(d, p);
      Arith.MulNonNeg(9 - d, p);
    }
  }

  /** Between digit strings of one length, the lexicographically larger is the larger number. */
  lemma {:induction false} LexLeNum(a: seq<int>, b: seq<int>)
    requires |a| == |b| && IsDigits(a) && IsDigits(b) && LexLe(a, b)
    ensures Num(a) <= Num(b)
  {
    if |a| > 0 {
      var p := Pow10(|a| - 1);
      NumBound(a[1..]);
      NumBound(b[1..]);
      if a[0] < b[0] {
        Arith.MulNonNeg(b[0] - a[0] - 1, p);
        assert (b[0] - a[0] - 1) * p == b[0] * p - a[0] * p - p;
      } else {
        LexLeNum(a[1..], b[1..]);
      }
    }
  }

  /** The digits a bank shows at any positions are digits. */
  lemma {:induction false} DigitsOfBank(bank: seq<int>, ix: seq<int>)
    requires IsBank(bank) && forall k :: 0 <= k < |ix| ==> 0 <= ix[k] < |bank|
    ensures IsDigits(Digits(bank, ix))
  {
    if |ix| > 0 {
      DigitsOfBank(bank, ix[1..]);
      var ds := Digits(bank, ix);
      assert ds == [bank[ix[0]]] + Digits(bank, ix[1..]);
      assert forall k :: 1 <= k < |ds| ==> ds[k] == Digits(bank, ix[1..])[k - 1];
    }
  }

  /** `calc` gives a number of `depth` digits at most: `0 <= r < 10 * scale`. */
  lemma {:induction false} CalcBound(bank: seq<int>, depth: nat, scale: int, idx: nat)
    requires IsBank(bank) && depth >= 1 && scale == Pow10(depth - 1) && idx + depth <= |bank|
    ensures Calc(bank, depth, scale, idx).Ok? && 0 <= Calc(bank, depth, scale, idx).value < 10 * scale
  {
    CalcAchieved(bank, depth, scale, idx);
    PicksChoice(bank, depth, idx);
    DigitsOfBank(bank, Picks(bank, depth, idx));
    NumBound(Picked(bank, depth, idx));
  }

  /** The greedy result is the largest number any choice of `depth` batteries shows, and the
      picks show it. */
  lemma {:induction false} CalcIsMaximum(bank: seq<int>, depth: nat, scale: int)
    requires IsBank(bank) && depth >= 1 && scale == Pow10(depth - 1) && |bank| >= depth
    ensures Calc(bank, depth, scale, 0).Ok?
    ensures exists ix :: |ix| == depth && Choice(bank, ix, 0) && Value(bank, ix) == Calc(bank, depth, scale, 0).value
    ensures forall ix :: |ix| == depth && Choice(bank, ix, 0) ==> Value(bank, ix) <= Calc(bank, depth, scale, 0).value
  {
    CalcAchieved(bank, depth, scale, 0);
    var picks := Picks(bank, depth, 0);
    PicksChoice(bank, depth, 0);
    DigitsOfBank(bank, picks);
    assert Value(bank, picks) == Calc(bank, depth, scale, 0).value;
    forall ix | |ix| == depth && Choice(bank, ix, 0)
      ensures Value(bank, ix) <= Calc(bank, depth, scale, 0).value
    {
      PicksAreBest(bank, depth, 0, ix);
      DigitsOfBank(bank, ix);
      LexLeNum(Digits(bank, ix), Picked(bank, depth, 0));
    }
  }

  // ---------------------------------------------------------------------------------------
  // Parsing and the sums
  // ---------------------------------------------------------------------------------------

  /** `l.map { it.digitToInt() }`: a character that is no digit throws. */
  function ParseBank(l: string): (r: Result<seq<int>>)
    ensures r.Ok? <==> forall k :: 0 <= k < |l| ==> '0' <= l[k] <= '9'
    ensures r.Ok? ==> |r.value| == |l| && IsBank(r.value) &&
                      forall k :: 0 <= k < |l| ==> r.value[k] == l[k] as int - '0' as int
    ensures r.Err? ==> r.error == IllegalArgument
  {
    if |l| == 0 then Ok([])
    else if !('0' <= l[0] <= '9') then Err(IllegalArgument)
    else
      var rest :- ParseBank(l[1..]);
      assert forall k :: 1 <= k < |l| ==> l[1..][k - 1] == l[k];
      Ok([l[0] as int - '0' as int] + rest)
  }

  /** `lines.map { ... }`: the banks in order; the first line that fails throws. */
  function ParseBanks(lines: seq<string>): (r: Result<seq<seq<int>>>)
    ensures r.Ok? <==> forall k :: 0 <= k < |lines| ==> ParseBank(lines[k]).Ok?
    ensures r.Ok? ==> |r.value| == |lines| && forall k :: 0 <= k < |lines| ==> ParseBank(lines[k]) == Ok(r.value[k])
    ensures r.Err? ==> r.error == IllegalArgument
  {
    if |lines| == 0 then Ok([])
    else
      var first :- ParseBank(lines[0]);
      var rest :- ParseBanks(lines[1..]);
      assert forall k :: 1 <= k < |lines| ==> lines[1..][k - 1] == lines[k];
      Ok([first] + rest)
  }

  /** `calc` of each bank in order, as `long` values; the first bank too short throws. */
  function Calcs(banks: seq<seq<int>>, depth: nat, scale: int): (r: Result<seq<Int64>>)
    requires depth >= 1 && scale == Pow10(depth - 1) && scale <= 100_000_000_000
    requires forall k :: 0 <= k < |banks| ==> IsBank(banks[k])
    ensures r.Ok? <==> forall k :: 0 <= k < |banks| ==> |banks[k]| >= depth
    ensures r.Ok? ==> |r.value| == |banks| && forall k :: 0 <= k < |banks| ==> r.value[k] as int == Calc(banks[k], depth, scale, 0).value
    ensures r.Err? ==> r.error == NoSuchElement
  {
    if |banks| == 0 then Ok([])
    else
      var v :- Calc(banks[0], depth, scale, 0);
      CalcBound(banks[0], depth, scale, 0);
      var rest :- Calcs(banks[1..], depth, scale);
      assert forall k :: 1 <= k < |banks| ==> banks[1..][k - 1] == banks[k];
      Ok([v as Int64] + rest)
  }

  /** `evaluate()`: the banks, then `banks.sumOf { calc(it, 2, 10L) }` and
      `banks.sumOf { calc(it, 12, 100_000_000_000L) }`. */
  function Evaluate(lines: seq<string>): (r: Result<(Int64, Int64)>)
    ensures r.Ok? <==> forall k :: 0 <= k < |lines| ==> ParseBank(lines[k]).Ok? && |lines[k]| >= 12
    ensures r.Err? ==> r.error == (if ParseBanks(lines).Err? then IllegalArgument else NoSuchElement)
  {
    var banks :- ParseBanks(lines);
    assert Pow10(1) == 10 && Pow10(11) == 100_000_000_000;
    var part1 :- Calcs(banks, 2, 10);
    var part2 :- Calcs(banks, 12, 100_000_000_000);
    Ok((Sum64(part1), Sum64(part2)))
  }
}
