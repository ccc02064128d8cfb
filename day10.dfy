/** Day 10: machines of indicator lights and buttons. A line reads `[.##.] (3) (1,3) (2)
    {3,5,4,7}`: the lights to switch on, the lights each button toggles, and the joltage
    requirements. The first answer is, summed over the machines, the fewest presses that
    take the lights from all off to the target, found by a breadth-first search that never
    presses the same button twice in a row. */
module Day10 {
  import opened Wrappers
  import opened JavaInt
  import opened JavaText
  import opened Collections

  /** `Triple(target, buttons, joltages)`: the lights to switch on (`#` is on), the light
      indices of each button as a set in first-seen order, and the joltage requirements. */
  datatype Machine = Machine(target: seq<bool>, buttons: seq<seq<int>>, joltages: seq<int>)

  // ---------------------------------------------------------------------------------------
  // Parsing
  // ---------------------------------------------------------------------------------------

  /** `s.substring(1, s.length - 1)`: the text inside a pair of brackets. */
  function Inner(s: string): (r: Result<string>)
    ensures r.Ok? <==> |s| >= 2
    ensures r.Ok? ==> [s[0]] + r.value + [s[|s| - 1]] == s
    ensures r.Err? ==> r.error == IndexOutOfBounds
  {
    Substring(s, 1, |s| - 1)
  }

  /** `map { it == '#' }`. */
  function Lights(s: string): (r: seq<bool>)
    ensures |r| == |s|
  {
    seq(|s|, k requires 0 <= k < |s| => s[k] == '#')
  }

  /** `split(",").toInts()`: every comma-separated piece read as an `int`. */
  function ParseInts(s: string): (r: Result<seq<int>>)
    ensures r.Ok? ==> forall k :: 0 <= k < |r.value| ==> IsInt(r.value[k])
    ensures r.Err? ==> r.error == NumberFormat
  {
    ParseAll(Parts(s, Equal(',')), INT_MIN, INT_MAX)
  }

  /** `b.substring(1, b.length - 1).split(",").toInts().toSet()`. */
  function ParseButton(b: string): (r: Result<seq<int>>)
    ensures r.Ok? ==> Unique(r.value) && forall k :: 0 <= k < |r.value| ==> IsInt(r.value[k])
    ensures r.Err? ==> r.error == IndexOutOfBounds || r.error == NumberFormat
  {
    var t :- Inner(b);
    var vs :- ParseInts(t);
    DistinctInts(vs);
    Ok(Distinct(vs))
  }

  /** `toSet()` keeps one copy of each `int`. */
  lemma {:induction false} DistinctInts(vs: seq<int>)
    requires forall k :: 0 <= k < |vs| ==> IsInt(vs[k])
    ensures Unique(Distinct(vs)) && forall k :: 0 <= k < |Distinct(vs)| ==> IsInt(Distinct(vs)[k])
  {
    OnceIsUnique(Distinct(vs));
    forall k | 0 <= k < |Distinct(vs)|
      ensures IsInt(Distinct(vs)[k])
    {
      assert Distinct(vs)[k] in vs;
    }
  }

  /** The buttons in order; the first that does not parse throws. */
  function ParseButtons(bs: seq<string>): (r: Result<seq<seq<int>>>)
    ensures r.Ok? ==> |r.value| == |bs|
    ensures r.Err? ==> r.error == IndexOutOfBounds || r.error == NumberFormat
  {
    if |bs| == 0 then Ok([])
    else
      var b :- ParseButton(bs[0]);
      var rest :- ParseButtons(bs[1..]);
      Ok([b] + rest)
  }

  /** Lines 35-39: the target from the first piece, the buttons from the pieces between, the
      joltages from the last. A line of one piece gets as far as `subList(1, 0)`, which
      throws `IllegalArgumentException`. */
  function ParseMachine(l: string): (r: Result<Machine>)
    ensures r.Ok? ==> |r.value.buttons| == |Parts(l, Equal(' '))| - 2
    ensures r.Err? ==> r.error in {IndexOutOfBounds, NumberFormat, IllegalArgument}
  {
    var parts := Parts(l, Equal(' '));
    var targetText :- Inner(parts[0]);
    if |parts| < 2 then Err(IllegalArgument)
    else
      var buttons :- ParseButtons(parts[1..|parts| - 1]);
      var joltText :- Inner(parts[|parts| - 1]);
      var joltages :- ParseInts(joltText);
      Ok(Machine(Lights(targetText), buttons, joltages))
  }

  /** A line without spaces is one piece: its brackets are read as the target, and then there
      are no buttons to take. */
  lemma {:induction false} OnePiece(l: string)
    requires ' ' !in l && |l| >= 2
    ensures ParseMachine(l) == Err(IllegalArgument)
  {
    PartsNoSeparator(l, Equal(' '));
  }

  /** Line 34: every line is parsed before any machine is searched; the first that fails
      throws. */
  function ParseMachines(lines: seq<string>): (r: Result<seq<Machine>>)
    ensures r.Ok? ==> |r.value| == |lines|
  {
    if |lines| == 0 then Ok([])
    else
      var m :- ParseMachine(lines[0]);
      var rest :- ParseMachines(lines[1..]);
      Ok([m] + rest)
  }

  // ---------------------------------------------------------------------------------------
  // The text of a machine
  // ---------------------------------------------------------------------------------------

  /** `#` for a light that is on, `.` for one that is off. */
  function LightsText(t: seq<bool>): string
  {
    seq(|t|, k requires 0 <= k < |t| => if t[k] then '#' else '.')
  }

  function Bracketed(open: char, body: string, close: char): string
  {
    [open] + body + [close]
  }

  /** A machine the parser can give back: every button and the joltages hold at least one
      `int`, and no button repeats a light. */
  predicate WellFormed(m: Machine)
  {
    && ButtonsFormed(m.buttons)
    && |m.joltages| >= 1 && forall j :: 0 <= j < |m.joltages| ==> IsInt(m.joltages[j])
  }

  predicate ButtonFormed(b: seq<int>)
  {
    |b| >= 1 && Unique(b) && forall j :: 0 <= j < |b| ==> IsInt(b[j])
  }

  predicate ButtonsFormed(bs: seq<seq<int>>)
  {
    forall k :: 0 <= k < |bs| ==>
      |bs[k]| >= 1 && Unique(bs[k]) && forall j :: 0 <= j < |bs[k]| ==> IsInt(bs[k][j])
  }

  function ButtonTexts(bs: seq<seq<int>>): (r: seq<string>)
    requires ButtonsFormed(bs)
    ensures |r| == |bs|
  {
    if |bs| == 0 then [] else [Bracketed('(', Joined(bs[0]), ')')] + ButtonTexts(bs[1..])
  }

  /** The pieces of a machine's line, before they are joined with spaces. */
  function Pieces(m: Machine): seq<string>
    requires WellFormed(m)
  {
    [Bracketed('[', LightsText(m.target), ']')] + ButtonTexts(m.buttons)
      + [Bracketed('{', Joined(m.joltages), '}')]
  }

  /** The line of a machine. */
  function Format(m: Machine): string
    requires WellFormed(m)
  {
    Join(Pieces(m), ' ')
  }

  /** The characters of a decimal form or a comma-separated list of them. */
  predicate NumberText(s: string)
  {
    forall i :: 0 <= i < |s| ==> s[i] == '-' || s[i] == ',' || IsDigit(s[i])
  }

  lemma {:induction false} DecimalIsNumberText(n: int)
    ensures NumberText(Decimal(n))
  {
    var d := Digits(if n < 0 then -n else n);
    DigitsAreDigits(if n < 0 then -n else n);
    if n < 0 {
      assert forall i :: 1 <= i < |Decimal(n)| ==> Decimal(n)[i] == d[i - 1];
    }
  }

  lemma {:induction false} JoinedIsNumberText(vs: seq<int>)
    requires |vs| >= 1
    ensures NumberText(Joined(vs))
    decreases |vs|
  {
    DecimalIsNumberText(vs[0]);
    if |vs| > 1 {
      JoinedIsNumberText(vs[1..]);
      var a, b := Decimal(vs[0]) + ",", Joined(vs[1..]);
      assert Joined(vs) == a + b;
      assert forall i :: |a| <= i < |a + b| ==> (a + b)[i] == b[i - |a|];
    }
  }

  /** The `k`-th decimal form is the form of the `k`-th number. */
  lemma {:induction false} DecimalsAt(vs: seq<int>, k: int)
    requires 0 <= k < |vs|
    ensures Decimals(vs)[k] == Decimal(vs[k])
    decreases k
  {
    if k > 0 {
      DecimalsAt(vs[1..], k - 1);
    }
  }

  /** The list written out by `Joined` is the decimal forms joined with commas. */
  lemma {:induction false} JoinedIsJoin(vs: seq<int>)
    requires |vs| >= 1
    ensures Joined(vs) == Join(Decimals(vs), ',')
    decreases |vs|
  {
    if |vs| == 1 {
      assert Decimals(vs) == [Decimal(vs[0])];
    } else {
      JoinedIsJoin(vs[1..]);
      JoinFront(Decimal(vs[0]), Decimals(vs[1..]), ',');
    }
  }

  /** Reading a comma-separated list of `int`s gives the numbers back. */
  lemma {:induction false} ParseIntsJoined(vs: seq<int>)
    requires |vs| >= 1 && forall j :: 0 <= j < |vs| ==> IsInt(vs[j])
    ensures ParseInts(Joined(vs)) == Ok(vs)
  {
    JoinedIsJoin(vs);
    forall p | p in Decimals(vs)
      ensures ',' !in p
    {
      var k :| 0 <= k < |vs| && Decimals(vs)[k] == p;
      DecimalsAt(vs, k);
      DecimalHasNoComma(vs[k]);
    }
    PartsJoin(Decimals(vs), ',');
    ParseAllDecimals(vs, INT_MIN, INT_MAX);
  }

  /** A button written out reads back as itself. */
  lemma {:induction false} ButtonRoundTrip(b: seq<int>)
    requires ButtonFormed(b)
    ensures ParseButton(Bracketed('(', Joined(b), ')')) == Ok(b)
  {
    ParseIntsJoined(b);
    DistinctOfUnique(b);
  }

  lemma {:induction false} ButtonsRoundTrip(bs: seq<seq<int>>)
    requires ButtonsFormed(bs)
    ensures ParseButtons(ButtonTexts(bs)) == Ok(bs)
    decreases |bs|
  {
    if |bs| > 0 {
      var ts := ButtonTexts(bs);
      assert ts == [Bracketed('(', Joined(bs[0]), ')')] + ButtonTexts(bs[1..]);
      ButtonRoundTrip(bs[0]);
      ButtonsRoundTrip(bs[1..]);
      ParseButtonsFront(ts, bs[0], bs[1..]);
      assert bs == [bs[0]] + bs[1..];
    }
  }

  lemma {:induction false} ParseButtonsFront(ts: seq<string>, b: seq<int>, rest: seq<seq<int>>)
    requires |ts| > 0 && ParseButton(ts[0]) == Ok(b) && ParseButtons(ts[1..]) == Ok(rest)
    ensures ParseButtons(ts) == Ok([b] + rest)
  {
  }

  lemma {:induction false} ButtonTextAt(bs: seq<seq<int>>, k: int)
    requires ButtonsFormed(bs) && 0 <= k < |bs|
    ensures ButtonTexts(bs)[k] == Bracketed('(', Joined(bs[k]), ')')
    decreases k
  {
    if k > 0 {
      ButtonTextAt(bs[1..], k - 1);
    }
  }

  /** No piece of a machine's line holds a space. */
  lemma {:induction false} PiecesHaveNoSpace(m: Machine)
    requires WellFormed(m)
    ensures forall p :: p in Pieces(m) ==> ' ' !in p
  {
    var ps := Pieces(m);
    forall p | p in ps
      ensures ' ' !in p
    {
      var k :| 0 <= k < |ps| && ps[k] == p;
      if k == 0 {
        assert p == Bracketed('[', LightsText(m.target), ']');
      } else if k == |ps| - 1 {
        JoinedIsNumberText(m.joltages);
        assert p == Bracketed('{', Joined(m.joltages), '}');
      } else {
        JoinedIsNumberText(m.buttons[k - 1]);
        ButtonTextAt(m.buttons, k - 1);
        assert p == Bracketed('(', Joined(m.buttons[k - 1]), ')');
      }
    }
  }

  /** Lines 34-39 and the line format: a machine written out reads back as itself. */
  lemma {:induction false} MachineRoundTrip(m: Machine)
    requires WellFormed(m)
    ensures ParseMachine(Format(m)) == Ok(m)
  {
    var ps := Pieces(m);
    PiecesHaveNoSpace(m);
    PartsJoin(ps, ' ');
    assert Parts(Format(m), Equal(' ')) == ps;
    assert Lights(LightsText(m.target)) == m.target;
    assert ps[1..|ps| - 1] == ButtonTexts(m.buttons);
    ButtonsRoundTrip(m.buttons);
    ParseIntsJoined(m.joltages);
  }

  // ---------------------------------------------------------------------------------------
  // Pressing buttons
  // ---------------------------------------------------------------------------------------

  /** Lines 57-60: every listed light toggled in turn on a copy of the lights; a light that
      does not exist throws `IndexOutOfBoundsException`. */
  function Toggle(lights: seq<bool>, button: seq<int>): (r: Result<seq<bool>>)
    ensures r.Ok? ==> |r.value| == |lights|
    ensures r.Err? ==> r.error == IndexOutOfBounds
  {
    if |button| == 0 then Ok(lights)
    else
      var front :- Toggle(lights, button[..|button| - 1]);
      var j := button[|button| - 1];
      if 0 <= j < |front| then Ok(front[j := !front[j]]) else Err(IndexOutOfBounds)
  }

  /** Every light the button lists exists. */
  predicate Fits(button: seq<int>, n: int)
  {
    forall j :: 0 <= j < |button| ==> 0 <= button[j] < n
  }

  /** A press throws exactly when the button lists a light that does not exist. */
  lemma {:induction false} ToggleOk(lights: seq<bool>, button: seq<int>)
    ensures Toggle(lights, button).Ok? <==> Fits(button, |lights|)
  {
    if |button| > 0 {
      ToggleOk(lights, button[..|button| - 1]);
    }
  }

  /** A press flips exactly the lights it lists and leaves the others as they were. */
  lemma {:induction false} ToggleAt(lights: seq<bool>, button: seq<int>, i: int)
    requires Fits(button, |lights|) && Unique(button) && 0 <= i < |lights|
    ensures (ToggleOk(lights, button);
             Toggle(lights, button).value[i] == if i in button then !lights[i] else lights[i])
  {
    ToggleOk(lights, button);
    if |button| > 0 {
      var front := button[..|button| - 1];
      ToggleAt(lights, front, i);
      ToggleOk(lights, front);
      assert button == front + [button[|button| - 1]];
      assert forall q :: 0 <= q < |front| ==> front[q] == button[q] != button[|button| - 1];
    }
  }

  lemma {:induction false} ToggleFlips(lights: seq<bool>, button: seq<int>)
    requires Fits(button, |lights|) && Unique(button)
    ensures (ToggleOk(lights, button);
             forall i :: 0 <= i < |lights| ==>
               Toggle(lights, button).value[i] == if i in button then !lights[i] else lights[i])
  {
    ToggleOk(lights, button);
    forall i | 0 <= i < |lights|
      ensures Toggle(lights, button).value[i] == if i in button then !lights[i] else lights[i]
    {
      ToggleAt(lights, button, i);
    }
  }

  /** Pressing a button twice gives the lights back. */
  lemma {:induction false} ToggleTwice(lights: seq<bool>, button: seq<int>)
    requires Fits(button, |lights|) && Unique(button)
    ensures (ToggleOk(lights, button);
             Toggle(Toggle(lights, button).value, button) == Ok(lights))
  {
    ToggleOk(lights, button);
    ToggleFlips(lights, button);
    var once := Toggle(lights, button).value;
    ToggleOk(once, button);
    ToggleFlips(once, button);
    assert Toggle(once, button).value == lights;
  }

  /** Pressing two buttons in either order gives the same lights. */
  lemma {:induction false} ToggleCommutes(lights: seq<bool>, a: seq<int>, b: seq<int>)
    requires Fits(a, |lights|) && Unique(a) && Fits(b, |lights|) && Unique(b)
    ensures (ToggleOk(lights, a); ToggleOk(lights, b);
             Toggle(Toggle(lights, a).value, b) == Toggle(Toggle(lights, b).value, a))
  {
    ToggleOk(lights, a);
    ToggleOk(lights, b);
    ToggleFlips(lights, a);
    ToggleFlips(lights, b);
    var la, lb := Toggle(lights, a).value, Toggle(lights, b).value;
    ToggleOk(la, b);
    ToggleOk(lb, a);
    ToggleFlips(la, b);
    ToggleFlips(lb, a);
    assert Toggle(la, b).value == Toggle(lb, a).value;
  }

  /** Lines 57-60: `toMutableList()` and the flips, one listed light after another. */
  method Press(current: seq<bool>, button: seq<int>) returns (r: Result<seq<bool>>)
    ensures r == Toggle(current, button)
  {
    var next := current;
    for k := 0 to |button|
      invariant Toggle(current, button[..k]) == Ok(next)
    {
      assert button[..k + 1][..k] == button[..k];
      var j := button[k];
      if !(0 <= j < |next|) {
        ToggleOk(current, button);
        return Err(IndexOutOfBounds);
      }
      next := next[j := !next[j]];
    }
    assert button[..|button|] == button;
    r := Ok(next);
  }

  /** All lights off. */
  function Off(n: nat): (r: seq<bool>)
    ensures |r| == n
  {
    seq(n, _ => false)
  }

  /** The buttons at the indices of `p` pressed in order. */
  function Presses(lights: seq<bool>, buttons: seq<seq<int>>, p: seq<int>): (r: Result<seq<bool>>)
    requires forall k :: 0 <= k < |p| ==> 0 <= p[k] < |buttons|
    ensures r.Ok? ==> |r.value| == |lights|
    ensures r.Err? ==> r.error == IndexOutOfBounds
  {
    if |p| == 0 then Ok(lights)
    else
      var front :- Presses(lights, buttons, p[..|p| - 1]);
      Toggle(front, buttons[p[|p| - 1]])
  }

  /** How many of the presses in `p` are of a button that lists light `i`. */
  function Hits(buttons: seq<seq<int>>, p: seq<int>, i: int): nat
    requires forall k :: 0 <= k < |p| ==> 0 <= p[k] < |buttons|
  {
    if |p| == 0 then 0
    else Hits(buttons, p[..|p| - 1], i) + if i in buttons[p[|p| - 1]] then 1 else 0
  }

  /** Buttons whose lights all exist and are listed once each. */
  predicate Usable(buttons: seq<seq<int>>, n: int)
  {
    forall k :: 0 <= k < |buttons| ==> Fits(buttons[k], n) && Unique(buttons[k])
  }

  /** Presses of usable buttons never throw, and a light ends up flipped exactly when an odd
      number of the presses list it: the order of the presses does not matter. */
  lemma {:induction false} PressesParity(lights: seq<bool>, buttons: seq<seq<int>>, p: seq<int>, i: int)
    requires forall k :: 0 <= k < |p| ==> 0 <= p[k] < |buttons|
    requires Usable(buttons, |lights|) && 0 <= i < |lights|
    ensures Presses(lights, buttons, p).Ok?
    ensures Presses(lights, buttons, p).value[i] == (lights[i] != (Hits(buttons, p, i) % 2 == 1))
  {
    if |p| > 0 {
      var front := p[..|p| - 1];
      PressesParity(lights, buttons, front, i);
      var mid := Presses(lights, buttons, front).value;
      ToggleOk(mid, buttons[p[|p| - 1]]);
      ToggleAt(mid, buttons[p[|p| - 1]], i);
    }
  }

  // ---------------------------------------------------------------------------------------
  // The breadth-first search
  // ---------------------------------------------------------------------------------------

  /** `State(current, lastFlipped, totalFlipped)`. */
  datatype State = State(current: seq<bool>, lastFlipped: int, totalFlipped: int)

  /** Button indices in range, and no button twice in a row. */
  predicate ValidPresses(p: seq<int>, count: int)
  {
    && (forall k :: 0 <= k < |p| ==> 0 <= p[k] < count)
    && (forall k :: 0 < k < |p| ==> p[k] != p[k - 1])
  }

  /** `v` such presses take the lights from all off to the target. */
  ghost predicate Achieves(target: seq<bool>, buttons: seq<seq<int>>, v: int)
  {
    exists p :: ValidPresses(p, |buttons|) && |p| == v && Presses(Off(|target|), buttons, p) == Ok(target)
  }

  /** A state is reached by `path`: as many presses as it counts, the last of them its
      `lastFlipped` (-1 before any), and its lights what they give from all off. */
  predicate Witness(target: seq<bool>, buttons: seq<seq<int>>, s: State, path: seq<int>)
  {
    && ValidPresses(path, |buttons|) && |path| == s.totalFlipped < INT_MAX
    && s.lastFlipped == (if |path| == 0 then -1 else path[|path| - 1])
    && Presses(Off(|target|), buttons, path) == Ok(s.current)
  }

  /** Every queued state has a path. */
  predicate Queued(target: seq<bool>, buttons: seq<seq<int>>, queue: seq<State>, paths: seq<seq<int>>)
  {
    && |queue| == |paths|
    && forall k {:trigger Witness(target, buttons, queue[k], paths[k])} ::
         0 <= k < |queue| ==> Witness(target, buttons, queue[k], paths[k])
  }

  /** `seen` is the set of the vectors enqueued, each enqueued once, all of `n` lights. */
  ghost predicate Recorded(seen: set<seq<bool>>, enqueued: seq<seq<bool>>, n: int)
  {
    (forall v :: v in seen <==> v in enqueued) && Unique(enqueued) && forall v :: v in seen ==> |v| == n
  }

  /** `best` is `Int.MAX_VALUE` or a number of presses that reaches the target. */
  ghost predicate Bound(target: seq<bool>, buttons: seq<seq<int>>, best: int)
  {
    1 <= best <= INT_MAX && (best < INT_MAX ==> Achieves(target, buttons, best))
  }

  /** Every button lists only existing lights. */
  predicate AllFit(buttons: seq<seq<int>>, n: int)
  {
    forall i :: 0 <= i < |buttons| ==> Fits(buttons[i], n)
  }

  /** Every light vector of length `n`. */
  function Vectors(n: nat): set<seq<bool>>
  {
    if n == 0 then {[]}
    else (set v | v in Vectors(n - 1) :: v + [false]) + (set v | v in Vectors(n - 1) :: v + [true])
  }

  lemma {:induction false} VectorsComplete(v: seq<bool>)
    ensures v in Vectors(|v|)
  {
    if |v| > 0 {
      var front := v[..|v| - 1];
      VectorsComplete(front);
      if v[|v| - 1] {
        assert v == front + [true];
      } else {
        assert v == front + [false];
      }
    }
  }

  lemma {:induction false} SeenInVectors(seen: set<seq<bool>>, n: nat)
    requires forall v :: v in seen ==> |v| == n
    ensures seen <= Vectors(n)
  {
    forall v | v in seen
      ensures v in Vectors(n)
    {
      VectorsComplete(v);
    }
  }

  /** A set that grows inside a finite set leaves less of it. */
  lemma {:induction false} Shrinks(all: set<seq<bool>>, seen: set<seq<bool>>, seen': set<seq<bool>>)
    requires seen <= seen' <= all && seen != seen'
    ensures |all - seen'| < |all - seen|
  {
    assert all - seen == (all - seen') + (seen' - seen);
    assert (all - seen') * (seen' - seen) == {};
    assert seen' - seen != {};
  }

  /** One more press after a witnessed state. */
  lemma {:induction false} PressStep(target: seq<bool>, buttons: seq<seq<int>>, s: State, path: seq<int>, i: int)
    requires Witness(target, buttons, s, path) && 0 <= i < |buttons| && i != s.lastFlipped
    requires Toggle(s.current, buttons[i]).Ok? && s.totalFlipped + 1 < INT_MAX
    ensures Witness(target, buttons, State(Toggle(s.current, buttons[i]).value, i, s.totalFlipped + 1), path + [i])
  {
    var p := path + [i];
    assert p[..|p| - 1] == path;
  }

  /** A press that hits the target shows it reachable in one more press. */
  lemma {:induction false} PressReaches(target: seq<bool>, buttons: seq<seq<int>>, s: State, path: seq<int>, i: int)
    requires Witness(target, buttons, s, path) && 0 <= i < |buttons| && i != s.lastFlipped
    requires Toggle(s.current, buttons[i]) == Ok(target)
    ensures Achieves(target, buttons, s.totalFlipped + 1)
  {
    var p := path + [i];
    assert p[..|p| - 1] == path;
    assert ValidPresses(p, |buttons|);
  }

  /** Lines 55-66: every button but the last one pressed, tried on one dequeued state. A
      press that reaches the target lowers `best` to this state's count plus one; any other
      vector not seen before is recorded and queued behind the rest. `failed` stands for the
      `IndexOutOfBoundsException` of a button listing a light that does not exist. */
  method Expand(target: seq<bool>, buttons: seq<seq<int>>, state: State, ghost path: seq<int>,
                best: int, seen: set<seq<bool>>, queue: seq<State>,
                ghost paths: seq<seq<int>>, ghost enqueued: seq<seq<bool>>)
    returns (failed: bool, best': int, seen': set<seq<bool>>, queue': seq<State>,
             ghost paths': seq<seq<int>>, ghost enqueued': seq<seq<bool>>)
    requires Witness(target, buttons, state, path) && state.totalFlipped + 1 < best
    requires Queued(target, buttons, queue, paths) && Recorded(seen, enqueued, |target|)
    requires Bound(target, buttons, best)
    ensures Queued(target, buttons, queue', paths') && Recorded(seen', enqueued', |target|)
    ensures Bound(target, buttons, best')
    ensures failed <==> exists i :: 0 <= i < |buttons| && i != state.lastFlipped && !Fits(buttons[i], |target|)
    ensures best' <= best && (best' < best ==> best' == state.totalFlipped + 1)
    ensures seen <= seen' && (seen' == seen ==> queue' == queue)
    ensures target in seen' ==> target in seen
  {
    var n := |target|;
    var nextFlipped := state.totalFlipped + 1;
    failed, best', seen', queue', paths', enqueued' := false, best, seen, queue, paths, enqueued;
    for i := 0 to |buttons|
      invariant Queued(target, buttons, queue', paths') && Recorded(seen', enqueued', n)
      invariant Bound(target, buttons, best')
      invariant best' <= best && (best' < best ==> best' == nextFlipped)
      invariant seen <= seen' && (seen' == seen ==> queue' == queue)
      invariant target in seen' ==> target in seen
      invariant forall k :: 0 <= k < i && k != state.lastFlipped ==> Fits(buttons[k], n)
    {
      if i == state.lastFlipped {
        continue;
      }
      var stop;
      stop, best', seen', queue', paths', enqueued' :=
        TryButton(target, buttons, state, path, i, best', seen', queue', paths', enqueued');
      if stop {
        return true, best', seen', queue', paths', enqueued';
      }
    }
  }

  /** Lines 56-65: one button pressed on a copy of the dequeued state's lights. */
  method TryButton(target: seq<bool>, buttons: seq<seq<int>>, state: State, ghost path: seq<int>, i: int,
                   best: int, seen: set<seq<bool>>, queue: seq<State>,
                   ghost paths: seq<seq<int>>, ghost enqueued: seq<seq<bool>>)
    returns (failed: bool, best': int, seen': set<seq<bool>>, queue': seq<State>,
             ghost paths': seq<seq<int>>, ghost enqueued': seq<seq<bool>>)
    requires Witness(target, buttons, state, path) && 0 <= i < |buttons| && i != state.lastFlipped
    requires state.totalFlipped + 1 <= best && state.totalFlipped + 1 < INT_MAX
    requires Queued(target, buttons, queue, paths) && Recorded(seen, enqueued, |target|)
    requires Bound(target, buttons, best)
    ensures Queued(target, buttons, queue', paths') && Recorded(seen', enqueued', |target|)
    ensures Bound(target, buttons, best')
    ensures failed <==> !Fits(buttons[i], |target|)
    ensures best' <= best && (best' != best ==> best' == state.totalFlipped + 1)
    ensures seen <= seen' && (target in seen' ==> target in seen)
    ensures seen' == seen ==> queue' == queue
    ensures !failed ==> Toggle(state.current, buttons[i]).Ok? && queue' == queue + if seen' == seen then [] else
              [State(Toggle(state.current, buttons[i]).value, i, state.totalFlipped + 1)]
  {
    WitnessLength(target, buttons, state, path);
    failed, best', seen', queue', paths', enqueued' := false, best, seen, queue, paths, enqueued;
    var nextFlipped := state.totalFlipped + 1;
    var next := Press(state.current, buttons[i]);
    ToggleOk(state.current, buttons[i]);
    if next.Err? {
      return true, best', seen', queue', paths', enqueued';
    }
    if next.value == target {
      PressReaches(target, buttons, state, path, i);
      best' := nextFlipped;
    } else if next.value !in seen' {
      PressStep(target, buttons, state, path, i);
      Enqueue(target, buttons, queue', paths', State(next.value, i, nextFlipped), path + [i]);
      UniqueAppend(enqueued', next.value);
      seen' := seen' + {next.value};
      enqueued' := enqueued' + [next.value];
      queue' := queue' + [State(next.value, i, nextFlipped)];
      paths' := paths' + [path + [i]];
    }
  }

  lemma {:induction false} WitnessLength(target: seq<bool>, buttons: seq<seq<int>>, s: State, path: seq<int>)
    requires Witness(target, buttons, s, path)
    ensures |s.current| == |target| && s.totalFlipped >= 0
  {
  }

  lemma {:induction false} Enqueue(target: seq<bool>, buttons: seq<seq<int>>, queue: seq<State>, paths: seq<seq<int>>,
                s: State, path: seq<int>)
    requires Queued(target, buttons, queue, paths) && Witness(target, buttons, s, path)
    ensures Queued(target, buttons, queue + [s], paths + [path])
  {
    var q, ps := queue + [s], paths + [path];
    forall k | 0 <= k < |q|
      ensures Witness(target, buttons, q[k], ps[k])
    {
      if k < |queue| {
        assert q[k] == queue[k] && ps[k] == paths[k];
        assert Witness(target, buttons, queue[k], paths[k]);
      }
    }
  }

  lemma {:induction false} UniqueAppend<T>(xs: seq<T>, x: T)
    requires Unique(xs) && x !in xs
    ensures Unique(xs + [x])
  {
  }

  lemma {:induction false} Dequeue(target: seq<bool>, buttons: seq<seq<int>>, queue: seq<State>, paths: seq<seq<int>>)
    requires Queued(target, buttons, queue, paths) && |queue| > 0
    ensures Witness(target, buttons, queue[0], paths[0])
    ensures Queued(target, buttons, queue[1..], paths[1..])
  {
    assert Witness(target, buttons, queue[0], paths[0]);
    var q, ps := queue[1..], paths[1..];
    forall k | 0 <= k < |q|
      ensures Witness(target, buttons, q[k], ps[k])
    {
      assert q[k] == queue[k + 1] && ps[k] == paths[k + 1];
      assert Witness(target, buttons, queue[k + 1], paths[k + 1]);
    }
  }

  /** Lines 46-67: the search for one machine, from all lights off. The result is
      `Int.MAX_VALUE` when the target is never reached and otherwise a number of presses
      that reaches it; the search throws exactly when some button lists a light that does
      not exist, since every button is tried on the first state. No light vector is queued
      twice. */
  method FewestPresses(target: seq<bool>, buttons: seq<seq<int>>) returns (r: Result<int>, ghost enqueued: seq<seq<bool>>)
    ensures r.Err? <==> !AllFit(buttons, |target|)
    ensures r.Err? ==> r.error == IndexOutOfBounds
    ensures r.Ok? ==> Bound(target, buttons, r.value)
    ensures Unique(enqueued) && forall v :: v in enqueued ==> |v| == |target| && v != target
  {
    var n := |target|;
    var start := State(Off(n), -1, 0);
    var queue := [start];
    ghost var paths: seq<seq<int>> := [[]];
    var seen: set<seq<bool>> := {};
    enqueued := [];
    var best := INT_MAX;
    while |queue| > 0
      invariant Queued(target, buttons, queue, paths) && Recorded(seen, enqueued, n)
      invariant target !in seen
      invariant Bound(target, buttons, best)
      invariant !AllFit(buttons, n) ==> queue == [start] && best == INT_MAX
      decreases |Vectors(n) - seen|, |queue|
    {
      Dequeue(target, buttons, queue, paths);
      var state := queue[0];
      ghost var path := paths[0];
      queue, paths := queue[1..], paths[1..];
      var nextFlipped := state.totalFlipped + 1;
      if nextFlipped >= best {
        continue;
      }
      ghost var seen0 := seen;
      var failed;
      failed, best, seen, queue, paths, enqueued :=
        Expand(target, buttons, state, path, best, seen, queue, paths, enqueued);
      if failed {
        return Err(IndexOutOfBounds), enqueued;
      }
      if seen != seen0 {
        SeenInVectors(seen, n);
        Shrinks(Vectors(n), seen0, seen);
      }
    }
    r := Ok(best);
  }

  // ---------------------------------------------------------------------------------------
  // The answer
  // ---------------------------------------------------------------------------------------

  /** Every machine's buttons list only existing lights. */
  predicate Searchable(ms: seq<Machine>)
  {
    forall k {:trigger AllFit(ms[k].buttons, |ms[k].target|)} ::
      0 <= k < |ms| ==> AllFit(ms[k].buttons, |ms[k].target|)
  }

  /** Each machine's result is `Int.MAX_VALUE` or a number of presses reaching its target. */
  ghost predicate Bounds(ms: seq<Machine>, bests: seq<Int64>)
  {
    && |bests| == |ms|
    && forall k {:trigger Bound(ms[k].target, ms[k].buttons, bests[k])} ::
         0 <= k < |ms| ==> Bound(ms[k].target, ms[k].buttons, bests[k])
  }

  /** Lines 42-69: each machine searched in turn and its result added to a `long` total
      from 0; the first machine with a button outside its lights throws. */
  method SearchAll(ms: seq<Machine>) returns (r: Result<Int64>, ghost bests: seq<Int64>)
    ensures r.Ok? <==> Searchable(ms)
    ensures r.Err? ==> r.error == IndexOutOfBounds
    ensures r.Ok? ==> Bounds(ms, bests) && r.value == Sum64(bests)
  {
    var part1: Int64 := 0;
    bests := [];
    for k := 0 to |ms|
      invariant |bests| == k && part1 == Sum64(bests)
      invariant Searchable(ms[..k]) && Bounds(ms[..k], bests)
    {
      var best;
      ghost var queued;
      best, queued := FewestPresses(ms[k].target, ms[k].buttons);
      if best.Err? {
        assert !AllFit(ms[k].buttons, |ms[k].target|);
        return Err(best.error), bests;
      }
      Sum64Snoc(bests, best.value);
      Extend(ms, k, bests, best.value);
      part1 := Add64(part1, best.value);
      bests := bests + [best.value];
    }
    assert ms[..|ms|] == ms;
    r := Ok(part1);
  }

  /** One more machine searched. */
  lemma {:induction false} Extend(ms: seq<Machine>, k: int, bests: seq<Int64>, best: Int64)
    requires 0 <= k < |ms| && Searchable(ms[..k]) && Bounds(ms[..k], bests)
    requires AllFit(ms[k].buttons, |ms[k].target|) && Bound(ms[k].target, ms[k].buttons, best)
    ensures Searchable(ms[..k + 1]) && Bounds(ms[..k + 1], bests + [best])
  {
    var front, ms', bs' := ms[..k], ms[..k + 1], bests + [best];
    forall q | 0 <= q < k + 1
      ensures AllFit(ms'[q].buttons, |ms'[q].target|) && Bound(ms'[q].target, ms'[q].buttons, bs'[q])
    {
      if q < k {
        assert ms'[q] == front[q] && bs'[q] == bests[q];
        assert AllFit(front[q].buttons, |front[q].target|);
        assert Bound(front[q].target, front[q].buttons, bests[q]);
      }
    }
  }

  /** Lines 34-69: every line parsed, then every machine searched. */
  method Evaluate(lines: seq<string>) returns (r: Result<Int64>, ghost bests: seq<Int64>)
    ensures ParseMachines(lines).Err? ==> r == Err(ParseMachines(lines).error)
    ensures ParseMachines(lines).Ok? ==>
      var ms := ParseMachines(lines).value;
      && (r.Ok? <==> Searchable(ms))
      && (r.Err? ==> r.error == IndexOutOfBounds)
      && (r.Ok? ==> Bounds(ms, bests) && r.value == Sum64(bests))
  {
    var parsed := ParseMachines(lines);
    if parsed.Err? {
      return Err(parsed.error), [];
    }
    r, bests := SearchAll(parsed.value);
  }
}
