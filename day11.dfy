/** Day 11: counting the paths from a device to "out" in a directed acyclic graph of
    devices, with the count memoised per device (part 1), and counting only the paths that
    pass through both "dac" and "fft" (part 2). */
module Day11 {
  import opened Wrappers
  import opened JavaInt
  import opened Collections
  import opened Sorting
  import Search

  /** Each listed device's outputs, in the order its line gives them. */
  type Graph = map<string, seq<string>>

  const OUT: string := "out"
  const YOU: string := "you"
  const SVR: string := "svr"
  const DAC: string := "dac"
  const FFT: string := "fft"

  // ---------------------------------------------------------------------------------------
  // Parsing
  // ---------------------------------------------------------------------------------------

  /** `val (label, rest) = l.split(": ")` and `rest.split(" ")`: a line without ": " has no
      second component. */
  function ParseLine(l: string): (r: Result<(string, seq<string>)>)
    ensures r.Err? ==> r.error == IndexOutOfBounds
    ensures r.Ok? ==> Free(r.value.0, ": ") && |r.value.1| >= 1
    ensures r.Ok? ==> forall c :: c in r.value.1 ==> Free(c, " ")
  {
    var parts := Split(l, ": ");
    SplitFree(l, ": ");
    SplitFree(if |parts| < 2 then "" else parts[1], " ");
    if |parts| < 2 then Err(IndexOutOfBounds) else Ok((parts[0], Split(parts[1], " ")))
  }

  /** The line that lists `name`'s outputs. */
  function LineText(name: string, outputs: seq<string>): string
    requires |outputs| >= 1
  {
    name + ": " + JoinWith(outputs, " ")
  }

  /** Parsing a line written from a label and its outputs gives them back, when the label
      holds no ": " and the outputs hold neither a space nor a colon. */
  lemma {:induction false} LineRoundTrip(name: string, outputs: seq<string>)
    requires Free(name, ": ") && |outputs| >= 1
    requires forall c :: c in outputs ==> ' ' !in c && ':' !in c
    ensures ParseLine(LineText(name, outputs)) == Ok((name, outputs))
  {
    var rest := JoinWith(outputs, " ");
    JoinWithAvoids(outputs, " ", ':');
    SplitAroundColon(name, rest);
    SplitChar(rest, ' ');
    JoinWithChar(outputs, ' ');
    PartsJoin(outputs, ' ');
  }

  /** A line without ": " is rejected. */
  lemma {:induction false} NoSeparatorLine(l: string)
    requires Free(l, ": ")
    ensures ParseLine(l) == Err(IndexOutOfBounds)
  {
    SplitWhole(l, ": ");
  }

  /** Every line parsed, in order; any malformed line makes the whole parse fail. */
  function ParsePairs(lines: seq<string>): (r: Result<seq<(string, seq<string>)>>)
    ensures r.Err? ==> r.error == IndexOutOfBounds
    ensures r.Ok? ==> |r.value| == |lines|
  {
    if |lines| == 0 then Ok([])
    else
      var front := ParsePairs(lines[..|lines| - 1]);
      if front.Err? then front
      else
        var last := ParseLine(lines[|lines| - 1]);
        if last.Err? then Err(last.error) else Ok(front.value + [last.value])
  }

  /** The parse succeeds exactly when every line does, and then holds each line's pair. */
  lemma {:induction false} ParsePairsMeaning(lines: seq<string>)
    ensures ParsePairs(lines).Ok? <==> forall i :: 0 <= i < |lines| ==> ParseLine(lines[i]).Ok?
    ensures ParsePairs(lines).Ok? ==> forall i :: 0 <= i < |lines| ==> Ok(ParsePairs(lines).value[i]) == ParseLine(lines[i])
  {
    if |lines| > 0 {
      var front := lines[..|lines| - 1];
      ParsePairsMeaning(front);
      assert forall i :: 0 <= i < |front| ==> front[i] == lines[i];
    }
  }

  /** `associate`: the pairs put into a map in order, so a later label replaces an earlier one. */
  function Associate(pairs: seq<(string, seq<string>)>): (g: Graph)
  {
    if |pairs| == 0 then map[]
    else
      var last := pairs[|pairs| - 1];
      Associate(pairs[..|pairs| - 1])[last.0 := last.1]
  }

  /** The labels of the map are the labels of the pairs. */
  lemma {:induction false} AssociateKeys(pairs: seq<(string, seq<string>)>, name: string)
    ensures name in Associate(pairs) <==> exists i :: 0 <= i < |pairs| && pairs[i].0 == name
  {
    if |pairs| > 0 {
      var front := pairs[..|pairs| - 1];
      AssociateKeys(front, name);
      assert forall i :: 0 <= i < |front| ==> front[i] == pairs[i];
      if name != pairs[|pairs| - 1].0 && exists i :: 0 <= i < |pairs| && pairs[i].0 == name {
        var i :| 0 <= i < |pairs| && pairs[i].0 == name;
        assert i < |front|;
      }
    }
  }

  /** A label maps to the outputs of the last pair that names it. */
  lemma {:induction false} AssociateLast(pairs: seq<(string, seq<string>)>, i: int)
    requires 0 <= i < |pairs|
    requires forall j :: i < j < |pairs| ==> pairs[j].0 != pairs[i].0
    ensures pairs[i].0 in Associate(pairs) && Associate(pairs)[pairs[i].0] == pairs[i].1
  {
    if i < |pairs| - 1 {
      var front := pairs[..|pairs| - 1];
      assert front[i] == pairs[i];
      AssociateLast(front, i);
    }
  }

  /** `lines.associate { ... }`: the graph, or the exception of the first malformed line. */
  function ParseNodes(lines: seq<string>): (r: Result<Graph>)
    ensures r.Err? ==> r.error == IndexOutOfBounds
  {
    var pairs := ParsePairs(lines);
    if pairs.Err? then Err(pairs.error) else Ok(Associate(pairs.value))
  }

  /** A label and outputs that a line can carry: the label holds no ": ", and there is at
      least one output, holding neither a space nor a colon. */
  predicate Writable(e: (string, seq<string>))
  {
    Free(e.0, ": ") && forall c :: c in e.1 ==> ' ' !in c && ':' !in c
  }

  /** The lines listing the entries in order. */
  function Lines(entries: seq<(string, seq<string>)>): (r: seq<string>)
    requires forall k :: 0 <= k < |entries| ==> |entries[k].1| >= 1
    ensures |r| == |entries|
  {
    seq(|entries|, k requires 0 <= k < |entries| && |entries[k].1| >= 1 => LineText(entries[k].0, entries[k].1))
  }

  /** Parsing the lines of writable entries gives the entries, associated in order. */
  lemma {:induction false} NodesRoundTrip(entries: seq<(string, seq<string>)>)
    requires forall k :: 0 <= k < |entries| ==> |entries[k].1| >= 1 && Writable(entries[k])
    ensures ParseNodes(Lines(entries)) == Ok(Associate(entries))
  {
    var lines := Lines(entries);
    forall k | 0 <= k < |lines|
      ensures ParseLine(lines[k]) == Ok(entries[k])
    {
      LineRoundTrip(entries[k].0, entries[k].1);
    }
    ParsePairsMeaning(lines);
    assert ParsePairs(lines).value == entries;
  }

  // ---------------------------------------------------------------------------------------
  // Paths
  // ---------------------------------------------------------------------------------------

  /** Every output other than "out" of a listed device ranks below the device, so a walk
      along outputs cannot come back. */
  ghost predicate DAG(g: Graph, rank: string -> nat)
  {
    forall v, c :: v in g && c in g[v] && c != OUT ==> rank(c) < rank(v)
  }

  /** The outputs other than "out", in order: the devices the search submits. */
  function NonOut(outputs: seq<string>): (r: seq<string>)
    ensures forall c :: c in r ==> c in outputs && c != OUT
  {
    if |outputs| == 0 then []
    else (if outputs[0] == OUT then [] else [outputs[0]]) + NonOut(outputs[1..])
  }

  /** `v` and every device reachable from it before "out" is listed: no lookup `nodes[..]!!`
      on the way fails. */
  predicate Closed(g: Graph, rank: string -> nat, v: string)
    requires DAG(g, rank)
    decreases rank(v)
  {
    v in g && forall c :: c in g[v] && c != OUT ==> Closed(g, rank, c)
  }

  /** Every output other than "out" is closed. */
  predicate AllClosed(g: Graph, rank: string -> nat, outputs: seq<string>)
    requires DAG(g, rank)
  {
    forall c :: c in outputs && c != OUT ==> Closed(g, rank, c)
  }

  /** A walk from a device along outputs that ends at "out" and meets "out" nowhere before. */
  predicate IsPath(g: Graph, p: seq<string>)
  {
    |p| >= 2 && p[|p| - 1] == OUT &&
    forall i :: 0 <= i < |p| - 1 ==> p[i] != OUT && p[i] in g && p[i + 1] in g[p[i]]
  }

  /** `[v] + q` for every `q` of `qs`. */
  function Prefix(v: string, qs: seq<seq<string>>): (r: seq<seq<string>>)
    ensures |r| == |qs|
  {
    seq(|qs|, i requires 0 <= i < |qs| => [v] + qs[i])
  }

  /** The paths from `v` to "out", enumerated output by output: the reference the counting
      is measured against. */
  function Paths(g: Graph, rank: string -> nat, v: string): seq<seq<string>>
    requires DAG(g, rank)
    decreases rank(v), 1, 0
  {
    if v in g then PathsVia(g, rank, v, g[v]) else []
  }

  /** The paths from `v` whose second device is `c`. */
  function Head(g: Graph, rank: string -> nat, v: string, c: string): seq<seq<string>>
    requires DAG(g, rank) && (c != OUT ==> rank(c) < rank(v))
    decreases rank(v), 0, 0
  {
    if c == OUT then [[v, OUT]] else Prefix(v, Paths(g, rank, c))
  }

  /** The paths from `v` that continue with one of `outputs`, in their order. */
  function PathsVia(g: Graph, rank: string -> nat, v: string, outputs: seq<string>): seq<seq<string>>
    requires DAG(g, rank) && forall c :: c in outputs && c != OUT ==> rank(c) < rank(v)
    decreases rank(v), 0, |outputs|
  {
    if |outputs| == 0 then []
    else Head(g, rank, v, outputs[0]) + PathsVia(g, rank, v, outputs[1..])
  }

  /** Every enumerated path from `v` is a path, and starts at `v`. */
  lemma {:induction false} PathsSound(g: Graph, rank: string -> nat, v: string)
    requires DAG(g, rank) && v != OUT
    ensures forall p :: p in Paths(g, rank, v) ==> IsPath(g, p) && p[0] == v
    decreases rank(v), 1, 0
  {
    if v in g {
      PathsViaSound(g, rank, v, g[v]);
    }
  }

  lemma {:induction false} PathsViaSound(g: Graph, rank: string -> nat, v: string, outputs: seq<string>)
    requires DAG(g, rank) && v != OUT && v in g && forall c :: c in outputs ==> c in g[v]
    ensures forall p :: p in PathsVia(g, rank, v, outputs) ==> IsPath(g, p) && p[0] == v
    decreases rank(v), 0, |outputs|
  {
    if |outputs| > 0 {
      var c := outputs[0];
      assert c in outputs;
      assert forall x :: x in outputs[1..] ==> x in outputs;
      PathsViaSound(g, rank, v, outputs[1..]);
      if c != OUT {
        PathsSound(g, rank, c);
        forall p | p in Head(g, rank, v, c)
          ensures IsPath(g, p) && p[0] == v
        {
          var k :| 0 <= k < |Paths(g, rank, c)| && p == [v] + Paths(g, rank, c)[k];
          var q := Paths(g, rank, c)[k];
          assert q in Paths(g, rank, c);
          assert forall i :: 1 <= i < |p| ==> p[i] == q[i - 1];
        }
      }
    }
  }

  /** A path through the `i`-th output is enumerated. */
  lemma {:induction false} InVia(g: Graph, rank: string -> nat, v: string, outputs: seq<string>, i: int, p: seq<string>)
    requires DAG(g, rank) && forall c :: c in outputs && c != OUT ==> rank(c) < rank(v)
    requires 0 <= i < |outputs| && p in Head(g, rank, v, outputs[i])
    ensures p in PathsVia(g, rank, v, outputs)
    decreases i
  {
    if i > 0 {
      assert forall x :: x in outputs[1..] ==> x in outputs;
      assert outputs[1..][i - 1] == outputs[i];
      InVia(g, rank, v, outputs[1..], i - 1, p);
    }
  }

  /** Every path is enumerated from its first device. */
  lemma {:induction false} PathsComplete(g: Graph, rank: string -> nat, p: seq<string>)
    requires DAG(g, rank) && IsPath(g, p)
    ensures p in Paths(g, rank, p[0])
    decreases |p|
  {
    var v, c := p[0], p[1];
    assert c in g[v];
    var i :| 0 <= i < |g[v]| && g[v][i] == c;
    if c == OUT {
      assert |p| == 2;
      assert p == [v, OUT];
    } else {
      var q := p[1..];
      assert IsPath(g, q) by {
        assert forall j :: 0 <= j < |q| ==> q[j] == p[j + 1];
      }
      PathsComplete(g, rank, q);
      var qs := Paths(g, rank, c);
      var k :| 0 <= k < |qs| && qs[k] == q;
      assert p == [v] + q;
      assert Prefix(v, qs)[k] == p;
    }
    InVia(g, rank, v, g[v], i, p);
  }

  /** Every path through `outputs` has its second device among them. */
  lemma {:induction false} ViaSeconds(g: Graph, rank: string -> nat, v: string, outputs: seq<string>)
    requires DAG(g, rank) && forall c :: c in outputs && c != OUT ==> rank(c) < rank(v)
    ensures forall p :: p in PathsVia(g, rank, v, outputs) ==> |p| >= 2 && p[1] in outputs
    decreases |outputs|
  {
    if |outputs| > 0 {
      var c := outputs[0];
      assert c in outputs;
      assert forall x :: x in outputs[1..] ==> x in outputs;
      ViaSeconds(g, rank, v, outputs[1..]);
      HeadSeconds(g, rank, v, c);
    }
  }

  /** Every path through `c` has `c` second. */
  lemma {:induction false} HeadSeconds(g: Graph, rank: string -> nat, v: string, c: string)
    requires DAG(g, rank) && (c != OUT ==> rank(c) < rank(v))
    ensures forall p :: p in Head(g, rank, v, c) ==> |p| >= 2 && p[1] == c
  {
    if c != OUT {
      PathsSound(g, rank, c);
      forall p | p in Head(g, rank, v, c)
        ensures |p| >= 2 && p[1] == c
      {
        var k :| 0 <= k < |Paths(g, rank, c)| && p == [v] + Paths(g, rank, c)[k];
        assert Paths(g, rank, c)[k] in Paths(g, rank, c);
      }
    }
  }

  /** Two lists without repeats and without common elements make one without repeats. */
  lemma {:induction false} UniqueConcat<T>(a: seq<T>, b: seq<T>)
    requires Unique(a) && Unique(b) && forall x :: x in a ==> x !in b
    ensures Unique(a + b)
  {
    forall i, j | 0 <= i < j < |a + b|
      ensures (a + b)[i] != (a + b)[j]
    {
      if i < |a| && j >= |a| {
        assert (a + b)[i] in a && (a + b)[j] == b[j - |a|];
      }
    }
  }

  /** No device lists the same output twice. */
  predicate NoRepeats(g: Graph)
  {
    forall u :: u in g ==> Unique(g[u])
  }

  /** When no device lists an output twice, no path is enumerated twice, so the length of
      the enumeration is the number of distinct paths. */
  lemma {:induction false} PathsUnique(g: Graph, rank: string -> nat, v: string)
    requires DAG(g, rank) && NoRepeats(g)
    ensures Unique(Paths(g, rank, v))
    decreases rank(v), 1, 0
  {
    if v in g {
      PathsViaUnique(g, rank, v, g[v]);
    }
  }

  lemma {:induction false} PathsViaUnique(g: Graph, rank: string -> nat, v: string, outputs: seq<string>)
    requires DAG(g, rank) && NoRepeats(g) && Unique(outputs)
    requires forall c :: c in outputs && c != OUT ==> rank(c) < rank(v)
    ensures Unique(PathsVia(g, rank, v, outputs))
    decreases rank(v), 0, |outputs|
  {
    if |outputs| > 0 {
      var c, rest := outputs[0], outputs[1..];
      assert c in outputs;
      assert forall x :: x in rest ==> x in outputs;
      assert c !in rest by {
        assert forall j :: 0 <= j < |rest| ==> rest[j] == outputs[j + 1];
      }
      assert Unique(rest) by {
        assert forall i :: 0 <= i < |rest| ==> rest[i] == outputs[i + 1];
      }
      PathsViaUnique(g, rank, v, rest);
      if c != OUT {
        PathsUnique(g, rank, c);
        var qs := Paths(g, rank, c);
        assert Unique(Head(g, rank, v, c)) by {
          forall i, j | 0 <= i < j < |qs|
            ensures Prefix(v, qs)[i] != Prefix(v, qs)[j]
          {
            assert Prefix(v, qs)[i][1..] == qs[i] && Prefix(v, qs)[j][1..] == qs[j];
          }
        }
      }
      HeadSeconds(g, rank, v, c);
      ViaSeconds(g, rank, v, rest);
      UniqueConcat(Head(g, rank, v, c), PathsVia(g, rank, v, rest));
    }
  }

  // ---------------------------------------------------------------------------------------
  // What is counted
  // ---------------------------------------------------------------------------------------

  /** A path counts in a state with flags `d` and `f` when it meets "dac" after its first
      device or `d` is already set, and likewise "fft" and `f`. */
  function Good(d: bool, f: bool): seq<string> -> bool
  {
    p => (d || (|p| > 0 && DAC in p[1..])) && (f || (|p| > 0 && FFT in p[1..]))
  }

  /** The answer the search gives for `v` with flags `d` and `f`: the count of counted
      paths, wrapped to a `long`, or the exception of a missing device. */
  function Spec(g: Graph, rank: string -> nat, v: string, d: bool, f: bool): Result<Int64>
    requires DAG(g, rank)
  {
    if Closed(g, rank, v) then Ok(Wrap64(CountWhere(Paths(g, rank, v), Good(d, f)))) else Err(NullPointer)
  }

  /** With both flags set every path counts. */
  lemma {:induction false} CountAll(ps: seq<seq<string>>)
    ensures CountWhere(ps, Good(true, true)) == |ps|
  {
    if |ps| > 0 {
      CountAll(ps[..|ps| - 1]);
    }
  }

  /** With no flag set, a path from "svr" counts exactly when it passes through both "dac"
      and "fft". */
  lemma {:induction false} PassesBoth(g: Graph, rank: string -> nat, p: seq<string>)
    requires DAG(g, rank) && p in Paths(g, rank, SVR)
    ensures Good(false, false)(p) <==> DAC in p && FFT in p
  {
    PathsSound(g, rank, SVR);
    assert p == [p[0]] + p[1..];
  }

  /** Counting the paths behind `v`: the flags move one device on. */
  lemma {:induction false} CountPrefix(v: string, c: string, qs: seq<seq<string>>, d: bool, f: bool)
    requires forall q :: q in qs ==> |q| >= 1 && q[0] == c
    ensures CountWhere(Prefix(v, qs), Good(d, f)) == CountWhere(qs, Good(d || c == DAC, f || c == FFT))
  {
    if |qs| > 0 {
      var front := qs[..|qs| - 1];
      var q := qs[|qs| - 1];
      assert q in qs;
      assert forall x :: x in front ==> x in qs;
      CountPrefix(v, c, front, d, f);
      assert Prefix(v, qs)[..|qs| - 1] == Prefix(v, front);
      GoodStep(v, q, d, f);
    }
  }

  /** A path behind `v` counts as the path itself with the flags moved on to its first device. */
  lemma {:induction false} GoodStep(v: string, q: seq<string>, d: bool, f: bool)
    requires |q| >= 1
    ensures Good(d, f)([v] + q) == Good(d || q[0] == DAC, f || q[0] == FFT)(q)
  {
    assert ([v] + q)[1..] == q;
    assert q == [q[0]] + q[1..];
  }

  // ---------------------------------------------------------------------------------------
  // The search
  // ---------------------------------------------------------------------------------------

  /** `outputs.sumOf { next -> if (next == "out") hit else submit(next) }` in `long`
      arithmetic, given the submitted answers in order: the first exception ends it. */
  function SumOf(outputs: seq<string>, answers: seq<Result<Int64>>, hit: Int64, acc: Int64): Result<Int64>
    decreases |outputs|
  {
    if |outputs| == 0 then Ok(acc)
    else if outputs[0] == OUT then SumOf(outputs[1..], answers, hit, Add64(acc, hit))
    else if |answers| == 0 then Ok(acc)
    else if answers[0].Err? then Err(answers[0].error)
    else SumOf(outputs[1..], answers[1..], hit, Add64(acc, answers[0].value))
  }

  /** The identity `{ it }` both searches key their caches by. */
  function Label(v: string): string
  {
    v
  }

  /** Part 1's search: a device submits its outputs other than "out". */
  function Children1(g: Graph): string -> seq<string>
  {
    v => if v in g then NonOut(g[v]) else []
  }

  /** Part 1's `run`: each "out" output counts 1; an unlisted device throws. */
  function Combine1(g: Graph): (string, seq<Result<Int64>>) -> Result<Int64>
  {
    (v, answers) => if v in g then SumOf(g[v], answers, 1, 0) else Err(NullPointer)
  }

  /** The search state of part 2: a device, and whether "dac" and "fft" were passed. */
  datatype State = State(node: string, seenDac: bool, seenFft: bool)

  /** The state submitted for output `next`. */
  function Step(st: State, next: string): State
  {
    State(next, st.seenDac || next == DAC, st.seenFft || next == FFT)
  }

  /** The flags after walking through `q` from `st`. */
  function Walk(st: State, q: seq<string>): State
    decreases |q|
  {
    if |q| == 0 then st else Walk(Step(st, q[0]), q[1..])
  }

  /** The flags only go from false to true: after a walk each is set exactly when it was
      set at the start or the walk met its device. */
  lemma {:induction false} WalkFlags(st: State, q: seq<string>)
    ensures Walk(st, q).seenDac == (st.seenDac || DAC in q)
    ensures Walk(st, q).seenFft == (st.seenFft || FFT in q)
    ensures |q| > 0 ==> Walk(st, q).node == q[|q| - 1]
    decreases |q|
  {
    if |q| > 0 {
      WalkFlags(Step(st, q[0]), q[1..]);
      assert q == [q[0]] + q[1..];
    }
  }

  /** The states part 2's search submits from `st`. */
  function Successors(g: Graph, st: State): (r: seq<State>)
    ensures st.node in g ==> |r| == |NonOut(g[st.node])|
  {
    var cs := if st.node in g then NonOut(g[st.node]) else [];
    seq(|cs|, i requires 0 <= i < |cs| => Step(st, cs[i]))
  }

  function Self(st: State): State
  {
    st
  }

  function Children2(g: Graph): State -> seq<State>
  {
    (st: State) => Successors(g, st)
  }

  /** An "out" output counts only when both devices were passed. */
  function Hit(d: bool, f: bool): Int64
  {
    if d && f then 1 else 0
  }

  /** Part 2's `run`. */
  function Combine2(g: Graph): (State, seq<Result<Int64>>) -> Result<Int64>
  {
    (st: State, answers) => if st.node in g then SumOf(g[st.node], answers, Hit(st.seenDac, st.seenFft), 0) else Err(NullPointer)
  }

  function Rank2(rank: string -> nat): State -> nat
  {
    (st: State) => rank(st.node)
  }

  lemma {:induction false} Acyclic1(g: Graph, rank: string -> nat)
    requires DAG(g, rank)
    ensures Search.Acyclic(Label, Children1(g), rank)
  {
  }

  lemma {:induction false} Acyclic2(g: Graph, rank: string -> nat)
    requires DAG(g, rank)
    ensures Search.Acyclic(Self, Children2(g), Rank2(rank))
  {
    forall s, c | c in Children2(g)(s)
      ensures Rank2(rank)(Self(c)) < Rank2(rank)(Self(s))
    {
      var cs := if s.node in g then NonOut(g[s.node]) else [];
      var succ := Successors(g, s);
      var j :| 0 <= j < |succ| && succ[j] == c;
      assert succ[j] == Step(s, cs[j]);
      assert cs[j] in cs;
    }
  }

  /** The answers submitted for `cs` are the reference answers with the flags moved on. */
  ghost predicate Answered(g: Graph, rank: string -> nat, cs: seq<string>, answers: seq<Result<Int64>>, d: bool, f: bool)
    requires DAG(g, rank)
  {
    |answers| == |cs| &&
    forall j :: 0 <= j < |cs| ==> answers[j] == Spec(g, rank, cs[j], d || cs[j] == DAC, f || cs[j] == FFT)
  }

  /** An "out" output adds the hit to the total. */
  lemma {:induction false} SumOfOut(outputs: seq<string>, answers: seq<Result<Int64>>, hit: Int64, t: int)
    requires |outputs| > 0 && outputs[0] == OUT && (hit == 0 || hit == 1)
    ensures SumOf(outputs, answers, hit, Wrap64(t)) == SumOf(outputs[1..], answers, hit, Wrap64(t + hit))
  {
    Add64OfWrapped(Wrap64(t), hit, t, hit);
  }

  /** Another output adds its submitted answer, unless that was an exception. */
  lemma {:induction false} SumOfNode(outputs: seq<string>, answers: seq<Result<Int64>>, hit: Int64, t: int, n: int)
    requires |outputs| > 0 && outputs[0] != OUT && |answers| > 0
    requires answers[0].Ok? ==> answers[0].value == Wrap64(n)
    ensures SumOf(outputs, answers, hit, Wrap64(t)) ==
      if answers[0].Err? then Err(answers[0].error) else SumOf(outputs[1..], answers[1..], hit, Wrap64(t + n))
  {
    if answers[0].Ok? {
      Add64OfWrapped(Wrap64(t), answers[0].value, t, n);
    }
  }

  /** The paths through the first output come first. */
  lemma {:induction false} CountVia(g: Graph, rank: string -> nat, v: string, outputs: seq<string>, p: seq<string> -> bool)
    requires DAG(g, rank) && forall c :: c in outputs && c != OUT ==> rank(c) < rank(v)
    requires |outputs| > 0
    ensures forall c :: c in outputs[1..] && c != OUT ==> rank(c) < rank(v)
    ensures CountWhere(PathsVia(g, rank, v, outputs), p) ==
      CountWhere(Head(g, rank, v, outputs[0]), p) + CountWhere(PathsVia(g, rank, v, outputs[1..]), p)
  {
    assert outputs[0] in outputs;
    assert forall x :: x in outputs[1..] ==> x in outputs;
    CountWhereAppend(Head(g, rank, v, outputs[0]), PathsVia(g, rank, v, outputs[1..]), p);
  }

  /** The direct path to "out" counts exactly when both flags are set. */
  lemma {:induction false} CountHeadOut(g: Graph, rank: string -> nat, v: string, d: bool, f: bool)
    requires DAG(g, rank)
    ensures CountWhere(Head(g, rank, v, OUT), Good(d, f)) == Hit(d, f)
  {
    assert [v, OUT][1..] == [OUT];
    assert [[v, OUT]][..0] == [];
  }

  /** The paths through device `c` count as `c`'s own paths with the flags moved on. */
  lemma {:induction false} CountHeadNode(g: Graph, rank: string -> nat, v: string, c: string, d: bool, f: bool)
    requires DAG(g, rank) && c != OUT && rank(c) < rank(v)
    ensures CountWhere(Head(g, rank, v, c), Good(d, f)) == CountWhere(Paths(g, rank, c), Good(d || c == DAC, f || c == FFT))
  {
    PathsSound(g, rank, c);
    CountPrefix(v, c, Paths(g, rank, c), d, f);
  }

  /** What `sumOf` adds up, exactly: `hit` for each "out" output and `count(c)` for each
      other output `c`. */
  function Total(outputs: seq<string>, hit: int, count: string -> int): int
  {
    if |outputs| == 0 then 0
    else (if outputs[0] == OUT then hit else count(outputs[0])) + Total(outputs[1..], hit, count)
  }

  /** Every output other than "out" passes `ok`. */
  predicate AllOk(outputs: seq<string>, ok: string -> bool)
  {
    forall c :: c in outputs && c != OUT ==> ok(c)
  }

  /** The answer submitted for a device: its count wrapped, or the exception. */
  function Expected(ok: string -> bool, count: string -> int, c: string): Result<Int64>
  {
    if ok(c) then Ok(Wrap64(count(c))) else Err(NullPointer)
  }

  /** The answers line up with the outputs other than "out", each the expected one. */
  predicate Matches(outputs: seq<string>, answers: seq<Result<Int64>>, ok: string -> bool, count: string -> int)
    decreases |outputs|
  {
    if |outputs| == 0 then true
    else if outputs[0] == OUT then Matches(outputs[1..], answers, ok, count)
    else |answers| > 0 && answers[0] == Expected(ok, count, outputs[0]) && Matches(outputs[1..], answers[1..], ok, count)
  }

  /** Answers given position by position line up. */
  lemma {:induction false} MatchesOf(outputs: seq<string>, answers: seq<Result<Int64>>, ok: string -> bool, count: string -> int)
    requires |answers| == |NonOut(outputs)|
    requires forall j :: 0 <= j < |answers| ==> answers[j] == Expected(ok, count, NonOut(outputs)[j])
    ensures Matches(outputs, answers, ok, count)
    decreases |outputs|
  {
    if |outputs| > 0 {
      var c, rest := outputs[0], outputs[1..];
      if c == OUT {
        assert NonOut(outputs) == NonOut(rest);
        MatchesOf(rest, answers, ok, count);
      } else {
        assert NonOut(outputs) == [c] + NonOut(rest);
        assert forall j :: 0 <= j < |answers| - 1 ==> answers[1..][j] == answers[j + 1] && NonOut(rest)[j] == NonOut(outputs)[j + 1];
        MatchesOf(rest, answers[1..], ok, count);
      }
    }
  }

  /** `sumOf` on submitted answers that are each output's count wrapped, or an exception:
      the exact total wrapped, or the exception when any answer is one. */
  lemma {:induction false} SumOfTotal(outputs: seq<string>, answers: seq<Result<Int64>>, hit: Int64, t: int,
                                      ok: string -> bool, count: string -> int)
    requires hit == 0 || hit == 1
    requires Matches(outputs, answers, ok, count)
    ensures AllOk(outputs, ok) ==> SumOf(outputs, answers, hit, Wrap64(t)) == Ok(Wrap64(t + Total(outputs, hit, count)))
    ensures !AllOk(outputs, ok) ==> SumOf(outputs, answers, hit, Wrap64(t)) == Err(NullPointer)
    decreases |outputs|
  {
    if |outputs| > 0 {
      var c, rest := outputs[0], outputs[1..];
      assert forall x :: x in outputs <==> x == c || x in rest by {
        assert outputs == [c] + rest;
      }
      assert AllOk(outputs, ok) == ((c == OUT || ok(c)) && AllOk(rest, ok));
      if c == OUT {
        SumOfOut(outputs, answers, hit, t);
        SumOfTotal(rest, answers, hit, t + hit, ok, count);
        assert t + Total(outputs, hit, count) == (t + hit) + Total(rest, hit, count);
      } else {
        SumOfNode(outputs, answers, hit, t, count(c));
        if ok(c) {
          SumOfTotal(rest, answers[1..], hit, t + count(c), ok, count);
          assert t + Total(outputs, hit, count) == (t + count(c)) + Total(rest, hit, count);
        }
      }
    }
  }

  /** The counted paths of each output's device. */
  ghost function ChildCount(g: Graph, rank: string -> nat, d: bool, f: bool): string -> int
  {
    c => if DAG(g, rank) then CountWhere(Paths(g, rank, c), Good(d || c == DAC, f || c == FFT)) else 0
  }

  ghost function ChildClosed(g: Graph, rank: string -> nat): string -> bool
  {
    c => DAG(g, rank) && Closed(g, rank, c)
  }

  /** The paths through the outputs are counted output by output. */
  lemma {:induction false} CountViaTotal(g: Graph, rank: string -> nat, v: string, outputs: seq<string>, d: bool, f: bool)
    requires DAG(g, rank) && forall c :: c in outputs && c != OUT ==> rank(c) < rank(v)
    ensures CountWhere(PathsVia(g, rank, v, outputs), Good(d, f)) == Total(outputs, Hit(d, f), ChildCount(g, rank, d, f))
    decreases |outputs|
  {
    if |outputs| > 0 {
      var c := outputs[0];
      assert c in outputs;
      CountVia(g, rank, v, outputs, Good(d, f));
      if c == OUT {
        CountHeadOut(g, rank, v, d, f);
      } else {
        CountHeadNode(g, rank, v, c, d, f);
      }
      CountViaTotal(g, rank, v, outputs[1..], d, f);
    }
  }

  /** The reference answers line up with the outputs. */
  lemma {:induction false} AnsweredMatches(g: Graph, rank: string -> nat, outputs: seq<string>, answers: seq<Result<Int64>>, d: bool, f: bool)
    requires DAG(g, rank) && Answered(g, rank, NonOut(outputs), answers, d, f)
    ensures Matches(outputs, answers, ChildClosed(g, rank), ChildCount(g, rank, d, f))
  {
    var ok, count := ChildClosed(g, rank), ChildCount(g, rank, d, f);
    var cs := NonOut(outputs);
    forall j | 0 <= j < |answers|
      ensures answers[j] == Expected(ok, count, cs[j])
    {
    }
    MatchesOf(outputs, answers, ok, count);
  }

  lemma {:induction false} AllOkClosed(g: Graph, rank: string -> nat, outputs: seq<string>)
    requires DAG(g, rank)
    ensures AllOk(outputs, ChildClosed(g, rank)) == AllClosed(g, rank, outputs)
  {
  }

  /** `sumOf` over the outputs adds up the counted paths through each of them. */
  lemma {:induction false} Via(g: Graph, rank: string -> nat, v: string, outputs: seq<string>, answers: seq<Result<Int64>>, d: bool, f: bool)
    requires DAG(g, rank) && forall c :: c in outputs && c != OUT ==> rank(c) < rank(v)
    requires Answered(g, rank, NonOut(outputs), answers, d, f)
    ensures SumOf(outputs, answers, Hit(d, f), 0) ==
      if AllClosed(g, rank, outputs) then Ok(Wrap64(CountWhere(PathsVia(g, rank, v, outputs), Good(d, f))))
      else Err(NullPointer)
  {
    AnsweredMatches(g, rank, outputs, answers, d, f);
    assert Wrap64(0) == 0;
    SumOfTotal(outputs, answers, Hit(d, f), 0, ChildClosed(g, rank), ChildCount(g, rank, d, f));
    CountViaTotal(g, rank, v, outputs, d, f);
    AllOkClosed(g, rank, outputs);
  }

  /** Part 1's memoised value of a device is the count of its paths to "out". */
  lemma {:induction false} Part1Value(g: Graph, rank: string -> nat, v: string)
    requires DAG(g, rank)
    ensures Search.AcyclicFrom(Label, Children1(g), rank, v)
    ensures Search.Value(Label, Children1(g), Combine1(g), rank, v) == Spec(g, rank, v, true, true)
    decreases rank(v)
  {
    Acyclic1(g, rank);
    Search.AcyclicAll(Label, Children1(g), rank);
    var kids := Children1(g)(v);
    var answers := seq(|kids|, i requires 0 <= i < |kids| => Search.Value(Label, Children1(g), Combine1(g), rank, kids[i]));
    Search.ValueOf(Label, Children1(g), Combine1(g), rank, v, answers);
    if v in g {
      forall j | 0 <= j < |kids|
        ensures answers[j] == Spec(g, rank, kids[j], true, true)
      {
        assert kids[j] in kids;
        Part1Value(g, rank, kids[j]);
      }
      Via(g, rank, v, g[v], answers, true, true);
    }
  }

  /** Part 2's memoised value of a state is the count of its counted paths. */
  lemma {:induction false} Part2Value(g: Graph, rank: string -> nat, st: State)
    requires DAG(g, rank)
    ensures Search.AcyclicFrom(Self, Children2(g), Rank2(rank), st)
    ensures Search.Value(Self, Children2(g), Combine2(g), Rank2(rank), st) == Spec(g, rank, st.node, st.seenDac, st.seenFft)
    decreases rank(st.node)
  {
    Acyclic2(g, rank);
    Search.AcyclicAll(Self, Children2(g), Rank2(rank));
    var kids := Children2(g)(st);
    var answers := seq(|kids|, i requires 0 <= i < |kids| => Search.Value(Self, Children2(g), Combine2(g), Rank2(rank), kids[i]));
    Search.ValueOf(Self, Children2(g), Combine2(g), Rank2(rank), st, answers);
    if st.node in g {
      var cs := NonOut(g[st.node]);
      forall j | 0 <= j < |cs|
        ensures answers[j] == Spec(g, rank, cs[j], st.seenDac || cs[j] == DAC, st.seenFft || cs[j] == FFT)
      {
        assert cs[j] in cs;
        assert kids[j] == Step(st, cs[j]);
        Part2Value(g, rank, kids[j]);
      }
      Via(g, rank, st.node, g[st.node], answers, st.seenDac, st.seenFft);
    }
  }

  /** A `Long` answer is never null, so the cache never recomputes a device. */
  function NeverNull(o: Result<Int64>): bool
  {
    false
  }

  /** `evaluate`: part 1 counts the paths from "you" to "out"; part 2 counts the paths from
      "svr" to "out" that pass through both "dac" and "fft"; both in `long` arithmetic. An
      unlisted device on the way throws. */
  method Evaluate(lines: seq<string>, ghost rank: string -> nat) returns (r: Result<(Int64, Int64)>)
    requires ParseNodes(lines).Ok? ==> DAG(ParseNodes(lines).value, rank)
    ensures ParseNodes(lines).Err? ==> r == Err(IndexOutOfBounds)
    ensures ParseNodes(lines).Ok? ==>
      var g := ParseNodes(lines).value;
      r == if Closed(g, rank, YOU) && Closed(g, rank, SVR)
           then Ok((Wrap64(|Paths(g, rank, YOU)|), Wrap64(CountWhere(Paths(g, rank, SVR), Good(false, false)))))
           else Err(NullPointer)
  {
    var parsed := ParseNodes(lines);
    if parsed.Err? {
      return Err(parsed.error);
    }
    var g := parsed.value;
    Acyclic1(g, rank);
    Search.AcyclicAll(Label, Children1(g), rank);
    Search.InjectiveConsistent(Label, Children1(g), Combine1(g), rank);
    var part1 := Search.SearchMemoizingById(YOU, Label, Children1(g), Combine1(g), NeverNull, rank);
    Part1Value(g, rank, YOU);
    if part1.Err? {
      return Err(part1.error);
    }
    Acyclic2(g, rank);
    Search.AcyclicAll(Self, Children2(g), Rank2(rank));
    Search.InjectiveConsistent(Self, Children2(g), Combine2(g), Rank2(rank));
    var part2 := Search.SearchMemoizingById(State(SVR, false, false), Self, Children2(g), Combine2(g), NeverNull, Rank2(rank));
    Part2Value(g, rank, State(SVR, false, false));
    if part2.Err? {
      return Err(part2.error);
    }
    CountAll(Paths(g, rank, YOU));
    r := Ok((part1.value, part2.value));
  }
}
