/** The generic searches of `SearchUtil.kt`. The `run(state, addNext)` callback is a successor
    function `succ`: `run` calls `addNext` on each element of `succ(state)`, in order. A
    comparator is a cost function (`compare(a, b) < 0` exactly when `cost(a) < cost(b)`).
    The source loops until its queue is empty, which happens only when finitely many ids
    can be reached; the model takes such a finite, successor-closed set of ids as a ghost
    parameter. */
module Search {
  import opened Wrappers

  // ----- Paths and reachability -----

  /** Each element of `p` is a successor of the one before it. */
  ghost predicate Path<S(!new)>(succ: S -> seq<S>, p: seq<S>)
  {
    |p| > 0 && forall i :: 0 <= i < |p| - 1 ==> p[i + 1] in succ(p[i])
  }

  /** `s` can be reached from `start` by following successors. */
  ghost predicate Reachable<S(!new)>(succ: S -> seq<S>, start: S, s: S)
  {
    exists p :: Path(succ, p) && p[0] == start && p[|p| - 1] == s
  }

  /** `s` is a successor of a state reachable from `start`: it is reached in one step or more. */
  ghost predicate ReachableInSteps<S(!new)>(succ: S -> seq<S>, start: S, s: S)
  {
    exists r :: Reachable(succ, start, r) && s in succ(r)
  }

  lemma {:induction false} ReachableStart<S(!new)>(succ: S -> seq<S>, start: S)
    ensures Reachable(succ, start, start)
  {
    assert Path(succ, [start]);
  }

  lemma {:induction false} ReachableStep<S(!new)>(succ: S -> seq<S>, start: S, s: S, t: S)
    requires Reachable(succ, start, s) && t in succ(s)
    ensures Reachable(succ, start, t) && ReachableInSteps(succ, start, t)
  {
    var p :| Path(succ, p) && p[0] == start && p[|p| - 1] == s;
    var p2 := p + [t];
    forall i | 0 <= i < |p2| - 1
      ensures p2[i + 1] in succ(p2[i])
    {
      if i < |p| - 1 {
        assert p2[i] == p[i] && p2[i + 1] == p[i + 1];
      }
    }
    assert Path(succ, p2);
  }

  /** The ids in `ids` only lead to ids in `ids`. */
  ghost predicate Closed<S(!new), ID(!new)>(getId: S -> ID, succ: S -> seq<S>, ids: set<ID>)
  {
    forall s, t :: getId(s) in ids && t in succ(s) ==> getId(t) in ids
  }

  // ----- The queue -----

  /** `queue.removeFirst()` when `bfs` (FIFO order), `queue.removeLast()` otherwise (LIFO). */
  function Pop<S(!new)>(queue: seq<S>, bfs: bool): (r: (S, seq<S>))
    requires |queue| > 0
    ensures bfs ==> r.0 == queue[0] && r.1 == queue[1..]
    ensures !bfs ==> r.0 == queue[|queue| - 1] && r.1 == queue[..|queue| - 1]
  {
    if bfs then (queue[0], queue[1..]) else (queue[|queue| - 1], queue[..|queue| - 1])
  }

  /** What the queue invariants need of a pop. */
  lemma {:induction false} PopMembers<S(!new)>(queue: seq<S>, bfs: bool)
    requires |queue| > 0
    ensures multiset(queue) == multiset(Pop(queue, bfs).1) + multiset{Pop(queue, bfs).0}
    ensures Pop(queue, bfs).0 in queue && |Pop(queue, bfs).1| < |queue|
    ensures forall x :: x in Pop(queue, bfs).1 ==> x in queue
    ensures forall x :: x in queue && x != Pop(queue, bfs).0 ==> x in Pop(queue, bfs).1
  {
    var (s, rest) := Pop(queue, bfs);
    if bfs {
      assert queue == [s] + rest;
    } else {
      assert queue == rest + [s];
    }
    forall x | x in queue && x != s
      ensures x in rest
    {
      assert x in multiset(queue);
    }
    forall x | x in rest
      ensures x in queue
    {
      assert x in multiset(rest);
    }
  }

  // ----- The seen map -----

  /** `isBetterState`: no state with this id is known, or `s` is strictly cheaper. */
  predicate IsBetter<ID(!new), S(!new)>(seen: map<ID, S>, cost: S -> nat, id: ID, s: S)
  {
    id !in seen || cost(s) < cost(seen[id])
  }

  /** `isWorseState`: a strictly cheaper state with this id is known. */
  predicate IsWorse<ID(!new), S(!new)>(seen: map<ID, S>, cost: S -> nat, id: ID, s: S)
  {
    id in seen && cost(seen[id]) < cost(s)
  }

  /** The known states only get cheaper, and no id is forgotten. */
  ghost predicate Improves<ID(!new), S(!new)>(cost: S -> nat, m: map<ID, S>, m2: map<ID, S>)
  {
    m.Keys <= m2.Keys && forall k :: k in m ==> cost(m2[k]) <= cost(m[k])
  }

  /** The total cost of the known states: it drops whenever one gets cheaper. */
  ghost function CostSum<ID(!new), S(!new)>(m: map<ID, S>, cost: S -> nat): nat
    decreases |m|
  {
    if !exists k :: k in m then 0
    else
      var k :| k in m;
      cost(m[k]) + CostSum(m - {k}, cost)
  }

  lemma {:induction false} CostSumRemove<ID(!new), S(!new)>(m: map<ID, S>, cost: S -> nat, k: ID)
    requires k in m
    ensures CostSum(m, cost) == cost(m[k]) + CostSum(m - {k}, cost)
    decreases |m|
  {
    var k' :| k' in m && CostSum(m, cost) == cost(m[k']) + CostSum(m - {k'}, cost);
    if k' != k {
      assert (m - {k'}) - {k} == (m - {k}) - {k'};
      CostSumRemove(m - {k'}, cost, k);
      CostSumRemove(m - {k}, cost, k');
    }
  }

  lemma {:induction false} CostSumUpdate<ID(!new), S(!new)>(m: map<ID, S>, cost: S -> nat, k: ID, v: S)
    requires k in m
    ensures CostSum(m[k := v], cost) == CostSum(m, cost) - cost(m[k]) + cost(v)
  {
    CostSumRemove(m, cost, k);
    CostSumRemove(m[k := v], cost, k);
    assert m[k := v] - {k} == m - {k};
  }

  /** A strictly larger set of ids leaves fewer unknown ones. */
  lemma {:induction false} FewerUnknown<ID(!new)>(ids: set<ID>, a: set<ID>, b: set<ID>)
    requires a <= b <= ids && a != b
    ensures |ids - b| < |ids - a|
  {
    var x :| x in b && x !in a;
    var d := (ids - a) - (ids - b);
    assert x in d;
    assert ids - a == (ids - b) + d;
    assert (ids - b) * d == {};
  }

  /** One pass of a search loop made progress: an id became known, or else the total cost
      dropped, or else it stayed and the queue got shorter. */
  ghost predicate Progress<S(!new), ID(!new)>(ids: set<ID>, cost: S -> nat, seen0: map<ID, S>, queue0: seq<S>, seen: map<ID, S>, queue: seq<S>)
  {
    |ids - seen.Keys| < |ids - seen0.Keys| ||
    (seen.Keys == seen0.Keys &&
     (CostSum(seen, cost) < CostSum(seen0, cost) || (CostSum(seen, cost) == CostSum(seen0, cost) && |queue| < |queue0|)))
  }

  // ----- searchAll -----

  /** Every successor of `r` is known at a cost no higher than its own. */
  ghost predicate Relaxed<S(!new), ID(!new)>(getId: S -> ID, cost: S -> nat, succ: S -> seq<S>, seen: map<ID, S>, r: S)
  {
    forall t :: t in succ(r) ==> getId(t) in seen && cost(seen[getId(t)]) <= cost(t)
  }

  lemma {:induction false} RelaxedMono<S(!new), ID(!new)>(getId: S -> ID, cost: S -> nat, succ: S -> seq<S>, m: map<ID, S>, m2: map<ID, S>, r: S)
    requires Relaxed(getId, cost, succ, m, r) && Improves(cost, m, m2)
    ensures Relaxed(getId, cost, succ, m2, r)
  {
  }

  /** The `addNext` of `searchAll`: a better state for its id replaces the known one and is
      queued; any other is dropped. */
  function AddNext<S(!new), ID(!new)>(getId: S -> ID, cost: S -> nat, seen: map<ID, S>, queue: seq<S>, s: S): (r: (map<ID, S>, seq<S>))
    ensures getId(s) in r.0 && cost(r.0[getId(s)]) <= cost(s) && Improves(cost, seen, r.0)
    ensures r == (seen, queue) || (r == (seen[getId(s) := s], queue + [s]) && IsBetter(seen, cost, getId(s), s))
  {
    var id := getId(s);
    if IsBetter(seen, cost, id, s) then (seen[id := s], queue + [s]) else (seen, queue)
  }

  /** The loop invariant of `searchAll` (with `extra` the states popped but not yet run):
      the start is known, every known state has the id it is filed under and is reachable,
      every queued state is reachable and filed, and every known state is queued, being run
      or already has all its successors known at no higher cost. */
  ghost predicate AllInv<S(!new), ID(!new)>(start: S, getId: S -> ID, cost: S -> nat, succ: S -> seq<S>, ids: set<ID>,
                                seen: map<ID, S>, queue: seq<S>, extra: seq<S>)
  {
    getId(start) in seen && cost(seen[getId(start)]) <= cost(start) && seen.Keys <= ids &&
    (forall q :: q in queue ==> getId(q) in seen && Reachable(succ, start, q)) &&
    (forall k :: k in seen ==> getId(seen[k]) == k && Reachable(succ, start, seen[k])) &&
    (forall k :: k in seen ==> seen[k] in queue || seen[k] in extra || Relaxed(getId, cost, succ, seen, seen[k]))
  }

  /** One `addNext` keeps the invariant. */
  lemma {:induction false} AddNextInv<S(!new), ID(!new)>(start: S, getId: S -> ID, cost: S -> nat, succ: S -> seq<S>, ids: set<ID>,
                          seen: map<ID, S>, queue: seq<S>, extra: seq<S>, s: S)
    requires AllInv(start, getId, cost, succ, ids, seen, queue, extra) && getId(s) in ids
    requires Reachable(succ, start, s)
    ensures AllInv(start, getId, cost, succ, ids, AddNext(getId, cost, seen, queue, s).0,
                   AddNext(getId, cost, seen, queue, s).1, extra)
  {
    var (seen2, queue2) := AddNext(getId, cost, seen, queue, s);
    forall k | k in seen2
      ensures seen2[k] in queue2 || seen2[k] in extra || Relaxed(getId, cost, succ, seen2, seen2[k])
    {
      if k in seen && seen2[k] == seen[k] && seen[k] !in queue && seen[k] !in extra {
        RelaxedMono(getId, cost, succ, seen, seen2, seen[k]);
      }
    }
  }

  /** The invariant of the `run` call in `searchAll` once the successors `done` were
      offered: the search invariant with `state` being run, the known states improved since
      (`seen0`, `queue0`), every offered successor relaxed, and either an id became known,
      the total cost dropped, or nothing changed. */
  ghost predicate ExpandAllInv<S(!new), ID(!new)>(start: S, getId: S -> ID, cost: S -> nat, succ: S -> seq<S>, ids: set<ID>,
                                      state: S, seen0: map<ID, S>, queue0: seq<S>,
                                      seen: map<ID, S>, queue: seq<S>, done: seq<S>)
  {
    AllInv(start, getId, cost, succ, ids, seen, queue, [state]) && Improves(cost, seen0, seen) &&
    (forall t :: t in done ==> getId(t) in seen && cost(seen[getId(t)]) <= cost(t)) &&
    (seen.Keys == seen0.Keys ==> CostSum(seen, cost) <= CostSum(seen0, cost)) &&
    (seen.Keys == seen0.Keys && CostSum(seen, cost) == CostSum(seen0, cost) ==> queue == queue0)
  }

  /** Offering one more successor keeps the invariant of the `run` call. */
  lemma {:induction false} ExpandAllStep<S(!new), ID(!new)>(start: S, getId: S -> ID, cost: S -> nat, succ: S -> seq<S>, ids: set<ID>,
                                         state: S, seen0: map<ID, S>, queue0: seq<S>,
                                         seen: map<ID, S>, queue: seq<S>, done: seq<S>, t: S)
    requires ExpandAllInv(start, getId, cost, succ, ids, state, seen0, queue0, seen, queue, done)
    requires Closed(getId, succ, ids) && getId(state) in ids && Reachable(succ, start, state) && t in succ(state)
    ensures ExpandAllInv(start, getId, cost, succ, ids, state, seen0, queue0,
                         AddNext(getId, cost, seen, queue, t).0, AddNext(getId, cost, seen, queue, t).1, done + [t])
  {
    ReachableStep(succ, start, state, t);
    AddNextInv(start, getId, cost, succ, ids, seen, queue, [state], t);
    var (seen2, queue2) := AddNext(getId, cost, seen, queue, t);
    if getId(t) in seen && seen2 != seen {
      CostSumUpdate(seen, cost, getId(t), t);
    }
  }

  /** `addNext` of `searchAll` applied to each of `xs` in order. */
  function OfferAll<S(!new), ID(!new)>(getId: S -> ID, cost: S -> nat, seen: map<ID, S>, queue: seq<S>, xs: seq<S>): (map<ID, S>, seq<S>)
    decreases |xs|
  {
    if |xs| == 0 then (seen, queue)
    else
      var r := OfferAll(getId, cost, seen, queue, xs[..|xs| - 1]);
      AddNext(getId, cost, r.0, r.1, xs[|xs| - 1])
  }

  /** Offering successors of `state` keeps the invariant of the `run` call. */
  lemma {:induction false} OfferAllInv<S(!new), ID(!new)>(start: S, getId: S -> ID, cost: S -> nat, succ: S -> seq<S>, ids: set<ID>,
                                                         state: S, seen0: map<ID, S>, queue0: seq<S>, done: seq<S>)
    requires Closed(getId, succ, ids) && AllInv(start, getId, cost, succ, ids, seen0, queue0, [state])
    requires getId(state) in ids && Reachable(succ, start, state)
    requires forall t :: t in done ==> t in succ(state)
    ensures var r := OfferAll(getId, cost, seen0, queue0, done);
            ExpandAllInv(start, getId, cost, succ, ids, state, seen0, queue0, r.0, r.1, done)
    decreases |done|
  {
    if |done| > 0 {
      var init, t := done[..|done| - 1], done[|done| - 1];
      assert done == init + [t];
      OfferAllInv(start, getId, cost, succ, ids, state, seen0, queue0, init);
      var r := OfferAll(getId, cost, seen0, queue0, init);
      ExpandAllStep(start, getId, cost, succ, ids, state, seen0, queue0, r.0, r.1, init, t);
    }
  }

  /** `run(state, addNext)` in `searchAll`: every successor of `state` is offered in order.
      Afterwards `state` is relaxed, and either an id became known, the total cost dropped,
      or nothing changed. */
  method ExpandAll<S(!new), ID(!new)>(start: S, getId: S -> ID, cost: S -> nat, succ: S -> seq<S>, ghost ids: set<ID>,
                          state: S, seen0: map<ID, S>, queue0: seq<S>)
    returns (seen: map<ID, S>, queue: seq<S>)
    requires Closed(getId, succ, ids) && AllInv(start, getId, cost, succ, ids, seen0, queue0, [state])
    requires getId(state) in seen0 && Reachable(succ, start, state)
    ensures (seen, queue) == OfferAll(getId, cost, seen0, queue0, succ(state))
    ensures AllInv(start, getId, cost, succ, ids, seen, queue, [])
    ensures Improves(cost, seen0, seen)
    ensures seen.Keys == seen0.Keys ==> CostSum(seen, cost) <= CostSum(seen0, cost)
    ensures seen.Keys == seen0.Keys && CostSum(seen, cost) == CostSum(seen0, cost) ==> queue == queue0
  {
    seen, queue := seen0, queue0;
    var next := succ(state);
    for j := 0 to |next|
      invariant (seen, queue) == OfferAll(getId, cost, seen0, queue0, next[..j])
    {
      assert next[..j + 1][..j] == next[..j];
      var r := AddNext(getId, cost, seen, queue, next[j]);
      seen, queue := r.0, r.1;
    }
    assert next[..|next|] == next;
    OfferAllInv(start, getId, cost, succ, ids, state, seen0, queue0, next);
    ExpandAllDone(start, getId, cost, succ, ids, state, seen0, queue0, seen, queue);
  }

  /** Once every successor was offered, `state` is relaxed and the invariant no longer needs it. */
  lemma {:induction false} ExpandAllDone<S(!new), ID(!new)>(start: S, getId: S -> ID, cost: S -> nat, succ: S -> seq<S>, ids: set<ID>,
                                         state: S, seen0: map<ID, S>, queue0: seq<S>, seen: map<ID, S>, queue: seq<S>)
    requires ExpandAllInv(start, getId, cost, succ, ids, state, seen0, queue0, seen, queue, succ(state))
    ensures AllInv(start, getId, cost, succ, ids, seen, queue, [])
  {
    assert Relaxed(getId, cost, succ, seen, state);
  }

  /** Popping a state moves it from the queue to the states being run; a state that a
      strictly cheaper known one beats can be dropped at once. */
  lemma {:induction false} PopAllInv<S(!new), ID(!new)>(start: S, getId: S -> ID, cost: S -> nat, succ: S -> seq<S>, ids: set<ID>,
                                     seen: map<ID, S>, queue: seq<S>, bfs: bool)
    requires AllInv(start, getId, cost, succ, ids, seen, queue, []) && |queue| > 0
    ensures getId(Pop(queue, bfs).0) in seen && Reachable(succ, start, Pop(queue, bfs).0)
    ensures AllInv(start, getId, cost, succ, ids, seen, Pop(queue, bfs).1, [Pop(queue, bfs).0])
    ensures IsWorse(seen, cost, getId(Pop(queue, bfs).0), Pop(queue, bfs).0) ==>
              AllInv(start, getId, cost, succ, ids, seen, Pop(queue, bfs).1, [])
  {
    PopMembers(queue, bfs);
  }

  /** `searchAll(start, getId, comparator, bfs, run)`: the map of the best states found per
      id. It ends at a fixpoint: the start's id is known at no more than the start's cost,
      every known state is reachable and filed under its own id, and every successor of
      every known state is known at a cost no higher than its own. */
  method SearchAll<S(!new), ID(!new)>(start: S, getId: S -> ID, cost: S -> nat, bfs: bool, succ: S -> seq<S>, ghost ids: set<ID>)
    returns (seen: map<ID, S>)
    requires getId(start) in ids && Closed(getId, succ, ids)
    ensures getId(start) in seen && cost(seen[getId(start)]) <= cost(start)
    ensures forall k :: k in seen ==> getId(seen[k]) == k && Reachable(succ, start, seen[k])
    ensures forall k :: k in seen ==> Relaxed(getId, cost, succ, seen, seen[k])
  {
    seen := map[getId(start) := start];
    var queue := [start];
    AllInit(start, getId, cost, succ, ids);
    while |queue| > 0
      invariant AllInv(start, getId, cost, succ, ids, seen, queue, [])
      decreases |ids - seen.Keys|, CostSum(seen, cost), |queue|
    {
      seen, queue := AllRound(start, getId, cost, bfs, succ, ids, seen, queue);
    }
    AllFinal(start, getId, cost, succ, ids, seen);
  }

  /** The search starts with only the start state known and queued. */
  lemma {:induction false} AllInit<S(!new), ID(!new)>(start: S, getId: S -> ID, cost: S -> nat, succ: S -> seq<S>, ids: set<ID>)
    requires getId(start) in ids
    ensures AllInv(start, getId, cost, succ, ids, map[getId(start) := start], [start], [])
  {
    ReachableStart(succ, start);
  }

  /** With the queue empty, the invariant is the promise of `searchAll`. */
  lemma {:induction false} AllFinal<S(!new), ID(!new)>(start: S, getId: S -> ID, cost: S -> nat, succ: S -> seq<S>, ids: set<ID>, seen: map<ID, S>)
    requires AllInv(start, getId, cost, succ, ids, seen, [], [])
    ensures getId(start) in seen && cost(seen[getId(start)]) <= cost(start)
    ensures forall k :: k in seen ==> getId(seen[k]) == k && Reachable(succ, start, seen[k])
    ensures forall k :: k in seen ==> Relaxed(getId, cost, succ, seen, seen[k])
  {
  }

  /** One pass of the `searchAll` loop: pop a state, skip it when a strictly cheaper one with
      its id is known, and run it otherwise. */
  method AllRound<S(!new), ID(!new)>(start: S, getId: S -> ID, cost: S -> nat, bfs: bool, succ: S -> seq<S>, ghost ids: set<ID>,
                                     seen0: map<ID, S>, queue0: seq<S>)
    returns (seen: map<ID, S>, queue: seq<S>)
    requires Closed(getId, succ, ids) && AllInv(start, getId, cost, succ, ids, seen0, queue0, []) && |queue0| > 0
    ensures AllInv(start, getId, cost, succ, ids, seen, queue, [])
    ensures Progress(ids, cost, seen0, queue0, seen, queue)
  {
    PopAllInv(start, getId, cost, succ, ids, seen0, queue0, bfs);
    var (state, rest) := Pop(queue0, bfs);
    seen, queue := seen0, rest;
    if IsWorse(seen, cost, getId(state), state) {
      return;
    }
    seen, queue := ExpandAll(start, getId, cost, succ, ids, state, seen, queue);
    if seen.Keys != seen0.Keys {
      FewerUnknown(ids, seen0.Keys, seen.Keys);
    }
  }

  // ----- searchBest -----

  /** Every successor of `r` is a target no cheaper than `min`, or a known state no cheaper
      than the known one. */
  ghost predicate RelaxedBest<S(!new), ID(!new)>(getId: S -> ID, cost: S -> nat, succ: S -> seq<S>, target: ID,
                                     seen: map<ID, S>, min: Option<S>, r: S)
  {
    forall t :: t in succ(r) ==>
      if getId(t) == target then min.Some? && cost(min.value) <= cost(t)
      else getId(t) in seen && cost(seen[getId(t)]) <= cost(t)
  }

  /** `r` is not strictly cheaper than the best target found: the search skips it. */
  predicate Pruned<S(!new)>(cost: S -> nat, min: Option<S>, r: S)
  {
    min.Some? && cost(min.value) <= cost(r)
  }

  /** The best target only gets cheaper. */
  ghost predicate MinImproves<S(!new)>(cost: S -> nat, min: Option<S>, min2: Option<S>)
  {
    min.Some? ==> min2.Some? && cost(min2.value) <= cost(min.value)
  }

  /** The `addNext` of `searchBest`: a target-id state only updates `min` when strictly cheaper;
      any other state is handled as in `searchAll`. */
  function AddNextBest<S(!new), ID(!new)>(getId: S -> ID, cost: S -> nat, target: ID, seen: map<ID, S>, queue: seq<S>,
                              min: Option<S>, s: S): (r: (map<ID, S>, seq<S>, Option<S>))
    ensures getId(s) == target ==> r.0 == seen && r.1 == queue && r.2.Some? && cost(r.2.value) <= cost(s)
    ensures getId(s) == target ==> r.2 == min || r.2 == Some(s)
    ensures getId(s) != target ==> r.2 == min && (r.0, r.1) == AddNext(getId, cost, seen, queue, s)
  {
    var id := getId(s);
    if id == target then
      (seen, queue, if min.None? || cost(s) < cost(min.value) then Some(s) else min)
    else if IsBetter(seen, cost, id, s) then (seen[id := s], queue + [s], min)
    else (seen, queue, min)
  }

  /** The loop invariant of `searchBest`: as for `searchAll`, except that a known state may
      instead be pruned by `min`, `min` is a reachable target, and the target id is only
      known when it is the start's. */
  ghost predicate BestInv<S(!new), ID(!new)>(start: S, getId: S -> ID, cost: S -> nat, succ: S -> seq<S>, ids: set<ID>, target: ID,
                                 seen: map<ID, S>, queue: seq<S>, min: Option<S>, extra: seq<S>)
  {
    getId(start) in seen && cost(seen[getId(start)]) <= cost(start) && seen.Keys <= ids &&
    (target in seen ==> getId(start) == target && seen[target] == start) &&
    (min.Some? ==> getId(min.value) == target && ReachableInSteps(succ, start, min.value)) &&
    (forall q :: q in queue ==> getId(q) in seen && Reachable(succ, start, q)) &&
    (forall k :: k in seen ==> getId(seen[k]) == k && Reachable(succ, start, seen[k])) &&
    (forall k :: k in seen ==>
       seen[k] in queue || seen[k] in extra || Pruned(cost, min, seen[k]) ||
       RelaxedBest(getId, cost, succ, target, seen, min, seen[k]))
  }

  lemma {:induction false} RelaxedBestMono<S(!new), ID(!new)>(getId: S -> ID, cost: S -> nat, succ: S -> seq<S>, target: ID,
                               m: map<ID, S>, m2: map<ID, S>, min: Option<S>, min2: Option<S>, r: S)
    requires RelaxedBest(getId, cost, succ, target, m, min, r) && Improves(cost, m, m2) && MinImproves(cost, min, min2)
    ensures RelaxedBest(getId, cost, succ, target, m2, min2, r)
  {
  }

  /** One `addNext` keeps the invariant. */
  lemma {:induction false} AddNextBestInv<S(!new), ID(!new)>(start: S, getId: S -> ID, cost: S -> nat, succ: S -> seq<S>, ids: set<ID>, target: ID,
                              seen: map<ID, S>, queue: seq<S>, min: Option<S>, extra: seq<S>, s: S)
    requires BestInv(start, getId, cost, succ, ids, target, seen, queue, min, extra) && getId(s) in ids
    requires Reachable(succ, start, s) && ReachableInSteps(succ, start, s)
    ensures var r := AddNextBest(getId, cost, target, seen, queue, min, s);
            BestInv(start, getId, cost, succ, ids, target, r.0, r.1, r.2, extra) &&
            Improves(cost, seen, r.0) && MinImproves(cost, min, r.2)
  {
    var (seen2, queue2, min2) := AddNextBest(getId, cost, target, seen, queue, min, s);
    forall k | k in seen2
      ensures seen2[k] in queue2 || seen2[k] in extra || Pruned(cost, min2, seen2[k]) ||
              RelaxedBest(getId, cost, succ, target, seen2, min2, seen2[k])
    {
      if k in seen && seen2[k] == seen[k] && seen[k] !in queue && seen[k] !in extra && !Pruned(cost, min2, seen[k]) {
        RelaxedBestMono(getId, cost, succ, target, seen, seen2, min, min2, seen[k]);
      }
    }
  }

  /** The invariant of the `run` call in `searchBest` once the successors `done` were offered. */
  ghost predicate ExpandBestInv<S(!new), ID(!new)>(start: S, getId: S -> ID, cost: S -> nat, succ: S -> seq<S>, ids: set<ID>,
                                       target: ID, state: S, seen0: map<ID, S>, queue0: seq<S>, min0: Option<S>,
                                       seen: map<ID, S>, queue: seq<S>, min: Option<S>, done: seq<S>)
  {
    BestInv(start, getId, cost, succ, ids, target, seen, queue, min, [state]) &&
    Improves(cost, seen0, seen) && MinImproves(cost, min0, min) &&
    (forall t :: t in done ==>
       if getId(t) == target then min.Some? && cost(min.value) <= cost(t)
       else getId(t) in seen && cost(seen[getId(t)]) <= cost(t)) &&
    (seen.Keys == seen0.Keys ==> CostSum(seen, cost) <= CostSum(seen0, cost)) &&
    (seen.Keys == seen0.Keys && CostSum(seen, cost) == CostSum(seen0, cost) ==> queue == queue0)
  }

  /** Offering one more successor keeps the invariant of the `run` call. */
  lemma {:induction false} ExpandBestStep<S(!new), ID(!new)>(start: S, getId: S -> ID, cost: S -> nat, succ: S -> seq<S>, ids: set<ID>,
                                          target: ID, state: S, seen0: map<ID, S>, queue0: seq<S>, min0: Option<S>,
                                          seen: map<ID, S>, queue: seq<S>, min: Option<S>, done: seq<S>, t: S)
    requires ExpandBestInv(start, getId, cost, succ, ids, target, state, seen0, queue0, min0, seen, queue, min, done)
    requires Closed(getId, succ, ids) && getId(state) in ids && Reachable(succ, start, state) && t in succ(state)
    ensures var r := AddNextBest(getId, cost, target, seen, queue, min, t);
            ExpandBestInv(start, getId, cost, succ, ids, target, state, seen0, queue0, min0, r.0, r.1, r.2, done + [t])
  {
    ReachableStep(succ, start, state, t);
    AddNextBestInv(start, getId, cost, succ, ids, target, seen, queue, min, [state], t);
    var (seen2, queue2, min2) := AddNextBest(getId, cost, target, seen, queue, min, t);
    if getId(t) in seen && seen2 != seen {
      CostSumUpdate(seen, cost, getId(t), t);
    }
  }

  /** Once every successor was offered, `state` is relaxed and the invariant no longer needs it. */
  lemma {:induction false} ExpandBestDone<S(!new), ID(!new)>(start: S, getId: S -> ID, cost: S -> nat, succ: S -> seq<S>, ids: set<ID>,
                                          target: ID, state: S, seen0: map<ID, S>, queue0: seq<S>, min0: Option<S>,
                                          seen: map<ID, S>, queue: seq<S>, min: Option<S>)
    requires ExpandBestInv(start, getId, cost, succ, ids, target, state, seen0, queue0, min0, seen, queue, min, succ(state))
    ensures BestInv(start, getId, cost, succ, ids, target, seen, queue, min, [])
  {
    assert RelaxedBest(getId, cost, succ, target, seen, min, state);
  }

  /** `addNext` of `searchBest` applied to each of `xs` in order. */
  function OfferBest<S(!new), ID(!new)>(getId: S -> ID, cost: S -> nat, target: ID, seen: map<ID, S>, queue: seq<S>,
                                        min: Option<S>, xs: seq<S>): (map<ID, S>, seq<S>, Option<S>)
    decreases |xs|
  {
    if |xs| == 0 then (seen, queue, min)
    else
      var r := OfferBest(getId, cost, target, seen, queue, min, xs[..|xs| - 1]);
      AddNextBest(getId, cost, target, r.0, r.1, r.2, xs[|xs| - 1])
  }

  /** Offering successors of `state` keeps the invariant of the `run` call. */
  lemma {:induction false} OfferBestInv<S(!new), ID(!new)>(start: S, getId: S -> ID, cost: S -> nat, succ: S -> seq<S>, ids: set<ID>,
                                                          target: ID, state: S, seen0: map<ID, S>, queue0: seq<S>, min0: Option<S>,
                                                          done: seq<S>)
    requires Closed(getId, succ, ids) && BestInv(start, getId, cost, succ, ids, target, seen0, queue0, min0, [state])
    requires getId(state) in ids && Reachable(succ, start, state)
    requires forall t :: t in done ==> t in succ(state)
    ensures var r := OfferBest(getId, cost, target, seen0, queue0, min0, done);
            ExpandBestInv(start, getId, cost, succ, ids, target, state, seen0, queue0, min0, r.0, r.1, r.2, done)
    decreases |done|
  {
    if |done| > 0 {
      var init, t := done[..|done| - 1], done[|done| - 1];
      assert done == init + [t];
      OfferBestInv(start, getId, cost, succ, ids, target, state, seen0, queue0, min0, init);
      var r := OfferBest(getId, cost, target, seen0, queue0, min0, init);
      ExpandBestStep(start, getId, cost, succ, ids, target, state, seen0, queue0, min0, r.0, r.1, r.2, init, t);
    }
  }

  /** `run(state, addNext)` in `searchBest`: every successor of `state` is offered in order.
      Afterwards `state` is accounted for, and either an id became known, the total cost
      dropped, or the known states and the queue are as before. */
  method ExpandBest<S(!new), ID(!new)>(start: S, getId: S -> ID, cost: S -> nat, succ: S -> seq<S>, ghost ids: set<ID>, target: ID,
                           state: S, seen0: map<ID, S>, queue0: seq<S>, min0: Option<S>)
    returns (seen: map<ID, S>, queue: seq<S>, min: Option<S>)
    requires Closed(getId, succ, ids) && BestInv(start, getId, cost, succ, ids, target, seen0, queue0, min0, [state])
    requires getId(state) in seen0 && Reachable(succ, start, state)
    ensures (seen, queue, min) == OfferBest(getId, cost, target, seen0, queue0, min0, succ(state))
    ensures BestInv(start, getId, cost, succ, ids, target, seen, queue, min, [])
    ensures Improves(cost, seen0, seen)
    ensures seen.Keys == seen0.Keys ==> CostSum(seen, cost) <= CostSum(seen0, cost)
    ensures seen.Keys == seen0.Keys && CostSum(seen, cost) == CostSum(seen0, cost) ==> queue == queue0
  {
    seen, queue, min := seen0, queue0, min0;
    var next := succ(state);
    for j := 0 to |next|
      invariant (seen, queue, min) == OfferBest(getId, cost, target, seen0, queue0, min0, next[..j])
    {
      assert next[..j + 1][..j] == next[..j];
      var r := AddNextBest(getId, cost, target, seen, queue, min, next[j]);
      seen, queue, min := r.0, r.1, r.2;
    }
    assert next[..|next|] == next;
    OfferBestInv(start, getId, cost, succ, ids, target, state, seen0, queue0, min0, next);
    ExpandBestDone(start, getId, cost, succ, ids, target, state, seen0, queue0, min0, seen, queue, min);
  }

  /** Popping a state moves it from the queue to the states being run; a state that `min`
      prunes, or that a strictly cheaper known one beats, can be dropped at once. */
  lemma {:induction false} PopBestInv<S(!new), ID(!new)>(start: S, getId: S -> ID, cost: S -> nat, succ: S -> seq<S>, ids: set<ID>, target: ID,
                                      seen: map<ID, S>, queue: seq<S>, min: Option<S>, bfs: bool)
    requires BestInv(start, getId, cost, succ, ids, target, seen, queue, min, []) && |queue| > 0
    ensures getId(Pop(queue, bfs).0) in seen && Reachable(succ, start, Pop(queue, bfs).0)
    ensures BestInv(start, getId, cost, succ, ids, target, seen, Pop(queue, bfs).1, min, [Pop(queue, bfs).0])
    ensures Pruned(cost, min, Pop(queue, bfs).0) || IsWorse(seen, cost, getId(Pop(queue, bfs).0), Pop(queue, bfs).0) ==>
              BestInv(start, getId, cost, succ, ids, target, seen, Pop(queue, bfs).1, min, [])
  {
    PopMembers(queue, bfs);
  }

  /** `searchBest(start, target, getId, comparator, bfs, run)`: the best-state map and the
      cheapest target found. A target-id state is never stored or queued; `min`, when
      present, is a target reached in one step or more; and at the end every known state is
      either no cheaper than `min` or has every successor accounted for: a target no cheaper
      than `min`, or a known state no cheaper than the known one. */
  method SearchBest<S(!new), ID(!new)>(start: S, target: ID, getId: S -> ID, cost: S -> nat, bfs: bool, succ: S -> seq<S>,
                           ghost ids: set<ID>)
    returns (seen: map<ID, S>, min: Option<S>)
    requires getId(start) in ids && Closed(getId, succ, ids)
    ensures getId(start) in seen && cost(seen[getId(start)]) <= cost(start)
    ensures target in seen ==> getId(start) == target && seen[target] == start
    ensures min.Some? ==> getId(min.value) == target && ReachableInSteps(succ, start, min.value)
    ensures forall k :: k in seen ==> getId(seen[k]) == k && Reachable(succ, start, seen[k])
    ensures forall k :: k in seen ==>
              Pruned(cost, min, seen[k]) || RelaxedBest(getId, cost, succ, target, seen, min, seen[k])
  {
    seen := map[getId(start) := start];
    min := None;
    var queue := [start];
    BestInit(start, getId, cost, succ, ids, target);
    while |queue| > 0
      invariant BestInv(start, getId, cost, succ, ids, target, seen, queue, min, [])
      decreases |ids - seen.Keys|, CostSum(seen, cost), |queue|
    {
      seen, queue, min := BestRound(start, target, getId, cost, bfs, succ, ids, seen, queue, min);
    }
    BestFinal(start, getId, cost, succ, ids, target, seen, min);
  }

  /** The search starts with only the start state known and queued. */
  lemma {:induction false} BestInit<S(!new), ID(!new)>(start: S, getId: S -> ID, cost: S -> nat, succ: S -> seq<S>, ids: set<ID>, target: ID)
    requires getId(start) in ids
    ensures BestInv(start, getId, cost, succ, ids, target, map[getId(start) := start], [start], None, [])
  {
    ReachableStart(succ, start);
  }

  /** With the queue empty, the invariant is the promise of `searchBest`. */
  lemma {:induction false} BestFinal<S(!new), ID(!new)>(start: S, getId: S -> ID, cost: S -> nat, succ: S -> seq<S>, ids: set<ID>, target: ID,
                                     seen: map<ID, S>, min: Option<S>)
    requires BestInv(start, getId, cost, succ, ids, target, seen, [], min, [])
    ensures getId(start) in seen && cost(seen[getId(start)]) <= cost(start)
    ensures target in seen ==> getId(start) == target && seen[target] == start
    ensures min.Some? ==> getId(min.value) == target && ReachableInSteps(succ, start, min.value)
    ensures forall k :: k in seen ==> getId(seen[k]) == k && Reachable(succ, start, seen[k])
    ensures forall k :: k in seen ==>
              Pruned(cost, min, seen[k]) || RelaxedBest(getId, cost, succ, target, seen, min, seen[k])
  {
  }

  /** One pass of the `searchBest` loop: pop a state, skip it when no cheaper than `min` or
      when a strictly cheaper one with its id is known, and run it otherwise. */
  method BestRound<S(!new), ID(!new)>(start: S, target: ID, getId: S -> ID, cost: S -> nat, bfs: bool, succ: S -> seq<S>,
                                      ghost ids: set<ID>, seen0: map<ID, S>, queue0: seq<S>, min0: Option<S>)
    returns (seen: map<ID, S>, queue: seq<S>, min: Option<S>)
    requires Closed(getId, succ, ids) && BestInv(start, getId, cost, succ, ids, target, seen0, queue0, min0, []) && |queue0| > 0
    ensures BestInv(start, getId, cost, succ, ids, target, seen, queue, min, [])
    ensures Progress(ids, cost, seen0, queue0, seen, queue)
  {
    PopBestInv(start, getId, cost, succ, ids, target, seen0, queue0, min0, bfs);
    var (state, rest) := Pop(queue0, bfs);
    seen, queue, min := seen0, rest, min0;
    if Pruned(cost, min, state) {
      return;
    }
    if IsWorse(seen, cost, getId(state), state) {
      return;
    }
    seen, queue, min := ExpandBest(start, getId, cost, succ, ids, target, state, seen, queue, min);
    if seen.Keys != seen0.Keys {
      FewerUnknown(ids, seen0.Keys, seen.Keys);
    }
  }

  // ----- searchBestSimple and searchAllSimple -----

  /** The successors of a (state, steps) pair: each successor id, one step further. */
  function Lift<ID(!new)>(succ: ID -> seq<ID>, p: (ID, nat)): (r: seq<(ID, nat)>)
    ensures |r| == |succ(p.0)| && forall i :: 0 <= i < |r| ==> r[i] == (succ(p.0)[i], p.1 + 1)
  {
    seq(|succ(p.0)|, i requires 0 <= i < |succ(p.0)| => (succ(p.0)[i], p.1 + 1))
  }

  /** The id of a (state, steps) pair. */
  function Fst<ID>(p: (ID, nat)): ID { p.0 }

  /** The step count of a (state, steps) pair: the default comparator orders by it. */
  function Steps<ID>(p: (ID, nat)): nat { p.1 }

  /** `Lift` as the successor function of the lifted search. */
  function Lifted<ID(!new)>(succ: ID -> seq<ID>): ((ID, nat)) -> seq<(ID, nat)>
  {
    p => Lift(succ, p)
  }

  /** A successor of a lifted pair is a successor id one step further, and every successor id
      appears so. */
  lemma {:induction false} LiftMembers<ID(!new)>(succ: ID -> seq<ID>, p: (ID, nat), t: (ID, nat))
    ensures t in Lift(succ, p) <==> t.0 in succ(p.0) && t.1 == p.1 + 1
  {
    if t.0 in succ(p.0) && t.1 == p.1 + 1 {
      var i :| 0 <= i < |succ(p.0)| && succ(p.0)[i] == t.0;
      assert Lift(succ, p)[i] == t;
    }
  }

  /** A walk of ids: each is a successor of the one before. */
  ghost predicate IdsClosed<ID(!new)>(succ: ID -> seq<ID>, ids: set<ID>)
  {
    forall x, y :: x in ids && y in succ(x) ==> y in ids
  }

  lemma {:induction false} LiftClosed<ID(!new)>(succ: ID -> seq<ID>, ids: set<ID>)
    requires IdsClosed(succ, ids)
    ensures Closed(Fst, Lifted(succ), ids)
  {
    forall s: (ID, nat), t: (ID, nat) | s.0 in ids && t in Lift(succ, s)
      ensures t.0 in ids
    {
      LiftMembers(succ, s, t);
    }
  }

  /** A walk of `n` steps leads from `start` to `k`. */
  ghost predicate WalkOf<ID(!new)>(succ: ID -> seq<ID>, start: ID, k: ID, n: nat)
  {
    exists p :: Path(succ, p) && p[0] == start && p[|p| - 1] == k && |p| == n + 1
  }

  /** A lifted path from (start, 0) counts its steps and projects to a walk of ids. */
  lemma {:induction false} LiftedPath<ID(!new)>(succ: ID -> seq<ID>, start: ID, q: seq<(ID, nat)>)
    requires Path(Lifted(succ), q) && q[0] == (start, 0)
    ensures q[|q| - 1].1 == |q| - 1 && WalkOf(succ, start, q[|q| - 1].0, |q| - 1)
    decreases |q|
  {
    var lift := Lifted(succ);
    if |q| == 1 {
      assert Path(succ, [start]);
    } else {
      var q' := q[..|q| - 1];
      assert Path(lift, q') by {
        forall i | 0 <= i < |q'| - 1
          ensures q'[i + 1] in lift(q'[i])
        {
          assert q'[i] == q[i] && q'[i + 1] == q[i + 1];
        }
      }
      LiftedPath(succ, start, q');
      var last, prev := q[|q| - 1], q[|q| - 2];
      assert last in lift(prev);
      LiftMembers(succ, prev, last);
      var p :| Path(succ, p) && p[0] == start && p[|p| - 1] == prev.0 && |p| == |q| - 1;
      var p2 := p + [last.0];
      forall i | 0 <= i < |p2| - 1
        ensures p2[i + 1] in succ(p2[i])
      {
        if i < |p| - 1 {
          assert p2[i] == p[i] && p2[i + 1] == p[i + 1];
        }
      }
      assert Path(succ, p2);
    }
  }

  /** Reachable lifted states carry the length of a walk to their id. */
  lemma {:induction false} LiftedReachable<ID(!new)>(succ: ID -> seq<ID>, start: ID, s: (ID, nat))
    requires Reachable(Lifted(succ), (start, 0), s)
    ensures WalkOf(succ, start, s.0, s.1)
  {
    var q :| Path(Lifted(succ), q) && q[0] == (start, 0) && q[|q| - 1] == s;
    LiftedPath(succ, start, q);
  }

  /** At a relaxation fixpoint of the lifted search, every id a walk from `start` reaches
      is known with at most that walk's number of steps. */
  lemma {:induction false} FixpointWalks<ID(!new)>(succ: ID -> seq<ID>, start: ID, seen: map<ID, (ID, nat)>, p: seq<ID>, i: nat)
    requires start in seen && seen[start].1 == 0
    requires forall k :: k in seen ==> seen[k].0 == k
    requires forall k :: k in seen ==>
               Relaxed(Fst, Steps, Lifted(succ), seen, seen[k])
    requires Path(succ, p) && p[0] == start && i < |p|
    ensures p[i] in seen && seen[p[i]].1 <= i
  {
    if i > 0 {
      FixpointWalks(succ, start, seen, p, i - 1);
      var s := seen[p[i - 1]];
      var t := (p[i], s.1 + 1);
      LiftMembers(succ, s, t);
      assert t in Lifted(succ)(s);
      assert p[i - 1] in seen && s.1 <= i - 1;
      assert Relaxed(Fst, Steps, Lifted(succ), seen, s);
      assert Fst(t) == p[i];
    }
  }

  /** The known lifted states become walk lengths. */
  lemma {:induction false} SeenWalks<ID(!new)>(succ: ID -> seq<ID>, start: ID, seen: map<ID, (ID, nat)>)
    requires forall k :: k in seen ==> Fst(seen[k]) == k && Reachable(Lifted(succ), (start, 0), seen[k])
    ensures forall k :: k in seen ==> seen[k].0 == k && WalkOf(succ, start, k, seen[k].1)
  {
    forall k | k in seen
      ensures seen[k].0 == k && WalkOf(succ, start, k, seen[k].1)
    {
      LiftedReachable(succ, start, seen[k]);
    }
  }

  /** At a fixpoint of the lifted search, every walk from `start` is at least as long as the
      known count of its last id. */
  lemma {:induction false} FixpointBounds<ID(!new)>(succ: ID -> seq<ID>, start: ID, seen: map<ID, (ID, nat)>)
    requires start in seen && seen[start].1 == 0
    requires forall k :: k in seen ==> seen[k].0 == k
    requires forall k :: k in seen ==> Relaxed(Fst, Steps, Lifted(succ), seen, seen[k])
    ensures forall p :: Path(succ, p) && p[0] == start ==> p[|p| - 1] in seen && seen[p[|p| - 1]].1 <= |p| - 1
  {
    forall p | Path(succ, p) && p[0] == start
      ensures p[|p| - 1] in seen && seen[p[|p| - 1]].1 <= |p| - 1
    {
      FixpointWalks(succ, start, seen, p, |p| - 1);
    }
  }

  /** `searchAllSimple(start, bfs, run)` with the default comparator (by step count): the map
      holds, for every id reachable from `start`, the length of a shortest walk to it (in
      BFS and DFS order alike). */
  method SearchAllSimple<ID(!new)>(start: ID, bfs: bool, succ: ID -> seq<ID>, ghost ids: set<ID>)
    returns (seen: map<ID, (ID, nat)>)
    requires start in ids && IdsClosed(succ, ids)
    ensures start in seen && seen[start] == (start, 0)
    ensures forall k :: k in seen ==> seen[k].0 == k && WalkOf(succ, start, k, seen[k].1)
    ensures forall p :: Path(succ, p) && p[0] == start ==> p[|p| - 1] in seen && seen[p[|p| - 1]].1 <= |p| - 1
  {
    LiftClosed(succ, ids);
    seen := SearchAll((start, 0), Fst, Steps, bfs, Lifted(succ), ids);
    SeenWalks(succ, start, seen);
    FixpointBounds(succ, start, seen);
  }

  /** The claim behind `searchBestSimple`: along a walk from `start`, each step `i` is either
      already beaten by `min` or known with at most `i` steps (and is the target only at the
      start). */
  lemma {:induction false} BestWalks<ID(!new)>(succ: ID -> seq<ID>, start: ID, target: ID, seen: map<ID, (ID, nat)>,
                                         min: Option<(ID, nat)>, p: seq<ID>, i: nat)
    requires start in seen && seen[start].1 == 0
    requires forall k :: k in seen ==> seen[k].0 == k
    requires forall k :: k in seen ==>
               Pruned(Steps, min, seen[k]) ||
               RelaxedBest(Fst, Steps, Lifted(succ), target, seen, min, seen[k])
    requires Path(succ, p) && p[0] == start && i < |p|
    ensures (min.Some? && min.value.1 <= i) || (p[i] in seen && seen[p[i]].1 <= i && (i == 0 || p[i] != target))
  {
    if i > 0 {
      BestWalks(succ, start, target, seen, min, p, i - 1);
      if !(min.Some? && min.value.1 <= i - 1) {
        var s := seen[p[i - 1]];
        var t := (p[i], s.1 + 1);
        LiftMembers(succ, s, t);
        assert t in Lifted(succ)(s);
        assert p[i - 1] in seen && s.0 == p[i - 1] && s.1 <= i - 1;
        assert !Pruned(Steps, min, s);
        assert RelaxedBest(Fst, Steps, Lifted(succ), target, seen, min, s);
        assert Fst(t) == p[i];
      }
    }
  }

  /** A best target of the lifted search is the target reached by a walk of one step or more. */
  lemma {:induction false} MinWalk<ID(!new)>(succ: ID -> seq<ID>, start: ID, target: ID, min: Option<(ID, nat)>)
    requires min.Some? ==> Fst(min.value) == target && ReachableInSteps(Lifted(succ), (start, 0), min.value)
    ensures min.Some? ==> min.value.0 == target && min.value.1 >= 1 && WalkOf(succ, start, target, min.value.1)
  {
    if min.Some? {
      var r :| Reachable(Lifted(succ), (start, 0), r) && min.value in Lifted(succ)(r);
      ReachableStep(Lifted(succ), (start, 0), r, min.value);
      LiftedReachable(succ, start, min.value);
      LiftMembers(succ, r, min.value);
    }
  }

  /** Every walk of one step or more to the target is at least as long as the best one found. */
  lemma {:induction false} BestBounds<ID(!new)>(succ: ID -> seq<ID>, start: ID, target: ID, seen: map<ID, (ID, nat)>, min: Option<(ID, nat)>)
    requires start in seen && seen[start].1 == 0
    requires forall k :: k in seen ==> seen[k].0 == k
    requires forall k :: k in seen ==>
               Pruned(Steps, min, seen[k]) ||
               RelaxedBest(Fst, Steps, Lifted(succ), target, seen, min, seen[k])
    ensures forall p :: Path(succ, p) && p[0] == start && |p| >= 2 && p[|p| - 1] == target ==>
              min.Some? && min.value.1 <= |p| - 1
  {
    forall p | Path(succ, p) && p[0] == start && |p| >= 2 && p[|p| - 1] == target
      ensures min.Some? && min.value.1 <= |p| - 1
    {
      BestWalks(succ, start, target, seen, min, p, |p| - 1);
    }
  }

  /** `searchBestSimple(start, target, bfs, run)` with the default comparator: `min` is
      present exactly when a walk of one step or more leads from `start` to `target`, and
      then it holds the length of a shortest such walk. */
  method SearchBestSimple<ID(!new)>(start: ID, target: ID, bfs: bool, succ: ID -> seq<ID>, ghost ids: set<ID>)
    returns (seen: map<ID, (ID, nat)>, min: Option<(ID, nat)>)
    requires start in ids && IdsClosed(succ, ids)
    ensures start in seen && seen[start] == (start, 0)
    ensures forall k :: k in seen ==> seen[k].0 == k && WalkOf(succ, start, k, seen[k].1)
    ensures min.Some? ==> min.value.0 == target && min.value.1 >= 1 && WalkOf(succ, start, target, min.value.1)
    ensures forall p :: Path(succ, p) && p[0] == start && |p| >= 2 && p[|p| - 1] == target ==>
              min.Some? && min.value.1 <= |p| - 1
  {
    LiftClosed(succ, ids);
    seen, min := SearchBest((start, 0), target, Fst, Steps, bfs, Lifted(succ), ids);
    SeenWalks(succ, start, seen);
    MinWalk(succ, start, target, min);
    BestBounds(succ, start, target, seen, min);
  }

  // ----- searchNoRepeats -----

  /** The loop invariant of `searchNoRepeats` by id (with `running` the states popped but not
      yet run): the start is filed under its id, every filed state is reachable and under its
      own id, the states run, being run and queued are the filed states, each exactly once,
      and every state run has all its successors' ids filed. */
  ghost predicate NoRepeatsInv<S(!new), ID(!new)>(start: S, getId: S -> ID, succ: S -> seq<S>, ids: set<ID>,
                                      seen: map<ID, S>, queue: seq<S>, ran: seq<S>, running: seq<S>)
  {
    getId(start) in seen && seen[getId(start)] == start && seen.Keys <= ids &&
    (forall k :: k in seen ==> getId(seen[k]) == k && Reachable(succ, start, seen[k])) &&
    multiset(ran + running + queue) == multiset(seen.Values) &&
    (forall r, t :: r in ran && t in succ(r) ==> getId(t) in seen)
  }

  /** The `addNext` of `searchNoRepeats` by id: a state whose id is unseen is filed and queued
      (answering true); any other is dropped (answering false). */
  function AddNextNew<S(!new), ID(!new)>(getId: S -> ID, seen: map<ID, S>, queue: seq<S>, s: S): (r: (map<ID, S>, seq<S>, bool))
    ensures r.2 <==> getId(s) !in seen
    ensures getId(s) in r.0 && seen.Keys <= r.0.Keys && (r.0.Keys == seen.Keys ==> r.1 == queue)
  {
    var id := getId(s);
    if id !in seen then (seen[id := s], queue + [s], true) else (seen, queue, false)
  }

  /** A queued state is filed, so it is reachable and its id is known. */
  lemma {:induction false} QueuedFiled<S(!new), ID(!new)>(start: S, getId: S -> ID, succ: S -> seq<S>, ids: set<ID>,
                                       seen: map<ID, S>, queue: seq<S>, ran: seq<S>, running: seq<S>, s: S)
    requires NoRepeatsInv(start, getId, succ, ids, seen, queue, ran, running) && s in queue
    ensures getId(s) in seen && getId(s) in ids && Reachable(succ, start, s)
  {
    assert s in multiset(ran + running + queue);
    assert s in seen.Values;
  }

  /** One `addNext` keeps the invariant. */
  lemma {:induction false} AddNextNewInv<S(!new), ID(!new)>(start: S, getId: S -> ID, succ: S -> seq<S>, ids: set<ID>,
                                         seen: map<ID, S>, queue: seq<S>, ran: seq<S>, running: seq<S>, t: S)
    requires NoRepeatsInv(start, getId, succ, ids, seen, queue, ran, running)
    requires getId(t) in ids && Reachable(succ, start, t)
    ensures var r := AddNextNew(getId, seen, queue, t);
            NoRepeatsInv(start, getId, succ, ids, r.0, r.1, ran, running)
  {
    if getId(t) !in seen {
      var seen2 := seen[getId(t) := t];
      assert t !in seen.Values;
      assert seen2.Values == seen.Values + {t} by {
        forall v | v in seen2.Values
          ensures v in seen.Values + {t}
        {
          var k :| k in seen2 && seen2[k] == v;
          if k != getId(t) {
            assert seen[k] == v;
          }
        }
        assert seen2[getId(t)] == t;
        forall v | v in seen.Values
          ensures v in seen2.Values
        {
          var k :| k in seen && seen[k] == v;
          assert seen2[k] == v;
        }
      }
      assert ran + running + (queue + [t]) == (ran + running + queue) + [t];
    }
  }

  /** The invariant of the `run` call in `searchNoRepeats` by id once the successors `done`
      were offered. */
  ghost predicate ExpandNewInv<S(!new), ID(!new)>(start: S, getId: S -> ID, succ: S -> seq<S>, ids: set<ID>, ran: seq<S>,
                                      state: S, seen0: map<ID, S>, queue0: seq<S>,
                                      seen: map<ID, S>, queue: seq<S>, done: seq<S>)
  {
    NoRepeatsInv(start, getId, succ, ids, seen, queue, ran, [state]) &&
    seen0.Keys <= seen.Keys && (seen.Keys == seen0.Keys ==> queue == queue0) &&
    (forall t :: t in done ==> getId(t) in seen)
  }

  /** Offering one more successor keeps the invariant of the `run` call. */
  lemma {:induction false} ExpandNewStep<S(!new), ID(!new)>(start: S, getId: S -> ID, succ: S -> seq<S>, ids: set<ID>, ran: seq<S>,
                                         state: S, seen0: map<ID, S>, queue0: seq<S>,
                                         seen: map<ID, S>, queue: seq<S>, done: seq<S>, t: S)
    requires ExpandNewInv(start, getId, succ, ids, ran, state, seen0, queue0, seen, queue, done)
    requires Closed(getId, succ, ids) && getId(state) in ids && Reachable(succ, start, state) && t in succ(state)
    ensures var r := AddNextNew(getId, seen, queue, t);
            ExpandNewInv(start, getId, succ, ids, ran, state, seen0, queue0, r.0, r.1, done + [t])
  {
    ReachableStep(succ, start, state, t);
    AddNextNewInv(start, getId, succ, ids, seen, queue, ran, [state], t);
  }

  /** Once every successor was offered, `state` counts as run. */
  lemma {:induction false} ExpandNewDone<S(!new), ID(!new)>(start: S, getId: S -> ID, succ: S -> seq<S>, ids: set<ID>, ran: seq<S>,
                                         state: S, seen0: map<ID, S>, queue0: seq<S>, seen: map<ID, S>, queue: seq<S>)
    requires ExpandNewInv(start, getId, succ, ids, ran, state, seen0, queue0, seen, queue, succ(state))
    ensures NoRepeatsInv(start, getId, succ, ids, seen, queue, ran + [state], [])
  {
    assert ran + [state] + [] + queue == ran + [state] + queue;
  }

  /** `addNext` of `searchNoRepeats` by id applied to each of `xs` in order. */
  function OfferNew<S(!new), ID(!new)>(getId: S -> ID, seen: map<ID, S>, queue: seq<S>, xs: seq<S>): (map<ID, S>, seq<S>)
    decreases |xs|
  {
    if |xs| == 0 then (seen, queue)
    else
      var r := OfferNew(getId, seen, queue, xs[..|xs| - 1]);
      var r2 := AddNextNew(getId, r.0, r.1, xs[|xs| - 1]);
      (r2.0, r2.1)
  }

  /** Offering successors of `state` keeps the invariant of the `run` call. */
  lemma {:induction false} OfferNewInv<S(!new), ID(!new)>(start: S, getId: S -> ID, succ: S -> seq<S>, ids: set<ID>, ran: seq<S>,
                                                         state: S, seen0: map<ID, S>, queue0: seq<S>, done: seq<S>)
    requires Closed(getId, succ, ids) && getId(state) in ids && Reachable(succ, start, state)
    requires NoRepeatsInv(start, getId, succ, ids, seen0, queue0, ran, [state])
    requires forall t :: t in done ==> t in succ(state)
    ensures var r := OfferNew(getId, seen0, queue0, done);
            ExpandNewInv(start, getId, succ, ids, ran, state, seen0, queue0, r.0, r.1, done)
    decreases |done|
  {
    if |done| > 0 {
      var init, t := done[..|done| - 1], done[|done| - 1];
      assert done == init + [t];
      OfferNewInv(start, getId, succ, ids, ran, state, seen0, queue0, init);
      var r := OfferNew(getId, seen0, queue0, init);
      ExpandNewStep(start, getId, succ, ids, ran, state, seen0, queue0, r.0, r.1, init, t);
    }
  }

  /** `run(state, addNext)` in `searchNoRepeats` by id: every successor of `state` is offered
      in order; afterwards `state` counts as run, and either an id became known or nothing
      changed. */
  method ExpandNew<S(!new), ID(!new)>(start: S, getId: S -> ID, succ: S -> seq<S>, ghost ids: set<ID>, ghost ran: seq<S>,
                          state: S, seen0: map<ID, S>, queue0: seq<S>)
    returns (seen: map<ID, S>, queue: seq<S>)
    requires Closed(getId, succ, ids) && getId(state) in ids && Reachable(succ, start, state)
    requires NoRepeatsInv(start, getId, succ, ids, seen0, queue0, ran, [state])
    ensures (seen, queue) == OfferNew(getId, seen0, queue0, succ(state))
    ensures NoRepeatsInv(start, getId, succ, ids, seen, queue, ran + [state], [])
    ensures seen0.Keys <= seen.Keys && (seen.Keys == seen0.Keys ==> queue == queue0)
  {
    seen, queue := seen0, queue0;
    var next := succ(state);
    for j := 0 to |next|
      invariant (seen, queue) == OfferNew(getId, seen0, queue0, next[..j])
    {
      assert next[..j + 1][..j] == next[..j];
      var r := AddNextNew(getId, seen, queue, next[j]);
      seen, queue := r.0, r.1;
    }
    assert next[..|next|] == next;
    OfferNewInv(start, getId, succ, ids, ran, state, seen0, queue0, next);
    ExpandNewDone(start, getId, succ, ids, ran, state, seen0, queue0, seen, queue);
  }

  /** Popping a state moves it from the queue to the states being run. */
  lemma {:induction false} PopNewInv<S(!new), ID(!new)>(start: S, getId: S -> ID, succ: S -> seq<S>, ids: set<ID>,
                                     seen: map<ID, S>, queue: seq<S>, ran: seq<S>, bfs: bool)
    requires NoRepeatsInv(start, getId, succ, ids, seen, queue, ran, []) && |queue| > 0
    ensures getId(Pop(queue, bfs).0) in ids && Reachable(succ, start, Pop(queue, bfs).0)
    ensures NoRepeatsInv(start, getId, succ, ids, seen, Pop(queue, bfs).1, ran, [Pop(queue, bfs).0])
  {
    PopMembers(queue, bfs);
    QueuedFiled(start, getId, succ, ids, seen, queue, ran, [], Pop(queue, bfs).0);
    assert ran + [] + queue == ran + queue;
    assert ran + [Pop(queue, bfs).0] + Pop(queue, bfs).1 == ran + ([Pop(queue, bfs).0] + Pop(queue, bfs).1);
  }

  /** At the end every filed state was run, and every successor of one has its id filed. */
  lemma {:induction false} NoRepeatsDone<S(!new), ID(!new)>(start: S, getId: S -> ID, succ: S -> seq<S>, ids: set<ID>,
                                         seen: map<ID, S>, ran: seq<S>)
    requires NoRepeatsInv(start, getId, succ, ids, seen, [], ran, [])
    ensures multiset(ran) == multiset(seen.Values)
    ensures forall a, b :: a in seen.Values && b in seen.Values && getId(a) == getId(b) ==> a == b
    ensures forall r, t :: r in seen.Values && t in succ(r) ==> exists r' :: r' in seen.Values && getId(r') == getId(t)
  {
    assert ran + [] + [] == ran;
    forall r, t | r in seen.Values && t in succ(r)
      ensures exists r' :: r' in seen.Values && getId(r') == getId(t)
    {
      assert r in multiset(ran);
      assert seen[getId(t)] in seen.Values;
    }
    forall a, b | a in seen.Values && b in seen.Values && getId(a) == getId(b)
      ensures a == b
    {
      var ka :| ka in seen && seen[ka] == a;
      var kb :| kb in seen && seen[kb] == b;
    }
  }

  /** The states `run` offers to `addNext` when run on each of `ran` in order. */
  function Offers<S>(succ: S -> seq<S>, ran: seq<S>): seq<S>
  {
    if |ran| == 0 then [] else Offers(succ, ran[..|ran| - 1]) + succ(ran[|ran| - 1])
  }

  /** The first state of `xs` with each id, filed under that id: what `addNext` keeps when
      offered `xs` in order. */
  function FirstById<S, ID>(getId: S -> ID, xs: seq<S>): map<ID, S>
  {
    if |xs| == 0 then map[]
    else
      var m := FirstById(getId, xs[..|xs| - 1]);
      var x := xs[|xs| - 1];
      if getId(x) in m then m else m[getId(x) := x]
  }

  /** No state before `xs[i]` shares its id. */
  ghost predicate FirstOfId<S, ID>(getId: S -> ID, xs: seq<S>, i: int)
    requires 0 <= i < |xs|
  {
    forall j :: 0 <= j < i ==> getId(xs[j]) != getId(xs[i])
  }

  /** Some state of `xs` has id `k`. */
  ghost predicate HasId<S, ID>(getId: S -> ID, xs: seq<S>, k: ID)
  {
    exists i :: 0 <= i < |xs| && getId(xs[i]) == k
  }

  /** `s` is the first state of `xs` with its id. */
  ghost predicate IsFirst<S, ID>(getId: S -> ID, xs: seq<S>, s: S)
  {
    exists i :: 0 <= i < |xs| && xs[i] == s && FirstOfId(getId, xs, i)
  }

  /** The ids filed are exactly the ids of `xs`, each over a state of its own id. */
  lemma {:induction false} FirstByIdKeys<S, ID>(getId: S -> ID, xs: seq<S>)
    ensures forall k :: k in FirstById(getId, xs) ==> getId(FirstById(getId, xs)[k]) == k
    ensures forall k :: k in FirstById(getId, xs) <==> HasId(getId, xs, k)
  {
    if |xs| > 0 {
      var init, x := xs[..|xs| - 1], xs[|xs| - 1];
      FirstByIdKeys(getId, init);
      forall k | k in FirstById(getId, xs)
        ensures HasId(getId, xs, k)
      {
        if k == getId(x) {
          assert getId(xs[|xs| - 1]) == k;
        } else {
          assert HasId(getId, init, k);
          var i :| 0 <= i < |init| && getId(init[i]) == k;
          assert getId(xs[i]) == k;
        }
      }
      forall k | HasId(getId, xs, k)
        ensures k in FirstById(getId, xs)
      {
        var i :| 0 <= i < |xs| && getId(xs[i]) == k;
        if i < |init| {
          assert getId(init[i]) == k;
          assert HasId(getId, init, k);
        }
      }
    }
  }

  /** A state is kept exactly when it is the first state of `xs` with its id. */
  lemma {:induction false} FirstByIdMeaning<S, ID>(getId: S -> ID, xs: seq<S>)
    ensures forall s :: s in FirstById(getId, xs).Values <==> IsFirst(getId, xs, s)
  {
    if |xs| > 0 {
      var init, x, n := xs[..|xs| - 1], xs[|xs| - 1], |xs| - 1;
      var m := FirstById(getId, init);
      FirstByIdMeaning(getId, init);
      FirstByIdKeys(getId, init);
      forall s | s in FirstById(getId, xs).Values
        ensures IsFirst(getId, xs, s)
      {
        var k :| k in FirstById(getId, xs) && FirstById(getId, xs)[k] == s;
        if getId(x) !in m && k == getId(x) {
          forall j | 0 <= j < n
            ensures getId(xs[j]) != getId(xs[n])
          {
            assert xs[j] == init[j];
            assert !HasId(getId, init, getId(x));
          }
          assert xs[n] == s && FirstOfId(getId, xs, n);
        } else {
          assert m[k] == s;
          assert s in m.Values;
          assert IsFirst(getId, init, s);
          var i :| 0 <= i < |init| && init[i] == s && FirstOfId(getId, init, i);
          assert xs[i] == s && FirstOfId(getId, xs, i);
        }
      }
      forall s | IsFirst(getId, xs, s)
        ensures s in FirstById(getId, xs).Values
      {
        var i :| 0 <= i < |xs| && xs[i] == s && FirstOfId(getId, xs, i);
        if i < n {
          assert init[i] == s && FirstOfId(getId, init, i);
          assert IsFirst(getId, init, s);
          assert s in m.Values;
          var k :| k in m && m[k] == s;
          assert FirstById(getId, xs)[k] == s;
        } else {
          forall j | 0 <= j < |init|
            ensures getId(init[j]) != getId(x)
          {
            assert xs[j] == init[j];
          }
          assert !HasId(getId, init, getId(x));
          assert FirstById(getId, xs)[getId(x)] == s;
        }
      }
    }
  }

  /** Offering `ys` after `xs` keeps the first state per id of `xs + ys`. */
  lemma {:induction false} OfferNewFirst<S(!new), ID(!new)>(getId: S -> ID, xs: seq<S>, queue: seq<S>, ys: seq<S>)
    ensures OfferNew(getId, FirstById(getId, xs), queue, ys).0 == FirstById(getId, xs + ys)
    decreases |ys|
  {
    if |ys| == 0 {
      assert xs + ys == xs;
    } else {
      var init := ys[..|ys| - 1];
      OfferNewFirst(getId, xs, queue, init);
      assert (xs + ys)[..|xs + ys| - 1] == xs + init;
      assert (xs + ys)[|xs + ys| - 1] == ys[|ys| - 1];
    }
  }

  /** Running one more state offers its successors after all earlier offers. */
  lemma {:induction false} OffersStep<S(!new), ID(!new)>(getId: S -> ID, succ: S -> seq<S>, start: S, ran: seq<S>, state: S, queue: seq<S>)
    ensures OfferNew(getId, FirstById(getId, [start] + Offers(succ, ran)), queue, succ(state)).0 ==
            FirstById(getId, [start] + Offers(succ, ran + [state]))
  {
    OfferNewFirst(getId, [start] + Offers(succ, ran), queue, succ(state));
    assert (ran + [state])[..|ran|] == ran;
    assert [start] + Offers(succ, ran + [state]) == [start] + Offers(succ, ran) + succ(state);
  }

  /** `searchNoRepeats(start, getId, bfs, run)`: the states accepted, the first one offered
      per id, counting the start as offered first. The start is among them; every one is reachable and no two share an id; every
      successor of one has its id among theirs; and `ran`, the states passed to `run` in
      order, holds each of them exactly once. */
  method SearchNoRepeatsById<S(==,!new), ID(!new)>(start: S, getId: S -> ID, bfs: bool, succ: S -> seq<S>, ghost ids: set<ID>)
    returns (result: set<S>, ghost ran: seq<S>)
    requires getId(start) in ids && Closed(getId, succ, ids)
    ensures start in result
    ensures forall s :: s in result ==> Reachable(succ, start, s)
    ensures forall a, b :: a in result && b in result && getId(a) == getId(b) ==> a == b
    ensures forall r, t :: r in result && t in succ(r) ==> exists r' :: r' in result && getId(r') == getId(t)
    ensures multiset(ran) == multiset(result)
    ensures forall s :: s in result <==> IsFirst(getId, [start] + Offers(succ, ran), s)
  {
    var seen := map[getId(start) := start];
    var queue := [start];
    ran := [];
    ReachableStart(succ, start);
    assert seen.Values == {start};
    assert [start][..0] == [];
    while |queue| > 0
      invariant NoRepeatsInv(start, getId, succ, ids, seen, queue, ran, [])
      invariant seen == FirstById(getId, [start] + Offers(succ, ran))
      decreases |ids - seen.Keys|, |queue|
    {
      PopNewInv(start, getId, succ, ids, seen, queue, ran, bfs);
      var (state, rest) := Pop(queue, bfs);
      ghost var keys0 := seen.Keys;
      OffersStep(getId, succ, start, ran, state, rest);
      seen, queue := ExpandNew(start, getId, succ, ids, ran, state, seen, rest);
      ran := ran + [state];
      if seen.Keys != keys0 {
        FewerUnknown(ids, keys0, seen.Keys);
      }
    }
    NoRepeatsDone(start, getId, succ, ids, seen, ran);
    result := seen.Values;
    FirstByIdMeaning(getId, [start] + Offers(succ, ran));
    assert seen[getId(start)] == start;
    forall s | s in result
      ensures Reachable(succ, start, s)
    {
      var k :| k in seen && seen[k] == s;
    }
  }

  /** A set of states closed under `succ` that holds `start` holds everything reachable. */
  lemma {:induction false} ClosedHoldsReachable<S(!new)>(succ: S -> seq<S>, start: S, states: set<S>, p: seq<S>, i: nat)
    requires start in states && forall r, t :: r in states && t in succ(r) ==> t in states
    requires Path(succ, p) && p[0] == start && i < |p|
    ensures p[i] in states
  {
    if i > 0 {
      ClosedHoldsReachable(succ, start, states, p, i - 1);
      assert p[i] in succ(p[i - 1]);
    }
  }

  /** The loop invariant of `searchNoRepeats` on states. */
  ghost predicate SetInv<S(!new)>(start: S, succ: S -> seq<S>, universe: set<S>,
                                  seen: set<S>, queue: seq<S>, ran: seq<S>, running: seq<S>)
  {
    start in seen && seen <= universe &&
    (forall s :: s in seen ==> Reachable(succ, start, s)) &&
    multiset(ran + running + queue) == multiset(seen) &&
    (forall r, t :: r in ran && t in succ(r) ==> t in seen)
  }

  /** The invariant of the `run` call in `searchNoRepeats` on states once the successors
      `done` were offered. */
  ghost predicate ExpandSetInv<S(!new)>(start: S, succ: S -> seq<S>, universe: set<S>, ran: seq<S>,
                                        state: S, seen0: set<S>, queue0: seq<S>, seen: set<S>, queue: seq<S>, done: seq<S>)
  {
    SetInv(start, succ, universe, seen, queue, ran, [state]) &&
    seen0 <= seen && (seen == seen0 ==> queue == queue0) &&
    (forall t :: t in done ==> t in seen)
  }

  /** The `addNext` of `searchNoRepeats` on states: `seen.add(s)` queues a new state. */
  function AddNextSet<S(!new)>(seen: set<S>, queue: seq<S>, s: S): (r: (set<S>, seq<S>))
    ensures s in r.0 && seen <= r.0 && (r.0 == seen ==> r.1 == queue)
  {
    if s in seen then (seen, queue) else (seen + {s}, queue + [s])
  }

  /** Offering one more successor keeps the invariant of the `run` call. */
  lemma {:induction false} ExpandSetStep<S(!new)>(start: S, succ: S -> seq<S>, universe: set<S>, ran: seq<S>,
                               state: S, seen0: set<S>, queue0: seq<S>, seen: set<S>, queue: seq<S>, done: seq<S>, t: S)
    requires ExpandSetInv(start, succ, universe, ran, state, seen0, queue0, seen, queue, done)
    requires (forall s, t :: s in universe && t in succ(s) ==> t in universe)
    requires state in seen && t in succ(state)
    ensures var r := AddNextSet(seen, queue, t);
            ExpandSetInv(start, succ, universe, ran, state, seen0, queue0, r.0, r.1, done + [t])
  {
    ReachableStep(succ, start, state, t);
    if t !in seen {
      assert ran + [state] + (queue + [t]) == (ran + [state] + queue) + [t];
    }
  }

  /** `addNext` of `searchNoRepeats` on states applied to each of `xs` in order. */
  function OfferSet<S(!new)>(seen: set<S>, queue: seq<S>, xs: seq<S>): (set<S>, seq<S>)
    decreases |xs|
  {
    if |xs| == 0 then (seen, queue)
    else
      var r := OfferSet(seen, queue, xs[..|xs| - 1]);
      AddNextSet(r.0, r.1, xs[|xs| - 1])
  }

  /** Offering successors of `state` keeps the invariant of the `run` call. */
  lemma {:induction false} OfferSetInv<S(!new)>(start: S, succ: S -> seq<S>, universe: set<S>, ran: seq<S>,
                                               state: S, seen0: set<S>, queue0: seq<S>, done: seq<S>)
    requires (forall s, t :: s in universe && t in succ(s) ==> t in universe)
    requires SetInv(start, succ, universe, seen0, queue0, ran, [state]) && state in seen0
    requires forall t :: t in done ==> t in succ(state)
    ensures var r := OfferSet(seen0, queue0, done);
            ExpandSetInv(start, succ, universe, ran, state, seen0, queue0, r.0, r.1, done)
    decreases |done|
  {
    if |done| > 0 {
      var init, t := done[..|done| - 1], done[|done| - 1];
      assert done == init + [t];
      OfferSetInv(start, succ, universe, ran, state, seen0, queue0, init);
      var r := OfferSet(seen0, queue0, init);
      ExpandSetStep(start, succ, universe, ran, state, seen0, queue0, r.0, r.1, init, t);
    }
  }

  /** `run(state, addNext)` in `searchNoRepeats` on states: every successor of `state` is
      offered in order, and `seen.add(s)` queues the new ones. */
  method ExpandSet<S(!new)>(start: S, succ: S -> seq<S>, ghost universe: set<S>, ghost ran: seq<S>,
                            state: S, seen0: set<S>, queue0: seq<S>)
    returns (seen: set<S>, queue: seq<S>)
    requires (forall s, t :: s in universe && t in succ(s) ==> t in universe)
    requires SetInv(start, succ, universe, seen0, queue0, ran, [state]) && state in seen0
    ensures (seen, queue) == OfferSet(seen0, queue0, succ(state))
    ensures SetInv(start, succ, universe, seen, queue, ran + [state], [])
    ensures seen0 <= seen && (seen == seen0 ==> queue == queue0)
  {
    seen, queue := seen0, queue0;
    var next := succ(state);
    for j := 0 to |next|
      invariant (seen, queue) == OfferSet(seen0, queue0, next[..j])
    {
      assert next[..j + 1][..j] == next[..j];
      var r := AddNextSet(seen, queue, next[j]);
      seen, queue := r.0, r.1;
    }
    assert next[..|next|] == next;
    OfferSetInv(start, succ, universe, ran, state, seen0, queue0, next);
    ExpandSetDone(start, succ, universe, ran, state, seen0, queue0, seen, queue);
  }

  /** Once every successor was offered, `state` counts as run. */
  lemma {:induction false} ExpandSetDone<S(!new)>(start: S, succ: S -> seq<S>, universe: set<S>, ran: seq<S>,
                               state: S, seen0: set<S>, queue0: seq<S>, seen: set<S>, queue: seq<S>)
    requires ExpandSetInv(start, succ, universe, ran, state, seen0, queue0, seen, queue, succ(state))
    ensures SetInv(start, succ, universe, seen, queue, ran + [state], [])
  {
    assert ran + [state] + [] + queue == ran + [state] + queue;
  }

  /** Popping a state moves it from the queue to the states being run. */
  lemma {:induction false} PopSetInv<S(!new)>(start: S, succ: S -> seq<S>, universe: set<S>, seen: set<S>, queue: seq<S>, ran: seq<S>, bfs: bool)
    requires SetInv(start, succ, universe, seen, queue, ran, []) && |queue| > 0
    ensures Pop(queue, bfs).0 in seen
    ensures SetInv(start, succ, universe, seen, Pop(queue, bfs).1, ran, [Pop(queue, bfs).0])
  {
    PopMembers(queue, bfs);
    var (state, rest) := Pop(queue, bfs);
    assert ran + [] + queue == ran + queue;
    assert state in multiset(ran + queue);
    assert ran + [state] + rest == ran + ([state] + rest);
  }

  /** At the end the states seen are closed under `succ`, so they hold everything reachable. */
  lemma {:induction false} SetDone<S(!new)>(start: S, succ: S -> seq<S>, universe: set<S>, seen: set<S>, ran: seq<S>)
    requires SetInv(start, succ, universe, seen, [], ran, [])
    ensures multiset(ran) == multiset(seen)
    ensures forall s :: s in seen <==> Reachable(succ, start, s)
  {
    assert ran + [] + [] == ran;
    forall r, t | r in seen && t in succ(r)
      ensures t in seen
    {
      assert r in multiset(ran);
    }
    forall s | Reachable(succ, start, s)
      ensures s in seen
    {
      var p :| Path(succ, p) && p[0] == start && p[|p| - 1] == s;
      ClosedHoldsReachable(succ, start, seen, p, |p| - 1);
    }
  }

  /** `searchNoRepeats(start, bfs, run)` on the states themselves: exactly the states
      reachable from `start`, and `ran`, the states passed to `run` in order, holds each of
      them exactly once. */
  method SearchNoRepeats<S(!new)>(start: S, bfs: bool, succ: S -> seq<S>, ghost universe: set<S>)
    returns (seen: set<S>, ghost ran: seq<S>)
    requires start in universe && forall s, t :: s in universe && t in succ(s) ==> t in universe
    ensures forall s :: s in seen <==> Reachable(succ, start, s)
    ensures multiset(ran) == multiset(seen)
  {
    seen := {start};
    var queue := [start];
    ran := [];
    ReachableStart(succ, start);
    while |queue| > 0
      invariant SetInv(start, succ, universe, seen, queue, ran, [])
      decreases |universe - seen|, |queue|
    {
      PopSetInv(start, succ, universe, seen, queue, ran, bfs);
      var (state, rest) := Pop(queue, bfs);
      ghost var seen0 := seen;
      seen, queue := ExpandSet(start, succ, universe, ran, state, seen, rest);
      ran := ran + [state];
      if seen != seen0 {
        FewerUnknown(universe, seen0, seen);
      }
    }
    SetDone(start, succ, universe, seen, ran);
  }

  // ----- searchMemoizing -----

  /** Every child of a state reachable from `start` has an id ranked strictly below its
      parent's: the ids met on the way down from `start` form no cycle. */
  ghost predicate AcyclicFrom<S(!new), ID(!new)>(getId: S -> ID, children: S -> seq<S>, rank: ID -> nat, start: S)
  {
    forall s, c :: Reachable(children, start, s) && c in children(s) ==> rank(getId(c)) < rank(getId(s))
  }

  /** One rank for every state at once. */
  ghost predicate Acyclic<S(!new), ID(!new)>(getId: S -> ID, children: S -> seq<S>, rank: ID -> nat)
  {
    forall s, c :: c in children(s) ==> rank(getId(c)) < rank(getId(s))
  }

  lemma {:induction false} AcyclicAll<S(!new), ID(!new)>(getId: S -> ID, children: S -> seq<S>, rank: ID -> nat)
    requires Acyclic(getId, children, rank)
    ensures forall s :: AcyclicFrom(getId, children, rank, s)
  {
  }

  /** The children of a state with no cycle below it rank lower and have no cycle below
      them either. */
  lemma {:induction false} AcyclicChildren<S(!new), ID(!new)>(getId: S -> ID, children: S -> seq<S>, rank: ID -> nat, s: S)
    requires AcyclicFrom(getId, children, rank, s)
    ensures forall c :: c in children(s) ==> rank(getId(c)) < rank(getId(s)) && AcyclicFrom(getId, children, rank, c)
  {
    assert Path(children, [s]);
    assert Reachable(children, s, s);
    forall c, t | c in children(s) && Reachable(children, c, t)
      ensures Reachable(children, s, t)
    {
      var p :| Path(children, p) && p[0] == c && p[|p| - 1] == t;
      var q := [s] + p;
      forall i | 0 <= i < |q| - 1
        ensures q[i + 1] in children(q[i])
      {
        if i > 0 {
          assert q[i] == p[i - 1] && q[i + 1] == p[i];
        }
      }
      assert Path(children, q) && q[0] == s && q[|q| - 1] == t;
    }
  }

  /** The answer of `run(s, next)` when `run` asks `next` about `children(s)` in order and
      combines the answers: the reference definition the memoised recursion computes. */
  ghost function Value<S(!new), ID(!new), O(!new)>(getId: S -> ID, children: S -> seq<S>, combine: (S, seq<O>) -> O, rank: ID -> nat, s: S): O
    requires AcyclicFrom(getId, children, rank, s)
    decreases rank(getId(s))
  {
    AcyclicChildren(getId, children, rank, s);
    combine(s, seq(|children(s)|, i requires 0 <= i < |children(s)| => Value(getId, children, combine, rank, children(s)[i])))
  }

  /** `run` combines the children's answers into the answer for `s`. */
  lemma {:induction false} ValueOf<S(!new), ID(!new), O(!new)>(getId: S -> ID, children: S -> seq<S>, combine: (S, seq<O>) -> O, rank: ID -> nat,
                                            s: S, answers: seq<O>)
    requires AcyclicFrom(getId, children, rank, s)
    requires |answers| == |children(s)|
    requires forall j :: 0 <= j < |answers| ==>
      AcyclicFrom(getId, children, rank, children(s)[j]) && answers[j] == Value(getId, children, combine, rank, children(s)[j])
    ensures Value(getId, children, combine, rank, s) == combine(s, answers)
  {
    assert answers == seq(|children(s)|, i requires 0 <= i < |children(s)| => Value(getId, children, combine, rank, children(s)[i]));
  }

  /** States with the same id have the same answer: what keying the cache by id presumes. */
  ghost predicate Consistent<S(!new), ID(!new), O(!new)>(getId: S -> ID, children: S -> seq<S>, combine: (S, seq<O>) -> O, rank: ID -> nat)
  {
    forall s, t :: AcyclicFrom(getId, children, rank, s) && AcyclicFrom(getId, children, rank, t) && getId(s) == getId(t) ==>
      Value(getId, children, combine, rank, s) == Value(getId, children, combine, rank, t)
  }

  /** The cache `m1` still holds every id of `m0`, and every answer of `m0` that is not null. */
  ghost predicate Kept<ID(!new), O>(absent: O -> bool, m0: map<ID, O>, m1: map<ID, O>)
  {
    forall k :: k in m0 ==> k in m1 && (!absent(m0[k]) ==> m1[k] == m0[k])
  }

  /** No id ranked `r` or higher was added to or changed in the cache. */
  ghost predicate Untouched<ID(!new), O>(rank: ID -> nat, r: int, m0: map<ID, O>, m1: map<ID, O>)
  {
    forall k :: rank(k) >= r ==> (k in m1 <==> k in m0) && (k in m0 ==> m1[k] == m0[k])
  }

  lemma {:induction false} KeptTrans<ID(!new), O>(absent: O -> bool, m0: map<ID, O>, m1: map<ID, O>, m2: map<ID, O>)
    requires Kept(absent, m0, m1) && Kept(absent, m1, m2)
    ensures Kept(absent, m0, m2)
  {
    forall k | k in m0
      ensures k in m2 && (!absent(m0[k]) ==> m2[k] == m0[k])
    {
      assert k in m1;
    }
  }

  lemma {:induction false} UntouchedTrans<ID(!new), O>(rank: ID -> nat, r1: int, r2: int, r: int, m0: map<ID, O>, m1: map<ID, O>, m2: map<ID, O>)
    requires Untouched(rank, r1, m0, m1) && Untouched(rank, r2, m1, m2) && r1 <= r && r2 <= r
    ensures Untouched(rank, r, m0, m2)
  {
    forall k | rank(k) >= r
      ensures (k in m2 <==> k in m0) && (k in m0 ==> m2[k] == m0[k])
    {
      assert rank(k) >= r1 && rank(k) >= r2;
    }
  }

  /** The closure `searchMemoizing(getId, run)` returns, with the `seen` cache it captures.
      `absent` tells which answers `seen[id] ?:` treats as missing: the null ones (constantly
      false for a non-nullable answer type). `computed` lists every id `recurse` handed to
      `run`, with the answer it got. */
  class Memoizer<S(!new), ID(==,!new), O(!new)> {
    const getId: S -> ID
    const children: S -> seq<S>
    const combine: (S, seq<O>) -> O
    const absent: O -> bool
    ghost const rank: ID -> nat
    var seen: map<ID, O>
    ghost var computed: seq<(ID, O)>

    /** Every cached answer is one `run` computed, and the last one for its id; an id is
        computed again only after a null answer; and when states sharing an id share an
        answer, every cached answer is the reference value. */
    ghost predicate Valid()
      reads this
    {
      && (forall i :: 0 <= i < |computed| ==> computed[i].0 in seen)
      && (forall i :: 0 <= i < |computed| && !absent(computed[i].1) ==> seen[computed[i].0] == computed[i].1)
      && (forall i, j :: 0 <= i < j < |computed| && computed[i].0 == computed[j].0 ==> absent(computed[i].1))
      && (forall k :: k in seen ==> (k, seen[k]) in computed)
      && (Consistent(getId, children, combine, rank) ==>
            forall s :: AcyclicFrom(getId, children, rank, s) && getId(s) in seen ==>
              seen[getId(s)] == Value(getId, children, combine, rank, s))
    }

    constructor(getId: S -> ID, children: S -> seq<S>, combine: (S, seq<O>) -> O, absent: O -> bool, ghost rank: ID -> nat)
      ensures Valid() && this.getId == getId && this.children == children && this.combine == combine
      ensures this.absent == absent && this.rank == rank && seen == map[] && computed == []
    {
      this.getId, this.children, this.combine, this.absent, this.rank := getId, children, combine, absent, rank;
      seen, computed := map[], [];
    }

    /** `recurse(s)`: a cached answer that is not null is returned and nothing changes;
        otherwise `run`'s answer is computed and cached under `s`'s id. */
    method Recurse(s: S) returns (o: O)
      requires Valid() && AcyclicFrom(getId, children, rank, s)
      modifies this
      decreases rank(getId(s)), 2
      ensures Valid() && getId(s) in seen && seen[getId(s)] == o
      ensures getId(s) in old(seen) && !absent(old(seen)[getId(s)]) ==>
        o == old(seen)[getId(s)] && seen == old(seen) && computed == old(computed)
      ensures (getId(s) !in old(seen) || absent(old(seen)[getId(s)])) ==> computed[|computed| - 1] == (getId(s), o)
      ensures Consistent(getId, children, combine, rank) ==> o == Value(getId, children, combine, rank, s)
      ensures Kept(absent, old(seen), seen) && Untouched(rank, rank(getId(s)) + 1, old(seen), seen)
      ensures old(computed) <= computed
    {
      var id := getId(s);
      if id in seen && !absent(seen[id]) {
        return seen[id];
      }
      ghost var seen0, computed0 := seen, computed;
      o := Run(s);
      assert (id in seen <==> id in seen0) && (id in seen0 ==> seen[id] == seen0[id]);
      RecordAnswer(s, o);
      KeptTrans(absent, old(seen), seen0, seen);
    }

    /** Caching `o` under a missing or null id keeps the cache valid. */
    method RecordAnswer(s: S, o: O)
      requires Valid() && AcyclicFrom(getId, children, rank, s)
      requires getId(s) !in seen || absent(seen[getId(s)])
      requires Consistent(getId, children, combine, rank) ==> o == Value(getId, children, combine, rank, s)
      modifies this
      ensures Valid() && seen == old(seen)[getId(s) := o] && computed == old(computed) + [(getId(s), o)]
      ensures Kept(absent, old(seen), seen) && Untouched(rank, rank(getId(s)) + 1, old(seen), seen)
    {
      var id := getId(s);
      assert forall i :: 0 <= i < |computed| && computed[i].0 == id ==> absent(computed[i].1);
      seen := seen[id := o];
      computed := computed + [(id, o)];
      assert (id, o) == computed[|computed| - 1];
      if Consistent(getId, children, combine, rank) {
        forall t | AcyclicFrom(getId, children, rank, t) && getId(t) in seen
          ensures seen[getId(t)] == Value(getId, children, combine, rank, t)
        {
          if getId(t) == id {
            assert Value(getId, children, combine, rank, t) == Value(getId, children, combine, rank, s);
          }
        }
      }
    }

    /** The answers `run(s, ::recurse)` has collected for the first `i` children of `s`. */
    ghost predicate Answered(s: S, answers: seq<O>, i: int)
      requires AcyclicFrom(getId, children, rank, s)
      reads this
    {
      AcyclicChildren(getId, children, rank, s);
      0 <= i <= |children(s)| && |answers| == i &&
      (Consistent(getId, children, combine, rank) ==>
         forall j :: 0 <= j < i ==> answers[j] == Value(getId, children, combine, rank, children(s)[j]))
    }

    /** One `next(child)` call inside `run(s, ::recurse)`. */
    method Ask(s: S, answers: seq<O>) returns (more: seq<O>)
      requires Valid() && AcyclicFrom(getId, children, rank, s)
      requires Answered(s, answers, |answers|) && |answers| < |children(s)|
      modifies this
      decreases rank(getId(s)), 0
      ensures Valid() && Answered(s, more, |answers| + 1)
      ensures Kept(absent, old(seen), seen) && Untouched(rank, rank(getId(s)), old(seen), seen)
      ensures old(computed) <= computed
    {
      AcyclicChildren(getId, children, rank, s);
      var c := children(s)[|answers|];
      assert c in children(s);
      var a := Recurse(c);
      more := answers + [a];
    }

    /** `run(s, ::recurse)`: the children's answers through `recurse`, then combined. No id
        ranked as high as `s`'s is added or changed. */
    method Run(s: S) returns (o: O)
      requires Valid() && AcyclicFrom(getId, children, rank, s)
      modifies this
      decreases rank(getId(s)), 1
      ensures Valid() && (Consistent(getId, children, combine, rank) ==> o == Value(getId, children, combine, rank, s))
      ensures Kept(absent, old(seen), seen) && Untouched(rank, rank(getId(s)), old(seen), seen)
      ensures old(computed) <= computed
    {
      var n := |children(s)|;
      var answers: seq<O> := [];
      for i := 0 to n
        invariant Valid() && Answered(s, answers, i)
        invariant Kept(absent, old(seen), seen) && Untouched(rank, rank(getId(s)), old(seen), seen)
        invariant old(computed) <= computed
      {
        ghost var seen0 := seen;
        answers := Ask(s, answers);
        KeptTrans(absent, old(seen), seen0, seen);
        UntouchedTrans(rank, rank(getId(s)), rank(getId(s)), rank(getId(s)), old(seen), seen0, seen);
      }
      Combined(s, answers);
      o := combine(s, answers);
    }

    /** Once every child is answered, combining the answers gives the reference value. */
    lemma {:induction false} Combined(s: S, answers: seq<O>)
      requires AcyclicFrom(getId, children, rank, s) && Answered(s, answers, |children(s)|)
      ensures Consistent(getId, children, combine, rank) ==> combine(s, answers) == Value(getId, children, combine, rank, s)
    {
      AcyclicChildren(getId, children, rank, s);
      if Consistent(getId, children, combine, rank) {
        ValueOf(getId, children, combine, rank, s, answers);
      }
    }

    /** A call of the returned closure, `run(start, ::recurse)`: the answer for `start`. The
        top-level call itself is not cached: `start`'s id is cached afterwards only if it
        was before, with the same answer. */
    method Call(start: S) returns (o: O)
      requires Valid() && AcyclicFrom(getId, children, rank, start)
      modifies this
      ensures Valid() && (Consistent(getId, children, combine, rank) ==> o == Value(getId, children, combine, rank, start))
      ensures Kept(absent, old(seen), seen)
      ensures (getId(start) in seen <==> getId(start) in old(seen)) &&
              (getId(start) in old(seen) ==> seen[getId(start)] == old(seen)[getId(start)])
    {
      o := Run(start);
      assert rank(getId(start)) >= rank(getId(start));
    }
  }

  /** `searchMemoizing(getId, run)`: a fresh closure over an empty cache. */
  method MemoizingById<S(!new), ID(==,!new), O(!new)>(getId: S -> ID, children: S -> seq<S>, combine: (S, seq<O>) -> O,
                                                  absent: O -> bool, ghost rank: ID -> nat)
    returns (m: Memoizer<S, ID, O>)
    ensures fresh(m) && m.Valid() && m.seen == map[]
    ensures m.getId == getId && m.children == children && m.combine == combine && m.absent == absent && m.rank == rank
  {
    m := new Memoizer(getId, children, combine, absent, rank);
  }

  /** `searchMemoizing(start, getId, run)`: the answer for `start`, memoised by id. */
  method SearchMemoizingById<S(!new), ID(==,!new), O(!new)>(start: S, getId: S -> ID, children: S -> seq<S>, combine: (S, seq<O>) -> O,
                                       absent: O -> bool, ghost rank: ID -> nat)
    returns (o: O)
    requires AcyclicFrom(getId, children, rank, start)
    ensures Consistent(getId, children, combine, rank) ==> o == Value(getId, children, combine, rank, start)
  {
    var m := new Memoizer(getId, children, combine, absent, rank);
    o := m.Call(start);
  }

  /** Keyed by the state itself, the cache is always consistent. */
  lemma {:induction false} IdentityConsistent<S(!new), O(!new)>(children: S -> seq<S>, combine: (S, seq<O>) -> O, rank: S -> nat)
    ensures Consistent((s: S) => s, children, combine, rank)
  {
  }

  /** Keyed by an id that tells states apart, the cache is always consistent. */
  lemma {:induction false} InjectiveConsistent<S(!new), ID(!new), O(!new)>(getId: S -> ID, children: S -> seq<S>, combine: (S, seq<O>) -> O, rank: ID -> nat)
    requires forall s, t :: getId(s) == getId(t) ==> s == t
    ensures Consistent(getId, children, combine, rank)
  {
  }

  /** `searchMemoizing(run)`: a fresh closure whose cache is keyed by the state. */
  method Memoizing<S(==,!new), O(!new)>(children: S -> seq<S>, combine: (S, seq<O>) -> O, absent: O -> bool, ghost rank: S -> nat)
    returns (m: Memoizer<S, S, O>)
    ensures fresh(m) && m.Valid() && m.seen == map[] && Consistent(m.getId, m.children, m.combine, m.rank)
    ensures m.getId == ((s: S) => s) && m.children == children && m.combine == combine && m.absent == absent && m.rank == rank
  {
    IdentityConsistent(children, combine, rank);
    m := new Memoizer((s: S) => s, children, combine, absent, rank);
  }

  /** `searchMemoizing(start, run)`: the answer for `start`, memoised by state. */
  method SearchMemoizing<S(==,!new), O(!new)>(start: S, children: S -> seq<S>, combine: (S, seq<O>) -> O, absent: O -> bool, ghost rank: S -> nat)
    returns (o: O)
    requires AcyclicFrom((s: S) => s, children, rank, start)
    ensures o == Value((s: S) => s, children, combine, rank, start)
  {
    IdentityConsistent(children, combine, rank);
    o := SearchMemoizingById(start, (s: S) => s, children, combine, absent, rank);
  }
}
