/** How long a ready task waits for the processor. */
module BoundedWaiting {
  import opened Wrappers
  import opened Scheduling
  import opened SchedulerRuns
  import opened WaitingWindows

  /** Above level `l` only level `h`, if any, has ready tasks. */
  ghost predicate OnlyAbove<T>(s: Sched<T>, h: int, l: nat)
    requires Shape(s)
  {
    forall p :: 0 <= p < l && p < LEVELS && p != h ==> s.queues[p] == []
  }

  /** A full counter at or below level `l` can send the next call past `l`. */
  predicate Overshoots<T>(s: Sched<T>, l: nat)
    requires Shape(s)
  {
    l <= s.current < MAX_PRIORITY && s.counter[s.current] >= MAX_SAMEPRIO_LENGTH
  }

  /** Calls that suffice to dispatch the task at position `i` of queue `l`; with
      no level above, at most every other call goes elsewhere. */
  function Bound<T>(s: Sched<T>, h: int, l: nat, i: nat): int
    requires Shape(s)
  {
    if h < 0 then 2 * i + (if s.counter[s.current] >= MAX_SAMEPRIO_LENGTH then 2 else 1)
    else if Overshoots(s, l) then 5 * (i + 1) + 1
    else if s.current == h then 5 * i + 5 - s.counter[s.current]
    else 5 * (i + 1)
  }

  /** A call either dispatches the head of queue `l`, or leaves the queue and
      brings the bound down; after a dispatch the next in line has a smaller bound. */
  lemma CallHelps<T>(s: Sched<T>, h: int, l: nat, i: nat)
    requires Inv(s) && h < l < LEVELS && OnlyAbove(s, h, l) && i < |s.queues[l]|
    ensures var (s', r) := Schedule(s);
      if r == Some(s.queues[l][0]) then
        s'.queues[l] == s.queues[l][1..] && (i > 0 ==> Bound(s', h, l, i - 1) < Bound(s, h, l, i))
      else s'.queues[l] == s.queues[l] && Bound(s', h, l, i) < Bound(s, h, l, i)
  {
    assert s.queues[l] != [];
    ScheduleKeeps(s);
    var low := FirstFrom(s.queues, s.current + 1);
    if s.counter[s.current] >= MAX_SAMEPRIO_LENGTH && low < LEVELS {
      if s.current < l { assert low == l || low == h; }
    } else {
      var p := FirstFrom(s.queues, 0);
      assert p == l || p == h;
    }
  }

  lemma BoundIsPositive<T>(s: Sched<T>, h: int, l: nat, i: nat)
    requires Inv(s) && i >= 0
    ensures Bound(s, h, l, i) >= 1
    ensures h < 0 ==> Bound(s, h, l, i) <= 2 * (i + 1)
    ensures h >= 0 ==> Bound(s, h, l, i) <= 5 * (i + 1) + if Overshoots(s, l) then 1 else 0
  {
  }

  lemma OthersWait<T>(s: Sched<T>, op: Op<T>, h: int, l: nat, i: nat)
    requires Inv(s) && Legal(s, op) && op != Next && l < LEVELS && i < |s.queues[l]|
    ensures var s' := Do(s, op).0;
      Inv(s') && i < |s'.queues[l]| && s'.queues[l][i] == s.queues[l][i] && Bound(s', h, l, i) == Bound(s, h, l, i)
  {
    DoKeeps(s, op);
    OthersLeaveCounter(s, op);
    QueuesAreFifo(s, op, l);
  }

  ghost predicate AboveAt<T>(ss: seq<Sched<T>>, k: nat, h: int, l: nat) {
    k < |ss| && Shape(ss[k]) && OnlyAbove(ss[k], h, l)
  }

  lemma OneCallCloser<T>(s: Sched<T>, op: Op<T>, h: int, l: nat, j: nat) returns (j': nat)
    requires Inv(s) && Legal(s, op) && h < l < LEVELS && OnlyAbove(s, h, l) && j < |s.queues[l]|
    requires op == Next ==> Schedule(s).1 != Some(s.queues[l][j])
    ensures var s' := Do(s, op).0;
      Inv(s') && j' <= j && j' < |s'.queues[l]| && s'.queues[l][j'] == s.queues[l][j]
      && Bound(s', h, l, j') + (if op == Next then 1 else 0) <= Bound(s, h, l, j)
  {
    DoKeeps(s, op);
    j' := j;
    if op == Next {
      CallHelps(s, h, l, j);
      if Schedule(s).1 == Some(s.queues[l][0]) { j' := j - 1; }
    } else {
      OthersWait(s, op, h, l, j);
    }
  }

  /** As long as `t` is not dispatched, every call brings it closer. */
  lemma {:induction false} Approaches<T>(ss: seq<Sched<T>>, ops: seq<Op<T>>, a: nat, b: nat, h: int, l: nat, i: nat) returns (j: nat)
    requires Run(ss, ops) && a <= b <= |ops| && h < l < LEVELS
    requires Shape(ss[a]) && i < |ss[a].queues[l]|
    requires forall k :: a <= k < b ==> AboveAt(ss, k, h, l)
    requires forall k :: a <= k < b ==> !DispatchedAt(ss, ops, k, ss[a].queues[l][i])
    ensures Inv(ss[b]) && j <= i && j < |ss[b].queues[l]| && ss[b].queues[l][j] == ss[a].queues[l][i]
    ensures Calls(ops, a, b) + Bound(ss[b], h, l, j) <= Bound(ss[a], h, l, i)
    decreases b
  {
    RunInvariant(ss, ops, b);
    j := i;
    if a < b {
      j := Approaches(ss, ops, a, b - 1, h, l, i);
      assert CallAt(ss, ops, b - 1) && AboveAt(ss, b - 1, h, l);
      assert !DispatchedAt(ss, ops, b - 1, ss[a].queues[l][i]);
      j := OneCallCloser(ss[b - 1], ops[b - 1], h, l, j);
    }
  }

  /** Bounded waiting: if only one level above `l` ever has ready tasks, the task
      at position `i` of queue `l` is dispatched within the bound: `5 * (i + 1)`
      calls of `scheduleNextTask`, and one more if the window starts with a full
      counter at `l` or below it; with no level above, `2 * (i + 1)`. */
  lemma WaitIsBounded<T>(ss: seq<Sched<T>>, ops: seq<Op<T>>, a: nat, b: nat, h: int, l: nat, i: nat) returns (k: nat)
    requires Run(ss, ops) && a <= b <= |ops| && h < l < LEVELS
    requires Shape(ss[a]) && i < |ss[a].queues[l]|
    requires forall k :: a <= k < b ==> AboveAt(ss, k, h, l)
    requires Calls(ops, a, b) >= Bound(ss[a], h, l, i)
    ensures a <= k < b && DispatchedAt(ss, ops, k, ss[a].queues[l][i])
  {
    var t := ss[a].queues[l][i];
    if k' :| a <= k' < b && DispatchedAt(ss, ops, k', t) {
      k := k';
    } else {
      var j := Approaches(ss, ops, a, b, h, l, i);
      BoundIsPositive(ss[b], h, l, j);
    }
  }

  /** The bound in numbers. */
  lemma WaitInCalls<T>(ss: seq<Sched<T>>, ops: seq<Op<T>>, a: nat, b: nat, h: int, l: nat, i: nat) returns (k: nat)
    requires Run(ss, ops) && a <= b <= |ops| && h < l < LEVELS
    requires Shape(ss[a]) && i < |ss[a].queues[l]|
    requires forall k :: a <= k < b ==> AboveAt(ss, k, h, l)
    requires Calls(ops, a, b) >= if h < 0 then 2 * (i + 1) else 5 * (i + 1) + if Overshoots(ss[a], l) then 1 else 0
    ensures a <= k < b && DispatchedAt(ss, ops, k, ss[a].queues[l][i])
  {
    RunInvariant(ss, ops, a);
    BoundIsPositive(ss[a], h, l, i);
    k := WaitIsBounded(ss, ops, a, b, h, l, i);
  }
}
