/** Stretches of a run: when a queued task is dispatched, and how long it is not. */
module WaitingWindows {
  import opened Wrappers
  import opened Scheduling
  import opened SchedulerRuns

  /** Call `k` dispatches `t`. */
  ghost predicate DispatchedAt<T>(ss: seq<Sched<T>>, ops: seq<Op<T>>, k: nat, t: T) {
    k < |ops| && k < |ss| && ops[k] == Next && Shape(ss[k]) && Schedule(ss[k]).1 == Some(t)
  }

  ghost predicate DispatchedIn<T>(ss: seq<Sched<T>>, ops: seq<Op<T>>, a: nat, t: T) {
    exists k :: a <= k < |ops| && DispatchedAt(ss, ops, k, t)
  }

  // First in, first out

  /** The task a call dispatches heads its queue. */
  lemma ChosenHeadsQueue<T>(s: Sched<T>, p: nat, i: nat)
    requires Inv(s) && p < LEVELS && i < |s.queues[p]| && Schedule(s).1 == Some(s.queues[p][i])
    ensures i == 0
  {
    var low, top := FirstFrom(s.queues, s.current + 1), FirstFrom(s.queues, 0);
    var q := if s.counter[s.current] >= MAX_SAMEPRIO_LENGTH && low < LEVELS then low else top;
    assert s.queues[q][0] == s.queues[p][i];
    assert s.priority[s.queues[q][0]] == q && s.priority[s.queues[p][i]] == p;
  }

  lemma CallKeepsAhead<T>(s: Sched<T>, op: Op<T>, p: nat, i: nat, j: nat) returns (i': nat, j': nat)
    requires Legal(s, op) && p < LEVELS && i < j < |s.queues[p]|
    requires op == Next ==> Schedule(s).1 != Some(s.queues[p][i])
    ensures var q := Do(s, op).0.queues;
      |q| == LEVELS && i' < j' < |q[p]| && q[p][i'] == s.queues[p][i] && q[p][j'] == s.queues[p][j]
  {
    QueuesAreFifo(s, op, p);
    i', j' := i, j;
    if |Do(s, op).0.queues[p]| < |s.queues[p]| { i', j' := i - 1, j - 1; }
  }

  /** Until the earlier of two tasks of one queue is dispatched, it stays ahead. */
  lemma {:induction false} StaysAhead<T>(ss: seq<Sched<T>>, ops: seq<Op<T>>, a: nat, b: nat, p: nat, i: nat, j: nat)
    returns (i': nat, j': nat)
    requires Run(ss, ops) && a <= b <= |ops| && p < LEVELS && Shape(ss[a]) && i < j < |ss[a].queues[p]|
    requires forall k :: a <= k < b ==> !DispatchedAt(ss, ops, k, ss[a].queues[p][i])
    ensures Inv(ss[b]) && i' < j' < |ss[b].queues[p]|
    ensures ss[b].queues[p][i'] == ss[a].queues[p][i] && ss[b].queues[p][j'] == ss[a].queues[p][j]
    decreases b
  {
    RunInvariant(ss, ops, b);
    i', j' := i, j;
    if a < b {
      i', j' := StaysAhead(ss, ops, a, b - 1, p, i, j);
      assert CallAt(ss, ops, b - 1) && !DispatchedAt(ss, ops, b - 1, ss[a].queues[p][i]);
      i', j' := CallKeepsAhead(ss[b - 1], ops[b - 1], p, i', j');
    }
  }

  /** In every run, of two tasks queued at one level the earlier is dispatched
      before the later. */
  lemma FirstInFirstOut<T>(ss: seq<Sched<T>>, ops: seq<Op<T>>, a: nat, b: nat, p: nat, i: nat, j: nat) returns (k: nat)
    requires Run(ss, ops) && a <= b && p < LEVELS && a < |ss| && Shape(ss[a]) && i < j < |ss[a].queues[p]|
    requires DispatchedAt(ss, ops, b, ss[a].queues[p][j])
    ensures a <= k < b && DispatchedAt(ss, ops, k, ss[a].queues[p][i])
  {
    if c :| a <= c < b && DispatchedAt(ss, ops, c, ss[a].queues[p][i]) {
      k := c;
    } else {
      var i', j' := StaysAhead(ss, ops, a, b, p, i, j);
      ChosenHeadsQueue(ss[b], p, j');
      assert false;
    }
  }

  // Windows

  /** Every level above `w` that is empty in `s` is empty in `s'`. */
  ghost predicate NoNewLevel<T>(s: Sched<T>, s': Sched<T>, w: nat) {
    Shape(s) && Shape(s') && forall p :: 0 <= p < w && p < LEVELS && s.queues[p] == [] ==> s'.queues[p] == []
  }

  /** From step `a` on, no level above `w` has ready tasks that had none then. */
  ghost predicate Closed<T>(ss: seq<Sched<T>>, ops: seq<Op<T>>, a: nat, w: nat) {
    Run(ss, ops) && a <= |ops| && forall k :: a <= k <= |ops| ==> NoNewLevel(ss[a], ss[k], w)
  }

  /** Whatever happens after the run `ops`, if no new level above `w` becomes
      ready, `n` calls of `scheduleNextTask` suffice for the task at position `i`
      of queue `l`. */
  ghost predicate ServedWithin<T(!new)>(ss: seq<Sched<T>>, ops: seq<Op<T>>, w: nat, l: nat, i: nat, n: nat)
    requires Run(ss, ops) && Shape(ss[|ops|]) && l < LEVELS && i < |ss[|ops|].queues[l]|
  {
    forall ss', ops' ::
      (Closed(ss', ops', |ops|, w) && ss <= ss' && ops <= ops' && Calls(ops', |ops|, |ops'|) >= n)
      ==> DispatchedIn(ss', ops', |ops|, ss[|ops|].queues[l][i])
  }

  // Waiting

  /** Since step `a` task `t` has waited through `n` calls, and no new level has
      become ready. */
  ghost predicate Stalled<T>(ss: seq<Sched<T>>, ops: seq<Op<T>>, a: nat, t: T, n: nat) {
    Closed(ss, ops, a, LEVELS) && Calls(ops, a, |ops|) == n
    && forall k :: a <= k < |ops| ==> !DispatchedAt(ss, ops, k, t)
  }

  /** A call that leads to `s'` and does not dispatch `t`. */
  ghost predicate Passing<T>(s: Sched<T>, op: Op<T>, t: T, s': Sched<T>) {
    Legal(s, op) && Do(s, op).0 == s' && Do(s, op).1 != Some(t)
  }

  lemma StallOn<T>(ss: seq<Sched<T>>, ops: seq<Op<T>>, op: Op<T>, a: nat, t: T, n: nat, s': Sched<T>)
    returns (ss': seq<Sched<T>>, ops': seq<Op<T>>)
    requires Stalled(ss, ops, a, t, n) && Passing(ss[|ops|], op, t, s') && NoNewLevel(ss[a], s', LEVELS)
    ensures ops' == ops + [op] && ss' == ss + [s']
    ensures Stalled(ss', ops', a, t, n + if op == Next then 1 else 0)
  {
    ss', ops' := Extend(ss, ops, op);
    CallsSnoc(ops, op, a, |ops|);
    ClosedSnoc(ss, ops, ss', ops', s', a);
    UndispatchedSnoc(ss, ops, ss', ops', op, a, t);
  }

  lemma ClosedSnoc<T>(ss: seq<Sched<T>>, ops: seq<Op<T>>, ss': seq<Sched<T>>, ops': seq<Op<T>>, s': Sched<T>, a: nat)
    requires Closed(ss, ops, a, LEVELS) && Run(ss', ops') && |ops'| == |ops| + 1
    requires ss' == ss + [s'] && NoNewLevel(ss[a], s', LEVELS)
    ensures Closed(ss', ops', a, LEVELS)
  {
    forall k | a <= k <= |ops'| ensures NoNewLevel(ss'[a], ss'[k], LEVELS) {
      if k <= |ops| { assert NoNewLevel(ss[a], ss[k], LEVELS); }
    }
  }

  lemma UndispatchedSnoc<T>(ss: seq<Sched<T>>, ops: seq<Op<T>>, ss': seq<Sched<T>>, ops': seq<Op<T>>, op: Op<T>, a: nat, t: T)
    requires |ss| == |ops| + 1 && ss <= ss' && |ss'| == |ops| + 2 && ops' == ops + [op]
    requires Passing(ss[|ops|], op, t, ss'[|ops| + 1])
    requires forall k :: a <= k < |ops| ==> !DispatchedAt(ss, ops, k, t)
    ensures forall k :: a <= k < |ops'| ==> !DispatchedAt(ss', ops', k, t)
  {
    forall k | a <= k < |ops'| ensures !DispatchedAt(ss', ops', k, t) {
      if k < |ops| { assert ss'[k] == ss[k] && ops'[k] == ops[k] && !DispatchedAt(ss, ops, k, t); }
    }
  }

  /** A call that does not choose `t`, and the preemption of `x` after it. */
  ghost predicate RoundWithout<T>(s: Sched<T>, t: T, x: T, s1: Sched<T>, s2: Sched<T>) {
    Passing(s, Next, t, s1) && Passing(s1, Preempt(x), t, s2) && NoNewLevel(s, s1, LEVELS) && NoNewLevel(s, s2, LEVELS)
  }

  lemma StallRound<T>(ss: seq<Sched<T>>, ops: seq<Op<T>>, a: nat, t: T, n: nat, x: T, s1: Sched<T>, s2: Sched<T>)
    returns (ss': seq<Sched<T>>, ops': seq<Op<T>>)
    requires Stalled(ss, ops, a, t, n) && RoundWithout(ss[|ops|], t, x, s1, s2)
    ensures ops' == ops + [Next] + [Preempt(x)] && ss' == ss + [s1] + [s2]
    ensures Stalled(ss', ops', a, t, n + 1)
  {
    assert NoNewLevel(ss[a], ss[|ops|], LEVELS);
    ss', ops' := StallOn(ss, ops, Next, a, t, n, s1);
    ss', ops' := StallOn(ss', ops', Preempt(x), a, t, n + 1, s2);
  }

  lemma CallAddsNoLevel<T>(s: Sched<T>)
    requires Inv(s)
    ensures NoNewLevel(s, Schedule(s).0, LEVELS)
  {
    ScheduleKeeps(s);
  }

  /** Preempting the head `x` of queue `p` after a call puts it back if the call
      took it, and does nothing otherwise. */
  lemma PutBack<T>(s: Sched<T>, p: nat) returns (x: T, s1: Sched<T>, s2: Sched<T>)
    requires Inv(s) && p < LEVELS && s.queues[p] != []
    ensures x == s.queues[p][0] && s1 == Schedule(s).0
    ensures Legal(s1, Preempt(x)) && s2 == OnPreempted(s1, x) && Inv(s2)
    ensures s2.current == s1.current && s2.counter == s1.counter
    ensures s2.queues == if Schedule(s).1 == Some(x) then s1.queues[p := s1.queues[p] + [x]] else s1.queues
    ensures NoNewLevel(s, s1, LEVELS) && NoNewLevel(s, s2, LEVELS)
  {
    x, s1 := s.queues[p][0], Schedule(s).0;
    ScheduleKeeps(s);
    CallAddsNoLevel(s);
    RunsOnlyChosen(s, p);
    s2 := OnPreempted(s1, x);
    DoKeeps(s1, Preempt(x));
  }

  lemma RunsOnlyChosen<T>(s: Sched<T>, p: nat)
    requires Inv(s) && p < LEVELS && s.queues[p] != []
    ensures var x, (s1, r) := s.queues[p][0], Schedule(s);
      x in s1.state && s1.priority == s.priority && s.priority[x] == p && (s1.state[x] == Running <==> r == Some(x))
  {
    assert s.queues[p][0] in s.state && s.state[s.queues[p][0]] == Ready;
  }

  // The first call of a window

  lemma {:induction false} FirstCall<T>(ops: seq<Op<T>>, a: nat, b: nat) returns (k: nat)
    requires a <= b <= |ops| && Calls(ops, a, b) >= 1
    ensures a <= k < b && ops[k] == Next && Calls(ops, a, k) == 0
    ensures Calls(ops, k + 1, b) == Calls(ops, a, b) - 1
    decreases b
  {
    k := b - 1;
    if Calls(ops, a, k) > 0 { k := FirstCall(ops, a, b - 1); }
  }

  /** Until the first call nothing moves: the counter stays, and queues only grow. */
  lemma {:induction false} UntilFirstCall<T>(ss: seq<Sched<T>>, ops: seq<Op<T>>, a: nat, b: nat)
    requires Run(ss, ops) && a <= b <= |ops| && Calls(ops, a, b) == 0
    ensures Inv(ss[a]) && Inv(ss[b]) && ss[b].current == ss[a].current && ss[b].counter == ss[a].counter
    ensures forall p :: 0 <= p < LEVELS ==> ss[a].queues[p] <= ss[b].queues[p]
    decreases b
  {
    RunInvariant(ss, ops, b);
    if a < b {
      UntilFirstCall(ss, ops, a, b - 1);
      assert CallAt(ss, ops, b - 1);
      OthersLeaveCounter(ss[b - 1], ops[b - 1]);
      forall p | 0 <= p < LEVELS ensures ss[a].queues[p] <= ss[b].queues[p] {
        QueuesAreFifo(ss[b - 1], ops[b - 1], p);
      }
    }
  }
}
