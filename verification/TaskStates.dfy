/** The states of the tasks in a run, and the level a task is queued at. */
module TaskStates {
  import opened Wrappers
  import opened Scheduling
  import opened SchedulerRuns
  import opened WaitingWindows

  function Distance(p: int, q: int): nat { if p < q then q - p else p - q }

  /** A task made ready is queued, last, at the level nearest to its priority, and
      its priority is set to that level; no other queue changes. */
  lemma QueuedAtNearest<T>(s: Sched<T>, t: T) returns (p: nat)
    requires Shape(s) && t in s.state && s.state[t] != Ready
    ensures p <= 10 && forall q :: 0 <= q <= 10 && q != p ==> Distance(p, s.priority[t]) < Distance(q, s.priority[t])
    ensures var s' := Do(s, MakeReady(t)).0;
      s'.queues == s.queues[p := s.queues[p] + [t]] && s'.priority == s.priority[t := p] && s'.state == s.state[t := Ready]
      && s'.current == s.current && s'.counter == s.counter
  {
    p := Clamp(s.priority[t]);
  }

  /** A call that changes the state of `t`, and what it changes it to. */
  ghost function Follow<T>(st: TaskState, op: Op<T>, chosen: Option<T>, t: T): TaskState {
    match op
    case MakeReady(u) => if u == t then Ready else st
    case Preempt(u) => if u == t && st == Running then Ready else st
    case Wait(u) => if u == t && st == Running then TaskState.Waiting else st
    case Next => if chosen == Some(t) then Running else st
    case Client(u, st', _) => if u == t then st' else st
  }

  lemma CallFollows<T>(s: Sched<T>, op: Op<T>, t: T)
    requires Inv(s) && Legal(s, op) && t in s.state
    ensures t in Do(s, op).0.state && Do(s, op).0.state[t] == Follow(s.state[t], op, Do(s, op).1, t)
  {
  }

  /** A task once made ready stays ready until a call dispatches it. */
  lemma {:induction false} ReadyUntilDispatched<T>(ss: seq<Sched<T>>, ops: seq<Op<T>>, a: nat, b: nat, t: T)
    requires Run(ss, ops) && a < b <= |ops| && ops[a] == MakeReady(t)
    requires forall k :: a < k < b ==> !DispatchedAt(ss, ops, k, t)
    ensures t in ss[b].state && ss[b].state[t] == Ready
    decreases b
  {
    RunInvariant(ss, ops, b - 1);
    assert CallAt(ss, ops, b - 1);
    if a < b - 1 {
      ReadyUntilDispatched(ss, ops, a, b - 1, t);
      assert !DispatchedAt(ss, ops, b - 1, t);
    }
    CallFollows(ss[b - 1], ops[b - 1], t);
  }

  /** A task dispatched runs until it is preempted, waits, or is made something else. */
  lemma {:induction false} RunsUntilReleased<T>(ss: seq<Sched<T>>, ops: seq<Op<T>>, a: nat, b: nat, t: T)
    requires Run(ss, ops) && a < b <= |ops| && DispatchedAt(ss, ops, a, t) && t in ss[a].state
    requires forall k :: a < k < b ==> ops[k] == Next || ops[k].t != t
    ensures t in ss[b].state && ss[b].state[t] == Running
    decreases b
  {
    RunInvariant(ss, ops, b - 1);
    assert CallAt(ss, ops, b - 1);
    if a < b - 1 { RunsUntilReleased(ss, ops, a, b - 1, t); }
    CallFollows(ss[b - 1], ops[b - 1], t);
  }

  /** The task a call dispatches: the head of the highest ready level, or, after
      four dispatches at the current level, of the highest ready one below it. */
  lemma WhoIsNext<T>(s: Sched<T>) returns (q: nat)
    requires Inv(s) && exists p :: 0 <= p < LEVELS && s.queues[p] != []
    ensures q < LEVELS && s.queues[q] != [] && Do(s, Next).1 == Some(s.queues[q][0])
    ensures if s.counter[s.current] >= 4 && exists p :: s.current < p < LEVELS && s.queues[p] != []
            then q > s.current && forall p :: s.current < p < q ==> s.queues[p] == []
            else forall p :: 0 <= p < q ==> s.queues[p] == []
  {
    var low := FirstFrom(s.queues, s.current + 1);
    q := if s.counter[s.current] >= 4 && low < LEVELS then low else FirstFrom(s.queues, 0);
  }
}
