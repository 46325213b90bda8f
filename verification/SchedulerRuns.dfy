/** Every sequence of scheduler calls: the invariant, and who waits how long. */
module SchedulerRuns {
  import opened Wrappers
  import opened Scheduling

  datatype Op<T> =
    | MakeReady(t: T)
    | Preempt(t: T)
    | Wait(t: T)
    | Next
    | Client(t: T, state: TaskState, priority: int)

  /** Calls are about tasks that exist.  A client changes a task itself only while
      it is not ready, and then not into a ready or running one. */
  ghost predicate Legal<T>(s: Sched<T>, op: Op<T>) {
    Shape(s) &&
    match op
    case Next => true
    case Client(t, st, _) => t in s.state && s.state[t] != Ready && st != Ready && st != Running
    case _ => op.t in s.state
  }

  function Do<T>(s: Sched<T>, op: Op<T>): (r: (Sched<T>, Option<T>))
    requires Legal(s, op)
  {
    match op
    case MakeReady(t) => (OnReady(s, t), None)
    case Preempt(t) => (OnPreempted(s, t), None)
    case Wait(t) => (OnWaiting(s, t), None)
    case Next => Schedule(s)
    case Client(t, st, p) => (s.(state := s.state[t := st], priority := s.priority[t := p]), None)
  }

  lemma SamePriority<T>(s: Sched<T>, t: T)
    requires t in s.priority
    ensures s.(priority := s.priority[t := s.priority[t]]) == s
  {
    assert s.priority[t := s.priority[t]] == s.priority;
  }

  lemma ScheduleKeeps<T>(s: Sched<T>)
    requires Inv(s)
    ensures Inv(Schedule(s).0)
  {
    var low := FirstFrom(s.queues, s.current + 1);
    if s.counter[s.current] >= MAX_SAMEPRIO_LENGTH && low < LEVELS {
      DispatchKeeps(s, low, 1);
    } else {
      var s1 := if s.counter[s.current] >= MAX_SAMEPRIO_LENGTH then s.(counter := s.counter[s.current := 0]) else s;
      assert Inv(s1);
      var p := FirstFrom(s.queues, 0);
      if p < LEVELS { DispatchKeeps(s1, p, if p == s.current then s1.counter[p] + 1 else 1); }
    }
  }

  /** Every call keeps the invariant. */
  lemma DoKeeps<T>(s: Sched<T>, op: Op<T>)
    requires Inv(s) && Legal(s, op)
    ensures Inv(Do(s, op).0)
  {
    match op
    case MakeReady(t) => if s.state[t] != Ready { EnqueueKeeps(s, Clamp(s.priority[t]), t); }
    case Preempt(t) =>
      if s.state[t] == Running {
        SamePriority(s, t);
        EnqueueKeeps(s, s.priority[t], t);
      }
    case Next => ScheduleKeeps(s);
    case _ =>
  }

  /** A run from `initScheduler`. */
  ghost predicate Run<T>(ss: seq<Sched<T>>, ops: seq<Op<T>>) {
    |ss| == |ops| + 1 && Init(ss[0])
    && forall i :: 0 <= i < |ops| ==> CallAt(ss, ops, i)
  }

  /** Call `i` of the run. */
  ghost predicate CallAt<T>(ss: seq<Sched<T>>, ops: seq<Op<T>>, i: nat) {
    i < |ops| && i + 1 < |ss| && Legal(ss[i], ops[i]) && ss[i + 1] == Do(ss[i], ops[i]).0
  }

  /** In every run a task is queued exactly when it is ready, once, at its own
      priority, and only the current priority has a counter, at most 4. */
  lemma {:induction false} RunInvariant<T>(ss: seq<Sched<T>>, ops: seq<Op<T>>, i: nat)
    requires Run(ss, ops) && i <= |ops|
    ensures Inv(ss[i])
    decreases i
  {
    if i == 0 {
      InitHolds(ss[0]);
    } else {
      RunInvariant(ss, ops, i - 1);
      assert CallAt(ss, ops, i - 1);
      DoKeeps(ss[i - 1], ops[i - 1]);
    }
  }

  /** First in, first out: a call appends at the tail of one queue, takes from the
      head of one queue, or leaves all queues alone. */
  lemma QueuesAreFifo<T>(s: Sched<T>, op: Op<T>, p: nat)
    requires Legal(s, op) && p < LEVELS
    ensures var (s', r) := Do(s, op);
      |s'.queues| == LEVELS
      && (s'.queues[p] == s.queues[p]
          || (exists t :: s'.queues[p] == s.queues[p] + [t] && t in s'.state && s'.state[t] == Ready && (op == MakeReady(t) || op == Preempt(t)))
          || (op == Next && s.queues[p] != [] && r == Some(s.queues[p][0]) && s'.queues[p] == s.queues[p][1..]))
  {
    var s' := Do(s, op).0;
    match op
    case MakeReady(t) => if s'.queues[p] != s.queues[p] { assert s'.queues[p] == s.queues[p] + [t]; }
    case Preempt(t) => if s'.queues[p] != s.queues[p] { assert s'.queues[p] == s.queues[p] + [t]; }
    case _ =>
  }

  lemma Extend<T>(ss: seq<Sched<T>>, ops: seq<Op<T>>, op: Op<T>) returns (ss': seq<Sched<T>>, ops': seq<Op<T>>)
    requires Run(ss, ops) && Legal(ss[|ops|], op)
    ensures ops' == ops + [op] && ss' == ss + [Do(ss[|ops|], op).0]
    ensures Run(ss', ops')
  {
    ss', ops' := ss + [Do(ss[|ops|], op).0], ops + [op];
    forall i | 0 <= i < |ops'| ensures CallAt(ss', ops', i) {
      if i < |ops| { assert CallAt(ss, ops, i); }
    }
  }

  // Starvation protection for the next lower level

  ghost predicate LowerReady<T>(s: Sched<T>, p: int) {
    |s.queues| == LEVELS && exists q :: p < q < LEVELS && 0 <= q && s.queues[q] != []
  }

  /** Calls of `scheduleNextTask` among `ops[a..b]`. */
  function Calls<T>(ops: seq<Op<T>>, a: nat, b: nat): nat
    requires a <= b <= |ops|
  {
    if a == b then 0 else Calls(ops, a, b - 1) + if ops[b - 1] == Next then 1 else 0
  }

  lemma {:induction false} CallsSnoc<T>(ops: seq<Op<T>>, op: Op<T>, a: nat, b: nat)
    requires a <= b <= |ops|
    ensures Calls(ops + [op], a, b) == Calls(ops, a, b)
    decreases b
  {
    if a < b { CallsSnoc(ops, op, a, b - 1); }
  }

  /** `scheduleNextTask` in state `s` dispatches a task of priority `p`. */
  ghost predicate DispatchesAt<T>(s: Sched<T>, p: int) {
    Shape(s) && Schedule(s).1.Some? && Schedule(s).0.current == p
  }

  lemma FullCounterGoesLower<T>(s: Sched<T>)
    requires Inv(s) && s.counter[s.current] >= MAX_SAMEPRIO_LENGTH && LowerReady(s, s.current)
    ensures Schedule(s).0.current > s.current
  {
  }

  lemma CounterRises<T>(s: Sched<T>, p: int)
    requires Inv(s) && DispatchesAt(s, p) && LowerReady(s, p)
    ensures var s' := Schedule(s).0;
      |s'.counter| == LEVELS && 0 <= p < LEVELS && s'.counter[p] >= 1
      && (s.current == p ==> s'.counter[p] == s.counter[p] + 1 <= MAX_SAMEPRIO_LENGTH)
  {
    if s.current == p && s.counter[p] >= MAX_SAMEPRIO_LENGTH { FullCounterGoesLower(s); }
  }

  lemma OthersLeaveCounter<T>(s: Sched<T>, op: Op<T>)
    requires Legal(s, op) && op != Next
    ensures Do(s, op).0.current == s.current && Do(s, op).0.counter == s.counter
  {
  }

  /** While some lower-priority task stays ready, no five dispatches in a row are
      at one priority. */
  lemma {:induction false} AtMostFourInARow<T>(ss: seq<Sched<T>>, ops: seq<Op<T>>, a: nat, b: nat, p: int)
    requires Run(ss, ops) && a <= b <= |ops|
    requires forall i :: a <= i < b ==> LowerReady(ss[i], p)
    requires forall i :: a <= i < b && ops[i] == Next ==> DispatchesAt(ss[i], p)
    ensures Calls(ops, a, b) <= MAX_SAMEPRIO_LENGTH
    ensures Calls(ops, a, b) > 0 ==>
      Inv(ss[b]) && ss[b].current == p && ss[b].counter[p] >= Calls(ops, a, b)
    decreases b
  {
    RunInvariant(ss, ops, b);
    if a < b {
      AtMostFourInARow(ss, ops, a, b - 1, p);
      RunInvariant(ss, ops, b - 1);
      assert CallAt(ss, ops, b - 1);
      if ops[b - 1] == Next {
        CounterRises(ss[b - 1], p);
      } else {
        OthersLeaveCounter(ss[b - 1], ops[b - 1]);
      }
    }
  }
}
