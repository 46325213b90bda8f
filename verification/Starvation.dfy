/** Who can be kept waiting for ever: the scheduler protects the next lower
    level only, so a task below two ready levels may never be served. */
module Starvation {
  import opened Wrappers
  import opened Scheduling
  import opened SchedulerRuns
  import opened WaitingWindows
  import opened BoundedWaiting
  import opened TightWaiting

  /** Two levels above `l` have ready tasks. */
  ghost predicate TwoAbove<T>(s: Sched<T>, l: nat)
    requires Shape(s)
  {
    exists h1, h2 :: 0 <= h1 < h2 < l && l < LEVELS && s.queues[h1] != [] && s.queues[h2] != []
  }

  /** The counter is full, and `l` is the first level below with ready tasks. */
  ghost predicate ComesNext<T>(s: Sched<T>, l: nat)
    requires Shape(s)
  {
    s.counter[s.current] >= MAX_SAMEPRIO_LENGTH && FirstFrom(s.queues, s.current + 1) == l
  }

  /** The level the next call dispatches from. */
  ghost function Level<T>(s: Sched<T>): nat
    requires Shape(s)
  {
    var low := FirstFrom(s.queues, s.current + 1);
    if s.counter[s.current] >= MAX_SAMEPRIO_LENGTH && low < LEVELS then low else FirstFrom(s.queues, 0)
  }

  /** A call followed by the preemption of the task it chose moves that task from
      the head to the tail of its queue. */
  lemma Rotate<T>(s: Sched<T>) returns (x: T, s1: Sched<T>, s2: Sched<T>)
    requires Inv(s) && FirstFrom(s.queues, 0) < LEVELS
    ensures var p := Level(s); p < LEVELS && s.queues[p] != [] && x == s.queues[p][0] && s2.current == p
    ensures Schedule(s) == (s1, Some(x)) && Legal(s1, Preempt(x)) && s2 == OnPreempted(s1, x) && Inv(s2)
    ensures s2.queues == s.queues[s2.current := s.queues[s2.current][1..] + [x]]
    ensures s2.counter[s2.current] ==
      if s.counter[s.current] < MAX_SAMEPRIO_LENGTH && s2.current == s.current then s.counter[s.current] + 1 else 1
    ensures NoNewLevel(s, s1, LEVELS) && NoNewLevel(s, s2, LEVELS)
  {
    ChosenHead(s);
    x, s1, s2 := PutBack(s, Level(s));
  }

  lemma ChosenHead<T>(s: Sched<T>)
    requires Inv(s) && FirstFrom(s.queues, 0) < LEVELS
    ensures var (p, (s1, r)) := (Level(s), Schedule(s));
      p < LEVELS && s.queues[p] != [] && r == Some(s.queues[p][0]) && s1.current == p
      && s1.queues == s.queues[p := s.queues[p][1..]]
      && s1.counter[p] == if s.counter[s.current] < MAX_SAMEPRIO_LENGTH && p == s.current then s.counter[p] + 1 else 1
  {
  }

  /** With two levels ready above `l`, a call serves `l` only if it comes next,
      and after it `l` does not come next. */
  lemma OthersFirst<T>(s: Sched<T>, l: nat, x: T, s2: Sched<T>)
    requires Inv(s) && Inv(s2) && TwoAbove(s, l) && s2.current == Level(s) < LEVELS && s.queues[s2.current] != []
    requires s2.queues == s.queues[s2.current := s.queues[s2.current][1..] + [x]]
    requires s2.counter[s2.current] ==
      if s.counter[s.current] < MAX_SAMEPRIO_LENGTH && s2.current == s.current then s.counter[s.current] + 1 else 1
    ensures s2.current == l <==> ComesNext(s, l)
    ensures TwoAbove(s2, l) && !ComesNext(s2, l)
  {
    var h1, h2 :| 0 <= h1 < h2 < l && l < LEVELS && s.queues[h1] != [] && s.queues[h2] != [];
    assert s2.queues[h1] != [] && s2.queues[h2] != [];
    assert FirstFrom(s.queues, 0) <= h1 && FirstFrom(s2.queues, 0) <= h1;
    assert s2.current <= h1 ==> FirstFrom(s2.queues, s2.current + 1) <= h2;
  }

  /** One round in which the task at position `i` of queue `l` is passed over. */
  lemma PassedOver<T>(s: Sched<T>, l: nat, i: nat) returns (x: T, s1: Sched<T>, s2: Sched<T>, j: nat)
    requires Inv(s) && TwoAbove(s, l) && i < |s.queues[l]| && !(i == 0 && ComesNext(s, l))
    ensures RoundWithout(s, s.queues[l][i], x, s1, s2) && Schedule(s).1 == Some(x)
    ensures Inv(s2) && TwoAbove(s2, l) && !ComesNext(s2, l) && j < |s2.queues[l]| && s2.queues[l][j] == s.queues[l][i]
  {
    SomeReady(s, l);
    x, s1, s2 := Rotate(s);
    OthersFirst(s, l, x, s2);
    j := if s2.current == l then i - 1 else i;
    OtherTask(s, s2.current, l, i);
  }

  lemma SomeReady<T>(s: Sched<T>, l: nat)
    requires Shape(s) && TwoAbove(s, l)
    ensures FirstFrom(s.queues, 0) < LEVELS
  {
    var h1, h2 :| 0 <= h1 < h2 < l && l < LEVELS && s.queues[h1] != [] && s.queues[h2] != [];
    assert FirstFrom(s.queues, 0) <= h1;
  }

  /** The head of a queue is no task further back or of another queue. */
  lemma OtherTask<T>(s: Sched<T>, p: nat, l: nat, i: nat)
    requires Inv(s) && p < LEVELS && l < LEVELS && s.queues[p] != [] && i < |s.queues[l]| && (p == l ==> i > 0)
    ensures s.queues[p][0] != s.queues[l][i]
  {
    assert s.priority[s.queues[p][0]] == p && s.priority[s.queues[l][i]] == l;
  }

  /** From step `a` on the run only calls the scheduler and preempts the task it chose. */
  ghost predicate Rounds<T>(ss: seq<Sched<T>>, ops: seq<Op<T>>, a: nat) {
    |ss| == |ops| + 1 && a <= |ops| && (|ops| - a) % 2 == 0
    && forall k :: a <= k < |ops| && (k - a) % 2 == 0 ==> RoundAt(ss, ops, k)
  }

  ghost predicate RoundAt<T>(ss: seq<Sched<T>>, ops: seq<Op<T>>, k: nat) {
    k + 1 < |ops| && k < |ss| && Shape(ss[k]) && ops[k] == Next
    && Schedule(ss[k]).1.Some? && ops[k + 1] == Preempt(Schedule(ss[k]).1.value)
  }

  lemma OneMoreRound<T>(ss: seq<Sched<T>>, ops: seq<Op<T>>, a: nat, x: T, s1: Sched<T>, s2: Sched<T>)
    requires Rounds(ss, ops, a) && Shape(ss[|ops|]) && Schedule(ss[|ops|]).1 == Some(x)
    ensures Rounds(ss + [s1] + [s2], ops + [Next] + [Preempt(x)], a)
  {
    var ss', ops' := ss + [s1] + [s2], ops + [Next] + [Preempt(x)];
    forall k | a <= k < |ops'| && (k - a) % 2 == 0 ensures RoundAt(ss', ops', k) {
      if k < |ops| { assert RoundAt(ss, ops, k); }
    }
  }

  /** The task at position `i` of queue `l` has waited through `n` calls, and can
      go on waiting. */
  ghost predicate Passable<T>(ss: seq<Sched<T>>, ops: seq<Op<T>>, a: nat, l: nat, i: nat, t: T, n: nat) {
    Stalled(ss, ops, a, t, n) && Rounds(ss, ops, a) && Starved(ss[|ops|], l, i, t)
  }

  ghost predicate Starved<T>(s: Sched<T>, l: nat, i: nat, t: T) {
    Inv(s) && TwoAbove(s, l) && i < |s.queues[l]| && s.queues[l][i] == t && !(i == 0 && ComesNext(s, l))
  }

  lemma StarvesOnce<T>(ss: seq<Sched<T>>, ops: seq<Op<T>>, a: nat, l: nat, i: nat, t: T, n: nat)
    returns (ss': seq<Sched<T>>, ops': seq<Op<T>>, j: nat)
    requires Passable(ss, ops, a, l, i, t, n)
    ensures ss <= ss' && ops <= ops' && Passable(ss', ops', a, l, j, t, n + 1)
  {
    var x, s1, s2;
    x, s1, s2, j := PassedOver(ss[|ops|], l, i);
    OneMoreRound(ss, ops, a, x, s1, s2);
    ss', ops' := StallRound(ss, ops, a, t, n, x, s1, s2);
  }

  lemma {:induction false} StarvesFor<T>(ss: seq<Sched<T>>, ops: seq<Op<T>>, a: nat, l: nat, i: nat, t: T, n: nat, m: nat)
    returns (ss': seq<Sched<T>>, ops': seq<Op<T>>)
    requires Passable(ss, ops, a, l, i, t, n)
    ensures ss <= ss' && ops <= ops' && Stalled(ss', ops', a, t, n + m) && Rounds(ss', ops', a)
    decreases m
  {
    ss', ops' := ss, ops;
    if m > 0 {
      var j;
      ss', ops', j := StarvesOnce(ss, ops, a, l, i, t, n);
      ss', ops' := StarvesFor(ss', ops', a, l, j, t, n + 1, m - 1);
    }
  }

  /** From every reachable state with two levels ready above `l`, a task that does
      not come next waits through any number of calls if each task chosen is
      preempted at once; no level becomes ready that was not. */
  lemma Starves<T>(ss: seq<Sched<T>>, ops: seq<Op<T>>, l: nat, i: nat, n: nat)
    returns (ss': seq<Sched<T>>, ops': seq<Op<T>>)
    requires Run(ss, ops) && Shape(ss[|ops|]) && TwoAbove(ss[|ops|], l) && i < |ss[|ops|].queues[l]|
    requires !(i == 0 && ComesNext(ss[|ops|], l))
    ensures ss <= ss' && ops <= ops' && Stalled(ss', ops', |ops|, ss[|ops|].queues[l][i], n) && Rounds(ss', ops', |ops|)
  {
    RunInvariant(ss, ops, |ops|);
    ss', ops' := StarvesFor(ss, ops, |ops|, l, i, ss[|ops|].queues[l][i], 0, n);
  }

  // When a task is certain to be served

  /** The head of the level that comes next is served by the first call. */
  lemma NextIsServed<T>(ss: seq<Sched<T>>, ops: seq<Op<T>>, a: nat, l: nat) returns (k: nat)
    requires Closed(ss, ops, a, l) && Inv(ss[a]) && l < LEVELS && ss[a].queues[l] != [] && ComesNext(ss[a], l)
    requires Calls(ops, a, |ops|) >= 1
    ensures a <= k < |ops| && DispatchedAt(ss, ops, k, ss[a].queues[l][0])
  {
    k := FirstCall(ops, a, |ops|);
    UntilFirstCall(ss, ops, a, k);
    assert NoNewLevel(ss[a], ss[k], l);
    assert ss[a].queues[l] <= ss[k].queues[l];
    StillNext(ss[a], ss[k], l);
  }

  lemma StillNext<T>(s: Sched<T>, s': Sched<T>, l: nat)
    requires Inv(s) && Inv(s') && NoNewLevel(s, s', l) && l < LEVELS && ComesNext(s, l)
    requires s'.current == s.current && s'.counter == s.counter && s.queues[l] != [] && s.queues[l] <= s'.queues[l]
    ensures Schedule(s').1 == Some(s.queues[l][0])
  {
    assert FirstFrom(s'.queues, s'.current + 1) == l;
    assert s'.queues[l][0] == s.queues[l][0];
  }

  lemma AtMostOneAbove<T>(s: Sched<T>, l: nat) returns (h: int)
    requires Shape(s) && l < LEVELS && !TwoAbove(s, l)
    ensures OneAbove(s, h, l)
  {
    h := FirstFrom(s.queues, 0);
    if h >= l { h := -1; }
  }

  lemma ServedAnyway<T>(ss: seq<Sched<T>>, ops: seq<Op<T>>, ss': seq<Sched<T>>, ops': seq<Op<T>>, l: nat, i: nat)
    requires Run(ss, ops) && Shape(ss[|ops|]) && l < LEVELS && i < |ss[|ops|].queues[l]|
    requires !TwoAbove(ss[|ops|], l) || (i == 0 && ComesNext(ss[|ops|], l))
    requires Closed(ss', ops', |ops|, l) && ss <= ss' && ops <= ops' && Calls(ops', |ops|, |ops'|) >= 5 * (i + 1) + 1
    ensures DispatchedIn(ss', ops', |ops|, ss[|ops|].queues[l][i])
  {
    var a := |ops|;
    RunInvariant(ss, ops, a);
    assert ss'[a] == ss[a];
    var k;
    if TwoAbove(ss[a], l) {
      k := NextIsServed(ss', ops', a, l);
    } else {
      var h := AtMostOneAbove(ss[a], l);
      StaysAbove(ss', ops', a, h, l);
      k := WaitInCalls(ss', ops', a, |ops'|, h, l, i);
    }
  }

  /** From every reachable state, as long as no new level above `l` becomes ready:
      some number of calls always suffices for the task at position `i` of queue
      `l` exactly if at most one level above is ready, or the task comes next. */
  lemma ServedIff<T(!new)>(ss: seq<Sched<T>>, ops: seq<Op<T>>, l: nat, i: nat)
    requires Run(ss, ops) && Shape(ss[|ops|]) && l < LEVELS && i < |ss[|ops|].queues[l]|
    ensures (exists n: nat :: ServedWithin(ss, ops, l, l, i, n)) <==>
      !TwoAbove(ss[|ops|], l) || (i == 0 && ComesNext(ss[|ops|], l))
  {
    if !TwoAbove(ss[|ops|], l) || (i == 0 && ComesNext(ss[|ops|], l)) {
      forall ss', ops' | Closed(ss', ops', |ops|, l) && ss <= ss' && ops <= ops' && Calls(ops', |ops|, |ops'|) >= 5 * (i + 1) + 1
        ensures DispatchedIn(ss', ops', |ops|, ss[|ops|].queues[l][i])
      {
        ServedAnyway(ss, ops, ss', ops', l, i);
      }
      assert ServedWithin(ss, ops, l, l, i, 5 * (i + 1) + 1);
    } else {
      forall n: nat ensures !ServedWithin(ss, ops, l, l, i, n) {
        var ss', ops' := Starves(ss, ops, l, i, n);
        ClosedAbove(ss', ops', |ops|, l);
        assert !DispatchedIn(ss', ops', |ops|, ss[|ops|].queues[l][i]);
      }
    }
  }

  lemma ClosedAbove<T>(ss: seq<Sched<T>>, ops: seq<Op<T>>, a: nat, l: nat)
    requires Closed(ss, ops, a, LEVELS) && l <= LEVELS
    ensures Closed(ss, ops, a, l)
  {
    forall k | a <= k <= |ops| ensures NoNewLevel(ss[a], ss[k], l) { assert NoNewLevel(ss[a], ss[k], LEVELS); }
  }

  // The tasks of the program's own example that get ready: 0, 1 and 7, of priorities 0, 1 and 5

  /** They exist and wait. */
  ghost function Waiting(): Sched<nat> {
    Sched(seq(LEVELS, _ => []), 0, seq(LEVELS, _ => 0),
          map[0 := TaskState.Waiting, 1 := TaskState.Waiting, 7 := TaskState.Waiting], map[0 := 0, 1 := 1, 7 := 5])
  }

  lemma Begin() returns (ss: seq<Sched<nat>>)
    ensures Run(ss, []) && ss == [Waiting()]
  {
    ss := [Waiting()];
  }

  /** `onTaskReady` for a task that is not. */
  lemma AddReady(ss: seq<Sched<nat>>, ops: seq<Op<nat>>, t: nat) returns (ss': seq<Sched<nat>>, ops': seq<Op<nat>>)
    requires Run(ss, ops) && Shape(ss[|ops|])
    requires var s := ss[|ops|];
      t in s.state && s.state[t] != Ready && s.state[t] != Running && 0 <= s.priority[t] < LEVELS
    ensures Run(ss', ops') && ss <= ss' && ops <= ops' && Shape(ss'[|ops'|])
    ensures var (s, s') := (ss[|ops|], ss'[|ops'|]);
      var p := s.priority[t];
      s'.queues == s.queues[p := s.queues[p] + [t]] && (s.queues[p] == [] ==> s'.queues[p] == [t]) && s'.state == s.state[t := Ready] && s'.priority == s.priority
      && s'.current == s.current && s'.counter == s.counter
  {
    ss', ops' := Extend(ss, ops, MakeReady(t));
    assert ss[|ops|].priority[t := ss[|ops|].priority[t]] == ss[|ops|].priority;
  }

  /** Task 1 alone is ready, and was dispatched the last `c` times. */
  ghost predicate Alone(s: Sched<nat>, c: nat) {
    Shape(s) && (forall p :: 0 <= p < LEVELS ==> s.queues[p] == if p == 1 then [1] else [])
    && s.counter[s.current] == c && (c > 0 ==> s.current == 1)
    && s.state == Waiting().state[1 := Ready] && s.priority == Waiting().priority
  }

  ghost predicate Leads<T>(s: Sched<T>, op: Op<T>, s': Sched<T>) {
    Legal(s, op) && Do(s, op).0 == s'
  }

  lemma ExtendTwice<T>(ss: seq<Sched<T>>, ops: seq<Op<T>>, op1: Op<T>, op2: Op<T>, s1: Sched<T>, s2: Sched<T>)
    returns (ss': seq<Sched<T>>, ops': seq<Op<T>>)
    requires Run(ss, ops) && Leads(ss[|ops|], op1, s1) && Leads(s1, op2, s2)
    ensures Run(ss', ops') && ops' == ops + [op1] + [op2] && ss'[|ops'|] == s2
  {
    ss', ops' := Extend(ss, ops, op1);
    ss', ops' := Extend(ss', ops', op2);
  }

  lemma AloneCall(s: Sched<nat>, c: nat)
    requires Alone(s, c) && c < MAX_SAMEPRIO_LENGTH
    ensures s.queues[1] == [1] && Schedule(s) == (Dispatch(s, 1, c + 1), Some(1))
  {
    assert FirstFrom(s.queues, 0) == 1;
  }

  lemma AloneBack(s: Sched<nat>, c: nat)
    requires Alone(s, c) && s.queues[1] == [1]
    ensures Alone(OnPreempted(Dispatch(s, 1, c + 1), 1), c + 1)
  {
    var s1 := Dispatch(s, 1, c + 1);
    assert [1][1..] + [1] == [1];
    assert s1.queues[1 := s1.queues[1] + [1]] == s.queues;
    assert s1.state[1 := Ready] == s.state;
  }

  lemma AloneAgain(s: Sched<nat>, c: nat) returns (s1: Sched<nat>, s2: Sched<nat>)
    requires Alone(s, c) && c < MAX_SAMEPRIO_LENGTH
    ensures Leads(s, Next, s1) && Leads(s1, Preempt(1), s2) && Alone(s2, c + 1)
  {
    AloneCall(s, c);
    AloneBack(s, c);
    s1 := Dispatch(s, 1, c + 1);
    s2 := OnPreempted(s1, 1);
  }

  lemma AloneFirst() returns (ss: seq<Sched<nat>>, ops: seq<Op<nat>>)
    ensures Run(ss, ops) && Alone(ss[|ops|], 0)
  {
    ss := Begin();
    ss, ops := AddReady(ss, [], 1);
  }

  /** `c` rounds in a row. */
  lemma {:induction false} InARow(c: nat) returns (ss: seq<Sched<nat>>, ops: seq<Op<nat>>)
    requires c <= MAX_SAMEPRIO_LENGTH
    ensures Run(ss, ops) && Alone(ss[|ops|], c)
  {
    if c == 0 {
      ss, ops := AloneFirst();
    } else {
      ss, ops := InARow(c - 1);
      var s1, s2 := AloneAgain(ss[|ops|], c - 1);
      ss, ops := ExtendTwice(ss, ops, Next, Preempt(1), s1, s2);
    }
  }

  // The example program

  /** No task is ready, and task 1 was dispatched the last `c` times. */
  ghost predicate Idle(s: Sched<nat>, c: nat) {
    Shape(s) && (forall p :: 0 <= p < LEVELS ==> s.queues[p] == [])
    && s.counter[s.current] == c && (c > 0 ==> s.current == 1)
    && s.state == Waiting().state && s.priority == Waiting().priority
  }

  /** A call in vain; then task 1 becomes ready. */
  lemma WakesUp(s: Sched<nat>, c: nat)
    requires Idle(s, c) && c < MAX_SAMEPRIO_LENGTH
    ensures Leads(s, Next, s) && Leads(s, MakeReady(1), OnReady(s, 1))
    ensures Alone(OnReady(s, 1), c)
  {
    assert s.priority[1 := 1] == s.priority;
    assert [] + [1] == [1];
  }

  /** Task 1 is dispatched; then it waits. */
  lemma Blocks(s: Sched<nat>, c: nat) returns (s1: Sched<nat>, s2: Sched<nat>)
    requires Alone(s, c) && c < MAX_SAMEPRIO_LENGTH
    ensures Leads(s, Next, s1) && Leads(s1, Wait(1), s2) && Idle(s2, c + 1)
  {
    AloneCall(s, c);
    s1 := Dispatch(s, 1, c + 1);
    s2 := OnWaiting(s1, 1);
    assert s1.state[1 := TaskState.Waiting] == Waiting().state;
  }

  /** Task 1 runs, dispatched three times in a row, and no task is ready. */
  ghost predicate Running1(s: Sched<nat>) {
    Shape(s) && (forall p :: 0 <= p < LEVELS ==> s.queues[p] == []) && s.current == 1 && s.counter[1] == 3
    && s.state == Waiting().state[1 := Running] && s.priority == Waiting().priority
  }

  lemma ThirdTime(s: Sched<nat>) returns (s1: Sched<nat>)
    requires Alone(s, 2)
    ensures Leads(s, Next, s1) && Running1(s1)
  {
    AloneCall(s, 2);
    s1 := Dispatch(s, 1, 3);
    assert s1.state == Waiting().state[1 := Running];
  }

  /** The three tasks are ready, and task 1 was dispatched three times in a row. */
  ghost predicate AllReady(s: Sched<nat>) {
    Shape(s) && s.queues[0] == [0] && s.queues[1] == [1] && s.queues[5] == [7] && s.current == 1 && s.counter[1] == 3
  }

  lemma AllGetReady(s: Sched<nat>) returns (s1: Sched<nat>, s2: Sched<nat>, s3: Sched<nat>)
    requires Running1(s)
    ensures Leads(s, MakeReady(0), s1) && Leads(s1, MakeReady(7), s2) && Leads(s2, Preempt(1), s3) && AllReady(s3)
  {
    s1 := OnReady(s, 0);
    s2 := OnReady(s1, 7);
    s3 := OnPreempted(s2, 1);
  }

  /** The program's calls up to its loop, and the first of the loop. */
  ghost function Prefix(): seq<Op<nat>> {
    [] + [Next] + [MakeReady(1)] + [Next] + [Preempt(1)] + [Next] + [Wait(1)] + [Next] + [MakeReady(1)] + [Next]
    + [MakeReady(0)] + [MakeReady(7)] + [Preempt(1)]
  }

  lemma FirstCalls() returns (ss: seq<Sched<nat>>, ops: seq<Op<nat>>)
    ensures Run(ss, ops) && Alone(ss[|ops|], 1)
    ensures ops == [] + [Next] + [MakeReady(1)] + [Next] + [Preempt(1)]
  {
    ss := Begin();
    WakesUp(ss[0], 0);
    ss, ops := ExtendTwice(ss, [], Next, MakeReady(1), ss[0], OnReady(ss[0], 1));
    var s1, s2 := AloneAgain(ss[|ops|], 0);
    ss, ops := ExtendTwice(ss, ops, Next, Preempt(1), s1, s2);
  }

  lemma BeforeTheLoop() returns (ss: seq<Sched<nat>>, ops: seq<Op<nat>>)
    ensures Run(ss, ops) && Alone(ss[|ops|], 2)
    ensures ops == [] + [Next] + [MakeReady(1)] + [Next] + [Preempt(1)] + [Next] + [Wait(1)] + [Next] + [MakeReady(1)]
  {
    ss, ops := FirstCalls();
    var s1, s2 := Blocks(ss[|ops|], 1);
    ss, ops := ExtendTwice(ss, ops, Next, Wait(1), s1, s2);
    WakesUp(s2, 2);
    ss, ops := ExtendTwice(ss, ops, Next, MakeReady(1), s2, OnReady(s2, 1));
  }

  lemma AtTheLoop() returns (ss: seq<Sched<nat>>, ops: seq<Op<nat>>)
    ensures Run(ss, ops) && ops == Prefix() && AllReady(ss[|ops|])
  {
    ss, ops := BeforeTheLoop();
    var s1 := ThirdTime(ss[|ops|]);
    var s2, s3, s4 := AllGetReady(s1);
    ss, ops := ExtendTwice(ss, ops, Next, MakeReady(0), s1, s2);
    ss, ops := ExtendTwice(ss, ops, MakeReady(7), Preempt(1), s3, s4);
  }

  /** The example's loop, for as long as one likes: the task of priority 5, which
      it expects in the end, is never dispatched. */
  lemma LowestStarves(n: nat) returns (ss: seq<Sched<nat>>, ops: seq<Op<nat>>, a: nat)
    ensures Rounds(ss, ops, a) && ops[..a] == Prefix()
    ensures Stalled(ss, ops, a, 7, n) && Shape(ss[a]) && ss[a].queues[5] == [7]
  {
    ss, ops := AtTheLoop();
    a := |ops|;
    assert TwoAbove(ss[a], 5) by { assert ss[a].queues[0] != [] && ss[a].queues[1] != []; }
    ss, ops := Starves(ss, ops, 5, 0, n);
  }

  /** The counter of level 1 is full, and all three are ready. */
  lemma FullCounter() returns (ss: seq<Sched<nat>>, ops: seq<Op<nat>>)
    ensures Run(ss, ops)
    ensures var s := ss[|ops|];
      Shape(s) && s.queues[0] == [0] && s.queues[1] == [1] && s.queues[5] == [7] && s.current == 1 && s.counter[1] == MAX_SAMEPRIO_LENGTH
  {
    ss, ops := InARow(MAX_SAMEPRIO_LENGTH);
    ss, ops := AddReady(ss, ops, 0);
    ss, ops := AddReady(ss, ops, 7);
  }

  /** The extra call of the waiting bound is needed in a run from the start: the
      task at the head of queue 1, with one level above it, waits through five
      calls. */
  lemma FiveCallsAreNotEnough() returns (ss: seq<Sched<nat>>, ops: seq<Op<nat>>, a: nat)
    ensures Stalled(ss, ops, a, 1, 5) && ss[a].queues[1] == [1] && OneAbove(ss[a], 0, 1)
  {
    ss, ops := FullCounter();
    a := |ops|;
    RunInvariant(ss, ops, a);
    assert LowerReady(ss[a], 1) by { assert ss[a].queues[5] != []; }
    ss, ops := BoundFails(ss, ops, 0, 1, 0);
  }
}
