/** The extra call in the waiting bound is needed, from every reachable state in
    which a full counter sends the next call past the waiting task's level. */
module TightWaiting {
  import opened Wrappers
  import opened Scheduling
  import opened SchedulerRuns
  import opened WaitingWindows
  import opened BoundedWaiting

  /** A full counter at or below level `l`, and a ready task lower still. */
  ghost predicate Passed<T>(s: Sched<T>, l: nat)
    requires Shape(s)
  {
    Overshoots(s, l) && LowerReady(s, s.current)
  }

  /** Level `h` has a ready task, and no call is won against it. */
  ghost predicate Contended<T>(s: Sched<T>, h: nat, l: nat) {
    Inv(s) && h < l < LEVELS && OnlyAbove(s, h, l) && s.queues[h] != []
    && (s.current == h || s.counter[s.current] < MAX_SAMEPRIO_LENGTH || Passed(s, l))
  }

  /** Which task a call dispatches under contention. */
  lemma ContendedCall<T>(s: Sched<T>, h: nat, l: nat)
    requires Contended(s, h, l) && s.queues[l] != []
    ensures var (s', r) := Schedule(s);
      if s.current == h && s.counter[h] >= MAX_SAMEPRIO_LENGTH then
        r == Some(s.queues[l][0]) && s' == Dispatch(s, l, 1)
      else if Passed(s, l) then
        s'.current > l && s'.counter[s'.current] == 1 && s'.queues[l] == s.queues[l] && s'.queues[h] == s.queues[h]
        && OnlyAbove(s', h, l) && r.Some? && r != Some(s.queues[l][0])
      else
        r == Some(s.queues[h][0]) && s' == Dispatch(s, h, if s.current == h then s.counter[h] + 1 else 1)
  {
    var low := FirstFrom(s.queues, s.current + 1);
    if s.counter[s.current] >= MAX_SAMEPRIO_LENGTH {
      if s.current == h { assert low == l; }
    } else {
      assert FirstFrom(s.queues, 0) == h;
    }
  }

  /** A call, and the preemption of what it took from level `h`: the task at
      position `i` of queue `l` comes one call closer, and no more. */
  lemma OneRound<T>(s: Sched<T>, h: nat, l: nat, i: nat) returns (x: T, s1: Sched<T>, s2: Sched<T>, j: nat)
    requires Contended(s, h, l) && i < |s.queues[l]| && Bound(s, h, l, i) >= 2
    requires Passed(s, l) <==> Overshoots(s, l)
    ensures RoundWithout(s, s.queues[l][i], x, s1, s2)
    ensures Contended(s2, h, l) && !Overshoots(s2, l) && j < |s2.queues[l]| && s2.queues[l][j] == s.queues[l][i]
    ensures Bound(s2, h, l, j) == Bound(s, h, l, i) - 1
  {
    ContendedCall(s, h, l);
    x, s1, s2 := PutBack(s, h);
    j := if s.current == h && s.counter[h] >= MAX_SAMEPRIO_LENGTH then i - 1 else i;
  }

  /** Task `t`, at position `i` of queue `l`, is `n` calls from the end of its bound. */
  ghost predicate Bounded<T>(s: Sched<T>, h: nat, l: nat, i: nat, t: T, n: nat) {
    Contended(s, h, l) && i < |s.queues[l]| && s.queues[l][i] == t
    && (Passed(s, l) <==> Overshoots(s, l)) && Bound(s, h, l, i) == n
  }

  lemma StallsOnce<T>(ss: seq<Sched<T>>, ops: seq<Op<T>>, a: nat, h: nat, l: nat, i: nat, t: T, n: nat, m: nat)
    returns (ss': seq<Sched<T>>, ops': seq<Op<T>>, j: nat)
    requires Stalled(ss, ops, a, t, n) && Bounded(ss[|ops|], h, l, i, t, m + 1) && m > 0
    ensures ss <= ss' && ops <= ops' && Stalled(ss', ops', a, t, n + 1) && Bounded(ss'[|ops'|], h, l, j, t, m)
  {
    var x, s1, s2;
    x, s1, s2, j := OneRound(ss[|ops|], h, l, i);
    ss', ops' := StallRound(ss, ops, a, t, n, x, s1, s2);
  }

  /** As many calls pass as the bound allows. */
  lemma {:induction false} StallsFrom<T>(ss: seq<Sched<T>>, ops: seq<Op<T>>, a: nat, h: nat, l: nat, i: nat, t: T, n: nat, m: nat)
    returns (ss': seq<Sched<T>>, ops': seq<Op<T>>)
    requires Stalled(ss, ops, a, t, n) && Bounded(ss[|ops|], h, l, i, t, m + 1)
    ensures ss <= ss' && ops <= ops' && Stalled(ss', ops', a, t, n + m)
    decreases m
  {
    ss', ops' := ss, ops;
    if m > 0 {
      var j;
      ss', ops', j := StallsOnce(ss, ops, a, h, l, i, t, n, m);
      ss', ops' := StallsFrom(ss', ops', a, h, l, j, t, n + 1, m - 1);
    }
  }

  /** If the window starts with level `h` ready and a full counter about to send
      the next call past `l`, the task at position `i` can be kept waiting
      through `5 * (i + 1)` calls. */
  lemma BoundFails<T>(ss: seq<Sched<T>>, ops: seq<Op<T>>, h: nat, l: nat, i: nat)
    returns (ss': seq<Sched<T>>, ops': seq<Op<T>>)
    requires Run(ss, ops) && Contended(ss[|ops|], h, l) && Passed(ss[|ops|], l) && i < |ss[|ops|].queues[l]|
    ensures ss <= ss' && ops <= ops' && Stalled(ss', ops', |ops|, ss[|ops|].queues[l][i], 5 * (i + 1))
  {
    ss', ops' := StallsFrom(ss, ops, |ops|, h, l, i, ss[|ops|].queues[l][i], 0, 5 * (i + 1));
  }

  // Without contention

  /** A full counter at or below `l` is lost if no lower task is ready: the call
      dispatches `h` or `l`, and the rest of the bound is what it would have been. */
  lemma LostCounter<T>(s: Sched<T>, h: int, l: nat, i: nat) returns (j: nat)
    requires Inv(s) && h < l < LEVELS && OnlyAbove(s, h, l) && i < |s.queues[l]|
    requires Overshoots(s, l) && !LowerReady(s, s.current) && Schedule(s).1 != Some(s.queues[l][i])
    ensures var s' := Schedule(s).0;
      j <= i && j < |s'.queues[l]| && s'.queues[l][j] == s.queues[l][i] && Bound(s', h, l, j) < 5 * (i + 1)
  {
    assert s.queues[l] != [];
    assert FirstFrom(s.queues, s.current + 1) == LEVELS;
    var p := FirstFrom(s.queues, 0);
    assert p == l || p == h;
    j := if p == l then i - 1 else i;
  }

  ghost predicate AboveInWindow<T>(ss: seq<Sched<T>>, a: nat, b: nat, h: int, l: nat) {
    b < |ss| && forall k :: a <= k <= b ==> AboveAt(ss, k, h, l)
  }

  /** `5 * (i + 1)` calls suffice: with no level above, without a full counter at
      or below `l`, and with one that finds no lower task. */
  lemma ServedInFives<T>(ss: seq<Sched<T>>, ops: seq<Op<T>>, a: nat, h: int, l: nat, i: nat) returns (k: nat)
    requires Closed(ss, ops, a, LEVELS) && h < l < LEVELS && AboveInWindow(ss, a, |ops|, h, l) && i < |ss[a].queues[l]|
    requires h < 0 || !Passed(ss[a], l)
    requires Calls(ops, a, |ops|) >= 5 * (i + 1)
    ensures a <= k < |ops| && DispatchedAt(ss, ops, k, ss[a].queues[l][i])
  {
    if h < 0 || !Overshoots(ss[a], l) {
      k := WaitInCalls(ss, ops, a, |ops|, h, l, i);
    } else {
      var c := FirstCall(ops, a, |ops|);
      StillLost(ss, ops, a, c, l, i);
      k := AfterLostCounter(ss, ops, c, h, l, i);
    }
  }

  /** Until the first call the counter stands and no lower task becomes ready. */
  lemma StillLost<T>(ss: seq<Sched<T>>, ops: seq<Op<T>>, a: nat, c: nat, l: nat, i: nat)
    requires Closed(ss, ops, a, LEVELS) && a <= c <= |ops| && Calls(ops, a, c) == 0 && l < LEVELS && i < |ss[a].queues[l]|
    requires Overshoots(ss[a], l) && !Passed(ss[a], l)
    ensures Inv(ss[c]) && Overshoots(ss[c], l) && !LowerReady(ss[c], ss[c].current)
    ensures i < |ss[c].queues[l]| && ss[c].queues[l][i] == ss[a].queues[l][i]
  {
    UntilFirstCall(ss, ops, a, c);
    assert NoNewLevel(ss[a], ss[c], LEVELS);
    assert ss[a].queues[l] <= ss[c].queues[l];
  }

  lemma AfterLostCounter<T>(ss: seq<Sched<T>>, ops: seq<Op<T>>, c: nat, h: int, l: nat, i: nat) returns (k: nat)
    requires Run(ss, ops) && c < |ops| && ops[c] == Next && h < l < LEVELS && AboveInWindow(ss, c, |ops|, h, l)
    requires Inv(ss[c]) && i < |ss[c].queues[l]| && Overshoots(ss[c], l) && !LowerReady(ss[c], ss[c].current)
    requires Calls(ops, c + 1, |ops|) >= 5 * (i + 1) - 1
    ensures c <= k < |ops| && DispatchedAt(ss, ops, k, ss[c].queues[l][i])
  {
    k := c;
    if !DispatchedAt(ss, ops, c, ss[c].queues[l][i]) {
      assert CallAt(ss, ops, c) && AboveAt(ss, c, h, l);
      var j := LostCounter(ss[c], h, l, i);
      k := WaitIsBounded(ss, ops, c + 1, |ops|, h, l, j);
    }
  }

  lemma StaysAbove<T>(ss: seq<Sched<T>>, ops: seq<Op<T>>, a: nat, h: int, l: nat)
    requires Closed(ss, ops, a, l) && l < LEVELS && OnlyAbove(ss[a], h, l)
    ensures AboveInWindow(ss, a, |ops|, h, l)
  {
    forall k | a <= k <= |ops| ensures AboveAt(ss, k, h, l) {
      assert NoNewLevel(ss[a], ss[k], l);
    }
  }

  /** The only level above `l` with ready tasks, if there is at most one; -1 for none. */
  ghost predicate OneAbove<T>(s: Sched<T>, h: int, l: nat)
    requires Shape(s)
  {
    -1 <= h < l < LEVELS && OnlyAbove(s, h, l) && (h >= 0 ==> s.queues[h] != [])
  }

  /** With at most one level above ready, `5 * (i + 1)` calls suffice, whatever
      happens but for a new level, exactly unless that level is ready, a full
      counter stands at or below `l`, and a task is ready lower still. */
  lemma BoundIsExact<T(!new)>(ss: seq<Sched<T>>, ops: seq<Op<T>>, h: int, l: nat, i: nat)
    requires Run(ss, ops) && Shape(ss[|ops|]) && OneAbove(ss[|ops|], h, l) && i < |ss[|ops|].queues[l]|
    ensures ServedWithin(ss, ops, LEVELS, l, i, 5 * (i + 1)) <==> h < 0 || !Passed(ss[|ops|], l)
  {
    var a, t := |ops|, ss[|ops|].queues[l][i];
    RunInvariant(ss, ops, a);
    if h >= 0 && Passed(ss[a], l) {
      var ss', ops' := BoundFails(ss, ops, h, l, i);
      assert Closed(ss', ops', a, LEVELS) && !DispatchedIn(ss', ops', a, t);
    } else {
      forall ss', ops' | Closed(ss', ops', a, LEVELS) && ss <= ss' && ops <= ops' && Calls(ops', a, |ops'|) >= 5 * (i + 1)
        ensures DispatchedIn(ss', ops', a, t)
      {
        ServesHere(ss, ops, ss', ops', h, l, i);
      }
    }
  }

  lemma ServesHere<T>(ss: seq<Sched<T>>, ops: seq<Op<T>>, ss': seq<Sched<T>>, ops': seq<Op<T>>, h: int, l: nat, i: nat)
    requires Run(ss, ops) && Shape(ss[|ops|]) && OneAbove(ss[|ops|], h, l) && i < |ss[|ops|].queues[l]|
    requires h < 0 || !Passed(ss[|ops|], l)
    requires Closed(ss', ops', |ops|, LEVELS) && ss <= ss' && ops <= ops' && Calls(ops', |ops|, |ops'|) >= 5 * (i + 1)
    ensures DispatchedIn(ss', ops', |ops|, ss[|ops|].queues[l][i])
  {
    var a := |ops|;
    assert ss'[a] == ss[a];
    forall k | a <= k <= |ops'| ensures NoNewLevel(ss'[a], ss'[k], l) { assert NoNewLevel(ss'[a], ss'[k], LEVELS); }
    StaysAbove(ss', ops', a, h, l);
    var k := ServedInFives(ss', ops', a, h, l, i);
  }

  /** `n` calls suffice as long as only level `h` above `l` has ready tasks; lower
      levels may come and go. */
  ghost predicate ServedUnder<T(!new)>(ss: seq<Sched<T>>, ops: seq<Op<T>>, h: int, l: nat, i: nat, n: nat)
    requires Run(ss, ops) && Shape(ss[|ops|]) && l < LEVELS && i < |ss[|ops|].queues[l]|
  {
    forall ss', ops' ::
      (Run(ss', ops') && ss <= ss' && ops <= ops' && AboveInWindow(ss', |ops|, |ops'|, h, l) && Calls(ops', |ops|, |ops'|) >= n)
      ==> DispatchedIn(ss', ops', |ops|, ss[|ops|].queues[l][i])
  }

  /** With lower levels free to become ready, and one that is, it is the full
      counter alone that decides. */
  lemma BoundIsExactUnder<T(!new)>(ss: seq<Sched<T>>, ops: seq<Op<T>>, h: nat, l: nat, i: nat)
    requires Run(ss, ops) && Shape(ss[|ops|]) && OneAbove(ss[|ops|], h, l) && i < |ss[|ops|].queues[l]|
    requires LowerReady(ss[|ops|], ss[|ops|].current)
    ensures ServedUnder(ss, ops, h, l, i, 5 * (i + 1)) <==> !Overshoots(ss[|ops|], l)
  {
    var a, t := |ops|, ss[|ops|].queues[l][i];
    RunInvariant(ss, ops, a);
    if Overshoots(ss[a], l) {
      var ss', ops' := BoundFails(ss, ops, h, l, i);
      forall k | a <= k <= |ops'| ensures NoNewLevel(ss'[a], ss'[k], l) { assert NoNewLevel(ss'[a], ss'[k], LEVELS); }
      StaysAbove(ss', ops', a, h, l);
      assert !DispatchedIn(ss', ops', a, t);
    } else {
      forall ss', ops' | Run(ss', ops') && ss <= ss' && ops <= ops' && AboveInWindow(ss', a, |ops'|, h, l)
        && Calls(ops', a, |ops'|) >= 5 * (i + 1)
        ensures DispatchedIn(ss', ops', a, t)
      {
        assert ss'[a] == ss[a];
        var k := WaitInCalls(ss', ops', a, |ops'|, h, l, i);
      }
    }
  }
}
