/** The priority scheduler on values: eleven ready queues, and a counter of
    consecutive dispatches at one priority.  0 is the highest priority. */
module Scheduling {
  import opened Wrappers

  const MAX_PRIORITY := 10
  const LEVELS := 11
  const MAX_SAMEPRIO_LENGTH := 4

  datatype TaskState = Unused | Ready | Running | Waiting | Terminated

  /** `state` and `priority` are the fields of the tasks themselves. */
  datatype Sched<T> = Sched(queues: seq<seq<T>>, current: int, counter: seq<int>,
                            state: map<T, TaskState>, priority: map<T, int>)

  ghost predicate Shape<T>(s: Sched<T>) {
    |s.queues| == LEVELS && |s.counter| == LEVELS && 0 <= s.current < LEVELS && s.state.Keys == s.priority.Keys
  }

  ghost predicate Init<T>(s: Sched<T>) {
    Shape(s) && s.current == 0
    && (forall p :: 0 <= p < LEVELS ==> s.queues[p] == [] && s.counter[p] == 0)
    && (forall t :: t in s.state ==> s.state[t] == Unused || s.state[t] == Waiting || s.state[t] == Terminated)
  }

  function Clamp(p: int): int { if p < 0 then 0 else if p > MAX_PRIORITY then MAX_PRIORITY else p }

  function Enqueue<T>(s: Sched<T>, p: int, t: T): Sched<T>
    requires 0 <= p < |s.queues|
  {
    s.(queues := s.queues[p := s.queues[p] + [t]], state := s.state[t := Ready])
  }

  function OnReady<T>(s: Sched<T>, t: T): Sched<T>
    requires t in s.state && t in s.priority && |s.queues| == LEVELS
  {
    if s.state[t] == Ready then s
    else
      var p := Clamp(s.priority[t]);
      Enqueue(s.(priority := s.priority[t := p]), p, t)
  }

  /** A priority outside the array of queues would make this a store outside it;
      the value then has the task in no queue.  In no run does that happen. */
  function OnPreempted<T>(s: Sched<T>, t: T): Sched<T>
    requires t in s.state && t in s.priority && |s.queues| == LEVELS
  {
    if s.state[t] != Running then s
    else if 0 <= s.priority[t] < LEVELS then Enqueue(s, s.priority[t], t)
    else s.(state := s.state[t := Ready])
  }

  function OnWaiting<T>(s: Sched<T>, t: T): Sched<T>
    requires t in s.state
  {
    if s.state[t] != Running then s else s.(state := s.state[t := Waiting])
  }

  /** The first non-empty queue at or after `p`; LEVELS if there is none. */
  function FirstFrom<T>(queues: seq<seq<T>>, p: nat): (q: nat)
    requires p <= |queues|
    ensures p <= q <= |queues|
    ensures forall k :: p <= k < q ==> queues[k] == []
    ensures q < |queues| ==> queues[q] != []
    decreases |queues| - p
  {
    if p == |queues| || queues[p] != [] then p else FirstFrom(queues, p + 1)
  }

  /** Dispatch the head of queue `p`, leaving counter `c` there and none elsewhere. */
  function Dispatch<T>(s: Sched<T>, p: nat, c: int): Sched<T>
    requires Shape(s) && p < LEVELS && s.queues[p] != []
  {
    s.(queues := s.queues[p := s.queues[p][1..]],
       counter := s.counter[s.current := 0][p := c],
       current := p,
       state := s.state[s.queues[p][0] := Running])
  }

  /** `scheduleNextTask`. */
  function Schedule<T>(s: Sched<T>): (Sched<T>, Option<T>)
    requires Shape(s)
  {
    var low := FirstFrom(s.queues, s.current + 1);
    if s.counter[s.current] >= MAX_SAMEPRIO_LENGTH && low < LEVELS then
      (Dispatch(s, low, 1), Some(s.queues[low][0]))
    else
      var s1 := if s.counter[s.current] >= MAX_SAMEPRIO_LENGTH then s.(counter := s.counter[s.current := 0]) else s;
      var p := FirstFrom(s.queues, 0);
      if p == LEVELS then (s1, None)
      else (Dispatch(s1, p, if p == s.current then s1.counter[p] + 1 else 1), Some(s.queues[p][0]))
  }

  // What every operation keeps

  /** A task is queued exactly when it is ready, once, at its own priority; only
      the current priority has a counter, at most MAX_SAMEPRIO_LENGTH. */
  ghost predicate Inv<T>(s: Sched<T>) {
    Shape(s) && CountersFit(s) && QueuedAreReady(s) && ReadyAreQueued(s)
    && (forall t :: t in s.state && s.state[t] == Running ==> 0 <= s.priority[t] < LEVELS)
  }

  ghost predicate CountersFit<T>(s: Sched<T>)
    requires Shape(s)
  {
    0 <= s.counter[s.current] <= MAX_SAMEPRIO_LENGTH
    && forall p :: 0 <= p < LEVELS && p != s.current ==> s.counter[p] == 0
  }

  ghost predicate QueuedAreReady<T>(s: Sched<T>)
    requires Shape(s)
  {
    (forall p, i :: 0 <= p < LEVELS && 0 <= i < |s.queues[p]| ==>
       var t := s.queues[p][i]; t in s.state && s.state[t] == Ready && s.priority[t] == p)
    && (forall p, i, j :: 0 <= p < LEVELS && 0 <= i < j < |s.queues[p]| ==> s.queues[p][i] != s.queues[p][j])
  }

  ghost predicate ReadyAreQueued<T>(s: Sched<T>)
    requires Shape(s)
  {
    forall t :: t in s.state && s.state[t] == Ready ==> 0 <= s.priority[t] < LEVELS && t in s.queues[s.priority[t]]
  }

  lemma InitHolds<T>(s: Sched<T>)
    requires Init(s)
    ensures Inv(s)
  {
  }

  lemma EnqueueKeeps<T>(s: Sched<T>, p: int, t: T)
    requires Inv(s) && t in s.state && s.state[t] != Ready && 0 <= p < LEVELS
    ensures Inv(Enqueue(s.(priority := s.priority[t := p]), p, t))
  {
    var s' := Enqueue(s.(priority := s.priority[t := p]), p, t);
    forall u | u in s'.state && s'.state[u] == Ready ensures 0 <= s'.priority[u] < LEVELS && u in s'.queues[s'.priority[u]] {
      if u == t { assert s'.queues[p][|s.queues[p]|] == t; } else { assert u in s.queues[s.priority[u]]; }
    }
  }

  lemma DispatchKeeps<T>(s: Sched<T>, p: nat, c: int)
    requires Inv(s) && p < LEVELS && s.queues[p] != [] && 0 <= c <= MAX_SAMEPRIO_LENGTH
    ensures Inv(Dispatch(s, p, c))
  {
    var t, s' := s.queues[p][0], Dispatch(s, p, c);
    forall u | u in s'.state && s'.state[u] == Ready ensures 0 <= s'.priority[u] < LEVELS && u in s'.queues[s'.priority[u]] {
      assert u != t && u in s.queues[s.priority[u]];
      if s.priority[u] == p {
        var i :| 0 <= i < |s.queues[p]| && s.queues[p][i] == u;
        assert s'.queues[p][i - 1] == u;
      }
    }
  }
}
