/** The bounded buffer: any number of threads calling `produce` and `consume`,
    with two counting semaphores and a mutex, one statement a step. */
module BoundedBuffer {
  import opened Wrappers

  const BUFFER_SIZE := 10

  type Tid = nat

  /** Where a thread is: before which statement of `produce` or `consume`. */
  datatype Thread =
    | Idle
    | WaitEmpty(item: int)
    | LockP(item: int)
    | Store(item: int)
    | Increment(item: int)
    | UnlockP(item: int)
    | PostFull(item: int)
    | WaitFull
    | LockC
    | Decrement
    | Load
    | UnlockC(item: int)
    | PostEmpty(item: int)

  /** `items` is the abstract stack; `stored` and `taken` are the items that went
      in and came out, in order.  The threads do not read these three. */
  datatype State = State(empty: int, full: int, mutex: Option<Tid>, buffer: seq<int>, index: int,
                         threads: map<Tid, Thread>, items: seq<int>, stored: seq<int>, taken: seq<int>)

  datatype Action = Produce(item: int) | Consume | Continue

  ghost predicate Init(s: State) {
    s.empty == BUFFER_SIZE && s.full == 0 && s.mutex == None && |s.buffer| == BUFFER_SIZE && s.index == 0
    && (forall t :: t in s.threads ==> s.threads[t] == Idle)
    && s.items == [] && s.stored == [] && s.taken == []
  }

  function To(s: State, t: Tid, th: Thread): State { s.(threads := s.threads[t := th]) }

  /** Statement `th` of thread `t` can run: a semaphore to wait on is positive, a
      mutex to lock is free. */
  predicate Enabled(s: State, th: Thread) {
    match th
    case Idle => false
    case WaitEmpty(_) => s.empty > 0
    case WaitFull => s.full > 0
    case LockP(_) => s.mutex == None
    case LockC => s.mutex == None
    case _ => true
  }

  ghost predicate Step(s: State, t: Tid, a: Action, s': State) {
    t in s.threads &&
    if s.threads[t] == Idle then
      match a
      case Produce(item) => s' == To(s, t, WaitEmpty(item))
      case Consume => s' == To(s, t, WaitFull)
      case Continue => false
    else
      a == Continue && Enabled(s, s.threads[t]) &&
      match s.threads[t]
      case WaitEmpty(item) => s' == To(s.(empty := s.empty - 1), t, LockP(item))
      case LockP(item) => s' == To(s.(mutex := Some(t)), t, Store(item))
      case Store(item) =>
        0 <= s.index < |s.buffer| && s' == To(s.(buffer := s.buffer[s.index := item]), t, Increment(item))
      case Increment(item) =>
        s' == To(s.(index := s.index + 1, items := s.items + [item], stored := s.stored + [item]), t, UnlockP(item))
      case UnlockP(item) => s' == To(s.(mutex := None), t, PostFull(item))
      case PostFull(item) => s' == To(s.(full := s.full + 1), t, Idle)
      case WaitFull => s' == To(s.(full := s.full - 1), t, LockC)
      case LockC => s' == To(s.(mutex := Some(t)), t, Decrement)
      case Decrement => s' == To(s.(index := s.index - 1), t, Load)
      case Load =>
        0 <= s.index < |s.buffer| && s.items != [] &&
        s' == To(s.(items := s.items[..|s.items| - 1], taken := s.taken + [s.buffer[s.index]]), t, UnlockC(s.buffer[s.index]))
      case UnlockC(item) => s' == To(s.(mutex := None), t, PostEmpty(item))
      case PostEmpty(item) => s' == To(s.(empty := s.empty + 1), t, Idle)
  }

  // The invariant

  /** How a thread counts against the semaphores. */
  datatype Phase = Outside | Inserting | Inserted | Taking | Taken

  function PhaseOf(th: Thread): Phase {
    match th
    case LockP(_) => Inserting
    case Store(_) => Inserting
    case Increment(_) => Inserting
    case UnlockP(_) => Inserted
    case PostFull(_) => Inserted
    case LockC => Taking
    case Decrement => Taking
    case Load => Taken
    case UnlockC(_) => Taken
    case PostEmpty(_) => Taken
    case _ => Outside
  }

  predicate InCriticalSection(th: Thread) {
    th.Store? || th.Increment? || th.UnlockP? || th.Decrement? || th.Load? || th.UnlockC?
  }

  ghost function InPhase(threads: map<Tid, Thread>, phase: Phase): set<Tid> {
    set t | t in threads && PhaseOf(threads[t]) == phase
  }

  ghost function Count(threads: map<Tid, Thread>, phase: Phase): nat { |InPhase(threads, phase)| }

  /** Every slot is free, filled, or in some thread's hands; and `index` counts
      the filled ones with those not yet announced or already claimed. */
  ghost predicate SemaphoresFit(s: State) {
    s.empty >= 0 && s.full >= 0
    && s.empty + s.full + Count(s.threads, Inserting) + Count(s.threads, Inserted)
       + Count(s.threads, Taking) + Count(s.threads, Taken) == BUFFER_SIZE
    && s.index == s.full + Count(s.threads, Inserted) + Count(s.threads, Taking)
  }

  ghost predicate MutexFits(s: State) {
    (forall t :: t in s.threads ==> (InCriticalSection(s.threads[t]) <==> s.mutex == Some(t)))
    && (s.mutex.Some? ==> s.mutex.value in s.threads)
  }

  ghost predicate BufferFits(s: State) {
    |s.buffer| == BUFFER_SIZE && |s.items| <= BUFFER_SIZE && s.buffer[..|s.items|] == s.items
    && multiset(s.stored) == multiset(s.taken) + multiset(s.items)
    && HolderFits(s)
  }

  ghost predicate Inv(s: State) { SemaphoresFit(s) && MutexFits(s) && BufferFits(s) }

  /** The lock holder accounts for the difference between `index` and the stack. */
  ghost predicate HolderFits(s: State) {
    match s.mutex
    case None => s.index == |s.items|
    case Some(t) =>
      t in s.threads &&
      match s.threads[t]
      case Increment(item) => s.index == |s.items| < |s.buffer| && s.buffer[s.index] == item
      case Load => s.index == |s.items| - 1
      case UnlockC(item) => s.index == |s.items| && s.taken != [] && item == s.taken[|s.taken| - 1]
      case _ => s.index == |s.items|
  }

  lemma CountMove(threads: map<Tid, Thread>, t: Tid, th: Thread, phase: Phase)
    requires t in threads
    ensures Count(threads[t := th], phase) ==
      Count(threads, phase) - (if PhaseOf(threads[t]) == phase then 1 else 0) + (if PhaseOf(th) == phase then 1 else 0)
  {
    InPhaseMove(threads, t, th, phase);
    Without(InPhase(threads, phase), t);
    Without(InPhase(threads[t := th], phase), t);
  }

  lemma InPhaseMove(threads: map<Tid, Thread>, t: Tid, th: Thread, phase: Phase)
    requires t in threads
    ensures InPhase(threads[t := th], phase) - {t} == InPhase(threads, phase) - {t}
    ensures t in InPhase(threads, phase) <==> PhaseOf(threads[t]) == phase
    ensures t in InPhase(threads[t := th], phase) <==> PhaseOf(th) == phase
  {
  }

  lemma Without<T>(s: set<T>, t: T)
    ensures |s| == |s - {t}| + (if t in s then 1 else 0)
  {
  }

  lemma AtLeastOne(threads: map<Tid, Thread>, t: Tid)
    requires t in threads
    ensures Count(threads, PhaseOf(threads[t])) >= 1
  {
    assert t in InPhase(threads, PhaseOf(threads[t]));
  }

  /** `index` leaves room for whoever is inserting, and is positive for whoever is taking. */
  lemma IndexFits(s: State, t: Tid)
    requires SemaphoresFit(s) && t in s.threads
    ensures 0 <= s.index <= BUFFER_SIZE
    ensures PhaseOf(s.threads[t]) == Inserting ==> s.index < BUFFER_SIZE
    ensures PhaseOf(s.threads[t]) == Taking ==> s.index > 0
    ensures PhaseOf(s.threads[t]) == Taken ==> s.index < BUFFER_SIZE
  {
    AtLeastOne(s.threads, t);
  }

  lemma SemaphoresKeep(s: State, t: Tid, a: Action, s': State)
    requires SemaphoresFit(s) && Step(s, t, a, s')
    ensures SemaphoresFit(s')
  {
    var th := s'.threads[t];
    assert s'.threads == s.threads[t := th];
    CountMove(s.threads, t, th, Inserting);
    CountMove(s.threads, t, th, Inserted);
    CountMove(s.threads, t, th, Taking);
    CountMove(s.threads, t, th, Taken);
  }

  lemma MutexKeeps(s: State, t: Tid, a: Action, s': State)
    requires MutexFits(s) && Step(s, t, a, s')
    ensures MutexFits(s')
  {
  }

  lemma StoreKeeps(s: State, t: Tid, a: Action, s': State)
    requires Inv(s) && Step(s, t, a, s') && s.threads[t].Store?
    ensures BufferFits(s')
  {
    IndexFits(s, t);
    assert s'.buffer[..|s.items|] == s.buffer[..|s.items|];
  }

  lemma IncrementKeeps(s: State, t: Tid, a: Action, s': State)
    requires Inv(s) && Step(s, t, a, s') && s.threads[t].Increment?
    ensures BufferFits(s')
  {
    assert s.mutex == Some(t);
    assert s'.buffer[..|s'.items|] == s.buffer[..|s.items|] + [s.buffer[s.index]];
  }

  lemma LoadKeeps(s: State, t: Tid, a: Action, s': State)
    requires Inv(s) && Step(s, t, a, s') && s.threads[t].Load?
    ensures BufferFits(s')
    ensures s'.threads[t] == UnlockC(s.items[|s.items| - 1])
  {
    assert s.mutex == Some(t);
    assert s.items == s'.items + [s.items[|s.items| - 1]];
    assert s.buffer[..|s.items|][s.index] == s.buffer[s.index];
    assert s'.buffer[..|s'.items|] == s.buffer[..|s.items|][..|s'.items|];
  }

  lemma ElsewhereKeeps(s: State, t: Tid, a: Action, s': State)
    requires Inv(s) && Step(s, t, a, s')
    requires !s.threads[t].Store? && !s.threads[t].Increment? && !s.threads[t].Load?
    ensures BufferFits(s')
  {
    IndexFits(s, t);
    assert InCriticalSection(s.threads[t]) <==> s.mutex == Some(t);
    ElsewhereHolds(s, t, a, s');
  }

  lemma ElsewhereHolds(s: State, t: Tid, a: Action, s': State)
    requires HolderFits(s) && Step(s, t, a, s') && (InCriticalSection(s.threads[t]) <==> s.mutex == Some(t))
    requires !s.threads[t].Store? && !s.threads[t].Increment? && !s.threads[t].Load?
    ensures HolderFits(s') && s'.buffer == s.buffer && s'.items == s.items && s'.stored == s.stored && s'.taken == s.taken
  {
  }

  /** Every step of every thread keeps the invariant. */
  lemma StepKeeps(s: State, t: Tid, a: Action, s': State)
    requires Inv(s) && Step(s, t, a, s')
    ensures Inv(s')
  {
    SemaphoresKeep(s, t, a, s');
    MutexKeeps(s, t, a, s');
    if s.threads[t].Store? {
      StoreKeeps(s, t, a, s');
    } else if s.threads[t].Increment? {
      IncrementKeeps(s, t, a, s');
    } else if s.threads[t].Load? {
      LoadKeeps(s, t, a, s');
    } else {
      ElsewhereKeeps(s, t, a, s');
    }
  }

  // Whole executions

  /** Who steps, and what for. */
  datatype Move = Move(t: Tid, a: Action)

  ghost predicate StepAt(ss: seq<State>, ms: seq<Move>, i: nat) {
    i < |ms| && i + 1 < |ss| && Step(ss[i], ms[i].t, ms[i].a, ss[i + 1])
  }

  ghost predicate Execution(ss: seq<State>, ms: seq<Move>) {
    |ss| == |ms| + 1 && Init(ss[0]) && forall i :: 0 <= i < |ms| ==> StepAt(ss, ms, i)
  }

  lemma InitHolds(s: State)
    requires Init(s)
    ensures Inv(s)
  {
    forall phase | phase != Outside ensures Count(s.threads, phase) == 0 {
      assert InPhase(s.threads, phase) == {};
    }
  }

  lemma {:induction false} ExecutionKeeps(ss: seq<State>, ms: seq<Move>, i: nat)
    requires Execution(ss, ms) && i < |ss|
    ensures Inv(ss[i])
    decreases i
  {
    if i == 0 {
      InitHolds(ss[0]);
    } else {
      ExecutionKeeps(ss, ms, i - 1);
      assert StepAt(ss, ms, i - 1);
      StepKeeps(ss[i - 1], ms[i - 1].t, ms[i - 1].a, ss[i]);
    }
  }

  /** In every execution: slots are conserved, `index` stays in range, no two
      threads are in the critical section, and what went in is what came out and
      what is buffered. */
  lemma BufferIsSafe(ss: seq<State>, ms: seq<Move>, i: nat)
    requires Execution(ss, ms) && i < |ss|
    ensures var s := ss[i];
      s.empty + s.full + Count(s.threads, Inserting) + Count(s.threads, Inserted)
      + Count(s.threads, Taking) + Count(s.threads, Taken) == BUFFER_SIZE
      && 0 <= s.index <= BUFFER_SIZE == |s.buffer|
      && multiset(s.stored) == multiset(s.taken) + multiset(s.items)
    ensures forall t, u :: t in ss[i].threads && u in ss[i].threads && t != u ==>
      !(InCriticalSection(ss[i].threads[t]) && InCriticalSection(ss[i].threads[u]))
    ensures ss[i].mutex == None ==> ss[i].buffer[..ss[i].index] == ss[i].items
  {
    ExecutionKeeps(ss, ms, i);
  }

  /** Every access to the buffer is in bounds, so a thread about to make one is
      never stuck there. */
  lemma AccessesAreInBounds(ss: seq<State>, ms: seq<Move>, i: nat, t: Tid)
    requires Execution(ss, ms) && i < |ss| && t in ss[i].threads
    requires ss[i].threads[t].Store? || ss[i].threads[t].Load?
    ensures 0 <= ss[i].index < |ss[i].buffer|
    ensures ss[i].threads[t].Load? ==> ss[i].items != []
  {
    ExecutionKeeps(ss, ms, i);
    IndexFits(ss[i], t);
    assert ss[i].mutex == Some(t);
  }

  /** A consumer takes the latest item not yet consumed. */
  lemma LatestFirst(ss: seq<State>, ms: seq<Move>, i: nat)
    requires Execution(ss, ms) && i < |ms| && StepAt(ss, ms, i) && ss[i].threads[ms[i].t].Load?
    ensures var (s, s') := (ss[i], ss[i + 1]);
      s.items != [] && s'.threads[ms[i].t] == UnlockC(s.items[|s.items| - 1])
      && s'.items == s.items[..|s.items| - 1] && s'.taken == s.taken + [s.items[|s.items| - 1]]
  {
    ExecutionKeeps(ss, ms, i);
    LoadKeeps(ss[i], ms[i].t, ms[i].a, ss[i + 1]);
  }

  // The items of the calls

  /** The item a thread has still to store, or to return. */
  function InHand(th: Thread, storing: bool): Option<int> {
    match th
    case WaitEmpty(item) => if storing then Some(item) else None
    case LockP(item) => if storing then Some(item) else None
    case Store(item) => if storing then Some(item) else None
    case Increment(item) => if storing then Some(item) else None
    case UnlockC(item) => if storing then None else Some(item)
    case PostEmpty(item) => if storing then None else Some(item)
    case _ => None
  }

  ghost function Holders(threads: map<Tid, Thread>, storing: bool, x: int): set<Tid> {
    set t | t in threads && InHand(threads[t], storing) == Some(x)
  }

  function One(item: Option<int>): multiset<int> { if item.Some? then multiset{item.value} else multiset{} }

  lemma HoldersMove(threads: map<Tid, Thread>, t: Tid, th: Thread, storing: bool, x: int)
    requires t in threads
    ensures |Holders(threads[t := th], storing, x)| + One(InHand(threads[t], storing))[x] ==
      |Holders(threads, storing, x)| + One(InHand(th, storing))[x]
  {
    assert Holders(threads[t := th], storing, x) - {t} == Holders(threads, storing, x) - {t};
    Without(Holders(threads, storing, x), t);
    Without(Holders(threads[t := th], storing, x), t);
  }

  function ItemOf(a: Action): Option<int> { if a.Produce? then Some(a.item) else None }

  /** The items of all calls of `produce`. */
  ghost function Asked(ms: seq<Move>): multiset<int> {
    if ms == [] then multiset{} else Asked(ms[..|ms| - 1]) + One(ItemOf(ms[|ms| - 1].a))
  }

  /** What a step returns to the caller: the item with which a `consume` ends. */
  ghost function Answer(s: State, m: Move): Option<int> {
    if m.t in s.threads && s.threads[m.t].PostEmpty? then Some(s.threads[m.t].item) else None
  }

  /** What the calls of `consume` have returned in the first `i` steps. */
  ghost function Returned(ss: seq<State>, ms: seq<Move>, i: nat): multiset<int>
    requires |ss| == |ms| + 1 && i <= |ms|
  {
    if i == 0 then multiset{} else Returned(ss, ms, i - 1) + One(Answer(ss[i - 1], ms[i - 1]))
  }

  /** What one step does with the items of its thread. */
  lemma StoringMove(s: State, m: Move, s': State)
    requires Step(s, m.t, m.a, s')
    ensures m.t in s'.threads && s'.threads == s.threads[m.t := s'.threads[m.t]]
    ensures var (hand, hand') := (InHand(s.threads[m.t], true), InHand(s'.threads[m.t], true));
      if m.a.Produce? then hand == None && hand' == Some(m.a.item) && s'.stored == s.stored
      else if s.threads[m.t].Increment? then hand.Some? && hand' == None && s'.stored == s.stored + [hand.value]
      else hand' == hand && s'.stored == s.stored
  {
  }

  lemma TakingMove(s: State, m: Move, s': State)
    requires Step(s, m.t, m.a, s')
    ensures m.t in s'.threads && s'.threads == s.threads[m.t := s'.threads[m.t]]
    ensures var (hand, hand') := (InHand(s.threads[m.t], false), InHand(s'.threads[m.t], false));
      if s.threads[m.t].Load? then hand == None && hand'.Some? && s'.taken == s.taken + [hand'.value] && Answer(s, m) == None
      else s'.taken == s.taken && if s.threads[m.t].PostEmpty? then hand' == None && Answer(s, m) == hand
                                  else hand' == hand && Answer(s, m) == None
  {
  }

  /** The same for one item and all threads. */
  lemma ItemStored(s: State, m: Move, s': State, x: int)
    requires Step(s, m.t, m.a, s')
    ensures multiset(s'.stored)[x] + |Holders(s'.threads, true, x)| ==
      multiset(s.stored)[x] + |Holders(s.threads, true, x)| + One(ItemOf(m.a))[x]
  {
    StoringMove(s, m, s');
    HoldersMove(s.threads, m.t, s'.threads[m.t], true, x);
  }

  lemma ItemTaken(s: State, m: Move, s': State, x: int)
    requires Step(s, m.t, m.a, s')
    ensures multiset(s'.taken)[x] + |Holders(s.threads, false, x)| ==
      multiset(s.taken)[x] + |Holders(s'.threads, false, x)| + One(Answer(s, m))[x]
  {
    TakingMove(s, m, s');
    HoldersMove(s.threads, m.t, s'.threads[m.t], false, x);
  }

  lemma NoHolders(threads: map<Tid, Thread>, storing: bool, x: int)
    requires forall t :: t in threads ==> threads[t] == Idle
    ensures Holders(threads, storing, x) == {}
  {
  }

  /** In every execution each item given to `produce` is stored once, or its thread
      is about to. */
  lemma {:induction false} AskedIsStored(ss: seq<State>, ms: seq<Move>, i: nat, x: int)
    requires Execution(ss, ms) && i <= |ms|
    ensures Asked(ms[..i])[x] == multiset(ss[i].stored)[x] + |Holders(ss[i].threads, true, x)|
    decreases i
  {
    if i == 0 {
      NoHolders(ss[0].threads, true, x);
    } else {
      AskedIsStored(ss, ms, i - 1, x);
      assert StepAt(ss, ms, i - 1);
      ItemStored(ss[i - 1], ms[i - 1], ss[i], x);
      assert ms[..i][..i - 1] == ms[..i - 1];
    }
  }

  /** Each item taken is returned once, or its thread is about to. */
  lemma {:induction false} TakenIsReturned(ss: seq<State>, ms: seq<Move>, i: nat, x: int)
    requires Execution(ss, ms) && i <= |ms|
    ensures multiset(ss[i].taken)[x] == Returned(ss, ms, i)[x] + |Holders(ss[i].threads, false, x)|
    decreases i
  {
    if i == 0 {
      NoHolders(ss[0].threads, false, x);
    } else {
      TakenIsReturned(ss, ms, i - 1, x);
      assert StepAt(ss, ms, i - 1);
      ItemTaken(ss[i - 1], ms[i - 1], ss[i], x);
    }
  }

  /** With no call unfinished, the items that `produce` was called with are those
      that `consume` has returned and those in the buffer. */
  lemma WhatGoesInComesOut(ss: seq<State>, ms: seq<Move>, i: nat)
    requires Execution(ss, ms) && i <= |ms| && forall t :: t in ss[i].threads ==> ss[i].threads[t] == Idle
    ensures 0 <= ss[i].index <= |ss[i].buffer|
    ensures Asked(ms[..i]) == Returned(ss, ms, i) + multiset(ss[i].buffer[..ss[i].index])
  {
    var s := ss[i];
    ExecutionKeeps(ss, ms, i);
    assert s.mutex == None;
    forall x ensures Asked(ms[..i])[x] == (Returned(ss, ms, i) + multiset(s.items))[x] {
      AskedIsStored(ss, ms, i, x);
      TakenIsReturned(ss, ms, i, x);
      NoHolders(s.threads, true, x);
      NoHolders(s.threads, false, x);
      assert multiset(s.stored)[x] == multiset(s.taken)[x] + multiset(s.items)[x];
    }
  }

  // Each call by itself

  /** The call thread `t` made last. */
  ghost function LastCall(ms: seq<Move>, t: Tid): Option<Action> {
    if ms == [] then None
    else
      var m := ms[|ms| - 1];
      if m.t == t && m.a != Continue then Some(m.a) else LastCall(ms[..|ms| - 1], t)
  }

  /** The item thread `t` last took from the top of the stack. */
  ghost function LastTaken(ss: seq<State>, ms: seq<Move>, i: nat, t: Tid): Option<int>
    requires |ss| == |ms| + 1 && i <= |ms|
  {
    if i == 0 then None
    else
      var s := ss[i - 1];
      if ms[i - 1].t == t && |ss[i].items| < |s.items| then Some(s.items[|s.items| - 1]) else LastTaken(ss, ms, i - 1, t)
  }

  /** A thread's item is the one its `produce` was called with, or the one its
      `consume` took; so that is what it stores, or returns. */
  ghost predicate CallFits(th: Thread, call: Option<Action>, taken: Option<int>) {
    (Producing(th) ==> call == Some(Produce(th.item)))
    && (Consuming(th) ==> call == Some(Consume))
    && (InHand(th, false).Some? ==> InHand(th, false) == taken)
  }

  lemma CallFitsStep(s: State, m: Move, s': State, t: Tid, call: Option<Action>, taken: Option<int>)
    requires Inv(s) && Step(s, m.t, m.a, s') && t in s.threads && CallFits(s.threads[t], call, taken)
    ensures t in s'.threads
    ensures CallFits(s'.threads[t], if m.t == t && m.a != Continue then Some(m.a) else call,
                     if m.t == t && |s'.items| < |s.items| then Some(s.items[|s.items| - 1]) else taken)
  {
    if m.t != t {
      StoringMove(s, m, s');
    } else if s.threads[t].Load? {
      LoadKeeps(s, t, m.a, s');
    } else {
      OwnCallFits(s, m, s', call, taken);
    }
  }

  lemma OwnCallFits(s: State, m: Move, s': State, call: Option<Action>, taken: Option<int>)
    requires Step(s, m.t, m.a, s') && CallFits(s.threads[m.t], call, taken) && !s.threads[m.t].Load?
    ensures |s'.items| >= |s.items|
    ensures CallFits(s'.threads[m.t], if m.a != Continue then Some(m.a) else call, taken)
  {
  }

  lemma {:induction false} EveryCallFits(ss: seq<State>, ms: seq<Move>, i: nat, t: Tid)
    requires Execution(ss, ms) && i <= |ms| && t in ss[0].threads
    ensures t in ss[i].threads && CallFits(ss[i].threads[t], LastCall(ms[..i], t), LastTaken(ss, ms, i, t))
    decreases i
  {
    if i > 0 {
      EveryCallFits(ss, ms, i - 1, t);
      ExecutionKeeps(ss, ms, i - 1);
      assert StepAt(ss, ms, i - 1);
      assert ms[..i][..i - 1] == ms[..i - 1];
      CallFitsStep(ss[i - 1], ms[i - 1], ss[i], t, LastCall(ms[..i - 1], t), LastTaken(ss, ms, i - 1, t));
    }
  }

  lemma CanStep(s: State, t: Tid) returns (s': State)
    requires Inv(s) && t in s.threads && Enabled(s, s.threads[t])
    ensures Step(s, t, Continue, s')
  {
    IndexFits(s, t);
    assert InCriticalSection(s.threads[t]) <==> s.mutex == Some(t);
    match s.threads[t]
    case WaitEmpty(item) => s' := To(s.(empty := s.empty - 1), t, LockP(item));
    case LockP(item) => s' := To(s.(mutex := Some(t)), t, Store(item));
    case Store(item) => s' := To(s.(buffer := s.buffer[s.index := item]), t, Increment(item));
    case Increment(item) =>
      s' := To(s.(index := s.index + 1, items := s.items + [item], stored := s.stored + [item]), t, UnlockP(item));
    case UnlockP(item) => s' := To(s.(mutex := None), t, PostFull(item));
    case PostFull(item) => s' := To(s.(full := s.full + 1), t, Idle);
    case WaitFull => s' := To(s.(full := s.full - 1), t, LockC);
    case LockC => s' := To(s.(mutex := Some(t)), t, Decrement);
    case Decrement => s' := To(s.(index := s.index - 1), t, Load);
    case Load =>
      var item := s.buffer[s.index];
      s' := To(s.(items := s.items[..|s.items| - 1], taken := s.taken + [item]), t, UnlockC(item));
    case UnlockC(item) => s' := To(s.(mutex := None), t, PostEmpty(item));
    case PostEmpty(item) => s' := To(s.(empty := s.empty + 1), t, Idle);
  }

  /** Some thread is between its semaphore and its post. */
  lemma SomeoneInFlight(s: State, phase: Phase) returns (t: Tid)
    requires Count(s.threads, phase) > 0
    ensures t in s.threads && PhaseOf(s.threads[t]) == phase
  {
    t := Pick(InPhase(s.threads, phase));
  }

  lemma Pick<T>(ts: set<T>) returns (t: T)
    requires |ts| > 0
    ensures t in ts
  {
    t :| t in ts;
  }

  predicate Producing(th: Thread) {
    th.WaitEmpty? || th.LockP? || th.Store? || th.Increment? || th.UnlockP? || th.PostFull?
  }

  predicate Consuming(th: Thread) {
    th.WaitFull? || th.LockC? || th.Decrement? || th.Load? || th.UnlockC? || th.PostEmpty?
  }

  /** Progress: while a `produce` and a `consume` are both unfinished, some thread
      can take a step of its call. */
  lemma NoDeadlock(ss: seq<State>, ms: seq<Move>, i: nat, p: Tid, c: Tid) returns (t: Tid, s': State)
    requires Execution(ss, ms) && i < |ss| && p in ss[i].threads && c in ss[i].threads
    requires Producing(ss[i].threads[p]) && Consuming(ss[i].threads[c])
    ensures t in ss[i].threads && ss[i].threads[t] != Idle && Step(ss[i], t, Continue, s')
  {
    ExecutionKeeps(ss, ms, i);
    var s := ss[i];
    if s.mutex.Some? {
      t := s.mutex.value;
    } else if s.empty > 0 || !s.threads[p].WaitEmpty? {
      t := p;
    } else if s.full > 0 || !s.threads[c].WaitFull? {
      t := c;
    } else if Count(s.threads, Inserting) > 0 {
      t := SomeoneInFlight(s, Inserting);
    } else if Count(s.threads, Inserted) > 0 {
      t := SomeoneInFlight(s, Inserted);
    } else if Count(s.threads, Taking) > 0 {
      t := SomeoneInFlight(s, Taking);
    } else {
      t := SomeoneInFlight(s, Taken);
    }
    assert InCriticalSection(s.threads[t]) <==> s.mutex == Some(t);
    s' := CanStep(s, t);
  }
}
