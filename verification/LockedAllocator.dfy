/** Any number of threads calling `my_malloc`, `my_free` and `dumpAllocator`
    under one recursive mutex, in steps between which other threads may run. */
module LockedAllocator {
  import opened Wrappers
  import opened HeapBlocks
  import opened HeapTheorems
  import opened FreeListHeap
  import opened FitChoice
  import opened FitAllocator
  import R = MallocRuns

  type Tid = nat

  datatype MallocPc =
    | Check                  // request size not yet looked at
    | Lock                   // about to lock
    | Search                 // about to search the free list
    | Take(j: nat)           // found block `j`
    | Extend                 // found none
    | Calling                // heap grown, waiting for the inner call
    | Unlock(address: int)   // about to unlock and return
    | Dump(next: MallocPc)   // about to lock again, for a dump
    | Walk(next: MallocPc)   // about to walk the heap
    | Walked(seen: seq<Block>, next: MallocPc)   // about to unlock after the dump

  /** One activation of `my_malloc`. */
  datatype Frame = Frame(n: nat, pc: MallocPc)

  datatype Thread =
    | Idle
    | Malloc(stack: seq<Frame>, answered: bool)
    | FreeLock(block: Block)
    | FreeInsert(block: Block)
    | FreeMergePrev(block: Block, j: nat)
    | FreeMergeNext(block: Block, k: nat)
    | FreeUnlock(block: Block)
    | DumpLock
    | DumpWalk
    | DumpUnlock(seen: seq<Block>)

  /** `now` is the shared heap.  `log` and `past` record the completed calls and
      the heaps between them; they change nothing the threads do. */
  datatype State = State(now: R.State, owner: Tid, depth: nat, threads: map<Tid, Thread>,
                         log: seq<R.Op>, past: seq<R.State>)

  datatype Action = StartMalloc(n: nat, answered: bool) | StartFree(block: Block) | StartDump | Continue

  ghost predicate Init(s: State) {
    s.now == R.State(INITIAL, HEAP_SIZE) && s.depth == 0
    && (forall t :: t in s.threads ==> s.threads[t] == Idle)
    && s.log == [] && s.past == [s.now]
  }

  /** The heap after the last completed call. */
  function Done(s: State): R.State
    requires s.past != []
  {
    s.past[|s.past| - 1]
  }

  function Set(s: State, t: Tid, th: Thread): State { s.(threads := s.threads[t := th]) }

  ghost predicate MayLock(s: State, t: Tid) { s.depth == 0 || s.owner == t }

  function Acquire(s: State, t: Tid): State { s.(owner := t, depth := s.depth + 1) }

  function Record(s: State, op: R.Op, h: R.State): State { s.(log := s.log + [op], past := s.past + [h]) }

  /** Back from the innermost `my_malloc` with `address`; `h` is the heap to record. */
  function Return(s: State, t: Tid, stack: seq<Frame>, answered: bool, address: int, h: R.State): State
    requires stack != []
  {
    if |stack| == 1 then
      Set(Record(s, R.Malloc(BestFit, stack[0].n, answered, address), h), t, Idle)
    else
      var below := stack[..|stack| - 1];
      Set(s, t, Malloc(below[|below| - 1 := below[|below| - 1].(pc := Unlock(address))], answered))
  }

  function SetPc(s: State, t: Tid, stack: seq<Frame>, answered: bool, pc: MallocPc): State
    requires stack != []
  {
    Set(s, t, Malloc(stack[|stack| - 1 := stack[|stack| - 1].(pc := pc)], answered))
  }

  /** `enable_debug` may be called at any time, so each look at `debug` may find it
      set or not. */
  ghost predicate MayDump(s: State, t: Tid, stack: seq<Frame>, g: bool, next: MallocPc, s': State)
    requires stack != []
  {
    s' == SetPc(s, t, stack, g, next) || s' == SetPc(s, t, stack, g, Dump(next))
  }

  ghost predicate MallocStep(s: State, t: Tid, stack: seq<Frame>, g: bool, s': State)
    requires s.past != []
  {
    stack != [] &&
    var f := stack[|stack| - 1];
    match f.pc
    case Check =>
      s' == if Needed(f.n) > HEAP_SIZE then Return(s, t, stack, g, NULL, Done(s)) else SetPc(s, t, stack, g, Lock)
    case Lock =>
      MayLock(s, t) && MayDump(Acquire(s, t), t, stack, g, Search, s')
    case Search =>
      if NoFit(s.now.bs, Needed(f.n)) then s' == SetPc(s, t, stack, g, Extend)
      else exists j: nat :: Chosen(BestFit, s.now.bs, Needed(f.n), j) && s' == SetPc(s, t, stack, g, Take(j))
    case Take(j) =>
      j < |s.now.bs| &&
      var h := s.now.(bs := Alloc(s.now.bs, j, Needed(f.n)));
      MayDump(s.(now := h), t, stack, g, Unlock(s.now.bs[j].off + HEADER_SIZE), s')
    case Extend =>
      if !g then s' == SetPc(s, t, stack, g, Unlock(NULL))
      else
        var h := R.State(Grow(s.now.bs, s.now.heapSize), s.now.heapSize + HEAP_SIZE);
        s' == Set(s.(now := h), t, Malloc(stack[|stack| - 1 := f.(pc := Calling)] + [Frame(Needed(f.n), Check)], g))
    case Calling => false
    case Unlock(address) =>
      s.depth > 0 && s' == Return(s.(depth := s.depth - 1), t, stack, g, address, s.now)
    case Dump(next) => MayLock(s, t) && s' == SetPc(Acquire(s, t), t, stack, g, Walk(next))
    case Walk(next) => s' == SetPc(s, t, stack, g, Walked(s.now.bs, next))
    case Walked(seen, next) => s.depth > 0 && s' == SetPc(s.(depth := s.depth - 1), t, stack, g, next)
  }

  /** Is a free of `b` under way in `th`? */
  predicate Frees(th: Thread, b: Block) {
    (th.FreeLock? || th.FreeInsert? || th.FreeMergePrev? || th.FreeMergeNext? || th.FreeUnlock?) && th.block == b
  }

  /** One step of thread `t`.  A caller frees only live blocks, each by one thread. */
  ghost predicate Step(s: State, t: Tid, a: Action, s': State) {
    t in s.threads && s.past != [] &&
    match s.threads[t]
    case Idle =>
      (match a
       case StartMalloc(n, g) => Sized(n) && s' == Set(s, t, Malloc([Frame(n, Check)], g))
       case StartFree(b) =>
         b in Live(Done(s).bs) && (forall u :: u in s.threads ==> !Frees(s.threads[u], b))
         && s' == Set(s, t, FreeLock(b))
       case StartDump => s' == Set(s, t, DumpLock)
       case Continue => false)
    case Malloc(stack, g) => a == Continue && MallocStep(s, t, stack, g, s')
    case FreeLock(b) => a == Continue && MayLock(s, t) && s' == Set(Acquire(s, t), t, FreeInsert(b))
    case FreeInsert(b) =>
      a == Continue && b in s.now.bs &&
      var j := IndexIn(s.now.bs, b);
      s' == Set(s.(now := s.now.(bs := s.now.bs[j := b.(free := true)])), t, FreeMergePrev(b, j))
    case FreeMergePrev(b, j) =>
      a == Continue && j < |s.now.bs| &&
      var k := MergeFrom(s.now.bs, j);
      s' == Set(s.(now := s.now.(bs := if k < j then Merge(s.now.bs, k, j) else s.now.bs)), t, FreeMergeNext(b, k))
    case FreeMergeNext(b, k) =>
      a == Continue && k < |s.now.bs| &&
      s' == Set(s.(now := s.now.(bs := if MergeTo(s.now.bs, k) > k then Merge(s.now.bs, k, k + 1) else s.now.bs)),
                t, FreeUnlock(b))
    case FreeUnlock(b) =>
      a == Continue && s.depth > 0 && s' == Set(Record(s.(depth := s.depth - 1), R.FreeOp(b), s.now), t, Idle)
    case DumpLock => a == Continue && MayLock(s, t) && s' == Set(Acquire(s, t), t, DumpWalk)
    case DumpWalk => a == Continue && s' == Set(s, t, DumpUnlock(s.now.bs))
    case DumpUnlock(seen) => a == Continue && s.depth > 0 && s' == Set(s.(depth := s.depth - 1), t, Idle)
  }

  // The invariant

  /** How often thread `th` holds the lock. */
  function LockDepth(th: Thread): nat {
    match th
    case Idle => 0
    case Malloc(stack, _) => FrameLocks(stack)
    case FreeLock(_) => 0
    case DumpLock => 0
    case _ => 1
  }

  function FrameLocks(stack: seq<Frame>): nat {
    if stack == [] then 0
    else FrameLocks(stack[..|stack| - 1]) + PcLocks(stack[|stack| - 1].pc)
  }

  function PcLocks(pc: MallocPc): nat {
    if pc.Check? || pc.Lock? then 0 else if pc.Walk? || pc.Walked? then 2 else 1
  }

  /** Where an activation goes on after a dump. */
  function Resume(pc: MallocPc): MallocPc {
    match pc
    case Dump(next) => next
    case Walk(next) => next
    case Walked(_, next) => next
    case _ => pc
  }

  ghost predicate DumpFits(pc: MallocPc, h: R.State) {
    (pc != Resume(pc) ==> Resume(pc).Search? || Resume(pc).Unlock?) && (pc.Walked? ==> pc.seen == h.bs)
  }

  /** A thread that does not hold the lock. */
  ghost predicate Outside(th: Thread) {
    match th
    case Idle => true
    case Malloc(stack, _) =>
      |stack| == 1 && Sized(stack[0].n)
      && (stack[0].pc == Check || (stack[0].pc == Lock && Needed(stack[0].n) <= HEAP_SIZE))
    case FreeLock(_) => true
    case DumpLock => true
    case _ => false
  }

  /** `my_malloc(n)` has turned heap `d` into heap `h` and will answer `address`. */
  ghost predicate Answered(n: nat, g: bool, d: R.State, h: R.State, address: int) {
    exists j: nat :: MallocPost(BestFit, n, g, d.bs, d.heapSize, h.bs, h.heapSize, address, j)
  }

  /** The outer activation, with no inner one. */
  ghost predicate OuterInside(f: Frame, g: bool, d: R.State, h: R.State) {
    Sized(f.n) && Needed(f.n) <= HEAP_SIZE && DumpFits(f.pc, h) &&
    match Resume(f.pc)
    case Search => h == d
    case Take(j) => h == d && Chosen(BestFit, d.bs, Needed(f.n), j)
    case Extend => h == d && NoFit(d.bs, Needed(f.n))
    case Unlock(address) => Answered(f.n, g, d, h, address)
    case _ => false
  }

  /** The inner activation, for a block that did not fit before the heap grew. */
  ghost predicate InnerInside(n: nat, f: Frame, g: bool, d: R.State, h: R.State) {
    var grown := R.State(Grow(d.bs, d.heapSize), d.heapSize + HEAP_SIZE);
    g && Sized(n) && Needed(n) <= HEAP_SIZE && NoFit(d.bs, Needed(n)) && f.n == Needed(n) && DumpFits(f.pc, h) &&
    match Resume(f.pc)
    case Check => h == grown
    case Lock => h == grown && Needed(f.n) <= HEAP_SIZE
    case Search => h == grown && Needed(f.n) <= HEAP_SIZE
    case Take(j) => h == grown && Needed(f.n) <= HEAP_SIZE && j == |d.bs|
    case Unlock(address) => Answered(n, g, d, h, address)
    case _ => false
  }

  /** The thread that holds the lock: how far it has taken the heap from `d`. */
  ghost predicate Inside(th: Thread, d: R.State, h: R.State) {
    match th
    case Malloc(stack, g) =>
      if |stack| == 1 then OuterInside(stack[0], g, d, h)
      else |stack| == 2 && stack[0].pc == Calling && InnerInside(stack[0].n, stack[1], g, d, h)
    case FreeInsert(b) => h == d && b in Live(d.bs)
    case FreeMergePrev(b, j) =>
      b in Live(d.bs) && j == IndexIn(d.bs, b) && h == d.(bs := d.bs[j := b.(free := true)])
    case FreeMergeNext(b, k) =>
      b in Live(d.bs) && h.heapSize == d.heapSize &&
      var j := IndexIn(d.bs, b);
      var bs1 := d.bs[j := b.(free := true)];
      k == MergeFrom(bs1, j) && h.bs == if k < j then Merge(bs1, k, j) else bs1
    case FreeUnlock(b) => b in Live(d.bs) && h == d.(bs := Free(d.bs, IndexIn(d.bs, b)))
    case DumpWalk => h == d
    case DumpUnlock(seen) => h == d && seen == d.bs
    case _ => false
  }

  ghost predicate ThreadsFit(s: State)
    requires s.past != []
  {
    (forall t :: t in s.threads && !(s.depth > 0 && t == s.owner) ==> Outside(s.threads[t]))
    && (if s.depth == 0 then s.now == Done(s)
        else s.owner in s.threads && LockDepth(s.threads[s.owner]) == s.depth
             && Inside(s.threads[s.owner], Done(s), s.now))
  }

  ghost predicate FreesFit(s: State)
    requires s.past != []
  {
    (forall t, b :: t in s.threads && Frees(s.threads[t], b) ==> b in Live(Done(s).bs))
    && (forall t, u, b :: t in s.threads && u in s.threads && t != u && Frees(s.threads[t], b) ==> !Frees(s.threads[u], b))
  }

  ghost predicate Inv(s: State) {
    R.Calls(s.past, s.log) && ThreadsFit(s) && FreesFit(s)
  }

  ghost predicate GoesOn(s: State, t: Tid, s': State)
    requires s.past != [] && t in s.threads
  {
    s'.log == s.log && s'.past == s.past && s'.depth > 0 && t in s'.threads
    && LockDepth(s'.threads[t]) == s'.depth && Inside(s'.threads[t], Done(s), s'.now)
    && forall b :: Frees(s'.threads[t], b) ==> Frees(s.threads[t], b)
  }

  ghost predicate Completes(s: State, t: Tid, s': State)
    requires s.past != [] && t in s.threads
  {
    s'.depth == 0 && t in s'.threads && s'.threads[t] == Idle
    && ((s'.log == s.log && s'.past == s.past && s'.now == Done(s))
        || exists op ::
             s'.log == s.log + [op] && s'.past == s.past + [s'.now] && R.Call(Done(s), op, s'.now)
             && forall b :: op == R.FreeOp(b) ==> Frees(s.threads[t], b))
  }

  lemma OneFrame(f: Frame)
    ensures FrameLocks([f]) == PcLocks(f.pc)
  {
    assert [f][..0] == [];
    assert FrameLocks([]) == 0;
  }

  lemma TwoFrames(f: Frame, g: Frame)
    ensures FrameLocks([f, g]) == FrameLocks([f]) + FrameLocks([g])
  {
    assert [f, g][..1] == [f];
    OneFrame(g);
  }

  /** What a step of the lock holder leaves: the call goes on, or it is complete
      and recorded as one serial call. */
  ghost predicate HolderMoves(s: State, t: Tid, s': State)
    requires s.past != [] && t in s.threads
  {
    GoesOn(s, t, s') || Completes(s, t, s')
  }

  lemma OuterMoves(s: State, t: Tid, f: Frame, g: bool, s': State)
    requires s.past != [] && t in s.threads && s.threads[t] == Malloc([f], g) && s.depth == PcLocks(f.pc)
    requires OuterInside(f, g, Done(s), s.now) && MallocStep(s, t, [f], g, s')
    ensures HolderMoves(s, t, s')
  {
    match f.pc
    case Search => OuterSearches(s, t, f, g, s');
    case Take(_) => OuterTakes(s, t, f, g, s');
    case Extend => OuterExtends(s, t, f, g, s');
    case Unlock(address) =>
      var op := R.Malloc(BestFit, f.n, g, address);
      assert R.Call(Done(s), op, s.now);
      assert s'.log == s.log + [op];
    case _ => OuterDumps(s, t, f, g, s');
  }

  lemma OuterSearches(s: State, t: Tid, f: Frame, g: bool, s': State)
    requires s.past != [] && t in s.threads && s.threads[t] == Malloc([f], g) && s.depth == 1 && f.pc == Search
    requires OuterInside(f, g, Done(s), s.now) && MallocStep(s, t, [f], g, s')
    ensures GoesOn(s, t, s')
  {
    if NoFit(s.now.bs, Needed(f.n)) {
      OuterSets(s, t, f, g, Extend);
    } else {
      var j: nat :| Chosen(BestFit, s.now.bs, Needed(f.n), j) && s' == SetPc(s, t, [f], g, Take(j));
      OuterSets(s, t, f, g, Take(j));
    }
  }

  lemma OuterTakes(s: State, t: Tid, f: Frame, g: bool, s': State)
    requires s.past != [] && t in s.threads && s.threads[t] == Malloc([f], g) && s.depth == 1 && f.pc.Take?
    requires OuterInside(f, g, Done(s), s.now) && MallocStep(s, t, [f], g, s')
    ensures GoesOn(s, t, s')
  {
    var d, j, address := Done(s), f.pc.j, s.now.bs[f.pc.j].off + HEADER_SIZE;
    SomeFit(BestFit, d.bs, Needed(f.n), j);
    assert MallocPost(BestFit, f.n, g, d.bs, d.heapSize, s'.now.bs, s'.now.heapSize, address, j);
    OuterSets(s.(now := s'.now), t, f, g, Unlock(address));
    OuterSets(s.(now := s'.now), t, f, g, Dump(Unlock(address)));
  }

  /** A dump inside a call changes nothing but the depth of the lock. */
  lemma OuterDumps(s: State, t: Tid, f: Frame, g: bool, s': State)
    requires s.past != [] && t in s.threads && s.threads[t] == Malloc([f], g) && s.depth == PcLocks(f.pc)
    requires OuterInside(f, g, Done(s), s.now) && MallocStep(s, t, [f], g, s') && f.pc != Resume(f.pc)
    ensures GoesOn(s, t, s')
  {
    match f.pc
    case Dump(next) => OuterSets(Acquire(s, t), t, f, g, Walk(next));
    case Walk(next) => OuterSets(s, t, f, g, Walked(s.now.bs, next));
    case Walked(_, next) => OuterSets(s.(depth := s.depth - 1), t, f, g, next);
  }

  lemma OuterExtends(s: State, t: Tid, f: Frame, g: bool, s': State)
    requires s.past != [] && t in s.threads && s.threads[t] == Malloc([f], g) && s.depth == 1 && f.pc == Extend
    requires OuterInside(f, g, Done(s), s.now) && MallocStep(s, t, [f], g, s')
    ensures GoesOn(s, t, s')
  {
    var d := Done(s);
    if !g {
      assert MallocPost(BestFit, f.n, g, d.bs, d.heapSize, d.bs, d.heapSize, NULL, 0);
      OuterSets(s, t, f, g, Unlock(NULL));
    } else {
      var inner := Frame(Needed(f.n), Check);
      OneFrame(f.(pc := Calling));
      OneFrame(inner);
      TwoFrames(f.(pc := Calling), inner);
      assert s'.threads[t] == Malloc([f.(pc := Calling), inner], g);
    }
  }

  lemma OuterSets(s: State, t: Tid, f: Frame, g: bool, pc: MallocPc)
    ensures SetPc(s, t, [f], g, pc).threads == s.threads[t := Malloc([f.(pc := pc)], g)]
    ensures LockDepth(Malloc([f.(pc := pc)], g)) == PcLocks(pc)
  {
    assert [f][0 := f.(pc := pc)] == [f.(pc := pc)];
    OneFrame(f.(pc := pc));
  }

  /** The retry: which answers it gives. */
  lemma InnerAnswers(n: nat, d: R.State, h: R.State, address: int)
    requires Sized(n) && Needed(n) <= HEAP_SIZE && NoFit(d.bs, Needed(n))
    requires var grown := R.State(Grow(d.bs, d.heapSize), d.heapSize + HEAP_SIZE);
      if Needed(Needed(n)) > HEAP_SIZE then h == grown && address == NULL
      else h == grown.(bs := Alloc(grown.bs, |d.bs|, Needed(Needed(n)))) && address == d.heapSize + HEADER_SIZE
    ensures Answered(n, true, d, h, address)
  {
    NeededIsEnough(n);
    Retry(BestFit, Needed(n), d.bs, d.heapSize);
    assert MallocPost(BestFit, n, true, d.bs, d.heapSize, h.bs, h.heapSize, address, |d.bs|);
  }

  lemma InnerMoves(s: State, t: Tid, f: Frame, i: Frame, g: bool, s': State)
    requires s.past != [] && t in s.threads && s.threads[t] == Malloc([f, i], g)
    requires s.depth == 1 + PcLocks(i.pc) && f.pc == Calling
    requires InnerInside(f.n, i, g, Done(s), s.now) && MallocStep(s, t, [f, i], g, s')
    ensures GoesOn(s, t, s')
  {
    OneFrame(f);
    match i.pc
    case Check =>
      InnerChecks(s, t, f, i, g, s');
    case Lock =>
      InnerLocks(s, t, f, i, g, s');
    case Search =>
      InnerSearches(s, t, f, i, g, s');
    case Take(_) =>
      InnerTakes(s, t, f, i, g, s');
    case Unlock(address) =>
      InnerReturns(s.(depth := s.depth - 1), t, f, i, g, address);
    case _ =>
      InnerDumps(s, t, f, i, g, s');
  }

  lemma InnerLocks(s: State, t: Tid, f: Frame, i: Frame, g: bool, s': State)
    requires s.past != [] && t in s.threads && s.threads[t] == Malloc([f, i], g)
    requires s.depth == 1 && f.pc == Calling && i.pc == Lock
    requires InnerInside(f.n, i, g, Done(s), s.now) && MallocStep(s, t, [f, i], g, s')
    ensures GoesOn(s, t, s')
  {
    OneFrame(f);
    InnerSets(Acquire(s, t), t, f, i, g, Search);
    InnerSets(Acquire(s, t), t, f, i, g, Dump(Search));
  }

  lemma InnerTakes(s: State, t: Tid, f: Frame, i: Frame, g: bool, s': State)
    requires s.past != [] && t in s.threads && s.threads[t] == Malloc([f, i], g)
    requires s.depth == 2 && f.pc == Calling && i.pc.Take?
    requires InnerInside(f.n, i, g, Done(s), s.now) && MallocStep(s, t, [f, i], g, s')
    ensures GoesOn(s, t, s')
  {
    var d, h, address := Done(s), s'.now, s.now.bs[i.pc.j].off + HEADER_SIZE;
    OneFrame(f);
    InnerAnswers(f.n, d, h, address);
    InnerSets(s.(now := h), t, f, i, g, Unlock(address));
    InnerSets(s.(now := h), t, f, i, g, Dump(Unlock(address)));
  }

  lemma InnerDumps(s: State, t: Tid, f: Frame, i: Frame, g: bool, s': State)
    requires s.past != [] && t in s.threads && s.threads[t] == Malloc([f, i], g)
    requires s.depth == 1 + PcLocks(i.pc) && f.pc == Calling && i.pc != Resume(i.pc)
    requires InnerInside(f.n, i, g, Done(s), s.now) && MallocStep(s, t, [f, i], g, s')
    ensures GoesOn(s, t, s')
  {
    OneFrame(f);
    match i.pc
    case Dump(next) => InnerSets(Acquire(s, t), t, f, i, g, Walk(next));
    case Walk(next) => InnerSets(s, t, f, i, g, Walked(s.now.bs, next));
    case Walked(_, next) => InnerSets(s.(depth := s.depth - 1), t, f, i, g, next);
  }

  lemma InnerChecks(s: State, t: Tid, f: Frame, i: Frame, g: bool, s': State)
    requires s.past != [] && t in s.threads && s.threads[t] == Malloc([f, i], g)
    requires s.depth == 1 && f.pc == Calling && i.pc == Check
    requires InnerInside(f.n, i, g, Done(s), s.now) && MallocStep(s, t, [f, i], g, s')
    ensures GoesOn(s, t, s')
  {
    NeededIsEnough(f.n);
    OneFrame(f);
    if Needed(i.n) > HEAP_SIZE {
      InnerAnswers(f.n, Done(s), s.now, NULL);
      InnerReturns(s, t, f, i, g, NULL);
    } else {
      InnerSets(s, t, f, i, g, Lock);
    }
  }

  lemma InnerSearches(s: State, t: Tid, f: Frame, i: Frame, g: bool, s': State)
    requires s.past != [] && t in s.threads && s.threads[t] == Malloc([f, i], g)
    requires s.depth == 2 && f.pc == Calling && i.pc == Search
    requires InnerInside(f.n, i, g, Done(s), s.now) && MallocStep(s, t, [f, i], g, s')
    ensures GoesOn(s, t, s')
  {
    var d := Done(s);
    NeededIsEnough(f.n);
    OneFrame(f);
    Retry(BestFit, Needed(f.n), d.bs, d.heapSize);
    var j: nat :| Chosen(BestFit, s.now.bs, Needed(i.n), j) && s' == SetPc(s, t, [f, i], g, Take(j));
    InnerSets(s, t, f, i, g, Take(j));
  }

  lemma InnerReturns(s: State, t: Tid, f: Frame, i: Frame, g: bool, address: int)
    ensures Return(s, t, [f, i], g, address, s.now) == Set(s, t, Malloc([f.(pc := Unlock(address))], g))
    ensures forall h :: Return(s, t, [f, i], g, address, h) == Return(s, t, [f, i], g, address, s.now)
    ensures LockDepth(Malloc([f.(pc := Unlock(address))], g)) == 1
  {
    assert [f, i][..1] == [f];
    assert [f][0 := f.(pc := Unlock(address))] == [f.(pc := Unlock(address))];
    OneFrame(f.(pc := Unlock(address)));
  }

  lemma InnerSets(s: State, t: Tid, f: Frame, i: Frame, g: bool, pc: MallocPc)
    ensures SetPc(s, t, [f, i], g, pc).threads == s.threads[t := Malloc([f, i.(pc := pc)], g)]
    ensures LockDepth(Malloc([f, i.(pc := pc)], g)) == FrameLocks([f]) + PcLocks(pc)
  {
    assert [f, i][1 := i.(pc := pc)] == [f, i.(pc := pc)];
    OneFrame(i.(pc := pc));
    TwoFrames(f, i.(pc := pc));
  }

  lemma InsertWorks(s: State, t: Tid, a: Action, s': State)
    requires s.past != [] && t in s.threads && s.depth == 1 && Inside(s.threads[t], Done(s), s.now)
    requires s.threads[t].FreeInsert? && Step(s, t, a, s')
    ensures GoesOn(s, t, s')
  {
  }

  lemma MergePrevWorks(s: State, t: Tid, a: Action, s': State)
    requires s.past != [] && t in s.threads && s.depth == 1 && Inside(s.threads[t], Done(s), s.now)
    requires s.threads[t].FreeMergePrev? && Step(s, t, a, s')
    ensures GoesOn(s, t, s')
  {
  }

  /** The three steps of a free compose to `Free`. */
  lemma MergeNextWorks(s: State, t: Tid, a: Action, s': State)
    requires s.past != [] && t in s.threads && s.depth == 1 && Inside(s.threads[t], Done(s), s.now)
    requires s.threads[t].FreeMergeNext? && Step(s, t, a, s')
    ensures GoesOn(s, t, s')
  {
    var th, d := s.threads[t], Done(s);
    ThreeSteps(d, s.now, th.block, th.k);
    assert s'.threads[t] == FreeUnlock(th.block);
  }

  lemma ThreeSteps(d: R.State, h: R.State, b: Block, k: nat)
    requires Inside(FreeMergeNext(b, k), d, h) && k < |h.bs|
    ensures Inside(FreeUnlock(b), d, h.(bs := if MergeTo(h.bs, k) > k then Merge(h.bs, k, k + 1) else h.bs))
  {
    var j := IndexIn(d.bs, b);
    FreeInSteps(d.bs, j, d.bs[j := b.(free := true)], k, h.bs);
  }

  lemma FreeMoves(s: State, t: Tid, a: Action, s': State)
    requires s.past != [] && t in s.threads && s.depth == 1 && Inside(s.threads[t], Done(s), s.now)
    requires !s.threads[t].Malloc? && Step(s, t, a, s')
    ensures HolderMoves(s, t, s')
  {
    var th := s.threads[t];
    if th.FreeUnlock? {
      var op := R.FreeOp(th.block);
      assert R.Call(Done(s), op, s.now);
      assert s'.log == s.log + [op];
    } else if th.FreeInsert? {
      InsertWorks(s, t, a, s');
    } else if th.FreeMergePrev? {
      MergePrevWorks(s, t, a, s');
    } else if th.FreeMergeNext? {
      MergeNextWorks(s, t, a, s');
    }
  }

  /** A step of the thread that holds the lock. */
  lemma InsideMoves(s: State, t: Tid, a: Action, s': State)
    requires ThreadsFitFor(s, t) && Step(s, t, a, s')
    ensures HolderMoves(s, t, s')
  {
    match s.threads[t]
    case Malloc(stack, g) =>
      if |stack| == 1 {
        assert stack == [stack[0]];
        OneFrame(stack[0]);
        OuterMoves(s, t, stack[0], g, s');
      } else {
        assert stack == [stack[0], stack[1]];
        OneFrame(stack[0]);
        OneFrame(stack[1]);
        TwoFrames(stack[0], stack[1]);
        InnerMoves(s, t, stack[0], stack[1], g, s');
      }
    case _ => FreeMoves(s, t, a, s');
  }

  ghost predicate ThreadsFitFor(s: State, t: Tid) {
    s.past != [] && t in s.threads && s.depth > 0
    && LockDepth(s.threads[t]) == s.depth && Inside(s.threads[t], Done(s), s.now)
  }

  /** A step of a thread that does not hold the lock: it stays outside, at most
      recording a call that leaves the heap alone, or it takes the free lock. */
  lemma OutsideMoves(s: State, t: Tid, a: Action, s': State)
    requires s.past != [] && t in s.threads && Outside(s.threads[t]) && Step(s, t, a, s')
    requires s.depth > 0 ==> s.owner != t
    requires s.depth == 0 ==> s.now == Done(s)
    requires forall b :: Frees(s.threads[t], b) ==> b in Live(Done(s).bs)
    ensures s'.now == s.now && t in s'.threads && s'.past != [] && Done(s') == Done(s)
    ensures (s'.owner == s.owner && s'.depth == s.depth && Outside(s'.threads[t]))
      || (s.depth == 0 && s'.owner == t && ThreadsFitFor(s', t) && s'.depth == 1)
    ensures (s'.log == s.log && s'.past == s.past)
      || exists op :: s'.log == s.log + [op] && s'.past == s.past + [Done(s)] && R.Call(Done(s), op, Done(s)) && !op.FreeOp?
    ensures forall b :: Frees(s'.threads[t], b) ==> Frees(s.threads[t], b) || a == StartFree(b)
  {
    match s.threads[t]
    case Malloc(stack, g) =>
      assert stack == [stack[0]];
      OutsideMallocs(s, t, stack[0], g, s');
    case _ =>
  }

  lemma OutsideMallocs(s: State, t: Tid, f: Frame, g: bool, s': State)
    requires s.past != [] && t in s.threads && s.threads[t] == Malloc([f], g) && Outside(s.threads[t])
    requires MallocStep(s, t, [f], g, s') && (s.depth == 0 ==> s.now == Done(s)) && (s.depth > 0 ==> s.owner != t)
    ensures s'.now == s.now && t in s'.threads && s'.past != [] && Done(s') == Done(s)
    ensures (s'.owner == s.owner && s'.depth == s.depth && Outside(s'.threads[t]))
      || (s.depth == 0 && s'.owner == t && ThreadsFitFor(s', t) && s'.depth == 1)
    ensures (s'.log == s.log && s'.past == s.past)
      || exists op :: s'.log == s.log + [op] && s'.past == s.past + [Done(s)] && R.Call(Done(s), op, Done(s)) && !op.FreeOp?
    ensures s'.threads[t].Malloc? || s'.threads[t] == Idle
  {
    if f.pc == Check && Needed(f.n) > HEAP_SIZE {
      var op, d := R.Malloc(BestFit, f.n, g, NULL), Done(s);
      assert MallocPost(BestFit, f.n, g, d.bs, d.heapSize, d.bs, d.heapSize, NULL, 0);
      assert R.Call(d, op, d);
      assert s'.log == s.log + [op];
    } else if f.pc == Check {
      OuterSets(s, t, f, g, Lock);
    } else {
      OuterSets(Acquire(s, t), t, f, g, Search);
      OuterSets(Acquire(s, t), t, f, g, Dump(Search));
    }
  }

  /** Recording a serial call extends the serial run. */
  lemma Extends(past: seq<R.State>, log: seq<R.Op>, op: R.Op, h: R.State)
    requires R.Calls(past, log) && R.Call(past[|past| - 1], op, h)
    ensures R.Calls(past + [h], log + [op])
    ensures forall b :: b in Live(past[|past| - 1].bs) && op != R.FreeOp(b) ==> b in Live(h.bs)
  {
    R.RunIsWellFormed(past, log, |log|);
    R.CallKeeps(past[|log|], op, h);
    var p, l := past + [h], log + [op];
    forall i | 0 <= i < |l| ensures R.CallAt(p, l, i) {
      if i < |log| { assert R.CallAt(past, log, i); }
    }
  }

  ghost predicate OthersStay(s: State, t: Tid, s': State) {
    s'.threads.Keys == s.threads.Keys
    && (forall u :: u in s.threads && u != t ==> s'.threads[u] == s.threads[u])
    && (s'.owner == s.owner || s'.owner == t)
  }

  lemma MallocMovesOne(s: State, t: Tid, stack: seq<Frame>, g: bool, s': State)
    requires s.past != [] && t in s.threads && MallocStep(s, t, stack, g, s')
    ensures OthersStay(s, t, s')
  {
  }

  lemma OneThreadMoves(s: State, t: Tid, a: Action, s': State)
    requires Step(s, t, a, s')
    ensures OthersStay(s, t, s')
  {
    match s.threads[t]
    case Malloc(stack, g) => MallocMovesOne(s, t, stack, g, s');
    case _ =>
  }

  /** What a step adds to the record: nothing, or one serial call. */
  ghost predicate RecordsOne(s: State, t: Tid, s': State)
    requires s.past != [] && s'.past != [] && t in s.threads && t in s'.threads
  {
    (s'.log == s.log && s'.past == s.past)
    || exists op ::
         s'.log == s.log + [op] && s'.past == s.past + [Done(s')] && R.Call(Done(s), op, Done(s'))
         && forall b :: op == R.FreeOp(b) ==> Frees(s.threads[t], b) && s'.threads[t] == Idle
  }

  /** Thread `t` may begin only a free that no other thread has under way. */
  ghost predicate FreesOwn(s: State, t: Tid, s': State)
    requires s.past != [] && t in s.threads && t in s'.threads
  {
    forall b :: Frees(s'.threads[t], b) ==>
      Frees(s.threads[t], b) || (b in Live(Done(s).bs) && forall u :: u in s.threads ==> !Frees(s.threads[u], b))
  }

  lemma FreesKeep(s: State, t: Tid, s': State, freed: set<Block>)
    requires s.past != [] && s'.past != [] && t in s.threads && t in s'.threads && OthersStay(s, t, s')
    requires FreesFit(s) && FreesOwn(s, t, s')
    requires forall b :: b in Live(Done(s).bs) && b !in freed ==> b in Live(Done(s').bs)
    requires forall b :: b in freed ==> Frees(s.threads[t], b) && s'.threads[t] == Idle
    ensures FreesFit(s')
  {
    forall u, b | u in s'.threads && Frees(s'.threads[u], b) ensures b in Live(Done(s').bs) {
      assert b in Live(Done(s).bs);
    }
  }

  lemma RecordOne(s: State, t: Tid, s': State, op: R.Op)
    requires R.Calls(s.past, s.log) && FreesFit(s)
    requires s'.past != [] && t in s.threads && t in s'.threads && OthersStay(s, t, s') && FreesOwn(s, t, s')
    requires s'.log == s.log + [op] && s'.past == s.past + [Done(s')] && R.Call(Done(s), op, Done(s'))
    requires op.FreeOp? ==> Frees(s.threads[t], op.block) && s'.threads[t] == Idle
    ensures R.Calls(s'.past, s'.log) && FreesFit(s')
  {
    Extends(s.past, s.log, op, Done(s'));
    var freed := if op.FreeOp? then {op.block} else {};
    forall b | b in Live(Done(s).bs) && b !in freed ensures b in Live(Done(s').bs) {
      assert op != R.FreeOp(b);
    }
    FreesKeep(s, t, s', freed);
  }

  lemma RecordKeeps(s: State, t: Tid, s': State)
    requires R.Calls(s.past, s.log) && FreesFit(s)
    requires s'.past != [] && t in s.threads && t in s'.threads && OthersStay(s, t, s') && RecordsOne(s, t, s')
    requires FreesOwn(s, t, s')
    ensures R.Calls(s'.past, s'.log) && FreesFit(s')
  {
    if s'.log == s.log && s'.past == s.past {
      FreesKeep(s, t, s', {});
    } else {
      var op :| s'.log == s.log + [op] && s'.past == s.past + [Done(s')] && R.Call(Done(s), op, Done(s'))
                && forall b :: op == R.FreeOp(b) ==> Frees(s.threads[t], b) && s'.threads[t] == Idle;
      RecordOne(s, t, s', op);
    }
  }

  lemma HolderKeeps(s: State, t: Tid, a: Action, s': State)
    requires Inv(s) && Step(s, t, a, s') && s.depth > 0 && s.owner == t
    ensures Inv(s')
  {
    OneThreadMoves(s, t, a, s');
    InsideMoves(s, t, a, s');
    if Completes(s, t, s') && s'.log != s.log {
      var op :| s'.log == s.log + [op] && s'.past == s.past + [s'.now] && R.Call(Done(s), op, s'.now)
                && forall b :: op == R.FreeOp(b) ==> Frees(s.threads[t], b);
      assert Done(s') == s'.now;
      assert RecordsOne(s, t, s');
    }
    RecordKeeps(s, t, s');
  }

  lemma OthersKeep(s: State, t: Tid, a: Action, s': State)
    requires Inv(s) && Step(s, t, a, s') && !(s.depth > 0 && s.owner == t)
    ensures Inv(s')
  {
    OneThreadMoves(s, t, a, s');
    OutsideMoves(s, t, a, s');
    RecordKeeps(s, t, s');
  }

  /** Every step of every thread keeps the invariant. */
  lemma StepKeeps(s: State, t: Tid, a: Action, s': State)
    requires Inv(s) && Step(s, t, a, s')
    ensures Inv(s')
  {
    if s.depth > 0 && s.owner == t { HolderKeeps(s, t, a, s'); } else { OthersKeep(s, t, a, s'); }
  }

  lemma InitHolds(s: State)
    requires Init(s)
    ensures Inv(s)
  {
  }

  // Whole executions

  /** Who steps, and what for. */
  datatype Move = Move(t: Tid, a: Action)

  ghost predicate StepAt(ss: seq<State>, ms: seq<Move>, i: nat) {
    i < |ms| && i + 1 < |ss| && Step(ss[i], ms[i].t, ms[i].a, ss[i + 1])
  }

  ghost predicate Execution(ss: seq<State>, ms: seq<Move>) {
    |ss| == |ms| + 1 && Init(ss[0]) && forall i :: 0 <= i < |ms| ==> StepAt(ss, ms, i)
  }

  lemma {:induction false} ExecutionKeeps(ss: seq<State>, ms: seq<Move>, i: nat)
    requires Execution(ss, ms) && i < |ss|
    ensures Inv(ss[i])
    decreases i
  {
    if i == 0 {
      InitHolds(ss[0]);
    } else {
      ExecutionKeeps(ss, ms, i - 1);
      assert StepAt(ss, ms, i - 1);
      StepKeeps(ss[i - 1], ms[i - 1].t, ms[i - 1].a, ss[i]);
    }
  }

  // Calls and their records

  /** The call a thread has begun and not finished. */
  function RequestOf(th: Thread): Option<Action> {
    match th
    case Idle => None
    case Malloc(stack, g) => if stack == [] then None else Some(StartMalloc(stack[0].n, g))
    case FreeLock(b) => Some(StartFree(b))
    case FreeInsert(b) => Some(StartFree(b))
    case FreeMergePrev(b, _) => Some(StartFree(b))
    case FreeMergeNext(b, _) => Some(StartFree(b))
    case FreeUnlock(b) => Some(StartFree(b))
    case _ => Some(StartDump)
  }

  /** The call that a record is of. */
  function RequestIn(op: R.Op): Action {
    match op
    case Malloc(_, n, g, _) => StartMalloc(n, g)
    case FreeOp(b) => StartFree(b)
  }

  /** What a step of the lock's owner or another thread does with its own call: begins
      it, goes on with it, or ends it, and then records it unless it is a dump. */
  ghost predicate CallMoves(s: State, m: Move, s': State)
    requires m.t in s.threads && m.t in s'.threads
  {
    var (th, th') := (s.threads[m.t], s'.threads[m.t]);
    if m.a != Continue then
      th == Idle && RequestOf(th') == Some(m.a) && s'.log == s.log
    else if th' != Idle then
      RequestOf(th).Some? && RequestOf(th') == RequestOf(th) && s'.log == s.log
    else if RequestOf(th) == Some(StartDump) then
      s'.log == s.log
    else
      exists op :: s'.log == s.log + [op] && RequestOf(th) == Some(RequestIn(op)) && Answers(th, op)
  }

  /** The record holds the answer the call is about to give. */
  ghost predicate Answers(th: Thread, op: R.Op) {
    op.Malloc? && th.Malloc? && th.stack != [] ==>
      op.strategy == BestFit && op.address == if th.stack[0].pc.Unlock? then th.stack[0].pc.address else NULL
  }

  lemma MallocCallMoves(s: State, m: Move, stack: seq<Frame>, g: bool, s': State)
    requires s.past != [] && m.t in s.threads && s.threads[m.t] == Malloc(stack, g) && 1 <= |stack| <= 2
    requires MallocStep(s, m.t, stack, g, s') && m.a == Continue
    ensures m.t in s'.threads && CallMoves(s, m, s')
  {
    if s'.threads[m.t] == Idle {
      var f := stack[|stack| - 1];
      var op := R.Malloc(BestFit, stack[0].n, g, if f.pc.Unlock? then f.pc.address else NULL);
      assert s'.log == s.log + [op];
    }
  }

  lemma OtherCallMoves(s: State, m: Move, s': State)
    requires Step(s, m.t, m.a, s') && !s.threads[m.t].Malloc?
    ensures m.t in s'.threads && CallMoves(s, m, s')
  {
    match s.threads[m.t]
    case FreeUnlock(b) => assert s'.log == s.log + [R.FreeOp(b)];
    case _ =>
  }

  lemma StackFits(s: State, t: Tid)
    requires Inv(s) && t in s.threads && s.threads[t].Malloc?
    ensures 1 <= |s.threads[t].stack| <= 2
  {
  }

  lemma OneCallMoves(s: State, m: Move, s': State)
    requires Inv(s) && Step(s, m.t, m.a, s')
    ensures m.t in s'.threads && CallMoves(s, m, s')
  {
    if s.threads[m.t].Malloc? {
      StackFits(s, m.t);
      MallocCallMoves(s, m, s.threads[m.t].stack, s.threads[m.t].answered, s');
    } else {
      OtherCallMoves(s, m, s');
    }
  }

  /** The calls begun. */
  ghost function Begun(ms: seq<Move>): multiset<Action> {
    if ms == [] then multiset{}
    else Begun(ms[..|ms| - 1]) + if ms[|ms| - 1].a == Continue then multiset{} else multiset{ms[|ms| - 1].a}
  }

  /** The calls recorded. */
  ghost function Recorded(log: seq<R.Op>): multiset<Action> {
    if log == [] then multiset{} else Recorded(log[..|log| - 1]) + multiset{RequestIn(log[|log| - 1])}
  }

  ghost function Unfinished(threads: map<Tid, Thread>, x: Action): set<Tid> {
    set t | t in threads && RequestOf(threads[t]) == Some(x)
  }

  lemma UnfinishedMove(threads: map<Tid, Thread>, t: Tid, th: Thread, x: Action)
    requires t in threads
    ensures |Unfinished(threads[t := th], x)| + (if RequestOf(threads[t]) == Some(x) then 1 else 0) ==
      |Unfinished(threads, x)| + if RequestOf(th) == Some(x) then 1 else 0
  {
    OthersUnfinished(threads, t, th, x);
    Without(Unfinished(threads, x), t);
    Without(Unfinished(threads[t := th], x), t);
  }

  lemma OthersUnfinished(threads: map<Tid, Thread>, t: Tid, th: Thread, x: Action)
    requires t in threads
    ensures Unfinished(threads[t := th], x) - {t} == Unfinished(threads, x) - {t}
    ensures t in Unfinished(threads, x) <==> RequestOf(threads[t]) == Some(x)
    ensures t in Unfinished(threads[t := th], x) <==> RequestOf(th) == Some(x)
  {
  }

  lemma Without<T>(s: set<T>, t: T)
    ensures |s| == |s - {t}| + (if t in s then 1 else 0)
  {
  }

  lemma OneRecordMore(s: State, m: Move, s': State, x: Action)
    requires m.t in s.threads && m.t in s'.threads && CallMoves(s, m, s') && OthersStay(s, m.t, s')
    requires x.StartMalloc? || x.StartFree?
    ensures Recorded(s'.log)[x] + |Unfinished(s'.threads, x)| ==
      Recorded(s.log)[x] + |Unfinished(s.threads, x)| + if m.a == x then 1 else 0
  {
    assert s'.threads == s.threads[m.t := s'.threads[m.t]];
    UnfinishedMove(s.threads, m.t, s'.threads[m.t], x);
    if s'.log != s.log { assert s'.log[..|s.log|] == s.log; }
  }

  /** Every call of `my_malloc` or `my_free` begun is recorded once, or unfinished. */
  lemma {:induction false} BegunIsRecorded(ss: seq<State>, ms: seq<Move>, i: nat, x: Action)
    requires Execution(ss, ms) && i <= |ms| && (x.StartMalloc? || x.StartFree?)
    ensures Begun(ms[..i])[x] == Recorded(ss[i].log)[x] + |Unfinished(ss[i].threads, x)|
    decreases i
  {
    if i == 0 {
      assert Unfinished(ss[0].threads, x) == {};
    } else {
      var s, m, s' := ss[i - 1], ms[i - 1], ss[i];
      BegunIsRecorded(ss, ms, i - 1, x);
      ExecutionKeeps(ss, ms, i - 1);
      assert StepAt(ss, ms, i - 1);
      OneCallMoves(s, m, s');
      OneThreadMoves(s, m.t, m.a, s');
      OneRecordMore(s, m, s', x);
      assert ms[..i][..i - 1] == ms[..i - 1];
    }
  }

  /** The call thread `t` began last. */
  ghost function LastCall(ms: seq<Move>, t: Tid): Option<Action> {
    if ms == [] then None
    else
      var m := ms[|ms| - 1];
      if m.t == t && m.a != Continue then Some(m.a) else LastCall(ms[..|ms| - 1], t)
  }

  lemma {:induction false} WorksOnLastCall(ss: seq<State>, ms: seq<Move>, i: nat, t: Tid)
    requires Execution(ss, ms) && i <= |ms| && t in ss[0].threads
    ensures t in ss[i].threads && (ss[i].threads[t] != Idle ==> RequestOf(ss[i].threads[t]) == LastCall(ms[..i], t))
    decreases i
  {
    if i > 0 {
      var s, m, s' := ss[i - 1], ms[i - 1], ss[i];
      WorksOnLastCall(ss, ms, i - 1, t);
      ExecutionKeeps(ss, ms, i - 1);
      assert StepAt(ss, ms, i - 1);
      OneCallMoves(s, m, s');
      OneThreadMoves(s, m.t, m.a, s');
      assert ms[..i][..i - 1] == ms[..i - 1];
    }
  }

  /** A thread that finishes a call of `my_malloc` or `my_free` records that very call,
      with the answer it gives, and nothing else is recorded. */
  lemma CallIsRecorded(ss: seq<State>, ms: seq<Move>, i: nat)
    requires Execution(ss, ms) && i < |ms| && ms[i].t in ss[0].threads
    ensures ms[i].t in ss[i].threads && ms[i].t in ss[i + 1].threads
    ensures var (th, th', call) := (ss[i].threads[ms[i].t], ss[i + 1].threads[ms[i].t], LastCall(ms[..i], ms[i].t));
      if th != Idle && th' == Idle && call != Some(StartDump) then
        exists op :: ss[i + 1].log == ss[i].log + [op] && call == Some(RequestIn(op)) && Answers(th, op)
      else ss[i + 1].log == ss[i].log
  {
    var s, m, s' := ss[i], ms[i], ss[i + 1];
    ExecutionKeeps(ss, ms, i);
    WorksOnLastCall(ss, ms, i, m.t);
    assert StepAt(ss, ms, i);
    OneCallMoves(s, m, s');
  }

  /** Serializability: at every point of every execution the completed calls, in
      the order in which they gave the lock back and with the answers they gave,
      are a serial run; whenever the lock is free the heap is the one that run
      leaves, and well formed.  The calls of the run are those begun, each once, but
      for the unfinished ones. */
  lemma Serializable(ss: seq<State>, ms: seq<Move>, i: nat)
    requires Execution(ss, ms) && i < |ss|
    ensures R.Calls(ss[i].past, ss[i].log)
    ensures ss[i].depth == 0 ==> ss[i].now == Done(ss[i]) && WellFormed(ss[i].now.bs, ss[i].now.heapSize)
    ensures forall x: Action :: x.StartMalloc? || x.StartFree? ==>
      Begun(ms[..i])[x] == Recorded(ss[i].log)[x] + |Unfinished(ss[i].threads, x)|
  {
    ExecutionKeeps(ss, ms, i);
    R.RunIsWellFormed(ss[i].past, ss[i].log, |ss[i].log|);
    forall x: Action | x.StartMalloc? || x.StartFree?
      ensures Begun(ms[..i])[x] == Recorded(ss[i].log)[x] + |Unfinished(ss[i].threads, x)|
    {
      BegunIsRecorded(ss, ms, i, x);
    }
  }

  /** The order in which calls complete decides everything: two executions, of any
      threads, that completed the same requests in the same order have given the
      same answers and, when the lock is free, have the same heap. */
  lemma OrderDecides(ss: seq<State>, ms: seq<Move>, i: nat, ss': seq<State>, ms': seq<Move>, i': nat)
    requires Execution(ss, ms) && i < |ss| && Execution(ss', ms') && i' < |ss'|
    requires |ss[i].log| == |ss'[i'].log|
    requires forall c :: 0 <= c < |ss[i].log| ==> R.SameRequest(ss[i].log[c], ss'[i'].log[c])
    ensures ss[i].log == ss'[i'].log
    ensures ss[i].depth == 0 && ss'[i'].depth == 0 ==> ss[i].now == ss'[i'].now
  {
    var s, s' := ss[i], ss'[i'];
    ExecutionKeeps(ss, ms, i);
    ExecutionKeeps(ss', ms', i');
    R.RunIsDetermined(s.past, s.log, s'.past, s'.log, |s.log|);
    assert s.log[..|s.log|] == s.log && s'.log[..|s'.log|] == s'.log;
  }

  /** Is the thread in a dump inside a call? */
  predicate Dumping(th: Thread) {
    th.Malloc? && th.stack != [] && PcLocks(th.stack[|th.stack| - 1].pc) == 2
  }

  /** The lock is balanced: a thread holds it exactly as often as its unfinished
      activations, dumps included, and an idle thread not at all; a `my_malloc`
      calls itself at most once, so it holds the lock at most twice, and once more
      only during a dump of its own. */
  lemma LockIsBalanced(ss: seq<State>, ms: seq<Move>, i: nat, t: Tid)
    requires Execution(ss, ms) && i < |ss| && t in ss[i].threads
    ensures var s := ss[i];
      LockDepth(s.threads[t]) == if s.depth > 0 && s.owner == t then s.depth else 0
    ensures LockDepth(ss[i].threads[t]) <= if Dumping(ss[i].threads[t]) then 3 else 2
    ensures ss[i].threads[t].Malloc? ==> 1 <= |ss[i].threads[t].stack| <= 2
  {
    ExecutionKeeps(ss, ms, i);
    var th := ss[i].threads[t];
    if th.Malloc? {
      OneFrame(th.stack[0]);
      if |th.stack| == 1 {
        assert th.stack == [th.stack[0]];
      } else {
        OneFrame(th.stack[1]);
        TwoFrames(th.stack[0], th.stack[1]);
        assert th.stack == [th.stack[0], th.stack[1]];
      }
    }
  }

  /** A dump that has walked the heap has seen exactly the serial heap. */
  lemma DumpIsConsistent(ss: seq<State>, ms: seq<Move>, i: nat, t: Tid)
    requires Execution(ss, ms) && i < |ss| && t in ss[i].threads && ss[i].threads[t].DumpUnlock?
    ensures ss[i].past != [] && ss[i].threads[t].seen == Done(ss[i]).bs
    ensures WellFormed(ss[i].threads[t].seen, Done(ss[i]).heapSize)
  {
    ExecutionKeeps(ss, ms, i);
    R.RunIsWellFormed(ss[i].past, ss[i].log, |ss[i].log|);
  }

  /** A dump inside `my_malloc` has seen a well-formed heap too: before the search
      the serial heap, grown for the inner call, and at the end the heap that the
      call leaves. */
  lemma InnerDumpIsConsistent(ss: seq<State>, ms: seq<Move>, i: nat, t: Tid, stack: seq<Frame>, g: bool)
    requires Execution(ss, ms) && i < |ss| && t in ss[i].threads && ss[i].threads[t] == Malloc(stack, g)
    requires stack != [] && stack[|stack| - 1].pc.Walked?
    ensures ss[i].past != []
    ensures var (s, d, pc) := (ss[i], Done(ss[i]), stack[|stack| - 1].pc);
      pc.seen == s.now.bs && WellFormed(pc.seen, s.now.heapSize)
      && if pc.next.Unlock? then Answered(stack[0].n, g, d, s.now, pc.next.address)
         else s.now == if |stack| == 1 then d else R.State(Grow(d.bs, d.heapSize), d.heapSize + HEAP_SIZE)
  {
    ExecutionKeeps(ss, ms, i);
    var (s, d, pc) := (ss[i], Done(ss[i]), stack[|stack| - 1].pc);
    R.RunIsWellFormed(s.past, s.log, |s.log|);
    if pc.next.Unlock? {
      AnsweredIsWellFormed(stack[0].n, g, d, s.now, pc.next.address);
    } else {
      GrowKeeps(d.bs, d.heapSize);
    }
  }

  lemma AnsweredIsWellFormed(n: nat, g: bool, d: R.State, h: R.State, address: int)
    requires WellFormed(d.bs, d.heapSize) && Sized(n) && Answered(n, g, d, h, address)
    ensures WellFormed(h.bs, h.heapSize)
  {
    var j: nat :| MallocPost(BestFit, n, g, d.bs, d.heapSize, h.bs, h.heapSize, address, j);
    var b := R.MallocServes(BestFit, n, g, d.bs, d.heapSize, h.bs, h.heapSize, address, j);
  }

  /** A thread that holds the lock can always take its next step. */
  lemma HolderCanMove(s: State, t: Tid) returns (s': State)
    requires Inv(s) && s.depth > 0 && t == s.owner
    ensures Step(s, t, Continue, s')
  {
    match s.threads[t]
    case Malloc(stack, g) =>
      s' := MallocCanMove(s, t, stack, g);
    case FreeInsert(b) =>
      var j := IndexIn(s.now.bs, b);
      s' := Set(s.(now := s.now.(bs := s.now.bs[j := b.(free := true)])), t, FreeMergePrev(b, j));
    case FreeMergePrev(b, j) =>
      var k := MergeFrom(s.now.bs, j);
      s' := Set(s.(now := s.now.(bs := if k < j then Merge(s.now.bs, k, j) else s.now.bs)), t, FreeMergeNext(b, k));
    case FreeMergeNext(b, k) =>
      var bs := s.now.bs;
      s' := Set(s.(now := s.now.(bs := if MergeTo(bs, k) > k then Merge(bs, k, k + 1) else bs)), t, FreeUnlock(b));
    case FreeUnlock(b) =>
      s' := Set(Record(s.(depth := s.depth - 1), R.FreeOp(b), s.now), t, Idle);
    case DumpWalk =>
      s' := Set(s, t, DumpUnlock(s.now.bs));
    case DumpUnlock(seen) =>
      s' := Set(s.(depth := s.depth - 1), t, Idle);
  }

  lemma MallocCanMove(s: State, t: Tid, stack: seq<Frame>, g: bool) returns (s': State)
    requires s.past != [] && stack != [] && MayLock(s, t)
    requires var f := stack[|stack| - 1];
      f.pc != Calling && (f.pc.Take? ==> f.pc.j < |s.now.bs|) && (f.pc.Unlock? || f.pc.Walked? ==> s.depth > 0)
    ensures MallocStep(s, t, stack, g, s')
  {
    var f := stack[|stack| - 1];
    match f.pc
    case Check =>
      s' := if Needed(f.n) > HEAP_SIZE then Return(s, t, stack, g, NULL, Done(s)) else SetPc(s, t, stack, g, Lock);
    case Lock =>
      s' := SetPc(Acquire(s, t), t, stack, g, Search);
    case Search =>
      s' := SetPc(s, t, stack, g, Extend);
      if !NoFit(s.now.bs, Needed(f.n)) {
        var j := ChosenExists(BestFit, s.now.bs, Needed(f.n));
        s' := SetPc(s, t, stack, g, Take(j));
      }
    case Take(j) =>
      var h := s.now.(bs := Alloc(s.now.bs, j, Needed(f.n)));
      s' := SetPc(s.(now := h), t, stack, g, Unlock(s.now.bs[j].off + HEADER_SIZE));
    case Extend =>
      var h := R.State(Grow(s.now.bs, s.now.heapSize), s.now.heapSize + HEAP_SIZE);
      s' := if !g then SetPc(s, t, stack, g, Unlock(NULL))
            else Set(s.(now := h), t, Malloc(stack[|stack| - 1 := f.(pc := Calling)] + [Frame(Needed(f.n), Check)], g));
    case Unlock(address) =>
      s' := Return(s.(depth := s.depth - 1), t, stack, g, address, s.now);
    case Dump(next) =>
      s' := SetPc(Acquire(s, t), t, stack, g, Walk(next));
    case Walk(next) =>
      s' := SetPc(s, t, stack, g, Walked(s.now.bs, next));
    case Walked(_, next) =>
      s' := SetPc(s.(depth := s.depth - 1), t, stack, g, next);
  }

  /** No deadlock: while a call is unfinished, some unfinished call can take its
      next step. */
  lemma NoDeadlock(ss: seq<State>, ms: seq<Move>, i: nat, t: Tid) returns (u: Tid, s': State)
    requires Execution(ss, ms) && i < |ss| && t in ss[i].threads && ss[i].threads[t] != Idle
    ensures u in ss[i].threads && ss[i].threads[u] != Idle && Step(ss[i], u, Continue, s')
  {
    ExecutionKeeps(ss, ms, i);
    var s := ss[i];
    if s.depth > 0 {
      u := s.owner;
      s' := HolderCanMove(s, u);
    } else {
      u := t;
      match s.threads[t]
      case Malloc(stack, g) => s' := MallocCanMove(s, t, stack, g);
      case FreeLock(b) => s' := Set(Acquire(s, t), t, FreeInsert(b));
      case DumpLock => s' := Set(Acquire(s, t), t, DumpWalk);
    }
  }
}
