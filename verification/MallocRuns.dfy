/** Every sequence of `my_malloc` and `my_free`. */
module MallocRuns {
  import opened HeapBlocks
  import opened HeapTheorems
  import opened FitChoice
  import opened FitAllocator

  /** What a caller of `my_malloc` may rely on: the heap stays well formed; NULL
      leaves every live block as it was; any other answer is the payload of a
      block of its own, aligned, inside the heap and of the size asked for, which is
      large enough exactly if the request did not wrap around. */
  lemma MallocIsSafe(strategy: Strategy, n: nat, answered: bool, bs: seq<Block>, heapSize: int,
                     bs': seq<Block>, heapSize': int, address: int, j: nat) returns (b: Block)
    requires WellFormed(bs, heapSize) && Sized(n)
    requires MallocPost(strategy, n, answered, bs, heapSize, bs', heapSize', address, j)
    ensures WellFormed(bs', heapSize')
    ensures if address == NULL then Live(bs') == Live(bs) else Served(Needed(n) - HEADER_SIZE, address, bs, bs', heapSize', b)
    ensures address != NULL ==> (n + HEADER_SIZE <= b.size <==> n <= TWO64 - 32)
    ensures address != NULL ==> b.size == Needed(n) + if NoFit(bs, Needed(n)) then HEADER_SIZE else 0
  {
    b := MallocServes(strategy, n, answered, bs, heapSize, bs', heapSize', address, j);
    NeededIsEnough(n);
  }

  lemma MallocServes(strategy: Strategy, n: nat, answered: bool, bs: seq<Block>, heapSize: int,
                     bs': seq<Block>, heapSize': int, address: int, j: nat) returns (b: Block)
    requires WellFormed(bs, heapSize) && Sized(n)
    requires MallocPost(strategy, n, answered, bs, heapSize, bs', heapSize', address, j)
    ensures WellFormed(bs', heapSize')
    ensures if address == NULL then Live(bs') == Live(bs) else Served(Needed(n) - HEADER_SIZE, address, bs, bs', heapSize', b)
    ensures address != NULL ==> Needed(n) <= HEAP_SIZE && b.size == Needed(n) + if NoFit(bs, Needed(n)) then HEADER_SIZE else 0
  {
    var need := Needed(n);
    NeededHolds(n);
    b := Block(address - HEADER_SIZE, need, false);
    if need <= HEAP_SIZE && !NoFit(bs, need) {
      AllocServes(bs, heapSize, j, need, need - HEADER_SIZE);
    } else if need <= HEAP_SIZE && answered {
      b := RetryServes(need, bs, heapSize, bs', heapSize', address);
    }
  }

  /** What the retry leaves on the grown heap. */
  lemma RetryServes(need: nat, bs: seq<Block>, heapSize: int, bs': seq<Block>, heapSize': int, address: int) returns (b: Block)
    requires WellFormed(bs, heapSize) && HEADER_SIZE <= need <= HEAP_SIZE && need % 16 == 0
    requires heapSize' == heapSize + HEAP_SIZE
    requires if need + HEADER_SIZE > HEAP_SIZE then address == NULL && bs' == Grow(bs, heapSize)
             else address == heapSize + HEADER_SIZE && bs' == Alloc(Grow(bs, heapSize), |bs|, need + HEADER_SIZE)
    ensures WellFormed(bs', heapSize')
    ensures if address == NULL then Live(bs') == Live(bs) else Served(need - HEADER_SIZE, address, bs, bs', heapSize', b)
    ensures address != NULL ==> b.size == need + HEADER_SIZE
  {
    b := Block(heapSize, need + HEADER_SIZE, false);
    if need + HEADER_SIZE > HEAP_SIZE {
      GrowKeepsLive(bs, heapSize);
    } else {
      GrownServes(bs, heapSize, need + HEADER_SIZE, need - HEADER_SIZE);
    }
  }

  /** Which block a call takes from the heap as it is. */
  lemma MallocTakes(strategy: Strategy, n: nat, answered: bool, bs: seq<Block>, heapSize: int,
                    bs': seq<Block>, heapSize': int, address: int, j: nat) returns (b: Block)
    requires WellFormed(bs, heapSize) && Needed(n) <= HEAP_SIZE && !NoFit(bs, Needed(n))
    requires MallocPost(strategy, n, answered, bs, heapSize, bs', heapSize', address, j)
    ensures Extreme(strategy, bs, Needed(n), b) && address == b.off + HEADER_SIZE
  {
    b := bs[j];
    ChosenIsExtreme(strategy, bs, heapSize, Needed(n), j);
  }

  /** When `my_malloc` answers NULL. */
  lemma MallocFails(strategy: Strategy, n: nat, answered: bool, bs: seq<Block>, heapSize: int,
                    bs': seq<Block>, heapSize': int, address: int, j: nat)
    requires WellFormed(bs, heapSize) && Sized(n)
    requires MallocPost(strategy, n, answered, bs, heapSize, bs', heapSize', address, j)
    ensures address == NULL <==>
      Needed(n) > HEAP_SIZE || (NoFit(bs, Needed(n)) && (!answered || Needed(n) == HEAP_SIZE))
    ensures address == NULL && heapSize' != heapSize <==>
      NoFit(bs, Needed(n)) && answered && Needed(n) == HEAP_SIZE
  {
    NeededIsEnough(n);
    if Needed(n) <= HEAP_SIZE && !NoFit(bs, Needed(n)) { InBounds(bs, 0, heapSize, j); }
  }

  /** The call is determined: what it does to the heap and what it answers. */
  lemma MallocIsDetermined(strategy: Strategy, n: nat, answered: bool, bs: seq<Block>, heapSize: int,
                           bs1: seq<Block>, heapSize1: int, address1: int, j1: nat,
                           bs2: seq<Block>, heapSize2: int, address2: int, j2: nat)
    requires MallocPost(strategy, n, answered, bs, heapSize, bs1, heapSize1, address1, j1)
    requires MallocPost(strategy, n, answered, bs, heapSize, bs2, heapSize2, address2, j2)
    ensures bs1 == bs2 && heapSize1 == heapSize2 && address1 == address2
  {
    if Needed(n) <= HEAP_SIZE && !NoFit(bs, Needed(n)) { ChosenIsUnique(strategy, bs, Needed(n), j1, j2); }
  }

  datatype Op = Malloc(strategy: Strategy, n: nat, answered: bool, address: int) | FreeOp(block: Block)

  datatype State = State(bs: seq<Block>, heapSize: int)

  /** One call: any request with any strategy, or freeing any live block. */
  ghost predicate Call(s: State, op: Op, s': State) {
    match op
    case Malloc(strategy, n, answered, address) =>
      Sized(n)
      && exists j: nat :: MallocPost(strategy, n, answered, s.bs, s.heapSize, s'.bs, s'.heapSize, address, j)
    case FreeOp(b) =>
      b in Live(s.bs) && s'.heapSize == s.heapSize && s'.bs == Free(s.bs, IndexIn(s.bs, b))
  }

  /** A run from `initAllocator`. */
  ghost predicate Calls(states: seq<State>, ops: seq<Op>) {
    |states| == |ops| + 1 && states[0] == State(INITIAL, HEAP_SIZE)
    && forall i :: 0 <= i < |ops| ==> CallAt(states, ops, i)
  }

  ghost predicate CallAt(states: seq<State>, ops: seq<Op>, i: nat) {
    i < |ops| && i + 1 < |states| && Call(states[i], ops[i], states[i + 1])
  }

  lemma CallKeeps(s: State, op: Op, s': State)
    requires WellFormed(s.bs, s.heapSize) && Call(s, op, s')
    ensures WellFormed(s'.bs, s'.heapSize)
    ensures forall c :: c in Live(s.bs) && op != FreeOp(c) ==> c in Live(s'.bs)
  {
    match op
    case Malloc(strategy, n, answered, address) =>
      var j: nat :| MallocPost(strategy, n, answered, s.bs, s.heapSize, s'.bs, s'.heapSize, address, j);
      var b := MallocIsSafe(strategy, n, answered, s.bs, s.heapSize, s'.bs, s'.heapSize, address, j);
    case FreeOp(b) =>
      FreeKeeps(s.bs, s.heapSize, IndexIn(s.bs, b));
      FreeRemovesLive(s.bs, 0, s.heapSize, IndexIn(s.bs, b));
  }

  lemma {:induction false} RunIsWellFormed(states: seq<State>, ops: seq<Op>, i: nat)
    requires Calls(states, ops) && i <= |ops|
    ensures WellFormed(states[i].bs, states[i].heapSize)
    decreases i
  {
    if i == 0 {
      InitialIsWellFormed();
    } else {
      RunIsWellFormed(states, ops, i - 1);
      assert CallAt(states, ops, i - 1);
      CallKeeps(states[i - 1], ops[i - 1], states[i]);
    }
  }

  /** After every run: blocks tile the heap, the free list ascends strictly, live
      blocks lie apart and inside the heap, and no byte is lost. */
  lemma RunInvariant(states: seq<State>, ops: seq<Op>, i: nat)
    requires Calls(states, ops) && i <= |ops|
    ensures var s := states[i];
      Tiles(s.bs, 0, s.heapSize) && Apart(s.bs, true) && Ascending(FreeList(s.bs))
      && Total(s.bs, true) + Total(s.bs, false) == s.heapSize
    ensures forall b, c :: b in Live(states[i].bs) && c in Live(states[i].bs) && b != c ==> Separate(b, c)
  {
    var s := states[i];
    RunIsWellFormed(states, ops, i);
    NoByteLost(s.bs, 0, s.heapSize);
    FreeListAscends(s.bs, 0, s.heapSize);
    forall b, c | b in Live(s.bs) && c in Live(s.bs) && b != c ensures Separate(b, c) {
      var x, y := IndexIn(s.bs, b), IndexIn(s.bs, c);
      if x < y { Disjoint(s.bs, 0, s.heapSize, x, y); } else { Disjoint(s.bs, 0, s.heapSize, y, x); }
    }
  }

  /** A block once handed out stays live, where it is, until it is freed. */
  lemma {:induction false} LiveUntilFreed(states: seq<State>, ops: seq<Op>, b: Block, i: nat, k: nat)
    requires Calls(states, ops) && i <= k <= |ops| && b in Live(states[i].bs)
    requires forall m :: i <= m < k ==> ops[m] != FreeOp(b)
    ensures b in Live(states[k].bs)
    decreases k
  {
    if i < k {
      LiveUntilFreed(states, ops, b, i, k - 1);
      RunIsWellFormed(states, ops, k - 1);
      assert CallAt(states, ops, k - 1);
      CallKeeps(states[k - 1], ops[k - 1], states[k]);
    }
  }

  /** As long as the heap has not grown, no two free blocks touch. */
  lemma {:induction false} CoalescedWithoutGrowth(states: seq<State>, ops: seq<Op>, i: nat)
    requires Calls(states, ops) && i <= |ops|
    ensures states[i].heapSize >= HEAP_SIZE
    ensures states[i].heapSize == HEAP_SIZE ==> Coalesced(states[i].bs)
    decreases i
  {
    if i == 0 {
      InitialIsWellFormed();
      return;
    }
    CoalescedWithoutGrowth(states, ops, i - 1);
    assert CallAt(states, ops, i - 1);
    var s, s' := states[i - 1], states[i];
    match ops[i - 1]
    case Malloc(strategy, n, answered, address) =>
      var j: nat :| MallocPost(strategy, n, answered, s.bs, s.heapSize, s'.bs, s'.heapSize, address, j);
      if Coalesced(s.bs) && Needed(n) <= HEAP_SIZE && !NoFit(s.bs, Needed(n)) { AllocApart(s.bs, false, j, Needed(n)); }
    case FreeOp(b) =>
      if Coalesced(s.bs) { FreeApart(s.bs, false, IndexIn(s.bs, b)); }
  }

  /** Whatever the run, freeing all that is live returns the heap to its first
      state, unless it has grown. */
  lemma RunThenFreeAll(states: seq<State>, ops: seq<Op>, i: nat, order: seq<Block>)
    requires Calls(states, ops) && i <= |ops| && states[i].heapSize == HEAP_SIZE
    requires Freeable(states[i].bs, order) && BlockSet(order) == Live(states[i].bs)
    ensures WellFormed(states[i].bs, HEAP_SIZE)
    ensures FreeAll(states[i].bs, HEAP_SIZE, order) == INITIAL
  {
    RunIsWellFormed(states, ops, i);
    CoalescedWithoutGrowth(states, ops, i);
    FreeEverything(states[i].bs, HEAP_SIZE, order);
  }

  /** What a caller decides of a call; the rest is the answer. */
  ghost predicate SameRequest(p: Op, q: Op) {
    match p
    case Malloc(strategy, n, answered, _) => q.Malloc? && q.strategy == strategy && q.n == n && q.answered == answered
    case FreeOp(b) => q == p
  }

  lemma CallIsDetermined(s: State, p: Op, s1: State, q: Op, s2: State)
    requires Call(s, p, s1) && Call(s, q, s2) && SameRequest(p, q)
    ensures s1 == s2 && p == q
  {
    if p.Malloc? {
      var j1: nat :| MallocPost(p.strategy, p.n, p.answered, s.bs, s.heapSize, s1.bs, s1.heapSize, p.address, j1);
      var j2: nat :| MallocPost(q.strategy, q.n, q.answered, s.bs, s.heapSize, s2.bs, s2.heapSize, q.address, j2);
      MallocIsDetermined(p.strategy, p.n, p.answered, s.bs, s.heapSize,
                         s1.bs, s1.heapSize, p.address, j1, s2.bs, s2.heapSize, q.address, j2);
    }
  }

  /** Two runs with the same requests give the same answers and the same heaps. */
  lemma {:induction false} RunIsDetermined(states: seq<State>, ops: seq<Op>, states': seq<State>, ops': seq<Op>, i: nat)
    requires Calls(states, ops) && Calls(states', ops') && i <= |ops| && i <= |ops'|
    requires forall c :: 0 <= c < i ==> SameRequest(ops[c], ops'[c])
    ensures states[i] == states'[i] && ops[..i] == ops'[..i]
    decreases i
  {
    if i > 0 {
      var c := i - 1;
      RunIsDetermined(states, ops, states', ops', c);
      assert CallAt(states, ops, c) && CallAt(states', ops', c);
      CallIsDetermined(states[c], ops[c], states[c + 1], ops'[c], states'[c + 1]);
      assert ops[..c + 1] == ops[..c] + [ops[c]] && ops'[..c + 1] == ops'[..c] + [ops'[c]];
    }
  }

  // A run that grows the heap for nothing

  lemma FirstOf16() returns (op: Op, s: State)
    ensures op.Malloc? && op.n == 16 && Call(State(INITIAL, HEAP_SIZE), op, s)
    ensures s == State([Block(0, 32, false), Block(32, HEAP_SIZE - 32, true)], HEAP_SIZE)
  {
    NeededIsEnough(16);
    op, s := Malloc(BestFit, 16, true, HEADER_SIZE), State(Alloc(INITIAL, 0, 32), HEAP_SIZE);
    assert Fits(INITIAL[0], 32);
    assert MallocPost(BestFit, 16, true, INITIAL, HEAP_SIZE, s.bs, HEAP_SIZE, HEADER_SIZE, 0);
  }

  /** Two requests from the start, 16 bytes and then all that a heap can hold:
      the second grows the heap, and still answers NULL. */
  lemma GrownForNothing() returns (states: seq<State>, ops: seq<Op>)
    ensures Calls(states, ops) && |ops| == 2 && ops[0].Malloc? && ops[0].n == 16
    ensures ops[1].Malloc? && ops[1].n == HEAP_SIZE - HEADER_SIZE && ops[1].answered && ops[1].address == NULL
    ensures states[2].heapSize == 2 * HEAP_SIZE && Live(states[2].bs) == Live(states[1].bs)
  {
    var n := HEAP_SIZE - HEADER_SIZE;
    var op, s := FirstOf16();
    NeededIsEnough(n);
    var s' := State(Grow(s.bs, HEAP_SIZE), 2 * HEAP_SIZE);
    assert NoFit(s.bs, HEAP_SIZE);
    assert MallocPost(BestFit, n, true, s.bs, HEAP_SIZE, s'.bs, s'.heapSize, NULL, 0);
    states, ops := [State(INITIAL, HEAP_SIZE), s, s'], [op, Malloc(BestFit, n, true, NULL)];
    forall c | 0 <= c < 2 ensures CallAt(states, ops, c) {}
    LiveConcat(s.bs, [Block(HEAP_SIZE, HEAP_SIZE, true)]);
    assert Live([Block(HEAP_SIZE, HEAP_SIZE, true)]) == {};
  }
}
