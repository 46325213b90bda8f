/** Whether the heap of a run lies in memory the system gave. */
module MemoryRuns {
  import opened HeapBlocks
  import opened HeapTheorems
  import opened FitChoice
  import opened FitAllocator
  import opened MallocRuns
  import opened SystemMemory

  /** The call makes `my_malloc` ask for more memory. */
  ghost predicate Asks(s: State, op: Op) {
    op.Malloc? && Needed(op.n) <= HEAP_SIZE && NoFit(s.bs, Needed(op.n))
  }

  /** The account after the first `i` calls of a run; `works[c]` is the answer of
      `sbrk` to call `c`, should it ask. */
  ghost function AccountAt(variant: Variant, states: seq<State>, ops: seq<Op>, works: seq<bool>, i: nat): Account
    requires |states| == |ops| + 1 == |works| + 1 && i <= |ops|
  {
    if i == 0 then Start(variant)
    else
      var a := AccountAt(variant, states, ops, works, i - 1);
      if Asks(states[i - 1], ops[i - 1]) then Request(a, states[i - 1].heapSize + HEAP_SIZE, variant, works[i - 1]) else a
  }

  /** `allocHeap` answers call `c` as its account has it. */
  ghost predicate Honest(variant: Variant, states: seq<State>, ops: seq<Op>, works: seq<bool>, c: nat)
    requires |states| == |ops| + 1 == |works| + 1 && c < |ops|
  {
    Asks(states[c], ops[c]) ==>
      ops[c].answered == Answered(AccountAt(variant, states, ops, works, c), states[c].heapSize + HEAP_SIZE, variant)
  }

  /** A run with its memory. */
  ghost predicate MemoryRun(variant: Variant, states: seq<State>, ops: seq<Op>, works: seq<bool>) {
    Calls(states, ops) && |works| == |ops|
    && forall c :: 0 <= c < |ops| ==> Honest(variant, states, ops, works, c)
  }

  /** The answers of `sbrk` among the first `i` calls. */
  ghost function Answers(states: seq<State>, ops: seq<Op>, works: seq<bool>, i: nat): seq<bool>
    requires |states| == |ops| + 1 == |works| + 1 && i <= |ops|
  {
    if i == 0 then []
    else Answers(states, ops, works, i - 1) + if Asks(states[i - 1], ops[i - 1]) then [works[i - 1]] else []
  }

  /** One call grows the heap exactly if it asks and is answered. */
  lemma CallGrows(s: State, op: Op, s': State)
    requires Call(s, op, s')
    ensures s'.heapSize == s.heapSize + if Asks(s, op) && op.answered then HEAP_SIZE else 0
  {
    if op.Malloc? {
      var j: nat :| MallocPost(op.strategy, op.n, op.answered, s.bs, s.heapSize, s'.bs, s'.heapSize, op.address, j);
    }
  }

  /** What call `c` does to heap size and account. */
  lemma OneCall(variant: Variant, states: seq<State>, ops: seq<Op>, works: seq<bool>, c: nat)
    requires MemoryRun(variant, states, ops, works) && c < |ops|
    ensures var a, size := AccountAt(variant, states, ops, works, c), states[c].heapSize + HEAP_SIZE;
      states[c + 1].heapSize == (if Asks(states[c], ops[c]) && Answered(a, size, variant) then size else states[c].heapSize)
      && AccountAt(variant, states, ops, works, c + 1) == if Asks(states[c], ops[c]) then Request(a, size, variant, works[c]) else a
  {
    assert CallAt(states, ops, c) && Honest(variant, states, ops, works, c);
    CallGrows(states[c], ops[c], states[c + 1]);
  }

  /** Heap size and account are what the answers `g` make them. */
  ghost predicate AsAnswered(variant: Variant, heapSize: int, a: Account, g: seq<bool>) {
    heapSize == (|g| + 1) * HEAP_SIZE && a == After(g, variant)
  }

  lemma AsAnsweredStep(variant: Variant, heapSize: int, a: Account, g: seq<bool>, w: bool)
    requires AsAnswered(variant, heapSize, a, g)
    ensures AsAnswered(variant, heapSize + HEAP_SIZE, Request(a, heapSize + HEAP_SIZE, variant, w), g + [w])
  {
    assert (g + [w])[..|g|] == g;
  }

  /** With `sbrk`, the heap grows with every request, and the account is what the
      answers make it. */
  lemma {:induction false} GrowsWithAnswers(variant: Variant, states: seq<State>, ops: seq<Op>, works: seq<bool>, i: nat)
    requires MemoryRun(variant, states, ops, works) && i <= |ops| && !variant.Fixed?
    ensures AsAnswered(variant, states[i].heapSize, AccountAt(variant, states, ops, works, i), Answers(states, ops, works, i))
    decreases i
  {
    if i > 0 {
      var c := i - 1;
      var size, a, g := states[c].heapSize, AccountAt(variant, states, ops, works, c), Answers(states, ops, works, c);
      GrowsWithAnswers(variant, states, ops, works, c);
      OneCall(variant, states, ops, works, c);
      AsAnsweredStep(variant, size, a, g, works[c]);
      assert Answers(states, ops, works, c + 1) == if Asks(states[c], ops[c]) then g + [works[c]] else g;
    }
  }

  /** All blocks lie in the memory obtained. */
  ghost predicate Backed(s: State, a: Account) {
    forall b :: b in s.bs ==> b.End() <= a.end
  }

  lemma BackedMeansCovered(states: seq<State>, ops: seq<Op>, i: nat, a: Account)
    requires Calls(states, ops) && i <= |ops|
    ensures Backed(states[i], a) <==> states[i].heapSize <= a.end
  {
    RunIsWellFormed(states, ops, i);
    var bs := states[i].bs;
    assert bs[|bs| - 1] in bs;
    forall j | 0 <= j < |bs| ensures bs[j].End() <= states[i].heapSize { InBounds(bs, 0, states[i].heapSize, j); }
  }

  /** With the adding account, a run's blocks lie in memory exactly if the heap has
      not grown, or has grown once with an `sbrk` that worked. */
  lemma AddingRunIsBacked(states: seq<State>, ops: seq<Op>, works: seq<bool>, i: nat)
    requires MemoryRun(Adding, states, ops, works) && i <= |ops|
    ensures Backed(states[i], AccountAt(Adding, states, ops, works, i)) <==>
      states[i].heapSize == HEAP_SIZE || (states[i].heapSize == 2 * HEAP_SIZE && Answers(states, ops, works, i) == [true])
  {
    var g := Answers(states, ops, works, i);
    GrowsWithAnswers(Adding, states, ops, works, i);
    BackedMeansCovered(states, ops, i, AccountAt(Adding, states, ops, works, i));
    AddingCovers(g);
    HeapCount(|g|, states[i].heapSize);
  }

  lemma HeapCount(n: nat, size: int)
    requires size == (n + 1) * HEAP_SIZE
    ensures size == HEAP_SIZE <==> n == 0
    ensures size == 2 * HEAP_SIZE <==> n == 1
  {
  }

  /** The heap is `n` of the ten heaps. */
  ghost predicate AsFixed(heapSize: int, a: Account, n: nat) {
    a == Start(Fixed) && 1 <= n <= 10 && heapSize == n * HEAP_SIZE
  }

  lemma AsFixedStep(heapSize: int, a: Account, n: nat, w: bool)
    requires AsFixed(heapSize, a, n)
    ensures heapSize <= a.end && heapSize <= 10 * HEAP_SIZE
    ensures var size := heapSize + HEAP_SIZE;
      (Answered(a, size, Fixed) <==> heapSize < 10 * HEAP_SIZE) && Request(a, size, Fixed, w) == a
      && if Answered(a, size, Fixed) then AsFixed(size, a, n + 1) else AsFixed(heapSize, a, n)
  {
  }

  lemma {:induction false} FixedStays(states: seq<State>, ops: seq<Op>, works: seq<bool>, i: nat) returns (n: nat)
    requires MemoryRun(Fixed, states, ops, works) && i <= |ops|
    ensures AsFixed(states[i].heapSize, AccountAt(Fixed, states, ops, works, i), n)
    decreases i
  {
    n := 1;
    if i > 0 {
      var c := i - 1;
      n := FixedStays(states, ops, works, c);
      var heapSize, a := states[c].heapSize, AccountAt(Fixed, states, ops, works, c);
      AsFixedStep(heapSize, a, n, works[c]);
      OneCall(Fixed, states, ops, works, c);
      if Asks(states[c], ops[c]) && Answered(a, heapSize + HEAP_SIZE, Fixed) { n := n + 1; }
    }
  }

  /** With ten heaps from the start every run is backed, and `allocHeap` answers
      NULL from the tenth heap on. */
  lemma FixedRunIsBacked(states: seq<State>, ops: seq<Op>, works: seq<bool>, i: nat)
    requires MemoryRun(Fixed, states, ops, works) && i <= |ops|
    ensures Backed(states[i], AccountAt(Fixed, states, ops, works, i)) && states[i].heapSize <= 10 * HEAP_SIZE
    ensures i < |ops| && Asks(states[i], ops[i]) ==> (ops[i].answered <==> states[i].heapSize < 10 * HEAP_SIZE)
  {
    var n := FixedStays(states, ops, works, i);
    var heapSize, a := states[i].heapSize, AccountAt(Fixed, states, ops, works, i);
    AsFixedStep(heapSize, a, n, true);
    BackedMeansCovered(states, ops, i, a);
    if i < |ops| { assert Honest(Fixed, states, ops, works, i); }
  }

  // A run that leaves the memory obtained

  const MOST := HEAP_SIZE - 32

  /** The first call of MOST bytes is served from the first heap. */
  lemma FirstOfMost() returns (s: State, op: Op)
    ensures op.Malloc? && op.n == MOST && op.answered && Call(State(INITIAL, HEAP_SIZE), op, s)
    ensures s == State([Block(0, HEAP_SIZE - 16, false), Block(HEAP_SIZE - 16, 16, true)], HEAP_SIZE)
  {
    NeededIsEnough(MOST);
    assert Needed(MOST) == HEAP_SIZE - 16;
    op := Malloc(BestFit, MOST, true, HEADER_SIZE);
    s := State(Alloc(INITIAL, 0, HEAP_SIZE - 16), HEAP_SIZE);
    assert Fits(INITIAL[0], HEAP_SIZE - 16);
    assert MallocPost(BestFit, MOST, true, INITIAL, HEAP_SIZE, s.bs, HEAP_SIZE, HEADER_SIZE, 0);
  }

  /** With no block that large free, each further call grows the heap. */
  lemma NextOfMost(s: State) returns (s': State, op: Op)
    requires NoFit(s.bs, HEAP_SIZE - 16)
    ensures op.Malloc? && op.n == MOST && op.answered && Call(s, op, s') && Asks(s, op)
    ensures s' == State(s.bs + [Block(s.heapSize, HEAP_SIZE, false)], s.heapSize + HEAP_SIZE) && NoFit(s'.bs, HEAP_SIZE - 16)
  {
    NeededIsEnough(MOST);
    assert Needed(MOST) == HEAP_SIZE - 16;
    op := Malloc(BestFit, MOST, true, s.heapSize + HEADER_SIZE);
    var gs := Grow(s.bs, s.heapSize);
    s' := State(Alloc(gs, |s.bs|, HEAP_SIZE), s.heapSize + HEAP_SIZE);
    assert gs[..|s.bs|] == s.bs && gs[|s.bs|] == Block(s.heapSize, HEAP_SIZE, true) && gs[|s.bs| + 1..] == [];
    assert MallocPost(BestFit, MOST, true, s.bs, s.heapSize, s'.bs, s'.heapSize, op.address, |s.bs|);
  }

  /** Three calls of MOST bytes, every `sbrk` working: with the adding account the
      heap is then not all in memory. */
  lemma ThreeCallsAreTooMany() returns (states: seq<State>, ops: seq<Op>, works: seq<bool>)
    ensures MemoryRun(Adding, states, ops, works) && ops != [] && forall c :: 0 <= c < |works| ==> works[c]
    ensures !Backed(states[|ops|], AccountAt(Adding, states, ops, works, |ops|))
  {
    var s1, op1 := FirstOfMost();
    var s2, op2 := NextOfMost(s1);
    var s3, op3 := NextOfMost(s2);
    states, ops, works := [State(INITIAL, HEAP_SIZE), s1, s2, s3], [op1, op2, op3], [true, true, true];
    forall c | 0 <= c < 3 ensures CallAt(states, ops, c) && Honest(Adding, states, ops, works, c) {}
    AddingRunIsBacked(states, ops, works, 3);
  }
}
