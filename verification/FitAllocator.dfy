/** The allocator with a choice of fit: best, first or worst. */
module FitAllocator {
  import opened HeapBlocks
  import opened FreeListHeap
  import opened FitChoice
  import opened SystemMemory

  /** What `my_malloc` does to the heap and answers; `answered` says whether
      `allocHeap`, if asked, answers other than NULL.  After the heap grew, the
      retry adds another header to a size that already holds one. */
  ghost predicate MallocPost(strategy: Strategy, n: nat, answered: bool,
                             bs: seq<Block>, heapSize: int, bs': seq<Block>, heapSize': int, address: int, j: nat)
  {
    var need := Needed(n);
    if need > HEAP_SIZE then
      address == NULL && bs' == bs && heapSize' == heapSize
    else if !NoFit(bs, need) then
      Chosen(strategy, bs, need, j) && address == bs[j].off + HEADER_SIZE
      && bs' == Alloc(bs, j, need) && heapSize' == heapSize
    else if !answered then
      address == NULL && bs' == bs && heapSize' == heapSize
    else if need + HEADER_SIZE > HEAP_SIZE then
      address == NULL && bs' == Grow(bs, heapSize) && heapSize' == heapSize + HEAP_SIZE
    else
      j == |bs| && address == heapSize + HEADER_SIZE
      && bs' == Alloc(Grow(bs, heapSize), |bs|, need + HEADER_SIZE) && heapSize' == heapSize + HEAP_SIZE
  }

  /** With a larger need only the new block can fit. */
  lemma OnlyNewFits(strategy: Strategy, bs: seq<Block>, heapSize: int, need: int, more: int)
    requires NoFit(bs, need) && need <= more <= HEAP_SIZE
    ensures forall j: nat :: Chosen(strategy, Grow(bs, heapSize), more, j) ==> j == |bs|
    ensures !NoFit(Grow(bs, heapSize), more)
  {
    var gs := Grow(bs, heapSize);
    assert Fits(gs[|bs|], more);
    forall j: nat | j < |bs| ensures !Fits(gs[j], more) {
      assert gs[j] == bs[j] && !Fits(bs[j], need);
    }
  }

  /** The search loop.  `prev` trails `current`; the link to the best entry so
      far is remembered together with it. */
  method Search(strategy: Strategy, need: nat, first: int, size: map<int, int>, next: map<int, int>, ghost f: seq<Block>)
    returns (selected: int, link: int, ghost best: nat)
    requires Listed(f, first, size, next)
    ensures selected == NULL ==> NonePicked(f, |f|, need)
    ensures selected != NULL ==> Picked(strategy, f, |f|, need, best)
    ensures selected != NULL ==> selected == Entry(f, best) && link == if best == 0 then NULL else Entry(f, best - 1)
  {
    ghost var c: nat := 0;
    selected, link, best := NULL, NULL, 0;
    var prev, current := NULL, first;
    while current != NULL
      invariant c <= |f| && current == Entry(f, c)
      invariant prev == if c == 0 then NULL else Entry(f, c - 1)
      invariant selected == NULL ==> NonePicked(f, c, need)
      invariant selected != NULL ==> Picked(strategy, f, c, need, best)
      invariant selected != NULL ==> selected == Entry(f, best) && link == if best == 0 then NULL else Entry(f, best - 1)
      decreases |f| - c
    {
      PickStep(strategy, f, c, need, best);
      if size[current] >= need {
        if selected == NULL || Better(strategy, size[current], size[selected]) {
          selected, link, best := current, prev, c;
          PickStep(strategy, f, c, need, best);
        }
        if strategy == FirstFit { return; }
      }
      prev := current;
      current := next[current];
      c := c + 1;
    }
  }

  lemma Retry(strategy: Strategy, size: nat, bs: seq<Block>, heapSize: int)
    requires NoFit(bs, size) && 16 <= size <= HEAP_SIZE && size % 16 == 0
    ensures Needed(size) == size + HEADER_SIZE
    ensures Needed(size) <= HEAP_SIZE ==> !NoFit(Grow(bs, heapSize), Needed(size))
    ensures Needed(size) <= HEAP_SIZE ==>
      forall j: nat :: Chosen(strategy, Grow(bs, heapSize), Needed(size), j) ==> j == |bs|
  {
    NeededIsEnough(size);
    if Needed(size) <= HEAP_SIZE { OnlyNewFits(strategy, bs, heapSize, size, Needed(size)); }
  }

  /** The two ways to a block: from the list as it is, or from the grown heap. */
  lemma TakenPost(strategy: Strategy, n: nat, answered: bool, bs: seq<Block>, heapSize: int, j: nat)
    requires Sized(n) && Needed(n) <= HEAP_SIZE && Chosen(strategy, bs, Needed(n), j)
    ensures MallocPost(strategy, n, answered, bs, heapSize, Alloc(bs, j, Needed(n)), heapSize, bs[j].off + HEADER_SIZE, j)
    ensures 16 <= Needed(n) <= bs[j].size && Needed(n) % 16 == 0 && bs[j].free
  {
    NeededHolds(n);
    SomeFit(strategy, bs, Needed(n), j);
  }

  lemma RetriedPost(strategy: Strategy, n: nat, again: bool, bs: seq<Block>, heapSize: int,
                    bs': seq<Block>, heapSize': int, address: int, j: nat)
    requires Sized(n) && Needed(n) <= HEAP_SIZE && NoFit(bs, Needed(n))
    requires MallocPost(strategy, Needed(n), again, Grow(bs, heapSize), heapSize + HEAP_SIZE, bs', heapSize', address, j)
    ensures MallocPost(strategy, n, true, bs, heapSize, bs', heapSize', address, j)
  {
    NeededHolds(n);
    Retry(strategy, Needed(n), bs, heapSize);
  }

  class Allocator {
    const heap: Heap
    const system: System
    var strategy: Strategy

    constructor (variant: Variant)
      ensures heap.Valid() && fresh(heap) && fresh(system)
      ensures heap.blocks == INITIAL && heap.heapSize == HEAP_SIZE && strategy == BestFit
      ensures system.variant == variant && system.account == Start(variant)
    {
      heap := new Heap(NULL);
      system := new System(variant);
      strategy := BestFit;
    }

    method SetAllocationStrategy(s: Strategy)
      modifies this`strategy
      ensures strategy == s
    {
      strategy := s;
    }

    method FindBlock(need: nat) returns (selected: int, link: int, ghost j: nat)
      requires heap.Valid()
      ensures selected == NULL ==> NoFit(heap.blocks, need)
      ensures selected != NULL ==>
        Chosen(strategy, heap.blocks, need, j) && heap.blocks[j].off == selected && link == LinkBefore(heap.blocks, j)
    {
      j := 0;
      heap.IsListed();
      ghost var best;
      selected, link, best := Search(strategy, need, heap.first, heap.size, heap.next, FreeList(heap.blocks));
      if selected == NULL {
        NonePickedIsNoFit(heap.blocks, need);
      } else {
        j := PickedIsChosen(strategy, heap.blocks, need, best);
      }
    }

    /** More memory, and a free block in it at its place in the list. */
    method GrowHeap(works: bool) returns (ok: bool)
      requires heap.Valid()
      modifies heap, system
      ensures heap.Valid() && ok == Answered(old(system.account), old(heap.heapSize) + HEAP_SIZE, system.variant)
      ensures heap.blocks == if ok then Grow(old(heap.blocks), old(heap.heapSize)) else old(heap.blocks)
      ensures heap.heapSize == old(heap.heapSize) + if ok then HEAP_SIZE else 0
      ensures system.account == Request(old(system.account), old(heap.heapSize) + HEAP_SIZE, system.variant, works)
    {
      ok := system.AllocHeap(heap.heapSize + HEAP_SIZE, works);
      if ok { heap.Extend(); }
    }

    /** `my_malloc`. */
    method MyMalloc(n: nat, works: bool) returns (address: int, ghost j: nat)
      requires heap.Valid() && Sized(n)
      modifies heap, system
      ensures heap.Valid()
      ensures MallocPost(strategy, n, Answered(old(system.account), old(heap.heapSize) + HEAP_SIZE, system.variant),
                         old(heap.blocks), old(heap.heapSize), heap.blocks, heap.heapSize, address, j)
      ensures system.account ==
        if Needed(n) <= HEAP_SIZE && NoFit(old(heap.blocks), Needed(n)) then
          Request(old(system.account), old(heap.heapSize) + HEAP_SIZE, system.variant, works)
        else old(system.account)
      decreases if Needed(n) <= HEAP_SIZE && NoFit(heap.blocks, Needed(n)) then 1 else 0
    {
      var size := Needed(n);
      NeededHolds(n);
      if size > HEAP_SIZE { return NULL, 0; }
      var selected, link;
      selected, link, j := FindBlock(size);
      if selected == NULL {
        var ok := GrowHeap(works);
        if !ok { return NULL, 0; }
        Retry(strategy, size, old(heap.blocks), old(heap.heapSize));
        ghost var again := Answered(system.account, heap.heapSize + HEAP_SIZE, system.variant);
        address, j := MyMalloc(size, works);
        RetriedPost(strategy, n, again, old(heap.blocks), old(heap.heapSize), heap.blocks, heap.heapSize, address, j);
        return;
      }
      TakenPost(strategy, n, Answered(system.account, heap.heapSize + HEAP_SIZE, system.variant), heap.blocks, heap.heapSize, j);
      address := heap.AllocateBlock(link, selected, size, j);
    }

    /** Put live block `j` into the list at its address. */
    method Insert(block: int, ghost j: nat) returns (prev: int, current: int)
      requires heap.Rep() && j < |heap.blocks| && heap.blocks[j].off == block && !heap.blocks[j].free
      modifies heap`first, heap`next, heap`blocks
      ensures heap.Rep() && heap.blocks == old(heap.blocks)[j := old(heap.blocks)[j].(free := true)]
      ensures prev == LinkBefore(heap.blocks, j) && current == HeadOff(FreeList(heap.blocks[j + 1..]))
    {
      ghost var bs := heap.blocks;
      prev, current := heap.WalkTo(block, j);
      FreeListAt(bs, j);
      heap.LinkIn(prev, block, current, j);
      assert heap.blocks[..j] == bs[..j] && heap.blocks[j + 1..] == bs[j + 1..];
    }

    /** Join block `j` to the list entry before it, if they touch. */
    method JoinPrev(prev: int, block: int, ghost j: nat) returns (joined: int, ghost k: nat)
      requires heap.Rep() && j < |heap.blocks| && heap.blocks[j].free && heap.blocks[j].off == block
      requires prev == LinkBefore(heap.blocks, j)
      modifies heap`size, heap`next, heap`blocks
      ensures heap.Rep()
      ensures k == MergeFrom(old(heap.blocks), j)
      ensures heap.blocks == if k < j then Merge(old(heap.blocks), k, j) else old(heap.blocks)
      ensures joined == heap.blocks[k].off && heap.blocks[k].free
    {
      joined, k := block, j;
      PrevTouches(heap.blocks, heap.heapSize, j);
      if prev != NULL {
        ghost var p := LinkIsFree(heap.blocks, 0, heap.heapSize, j);
        heap.HeaderOf(p);
        if prev + heap.size[prev] == block {
          k := j - 1;
          FreeListAt(heap.blocks, j);
          heap.MergeBlocks(prev, block, k);
          joined := prev;
        }
      }
    }

    /** Join block `k` to the list entry after it, if they touch. */
    method JoinNext(block: int, current: int, ghost k: nat)
      requires heap.Rep() && k < |heap.blocks| && heap.blocks[k].free && heap.blocks[k].off == block
      requires current == HeadOff(FreeList(heap.blocks[k + 1..]))
      modifies heap`size, heap`next, heap`blocks
      ensures heap.Rep()
      ensures heap.blocks == if MergeTo(old(heap.blocks), k) > k then Merge(old(heap.blocks), k, k + 1) else old(heap.blocks)
    {
      NextIsFree(heap.blocks, heap.heapSize, k);
      heap.HeaderOf(k);
      if current != NULL && block + heap.size[block] == current {
        heap.MergeBlocks(block, current, k);
      }
    }

    /** Both joins after the insertion of block `j` of `bs`. */
    method Join(prev: int, block: int, current: int, ghost bs: seq<Block>, ghost j: nat)
      requires heap.Rep() && j < |bs| && heap.blocks == bs[j := bs[j].(free := true)]
      requires bs[j].off == block && prev == LinkBefore(heap.blocks, j)
      requires current == HeadOff(FreeList(bs[j + 1..]))
      modifies heap`size, heap`next, heap`blocks
      ensures heap.Rep() && heap.blocks == Free(bs, j)
    {
      ghost var bs1 := heap.blocks;
      var joined;
      ghost var k;
      joined, k := JoinPrev(prev, block, j);
      FreeInSteps(bs, j, bs1, k, heap.blocks);
      JoinNext(joined, current, k);
    }

    /** `my_free` of the live block `j`, or of NULL. */
    method MyFree(address: int, ghost j: nat)
      requires heap.Valid()
      requires address != NULL ==>
        j < |heap.blocks| && !heap.blocks[j].free && heap.blocks[j].off + HEADER_SIZE == address
      modifies heap`first, heap`size, heap`next, heap`blocks
      ensures heap.Valid()
      ensures heap.blocks == if address == NULL then old(heap.blocks) else Free(old(heap.blocks), j)
    {
      if address == NULL { return; }
      ghost var bs := heap.blocks;
      var block := address - HEADER_SIZE;
      var prev, current := Insert(block, j);
      assert heap.blocks[j + 1..] == bs[j + 1..];
      Join(prev, block, current, bs, j);
      FreeKeeps(bs, heap.heapSize, j);
    }
  }
}
