/** The best-fit allocator that marks live blocks with a magic `next`, keeps
    account of the memory it got from the system, and can dump the heap. */
module MagicAllocator {
  import opened HeapBlocks
  import opened FreeListHeap
  import opened FitChoice
  import opened HeapTheorems
  import opened SystemMemory

  /** ALLOCATED_BLOCK_MAGIC: no block starts there. */
  const MAGIC := -2

  /** What `my_malloc` does to the heap and answers; `answered` says whether
      `allocHeap`, if asked, answers other than NULL. */
  ghost predicate MallocPost(n: nat, answered: bool, bs: seq<Block>, heapSize: int,
                             bs': seq<Block>, heapSize': int, address: int, j: nat)
  {
    var need := Needed(n);
    if !NoFit(bs, need) then
      Chosen(BestFit, bs, need, j) && address == bs[j].off + HEADER_SIZE
      && bs' == Alloc(bs, j, need) && heapSize' == heapSize
    else if need > HEAP_SIZE - HEADER_SIZE || !answered then
      address == NULL && bs' == bs && heapSize' == heapSize
    else
      address == heapSize + HEADER_SIZE
      && bs' == Alloc(Grow(bs, heapSize), |bs|, need) && heapSize' == heapSize + HEAP_SIZE
  }

  ghost predicate Asks(n: nat, bs: seq<Block>) {
    NoFit(bs, Needed(n)) && Needed(n) <= HEAP_SIZE - HEADER_SIZE
  }

  /** What `my_free` does.  It looks at the first list entry unchecked: with an
      empty list it fails (`!ok`) and changes nothing. */
  ghost predicate FreePost(address: int, bs: seq<Block>, j: nat, bs': seq<Block>, ok: bool) {
    if address == NULL then ok && bs' == bs
    else if FreeList(bs) == [] then !ok && bs' == bs
    else ok && j < |bs| && bs' == Free(bs, j)
  }

  /** The search, which also leaves the link at the end of the list. */
  method SearchBest(need: nat, first: int, size: map<int, int>, next: map<int, int>, ghost f: seq<Block>)
    returns (selected: int, link: int, tail: int, ghost best: nat)
    requires Listed(f, first, size, next)
    ensures selected == NULL ==> NonePicked(f, |f|, need)
    ensures selected != NULL ==> Picked(BestFit, f, |f|, need, best)
    ensures selected != NULL ==> selected == Entry(f, best) && link == if best == 0 then NULL else Entry(f, best - 1)
    ensures tail == if f == [] then NULL else Entry(f, |f| - 1)
  {
    ghost var c: nat := 0;
    selected, link, tail, best := NULL, NULL, NULL, 0;
    var bestSize, block := 0, first;
    while block != NULL
      invariant c <= |f| && block == Entry(f, c)
      invariant tail == if c == 0 then NULL else Entry(f, c - 1)
      invariant selected == NULL ==> NonePicked(f, c, need)
      invariant selected != NULL ==> Picked(BestFit, f, c, need, best) && bestSize == f[best].size
      invariant selected != NULL ==> selected == Entry(f, best) && link == if best == 0 then NULL else Entry(f, best - 1)
      decreases |f| - c
    {
      PickStep(BestFit, f, c, need, best);
      if size[block] >= need {
        if selected == NULL || size[block] < bestSize {
          bestSize, selected, link, best := size[block], block, tail, c;
          PickStep(BestFit, f, c, need, best);
        }
      }
      tail := block;
      block := next[block];
      c := c + 1;
    }
  }

  method WalkList(first: int, size: map<int, int>, next: map<int, int>, ghost f: seq<Block>) returns (frees: seq<Block>)
    requires Listed(f, first, size, next) && forall c :: 0 <= c < |f| ==> f[c].free
    ensures frees == f
  {
    frees := [];
    var current := first;
    ghost var i := 0;
    while current != NULL
      invariant i <= |f| && frees == f[..i] && current == Entry(f, i)
      decreases |f| - i
    {
      frees := frees + [Block(current, size[current], true)];
      current := next[current];
      i := i + 1;
    }
  }

  lemma TakenPost(n: nat, answered: bool, bs: seq<Block>, heapSize: int, j: nat)
    requires Sized(n) && Chosen(BestFit, bs, Needed(n), j)
    ensures MallocPost(n, answered, bs, heapSize, Alloc(bs, j, Needed(n)), heapSize, bs[j].off + HEADER_SIZE, j)
    ensures 16 <= Needed(n) <= bs[j].size && Needed(n) % 16 == 0 && bs[j].free
  {
    NeededHolds(n);
    SomeFit(BestFit, bs, Needed(n), j);
  }

  lemma GrownPost(n: nat, bs: seq<Block>, heapSize: int)
    requires Sized(n) && Asks(n, bs)
    ensures var gs := Grow(bs, heapSize);
      MallocPost(n, true, bs, heapSize, Alloc(gs, |bs|, Needed(n)), heapSize + HEAP_SIZE, heapSize + HEADER_SIZE, |bs|)
      && gs[|bs|] == Block(heapSize, HEAP_SIZE, true) && 16 <= Needed(n) <= HEAP_SIZE && Needed(n) % 16 == 0
  {
    NeededHolds(n);
  }

  class Allocator {
    const heap: Heap
    const system: System
    /** Requests for memory that `sbrk` refused. */
    ghost var refused: nat

    ghost predicate Valid()
      reads this, heap, system
    {
      heap.Valid() && heap.tag == MAGIC && BooksFit()
    }

    /** `heapSize` and `_heapSize` agree; the memory obtained falls short of them
        by one heap for each refusal.  Ten heaps from the start always suffice. */
    ghost predicate BooksFit()
      reads this, heap, system
    {
      match system.variant
      case Setting => system.account == Account(heap.heapSize, heap.heapSize - refused * HEAP_SIZE)
      case Fixed => system.account == Start(Fixed) && heap.heapSize <= 10 * HEAP_SIZE && refused == 0
      case Adding => false
    }

    constructor (variant: Variant)
      requires variant != Adding
      ensures Valid() && fresh(heap) && fresh(system) && system.variant == variant
      ensures heap.blocks == INITIAL && heap.heapSize == HEAP_SIZE && refused == 0
    {
      heap := new Heap(MAGIC);
      system := new System(variant);
      refused := 0;
    }

    /** The blocks lie in the memory obtained exactly if no `sbrk` was refused. */
    lemma BackedIffNoneRefused()
      requires Valid()
      ensures (forall b :: b in heap.blocks ==> b.End() <= system.account.end) <==> refused == 0
    {
      var bs := heap.blocks;
      assert bs[|bs| - 1] in bs;
      forall i | 0 <= i < |bs| ensures bs[i].End() <= heap.heapSize { InBounds(bs, 0, heap.heapSize, i); }
    }

    /** The search over the heap, and the end of the list. */
    method FindBest(need: nat) returns (selected: int, link: int, tail: int, ghost j: nat)
      requires heap.Valid()
      ensures selected == NULL ==> NoFit(heap.blocks, need)
      ensures selected != NULL ==>
        Chosen(BestFit, heap.blocks, need, j) && heap.blocks[j].off == selected && link == LinkBefore(heap.blocks, j)
      ensures tail == LinkBefore(heap.blocks, |heap.blocks|)
    {
      j := 0;
      ghost var bs := heap.blocks;
      heap.IsListed();
      LinkAtEnd(bs);
      ghost var best;
      selected, link, tail, best := SearchBest(need, heap.first, heap.size, heap.next, FreeList(bs));
      if selected == NULL {
        NonePickedIsNoFit(bs, need);
      } else {
        j := PickedIsChosen(BestFit, bs, need, best);
      }
    }

    /** More memory, and a free block in it at the end of the list. */
    method GrowHeap(tail: int, works: bool) returns (ok: bool)
      requires Valid() && tail == LinkBefore(heap.blocks, |heap.blocks|)
      modifies this`refused, system, heap
      ensures Valid() && ok == Answered(old(system.account), old(heap.heapSize) + HEAP_SIZE, system.variant)
      ensures heap.blocks == if ok then Grow(old(heap.blocks), old(heap.heapSize)) else old(heap.blocks)
      ensures heap.heapSize == old(heap.heapSize) + if ok then HEAP_SIZE else 0
      ensures ok ==> LinkBefore(heap.blocks, |old(heap.blocks)|) == tail
      ensures refused == old(refused) + if system.variant == Setting && !works then 1 else 0
    {
      ok := system.AllocHeap(heap.heapSize + HEAP_SIZE, works);
      if !ok { return; }
      refused := refused + if system.variant == Setting && !works then 1 else 0;
      heap.ExtendAt(tail);
      LinkBeforeGrown(old(heap.blocks), old(heap.heapSize));
    }

    method MyMalloc(n: nat, works: bool) returns (address: int, ghost j: nat)
      requires Valid() && Sized(n)
      modifies this`refused, system, heap
      ensures Valid()
      ensures MallocPost(n, Answered(old(system.account), old(heap.heapSize) + HEAP_SIZE, system.variant),
                         old(heap.blocks), old(heap.heapSize), heap.blocks, heap.heapSize, address, j)
      ensures refused == old(refused) + if Asks(n, old(heap.blocks)) && system.variant == Setting && !works then 1 else 0
    {
      var size := Needed(n);
      ghost var bs, heapSize := heap.blocks, heap.heapSize;
      ghost var answered := Answered(system.account, heapSize + HEAP_SIZE, system.variant);
      var selected, link, tail;
      selected, link, tail, j := FindBest(size);
      if selected == NULL {
        j := |bs|;
        if size > HEAP_SIZE - HEADER_SIZE { return NULL, j; }
        selected, link := heap.heapSize, tail;
        var ok := GrowHeap(tail, works);
        if !ok { return NULL, j; }
        GrownPost(n, bs, heapSize);
      } else {
        TakenPost(n, answered, bs, heapSize, j);
      }
      address := heap.AllocateBlock(link, selected, size, j);
    }

    /** The last free block before live block `j`. */
    method FreeBlockBefore(block: int, ghost j: nat) returns (freeblock: int)
      requires heap.Rep() && j < |heap.blocks| && heap.blocks[j].off == block
      requires FreeList(heap.blocks[..j]) != []
      ensures freeblock == LinkBefore(heap.blocks, j)
    {
      ghost var f, a := FreeList(heap.blocks), FreeList(heap.blocks[..j]);
      heap.IsListed();
      BeforeAndAfter(heap.blocks, heap.heapSize, j);
      freeblock := heap.first;
      ghost var c := 0;
      while heap.next[freeblock] < block && heap.next[freeblock] != NULL
        invariant c < |a| && freeblock == Entry(f, c)
        decreases |f| - c
      {
        assert heap.next[freeblock] == Entry(f, c + 1);
        freeblock := heap.next[freeblock];
        c := c + 1;
      }
      assert heap.next[freeblock] == Entry(f, c + 1);
    }

    /** Insert live block `j` of `bs` and merge it with the block after it. */
    method InsertForwards(prev: int, block: int, after: int, ghost bs: seq<Block>, ghost j: nat)
      requires heap.Rep() && heap.blocks == bs && j < |bs| && bs[j].off == block && !bs[j].free
      requires prev == LinkBefore(bs, j) && after == HeadOff(FreeList(bs[j..]))
      modifies heap`first, heap`size, heap`next, heap`blocks
      ensures heap.Rep()
      ensures var bs1 := bs[j := bs[j].(free := true)];
        heap.blocks == if MergeTo(bs1, j) > j then Merge(bs1, j, j + 1) else bs1
    {
      heap.LinkIn(prev, block, after, j);
      FreeListAt(bs, j);
      assert heap.blocks[j + 1..] == bs[j + 1..];
      heap.MergeBlocks(block, after, j);
    }

    /** Merge the freed block `j` of `bs` into the free block before it. */
    method MergeBackwards(freeblock: int, block: int, ghost bs: seq<Block>, ghost j: nat)
      requires heap.Rep() && Tiles(bs, 0, heap.heapSize) && j < |bs| && bs[j].off == block
      requires var bs1 := bs[j := bs[j].(free := true)];
        heap.blocks == if MergeTo(bs1, j) > j then Merge(bs1, j, j + 1) else bs1
      requires freeblock == LinkBefore(bs, j) != NULL
      modifies heap`size, heap`next, heap`blocks
      ensures heap.Rep() && heap.blocks == Free(bs, j)
    {
      FreeForwardsFirst(bs, j, bs[j := bs[j].(free := true)], heap.blocks);
      ghost var p := MergePlan(bs, heap.heapSize, j, heap.blocks);
      heap.MergeBlocks(freeblock, block, p);
    }

    /** The free list starts after block `j`: insert at its head. */
    method FreeAtHead(block: int, ghost j: nat)
      requires heap.Rep() && j < |heap.blocks| && !heap.blocks[j].free && heap.blocks[j].off == block
      requires FreeList(heap.blocks[..j]) == []
      modifies heap`first, heap`size, heap`next, heap`blocks
      ensures heap.Rep() && heap.blocks == Free(old(heap.blocks), j)
    {
      ghost var bs := heap.blocks;
      FreeListAt(bs, j);
      PrevTouches(bs, heap.heapSize, j);
      InsertForwards(NULL, block, heap.first, bs, j);
      FreeForwardsFirst(bs, j, bs[j := bs[j].(free := true)], heap.blocks);
    }

    method FreeBehind(freeblock: int, block: int, ghost j: nat)
      requires heap.Rep() && j < |heap.blocks| && !heap.blocks[j].free && heap.blocks[j].off == block
      requires FreeList(heap.blocks[..j]) != [] && freeblock == LinkBefore(heap.blocks, j)
      modifies heap`first, heap`size, heap`next, heap`blocks
      ensures heap.Rep() && heap.blocks == Free(old(heap.blocks), j)
    {
      ghost var bs := heap.blocks;
      AfterLink(bs, heap.heapSize, heap.first, heap.next, j);
      InsertForwards(freeblock, block, heap.next[freeblock], bs, j);
      MergeBackwards(freeblock, block, bs, j);
    }

    /** `my_free` of the live block `j`, or of NULL; `ok` unless the code reads
        through a NULL first entry. */
    method MyFree(address: int, ghost j: nat) returns (ok: bool)
      requires Valid()
      requires address != NULL ==>
        j < |heap.blocks| && !heap.blocks[j].free && heap.blocks[j].off + HEADER_SIZE == address
      modifies heap`first, heap`size, heap`next, heap`blocks
      ensures Valid()
      ensures FreePost(address, old(heap.blocks), j, heap.blocks, ok)
    {
      if address == NULL { return true; }
      ghost var bs := heap.blocks;
      var block := address - HEADER_SIZE;
      FirstOfList(bs, heap.heapSize);
      if heap.first == NULL { return false; }
      HeadSide(bs, heap.heapSize, j);
      if block < heap.first {
        FreeAtHead(block, j);
      } else {
        var freeblock := FreeBlockBefore(block, j);
        FreeBehind(freeblock, block, j);
      }
      FreeKeeps(bs, heap.heapSize, j);
      ok := true;
    }

    /** `_getNextBlockBySize`: the block after `current`, NULL at the end of the heap. */
    method GetNextBlockBySize(current: int) returns (following: int)
      requires current in heap.size && current + heap.size[current] <= heap.heapSize
      ensures following == if current + heap.size[current] == heap.heapSize then NULL else current + heap.size[current]
    {
      following := current + heap.size[current];
      if following == heap.heapSize { following := NULL; }
    }

    /** The first half of the dump: all blocks, by size. */
    method WalkBySize() returns (all: seq<Block>)
      requires Valid()
      ensures all == heap.blocks
    {
      all := [];
      ghost var bs := heap.blocks;
      heap.NotMagic();
      InBounds(bs, 0, heap.heapSize, 0);
      var current := 0;
      ghost var i := 0;
      while current != NULL
        invariant i <= |bs| && all == bs[..i]
        invariant current == if i < |bs| then bs[i].off else NULL
        decreases |bs| - i
      {
        InBounds(bs, 0, heap.heapSize, i);
        heap.HeaderOf(i);
        all := all + [Block(current, heap.size[current], heap.next[current] != MAGIC)];
        if i + 1 < |bs| { InBounds(bs, 0, heap.heapSize, i + 1); }
        current := GetNextBlockBySize(current);
        i := i + 1;
      }
      if i < |bs| { InBounds(bs, 0, heap.heapSize, i); }
    }

    /** The second half: free blocks, along the list. */
    method WalkFreeList() returns (frees: seq<Block>)
      requires heap.Rep()
      ensures frees == FreeList(heap.blocks)
    {
      heap.IsListed();
      FreeListAscends(heap.blocks, 0, heap.heapSize);
      frees := WalkList(heap.first, heap.size, heap.next, FreeList(heap.blocks));
    }

    /** `dumpAllocator`.  The walks agree: the blocks the first finds not in use
        are the list entries, in order. */
    method DumpAllocator() returns (all: seq<Block>, frees: seq<Block>)
      requires Valid()
      ensures all == heap.blocks
      ensures frees == FreeList(all)
    {
      all := WalkBySize();
      frees := WalkFreeList();
    }
  }

  /** Does the list start before or after live block `j`? */
  lemma HeadSide(bs: seq<Block>, hi: int, j: nat)
    requires Tiles(bs, 0, hi) && j < |bs| && !bs[j].free && FreeList(bs) != []
    ensures FreeList(bs[..j]) == [] <==> bs[j].off < FreeList(bs)[0].off
  {
    FreeListAt(bs, j);
    if FreeList(bs[..j]) == [] {
      var after := FreeList(bs[j + 1..]);
      assert FreeList(bs) == after;
      if j + 1 < |bs| { FreeAfter(bs, hi, j + 1, 0); }
    } else {
      FreeBefore(bs, hi, j, 0);
      assert FreeList(bs)[..|FreeList(bs[..j])|][0] == FreeList(bs)[0];
    }
  }

  /** Where to merge backwards. */
  lemma MergePlan(bs: seq<Block>, hi: int, j: nat, bs2: seq<Block>) returns (p: nat)
    requires Tiles(bs, 0, hi) && j < |bs| && LinkBefore(bs, j) != NULL
    requires j < |bs2| && bs2[..j] == bs[..j] && bs2[j].off == bs[j].off && bs2[j].free
    ensures p < j && bs2[p].free && bs2[p].off == LinkBefore(bs, j)
    ensures HeadOff(FreeList(bs2[p + 1..])) == bs[j].off
    ensures bs2[p + 1].free <==> p + 1 == j
    ensures p + 1 == j <==> MergeFrom(bs, j) < j
  {
    p := LastFree(bs, j);
    assert bs2[p] == bs2[..j][p] == bs[p];
    assert p + 1 < j ==> bs2[p + 1] == bs2[..j][p + 1] == bs[p + 1];
    assert bs2[p + 1..] == bs2[..j][p + 1..] + bs2[j..];
    assert bs2[..j][p + 1..] == bs[p + 1..j];
    FreeListConcat(bs[p + 1..j], bs2[j..]);
    FreeListAt(bs2, j);
  }

  lemma LinkAtEnd(bs: seq<Block>)
    ensures LinkBefore(bs, |bs|) == if FreeList(bs) == [] then NULL else FreeList(bs)[|FreeList(bs)| - 1].off
  {
    assert bs[..|bs|] == bs;
  }

  lemma LinkBeforeGrown(bs: seq<Block>, heapSize: int)
    ensures LinkBefore(Grow(bs, heapSize), |bs|) == LinkBefore(bs, |bs|)
  {
    assert Grow(bs, heapSize)[..|bs|] == bs[..|bs|];
  }

  /** Free blocks before block `j` come first in the list and start before it,
      the others start at or after it. */
  lemma BeforeAndAfter(bs: seq<Block>, hi: int, j: nat)
    requires Tiles(bs, 0, hi) && j < |bs|
    ensures var a, f := FreeList(bs[..j]), FreeList(bs);
      |a| <= |f| && f[..|a|] == a && f[|a|..] == FreeList(bs[j..])
      && (forall c :: 0 <= c < |a| ==> f[c] == a[c] && f[c].off < bs[j].off)
      && (forall c :: |a| <= c < |f| ==> bs[j].off <= f[c].off)
  {
    var a, b, f := FreeList(bs[..j]), FreeList(bs[j..]), FreeList(bs);
    FreeListAt(bs, j);
    forall c | 0 <= c < |a| ensures a[c].off < bs[j].off { FreeBefore(bs, hi, j, c); }
    forall c | 0 <= c < |b| ensures bs[j].off <= b[c].off { FreeAfter(bs, hi, j, c); }
    Halves(f, a, b);
  }

  /** What follows the last free block before `j` in the list. */
  lemma AfterLink(bs: seq<Block>, hi: int, first: int, next: map<int, int>, j: nat)
    requires Tiles(bs, 0, hi) && j < |bs| && Linked(first, next, FreeList(bs)) && FreeList(bs[..j]) != []
    ensures LinkBefore(bs, j) != NULL && LinkBefore(bs, j) in next
    ensures next[LinkBefore(bs, j)] == HeadOff(FreeList(bs[j..]))
  {
    var a, f := FreeList(bs[..j]), FreeList(bs);
    FreeListAt(bs, j);
    NeverNull(bs, hi, j);
    assert f[|a| - 1] == a[|a| - 1];
    assert next[f[|a| - 1].off] == HeadOff(f[|a| - 1 + 1..]);
  }

  /** The last free block of `b`. */
  lemma LastOf(b: seq<Block>) returns (p: nat)
    requires FreeList(b) != []
    ensures p < |b| && b[p].free && b[p] == FreeList(b)[|FreeList(b)| - 1] && FreeList(b[p + 1..]) == []
  {
    p := Position(b, |FreeList(b)| - 1);
    FreeListAt(b, p);
  }

  lemma {:induction false} NoneFree(s: seq<Block>)
    requires FreeList(s) == []
    ensures forall i :: 0 <= i < |s| ==> !s[i].free
  {
    if s != [] {
      NoneFree(s[1..]);
      forall i | 0 <= i < |s| ensures !s[i].free { if i > 0 { assert s[i] == s[1..][i - 1]; } }
    }
  }

  /** The last free block before `j`, with only live blocks in between. */
  lemma LastFree(bs: seq<Block>, j: nat) returns (p: nat)
    requires j <= |bs| && LinkBefore(bs, j) != NULL
    ensures p < j && bs[p].free && bs[p].off == LinkBefore(bs, j)
    ensures FreeList(bs[p + 1..j]) == [] && (p + 1 < j ==> !bs[p + 1].free)
    ensures p + 1 < j ==> !bs[j - 1].free
  {
    p := LastOf(bs[..j]);
    var between := bs[p + 1..j];
    assert bs[..j][p + 1..] == between;
    NoneFree(between);
    if p + 1 < j { assert between[0] == bs[p + 1] && between[j - 2 - p] == bs[j - 1]; }
  }

  /** What a caller may rely on; here a block never exceeds what was asked for, and
      falls short of it exactly if the request wrapped around. */
  lemma MallocIsSafe(n: nat, answered: bool, bs: seq<Block>, heapSize: int,
                     bs': seq<Block>, heapSize': int, address: int, j: nat)
    requires WellFormed(bs, heapSize) && Sized(n)
    requires MallocPost(n, answered, bs, heapSize, bs', heapSize', address, j)
    ensures WellFormed(bs', heapSize')
    ensures if address == NULL then bs' == bs && heapSize' == heapSize
            else Served(Needed(n) - HEADER_SIZE, address, bs, bs', heapSize', Block(address - HEADER_SIZE, Needed(n), false))
    ensures n + HEADER_SIZE <= Needed(n) <==> n <= TWO64 - 32
    ensures address == NULL <==> NoFit(bs, Needed(n)) && (Needed(n) > HEAP_SIZE - HEADER_SIZE || !answered)
  {
    var need := Needed(n);
    NeededHolds(n);
    NeededIsEnough(n);
    if !NoFit(bs, need) {
      AllocServes(bs, heapSize, j, need, need - HEADER_SIZE);
    } else if need <= HEAP_SIZE - HEADER_SIZE && answered {
      GrownServes(bs, heapSize, need, need - HEADER_SIZE);
    }
  }

  /** Which block a call takes from the heap as it is: the smallest that is large
      enough, the lowest of several. */
  lemma MallocTakes(n: nat, answered: bool, bs: seq<Block>, heapSize: int,
                    bs': seq<Block>, heapSize': int, address: int, j: nat) returns (b: Block)
    requires WellFormed(bs, heapSize) && !NoFit(bs, Needed(n))
    requires MallocPost(n, answered, bs, heapSize, bs', heapSize', address, j)
    ensures b in bs && b.free && b.size >= Needed(n) && address == b.off + HEADER_SIZE
    ensures forall c :: c in bs && c.free && c.size >= Needed(n) ==> b.size < c.size || (b.size == c.size && b.off <= c.off)
  {
    b := bs[j];
    ChosenIsExtreme(BestFit, bs, heapSize, Needed(n), j);
  }

  /** The list head is NULL for the empty list only. */
  lemma FirstOfList(bs: seq<Block>, hi: int)
    requires Tiles(bs, 0, hi)
    ensures HeadOff(FreeList(bs)) == NULL <==> FreeList(bs) == []
  {
    if FreeList(bs) != [] {
      var p := Position(bs, 0);
      InBounds(bs, 0, hi, p);
    }
  }

  /** A free of a live block fails exactly if the live blocks fill the heap, which
      a caller can tell from what it was given; the block is then still live. */
  lemma FreeFailsIffFull(bs: seq<Block>, heapSize: int, address: int, j: nat, bs': seq<Block>, ok: bool)
    requires WellFormed(bs, heapSize) && FreePost(address, bs, j, bs', ok)
    requires address != NULL ==> j < |bs| && !bs[j].free && bs[j].off + HEADER_SIZE == address
    ensures ok <==> address == NULL || Total(bs, false) < heapSize
    ensures Live(bs') == if ok && address != NULL then Live(bs) - {bs[j]} else Live(bs)
    ensures WellFormed(bs', heapSize)
  {
    NothingFree(bs, 0, heapSize);
    if ok && address != NULL {
      FreeKeeps(bs, heapSize, j);
      FreeRemovesLive(bs, 0, heapSize, j);
    }
  }

  /** One request from the start can take the whole heap, and its free then fails. */
  lemma OnlyBlockCannotBeFreed(answered: bool, bs': seq<Block>, heapSize': int, address: int, j: nat, bs'': seq<Block>, ok: bool)
    requires MallocPost(HEAP_SIZE - HEADER_SIZE, answered, INITIAL, HEAP_SIZE, bs', heapSize', address, j)
    requires FreePost(address, bs', j, bs'', ok)
    ensures address == HEADER_SIZE && j == 0 && bs' == [Block(0, HEAP_SIZE, false)] && !ok && bs'' == bs'
  {
    var need := Needed(HEAP_SIZE - HEADER_SIZE);
    NeededIsEnough(HEAP_SIZE - HEADER_SIZE);
    assert need == HEAP_SIZE;
    assert Fits(INITIAL[0], need);
    assert bs' == [Block(0, HEAP_SIZE, false)];
    assert FreeList(bs'[1..]) == [];
  }

  /** The block handed out after a refused `sbrk` lies outside the memory obtained. */
  lemma RefusedBlockIsOutside(n: nat, a: Account, bs: seq<Block>, heapSize: int, bs': seq<Block>, heapSize': int, address: int, j: nat)
    requires Sized(n) && Asks(n, bs) && a.end <= a.booked == heapSize
    requires MallocPost(n, Answered(a, heapSize + HEAP_SIZE, Setting), bs, heapSize, bs', heapSize', address, j)
    ensures var a' := Request(a, heapSize + HEAP_SIZE, Setting, false);
      address == heapSize + HEADER_SIZE && |bs'| > |bs| && bs'[|bs|].off >= a'.end && !bs'[|bs|].free && a'.booked == heapSize'
  {
  }

  /** Two requests from the start, the first of all that a heap can hold, the
      second with a refused `sbrk`: the second is answered, outside the memory. */
  lemma OneRefusalIsEnough() returns (bs1: seq<Block>, bs2: seq<Block>)
    ensures MallocPost(HEAP_SIZE - HEADER_SIZE, true, INITIAL, HEAP_SIZE, bs1, HEAP_SIZE, HEADER_SIZE, 0)
    ensures Asks(16, bs1) && MallocPost(16, true, bs1, HEAP_SIZE, bs2, 2 * HEAP_SIZE, HEAP_SIZE + HEADER_SIZE, 1)
    ensures var a := Request(Start(Setting), 2 * HEAP_SIZE, Setting, false);
      a == Account(2 * HEAP_SIZE, HEAP_SIZE) && |bs2| == 3 && bs2[1] == Block(HEAP_SIZE, 32, false) && bs2[1].off >= a.end
  {
    NeededIsEnough(HEAP_SIZE - HEADER_SIZE);
    NeededIsEnough(16);
    assert Fits(INITIAL[0], HEAP_SIZE);
    bs1 := Alloc(INITIAL, 0, HEAP_SIZE);
    bs2 := Alloc(Grow(bs1, HEAP_SIZE), 1, 32);
  }
}
