/** Live blocks, and the laws of freeing. */
module HeapTheorems {
  import opened HeapBlocks
  import opened Coalescing

  /** The allocated blocks. */
  ghost function Live(bs: seq<Block>): set<Block> {
    set b | b in bs && !b.free
  }

  lemma LiveConcat(a: seq<Block>, b: seq<Block>)
    ensures Live(a + b) == Live(a) + Live(b)
  {
  }

  lemma LiveCut(bs: seq<Block>, i: nat, j: nat)
    requires i <= j <= |bs|
    ensures Live(bs) == Live(bs[..i]) + Live(bs[i..j]) + Live(bs[j..])
  {
    assert bs == bs[..i] + bs[i..j] + bs[j..];
    LiveConcat(bs[..i] + bs[i..j], bs[j..]);
    LiveConcat(bs[..i], bs[i..j]);
  }

  /** Allocation adds the new block to the live ones and touches no other. */
  lemma AllocAddsLive(bs: seq<Block>, lo: int, hi: int, j: nat, n: int)
    requires Tiles(bs, lo, hi) && j < |bs| && bs[j].free && 16 <= n <= bs[j].size
    ensures var b := Block(bs[j].off, n, false);
      b !in Live(bs) && Live(Alloc(bs, j, n)) == Live(bs) + {b}
    ensures forall c :: c in Live(bs) ==> c.End() <= bs[j].off || bs[j].End() <= c.off
  {
    AllocLive(bs, j, n);
    forall c | c in Live(bs) ensures c.End() <= bs[j].off || bs[j].End() <= c.off {
      var i :| 0 <= i < |bs| && bs[i] == c;
      if i < j { Disjoint(bs, lo, hi, i, j); } else { Disjoint(bs, lo, hi, j, i); }
    }
  }

  lemma AllocLive(bs: seq<Block>, j: nat, n: int)
    requires j < |bs| && bs[j].free
    ensures Live(Alloc(bs, j, n)) == Live(bs) + {Block(bs[j].off, n, false)}
  {
    LiveCut(bs, j, j + 1);
    assert bs[j..j + 1] == [bs[j]];
    LiveConcat(bs[..j] + Split(bs[j], n), bs[j + 1..]);
    LiveConcat(bs[..j], Split(bs[j], n));
    assert Live(Split(bs[j], n)) == {Split(bs[j], n)[0]};
  }

  ghost predicate Separate(b: Block, c: Block) {
    b.End() <= c.off || c.End() <= b.off
  }

  /** `b` is a fresh live block for a request of `n` bytes. */
  ghost predicate Served(n: nat, address: int, bs: seq<Block>, bs': seq<Block>, heapSize': int, b: Block) {
    b.off + HEADER_SIZE == address && address % 16 == 0 && n + HEADER_SIZE <= b.size
    && 0 <= b.off && b.End() <= heapSize'
    && b !in Live(bs) && Live(bs') == Live(bs) + {b}
    && forall c :: c in Live(bs) ==> Separate(b, c)
  }

  lemma AllocServes(bs: seq<Block>, heapSize: int, j: nat, size: int, n: nat)
    requires WellFormed(bs, heapSize) && j < |bs| && bs[j].free
    requires n + HEADER_SIZE <= size <= bs[j].size && size % 16 == 0
    ensures WellFormed(Alloc(bs, j, size), heapSize)
    ensures Served(n, bs[j].off + HEADER_SIZE, bs, Alloc(bs, j, size), heapSize, Block(bs[j].off, size, false))
  {
    AllocKeeps(bs, heapSize, j, size);
    PlaceServes(bs, heapSize, j, size, n);
  }

  lemma PlaceServes(bs: seq<Block>, heapSize: int, j: nat, size: int, n: nat)
    requires Tiles(bs, 0, heapSize) && j < |bs| && bs[j].free && n + HEADER_SIZE <= size <= bs[j].size
    ensures Served(n, bs[j].off + HEADER_SIZE, bs, Alloc(bs, j, size), heapSize, Block(bs[j].off, size, false))
  {
    var b := Block(bs[j].off, size, false);
    AllocAddsLive(bs, 0, heapSize, j, size);
    InBounds(bs, 0, heapSize, j);
    Aligned(bs, heapSize, j);
    forall c | c in Live(bs) ensures Separate(b, c) { assert c.End() <= bs[j].off || bs[j].End() <= c.off; }
  }

  lemma GrowKeepsLive(bs: seq<Block>, heapSize: int)
    requires WellFormed(bs, heapSize)
    ensures WellFormed(Grow(bs, heapSize), heapSize + HEAP_SIZE) && Live(Grow(bs, heapSize)) == Live(bs)
  {
    GrowKeeps(bs, heapSize);
    LiveConcat(bs, [Block(heapSize, HEAP_SIZE, true)]);
    assert Live([Block(heapSize, HEAP_SIZE, true)]) == {};
  }

  /** A block from the grown heap is as good as one from the heap. */
  lemma GrownServes(bs: seq<Block>, heapSize: int, size: int, n: nat)
    requires WellFormed(bs, heapSize) && n + HEADER_SIZE <= size <= HEAP_SIZE && size % 16 == 0
    ensures var bs' := Alloc(Grow(bs, heapSize), |bs|, size);
      WellFormed(bs', heapSize + HEAP_SIZE)
      && Served(n, heapSize + HEADER_SIZE, bs, bs', heapSize + HEAP_SIZE, Block(heapSize, size, false))
  {
    GrowKeepsLive(bs, heapSize);
    AllocServes(Grow(bs, heapSize), heapSize + HEAP_SIZE, |bs|, size, n);
  }

  lemma {:induction false} Aligned(bs: seq<Block>, hi: int, j: nat)
    requires Tiles(bs, 0, hi) && j < |bs|
    ensures bs[j].off % 16 == 0
    decreases j
  {
    if j > 0 {
      Aligned(bs, hi, j - 1);
      assert bs[j - 1].size % 16 == 0 && bs[j - 1].End() == bs[j].off;
    }
  }

  /** A block of positive size occurs once. */
  lemma OccursOnce(bs: seq<Block>, lo: int, hi: int, i: nat, k: nat, j: nat)
    requires Tiles(bs, lo, hi) && i <= j < k <= |bs|
    ensures bs[j] !in bs[..i] && bs[j] !in bs[k..]
  {
    forall p | 0 <= p < |bs| && p != j ensures bs[p] != bs[j] {
      if p < j { Disjoint(bs, lo, hi, p, j); } else { Disjoint(bs, lo, hi, j, p); }
    }
  }

  lemma OneLive(bs: seq<Block>, i: nat, k: nat, j: nat)
    requires i <= j < k <= |bs| && !bs[j].free
    requires forall p :: i <= p < k && p != j ==> bs[p].free
    ensures Live(bs[i..k]) == {bs[j]}
  {
    var seg := bs[i..k];
    assert seg[j - i] == bs[j];
    forall p | 0 <= p < |seg| && p != j - i ensures seg[p].free {
      assert seg[p] == bs[i + p];
    }
  }

  lemma LiveParts(bs: seq<Block>, j: nat)
    requires j < |bs| && !bs[j].free
    ensures var before, after := Live(bs[..MergeFrom(bs, j)]), Live(bs[MergeTo(bs, j) + 1..]);
      Live(bs) == before + {bs[j]} + after && Live(Free(bs, j)) == before + after
  {
    var from, to := MergeFrom(bs, j), MergeTo(bs, j);
    LiveCut(bs, from, to + 1);
    OneLive(bs, from, to + 1, j);
    LiveAround(bs[..from], Block(bs[from].off, bs[to].End() - bs[from].off, true), bs[to + 1..]);
  }

  /** Freeing removes exactly the freed block from the live ones. */
  lemma FreeRemovesLive(bs: seq<Block>, lo: int, hi: int, j: nat)
    requires Tiles(bs, lo, hi) && j < |bs| && !bs[j].free
    ensures Live(Free(bs, j)) == Live(bs) - {bs[j]}
  {
    var from, to := MergeFrom(bs, j), MergeTo(bs, j);
    LiveParts(bs, j);
    OccursOnce(bs, lo, hi, from, to + 1, j);
    assert bs[j] !in Live(bs[..from]) && bs[j] !in Live(bs[to + 1..]);
  }

  lemma LiveAround(a: seq<Block>, b: Block, c: seq<Block>)
    requires b.free
    ensures Live(a + [b] + c) == Live(a) + Live(c)
  {
    LiveConcat(a + [b], c);
    LiveConcat(a, [b]);
  }

  /** `my_malloc` then `my_free` restores the heap, unless the free joins a free
      block that was already touching: one before the block taken, or, if it was
      taken whole, one after it. */
  lemma FreeUndoesAlloc(bs: seq<Block>, lo: int, hi: int, j: nat, n: int)
    requires Tiles(bs, lo, hi) && j < |bs| && bs[j].free && 16 <= n <= bs[j].size
    ensures Free(Alloc(bs, j, n), j) == bs <==>
      !(j > 0 && bs[j - 1].free) && !(bs[j].size == n && j + 1 < |bs| && bs[j + 1].free)
  {
    var as', b := Alloc(bs, j, n), bs[j];
    var from, to := MergeFrom(as', j), MergeTo(as', j);
    assert as'[..j] == bs[..j] && as'[j] == Block(b.off, n, false);
    if b.size == n {
      assert as'[j + 1..] == bs[j + 1..];
      assert |Free(as', j)| == |bs| - (to - from);
    } else {
      assert as'[j + 1] == Block(b.off + n, b.size - n, true) && as'[j + 2..] == bs[j + 1..];
      assert |Free(as', j)| == |bs| - (j - from);
    }
    if from == j && (b.size != n || to == j) {
      assert Free(as', j) == bs[..j] + [b] + bs[j + 1..];
    }
  }

  /** With every block free and coalesced there is only one block. */
  lemma NothingLive(bs: seq<Block>, hi: int)
    requires WellFormed(bs, hi) && Coalesced(bs) && Live(bs) == {}
    ensures bs == [Block(0, hi, true)]
  {
    forall b | b in bs ensures b.free {
      assert b in Live(bs) <==> !b.free;
    }
    if |bs| > 1 { TwoFree(bs); }
  }

  lemma TwoFree(bs: seq<Block>)
    requires |bs| > 1 && bs[0].free && bs[1].free
    ensures !Coalesced(bs)
  {
    var i := 0;
    assert bs[i].free && bs[i + 1].free;
  }

  function IndexIn(bs: seq<Block>, b: Block): (j: nat)
    requires b in bs
    ensures j < |bs| && bs[j] == b
  {
    if bs[0] == b then 0 else 1 + IndexIn(bs[1..], b)
  }

  ghost function BlockSet(order: seq<Block>): set<Block> { set b | b in order }

  lemma BlockSetCons(order: seq<Block>)
    requires order != []
    ensures BlockSet(order) == {order[0]} + BlockSet(order[1..])
  {
    assert order == [order[0]] + order[1..];
  }

  /** Freeing the blocks `order`, one after the other. */
  ghost predicate Freeable(bs: seq<Block>, order: seq<Block>) {
    (forall i :: 0 <= i < |order| ==> order[i] in Live(bs)) &&
    (forall i, j :: 0 <= i < j < |order| ==> order[i] != order[j])
  }

  ghost function FreeAll(bs: seq<Block>, hi: int, order: seq<Block>): seq<Block>
    requires WellFormed(bs, hi) && Freeable(bs, order)
    decreases |order|
  {
    if order == [] then bs
    else
      var j := IndexIn(bs, order[0]);
      FreeKeeps(bs, hi, j);
      FreeRemovesLive(bs, 0, hi, j);
      assert forall i :: 0 <= i < |order[1..]| ==> order[1..][i] == order[i + 1];
      FreeAll(Free(bs, j), hi, order[1..])
  }

  ghost predicate InOrder(order: seq<Block>, x: int) {
    exists i :: 0 <= i < |order| && Holds(order[i], x)
  }

  /** The first free of an order, and what is left to do. */
  lemma FreeAllStep(bs: seq<Block>, hi: int, order: seq<Block>) returns (bs': seq<Block>)
    requires WellFormed(bs, hi) && Freeable(bs, order) && order != []
    ensures WellFormed(bs', hi) && Freeable(bs', order[1..])
    ensures FreeAll(bs, hi, order) == FreeAll(bs', hi, order[1..])
    ensures Coalesced(bs) ==> Coalesced(bs')
    ensures Live(bs') == Live(bs) - {order[0]}
    ensures forall x :: FreeByte(bs', x) <==> FreeByte(bs, x) || Holds(order[0], x)
  {
    var j := IndexIn(bs, order[0]);
    bs' := Free(bs, j);
    FreeKeeps(bs, hi, j);
    FreeRemovesLive(bs, 0, hi, j);
    if Coalesced(bs) { FreeApart(bs, false, j); }
    assert forall i :: 0 <= i < |order[1..]| ==> order[1..][i] == order[i + 1];
    forall x ensures FreeByte(bs', x) <==> FreeByte(bs, x) || Holds(order[0], x) {
      FreeAddsBytes(bs, 0, hi, j, x);
    }
  }

  lemma {:induction false} FreeAllLaw(bs: seq<Block>, hi: int, order: seq<Block>)
    requires WellFormed(bs, hi) && Freeable(bs, order)
    ensures WellFormed(FreeAll(bs, hi, order), hi)
    ensures Coalesced(bs) ==> Coalesced(FreeAll(bs, hi, order))
    ensures forall x :: FreeByte(FreeAll(bs, hi, order), x) <==> FreeByte(bs, x) || InOrder(order, x)
    ensures Live(FreeAll(bs, hi, order)) == Live(bs) - BlockSet(order)
    decreases |order|
  {
    if order == [] { return; }
    var bs' := FreeAllStep(bs, hi, order);
    FreeAllLaw(bs', hi, order[1..]);
    forall x ensures InOrder(order, x) <==> Holds(order[0], x) || InOrder(order[1..], x) {
      InOrderCons(order, x);
    }
    BlockSetCons(order);
  }

  lemma InOrderCons(order: seq<Block>, x: int)
    requires order != []
    ensures InOrder(order, x) <==> Holds(order[0], x) || InOrder(order[1..], x)
  {
    if InOrder(order[1..], x) {
      var i :| 0 <= i < |order[1..]| && Holds(order[1..][i], x);
      assert Holds(order[i + 1], x);
    }
    if InOrder(order, x) && !Holds(order[0], x) {
      var i :| 0 <= i < |order| && Holds(order[i], x);
      assert Holds(order[1..][i - 1], x);
    }
  }

  /** On a coalesced heap the free list after freeing a set of blocks does not
      depend on the order of the frees. */
  lemma OrderDoesNotMatter(bs: seq<Block>, hi: int, p: seq<Block>, q: seq<Block>)
    requires WellFormed(bs, hi) && Coalesced(bs)
    requires Freeable(bs, p) && Freeable(bs, q) && BlockSet(p) == BlockSet(q)
    ensures FreeList(FreeAll(bs, hi, p)) == FreeList(FreeAll(bs, hi, q))
  {
    var a, b := FreeAll(bs, hi, p), FreeAll(bs, hi, q);
    FreeAllLaw(bs, hi, p);
    FreeAllLaw(bs, hi, q);
    CoalescedIsGapped(a, 0, hi);
    CoalescedIsGapped(b, 0, hi);
    forall x ensures Covers(FreeList(a), x) <==> Covers(FreeList(b), x) {
      FreeListBytes(a, x);
      FreeListBytes(b, x);
      SameSet(p, q, x);
      SameSet(q, p, x);
    }
    BytesDetermineList(FreeList(a), FreeList(b));
  }

  lemma SameSet(p: seq<Block>, q: seq<Block>, x: int)
    requires BlockSet(p) == BlockSet(q)
    ensures InOrder(p, x) ==> InOrder(q, x)
  {
    if InOrder(p, x) {
      var i :| 0 <= i < |p| && Holds(p[i], x);
      assert p[i] in BlockSet(p);
      assert p[i] in BlockSet(q);
    }
  }

  /** Freeing every live block, in whatever order, leaves one free block. */
  lemma FreeEverything(bs: seq<Block>, hi: int, order: seq<Block>)
    requires WellFormed(bs, hi) && Coalesced(bs)
    requires Freeable(bs, order) && BlockSet(order) == Live(bs)
    ensures FreeAll(bs, hi, order) == [Block(0, hi, true)]
  {
    FreeAllLaw(bs, hi, order);
    NothingLive(FreeAll(bs, hi, order), hi);
  }
}
