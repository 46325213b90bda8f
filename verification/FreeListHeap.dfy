/** The heap memory the allocators work on: block headers changed in place, and
    a singly linked, address-ordered free list threaded through them. */
module FreeListHeap {
  import opened HeapBlocks

  function HeadOff(f: seq<Block>): int { if f == [] then NULL else f[0].off }

  /** `first` and the `next` fields thread the blocks `f`, in order. */
  ghost predicate Linked(first: int, next: map<int, int>, f: seq<Block>) {
    first == HeadOff(f) &&
    forall i :: 0 <= i < |f| ==> f[i].off in next && next[f[i].off] == HeadOff(f[i + 1..])
  }

  ghost predicate Header(b: Block, size: map<int, int>, next: map<int, int>, tag: int) {
    b.off in size && size[b.off] == b.size && b.off in next && (!b.free ==> next[b.off] == tag)
  }

  /** Every block's header is in memory; a live block's `next` holds `tag`. */
  ghost predicate Headers(bs: seq<Block>, size: map<int, int>, next: map<int, int>, tag: int) {
    forall i :: 0 <= i < |bs| ==> Header(bs[i], size, next, tag)
  }

  /** The list entry before block `j`, as a link. */
  ghost function LinkBefore(bs: seq<Block>, j: nat): int
    requires j <= |bs|
  {
    var before := FreeList(bs[..j]);
    if before == [] then NULL else before[|before| - 1].off
  }

  /** Blocks other than `j` start outside block `j`. */
  lemma Outside(bs: seq<Block>, lo: int, hi: int, j: nat)
    requires Tiles(bs, lo, hi) && j < |bs|
    ensures forall i :: 0 <= i < |bs| && i != j ==> bs[i].off < bs[j].off || bs[j].End() <= bs[i].off
  {
    forall i | 0 <= i < |bs| && i != j ensures bs[i].off < bs[j].off || bs[j].End() <= bs[i].off {
      if i < j { Disjoint(bs, lo, hi, i, j); } else { Disjoint(bs, lo, hi, j, i); }
    }
  }

  /** A link other than the list head is the header of a free block before `j`. */
  lemma LinkIsFree(bs: seq<Block>, lo: int, hi: int, j: nat) returns (p: nat)
    requires Tiles(bs, lo, hi) && j <= |bs| && LinkBefore(bs, j) != NULL
    ensures p < j && bs[p].free && bs[p].off == LinkBefore(bs, j)
    ensures forall i :: 0 <= i < |bs| && !bs[i].free ==> bs[i].off != LinkBefore(bs, j)
  {
    p := Position(bs[..j], |FreeList(bs[..j])| - 1);
    Outside(bs, lo, hi, p);
  }

  /** Offset of entry `c` of the free list, NULL past its end. */
  ghost function Entry(f: seq<Block>, c: nat): int
    requires c <= |f|
  {
    if c == |f| then NULL else f[c].off
  }

  lemma HeadIsEntry(f: seq<Block>, c: nat)
    requires c <= |f|
    ensures HeadOff(f[c..]) == Entry(f, c)
  {
  }

  lemma LinkedEntry(first: int, next: map<int, int>, f: seq<Block>, i: nat)
    requires Linked(first, next, f) && i < |f|
    ensures f[i].off in next && next[f[i].off] == Entry(f, i + 1)
  {
    HeadIsEntry(f, i + 1);
  }

  /** The list with entries `c` to `e` exchanged for `mid`. */
  ghost function Spliced(f: seq<Block>, c: nat, e: nat, mid: seq<Block>): (g: seq<Block>)
    requires c <= e <= |f|
    ensures |g| == c + |mid| + |f| - e
    ensures forall i :: 0 <= i < c ==> g[i] == f[i]
    ensures forall i :: c <= i < c + |mid| ==> g[i] == mid[i - c]
    ensures forall i :: c + |mid| <= i < |g| ==> g[i] == f[i - c - |mid| + e]
  {
    f[..c] + mid + f[e..]
  }

  /** What follows the entry before the exchanged ones. */
  lemma SplicedAfter(f: seq<Block>, c: nat, e: nat, mid: seq<Block>)
    requires c <= e <= |f|
    ensures HeadOff(mid + f[e..]) == Entry(Spliced(f, c, e, mid), c)
  {
  }

  /** An entry linked as before is linked in the new list. */
  lemma SplicedKept(next: map<int, int>, f: seq<Block>, c: nat, e: nat, mid: seq<Block>, next': map<int, int>, i: nat)
    requires c <= e <= |f| && i < |f| && (i + 1 < c || e <= i)
    requires f[i].off in next' && next'[f[i].off] == Entry(f, i + 1)
    ensures var g := Spliced(f, c, e, mid); var d := if i < c then i else i - e + c + |mid|;
      g[d] == f[i] && next'[g[d].off] == Entry(g, d + 1)
  {
  }

  /** Entries `c` to `e` of the list exchanged for `mid` by relinking around them. */
  lemma Splice(first: int, next: map<int, int>, f: seq<Block>, c: nat, e: nat, mid: seq<Block>,
               first': int, next': map<int, int>)
    requires Linked(first, next, f) && c <= e <= |f|
    requires forall i :: 0 <= i < c - 1 || e <= i < |f| ==> f[i].off in next' && next'[f[i].off] == next[f[i].off]
    requires if c == 0 then first' == HeadOff(mid + f[e..])
             else first' == first && f[c - 1].off in next' && next'[f[c - 1].off] == HeadOff(mid + f[e..])
    requires |mid| <= 1
    requires mid != [] ==> mid[0].off in next' && next'[mid[0].off] == HeadOff(f[e..])
    ensures Linked(first', next', f[..c] + mid + f[e..])
  {
    var g := Spliced(f, c, e, mid);
    SplicedAfter(f, c, e, mid);
    HeadIsEntry(f, e);
    forall i | 0 <= i < |g| ensures g[i].off in next' && next'[g[i].off] == HeadOff(g[i + 1..]) {
      HeadIsEntry(g, i + 1);
      if i + 1 == c {
        assert next'[g[i].off] == Entry(g, c);
      } else if c <= i < c + |mid| {
        assert next'[g[i].off] == Entry(g, i + 1);
      } else {
        var d := if i < c then i else i - c - |mid| + e;
        LinkedEntry(first, next, f, d);
        SplicedKept(next, f, c, e, mid, next', d);
      }
    }
    HeadIsEntry(g, 0);
    assert g[0..] == g;
    assert g == f[..c] + mid + f[e..];
  }

  /** What a walk along the free list sees. */
  ghost predicate Listed(f: seq<Block>, first: int, size: map<int, int>, next: map<int, int>) {
    first == Entry(f, 0) &&
    forall c :: 0 <= c < |f| ==>
      Entry(f, c) != NULL && Entry(f, c) in size && size[Entry(f, c)] == f[c].size
      && Entry(f, c) in next && next[Entry(f, c)] == Entry(f, c + 1)
  }

  class Heap {
    var heapSize: int
    var first: int
    var size: map<int, int>
    var next: map<int, int>
    const tag: int
    ghost var blocks: seq<Block>

    /** Memory represents `blocks`. */
    ghost predicate Rep()
      reads this
    {
      Tiles(blocks, 0, heapSize) && heapSize > 0
      && Headers(blocks, size, next, tag)
      && Linked(first, next, FreeList(blocks))
    }

    ghost predicate Valid()
      reads this
    {
      Rep() && WellFormed(blocks, heapSize)
    }

    /** `initAllocator`: one free block of HEAP_SIZE bytes. */
    constructor (tag: int)
      ensures Valid() && this.tag == tag
      ensures blocks == INITIAL && heapSize == HEAP_SIZE
    {
      heapSize := HEAP_SIZE;
      first := 0;
      size := map[0 := HEAP_SIZE];
      next := map[0 := NULL];
      this.tag := tag;
      blocks := INITIAL;
      new;
      assert FreeList(INITIAL) == INITIAL;
    }

    /** `*link = v`, where a NULL `link` stands for the list head. */
    method StoreLink(link: int, v: int)
      modifies this`first, this`next
      ensures link == NULL ==> first == v && next == old(next)
      ensures link != NULL ==> first == old(first) && next == old(next)[link := v]
    {
      if link == NULL { first := v; } else { next := next[link := v]; }
    }

    /** `allocate_block`: hand out the front of a free block. */
    method AllocateBlock(link: int, block: int, newSize: int, ghost j: nat) returns (address: int)
      requires Valid() && j < |blocks| && blocks[j].off == block && blocks[j].free
      requires link == LinkBefore(blocks, j)
      requires 16 <= newSize <= blocks[j].size && newSize % 16 == 0
      modifies this`first, this`size, this`next, this`blocks
      ensures Valid()
      ensures blocks == Alloc(old(blocks), j, newSize)
      ensures address == block + HEADER_SIZE
    {
      var blockNext := next[block];
      if size[block] == newSize {
        StoreLink(link, blockNext);
      } else {
        var newFree := block + newSize;
        size := size[newFree := size[block] - newSize];
        next := next[newFree := blockNext];
        StoreLink(link, newFree);
        size := size[block := newSize];
      }
      next := next[block := tag];
      address := block + HEADER_SIZE;
      AllocHeaders(blocks, heapSize, j, newSize, tag, old(first), old(size), old(next), first, size, next);
      AllocLinked(blocks, heapSize, j, newSize, tag, old(first), old(size), old(next), first, size, next);
      AllocKeeps(blocks, heapSize, j, newSize);
      blocks := Alloc(blocks, j, newSize);
    }

    /** Walk the free list to the first entry at or after `target`. */
    method WalkTo(target: int, ghost j: nat) returns (prev: int, current: int)
      requires Rep() && j <= |blocks|
      requires target == if j < |blocks| then blocks[j].off else heapSize
      ensures prev == LinkBefore(blocks, j)
      ensures current == HeadOff(FreeList(blocks[j..]))
    {
      ghost var f := FreeList(blocks);
      ghost var c := 0;
      IsListed();
      prev, current := NULL, first;
      while current != NULL && current < target
        invariant c <= |f| && current == Entry(f, c)
        invariant prev == if c == 0 then NULL else Entry(f, c - 1)
        invariant c > 0 ==> f[c - 1].off < target
        decreases |f| - c
      {
        prev := current;
        current := next[current];
        c := c + 1;
      }
      SplitAt(blocks, heapSize, j, c, target);
    }

    lemma HeaderOf(j: nat)
      requires Rep() && j < |blocks|
      ensures Header(blocks[j], size, next, tag)
    {
    }

    lemma IsListed()
      requires Rep()
      ensures Listed(FreeList(blocks), first, size, next)
    {
      var f := FreeList(blocks);
      forall c | 0 <= c < |f| ensures Entry(f, c) != NULL && Entry(f, c) in size && size[Entry(f, c)] == f[c].size {
        var p := Position(blocks, c);
        InBounds(blocks, 0, heapSize, p);
        assert Header(blocks[p], size, next, tag);
      }
    }

    /** With a tag that is no link, the tag tells live blocks from free ones. */
    lemma NotMagic()
      requires Rep() && tag < NULL
      ensures forall i :: 0 <= i < |blocks| ==> (next[blocks[i].off] != tag <==> blocks[i].free)
    {
      IsListed();
      forall i | 0 <= i < |blocks| ensures next[blocks[i].off] != tag <==> blocks[i].free {
        HeaderOf(i);
        if blocks[i].free {
          ListIndex(blocks, i);
          var c := |FreeList(blocks[..i])|;
          assert next[Entry(FreeList(blocks), c)] == Entry(FreeList(blocks), c + 1);
          OffsetsInHeap();
        }
      }
    }

    lemma OffsetsInHeap()
      requires Rep()
      ensures forall c :: 0 <= c < |FreeList(blocks)| ==> 0 <= FreeList(blocks)[c].off < heapSize
    {
      forall c | 0 <= c < |FreeList(blocks)| ensures 0 <= FreeList(blocks)[c].off < heapSize {
        var p := Position(blocks, c);
        InBounds(blocks, 0, heapSize, p);
      }
    }

    /** Insert block `j` into the list between `prev` and `current`. */
    method LinkIn(prev: int, b: int, current: int, ghost j: nat)
      requires Rep() && j < |blocks| && blocks[j].off == b && !blocks[j].free
      requires prev == LinkBefore(blocks, j) && current == HeadOff(FreeList(blocks[j..]))
      modifies this`first, this`next, this`blocks
      ensures Rep() && blocks == old(blocks)[j := old(blocks)[j].(free := true)]
    {
      if prev == NULL {
        next := next[b := first];
        first := b;
      } else {
        next := next[prev := b];
        next := next[b := current];
      }
      InsertKeeps(blocks, heapSize, j, tag, size, old(first), old(next), first, next);
      blocks := blocks[j := blocks[j].(free := true)];
    }

    /** `merge_blocks`: absorb `b2` into `b1` if it starts where `b1` ends. */
    method MergeBlocks(b1: int, b2: int, ghost k: nat)
      requires Rep() && k < |blocks| && blocks[k].off == b1 && blocks[k].free
      requires b2 == HeadOff(FreeList(blocks[k + 1..]))
      modifies this`size, this`next, this`blocks
      ensures Rep()
      ensures blocks == if k + 1 < |old(blocks)| && old(blocks)[k + 1].free then Merge(old(blocks), k, k + 1) else old(blocks)
    {
      NextIsFree(blocks, heapSize, k);
      if b1 + size[b1] == b2 {
        size := size[b1 := size[b1] + size[b2]];
        next := next[b1 := next[b2]];
        MergeHeaders(blocks, heapSize, k, tag, old(size), old(next), size, next, next[b1]);
        MergeLinked(blocks, heapSize, k, first, old(next), next);
        MergeTiles(blocks, 0, heapSize, k, k + 1);
        blocks := Merge(blocks, k, k + 1);
      }
    }

    /** A new free block of HEAP_SIZE bytes behind `link`, the end of the list. */
    method ExtendAt(link: int)
      requires Valid() && link == LinkBefore(blocks, |blocks|)
      modifies this
      ensures Valid()
      ensures blocks == Grow(old(blocks), old(heapSize)) && heapSize == old(heapSize) + HEAP_SIZE
    {
      var newBlock := heapSize;
      heapSize := heapSize + HEAP_SIZE;
      size := size[newBlock := HEAP_SIZE];
      next := next[newBlock := NULL];
      StoreLink(link, newBlock);
      GrowHeaders(blocks, newBlock, tag, old(size), old(next), size, next, NULL, newBlock);
      GrowLinked(blocks, newBlock, old(first), old(next), first, next);
      GrowKeeps(blocks, newBlock);
      blocks := Grow(blocks, newBlock);
    }

    /** The same, with the place found by walking the list in address order. */
    method Extend()
      requires Valid()
      modifies this
      ensures Valid()
      ensures blocks == Grow(old(blocks), old(heapSize)) && heapSize == old(heapSize) + HEAP_SIZE
    {
      var prev, current := WalkTo(heapSize, |blocks|);
      ExtendAt(prev);
    }
  }

  function Rest(b: Block, n: int): seq<Block> {
    if b.size == n then [] else [Block(b.off + n, b.size - n, true)]
  }

  lemma SplitFreeList(b: Block, n: int)
    ensures FreeList(Split(b, n)) == Rest(b, n)
  {
    if b.size != n {
      assert Split(b, n)[1..] == Rest(b, n);
      assert FreeList(Rest(b, n)) == Rest(b, n) + FreeList([]);
    }
  }

  lemma AllocFreeList(bs: seq<Block>, j: nat, n: int)
    requires j < |bs|
    ensures FreeList(Alloc(bs, j, n)) == FreeList(bs[..j]) + Rest(bs[j], n) + FreeList(bs[j + 1..])
  {
    FreeListConcat(bs[..j] + Split(bs[j], n), bs[j + 1..]);
    FreeListConcat(bs[..j], Split(bs[j], n));
    SplitFreeList(bs[j], n);
  }

  /** The stores of `AllocateBlock`. */
  ghost predicate AllocStores(b: Block, n: int, link: int, tag: int,
                              first: int, size: map<int, int>, next: map<int, int>,
                              first': int, size': map<int, int>, next': map<int, int>)
    requires b.off in next
  {
    var rest := if b.size == n then next[b.off] else b.off + n;
    var next1 := if b.size == n then next else next[b.off + n := next[b.off]];
    var next2 := if link == NULL then next1 else next1[link := rest];
    size' == (if b.size == n then size else size[b.off + n := b.size - n][b.off := n])
    && first' == (if link == NULL then rest else first)
    && next' == next2[b.off := tag]
  }

  lemma AllocHeaders(bs: seq<Block>, hi: int, j: nat, n: int, tag: int,
                     first: int, size: map<int, int>, next: map<int, int>,
                     first': int, size': map<int, int>, next': map<int, int>)
    requires Tiles(bs, 0, hi) && j < |bs| && bs[j].free && 16 <= n <= bs[j].size
    requires Headers(bs, size, next, tag)
    requires AllocStores(bs[j], n, LinkBefore(bs, j), tag, first, size, next, first', size', next')
    ensures Headers(Alloc(bs, j, n), size', next', tag)
  {
    var b, link := bs[j], LinkBefore(bs, j);
    Outside(bs, 0, hi, j);
    if link != NULL { var p := LinkIsFree(bs, 0, hi, j); }
    forall i | 0 <= i < |bs| && i != j ensures Header(bs[i], size', next', tag) {
      assert Header(bs[i], size, next, tag);
    }
    assert Header(Split(b, n)[0], size', next', tag);
    assert Headers(Split(b, n), size', next', tag);
  }

  lemma ListAlloc(f: seq<Block>, c: nat, n: int, tag: int,
                  first: int, size: map<int, int>, next: map<int, int>,
                  first': int, size': map<int, int>, next': map<int, int>)
    requires Ascending(f) && c < |f| && 16 <= n <= f[c].size && Linked(first, next, f)
    requires AllocStores(f[c], n, if c == 0 then NULL else f[c - 1].off, tag, first, size, next, first', size', next')
    requires f[0].off >= 0
    ensures Linked(first', next', f[..c] + Rest(f[c], n) + f[c + 1..])
  {
    var b, mid, after := f[c], Rest(f[c], n), f[c + 1..];
    assert next[b.off] == HeadOff(after);
    assert HeadOff(mid + after) == if b.size == n then next[b.off] else b.off + n;
    forall i | 0 <= i < c - 1 || c + 1 <= i < |f| ensures f[i].off in next' && next'[f[i].off] == next[f[i].off] {
      assert f[i].off in next;
      assert i < c ==> f[i].End() <= b.off;
      assert i > c ==> b.End() <= f[i].off;
      assert 0 <= i < c - 1 ==> f[i].End() <= f[c - 1].off;
      assert c > 0 && i > c ==> f[c - 1].End() <= f[i].off;
    }
    if c > 0 { assert f[0].off <= f[c - 1].off && f[c - 1].End() <= b.off; }
    Splice(first, next, f, c, c + 1, mid, first', next');
  }

  lemma AllocLinked(bs: seq<Block>, hi: int, j: nat, n: int, tag: int,
                    first: int, size: map<int, int>, next: map<int, int>,
                    first': int, size': map<int, int>, next': map<int, int>)
    requires Tiles(bs, 0, hi) && j < |bs| && bs[j].free && 16 <= n <= bs[j].size && bs[j].off in next
    requires Linked(first, next, FreeList(bs))
    requires AllocStores(bs[j], n, LinkBefore(bs, j), tag, first, size, next, first', size', next')
    ensures Linked(first', next', FreeList(Alloc(bs, j, n)))
  {
    var a, f := FreeList(bs[..j]), FreeList(bs);
    AllocFreeList(bs, j, n);
    FreeListSplit(bs, j);
    FreeListAscends(bs, 0, hi);
    assert f[..|a|] == a && f[|a|] == bs[j] && f[|a| + 1..] == FreeList(bs[j + 1..]);
    var p := Position(bs, 0);
    InBounds(bs, 0, hi, p);
    ListAlloc(f, |a|, n, tag, first, size, next, first', size', next');
  }

  lemma FreeBefore(bs: seq<Block>, hi: int, j: nat, c: nat)
    requires Tiles(bs, 0, hi) && j <= |bs| && c < |FreeList(bs[..j])|
    ensures FreeList(bs[..j])[c].off < (if j < |bs| then bs[j].off else hi)
  {
    var p := Position(bs[..j], c);
    assert bs[p] == bs[..j][p] && bs[p].size >= 16;
    if j < |bs| { Disjoint(bs, 0, hi, p, j); } else { InBounds(bs, 0, hi, p); }
  }

  lemma FreeAfter(bs: seq<Block>, hi: int, j: nat, c: nat)
    requires Tiles(bs, 0, hi) && j < |bs| && c < |FreeList(bs[j..])|
    ensures bs[j].off <= FreeList(bs[j..])[c].off
  {
    var p := Position(bs[j..], c);
    assert bs[j + p] == bs[j..][p] && bs[j].size >= 16;
    if p > 0 { Disjoint(bs, 0, hi, j, j + p); }
  }

  /** The walk stops exactly between the free blocks before and after block `j`. */
  lemma SplitAt(bs: seq<Block>, hi: int, j: nat, c: nat, target: int)
    requires Tiles(bs, 0, hi) && j <= |bs| && target == if j < |bs| then bs[j].off else hi
    requires c <= |FreeList(bs)|
    requires c > 0 ==> FreeList(bs)[c - 1].off < target
    requires c < |FreeList(bs)| ==> target <= FreeList(bs)[c].off
    ensures FreeList(bs)[..c] == FreeList(bs[..j]) && FreeList(bs)[c..] == FreeList(bs[j..])
  {
    var f, a, b := FreeList(bs), FreeList(bs[..j]), FreeList(bs[j..]);
    FreeListAt(bs, j);
    forall d | 0 <= d < |a| ensures a[d].off < target { FreeBefore(bs, hi, j, d); }
    if j < |bs| {
      forall d | 0 <= d < |b| ensures target <= b[d].off { FreeAfter(bs, hi, j, d); }
    } else {
      assert bs[j..] == [];
    }
    CutIsUnique(f, a, b, c, target);
  }

  lemma CutIsUnique(f: seq<Block>, a: seq<Block>, b: seq<Block>, c: nat, target: int)
    requires |a| <= |f| && f[..|a|] == a && f[|a|..] == b && c <= |f|
    requires forall d :: 0 <= d < |a| ==> a[d].off < target
    requires forall d :: 0 <= d < |b| ==> target <= b[d].off
    requires c > 0 ==> f[c - 1].off < target
    requires c < |f| ==> target <= f[c].off
    ensures c == |a|
  {
    Halves(f, a, b);
  }

  lemma Halves(f: seq<Block>, a: seq<Block>, b: seq<Block>)
    requires |a| <= |f| && f[..|a|] == a && f[|a|..] == b
    ensures forall c :: 0 <= c < |a| ==> f[c] == a[c]
    ensures forall c :: |a| <= c < |f| ==> f[c] == b[c - |a|]
  {
  }

  lemma InsertHeaders(bs: seq<Block>, hi: int, j: nat, tag: int, size: map<int, int>, next: map<int, int>, next': map<int, int>, v: int, w: int)
    requires Tiles(bs, 0, hi) && j < |bs| && Headers(bs, size, next, tag)
    requires var prev, b := LinkBefore(bs, j), bs[j].off;
      next' == (if prev == NULL then next else next[prev := v])[b := w]
    ensures Headers(bs[j := bs[j].(free := true)], size, next', tag)
  {
    var bs' := bs[j := bs[j].(free := true)];
    Outside(bs, 0, hi, j);
    if LinkBefore(bs, j) != NULL { var p := LinkIsFree(bs, 0, hi, j); }
    forall i | 0 <= i < |bs'| ensures Header(bs'[i], size, next', tag) {
      assert Header(bs[i], size, next, tag);
    }
  }

  /** The stores of `LinkIn` keep headers, list and tiling. */
  lemma InsertKeeps(bs: seq<Block>, hi: int, j: nat, tag: int, size: map<int, int>,
                    first: int, next: map<int, int>, first': int, next': map<int, int>)
    requires Tiles(bs, 0, hi) && j < |bs| && !bs[j].free
    requires Headers(bs, size, next, tag) && Linked(first, next, FreeList(bs))
    requires var prev, b := LinkBefore(bs, j), bs[j].off;
      if prev == NULL then first' == b && next' == next[b := first]
      else first' == first && next' == next[prev := b][b := HeadOff(FreeList(bs[j..]))]
    ensures var bs' := bs[j := bs[j].(free := true)];
      Tiles(bs', 0, hi) && Headers(bs', size, next', tag) && Linked(first', next', FreeList(bs'))
  {
    InsertHeaders(bs, hi, j, tag, size, next, next', bs[j].off, next'[bs[j].off]);
    InsertLinked(bs, hi, j, first, next, first', next');
  }

  lemma InsertFreeList(bs: seq<Block>, j: nat)
    requires j < |bs| && !bs[j].free
    ensures var b', a, f := bs[j].(free := true), FreeList(bs[..j]), FreeList(bs);
      |a| <= |f| && f[..|a|] == a && f[|a|..] == FreeList(bs[j..])
      && FreeList(bs[j := b']) == f[..|a|] + [b'] + f[|a|..]
  {
    var bs' := bs[j := bs[j].(free := true)];
    FreeListAt(bs, j);
    FreeListAt(bs', j);
    assert bs'[..j] == bs[..j] && bs'[j + 1..] == bs[j + 1..];
    var f' := FreeList(bs');
    assert f' == f'[..|FreeList(bs[..j])|] + f'[|FreeList(bs[..j])|..];
  }

  lemma InsertLinked(bs: seq<Block>, hi: int, j: nat, first: int, next: map<int, int>, first': int, next': map<int, int>)
    requires Tiles(bs, 0, hi) && j < |bs| && !bs[j].free && Linked(first, next, FreeList(bs))
    requires var prev, b := LinkBefore(bs, j), bs[j].off;
      if prev == NULL then first' == b && next' == next[b := first]
      else first' == first && next' == next[prev := b][b := HeadOff(FreeList(bs[j..]))]
    ensures Linked(first', next', FreeList(bs[j := bs[j].(free := true)]))
  {
    var f, c := InsertPlace(bs, hi, j);
    ListInsert(f, c, bs[j].(free := true), first, next, first', next');
  }

  /** Where block `j` goes in the free list. */
  lemma InsertPlace(bs: seq<Block>, hi: int, j: nat) returns (f: seq<Block>, c: nat)
    requires Tiles(bs, 0, hi) && j < |bs| && !bs[j].free
    ensures f == FreeList(bs) && c <= |f| && f[c..] == FreeList(bs[j..])
    ensures LinkBefore(bs, j) == if c == 0 then NULL else f[c - 1].off
    ensures c > 0 ==> LinkBefore(bs, j) != NULL
    ensures var b := bs[j].(free := true); var g := f[..c] + [b] + f[c..];
      FreeList(bs[j := b]) == g && Ascending(f)
    ensures forall i :: 0 <= i < |f| ==> f[i].off != bs[j].off
  {
    f, c := FreeList(bs), |FreeList(bs[..j])|;
    InsertFreeList(bs, j);
    FreeListAscends(bs, 0, hi);
    if c > 0 { NeverNull(bs, hi, j); }
    forall i | 0 <= i < |f| ensures f[i].off != bs[j].off {
      var p := Position(bs, i);
      Outside(bs, 0, hi, j);
    }
  }

  lemma NeverNull(bs: seq<Block>, hi: int, j: nat)
    requires Tiles(bs, 0, hi) && j <= |bs| && FreeList(bs[..j]) != []
    ensures LinkBefore(bs, j) != NULL
  {
    var p := Position(bs[..j], |FreeList(bs[..j])| - 1);
    InBounds(bs, 0, hi, p);
  }

  /** The list entry before live block `j` ends where `j` starts exactly when
      the neighbour on that side is free. */
  lemma PrevTouches(bs: seq<Block>, hi: int, j: nat)
    requires Tiles(bs, 0, hi) && j < |bs|
    ensures j > 0 && bs[j - 1].free ==> LinkBefore(bs, j) == bs[j - 1].off != NULL
    ensures LinkBefore(bs, j) != NULL && !(j > 0 && bs[j - 1].free) ==>
      forall p :: 0 <= p < j && bs[p].off == LinkBefore(bs, j) ==> bs[p].End() != bs[j].off
  {
    if j > 0 && bs[j - 1].free {
      assert bs[..j] == bs[..j - 1] + [bs[j - 1]];
      FreeListConcat(bs[..j - 1], [bs[j - 1]]);
      InBounds(bs, 0, hi, j - 1);
      assert FreeList([bs[j - 1]]) == [bs[j - 1]] + FreeList([]);
    } else if LinkBefore(bs, j) != NULL {
      var q := LinkIsFree(bs, 0, hi, j);
      Outside(bs, 0, hi, q);
      Disjoint(bs, 0, hi, q, j - 1);
    }
  }

  /** Freeing as the code does it: insert, merge backwards, merge forwards. */
  lemma FreeInSteps(bs: seq<Block>, j: nat, bs1: seq<Block>, k: nat, bs2: seq<Block>)
    requires j < |bs| && bs1 == bs[j := bs[j].(free := true)]
    requires k == MergeFrom(bs1, j) && bs2 == if k < j then Merge(bs1, k, j) else bs1
    ensures k < |bs2| && bs2[k + 1..] == bs[j + 1..]
    ensures Free(bs, j) == if MergeTo(bs2, k) > k then Merge(bs2, k, k + 1) else bs2
  {
    MergedBackwards(bs, j, bs1, k, bs2);
    MergeForwards(bs, j, k, bs2);
  }

  lemma MergedBackwards(bs: seq<Block>, j: nat, bs1: seq<Block>, k: nat, bs2: seq<Block>)
    requires j < |bs| && bs1 == bs[j := bs[j].(free := true)]
    requires k == MergeFrom(bs1, j) && bs2 == if k < j then Merge(bs1, k, j) else bs1
    ensures k == MergeFrom(bs, j) && bs2 == bs[..k] + [Block(bs[k].off, bs[j].End() - bs[k].off, true)] + bs[j + 1..]
  {
    assert bs1[j + 1..] == bs[j + 1..] && bs1[..k] == bs[..k];
  }

  lemma MergeForwards(bs: seq<Block>, j: nat, k: nat, bs2: seq<Block>)
    requires j < |bs| && k == MergeFrom(bs, j)
    requires bs2 == bs[..k] + [Block(bs[k].off, bs[j].End() - bs[k].off, true)] + bs[j + 1..]
    ensures k < |bs2| && bs2[k + 1..] == bs[j + 1..]
    ensures Free(bs, j) == if MergeTo(bs2, k) > k then Merge(bs2, k, k + 1) else bs2
  {
    assert bs2[..k] == bs[..k] && bs2[k + 1..] == bs[j + 1..];
    SameNext(bs, j, bs2, k);
  }

  /** With the same blocks after `j` and `k`, the same merge forwards. */
  lemma SameNext(bs: seq<Block>, j: nat, bs2: seq<Block>, k: nat)
    requires j < |bs| && k < |bs2| && bs2[k + 1..] == bs[j + 1..]
    ensures MergeTo(bs2, k) > k <==> MergeTo(bs, j) > j
    ensures j + 1 < |bs| ==> bs2[k + 1] == bs[j + 1] && bs2[k + 2..] == bs[j + 2..]
  {
    if j + 1 < |bs| {
      assert bs2[k + 1] == bs2[k + 1..][0] == bs[j + 1..][0];
      assert bs2[k + 2..] == bs2[k + 1..][1..] == bs[j + 1..][1..];
    }
  }

  /** The other order: insert, merge forwards, merge backwards. */
  lemma FreeForwardsFirst(bs: seq<Block>, j: nat, bs1: seq<Block>, bs2: seq<Block>)
    requires j < |bs| && bs1 == bs[j := bs[j].(free := true)]
    requires bs2 == if MergeTo(bs1, j) > j then Merge(bs1, j, j + 1) else bs1
    ensures j < |bs2| && bs2[..j] == bs[..j] && bs2[j].off == bs[j].off && bs2[j].free
    ensures Free(bs, j) == if MergeFrom(bs, j) < j then Merge(bs2, j - 1, j) else bs2
  {
    MergedForwards(bs, j, bs1, bs2);
    MergeBackwards(bs, j, bs2);
  }

  lemma MergeBackwards(bs: seq<Block>, j: nat, bs2: seq<Block>)
    requires j < |bs|
    requires var to := MergeTo(bs, j); bs2 == bs[..j] + [Block(bs[j].off, bs[to].End() - bs[j].off, true)] + bs[to + 1..]
    ensures j < |bs2| && bs2[..j] == bs[..j] && bs2[j].off == bs[j].off && bs2[j].free
    ensures Free(bs, j) == if MergeFrom(bs, j) < j then Merge(bs2, j - 1, j) else bs2
  {
    var to := MergeTo(bs, j);
    var b := Block(bs[j].off, bs[to].End() - bs[j].off, true);
    assert bs2[j] == b && b.End() == bs[to].End();
    assert bs2[..j] == bs[..j] && bs2[j + 1..] == bs[to + 1..];
    if MergeFrom(bs, j) < j {
      assert bs2[..j - 1] == bs[..j - 1] && bs2[j - 1] == bs[j - 1];
      assert Merge(bs2, j - 1, j) == Merge(bs, j - 1, to);
    }
  }

  lemma MergedForwards(bs: seq<Block>, j: nat, bs1: seq<Block>, bs2: seq<Block>)
    requires j < |bs| && bs1 == bs[j := bs[j].(free := true)]
    requires bs2 == if MergeTo(bs1, j) > j then Merge(bs1, j, j + 1) else bs1
    ensures var to := MergeTo(bs, j); bs2 == bs[..j] + [Block(bs[j].off, bs[to].End() - bs[j].off, true)] + bs[to + 1..]
  {
    assert bs1[..j] == bs[..j] && bs1[j + 1..] == bs[j + 1..];
    SameNext(bs, j, bs1, j);
  }

  lemma ListInsert(f: seq<Block>, c: nat, b: Block, first: int, next: map<int, int>, first': int, next': map<int, int>)
    requires c <= |f| && Ascending(f) && Linked(first, next, f)
    requires forall i :: 0 <= i < |f| ==> f[i].off != b.off
    requires if c == 0 then first' == b.off && next' == next[b.off := first]
             else first' == first && next' == next[f[c - 1].off := b.off][b.off := HeadOff(f[c..])]
    ensures Linked(first', next', f[..c] + [b] + f[c..])
  {
    forall i | 0 <= i < c - 1 || c <= i < |f| ensures f[i].off in next' && next'[f[i].off] == next[f[i].off] {
      assert f[i].off in next;
      assert c > 0 ==> f[i].off != f[c - 1].off;
    }
    if c == 0 { assert f[0..] == f; }
    Splice(first, next, f, c, c, [b], first', next');
  }

  /** The block after a free block `k` is free exactly if the next list entry touches it. */
  lemma NextIsFree(bs: seq<Block>, hi: int, k: nat)
    requires Tiles(bs, 0, hi) && k < |bs|
    ensures (k + 1 < |bs| && bs[k + 1].free) <==> bs[k].End() == HeadOff(FreeList(bs[k + 1..]))
    ensures bs[k].End() != NULL
  {
    var g := FreeList(bs[k + 1..]);
    InBounds(bs, 0, hi, k);
    if g != [] {
      var p := Position(bs[k + 1..], 0);
      assert bs[k + 1 + p] == g[0];
      if p > 0 { Disjoint(bs, 0, hi, k + 1, k + 1 + p); }
    }
  }

  lemma MergeFreeList(bs: seq<Block>, k: nat)
    requires k + 1 < |bs|
    ensures FreeList(Merge(bs, k, k + 1)) ==
      FreeList(bs[..k]) + [Block(bs[k].off, bs[k + 1].End() - bs[k].off, true)] + FreeList(bs[k + 2..])
  {
    var mid := [Block(bs[k].off, bs[k + 1].End() - bs[k].off, true)];
    FreeListConcat(bs[..k] + mid, bs[k + 2..]);
    FreeListConcat(bs[..k], mid);
    assert FreeList(mid) == mid + FreeList([]);
  }

  lemma MergeHeaders(bs: seq<Block>, hi: int, k: nat, tag: int, size: map<int, int>, next: map<int, int>,
                     size': map<int, int>, next': map<int, int>, v: int)
    requires Tiles(bs, 0, hi) && k + 1 < |bs| && Headers(bs, size, next, tag)
    requires size' == size[bs[k].off := bs[k].size + bs[k + 1].size]
    requires next' == next[bs[k].off := v]
    ensures Headers(Merge(bs, k, k + 1), size', next', tag)
  {
    Outside(bs, 0, hi, k);
    forall i | 0 <= i < |bs| && i != k ensures Header(bs[i], size', next', tag) {
      assert Header(bs[i], size, next, tag);
    }
    var merged := Block(bs[k].off, bs[k + 1].End() - bs[k].off, true);
    assert Header(merged, size', next', tag);
    assert Headers(bs[..k], size', next', tag) && Headers(bs[k + 2..], size', next', tag);
  }

  /** The two blocks to merge in the free list. */
  lemma MergeEntries(bs: seq<Block>, k: nat)
    requires k + 1 < |bs| && bs[k].free && bs[k + 1].free
    ensures var a, f := FreeList(bs[..k]), FreeList(bs);
      |a| + 1 < |f| && f[..|a|] == a && f[|a|] == bs[k] && f[|a| + 1] == bs[k + 1] && f[|a| + 2..] == FreeList(bs[k + 2..])
  {
    FreeListAt(bs, k);
    assert bs[k..][1..] == bs[k + 1..] && bs[k + 1..][1..] == bs[k + 2..];
    var a, f := FreeList(bs[..k]), FreeList(bs);
    assert f[|a|..] == [bs[k]] + ([bs[k + 1]] + FreeList(bs[k + 2..]));
    assert f[|a|] == f[|a|..][0] && f[|a| + 1] == f[|a|..][1] && f[|a| + 2..] == f[|a|..][2..];
  }

  lemma MergeLinked(bs: seq<Block>, hi: int, k: nat, first: int, next: map<int, int>, next': map<int, int>)
    requires Tiles(bs, 0, hi) && k + 1 < |bs| && bs[k].free && bs[k + 1].free && Linked(first, next, FreeList(bs))
    requires bs[k + 1].off in next && next' == next[bs[k].off := next[bs[k + 1].off]]
    ensures Linked(first, next', FreeList(Merge(bs, k, k + 1)))
  {
    MergeFreeList(bs, k);
    MergeEntries(bs, k);
    FreeListAscends(bs, 0, hi);
    var a, f := FreeList(bs[..k]), FreeList(bs);
    ListMerge(f, |a|, Block(bs[k].off, bs[k + 1].End() - bs[k].off, true), first, next, next');
  }

  lemma ListMerge(f: seq<Block>, c: nat, merged: Block, first: int, next: map<int, int>, next': map<int, int>)
    requires Ascending(f) && c + 1 < |f| && Linked(first, next, f) && merged.off == f[c].off
    requires f[c + 1].off in next && next' == next[f[c].off := next[f[c + 1].off]]
    ensures Linked(first, next', f[..c] + [merged] + f[c + 2..])
  {
    forall i | 0 <= i < |f| && i != c ensures f[i].off in next' && next'[f[i].off] == next[f[i].off] {
      assert f[i].off in next;
      assert if i < c then f[i].End() <= f[c].off else f[c].End() <= f[i].off;
    }
    assert next[f[c + 1].off] == HeadOff(f[c + 2..]);
    if c > 0 { assert next[f[c - 1].off] == HeadOff(f[c..]); }
    Splice(first, next, f, c, c + 2, [merged], first, next');
  }

  lemma GrowHeaders(bs: seq<Block>, hi: int, tag: int, size: map<int, int>, next: map<int, int>,
                    size': map<int, int>, next': map<int, int>, v: int, w: int)
    requires Tiles(bs, 0, hi) && Headers(bs, size, next, tag)
    requires size' == size[hi := HEAP_SIZE]
    requires var link := LinkBefore(bs, |bs|);
      next' == if link == NULL then next[hi := v] else next[hi := v][link := w]
    ensures Headers(Grow(bs, hi), size', next', tag)
  {
    if LinkBefore(bs, |bs|) != NULL { var p := LinkIsFree(bs, 0, hi, |bs|); }
    forall i | 0 <= i < |bs| ensures Header(bs[i], size', next', tag) {
      assert Header(bs[i], size, next, tag);
      InBounds(bs, 0, hi, i);
    }
  }

  lemma GrowLinked(bs: seq<Block>, hi: int, first: int, next: map<int, int>, first': int, next': map<int, int>)
    requires Tiles(bs, 0, hi) && Linked(first, next, FreeList(bs))
    requires var link := LinkBefore(bs, |bs|);
      if link == NULL then first' == hi && next' == next[hi := NULL]
      else first' == first && next' == next[hi := NULL][link := hi]
    ensures Linked(first', next', FreeList(Grow(bs, hi)))
  {
    var f, last := FreeList(bs), Block(hi, HEAP_SIZE, true);
    GrowFreeList(bs, hi);
    if f != [] { NeverNull(bs, hi, |bs|); }
    assert LinkBefore(bs, |bs|) == if f == [] then NULL else f[|f| - 1].off;
    ListAppend(f, last, first, next, first', next');
  }

  lemma GrowFreeList(bs: seq<Block>, hi: int)
    requires Tiles(bs, 0, hi)
    ensures bs[..|bs|] == bs && Ascending(FreeList(bs))
    ensures FreeList(Grow(bs, hi)) == FreeList(bs) + [Block(hi, HEAP_SIZE, true)]
    ensures forall i :: 0 <= i < |FreeList(bs)| ==> FreeList(bs)[i].off < hi
  {
    var last := Block(hi, HEAP_SIZE, true);
    assert bs[..|bs|] == bs;
    FreeListConcat(bs, [last]);
    assert FreeList([last]) == [last] + FreeList([]);
    forall i | 0 <= i < |FreeList(bs)| ensures FreeList(bs)[i].off < hi { FreeBefore(bs, hi, |bs|, i); }
    FreeListAscends(bs, 0, hi);
  }

  lemma ListAppend(f: seq<Block>, last: Block, first: int, next: map<int, int>, first': int, next': map<int, int>)
    requires Ascending(f) && Linked(first, next, f) && forall i :: 0 <= i < |f| ==> f[i].off < last.off
    requires if f == [] then first' == last.off && next' == next[last.off := NULL]
             else first' == first && next' == next[last.off := NULL][f[|f| - 1].off := last.off]
    ensures Linked(first', next', f + [last])
  {
    forall i | 0 <= i < |f| - 1 ensures f[i].off in next' && next'[f[i].off] == next[f[i].off] {
      assert f[i].off in next && f[i].End() <= f[|f| - 1].off;
    }
    assert f[|f|..] == [] && f[..|f|] == f;
    Splice(first, next, f, |f|, |f|, [last], first', next');
  }
}
