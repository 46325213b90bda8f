/** The heap as a sequence of blocks in address order.  Offsets count from the
    start of the heap; sizes include the header. */
module HeapBlocks {

  const HEAP_SIZE := 32 * 1024 * 1024
  const HEADER_SIZE := 16
  const NULL := -1

  datatype Block = Block(off: int, size: int, free: bool) {
    function End(): int { off + size }
  }

  /** The blocks lie end to end from `lo` to `hi`, each a positive multiple of 16 long. */
  ghost predicate Tiles(bs: seq<Block>, lo: int, hi: int) {
    (bs == [] ==> lo == hi) &&
    (bs != [] ==> bs[0].off == lo && bs[|bs| - 1].End() == hi) &&
    (forall i :: 0 <= i < |bs| ==> bs[i].size >= 16 && bs[i].size % 16 == 0) &&
    (forall i :: 0 <= i < |bs| - 1 ==> bs[i].End() == bs[i + 1].off)
  }

  /** Neighbouring free blocks meet, if at all, only where the heap once ended. */
  ghost predicate Apart(bs: seq<Block>, seams: bool) {
    forall i :: 0 <= i < |bs| - 1 && bs[i].free && bs[i + 1].free ==> seams && bs[i + 1].off % HEAP_SIZE == 0
  }

  /** No two neighbouring blocks are free. */
  ghost predicate Coalesced(bs: seq<Block>) { Apart(bs, false) }

  /** The heap invariant. */
  ghost predicate WellFormed(bs: seq<Block>, heapSize: int) {
    heapSize > 0 && heapSize % HEAP_SIZE == 0 && Tiles(bs, 0, heapSize) && Apart(bs, true)
  }

  function FreeList(bs: seq<Block>): seq<Block> {
    if bs == [] then []
    else (if bs[0].free then [bs[0]] else []) + FreeList(bs[1..])
  }

  function Total(bs: seq<Block>, free: bool): int {
    if bs == [] then 0
    else (if bs[0].free == free then bs[0].size else 0) + Total(bs[1..], free)
  }

  // What the operations do to the blocks

  const INITIAL := [Block(0, HEAP_SIZE, true)]

  /** Take `n` bytes from the front of free block `j`. */
  function Alloc(bs: seq<Block>, j: nat, n: int): seq<Block>
    requires j < |bs|
  {
    bs[..j] + Split(bs[j], n) + bs[j + 1..]
  }

  function Split(b: Block, n: int): seq<Block> {
    if b.size == n then [Block(b.off, n, false)]
    else [Block(b.off, n, false), Block(b.off + n, b.size - n, true)]
  }

  function Grow(bs: seq<Block>, heapSize: int): seq<Block> {
    bs + [Block(heapSize, HEAP_SIZE, true)]
  }

  /** First and last of the blocks that become one when block `j` is freed. */
  function MergeFrom(bs: seq<Block>, j: nat): nat
    requires j < |bs|
  {
    if j > 0 && bs[j - 1].free then j - 1 else j
  }

  function MergeTo(bs: seq<Block>, j: nat): nat
    requires j < |bs|
  {
    if j + 1 < |bs| && bs[j + 1].free then j + 1 else j
  }

  /** Blocks `lo` to `hi` made one free block. */
  function Merge(bs: seq<Block>, lo: nat, hi: nat): seq<Block>
    requires lo <= hi < |bs|
  {
    bs[..lo] + [Block(bs[lo].off, bs[hi].End() - bs[lo].off, true)] + bs[hi + 1..]
  }

  /** Give block `j` back, joining it with a free neighbour on either side. */
  function Free(bs: seq<Block>, j: nat): seq<Block>
    requires j < |bs|
  {
    Merge(bs, MergeFrom(bs, j), MergeTo(bs, j))
  }

  // The invariant over every operation

  lemma InitialIsWellFormed()
    ensures WellFormed(INITIAL, HEAP_SIZE) && Coalesced(INITIAL)
  {
  }

  lemma TilesConcat(a: seq<Block>, b: seq<Block>, lo: int, mid: int, hi: int)
    requires Tiles(a, lo, mid) && Tiles(b, mid, hi)
    ensures Tiles(a + b, lo, hi)
  {
  }

  lemma TilesSplit(bs: seq<Block>, lo: int, hi: int, j: nat) returns (mid: int)
    requires Tiles(bs, lo, hi) && j <= |bs|
    ensures mid == if j < |bs| then bs[j].off else hi
    ensures j > 0 ==> mid == bs[j - 1].End()
    ensures Tiles(bs[..j], lo, mid) && Tiles(bs[j..], mid, hi)
  {
    mid := if j < |bs| then bs[j].off else hi;
  }

  ghost predicate Joint(a: seq<Block>, b: seq<Block>, seams: bool) {
    a != [] && b != [] && a[|a| - 1].free && b[0].free ==> seams && b[0].off % HEAP_SIZE == 0
  }

  lemma ApartConcat(a: seq<Block>, b: seq<Block>, seams: bool)
    requires Apart(a, seams) && Apart(b, seams) && Joint(a, b, seams)
    ensures Apart(a + b, seams)
  {
  }

  lemma ApartSplit(bs: seq<Block>, seams: bool, j: nat)
    requires Apart(bs, seams) && j <= |bs|
    ensures Apart(bs[..j], seams) && Apart(bs[j..], seams) && Joint(bs[..j], bs[j..], seams)
  {
    if 0 < j < |bs| { assert bs[j - 1].free && bs[j].free ==> seams && bs[j].off % HEAP_SIZE == 0; }
  }

  /** Replacing a stretch of blocks by others over the same bytes. */
  lemma Replace(bs: seq<Block>, lo: int, hi: int, i: nat, j: nat, mid: seq<Block>)
    requires Tiles(bs, lo, hi) && i < j <= |bs|
    requires mid != [] && Tiles(mid, bs[i].off, bs[j - 1].End())
    ensures Tiles(bs[..i] + mid + bs[j..], lo, hi)
  {
    var p := TilesSplit(bs, lo, hi, i);
    var q := TilesSplit(bs, lo, hi, j);
    TilesConcat(bs[..i], mid, lo, p, q);
    TilesConcat(bs[..i] + mid, bs[j..], lo, q, hi);
  }

  lemma ReplaceApart(bs: seq<Block>, seams: bool, i: nat, j: nat, mid: seq<Block>)
    requires Apart(bs, seams) && i < j <= |bs|
    requires mid != [] && Apart(mid, seams)
    requires Joint(bs[..i], mid, seams) && Joint(mid, bs[j..], seams)
    ensures Apart(bs[..i] + mid + bs[j..], seams)
  {
    ApartSplit(bs, seams, i);
    ApartSplit(bs, seams, j);
    ApartConcat(bs[..i], mid, seams);
    ApartConcat(bs[..i] + mid, bs[j..], seams);
  }

  lemma AllocApart(bs: seq<Block>, seams: bool, j: nat, n: int)
    requires Apart(bs, seams) && j < |bs| && bs[j].free
    ensures Apart(Alloc(bs, j, n), seams)
  {
    ApartSplit(bs, seams, j + 1);
    ReplaceApart(bs, seams, j, j + 1, Split(bs[j], n));
  }

  lemma SplitTiles(b: Block, n: int)
    requires 16 <= n <= b.size && n % 16 == 0 && b.size % 16 == 0
    ensures Split(b, n) != [] && Tiles(Split(b, n), b.off, b.End())
  {
    if b.size != n { Sixteens(b.size, n); }
  }

  lemma Sixteens(size: int, n: int)
    requires n < size && n % 16 == 0 && size % 16 == 0
    ensures size - n >= 16 && (size - n) % 16 == 0
  {
  }

  lemma AllocTiles(bs: seq<Block>, lo: int, hi: int, j: nat, n: int)
    requires Tiles(bs, lo, hi) && j < |bs| && 16 <= n <= bs[j].size && n % 16 == 0
    ensures Tiles(Alloc(bs, j, n), lo, hi)
  {
    SplitTiles(bs[j], n);
    Replace(bs, lo, hi, j, j + 1, Split(bs[j], n));
  }

  lemma AllocKeeps(bs: seq<Block>, heapSize: int, j: nat, n: int)
    requires WellFormed(bs, heapSize) && j < |bs| && bs[j].free
    requires 16 <= n <= bs[j].size && n % 16 == 0
    ensures WellFormed(Alloc(bs, j, n), heapSize)
  {
    AllocTiles(bs, 0, heapSize, j, n);
    AllocApart(bs, true, j, n);
  }

  lemma GrowKeeps(bs: seq<Block>, heapSize: int)
    requires WellFormed(bs, heapSize)
    ensures WellFormed(Grow(bs, heapSize), heapSize + HEAP_SIZE)
  {
    var last := [Block(heapSize, HEAP_SIZE, true)];
    TilesConcat(bs, last, 0, heapSize, heapSize + HEAP_SIZE);
    ApartConcat(bs, last, true);
  }

  lemma {:induction false} Span(bs: seq<Block>, lo: int, hi: int, i: nat, j: nat)
    requires Tiles(bs, lo, hi) && i <= j < |bs|
    ensures bs[j].End() - bs[i].off >= 16 && (bs[j].End() - bs[i].off) % 16 == 0
    decreases j
  {
    if i < j { Span(bs, lo, hi, i, j - 1); }
  }

  lemma MergeTiles(bs: seq<Block>, lo: int, hi: int, i: nat, j: nat)
    requires Tiles(bs, lo, hi) && i <= j < |bs|
    ensures Tiles(Merge(bs, i, j), lo, hi)
  {
    Span(bs, lo, hi, i, j);
    Replace(bs, lo, hi, i, j + 1, [Block(bs[i].off, bs[j].End() - bs[i].off, true)]);
  }

  lemma MergeApart(bs: seq<Block>, seams: bool, lo: nat, hi: nat)
    requires Apart(bs, seams) && lo <= hi < |bs|
    requires lo > 0 && bs[lo - 1].free ==> seams && bs[lo].off % HEAP_SIZE == 0
    requires hi + 1 < |bs| && bs[hi + 1].free ==> seams && bs[hi + 1].off % HEAP_SIZE == 0
    ensures Apart(Merge(bs, lo, hi), seams)
  {
    ReplaceApart(bs, seams, lo, hi + 1, [Block(bs[lo].off, bs[hi].End() - bs[lo].off, true)]);
  }

  lemma FreeApart(bs: seq<Block>, seams: bool, j: nat)
    requires Apart(bs, seams) && j < |bs|
    ensures Apart(Free(bs, j), seams)
  {
    MergeApart(bs, seams, MergeFrom(bs, j), MergeTo(bs, j));
  }

  lemma FreeKeeps(bs: seq<Block>, heapSize: int, j: nat)
    requires WellFormed(bs, heapSize) && j < |bs|
    ensures WellFormed(Free(bs, j), heapSize)
  {
    MergeTiles(bs, 0, heapSize, MergeFrom(bs, j), MergeTo(bs, j));
    FreeApart(bs, true, j);
  }

  // Consequences of the invariant

  /** Blocks never overlap: an earlier block ends before a later one starts. */
  lemma {:induction false} Disjoint(bs: seq<Block>, lo: int, hi: int, i: nat, j: nat)
    requires Tiles(bs, lo, hi) && i < j < |bs|
    ensures bs[i].End() <= bs[j].off
    decreases j
  {
    if j > i + 1 { Disjoint(bs, lo, hi, i, j - 1); }
  }

  lemma InBounds(bs: seq<Block>, lo: int, hi: int, i: nat)
    requires Tiles(bs, lo, hi) && i < |bs|
    ensures lo <= bs[i].off && bs[i].End() <= hi
  {
    if i > 0 { Disjoint(bs, lo, hi, 0, i); }
    if i < |bs| - 1 { Disjoint(bs, lo, hi, i, |bs| - 1); }
  }

  /** Conservation: every byte of the heap is in a free or in a live block. */
  lemma {:induction false} NoByteLost(bs: seq<Block>, lo: int, hi: int)
    requires Tiles(bs, lo, hi)
    ensures Total(bs, true) + Total(bs, false) == hi - lo
  {
    if bs != [] { NoByteLost(bs[1..], bs[0].End(), hi); }
  }

  /** No block is free exactly if the live blocks fill the heap. */
  lemma {:induction false} NothingFree(bs: seq<Block>, lo: int, hi: int)
    requires Tiles(bs, lo, hi)
    ensures FreeList(bs) == [] <==> Total(bs, false) == hi - lo
    ensures Total(bs, false) <= hi - lo
  {
    if bs != [] { NothingFree(bs[1..], bs[0].End(), hi); }
  }

  lemma {:induction false} FreeListConcat(a: seq<Block>, b: seq<Block>)
    ensures FreeList(a + b) == FreeList(a) + FreeList(b)
  {
    if a == [] {
      assert a + b == b;
    } else {
      assert (a + b)[0] == a[0] && (a + b)[1..] == a[1..] + b;
      FreeListConcat(a[1..], b);
      var head := if a[0].free then [a[0]] else [];
      assert head + (FreeList(a[1..]) + FreeList(b)) == head + FreeList(a[1..]) + FreeList(b);
    }
  }

  /** The free list around block `j`. */
  lemma FreeListSplit(bs: seq<Block>, j: nat)
    requires j < |bs|
    ensures FreeList(bs) == FreeList(bs[..j]) + (if bs[j].free then [bs[j]] else []) + FreeList(bs[j + 1..])
    ensures FreeList(bs) == FreeList(bs[..j]) + FreeList(bs[j..])
  {
    assert bs == bs[..j] + bs[j..];
    FreeListConcat(bs[..j], bs[j..]);
  }

  /** The free list cut at block `j`. */
  lemma FreeListAt(bs: seq<Block>, j: nat)
    requires j <= |bs|
    ensures var a, f := FreeList(bs[..j]), FreeList(bs);
      |a| <= |f| && f[..|a|] == a && f[|a|..] == FreeList(bs[j..])
    ensures j < |bs| && bs[j].free ==> FreeList(bs[j..]) == [bs[j]] + FreeList(bs[j + 1..])
    ensures j < |bs| && !bs[j].free ==> FreeList(bs[j..]) == FreeList(bs[j + 1..])
  {
    assert bs == bs[..j] + bs[j..];
    FreeListConcat(bs[..j], bs[j..]);
    if j < |bs| { assert bs[j..][1..] == bs[j + 1..]; }
  }

  /** Free blocks and free-list entries correspond, in order. */
  lemma ListIndex(bs: seq<Block>, i: nat)
    requires i < |bs| && bs[i].free
    ensures var d := |FreeList(bs[..i])|; d < |FreeList(bs)| && FreeList(bs)[d] == bs[i]
  {
    FreeListAt(bs, i);
    var f, d := FreeList(bs), |FreeList(bs[..i])|;
    assert f[d..][0] == bs[i];
  }

  lemma ListIndexGrows(bs: seq<Block>, i: nat, j: nat)
    requires i < j < |bs| && bs[i].free
    ensures |FreeList(bs[..i])| < |FreeList(bs[..j])|
  {
    assert bs[..j][..i] == bs[..i];
    ListIndex(bs[..j], i);
  }

  /** Position among the blocks of entry `c` of the free list. */
  function Position(bs: seq<Block>, c: nat): (j: nat)
    requires c < |FreeList(bs)|
    ensures j < |bs| && bs[j] == FreeList(bs)[c] && bs[j].free
    ensures |FreeList(bs[..j])| == c
  {
    if bs[0].free && c == 0 then 0
    else
      var j := 1 + Position(bs[1..], if bs[0].free then c - 1 else c);
      assert bs[..j][1..] == bs[1..][..j - 1];
      j
  }

  /** The free list is strictly in address order. */
  lemma FreeListOrdered(bs: seq<Block>, lo: int, hi: int, c: nat, d: nat)
    requires Tiles(bs, lo, hi) && c < d < |FreeList(bs)|
    ensures FreeList(bs)[c].End() <= FreeList(bs)[d].off
  {
    var i, j := Position(bs, c), Position(bs, d);
    if i >= j {
      assert bs[..i] == bs[..j] + bs[j..i];
      FreeListConcat(bs[..j], bs[j..i]);
      assert false;
    }
    Disjoint(bs, lo, hi, i, j);
  }

  ghost predicate Ascending(f: seq<Block>) {
    (forall c :: 0 <= c < |f| ==> f[c].free && f[c].size >= 16) &&
    (forall c, d :: 0 <= c < d < |f| ==> f[c].End() <= f[d].off)
  }

  lemma FreeListAscends(bs: seq<Block>, lo: int, hi: int)
    requires Tiles(bs, lo, hi)
    ensures Ascending(FreeList(bs))
  {
    var f := FreeList(bs);
    forall c | 0 <= c < |f| ensures f[c].free && f[c].size >= 16 {
      var j := Position(bs, c);
      assert bs[j].size >= 16;
    }
    forall c, d | 0 <= c < d < |f| ensures f[c].End() <= f[d].off {
      FreeListOrdered(bs, lo, hi, c, d);
    }
  }
}
