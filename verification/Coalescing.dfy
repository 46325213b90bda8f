/** What coalescing promises: a coalesced free list is determined by the bytes
    it holds, so the order of frees does not matter and nothing fragments for good. */
module Coalescing {
  import opened HeapBlocks

  ghost predicate Holds(b: Block, x: int) { b.off <= x < b.End() }

  ghost predicate Covers(f: seq<Block>, x: int) {
    exists i :: 0 <= i < |f| && Holds(f[i], x)
  }

  /** Free blocks in address order with a gap between any two. */
  ghost predicate Gapped(f: seq<Block>) {
    (forall c :: 0 <= c < |f| ==> f[c].free && f[c].size > 0) &&
    (forall c, d :: 0 <= c < d < |f| ==> f[c].End() < f[d].off)
  }

  ghost predicate SameBytes(f: seq<Block>, g: seq<Block>) {
    forall x :: Covers(f, x) <==> Covers(g, x)
  }

  lemma FirstByte(f: seq<Block>)
    requires Gapped(f) && f != []
    ensures forall x :: f[0].off <= x < f[0].End() ==> Covers(f, x)
    ensures forall x :: x < f[0].off ==> !Covers(f, x)
    ensures !Covers(f, f[0].End())
  {
    assert forall x :: f[0].off <= x < f[0].End() ==> Holds(f[0], x);
  }

  lemma SameHead(f: seq<Block>, g: seq<Block>)
    requires Gapped(f) && Gapped(g) && SameBytes(f, g) && f != []
    ensures g != [] && f[0] == g[0]
  {
    FirstByte(f);
    assert Covers(f, f[0].off);
    assert Covers(g, f[0].off);
    FirstByte(g);
    assert Covers(g, g[0].off);
    assert Covers(f, g[0].off);
    assert f[0].off == g[0].off;
    assert f[0].End() == g[0].End() by {
      assert Covers(f, f[0].End()) <==> Covers(g, f[0].End());
      assert Covers(f, g[0].End()) <==> Covers(g, g[0].End());
    }
  }

  lemma TailBytes(f: seq<Block>, x: int)
    requires Gapped(f) && f != []
    ensures Covers(f[1..], x) <==> Covers(f, x) && !Holds(f[0], x)
  {
    if Covers(f[1..], x) {
      var i :| 0 <= i < |f[1..]| && Holds(f[1..][i], x);
      assert Holds(f[i + 1], x) && f[0].End() < f[i + 1].off;
    }
    if Covers(f, x) && !Holds(f[0], x) {
      var i :| 0 <= i < |f| && Holds(f[i], x);
      assert Holds(f[1..][i - 1], x);
    }
  }

  /** A gapped free list is determined by its bytes. */
  lemma {:induction false} BytesDetermineList(f: seq<Block>, g: seq<Block>)
    requires Gapped(f) && Gapped(g) && SameBytes(f, g)
    ensures f == g
  {
    if f == [] {
      if g != [] { SameHead(g, f); }
    } else {
      SameHead(f, g);
      forall x ensures Covers(f[1..], x) <==> Covers(g[1..], x) {
        TailBytes(f, x);
        TailBytes(g, x);
      }
      BytesDetermineList(f[1..], g[1..]);
      assert f == [f[0]] + f[1..] && g == [g[0]] + g[1..];
    }
  }

  lemma CoalescedIsGapped(bs: seq<Block>, lo: int, hi: int)
    requires Tiles(bs, lo, hi) && Coalesced(bs)
    ensures Gapped(FreeList(bs))
  {
    var f := FreeList(bs);
    FreeListAscends(bs, lo, hi);
    forall c, d | 0 <= c < d < |f| ensures f[c].End() < f[d].off {
      FreeListOrdered(bs, lo, hi, c, d);
      var i, j := Position(bs, c), Position(bs, d);
      if i == j { assert false; }
      if j < i { Disjoint(bs, lo, hi, j, i); }
      assert i < j;
      assert i + 1 < j by { assert !(bs[i].free && bs[i + 1].free); }
      Disjoint(bs, lo, hi, i + 1, j);
      assert bs[i + 1].size >= 16;
    }
  }

  /** Is byte `x` in a free block? */
  ghost predicate FreeByte(bs: seq<Block>, x: int) {
    exists i :: 0 <= i < |bs| && bs[i].free && Holds(bs[i], x)
  }

  lemma FreeListBytes(bs: seq<Block>, x: int)
    ensures Covers(FreeList(bs), x) <==> FreeByte(bs, x)
  {
    if Covers(FreeList(bs), x) {
      var c :| 0 <= c < |FreeList(bs)| && Holds(FreeList(bs)[c], x);
      assert Holds(bs[Position(bs, c)], x);
    }
    if FreeByte(bs, x) {
      var i :| 0 <= i < |bs| && bs[i].free && Holds(bs[i], x);
      ListIndex(bs, i);
      assert Holds(FreeList(bs)[|FreeList(bs[..i])|], x);
    }
  }

  lemma FreeByteConcat(a: seq<Block>, b: seq<Block>, x: int)
    ensures FreeByte(a + b, x) <==> FreeByte(a, x) || FreeByte(b, x)
  {
    if FreeByte(a, x) {
      var i :| 0 <= i < |a| && a[i].free && Holds(a[i], x);
      assert (a + b)[i] == a[i];
    }
    if FreeByte(b, x) {
      var i :| 0 <= i < |b| && b[i].free && Holds(b[i], x);
      assert (a + b)[|a| + i] == b[i];
    }
  }

  lemma FreeByteOne(b: Block, x: int)
    ensures FreeByte([b], x) <==> b.free && Holds(b, x)
  {
    if b.free && Holds(b, x) { assert [b][0].free && Holds([b][0], x); }
  }

  lemma {:induction false} SpanBytes(bs: seq<Block>, lo: int, hi: int, i: nat, j: nat, x: int)
    requires Tiles(bs, lo, hi) && i <= j < |bs|
    ensures bs[i].off <= x < bs[j].End() <==> exists k :: i <= k <= j && Holds(bs[k], x)
    decreases j - i
  {
    InBounds(bs, lo, hi, i);
    if i < j {
      SpanBytes(bs, lo, hi, i, j - 1, x);
      assert bs[j].size >= 16 && bs[j - 1].End() == bs[j].off;
      Span(bs, lo, hi, i, j - 1);
      if Holds(bs[j], x) { assert i <= j <= j; }
    } else {
      assert Holds(bs[i], x) <==> bs[i].off <= x < bs[i].End();
    }
  }

  lemma FreeBytesCut(bs: seq<Block>, i: nat, j: nat, x: int)
    requires i <= j <= |bs|
    ensures FreeByte(bs, x) <==> FreeByte(bs[..i], x) || FreeByte(bs[i..j], x) || FreeByte(bs[j..], x)
  {
    assert bs == bs[..i] + bs[i..j] + bs[j..];
    FreeByteConcat(bs[..i] + bs[i..j], bs[j..], x);
    FreeByteConcat(bs[..i], bs[i..j], x);
  }

  /** The bytes of a stretch of blocks that are all free but for block `j`. */
  lemma SegmentBytes(bs: seq<Block>, lo: int, hi: int, from: nat, to: nat, j: nat, x: int)
    requires Tiles(bs, lo, hi) && from <= j <= to < |bs|
    requires forall i :: from <= i <= to && i != j ==> bs[i].free
    ensures bs[from].off <= x < bs[to].End() <==> FreeByte(bs[from..to + 1], x) || Holds(bs[j], x)
  {
    SpanBytes(bs, lo, hi, from, to, x);
    var seg := bs[from..to + 1];
    forall k | from <= k <= to ensures seg[k - from] == bs[k] {}
    if FreeByte(seg, x) {
      var i :| 0 <= i < |seg| && seg[i].free && Holds(seg[i], x);
      assert from <= from + i <= to && Holds(bs[from + i], x);
    }
    if bs[from].off <= x < bs[to].End() {
      var k :| from <= k <= to && Holds(bs[k], x);
      assert Holds(seg[k - from], x);
    }
  }

  /** Freeing block `j` adds exactly its bytes. */
  lemma FreeAddsBytes(bs: seq<Block>, lo: int, hi: int, j: nat, x: int)
    requires Tiles(bs, lo, hi) && j < |bs|
    ensures FreeByte(Free(bs, j), x) <==> FreeByte(bs, x) || Holds(bs[j], x)
  {
    var from, to := MergeFrom(bs, j), MergeTo(bs, j);
    var m := Block(bs[from].off, bs[to].End() - bs[from].off, true);
    FreeBytesCut(bs, from, to + 1, x);
    SegmentBytes(bs, lo, hi, from, to, j, x);
    FreeByteConcat(bs[..from] + [m], bs[to + 1..], x);
    FreeByteConcat(bs[..from], [m], x);
    FreeByteOne(m, x);
  }
}
