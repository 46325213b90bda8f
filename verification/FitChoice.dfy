/** Request sizes, and which free block a request takes. */
module FitChoice {
  import opened HeapBlocks
  import opened FreeListHeap

  const TWO64 := 0x1_0000_0000_0000_0000

  /** 64-bit `(n + 15) & ~15`. */
  function RoundUp(n: nat): nat { (n + 15) % TWO64 / 16 * 16 }

  /** Size of the block for a request, header included. */
  function Needed(n: nat): nat { (HEADER_SIZE + RoundUp(n)) % TWO64 }

  /** A 64-bit request whose size with the header does not wrap around to 0. */
  predicate Sized(n: nat) { n < TWO64 && Needed(n) != 0 }

  /** Rounding up and adding the header are exact unless they wrap around; what
      wraps around beyond 0 leaves just a header. */
  lemma NeededIsEnough(n: nat)
    requires n < TWO64
    ensures Needed(n) % 16 == 0
    ensures RoundUp(n) >= n <==> n <= TWO64 - 16
    ensures Needed(n) >= n + HEADER_SIZE <==> n <= TWO64 - 32
    ensures n <= TWO64 - 32 ==> Needed(n) < n + HEADER_SIZE + 16
    ensures Sized(n) <==> n <= TWO64 - 32 || n > TWO64 - 16
    ensures n > TWO64 - 16 ==> Needed(n) == HEADER_SIZE
  {
  }

  lemma NeededHolds(n: nat)
    requires Sized(n)
    ensures Needed(n) >= HEADER_SIZE && Needed(n) % 16 == 0
  {
  }

  datatype Strategy = BestFit | FirstFit | WorstFit

  ghost predicate Fits(b: Block, need: int) { b.free && b.size >= need }

  /** Block `j` is the one `strategy` takes: the first of the smallest, the
      lowest, or the first of the largest of those that fit. */
  ghost predicate Chosen(strategy: Strategy, bs: seq<Block>, need: int, j: nat) {
    j < |bs| && Fits(bs[j], need) &&
    forall i :: 0 <= i < |bs| && i != j && Fits(bs[i], need) ==> Beats(strategy, bs[j], bs[i], j < i)
  }

  /** `b` is preferred to `c`; `earlier` tells whether `b` comes first. */
  ghost predicate Beats(strategy: Strategy, b: Block, c: Block, earlier: bool) {
    match strategy
    case BestFit => b.size < c.size || (b.size == c.size && earlier)
    case FirstFit => earlier
    case WorstFit => b.size > c.size || (b.size == c.size && earlier)
  }

  /** What a strategy takes: of the free blocks large enough, best fit the smallest,
      worst fit the largest, first fit the lowest; of equal sizes the lowest. */
  ghost predicate Extreme(strategy: Strategy, bs: seq<Block>, need: int, b: Block) {
    b in bs && b.free && b.size >= need &&
    forall c :: c in bs && c.free && c.size >= need ==>
      match strategy
      case BestFit => b.size < c.size || (b.size == c.size && b.off <= c.off)
      case FirstFit => b.off <= c.off
      case WorstFit => b.size > c.size || (b.size == c.size && b.off <= c.off)
  }

  lemma ChosenIsExtreme(strategy: Strategy, bs: seq<Block>, hi: int, need: int, j: nat)
    requires Tiles(bs, 0, hi) && Chosen(strategy, bs, need, j)
    ensures Extreme(strategy, bs, need, bs[j])
  {
    forall i | 0 <= i < |bs| && bs[i].free && bs[i].size >= need && i != j
      ensures Beats(strategy, bs[j], bs[i], j < i) && (j < i <==> bs[j].off < bs[i].off)
    {
      assert Fits(bs[i], need);
      if j < i { Disjoint(bs, 0, hi, j, i); } else { Disjoint(bs, 0, hi, i, j); }
    }
  }

  /** There is never more than one chosen block. */
  lemma ChosenIsUnique(strategy: Strategy, bs: seq<Block>, need: int, i: nat, j: nat)
    requires Chosen(strategy, bs, need, i) && Chosen(strategy, bs, need, j)
    ensures i == j
  {
  }

  ghost predicate NoFit(bs: seq<Block>, need: int) {
    forall i :: 0 <= i < |bs| ==> !Fits(bs[i], need)
  }

  /** The same choice, on the first `upto` entries of the free list. */
  ghost predicate Picked(strategy: Strategy, f: seq<Block>, upto: nat, need: int, c: nat)
    requires upto <= |f|
  {
    c < upto && f[c].size >= need &&
    forall d :: 0 <= d < upto && d != c && f[d].size >= need ==> Beats(strategy, f[c], f[d], c < d)
  }

  ghost predicate NonePicked(f: seq<Block>, upto: nat, need: int)
    requires upto <= |f|
  {
    forall d :: 0 <= d < upto ==> f[d].size < need
  }

  /** Does the loop prefer `size` to the best size so far? */
  predicate Better(strategy: Strategy, size: int, best: int) {
    (strategy == BestFit && size < best) || (strategy == WorstFit && size > best)
  }

  /** One more entry looked at. */
  lemma PickStep(strategy: Strategy, f: seq<Block>, c: nat, need: int, best: nat)
    requires c < |f|
    ensures f[c].size < need && NonePicked(f, c, need) ==> NonePicked(f, c + 1, need)
    ensures f[c].size < need && Picked(strategy, f, c, need, best) ==> Picked(strategy, f, c + 1, need, best)
    ensures f[c].size >= need && NonePicked(f, c, need) ==> Picked(strategy, f, c + 1, need, c)
    ensures f[c].size >= need && Picked(strategy, f, c, need, best) ==>
      Picked(strategy, f, c + 1, need, if Better(strategy, f[c].size, f[best].size) then c else best)
    ensures strategy == FirstFit && Picked(strategy, f, c + 1, need, best) ==> Picked(strategy, f, |f|, need, best)
  {
  }

  lemma PickedIsChosen(strategy: Strategy, bs: seq<Block>, need: int, c: nat) returns (j: nat)
    requires Picked(strategy, FreeList(bs), |FreeList(bs)|, need, c)
    ensures Chosen(strategy, bs, need, j) && bs[j] == FreeList(bs)[c]
    ensures |FreeList(bs[..j])| == c
    ensures LinkBefore(bs, j) == if c == 0 then NULL else FreeList(bs)[c - 1].off
  {
    j := Position(bs, c);
    forall i | 0 <= i < |bs| && i != j && Fits(bs[i], need) ensures Beats(strategy, bs[j], bs[i], j < i) {
      ListIndex(bs, i);
      if i < j { ListIndexGrows(bs, i, j); } else { ListIndexGrows(bs, j, i); }
    }
    FreeListAt(bs, j);
    assert c > 0 ==> FreeList(bs)[..c][c - 1] == FreeList(bs)[c - 1];
  }

  lemma NonePickedIsNoFit(bs: seq<Block>, need: int)
    requires NonePicked(FreeList(bs), |FreeList(bs)|, need)
    ensures NoFit(bs, need)
  {
    forall i | 0 <= i < |bs| ensures !Fits(bs[i], need) {
      if bs[i].free { ListIndex(bs, i); }
    }
  }

  lemma SomeFit(strategy: Strategy, bs: seq<Block>, need: int, j: nat)
    requires Chosen(strategy, bs, need, j)
    ensures !NoFit(bs, need)
  {
    assert Fits(bs[j], need);
  }

  lemma {:induction false} PickExists(strategy: Strategy, f: seq<Block>, upto: nat, need: int) returns (found: bool, c: nat)
    requires upto <= |f|
    ensures if found then Picked(strategy, f, upto, need, c) else NonePicked(f, upto, need)
    decreases upto
  {
    found, c := false, 0;
    if upto > 0 {
      found, c := PickExists(strategy, f, upto - 1, need);
      PickStep(strategy, f, upto - 1, need, c);
      if f[upto - 1].size >= need && (!found || Better(strategy, f[upto - 1].size, f[c].size)) {
        found, c := true, upto - 1;
      }
    }
  }

  /** If some free block fits, one is chosen. */
  lemma ChosenExists(strategy: Strategy, bs: seq<Block>, need: int) returns (j: nat)
    requires !NoFit(bs, need)
    ensures Chosen(strategy, bs, need, j)
  {
    var found, c := PickExists(strategy, FreeList(bs), |FreeList(bs)|, need);
    if found {
      j := PickedIsChosen(strategy, bs, need, c);
    } else {
      NonePickedIsNoFit(bs, need);
    }
  }
}
