/** `allocHeap`: how much memory the system has really given, and what the
    account in the static `heapSize` believes.  A refused `sbrk` answers -1, which
    the test for NULL lets pass. */
module SystemMemory {
  import opened HeapBlocks

  /** The account is set to the new total, or the new total is added to it; the
      third version gets ten heaps at the start and asks for no more. */
  datatype Variant = Setting | Adding | Fixed

  /** `booked` is `heapSize`; `end` is where the memory obtained ends, from the
      heap start. */
  datatype Account = Account(booked: int, end: int)

  function Start(variant: Variant): Account {
    if variant.Fixed? then Account(10 * HEAP_SIZE, 10 * HEAP_SIZE) else Account(HEAP_SIZE, HEAP_SIZE)
  }

  /** Does a request for a heap of `size` bytes get an answer other than NULL? */
  predicate Answered(a: Account, size: int, variant: Variant) {
    variant.Fixed? ==> size <= a.booked
  }

  /** The account after a request for a heap of `size` bytes; `works` says whether
      `sbrk` moves the end of memory. */
  function Request(a: Account, size: int, variant: Variant, works: bool): Account {
    if variant.Fixed? then a
    else Account(if variant.Setting? then size else a.booked + size, if works then a.end + (size - a.booked) else a.end)
  }

  /** After growing by HEAP_SIZE once for each answer of `sbrk`. */
  function After(works: seq<bool>, variant: Variant): Account {
    if works == [] then Start(variant)
    else Request(After(works[..|works| - 1], variant), (|works| + 1) * HEAP_SIZE, variant, works[|works| - 1])
  }

  function Refused(works: seq<bool>): nat {
    if works == [] then 0 else Refused(works[..|works| - 1]) + if works[|works| - 1] then 0 else 1
  }

  lemma {:induction false} NoneRefused(works: seq<bool>)
    ensures Refused(works) == 0 <==> forall i :: 0 <= i < |works| ==> works[i]
  {
    if works != [] { NoneRefused(works[..|works| - 1]); }
  }

  /** Setting the account: memory falls short by one heap for each refusal. */
  lemma {:induction false} SettingFallsShort(works: seq<bool>)
    ensures var heap := (|works| + 1) * HEAP_SIZE;
      After(works, Setting) == Account(heap, heap - Refused(works) * HEAP_SIZE)
  {
    if works != [] { SettingFallsShort(works[..|works| - 1]); }
  }

  /** So the memory covers the heap exactly if no request was refused. */
  lemma SettingCovers(works: seq<bool>)
    ensures After(works, Setting).end >= (|works| + 1) * HEAP_SIZE <==> forall i :: 0 <= i < |works| ==> works[i]
  {
    SettingFallsShort(works);
    NoneRefused(works);
  }

  /** Twice the heaps by which the end of memory moves: answer `c`, if it worked,
      moves it by the `c + 2` heaps asked for less the `(c + 1) * (c + 2) / 2` booked. */
  function Moved(works: seq<bool>): int {
    if works == [] then 0
    else
      var c := |works| - 1;
      Moved(works[..c]) + if works[c] then 2 * (c + 2) - (c + 1) * (c + 2) else 0
  }

  /** Adding to the account: after `n` answers it holds the sum 1 + 2 + ... + (n + 1)
      of heaps, and the end of memory has moved accordingly, even backwards. */
  lemma {:induction false} AddingSums(works: seq<bool>)
    ensures var (a, n) := (After(works, Adding), |works|);
      2 * a.booked == (n + 1) * (n + 2) * HEAP_SIZE && 2 * a.end == (2 + Moved(works)) * HEAP_SIZE
  {
    if works != [] {
      AddingSums(works[..|works| - 1]);
      NextSum(|works|);
    }
  }

  lemma NextSum(n: nat)
    ensures (n + 1) * (n + 2) == n * (n + 1) + 2 * (n + 1)
  {
  }

  lemma {:induction false} AddingOverbooks(works: seq<bool>)
    requires |works| >= 1
    ensures After(works, Adding).booked >= (|works| + 2) * HEAP_SIZE
    ensures After(works, Adding).end <= if |works| == 1 && !works[0] then HEAP_SIZE else 2 * HEAP_SIZE
  {
    var before := works[..|works| - 1];
    if |works| == 1 {
      assert After(before, Adding) == Account(HEAP_SIZE, HEAP_SIZE);
    } else {
      AddingOverbooks(before);
    }
  }

  /** Adding to the account: the memory covers the heap exactly before the first
      growth, and after it if that one was not refused; never after the second. */
  lemma AddingCovers(works: seq<bool>)
    ensures After(works, Adding).end >= (|works| + 1) * HEAP_SIZE <==> works == [] || works == [true]
  {
    if |works| == 1 {
      assert After(works[..0], Adding) == Account(HEAP_SIZE, HEAP_SIZE);
      assert works == [works[0]];
    } else if |works| > 1 {
      AddingOverbooks(works);
    }
  }

  /** The memory obtained from the system, behind `allocHeap`. */
  class System {
    const variant: Variant
    var account: Account

    constructor (variant: Variant)
      ensures this.variant == variant && account == Start(variant)
    {
      this.variant := variant;
      account := Start(variant);
    }

    /** `allocHeap` for a heap of `size` bytes; `works` is what becomes of `sbrk`. */
    method AllocHeap(size: int, works: bool) returns (ok: bool)
      modifies this
      ensures ok == Answered(old(account), size, variant)
      ensures account == Request(old(account), size, variant, works)
    {
      if variant == Fixed { return size <= account.booked; }
      if works { account := account.(end := account.end + (size - account.booked)); }
      account := account.(booked := if variant == Setting then size else account.booked + size);
      ok := true;
    }
  }
}
