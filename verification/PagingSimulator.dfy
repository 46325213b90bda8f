/** The simulation loop: `memory`, `ref`, `hits` and `miss` updated reference by
    reference, for all seven policies. */
module PagingSimulator {
  import opened DemandPaging
  import opened PagingPolicy
  import opened MemoryOrder

  /** Absolute position of the next reference to `page` at or after `start`, or
      the length of the list. */
  method WhenReferenced(page: Page, addrList: seq<Page>, start: nat) returns (when: nat)
    requires start <= |addrList|
    ensures when == start + NextUse(page, addrList[start..])
  {
    when := start;
    while when < |addrList|
      invariant start <= when <= |addrList|
      invariant start + NextUse(page, addrList[start..]) == when + NextUse(page, addrList[when..])
    {
      if addrList[when] == page { return; }
      assert addrList[when..][1..] == addrList[when + 1..];
      when := when + 1;
    }
  }

  /** OPT's scan: the last page with the greatest next reference. */
  method OptVictim(memory: seq<Page>, addrList: seq<Page>, addrIndex: nat) returns (replaceIdx: int)
    requires memory != [] && addrIndex < |addrList|
    ensures 0 <= replaceIdx < |memory|
    ensures IsFarthest(memory, addrList[addrIndex + 1..], |memory|, replaceIdx)
  {
    ghost var future := addrList[addrIndex + 1..];
    var maxReplace: int := -1;
    replaceIdx := -1;
    for pageIndex := 0 to |memory|
      invariant pageIndex == 0 ==> maxReplace == -1
      invariant pageIndex > 0 ==> 0 <= replaceIdx < pageIndex
      invariant pageIndex > 0 ==> IsFarthest(memory, future, pageIndex, replaceIdx)
      invariant pageIndex > 0 ==> maxReplace == addrIndex + 1 + NextUse(memory[replaceIdx], future)
    {
      var whenReferenced := WhenReferenced(memory[pageIndex], addrList, addrIndex + 1);
      if whenReferenced >= maxReplace {
        replaceIdx := pageIndex;
        maxReplace := whenReferenced;
      }
    }
  }

  /** UNOPT's scan: the first page with the least next reference. */
  method UnoptVictim(memory: seq<Page>, addrList: seq<Page>, addrIndex: nat) returns (replaceIdx: int)
    requires memory != [] && addrIndex < |addrList|
    ensures 0 <= replaceIdx < |memory|
    ensures IsNearest(memory, addrList[addrIndex + 1..], |memory|, replaceIdx)
  {
    ghost var future := addrList[addrIndex + 1..];
    var minReplace := |addrList| + 1;
    replaceIdx := -1;
    for pageIndex := 0 to |memory|
      invariant pageIndex == 0 ==> minReplace == |addrList| + 1
      invariant pageIndex > 0 ==> 0 <= replaceIdx < pageIndex
      invariant pageIndex > 0 ==> IsNearest(memory, future, pageIndex, replaceIdx)
      invariant pageIndex > 0 ==> minReplace == addrIndex + 1 + NextUse(memory[replaceIdx], future)
    {
      var whenReferenced := WhenReferenced(memory[pageIndex], addrList, addrIndex + 1);
      NextUseIsFirst(memory[pageIndex], future);
      if whenReferenced < minReplace {
        replaceIdx := pageIndex;
        minReplace := whenReferenced;
      }
    }
  }

  lemma FarthestIsUnique(m: seq<Page>, future: seq<Page>, i: nat)
    requires m != [] && IsFarthest(m, future, |m|, i)
    ensures i == Farthest(m, future, |m|)
  {
    var j := Farthest(m, future, |m|);
    assert NextUse(m[i], future) == NextUse(m[j], future);
  }

  lemma NearestIsUnique(m: seq<Page>, future: seq<Page>, i: nat)
    requires m != [] && IsNearest(m, future, |m|, i)
    ensures i == Nearest(m, future, |m|)
  {
    var j := Nearest(m, future, |m|);
    assert NextUse(m[i], future) == NextUse(m[j], future);
  }

  /** Reference counts left on the pages of `m`. */
  ghost function SumRefs(m: seq<Page>, ref: map<Page, int>): nat
    requires Pages(m) <= ref.Keys
  {
    if m == [] then 0
    else
      assert m[0] in Pages(m) && Pages(m[1..]) <= Pages(m);
      (if ref[m[0]] >= 1 then ref[m[0]] else 0) + SumRefs(m[1..], ref)
  }

  lemma {:induction false} SumRefsFrame(m: seq<Page>, ref: map<Page, int>, p: Page, c: int)
    requires Pages(m) <= ref.Keys && p !in m
    ensures SumRefs(m, ref[p := c]) == SumRefs(m, ref)
  {
    if m != [] {
      assert m[0] in Pages(m) && Pages(m[1..]) <= Pages(m);
      SumRefsFrame(m[1..], ref, p, c);
    }
  }

  lemma {:induction false} SumRefsDrop(m: seq<Page>, ref: map<Page, int>, i: nat)
    requires Distinct(m) && Pages(m) <= ref.Keys && i < |m|
    requires m[i] in ref && ref[m[i]] >= 1
    ensures SumRefs(m, ref[m[i] := ref[m[i]] - 1]) + 1 == SumRefs(m, ref)
  {
    assert m[0] in Pages(m) && Pages(m[1..]) <= Pages(m);
    if i == 0 {
      SumRefsFrame(m[1..], ref, m[0], ref[m[0]] - 1);
    } else {
      SumRefsDrop(m[1..], ref, i - 1);
    }
  }

  lemma {:induction false} SumRefsBound(m: seq<Page>, ref: map<Page, int>, bound: nat)
    requires Pages(m) <= ref.Keys && forall p :: p in ref ==> ref[p] <= bound
    ensures SumRefs(m, ref) <= |m| * bound
  {
    if m != [] {
      assert m[0] in Pages(m) && Pages(m[1..]) <= Pages(m);
      SumRefsBound(m[1..], ref, bound);
      assert |m| * bound == |m[1..]| * bound + bound;
    }
  }

  lemma {:induction false} SumRefsForget(m: seq<Page>, ref: map<Page, int>, p: Page)
    requires Pages(m) <= ref.Keys && p !in m
    ensures Pages(m) <= (ref - {p}).Keys && SumRefs(m, ref - {p}) == SumRefs(m, ref)
  {
    if m != [] {
      assert m[0] in Pages(m) && Pages(m[1..]) <= Pages(m);
      SumRefsForget(m[1..], ref, p);
    }
  }

  /** Dropping a page whose count is used up drops no count. */
  lemma {:induction false} SumRefsRemove(m: seq<Page>, ref: map<Page, int>, i: nat)
    requires Distinct(m) && Pages(m) <= ref.Keys && i < |m|
    requires m[i] in ref && ref[m[i]] < 1
    ensures Pages(RemoveAt(m, i)) <= (ref - {m[i]}).Keys
    ensures SumRefs(RemoveAt(m, i), ref - {m[i]}) == SumRefs(m, ref)
  {
    RemoveAtPages(m, i);
    assert m[0] in Pages(m) && Pages(m[1..]) <= Pages(m);
    if i == 0 {
      assert RemoveAt(m, i) == m[1..];
      SumRefsForget(m[1..], ref, m[0]);
    } else {
      SumRefsRemove(m[1..], ref, i - 1);
      assert RemoveAt(m, i)[0] == m[0] && RemoveAt(m, i)[1..] == RemoveAt(m[1..], i - 1);
    }
  }

  lemma {:induction false} SumRefsAppend(m: seq<Page>, ref: map<Page, int>, n: Page, c: int)
    requires Pages(m) <= ref.Keys && n !in m
    ensures Pages(m + [n]) <= ref[n := c].Keys
    ensures SumRefs(m + [n], ref[n := c]) == SumRefs(m, ref) + if c >= 1 then c else 0
  {
    if m == [] {
      assert [n][1..] == [];
    } else {
      assert m[0] in Pages(m) && Pages(m[1..]) <= Pages(m);
      assert (m + [n])[0] == m[0] && (m + [n])[1..] == m[1..] + [n];
      SumRefsAppend(m[1..], ref, n, c);
    }
  }

  lemma {:induction false} SumRefsRaise(m: seq<Page>, ref: map<Page, int>, n: Page, c: int)
    requires Distinct(m) && Pages(m) <= ref.Keys && n in m && n in ref && c <= ref[n] + 1
    ensures Pages(m) <= ref[n := c].Keys && SumRefs(m, ref[n := c]) <= SumRefs(m, ref) + 1
  {
    assert m[0] in Pages(m) && Pages(m[1..]) <= Pages(m);
    if m[0] == n {
      SumRefsFrame(m[1..], ref, n, c);
    } else {
      SumRefsRaise(m[1..], ref, n, c);
    }
  }

  /** A random position among `n`; which one is arbitrary. */
  function Draw(r: nat, n: nat): (i: nat)
    requires n > 0
    ensures i < n
  {
    if r < n then r else n - 1
  }

  /** How many of the first `j` random numbers pick page `p`. */
  ghost function PicksOf(m: seq<Page>, pick: nat -> nat, p: Page, j: nat): nat
    requires m != []
  {
    if j == 0 then 0 else PicksOf(m, pick, p, j - 1) + if m[Draw(pick(j - 1), |m|)] == p then 1 else 0
  }

  /** Page `p` has been picked before as often as it has counts. */
  ghost predicate UsedUp(m: seq<Page>, ref: map<Page, int>, pick: nat -> nat, p: Page, j: nat)
    requires m != []
  {
    p in ref && ref[p] <= PicksOf(m, pick, p, j)
  }

  /** The first `j` picks were of pages with counts left. */
  ghost predicate NoneUsedUp(m: seq<Page>, ref: map<Page, int>, pick: nat -> nat, j: nat)
    requires m != []
  {
    forall c: nat :: c < j ==> PicksCount(m, ref, pick, c)
  }

  /** Pick `c` uses up a count. */
  ghost predicate PicksCount(m: seq<Page>, ref: map<Page, int>, pick: nat -> nat, c: nat)
    requires m != []
  {
    !UsedUp(m, ref, pick, m[Draw(pick(c), |m|)], c)
  }

  /** Every page has lost a count for each of the first `j` picks of it. */
  ghost predicate CountsLeft(m: seq<Page>, ref0: map<Page, int>, ref: map<Page, int>, pick: nat -> nat, j: nat)
    requires m != []
  {
    forall p :: p in ref ==> p in ref0 && ref[p] == ref0[p] - PicksOf(m, pick, p, j)
  }

  /** The victim is the first pick whose counts are used up; the counts left are
      those not used up by the picks before. */
  ghost predicate ScanEnds(m: seq<Page>, ref0: map<Page, int>, ref: map<Page, int>, pick: nat -> nat, victim: nat, picks: nat)
    requires m != []
  {
    picks >= 1 && victim == Draw(pick(picks - 1), |m|) && UsedUp(m, ref0, pick, m[victim], picks - 1)
    && NoneUsedUp(m, ref0, pick, picks - 1) && CountsLeft(m, ref0, ref, pick, picks - 1)
  }

  /** The same, with the pages left: the picks have used up just the counts gone. */
  ghost predicate Scanned(m: seq<Page>, ref0: map<Page, int>, ref: map<Page, int>, pick: nat -> nat, victim: nat, picks: nat) {
    victim < |m| && Pages(m) <= ref0.Keys && ScanEnds(m, ref0, ref, pick, victim, picks)
    && ref.Keys == Pages(RemoveAt(m, victim)) && picks + SumRefs(RemoveAt(m, victim), ref) == SumRefs(m, ref0) + 1
  }

  /** After `j` picks, none of them the victim. */
  ghost predicate Scanning(m: seq<Page>, ref0: map<Page, int>, ref: map<Page, int>, pick: nat -> nat, j: nat) {
    m != [] && Distinct(m) && ref0.Keys == Pages(m) && ref.Keys == Pages(m)
    && CountsLeft(m, ref0, ref, pick, j) && NoneUsedUp(m, ref0, pick, j) && j + SumRefs(m, ref) == SumRefs(m, ref0)
  }

  lemma PickCounts(m: seq<Page>, ref0: map<Page, int>, ref: map<Page, int>, pick: nat -> nat, p: Page, j: nat)
    requires m != [] && p == m[Draw(pick(j), |m|)] && p in ref && ref[p] >= 1 && CountsLeft(m, ref0, ref, pick, j)
    ensures CountsLeft(m, ref0, ref[p := ref[p] - 1], pick, j + 1) && !UsedUp(m, ref0, pick, p, j)
  {
  }

  lemma OneMorePick(m: seq<Page>, ref0: map<Page, int>, pick: nat -> nat, j: nat)
    requires m != [] && NoneUsedUp(m, ref0, pick, j) && !UsedUp(m, ref0, pick, m[Draw(pick(j), |m|)], j)
    ensures NoneUsedUp(m, ref0, pick, j + 1)
  {
  }

  lemma ScanStarts(m: seq<Page>, ref0: map<Page, int>, pick: nat -> nat)
    requires m != [] && Distinct(m) && ref0.Keys == Pages(m)
    ensures Scanning(m, ref0, ref0, pick, 0)
  {
  }

  lemma PickIsResident(m: seq<Page>, ref0: map<Page, int>, ref: map<Page, int>, pick: nat -> nat, j: nat)
    requires Scanning(m, ref0, ref, pick, j)
    ensures m[Draw(pick(j), |m|)] in ref
  {
    assert m[Draw(pick(j), |m|)] in Pages(m);
  }

  lemma ScanGoesOn(m: seq<Page>, ref0: map<Page, int>, ref: map<Page, int>, pick: nat -> nat, j: nat, p: Page)
    requires Scanning(m, ref0, ref, pick, j) && p == m[Draw(pick(j), |m|)] && p in ref && ref[p] >= 1
    ensures Scanning(m, ref0, ref[p := ref[p] - 1], pick, j + 1)
    ensures SumRefs(m, ref[p := ref[p] - 1]) < SumRefs(m, ref)
  {
    PickCounts(m, ref0, ref, pick, p, j);
    OneMorePick(m, ref0, pick, j);
    SumRefsDrop(m, ref, Draw(pick(j), |m|));
  }

  lemma ScanStops(m: seq<Page>, ref0: map<Page, int>, ref: map<Page, int>, pick: nat -> nat, j: nat, victim: nat)
    requires Scanning(m, ref0, ref, pick, j) && victim == Draw(pick(j), |m|) && m[victim] in ref && ref[m[victim]] < 1
    ensures Scanned(m, ref0, ref - {m[victim]}, pick, victim, j + 1)
  {
    assert UsedUp(m, ref0, pick, m[victim], j);
    RemoveAtPages(m, victim);
    SumRefsRemove(m, ref, victim);
  }

  /** CLOCK's scan, with the random numbers `pick`.  A pick that is no victim uses
      up one reference count; the victim is the first whose count is used up, found
      after at most one pick more than there are counts on resident pages. */
  method ClockVictim(memory: seq<Page>, ref0: map<Page, int>, pick: nat -> nat)
    returns (victim: nat, ref: map<Page, int>, ghost picks: nat)
    requires memory != [] && Distinct(memory) && ref0.Keys == Pages(memory)
    ensures Scanned(memory, ref0, ref, pick, victim, picks)
  {
    ref := ref0;
    var j := 0;
    ScanStarts(memory, ref, pick);
    PickIsResident(memory, ref0, ref, pick, j);
    victim := Draw(pick(0), |memory|);
    while ref[memory[victim]] >= 1
      invariant victim == Draw(pick(j), |memory|) && memory[victim] in ref && Scanning(memory, ref0, ref, pick, j)
      decreases SumRefs(memory, ref)
    {
      ScanGoesOn(memory, ref0, ref, pick, j, memory[victim]);
      ref := ref[memory[victim] := ref[memory[victim]] - 1];
      j := j + 1;
      PickIsResident(memory, ref0, ref, pick, j);
      victim := Draw(pick(j), |memory|);
    }
    ScanStops(memory, ref0, ref, pick, j, victim);
    picks := j + 1;
    ref := ref - {memory[victim]};
  }

  /** The greatest reference count CLOCK lets a page carry. */
  function RefCap(clockbits: int): nat { if clockbits > 1 then clockbits else 1 }

  /** The reference count of `n` goes up by one, to `clockbits` at most; a page
      seen for the first time starts at one whatever the cap. */
  function CountAfter(ref: map<Page, int>, n: Page, clockbits: int): int {
    if n !in ref then 1 else if ref[n] + 1 > clockbits then clockbits else ref[n] + 1
  }

  /** A count of `c` references under the cap. */
  function Capped(c: nat, clockbits: int): int { if c <= 1 then c else if c > clockbits then clockbits else c }

  /** Every page carries the number of its references among `h`, capped. */
  ghost predicate CountsUses(ref: map<Page, int>, h: seq<Page>, clockbits: int) {
    (forall p :: p in ref <==> p in h) && forall p :: p in ref ==> ref[p] == Capped(multiset(h)[p], clockbits)
  }

  lemma OneMoreCounted(ref: map<Page, int>, h: seq<Page>, n: Page, clockbits: int)
    requires CountsUses(ref, h, clockbits)
    ensures CountsUses(ref[n := CountAfter(ref, n, clockbits)], h + [n], clockbits)
  {
    var ref' := ref[n := CountAfter(ref, n, clockbits)];
    forall p | p in ref' ensures ref'[p] == Capped(multiset(h + [n])[p], clockbits) {
      assert multiset(h + [n])[p] == multiset(h)[p] + if p == n then 1 else 0;
      assert n in ref <==> multiset(h)[n] > 0;
    }
  }

  method Touch(ref0: map<Page, int>, n: Page, clockbits: int) returns (ref: map<Page, int>)
    ensures ref == ref0[n := CountAfter(ref0, n, clockbits)]
  {
    if n !in ref0 {
      ref := ref0[n := 1];
    } else {
      ref := ref0[n := ref0[n] + 1];
      if ref[n] > clockbits { ref := ref[n := clockbits]; }
    }
  }

  /** Position given up by `policy` in a full memory. */
  method Evict(policy: Policy, memory: seq<Page>, ref0: map<Page, int>, addrList: seq<Page>, addrIndex: nat, pick: nat -> nat)
    returns (victim: nat, ref: map<Page, int>, ghost picks: nat)
    requires memory != [] && Distinct(memory) && addrIndex < |addrList|
    requires policy == CLOCK ==> ref0.Keys == Pages(memory)
    ensures victim < |memory|
    ensures policy.Fixed() ==> victim == VictimIndex(policy, memory, addrList[addrIndex + 1..])
    ensures policy == RAND ==> victim == Draw(pick(0), |memory|)
    ensures if policy == CLOCK then Scanned(memory, ref0, ref, pick, victim, picks) else ref == ref0 && picks == 0
  {
    ref, picks := ref0, 0;
    match policy {
      case FIFO => victim := 0;
      case LRU => victim := 0;
      case MRU => victim := |memory| - 1;
      case RAND => victim := Draw(pick(0), |memory|);
      case CLOCK => victim, ref, picks := ClockVictim(memory, ref0, pick);
      case OPT =>
        victim := OptVictim(memory, addrList, addrIndex);
        FarthestIsUnique(memory, addrList[addrIndex + 1..], victim);
      case UNOPT =>
        victim := UnoptVictim(memory, addrList, addrIndex);
        NearestIsUnique(memory, addrList[addrIndex + 1..], victim);
    }
  }

  /** The counts after a reference to `n`, with `picks` picks if CLOCK had to scan. */
  ghost predicate RefsMove(policy: Policy, k: nat, m: seq<Page>, ref: map<Page, int>, n: Page, clockbits: int, pick: nat -> nat,
                           victim: nat, ref': map<Page, int>, picks: nat) {
    if policy == CLOCK && n !in m && |m| == k then
      n in ref' && ref'[n] == 1 && Scanned(m, ref, ref' - {n}, pick, victim, picks)
    else
      ref' == ref[n := CountAfter(ref, n, clockbits)] && picks == 0
  }

  /** One turn of the loop: lookup, replacement, reference count. */
  method Access(policy: Policy, cachesize: nat, memory0: seq<Page>, ref0: map<Page, int>, clockbits: int,
                addrList: seq<Page>, addrIndex: nat, pick: nat -> nat)
    returns (memory: seq<Page>, ref: map<Page, int>, hit: bool, victim: nat, ghost picks: nat)
    requires cachesize >= 1 && Holds(cachesize, memory0) && addrIndex < |addrList|
    requires policy == CLOCK ==> ref0.Keys == Pages(memory0)
    ensures var n := addrList[addrIndex];
      hit == (n in memory0)
      && (!hit && |memory0| == cachesize ==> victim < |memory0|)
      && memory == StepAt(policy, cachesize, memory0, n, victim)
    ensures !hit && |memory0| == cachesize && policy.Fixed() ==>
      victim == VictimIndex(policy, memory0, addrList[addrIndex + 1..])
    ensures !hit && |memory0| == cachesize && policy == RAND ==> victim == Draw(pick(0), |memory0|)
    ensures RefsMove(policy, cachesize, memory0, ref0, addrList[addrIndex], clockbits, pick, victim, ref, picks)
  {
    var n := addrList[addrIndex];
    memory, ref, hit, victim, picks := memory0, ref0, n in memory0, 0, 0;
    if hit {
      if policy == LRU || policy == MRU {
        memory := RemoveAt(memory, IndexOf(memory, n)) + [n];
      }
    } else {
      if |memory| == cachesize {
        victim, ref, picks := Evict(policy, memory, ref, addrList, addrIndex, pick);
        memory := RemoveAt(memory, victim);
        assert policy == CLOCK ==> n !in Pages(memory);
      }
      memory := memory + [n];
    }
    ghost var left := ref;
    ref := Touch(ref, n, clockbits);
    assert n !in left ==> ref - {n} == left;
  }

  /** What that means for the counts. */
  lemma RefsMoveFits(policy: Policy, k: nat, m: seq<Page>, ref: map<Page, int>, n: Page, clockbits: int, pick: nat -> nat,
                     victim: nat, ref': map<Page, int>, picks: nat)
    requires k >= 1 && Holds(k, m) && RefsFit(policy, m, ref, clockbits)
    requires n !in m && |m| == k ==> victim < |m|
    requires RefsMove(policy, k, m, ref, n, clockbits, pick, victim, ref', picks)
    ensures RefsFit(policy, StepAt(policy, k, m, n, victim), ref', clockbits)
    ensures picks <= 1 + k * RefCap(clockbits)
    ensures policy == CLOCK ==> PicksArePaid(m, ref, StepAt(policy, k, m, n, victim), ref', picks, if n in m then 0 else 1)
  {
    if policy == CLOCK {
      if n in m {
        assert n in Pages(m);
        HitPays(m, ref, n, clockbits);
      } else if |m| == k {
        ScanPays(k, m, ref, n, clockbits, pick, victim, ref', picks);
      } else {
        MissPays(m, ref, m, ref, n, 0, clockbits);
        AppendPages(m, n);
      }
    }
  }

  lemma ScanPays(k: nat, m: seq<Page>, ref: map<Page, int>, n: Page, clockbits: int, pick: nat -> nat,
                 victim: nat, ref': map<Page, int>, picks: nat)
    requires Holds(k, m) && |m| == k && n !in m && RefsFit(CLOCK, m, ref, clockbits)
    requires n in ref' && ref'[n] == 1 && Scanned(m, ref, ref' - {n}, pick, victim, picks)
    ensures PicksArePaid(m, ref, RemoveAt(m, victim) + [n], ref', picks, 1)
    ensures picks <= 1 + k * RefCap(clockbits)
    ensures RefsFit(CLOCK, RemoveAt(m, victim) + [n], ref', clockbits)
  {
    var left, m1 := ref' - {n}, RemoveAt(m, victim);
    RemoveAtPages(m, victim);
    assert n !in Pages(m) && ref' == left[n := 1];
    AppendPages(m1, n);
    MissPays(m, ref, m1, left, n, picks, clockbits);
    SumRefsBound(m, ref, RefCap(clockbits));
    forall p | p in ref' ensures ref'[p] <= RefCap(clockbits) {
      if p != n { assert p in left && left[p] <= ref[p]; }
    }
  }

  /** Picks are paid for by the counts they use up, one by the miss, and the
      reference adds at most one count. */
  ghost predicate PicksArePaid(m: seq<Page>, ref: map<Page, int>, m': seq<Page>, ref': map<Page, int>, picks: nat, miss: nat) {
    Pages(m) <= ref.Keys && Pages(m') <= ref'.Keys && picks + SumRefs(m', ref') <= SumRefs(m, ref) + miss + 1
  }

  lemma HitPays(m: seq<Page>, ref: map<Page, int>, n: Page, clockbits: int)
    requires Distinct(m) && Pages(m) <= ref.Keys && n in m
    ensures PicksArePaid(m, ref, m, ref[n := CountAfter(ref, n, clockbits)], 0, 0)
  {
    assert n in Pages(m);
    SumRefsRaise(m, ref, n, CountAfter(ref, n, clockbits));
  }

  lemma MissPays(m0: seq<Page>, ref0: map<Page, int>, m: seq<Page>, ref: map<Page, int>, n: Page, picks: nat, clockbits: int)
    requires Pages(m0) <= ref0.Keys && Pages(m) == ref.Keys && n !in m
    requires picks + SumRefs(m, ref) <= SumRefs(m0, ref0) + 1
    ensures PicksArePaid(m0, ref0, m + [n], ref[n := CountAfter(ref, n, clockbits)], picks, 1)
  {
    assert n !in Pages(m);
    SumRefsAppend(m, ref, n, 1);
  }

  /** Reference counts never exceed their cap; under CLOCK exactly the resident
      pages carry one. */
  ghost predicate RefsFit(policy: Policy, memory: seq<Page>, ref: map<Page, int>, clockbits: int) {
    (policy == CLOCK ==> ref.Keys == Pages(memory)) &&
    forall p :: p in ref ==> ref[p] <= RefCap(clockbits)
  }

  /** A fixed policy's step, with the victim position named where it matters. */
  lemma FixedStep(policy: Policy, k: nat, m: seq<Page>, t: seq<Page>, i: nat, victim: nat) returns (m': seq<Page>)
    requires policy.Fixed() && k >= 1 && i < |t|
    requires t[i] !in m && |m| == k ==> victim == VictimIndex(policy, m, t[i + 1..])
    ensures m' == StepAt(policy, k, m, t[i], victim)
    ensures Misses(policy, k, m, t[i..]) == (if t[i] in m then 0 else 1) + Misses(policy, k, m', t[i + 1..])
    ensures Memory(policy, k, m, t[i..]) == Memory(policy, k, m', t[i + 1..])
  {
    m' := StepAt(policy, k, m, t[i], victim);
    assert t[i..][0] == t[i] && t[i..][1..] == t[i + 1..];
    assert m' == Step(policy, k, m, t[i], t[i + 1..]);
  }

  /** A step of the loop extends the demand run. */
  lemma Record(policy: Policy, k: nat, t: seq<Page>, i: nat, vs: seq<Page>, m: seq<Page>, victim: nat) returns (v: Page)
    requires k >= 1 && Holds(k, m) && i < |t|
    requires Run(k, {}, t[..i], vs) && Pages(m) == Resident(k, {}, t[..i], vs)
    requires t[i] !in m && |m| == k ==> victim < |m|
    ensures Run(k, {}, t[..i + 1], vs + [v])
    ensures Faults(k, {}, t[..i + 1], vs + [v]) == Faults(k, {}, t[..i], vs) + (if t[i] in m then 0 else 1)
    ensures Pages(StepAt(policy, k, m, t[i], victim)) == Resident(k, {}, t[..i + 1], vs + [v])
    ensures Holds(k, StepAt(policy, k, m, t[i], victim))
  {
    v := VictimOf(k, m, t[i], victim);
    StepIsDemand(policy, k, m, t[i], victim);
    RunSnoc(k, {}, t[..i], vs, t[i], v);
    assert t[..i + 1] == t[..i] + [t[i]];
  }

  /** After `i` references: a demand run with the victims so far, and for a fixed
      policy what is left to do from the memory list reached. */
  ghost predicate Reached(policy: Policy, k: nat, t: seq<Page>, i: nat, m: seq<Page>, miss: nat, vs: seq<Page>)
    requires k >= 1 && i <= |t|
  {
    Holds(k, m) && Run(k, {}, t[..i], vs) && miss == Faults(k, {}, t[..i], vs) && Pages(m) == Resident(k, {}, t[..i], vs)
    && (policy.Fixed() ==>
          miss + Misses(policy, k, m, t[i..]) == Misses(policy, k, [], t) && Memory(policy, k, m, t[i..]) == Memory(policy, k, [], t))
  }

  lemma Advance(policy: Policy, k: nat, t: seq<Page>, i: nat, m: seq<Page>, miss: nat, vs: seq<Page>, victim: nat)
    returns (v: Page)
    requires k >= 1 && i < |t| && Reached(policy, k, t, i, m, miss, vs)
    requires t[i] !in m && |m| == k ==> victim < |m| && (policy.Fixed() ==> victim == VictimIndex(policy, m, t[i + 1..]))
    ensures Reached(policy, k, t, i + 1, StepAt(policy, k, m, t[i], victim), miss + (if t[i] in m then 0 else 1), vs + [v])
  {
    v := Record(policy, k, t, i, vs, m, victim);
    if policy.Fixed() { var _ := FixedStep(policy, k, m, t, i, victim); }
  }

  /** The list, the counts and the picks after the references `t`, of which `loads`
      missed. */
  ghost predicate Kept(policy: Policy, t: seq<Page>, m: seq<Page>, loads: seq<Page>, ref: map<Page, int>, clockbits: int, picks: nat)
  {
    InOrder(m, if ByUse(policy) then t else loads)
    && (if policy == CLOCK then Pages(m) <= ref.Keys && picks + SumRefs(m, ref) <= |t| + |loads|
        else CountsUses(ref, t, clockbits) && picks == 0)
  }

  lemma KeptStep(policy: Policy, k: nat, t: seq<Page>, m: seq<Page>, loads: seq<Page>, ref: map<Page, int>, clockbits: int,
                 n: Page, victim: nat, ref': map<Page, int>, total: nat, picks: nat)
    requires k >= 1 && Holds(k, m) && Kept(policy, t, m, loads, ref, clockbits, total)
    requires n !in m && |m| == k ==> victim < |m|
    requires if policy == CLOCK then PicksArePaid(m, ref, StepAt(policy, k, m, n, victim), ref', picks, if n in m then 0 else 1)
             else ref' == ref[n := CountAfter(ref, n, clockbits)] && picks == 0
    ensures Kept(policy, t + [n], StepAt(policy, k, m, n, victim), if n in m then loads else loads + [n], ref', clockbits, total + picks)
  {
    StepKeepsOrder(policy, k, m, n, victim, if ByUse(policy) then t else loads);
    if policy != CLOCK { OneMoreCounted(ref, t, n, clockbits); }
  }

  /** All that the loop keeps. */
  ghost predicate Progress(policy: Policy, k: nat, clockbits: int, t: seq<Page>, i: nat, m: seq<Page>, ref: map<Page, int>,
                           vs: seq<Page>, loads: seq<Page>, longestScan: nat, allPicks: nat)
    requires k >= 1
  {
    i <= |t| && Reached(policy, k, t, i, m, |loads|, vs) && |vs| == i && loads == Missed(k, {}, t[..i], vs)
    && Kept(policy, t[..i], m, loads, ref, clockbits, allPicks) && RefsFit(policy, m, ref, clockbits)
    && longestScan <= 1 + k * RefCap(clockbits)
  }

  lemma ProgressStep(policy: Policy, k: nat, clockbits: int, t: seq<Page>, i: nat, m: seq<Page>, ref: map<Page, int>,
                     vs: seq<Page>, loads: seq<Page>, longestScan: nat, allPicks: nat,
                     pick: nat -> nat, victim: nat, ref': map<Page, int>, picks: nat) returns (v: Page)
    requires k >= 1 && i < |t| && Progress(policy, k, clockbits, t, i, m, ref, vs, loads, longestScan, allPicks)
    requires t[i] !in m && |m| == k ==> victim < |m| && (policy.Fixed() ==> victim == VictimIndex(policy, m, t[i + 1..]))
    requires RefsMove(policy, k, m, ref, t[i], clockbits, pick, victim, ref', picks)
    ensures Progress(policy, k, clockbits, t, i + 1, StepAt(policy, k, m, t[i], victim), ref', vs + [v],
                     if t[i] in m then loads else loads + [t[i]], if picks > longestScan then picks else longestScan, allPicks + picks)
  {
    v := Advance(policy, k, t, i, m, |loads|, vs, victim);
    RefsMoveFits(policy, k, m, ref, t[i], clockbits, pick, victim, ref', picks);
    KeptStep(policy, k, t[..i], m, loads, ref, clockbits, t[i], victim, ref', allPicks, picks);
    LoadsStep(k, t, i, vs, v, m);
  }

  /** One turn of the loop, and what it adds to the records. */
  method Turn(policy: Policy, cachesize: nat, memory0: seq<Page>, ref0: map<Page, int>, clockbits: int, addrList: seq<Page>, addrIndex: nat,
              pick: nat -> nat, ghost vs0: seq<Page>, ghost loads0: seq<Page>, ghost longest0: nat, ghost picks0: nat)
    returns (memory: seq<Page>, ref: map<Page, int>, hit: bool,
             ghost vs: seq<Page>, ghost loads: seq<Page>, ghost longest: nat, ghost picks: nat)
    requires cachesize >= 1 && addrIndex < |addrList|
    requires Progress(policy, cachesize, clockbits, addrList, addrIndex, memory0, ref0, vs0, loads0, longest0, picks0)
    ensures hit == (addrList[addrIndex] in memory0)
    ensures loads == if hit then loads0 else loads0 + [addrList[addrIndex]]
    ensures Progress(policy, cachesize, clockbits, addrList, addrIndex + 1, memory, ref, vs, loads, longest, picks)
  {
    var victim;
    memory, ref, hit, victim, picks := Access(policy, cachesize, memory0, ref0, clockbits, addrList, addrIndex, pick);
    ghost var v := ProgressStep(policy, cachesize, clockbits, addrList, addrIndex, memory0, ref0, vs0, loads0, longest0, picks0,
                                pick, victim, ref, picks);
    vs, loads := vs0 + [v], if hit then loads0 else loads0 + [addrList[addrIndex]];
    longest, picks := if picks > longest0 then picks else longest0, picks0 + picks;
  }

  lemma ProgressStarts(policy: Policy, k: nat, clockbits: int, t: seq<Page>)
    requires k >= 1
    ensures Progress(policy, k, clockbits, t, 0, [], map[], [], [], 0, 0)
  {
    assert Pages([]) == {};
    assert t[..0] == [] && t[0..] == t;
  }

  /** The whole simulation.  Its miss count is that of a demand run whose victims
      are `victims`; for a fixed policy it is the policy's, and `memory` with it.
      LRU and MRU keep the list in order of use, the others in order of loading.
      Without CLOCK, `ref` counts the references up to the cap; under CLOCK all
      scans together make at most one pick for each reference and each miss. */
  method Simulate(addrList: seq<Page>, cachesize: nat, policy: Policy, clockbits: int, pick: nat -> nat -> nat)
    returns (memory: seq<Page>, hits: nat, miss: nat, ref: map<Page, int>, ghost victims: seq<Page>,
             ghost longestScan: nat, ghost allPicks: nat)
    requires cachesize >= 1
    ensures hits + miss == |addrList|
    ensures Run(cachesize, {}, addrList, victims)
    ensures miss == Faults(cachesize, {}, addrList, victims)
    ensures Pages(memory) == Resident(cachesize, {}, addrList, victims) && Holds(cachesize, memory)
    ensures InOrder(memory, if policy == LRU || policy == MRU then addrList else Missed(cachesize, {}, addrList, victims))
    ensures policy.Fixed() ==> miss == Misses(policy, cachesize, [], addrList)
    ensures policy.Fixed() ==> memory == Memory(policy, cachesize, [], addrList)
    ensures policy != CLOCK ==> CountsUses(ref, addrList, clockbits)
    ensures longestScan <= 1 + cachesize * RefCap(clockbits)
    ensures allPicks <= if policy == CLOCK then |addrList| + miss else 0
  {
    memory, hits, miss, victims, longestScan, allPicks := [], 0, 0, [], 0, 0;
    ref := map[];
    ghost var loads: seq<Page> := [];
    ProgressStarts(policy, cachesize, clockbits, addrList);
    for addrIndex := 0 to |addrList|
      invariant hits + miss == addrIndex && miss == |loads|
      invariant Progress(policy, cachesize, clockbits, addrList, addrIndex, memory, ref, victims, loads, longestScan, allPicks)
    {
      var hit;
      memory, ref, hit, victims, loads, longestScan, allPicks :=
        Turn(policy, cachesize, memory, ref, clockbits, addrList, addrIndex, pick(addrIndex), victims, loads, longestScan, allPicks);
      if hit { hits := hits + 1; } else { miss := miss + 1; }
    }
    ProgressEnds(policy, cachesize, clockbits, addrList, memory, ref, victims, loads, longestScan, allPicks);
  }

  lemma ProgressEnds(policy: Policy, k: nat, clockbits: int, t: seq<Page>, m: seq<Page>, ref: map<Page, int>,
                     vs: seq<Page>, loads: seq<Page>, longestScan: nat, allPicks: nat)
    requires k >= 1 && Progress(policy, k, clockbits, t, |t|, m, ref, vs, loads, longestScan, allPicks)
    ensures Run(k, {}, t, vs) && |loads| == Faults(k, {}, t, vs) && loads == Missed(k, {}, t, vs)
    ensures Pages(m) == Resident(k, {}, t, vs) && Holds(k, m)
    ensures InOrder(m, if ByUse(policy) then t else loads)
    ensures policy.Fixed() ==> |loads| == Misses(policy, k, [], t) && m == Memory(policy, k, [], t)
    ensures policy != CLOCK ==> CountsUses(ref, t, clockbits)
    ensures allPicks <= if policy == CLOCK then |t| + |loads| else 0
  {
    assert t[..|t|] == t && t[|t|..] == [];
  }

  lemma LoadsStep(k: nat, t: seq<Page>, i: nat, vs: seq<Page>, v: Page, m: seq<Page>)
    requires i < |t| && |vs| == i && Pages(m) == Resident(k, {}, t[..i], vs)
    ensures t[..i + 1] == t[..i] + [t[i]]
    ensures Missed(k, {}, t[..i + 1], vs + [v]) == Missed(k, {}, t[..i], vs) + if t[i] in m then [] else [t[i]]
  {
    assert t[..i + 1] == t[..i] + [t[i]];
    MissedSnoc(k, {}, t[..i], vs, t[i], v);
  }
}
