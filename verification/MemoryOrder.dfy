/** The memory list is kept in order of last use, or of last loading; so LRU gives
    up the page used longest ago, MRU the one used last, and FIFO the one loaded
    longest ago. */
module MemoryOrder {
  import opened DemandPaging
  import opened PagingPolicy
  import opened Competitive
  import opened OnlineBound

  /** When `p` was last referenced; -1 if never. */
  ghost function LastUse(p: Page, h: seq<Page>): int {
    if h == [] then -1 else if h[|h| - 1] == p then |h| - 1 else LastUse(p, h[..|h| - 1])
  }

  /** The list is in the order in which its pages last occur in `h`. */
  ghost predicate InOrder(m: seq<Page>, h: seq<Page>) {
    (forall i :: 0 <= i < |m| ==> LastUse(m[i], h) >= 0)
    && forall i, j :: 0 <= i < j < |m| ==> LastUse(m[i], h) < LastUse(m[j], h)
  }

  lemma {:induction false} LastUseIsLast(p: Page, h: seq<Page>)
    ensures -1 <= LastUse(p, h) < |h|
    ensures LastUse(p, h) >= 0 ==> h[LastUse(p, h)] == p
    ensures forall i :: LastUse(p, h) < i < |h| ==> h[i] != p
  {
    if h != [] { LastUseIsLast(p, h[..|h| - 1]); }
  }

  lemma OneMoreUse(p: Page, h: seq<Page>, n: Page)
    ensures LastUse(p, h + [n]) == if p == n then |h| else LastUse(p, h)
  {
    assert (h + [n])[..|h|] == h;
  }

  /** Putting a page at the back when it is used. */
  lemma BackIsLatest(m: seq<Page>, h: seq<Page>, n: Page)
    requires InOrder(m, h) && n !in m
    ensures InOrder(m + [n], h + [n])
  {
    forall i | 0 <= i < |m| + 1 ensures LastUse((m + [n])[i], h + [n]) == if i == |m| then |h| else LastUse(m[i], h) {
      OneMoreUse((m + [n])[i], h, n);
    }
    forall i | 0 <= i < |m| ensures LastUse(m[i], h) < |h| { LastUseIsLast(m[i], h); }
  }

  lemma RemovalKeepsOrder(m: seq<Page>, h: seq<Page>, i: nat)
    requires InOrder(m, h) && i < |m|
    ensures InOrder(RemoveAt(m, i), h)
  {
  }

  predicate ByUse(policy: Policy) { policy == LRU || policy == MRU }

  /** One reference, for any policy and whatever page it gives up: LRU and MRU keep
      the order of use, the others that of loading, `h` being the references or
      those of them that missed. */
  lemma StepKeepsOrder(policy: Policy, k: nat, m: seq<Page>, n: Page, i: nat, h: seq<Page>)
    requires k >= 1 && Holds(k, m) && InOrder(m, h) && (n !in m && |m| == k ==> i < |m|)
    ensures InOrder(StepAt(policy, k, m, n, i), if ByUse(policy) || n !in m then h + [n] else h)
  {
    if n in m {
      var j := IndexOf(m, n);
      RemoveAtPages(m, j);
      RemovalKeepsOrder(m, h, j);
      assert n !in Pages(RemoveAt(m, j));
      if ByUse(policy) { BackIsLatest(RemoveAt(m, j), h, n); }
    } else if |m| == k {
      RemoveAtPages(m, i);
      RemovalKeepsOrder(m, h, i);
      assert n !in Pages(RemoveAt(m, i));
      BackIsLatest(RemoveAt(m, i), h, n);
    } else {
      BackIsLatest(m, h, n);
    }
  }

  /** The references of a demand run that missed, in order. */
  ghost function Missed(k: nat, s: set<Page>, t: seq<Page>, vs: seq<Page>): seq<Page>
    requires |vs| == |t|
    decreases |t|
  {
    if t == [] then []
    else (if t[0] in s then [] else [t[0]]) + Missed(k, Next(k, s, t[0], vs[0]), t[1..], vs[1..])
  }

  lemma {:induction false} MissedSnoc(k: nat, s: set<Page>, t: seq<Page>, vs: seq<Page>, r: Page, v: Page)
    requires |vs| == |t|
    ensures Missed(k, s, t + [r], vs + [v]) == Missed(k, s, t, vs) + if r in Resident(k, s, t, vs) then [] else [r]
    decreases |t|
  {
    var t', vs' := t + [r], vs + [v];
    if t == [] {
      assert t' == [r] && vs' == [v] && t'[1..] == [] && vs'[1..] == [];
    } else {
      assert t'[0] == t[0] && t'[1..] == t[1..] + [r] && vs'[0] == vs[0] && vs'[1..] == vs[1..] + [v];
      MissedSnoc(k, Next(k, s, t[0], vs[0]), t[1..], vs[1..], r, v);
    }
  }

  /** The references that missed. */
  ghost function Loads(policy: Policy, k: nat, h: seq<Page>): seq<Page>
    requires Blind(policy) && k >= 1
  {
    if h == [] then []
    else
      var l := |h| - 1;
      Loads(policy, k, h[..l]) + if h[l] in Memory(policy, k, [], h[..l]) then [] else [h[l]]
  }

  /** The references that order the list. */
  ghost function Order(policy: Policy, k: nat, h: seq<Page>): seq<Page>
    requires Blind(policy) && k >= 1
  {
    if ByUse(policy) then h else Loads(policy, k, h)
  }

  ghost predicate Ordered(policy: Policy, k: nat, h: seq<Page>)
    requires Blind(policy) && k >= 1
  {
    Holds(k, Memory(policy, k, [], h)) && InOrder(Memory(policy, k, [], h), Order(policy, k, h))
  }

  lemma OrderSnoc(policy: Policy, k: nat, h: seq<Page>, n: Page)
    requires Blind(policy) && k >= 1
    ensures var order := Order(policy, k, h);
      Order(policy, k, h + [n]) == if ByUse(policy) || n !in Memory(policy, k, [], h) then order + [n] else order
  {
    assert (h + [n])[..|h|] == h;
  }

  lemma OrderedSnoc(policy: Policy, k: nat, h: seq<Page>, n: Page)
    requires Blind(policy) && k >= 1 && Ordered(policy, k, h)
    ensures Ordered(policy, k, h + [n])
  {
    var m := Memory(policy, k, [], h);
    var i := if m == [] then 0 else VictimIndex(policy, m, []);
    var m' := StepAt(policy, k, m, n, i);
    MemorySnoc(policy, k, [], h, n);
    assert Memory(policy, k, [], h + [n]) == m';
    OrderSnoc(policy, k, h, n);
    StepIsDemand(policy, k, m, n, i);
    StepKeepsOrder(policy, k, m, n, i, Order(policy, k, h));
  }

  lemma {:induction false} ListInOrder(policy: Policy, k: nat, h: seq<Page>)
    requires Blind(policy) && k >= 1
    ensures Ordered(policy, k, h)
    decreases |h|
  {
    if h != [] {
      var l := |h| - 1;
      assert h == h[..l] + [h[l]];
      ListInOrder(policy, k, h[..l]);
      OrderedSnoc(policy, k, h[..l], h[l]);
    }
  }

  /** `v` is given up for `n` after the references `h`. */
  ghost predicate GivesUp(policy: Policy, k: nat, h: seq<Page>, n: Page, v: Page)
    requires Blind(policy) && k >= 1
  {
    var (m, m') := (Memory(policy, k, [], h), Memory(policy, k, [], h + [n]));
    v in m && v != n && Pages(m') == Pages(m) - {v} + {n}
  }

  /** What the three policies that do not look ahead give up on a miss in a full
      memory. */
  lemma WhoGoes(policy: Policy, k: nat, h: seq<Page>, n: Page) returns (v: Page)
    requires Blind(policy) && k >= 1 && |Memory(policy, k, [], h)| == k && n !in Memory(policy, k, [], h)
    ensures GivesUp(policy, k, h, n, v)
    ensures policy == MRU ==> v == h[|h| - 1]
    ensures forall p :: p in Memory(policy, k, [], h) && p != v ==>
      match policy
      case LRU => LastUse(v, h) < LastUse(p, h)
      case MRU => LastUse(v, h) > LastUse(p, h)
      case _ => LastUse(v, Loads(policy, k, h)) < LastUse(p, Loads(policy, k, h))
  {
    var m := Memory(policy, k, [], h);
    ListInOrder(policy, k, h);
    MemorySnoc(policy, k, [], h, n);
    var i := VictimIndex(policy, m, []);
    v := m[i];
    RemoveAtPages(m, i);
    assert n !in Pages(RemoveAt(m, i));
    AppendPages(RemoveAt(m, i), n);
    if policy == MRU { LatestIsLast(k, h); }
  }

  /** The page used last is at the back. */
  lemma LatestIsLast(k: nat, h: seq<Page>)
    requires k >= 1 && h != []
    ensures var m := Memory(MRU, k, [], h); m != [] && m[|m| - 1] == h[|h| - 1]
  {
    var l := |h| - 1;
    assert h == h[..l] + [h[l]];
    MemorySnoc(MRU, k, [], h[..l], h[l]);
  }

  /** What the two that look ahead give up: OPT the page used last of all, UNOPT the
      page used first; of pages never used again OPT takes the one at the back, and
      UNOPT, if no page is used again, the one at the front. */
  lemma WhoGoesAhead(policy: Policy, k: nat, m: seq<Page>, n: Page, f: seq<Page>) returns (i: nat)
    requires (policy == OPT || policy == UNOPT) && k >= 1 && Holds(k, m) && |m| == k && n !in m
    ensures i < k && Step(policy, k, m, n, f) == m[..i] + m[i + 1..] + [n]
    ensures forall j :: 0 <= j < k && j != i ==>
      var (mine, other) := (NextUse(m[i], f), NextUse(m[j], f));
      if policy == OPT then other < mine || (other == mine == |f| && j < i)
      else mine < other || (other == mine == |f| && i < j)
  {
    i := VictimIndex(policy, m, f);
    forall j | 0 <= j < k && j != i
      ensures var (mine, other) := (NextUse(m[i], f), NextUse(m[j], f));
        if policy == OPT then other < mine || (other == mine == |f| && j < i)
        else mine < other || (other == mine == |f| && i < j)
    {
      assert m[i] != m[j];
      NextUseIsFirst(m[i], f);
      NextUseIsFirst(m[j], f);
    }
  }

  // MRU on a cycle of `k + 1` pages

  /** `n` references to the pages 0 to `k` in turn, starting with `r`. */
  ghost function Cycle(k: nat, r: nat, n: nat): seq<Page>
    decreases n
  {
    if n == 0 then [] else [r] + Cycle(k, Wrap(k, r + 1), n - 1)
  }

  function Wrap(k: nat, p: nat): nat { if p > k then p - (k + 1) else p }

  /** Memory is full of all pages but the one `d` ahead of `r`; the last used is the
      one before `r`. */
  ghost predicate Ahead(k: nat, m: seq<Page>, r: nat, d: nat) {
    r <= k && d <= k && AllBut(k, m, Wrap(k, r + d)) && m != [] && m[|m| - 1] == Wrap(k, r + k)
  }

  lemma {:induction false} InPool(k: nat, p: nat)
    requires p <= k
    ensures p in Pool(k)
  {
    if p < k { InPool(k - 1, p); }
  }

  lemma AheadHits(k: nat, m: seq<Page>, r: nat, d: nat, f: seq<Page>)
    requires k >= 1 && Ahead(k, m, r, d) && d > 0
    ensures r in m && Ahead(k, Step(MRU, k, m, r, f), Wrap(k, r + 1), d - 1)
  {
    InPool(k, r);
    assert r in Pages(m);
    StepIsDemand(MRU, k, m, r, |m| - 1);
  }

  lemma AheadMisses(k: nat, m: seq<Page>, r: nat, f: seq<Page>)
    requires k >= 1 && Ahead(k, m, r, 0)
    ensures r !in m && Ahead(k, Step(MRU, k, m, r, f), Wrap(k, r + 1), k - 1)
  {
    assert r !in Pages(m);
    LastGoes(k, m, r);
  }

  lemma LastGoes(k: nat, m: seq<Page>, r: Page)
    requires AllBut(k, m, r) && m != []
    ensures AllBut(k, RemoveAt(m, |m| - 1) + [r], m[|m| - 1])
  {
    var i := |m| - 1;
    assert m[i] in Pages(m) && r !in Pages(m);
    RemoveAtPages(m, i);
    assert r !in Pages(RemoveAt(m, i));
    AppendPages(RemoveAt(m, i), r);
  }

  lemma AheadStep(k: nat, m: seq<Page>, r: nat, d: nat, f: seq<Page>) returns (m': seq<Page>)
    requires k >= 1 && Ahead(k, m, r, d)
    ensures m' == Step(MRU, k, m, r, f) && Ahead(k, m', Wrap(k, r + 1), if d > 0 then d - 1 else k - 1)
    ensures r in m <==> d > 0
  {
    m' := Step(MRU, k, m, r, f);
    if d > 0 { AheadHits(k, m, r, d, f); } else { AheadMisses(k, m, r, f); }
  }

  /** One miss in `k` references, the first one `d` references ahead. */
  ghost predicate OneInK(k: nat, misses: nat, n: nat, d: nat) {
    if n <= d then misses == 0 else misses > 0 && Times(k, misses - 1) < n - d <= Times(k, misses)
  }

  lemma {:induction false} MruOnceInK(k: nat, m: seq<Page>, r: nat, d: nat, n: nat)
    requires k >= 1 && Ahead(k, m, r, d)
    ensures OneInK(k, Misses(MRU, k, m, Cycle(k, r, n)), n, d)
    decreases n
  {
    if n > 0 {
      var r', d' := Wrap(k, r + 1), if d > 0 then d - 1 else k - 1;
      var f := Cycle(k, r', n - 1);
      var m' := AheadStep(k, m, r, d, f);
      MruOnceInK(k, m', r', d', n - 1);
      assert ([r] + f)[1..] == f;
      MissesCons(MRU, k, m, [r] + f, m');
      OneReferenceInK(k, Misses(MRU, k, m', f), n, d);
    }
  }

  lemma OneReferenceInK(k: nat, misses: nat, n: nat, d: nat)
    requires k >= 1 && n >= 1 && OneInK(k, misses, n - 1, if d > 0 then d - 1 else k - 1)
    ensures OneInK(k, (if d > 0 then 0 else 1) + misses, n, d)
  {
    assert Times(k, misses + 1) == k + Times(k, misses);
  }

  function Up(c: nat): seq<Page> { seq(c, i => i) }

  lemma UpIsFull(k: nat)
    requires k >= 1
    ensures Ahead(k, Up(k), k, 0)
  {
    forall p ensures p in Pages(Up(k)) <==> p in Pool(k) && p != k {
      if p in Pages(Up(k)) { InPool(k, p); }
      if p in Pool(k) && p != k { assert Up(k)[p] == p; }
    }
  }

  lemma {:induction false} MruFills(k: nat, c: nat, n: nat)
    requires k >= 1 && c <= k
    ensures var x := Misses(MRU, k, Up(c), Cycle(k, c, n));
      if n <= k - c then x == n else x > k - c && OneInK(k, x - (k - c), n - (k - c), 0)
    decreases k - c
  {
    if c == k {
      UpIsFull(k);
      MruOnceInK(k, Up(k), k, 0, n);
    } else if n > 0 {
      var t := Cycle(k, c, n);
      assert t[0] == c && t[1..] == Cycle(k, c + 1, n - 1);
      assert Up(c) + [c] == Up(c + 1);
      MruFills(k, c + 1, n - 1);
    }
  }

  /** On a cycle of `k + 1` pages MRU misses, once memory is full, exactly once in
      `k` references. */
  lemma MruOnCycle(k: nat, n: nat)
    requires k >= 1
    ensures var x := Misses(MRU, k, [], Cycle(k, 0, n));
      if n <= k then x == n else x > k && k * (x - k - 1) < n - k <= k * (x - k)
  {
    assert Up(0) == [];
    MruFills(k, 0, n);
    var x := Misses(MRU, k, [], Cycle(k, 0, n));
    if n > k {
      TimesIs(k, x - k - 1);
      TimesIs(k, x - k);
    }
  }
}
