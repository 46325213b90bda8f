/** The factor `k` of LRU and FIFO cannot be improved: no policy that decides
    without knowing the future misses less often, compared with OPT. */
module OnlineBound {
  import opened DemandPaging
  import opened PagingPolicy
  import opened Belady
  import opened Competitive

  /** The victims of a policy that decides by the references so far. */
  ghost function Victims(choose: seq<Page> -> Page, t: seq<Page>): seq<Page> {
    if t == [] then [] else Victims(choose, t[..|t| - 1]) + [choose(t)]
  }

  lemma {:induction false} VictimsLength(choose: seq<Page> -> Page, t: seq<Page>)
    ensures |Victims(choose, t)| == |t|
  {
    if t != [] { VictimsLength(choose, t[..|t| - 1]); }
  }

  /** `choose` makes a demand policy with room for `k` pages. */
  ghost predicate Online(k: nat, choose: seq<Page> -> Page) {
    forall t :: Run(k, {}, t, Victims(choose, t))
  }

  ghost function OnlineMisses(k: nat, choose: seq<Page> -> Page, t: seq<Page>): nat {
    VictimsLength(choose, t);
    Faults(k, {}, t, Victims(choose, t))
  }

  // The adversary refers to a missing page, again and again

  lemma {:induction false} FaultsSnoc(k: nat, s: set<Page>, t: seq<Page>, vs: seq<Page>, r: Page, v: Page)
    requires |vs| == |t|
    ensures Faults(k, s, t + [r], vs + [v]) == Faults(k, s, t, vs) + Cost(Resident(k, s, t, vs), r)
    decreases |t|
  {
    var t', vs' := t + [r], vs + [v];
    if t == [] {
      assert t' == [r] && vs' == [v] && t'[1..] == [] && vs'[1..] == [];
    } else {
      assert t'[0] == t[0] && t'[1..] == t[1..] + [r] && vs'[0] == vs[0] && vs'[1..] == vs[1..] + [v];
      FaultsSnoc(k, Next(k, s, t[0], vs[0]), t[1..], vs[1..], r, v);
    }
  }

  lemma {:induction false} ResidentFits(k: nat, s: set<Page>, t: seq<Page>, vs: seq<Page>)
    requires Run(k, s, t, vs) && |s| <= k
    ensures |Resident(k, s, t, vs)| <= k
    decreases |t|
  {
    if t != [] { ResidentFits(k, Next(k, s, t[0], vs[0]), t[1..], vs[1..]); }
  }

  /** The pages 0 to `k`. */
  ghost function Pool(k: nat): (pool: set<Page>)
    ensures |pool| == k + 1 && forall p :: p in pool ==> 0 <= p <= k
  {
    if k == 0 then {0} else Pool(k - 1) + {k}
  }

  lemma MissingPage(k: nat, s: set<Page>) returns (r: Page)
    requires |s| <= k
    ensures r in Pool(k) && r !in s
  {
    if Pool(k) <= s { SubsetSize(Pool(k), s); }
    r :| r in Pool(k) && r !in s;
  }

  ghost predicate Within(t: seq<Page>, k: nat) { forall i :: 0 <= i < |t| ==> t[i] in Pool(k) }

  lemma {:induction false} Adversary(k: nat, choose: seq<Page> -> Page, n: nat) returns (t: seq<Page>)
    requires Online(k, choose)
    ensures |t| == n && Within(t, k) && OnlineMisses(k, choose, t) == n
  {
    t := [];
    if n > 0 {
      var h := Adversary(k, choose, n - 1);
      var vs := Victims(choose, h);
      VictimsLength(choose, h);
      ResidentFits(k, {}, h, vs);
      var r := MissingPage(k, Resident(k, {}, h, vs));
      t := h + [r];
      assert t[..n - 1] == h;
      FaultsSnoc(k, {}, h, vs, r, choose(t));
    }
  }

  // OPT on `k + 1` pages misses once in `k` references

  /** Memory is full, of all pages but `e`. */
  ghost predicate AllBut(k: nat, m: seq<Page>, e: Page) {
    Holds(k, m) && |m| == k && e in Pool(k) && Pages(m) == Pool(k) - {e}
  }

  lemma {:induction false} DistinctPages(t: seq<Page>)
    ensures |Pages(t)| <= |t|
  {
    if t == [] {
      assert Pages(t) == {};
    } else {
      DistinctPages(t[1..]);
      assert Pages(t) == {t[0]} + Pages(t[1..]);
    }
  }

  /** The page OPT gives up is not referenced before all others of a full memory are. */
  lemma FarthestIsFar(m: seq<Page>, f: seq<Page>)
    requires Distinct(m) && m != []
    ensures var d := NextUse(m[Farthest(m, f, |m|)], f); d == |f| || d >= |m| - 1
  {
    var i := Farthest(m, f, |m|);
    var d := NextUse(m[i], f);
    NextUseIsFirst(m[i], f);
    if d < |f| {
      forall p | p in Pages(m) - {m[i]} ensures p in Pages(f[..d]) {
        var j :| 0 <= j < |m| && m[j] == p;
        Sooner(p, m[i], f);
      }
      SubsetSize(Pages(m) - {m[i]}, Pages(f[..d]));
      PagesSize(m);
      DistinctPages(f[..d]);
    }
  }

  lemma Sooner(p: Page, q: Page, f: seq<Page>)
    requires p != q && NextUse(p, f) <= NextUse(q, f) < |f|
    ensures p in f[..NextUse(q, f)]
  {
    NextUseIsFirst(p, f);
    NextUseIsFirst(q, f);
    assert f[..NextUse(q, f)][NextUse(p, f)] == p;
  }

  lemma MissingReferenced(k: nat, m: seq<Page>, e: Page, f: seq<Page>) returns (m': seq<Page>, v: Page)
    requires k >= 1 && AllBut(k, m, e)
    ensures m' == Step(OPT, k, m, e, f) && AllBut(k, m', v) && (NextUse(v, f) == |f| || NextUse(v, f) >= k - 1)
  {
    var i := Farthest(m, f, k);
    v := m[i];
    assert v in Pages(m) && e !in Pages(m);
    m' := Step(OPT, k, m, e, f);
    FarthestIsFar(m, f);
    RemoveAtPages(m, i);
    assert e !in Pages(RemoveAt(m, i));
    AppendPages(RemoveAt(m, i), e);
  }

  lemma {:induction false} NextUseFits(p: Page, t: seq<Page>)
    ensures NextUse(p, t) <= |t|
  {
    if t != [] { NextUseFits(p, t[1..]); }
  }

  lemma OneReference(k: nat, m: seq<Page>, t: seq<Page>)
    requires k >= 1 && t != []
    ensures t[0] in m ==> Misses(OPT, k, m, t) == Misses(OPT, k, m, t[1..])
    ensures t[0] !in m ==> Misses(OPT, k, m, t) == 1 + Misses(OPT, k, Step(OPT, k, m, t[0], t[1..]), t[1..])
  {
  }

  lemma {:induction false} OptOnceInK(k: nat, m: seq<Page>, e: Page, t: seq<Page>)
    requires k >= 1 && AllBut(k, m, e) && Within(t, k)
    ensures Times(k, Misses(OPT, k, m, t)) <= |t| - NextUse(e, t) + k - 1
    decreases |t|
  {
    if t == [] { return; }
    var f := t[1..];
    OneReference(k, m, t);
    assert t[0] in Pool(k) && (t[0] in Pages(m) <==> t[0] in m);
    if t[0] == e {
      var m', v := MissingReferenced(k, m, e, f);
      NextUseFits(v, f);
      OptOnceInK(k, m', v, f);
      OneMissMore(k, Misses(OPT, k, m', f), |f|, NextUse(v, f));
    } else {
      OptOnceInK(k, m, e, f);
    }
  }

  lemma OneMissMore(k: nat, misses: nat, n: nat, d: nat)
    requires k >= 1 && Times(k, misses) <= n - d + k - 1 && (d == n || d >= k - 1)
    ensures Times(k, 1 + misses) <= n + 1 + k - 1
  {
    if misses >= 1 { assert Times(k, misses) >= k; }
  }

  /** Until memory is full each miss adds a page. */
  lemma {:induction false} OptFills(k: nat, m: seq<Page>, t: seq<Page>) returns (rest: nat)
    requires k >= 1 && Holds(k, m) && Pages(m) <= Pool(k) && Within(t, k)
    ensures Misses(OPT, k, m, t) <= k - |m| + rest && Times(k, rest) <= |t| + k - 1
    decreases |t|
  {
    rest := 0;
    if t == [] { return; }
    if |m| == k {
      var e := OnePageMissing(k, m);
      OptOnceInK(k, m, e, t);
      NextUseFits(e, t);
      rest := Misses(OPT, k, m, t);
    } else if t[0] in m {
      rest := OptFills(k, m, t[1..]);
    } else {
      AppendPages(m, t[0]);
      rest := OptFills(k, m + [t[0]], t[1..]);
    }
  }

  lemma OnePageMissing(k: nat, m: seq<Page>) returns (e: Page)
    requires Holds(k, m) && |m| == k && Pages(m) <= Pool(k)
    ensures AllBut(k, m, e)
  {
    PagesSize(m);
    e := MissingPage(k, Pages(m));
    assert |Pool(k) - {e}| == k;
    Equal(Pages(m), Pool(k) - {e});
  }

  lemma {:induction false} TimesGrows(k: nat, n: nat, n': nat)
    requires n < n'
    ensures Times(k, n) + k <= Times(k, n')
  {
    if n + 1 < n' { TimesGrows(k, n, n' - 1); }
  }

  /** OPT on a trace over `k + 1` pages. */
  lemma OptOnFewPages(k: nat, n: nat, t: seq<Page>)
    requires k >= 1 && Within(t, k) && |t| == Times(k, n)
    ensures Misses(OPT, k, [], t) <= n + k
  {
    var rest := OptFills(k, [], t);
    if rest > n { TimesGrows(k, n, rest); }
  }

  /** For every policy that does not know the future there are traces on which it
      misses `k` times as often as OPT, but for the `k` misses that fill the memory. */
  lemma FactorIsBest(k: nat, choose: seq<Page> -> Page, n: nat) returns (t: seq<Page>)
    requires k >= 1 && Online(k, choose)
    ensures |t| == k * n && OnlineMisses(k, choose, t) == k * n && Misses(OPT, k, [], t) <= n + k
  {
    TimesIs(k, n);
    t := Adversary(k, choose, k * n);
    OptOnFewPages(k, n, t);
  }

  /** So no smaller factor `b / a` holds for any of them, whatever is granted for the start. */
  lemma NoSmallerFactor(k: nat, choose: seq<Page> -> Page, a: nat, b: nat, c: nat)
    requires k >= 1 && Online(k, choose)
    requires forall t :: a * OnlineMisses(k, choose, t) <= b * Misses(OPT, k, [], t) + c
    ensures a * k <= b
  {
    var n := b * k + c + 1;
    var t := FactorIsBest(k, choose, n);
    TooMany(a, b, c, k, n, Misses(OPT, k, [], t));
  }

  lemma TooMany(a: nat, b: nat, c: nat, k: nat, n: nat, misses: nat)
    requires a * (k * n) <= b * misses + c && misses <= n + k && n > b * k + c
    ensures a * k <= b
  {
    Scale(b, misses, n + k);
    Regroup(a, k, n);
    Spread(b, n, k);
    if a * k > b {
      Scale(n, b + 1, a * k);
      Spread(n, b, 1);
    }
  }

  lemma Scale(z: nat, x: nat, y: nat)
    requires x <= y
    ensures z * x <= z * y
  {
    assert z * (y - x) >= 0;
  }

  lemma Regroup(x: nat, y: nat, z: nat)
    ensures x * (y * z) == (x * y) * z
  {
  }

  lemma Spread(x: nat, y: nat, z: nat)
    ensures x * (y + z) == x * y + x * z
  {
  }

  // LRU, FIFO and MRU do not know the future

  predicate Blind(policy: Policy) { policy == FIFO || policy == LRU || policy == MRU }

  /** What such a policy gives up for the last reference of `h`. */
  function Choice(policy: Policy, k: nat, h: seq<Page>): Page
    requires Blind(policy) && k >= 1
  {
    if h == [] then 0
    else
      var m := Memory(policy, k, [], h[..|h| - 1]);
      if |m| == 0 then 0 else m[VictimIndex(policy, m, [])]
  }

  lemma {:induction false} MemorySnoc(policy: Policy, k: nat, m: seq<Page>, t: seq<Page>, r: Page)
    requires Blind(policy) && k >= 1
    ensures Memory(policy, k, m, t + [r]) == Step(policy, k, Memory(policy, k, m, t), r, [])
    ensures Misses(policy, k, m, t + [r]) == Misses(policy, k, m, t) + if r in Memory(policy, k, m, t) then 0 else 1
    decreases |t|
  {
    var t' := t + [r];
    if t == [] {
      assert t' == [r] && t'[1..] == [];
    } else {
      assert t'[0] == t[0] && t'[1..] == t[1..] + [r];
      MemorySnoc(policy, k, Step(policy, k, m, t[0], t[1..]), t[1..], r);
    }
  }

  /** The victims `vs` are those of the list policy. */
  ghost predicate Follows(policy: Policy, k: nat, t: seq<Page>, vs: seq<Page>)
    requires Blind(policy) && k >= 1
  {
    Run(k, {}, t, vs) && |vs| == |t| && Faults(k, {}, t, vs) == Misses(policy, k, [], t)
    && Holds(k, Memory(policy, k, [], t)) && Pages(Memory(policy, k, [], t)) == Resident(k, {}, t, vs)
  }

  lemma FollowsSnoc(policy: Policy, k: nat, h: seq<Page>, vs: seq<Page>, r: Page, v: Page)
    requires Blind(policy) && k >= 1 && Follows(policy, k, h, vs) && v == Choice(policy, k, h + [r])
    ensures Follows(policy, k, h + [r], vs + [v])
  {
    assert (h + [r])[..|h|] == h;
    MemorySnoc(policy, k, [], h, r);
    BlindStep(policy, k, Memory(policy, k, [], h), r, v);
    RunSnoc(k, {}, h, vs, r, v);
  }

  lemma {:induction false} BlindRun(policy: Policy, k: nat, choose: seq<Page> -> Page, t: seq<Page>)
    requires Blind(policy) && k >= 1 && forall h :: choose(h) == Choice(policy, k, h)
    ensures Follows(policy, k, t, Victims(choose, t))
    decreases |t|
  {
    if t == [] {
      assert Pages([]) == {};
    } else {
      var h, r := t[..|t| - 1], t[|t| - 1];
      assert t == h + [r];
      BlindRun(policy, k, choose, h);
      FollowsSnoc(policy, k, h, Victims(choose, h), r, choose(t));
    }
  }

  lemma BlindStep(policy: Policy, k: nat, m: seq<Page>, r: Page, v: Page)
    requires Blind(policy) && k >= 1 && Holds(k, m) && v == if |m| == 0 then 0 else m[VictimIndex(policy, m, [])]
    ensures Legal(k, Pages(m), r, v) && Holds(k, Step(policy, k, m, r, []))
    ensures Pages(Step(policy, k, m, r, [])) == Next(k, Pages(m), r, v)
  {
    PagesSize(m);
    StepIsDemand(policy, k, m, r, if m == [] then 0 else VictimIndex(policy, m, []));
  }

  lemma BlindIsOnline(policy: Policy, k: nat) returns (choose: seq<Page> -> Page)
    requires Blind(policy) && k >= 1
    ensures Online(k, choose) && forall t :: OnlineMisses(k, choose, t) == Misses(policy, k, [], t)
  {
    choose := h => Choice(policy, k, h);
    forall t ensures Run(k, {}, t, Victims(choose, t)) && OnlineMisses(k, choose, t) == Misses(policy, k, [], t) {
      BlindRun(policy, k, choose, t);
    }
  }

  /** In particular for LRU, FIFO and MRU. */
  lemma FactorIsBestForLists(policy: Policy, k: nat, n: nat) returns (t: seq<Page>)
    requires Blind(policy) && k >= 1
    ensures |t| == k * n && Misses(policy, k, [], t) == k * n && Misses(OPT, k, [], t) <= n + k
  {
    var choose := BlindIsOnline(policy, k);
    t := FactorIsBest(k, choose, n);
  }

  /** LRU and FIFO keep within `b / a` times the misses of OPT, but for a constant,
      exactly for `b / a` at least `k`. */
  lemma RatioIsK(policy: Policy, k: nat, a: nat, b: nat)
    requires k >= 1 && (policy == LRU || policy == FIFO)
    ensures (exists c: nat :: WithinRatio(policy, k, a, b, c)) <==> a * k <= b
  {
    if c: nat :| WithinRatio(policy, k, a, b, c) { RatioAtLeastK(policy, k, a, b, c); }
    if a * k <= b {
      RatioKHolds(policy, k, a, b);
      assert WithinRatio(policy, k, a, b, 0);
    }
  }

  lemma RatioKHolds(policy: Policy, k: nat, a: nat, b: nat)
    requires k >= 1 && (policy == LRU || policy == FIFO) && a * k <= b
    ensures WithinRatio(policy, k, a, b, 0)
  {
    forall t ensures a * Misses(policy, k, [], t) <= b * Misses(OPT, k, [], t) {
      KCompetitiveWithOpt(policy, k, t);
      Ratio(a, b, k, Misses(policy, k, [], t), Misses(OPT, k, [], t));
    }
  }

  lemma Ratio(a: nat, b: nat, k: nat, x: nat, y: nat)
    requires a * k <= b && x <= k * y
    ensures a * x <= b * y
  {
    Scale(a, x, k * y);
    Regroup(a, k, y);
    Scale(y, a * k, b);
  }

  ghost predicate WithinRatio(policy: Policy, k: nat, a: nat, b: nat, c: nat)
    requires k >= 1 && policy.Fixed()
  {
    forall t :: a * Misses(policy, k, [], t) <= b * Misses(OPT, k, [], t) + c
  }

  /** For MRU too no smaller factor holds. */
  lemma RatioAtLeastK(policy: Policy, k: nat, a: nat, b: nat, c: nat)
    requires k >= 1 && Blind(policy) && WithinRatio(policy, k, a, b, c)
    ensures a * k <= b
  {
    var choose := BlindIsOnline(policy, k);
    forall t ensures a * OnlineMisses(k, choose, t) <= b * Misses(OPT, k, [], t) + c {
      assert OnlineMisses(k, choose, t) == Misses(policy, k, [], t);
    }
    NoSmallerFactor(k, choose, a, b, c);
  }
}
