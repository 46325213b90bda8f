/** Removing consecutive duplicates from a trace, and why the simulated miss
    count does not change. */
module TraceDedup {
  import opened Wrappers
  import opened DemandPaging
  import opened PagingPolicy

  function Dedup(t: seq<Page>): seq<Page> {
    if |t| <= 1 then t
    else if t[0] == t[1] then Dedup(t[1..])
    else [t[0]] + Dedup(t[1..])
  }

  lemma {:induction false} DedupSnoc(t: seq<Page>, r: Page)
    requires t != []
    ensures Dedup(t + [r]) == if r == t[|t| - 1] then Dedup(t) else Dedup(t) + [r]
  {
    if |t| == 1 {
      assert (t + [r])[1..] == [r];
    } else {
      assert (t + [r])[1..] == t[1..] + [r];
      DedupSnoc(t[1..], r);
    }
  }

  /** The export loop; an empty list yields nothing. */
  method ExportPageTrace(pages: seq<Page>) returns (out: Option<seq<Page>>)
    ensures out == if pages == [] then None else Some(Dedup(pages))
  {
    if pages == [] { return None; }
    var kept := [pages[0]];
    for i := 1 to |pages|
      invariant kept == Dedup(pages[..i])
    {
      assert pages[..i + 1] == pages[..i] + [pages[i]];
      DedupSnoc(pages[..i], pages[i]);
      if pages[i] != pages[i - 1] {
        kept := kept + [pages[i]];
      }
    }
    assert pages[..|pages|] == pages;
    out := Some(kept);
  }

  /** No page follows itself in a deduplicated trace, and it is never longer. */
  lemma {:induction false} DedupHasNoRepeat(t: seq<Page>)
    ensures |Dedup(t)| <= |t|
    ensures t != [] ==> Dedup(t) != [] && Dedup(t)[0] == t[0]
    ensures forall i :: 0 < i < |Dedup(t)| ==> Dedup(t)[i - 1] != Dedup(t)[i]
  {
    if |t| > 1 {
      DedupHasNoRepeat(t[1..]);
      if t[0] != t[1] {
        var d := Dedup(t[1..]);
        forall i | 0 < i < |Dedup(t)| ensures Dedup(t)[i - 1] != Dedup(t)[i] {
          if i > 1 { assert d[i - 2] != d[i - 1]; }
        }
      }
    }
  }

  ghost predicate SameOrder(p: Page, q: Page, f: seq<Page>, g: seq<Page>) {
    NextUse(p, f) <= NextUse(q, f) <==> NextUse(p, g) <= NextUse(q, g)
  }

  /** Which of two pages comes sooner does not depend on repeats. */
  lemma {:induction false} DedupKeepsOrder(p: Page, q: Page, t: seq<Page>)
    ensures SameOrder(p, q, t, Dedup(t))
    decreases |t|
  {
    if |t| > 1 {
      DedupKeepsOrder(p, q, t[1..]);
      if t[0] != t[1] {
        var d := Dedup(t);
        assert d[0] == t[0] && d[1..] == Dedup(t[1..]);
      }
    }
  }

  /** The victim depends on the future only through the order of next uses. */
  lemma SameVictim(policy: Policy, m: seq<Page>, f: seq<Page>, g: seq<Page>)
    requires policy.Fixed() && m != []
    requires forall p, q :: p in m && q in m ==> SameOrder(p, q, f, g)
    ensures VictimIndex(policy, m, f) == VictimIndex(policy, m, g)
  {
    match policy
    case OPT =>
      var i := Farthest(m, f, |m|);
      var j := Farthest(m, g, |m|);
      assert SameOrder(m[i], m[j], f, g) && SameOrder(m[j], m[i], f, g);
    case UNOPT =>
      var i := Nearest(m, f, |m|);
      var j := Nearest(m, g, |m|);
      assert SameOrder(m[i], m[j], f, g) && SameOrder(m[j], m[i], f, g);
    case _ =>
  }

  lemma SameStep(policy: Policy, k: nat, m: seq<Page>, r: Page, f: seq<Page>, g: seq<Page>)
    requires policy.Fixed() && k >= 1
    requires r !in m ==> forall p, q :: p in m && q in m ==> SameOrder(p, q, f, g)
    ensures Step(policy, k, m, r, f) == Step(policy, k, m, r, g)
  {
    if r !in m && m != [] { SameVictim(policy, m, f, g); }
  }

  /** A reference to the page at the back leaves the list alone. */
  lemma HitAtBack(policy: Policy, k: nat, m: seq<Page>, g: seq<Page>)
    requires policy.Fixed() && k >= 1 && Distinct(m) && m != []
    ensures Step(policy, k, m, m[|m| - 1], g) == m
  {
    var r := m[|m| - 1];
    assert IndexOf(m, r) == |m| - 1;
    assert RemoveAt(m, |m| - 1) + [r] == m;
  }

  lemma HitInPlace(policy: Policy, k: nat, m: seq<Page>, r: Page, g: seq<Page>)
    requires policy.Fixed() && k >= 1 && r in m && policy != LRU && policy != MRU
    ensures Step(policy, k, m, r, g) == m
  {
  }

  lemma LandsAtBack(policy: Policy, k: nat, m: seq<Page>, r: Page, f: seq<Page>)
    requires k >= 1 && (policy == LRU || policy == MRU)
    ensures var m' := Step(policy, k, m, r, f); m' != [] && m'[|m'| - 1] == r
  {
  }

  /** A page just referenced is hit without disturbing the list. */
  lemma RepeatKeepsMemory(policy: Policy, k: nat, m: seq<Page>, r: Page, f: seq<Page>, g: seq<Page>)
    requires policy.Fixed() && k >= 1 && Holds(k, m)
    ensures r in Step(policy, k, m, r, f)
    ensures Step(policy, k, Step(policy, k, m, r, f), r, g) == Step(policy, k, m, r, f)
  {
    var v, m' := PolicyStep(policy, k, m, [r] + f);
    assert ([r] + f)[1..] == f;
    StepIsDemand(policy, k, m, r, if m == [] then 0 else VictimIndex(policy, m, f));
    if policy == LRU || policy == MRU {
      LandsAtBack(policy, k, m, r, f);
      HitAtBack(policy, k, m', g);
    } else {
      HitInPlace(policy, k, m', r, g);
    }
  }

  lemma DropRepeat(policy: Policy, k: nat, m: seq<Page>, t: seq<Page>)
    requires policy.Fixed() && k >= 1 && Holds(k, m)
    requires |t| >= 2 && t[0] == t[1]
    ensures Misses(policy, k, m, t) == Misses(policy, k, m, t[1..])
    ensures Memory(policy, k, m, t) == Memory(policy, k, m, t[1..])
  {
    var r, f := t[0], t[1..];
    SameStep(policy, k, m, r, f, f[1..]);
    RepeatKeepsMemory(policy, k, m, r, f, f[1..]);
  }

  /** A fixed policy misses exactly as often on the deduplicated trace and ends
      with the same memory list. */
  lemma {:induction false} DedupKeepsMisses(policy: Policy, k: nat, m: seq<Page>, t: seq<Page>)
    requires policy.Fixed() && k >= 1 && Holds(k, m)
    ensures Misses(policy, k, m, Dedup(t)) == Misses(policy, k, m, t)
    ensures Memory(policy, k, m, Dedup(t)) == Memory(policy, k, m, t)
    decreases |t|
  {
    if |t| <= 1 { return; }
    if t[0] == t[1] {
      DropRepeat(policy, k, m, t);
      DedupKeepsMisses(policy, k, m, t[1..]);
    } else {
      var d := Dedup(t);
      assert d[0] == t[0] && d[1..] == Dedup(t[1..]);
      forall p, q | p in m && q in m ensures SameOrder(p, q, t[1..], d[1..]) {
        DedupKeepsOrder(p, q, t[1..]);
      }
      SameStep(policy, k, m, t[0], t[1..], d[1..]);
      var v, m' := PolicyStep(policy, k, m, t);
      DedupKeepsMisses(policy, k, m', t[1..]);
    }
  }

  // Every other policy

  /** The second of two equal references is a hit, whatever is given up for the first. */
  lemma RepeatIsHit(k: nat, s: set<Page>, t: seq<Page>, vs: seq<Page>, v: Page)
    requires |t| >= 2 && t[0] == t[1] && |vs| == |t| - 1
    ensures var us := [vs[0], v] + vs[1..];
      (Run(k, s, t, us) <==> Run(k, s, t[1..], vs)) && (Run(k, s, t, us) ==> Faults(k, s, t, us) == Faults(k, s, t[1..], vs))
  {
    var us := [vs[0], v] + vs[1..];
    var s' := Next(k, s, t[0], vs[0]);
    assert us[0] == vs[0] && us[1..] == [v] + vs[1..] && us[1..][1..] == vs[1..];
    assert t[1..][0] == t[0] && Next(k, s', t[1], v) == s';
  }

  /** Each demand run of a trace, such as one of RAND or CLOCK, has a run of the
      deduplicated trace with as many misses. */
  lemma {:induction false} DedupRun(k: nat, s: set<Page>, t: seq<Page>, vs: seq<Page>) returns (ws: seq<Page>)
    requires Run(k, s, t, vs)
    ensures Run(k, s, Dedup(t), ws) && Faults(k, s, Dedup(t), ws) == Faults(k, s, t, vs)
    decreases |t|
  {
    ws := vs;
    if |t| <= 1 { return; }
    if t[0] == t[1] {
      var us := [vs[0]] + vs[2..];
      assert vs == [us[0], vs[1]] + us[1..];
      RepeatIsHit(k, s, t, us, vs[1]);
      ws := DedupRun(k, s, t[1..], us);
    } else {
      var s' := Next(k, s, t[0], vs[0]);
      ws := DedupRun(k, s', t[1..], vs[1..]);
      RunCons(k, s, Dedup(t), vs[0], s', ws);
      ws := [vs[0]] + ws;
    }
  }

  /** And the other way round: no miss count is lost. */
  lemma {:induction false} RunOfDedup(k: nat, s: set<Page>, t: seq<Page>, ws: seq<Page>) returns (vs: seq<Page>)
    requires Run(k, s, Dedup(t), ws)
    ensures Run(k, s, t, vs) && Faults(k, s, t, vs) == Faults(k, s, Dedup(t), ws)
    decreases |t|
  {
    vs := ws;
    if |t| <= 1 { return; }
    if t[0] == t[1] {
      vs := RunOfDedup(k, s, t[1..], ws);
      RepeatIsHit(k, s, t, vs, vs[0]);
      vs := [vs[0], vs[0]] + vs[1..];
    } else {
      var s' := Next(k, s, t[0], ws[0]);
      vs := RunOfDedup(k, s', t[1..], ws[1..]);
      RunCons(k, s, t, ws[0], s', vs);
      vs := [ws[0]] + vs;
    }
  }

  /** Exactly the same miss counts are possible with and without repeats. */
  lemma SameMissCounts(k: nat, s: set<Page>, t: seq<Page>, n: nat)
    ensures (exists vs :: Run(k, s, t, vs) && Faults(k, s, t, vs) == n)
      <==> (exists ws :: Run(k, s, Dedup(t), ws) && Faults(k, s, Dedup(t), ws) == n)
  {
    if vs :| Run(k, s, t, vs) && Faults(k, s, t, vs) == n {
      var ws := DedupRun(k, s, t, vs);
    }
    if ws :| Run(k, s, Dedup(t), ws) && Faults(k, s, Dedup(t), ws) == n {
      var vs := RunOfDedup(k, s, t, ws);
    }
  }

  /** The printed hit rate, in percent: `xdups` removed references count as hits. */
  ghost function HitRate(hits: nat, miss: nat, xdups: nat): real
    requires hits + miss + xdups > 0
  {
    100.0 * (hits + xdups) as real / ((hits + xdups) as real + miss as real)
  }

  /** `rate` is the share, in percent, of `hits` in `all`. */
  ghost predicate IsShare(rate: real, hits: nat, all: nat) { rate * all as real == 100.0 * hits as real }

  /** Reporting the removed references through `xdups` restores the hit rate of
      the full trace: the share of its references that hit. */
  lemma XdupsRestoresHitRate(policy: Policy, k: nat, t: seq<Page>)
    requires policy.Fixed() && k >= 1 && t != []
    ensures Misses(policy, k, [], Dedup(t)) == Misses(policy, k, [], t) <= |Dedup(t)| <= |t|
    ensures var (d, miss) := (Dedup(t), Misses(policy, k, [], t));
      HitRate(|d| - miss, miss, |t| - |d|) == HitRate(|t| - miss, miss, 0)
      && IsShare(HitRate(|d| - miss, miss, |t| - |d|), |t| - miss, |t|)
  {
    var miss := Misses(policy, k, [], t);
    DedupHasNoRepeat(t);
    DedupKeepsMisses(policy, k, [], t);
    MissesAtMost(policy, k, [], t);
    MissesAtMost(policy, k, [], Dedup(t));
    RateOfAll(|t|, |Dedup(t)|, miss);
  }

  lemma RateOfAll(all: nat, kept: nat, miss: nat)
    requires miss <= kept <= all && all > 0
    ensures HitRate(kept - miss, miss, all - kept) == HitRate(all - miss, miss, 0)
    ensures IsShare(HitRate(kept - miss, miss, all - kept), all - miss, all)
  {
    Share(all - miss, miss, 0);
  }

  lemma Share(hits: nat, miss: nat, xdups: nat)
    requires hits + miss + xdups > 0
    ensures IsShare(HitRate(hits, miss, xdups), hits + xdups, hits + miss + xdups)
  {
    var all := (hits + miss + xdups) as real;
    assert (hits + xdups) as real + miss as real == all;
    Quotient(100.0 * (hits + xdups) as real, all);
  }

  lemma Quotient(x: real, y: real)
    requires y > 0.0
    ensures x / y * y == x
  {
  }

  lemma {:induction false} MissesAtMost(policy: Policy, k: nat, m: seq<Page>, t: seq<Page>)
    requires policy.Fixed() && k >= 1
    ensures Misses(policy, k, m, t) <= |t|
    decreases |t|
  {
    if t != [] { MissesAtMost(policy, k, Step(policy, k, m, t[0], t[1..]), t[1..]); }
  }
}
