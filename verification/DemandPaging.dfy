/** Demand paging on sets of resident pages.

    A run serves a trace of page references with room for `k` pages.  What a
    replacement policy may decide is which resident page to give up when a page
    is missing and memory is full; everything else is forced.  A run is
    therefore described by one victim per reference (read only on a full miss),
    and "every demand policy" means "every legal sequence of victims". */
module DemandPaging {

  type Page = int

  /** May `v` be given up when `r` is referenced? */
  ghost predicate Legal(k: nat, s: set<Page>, r: Page, v: Page) {
    r !in s && |s| >= k ==> v in s
  }

  ghost function Next(k: nat, s: set<Page>, r: Page, v: Page): set<Page> {
    if r in s then s
    else if |s| < k then s + {r}
    else s - {v} + {r}
  }

  ghost function Cost(s: set<Page>, r: Page): nat {
    if r in s then 0 else 1
  }

  ghost predicate Run(k: nat, s: set<Page>, t: seq<Page>, vs: seq<Page>)
    decreases |t|
  {
    |vs| == |t| &&
    (t != [] ==> Legal(k, s, t[0], vs[0]) && Run(k, Next(k, s, t[0], vs[0]), t[1..], vs[1..]))
  }

  /** Misses of the run that gives up the pages `vs`. */
  ghost function Faults(k: nat, s: set<Page>, t: seq<Page>, vs: seq<Page>): nat
    requires |vs| == |t|
    decreases |t|
  {
    if t == [] then 0
    else Cost(s, t[0]) + Faults(k, Next(k, s, t[0], vs[0]), t[1..], vs[1..])
  }

  /** Pages resident after the run. */
  ghost function Resident(k: nat, s: set<Page>, t: seq<Page>, vs: seq<Page>): set<Page>
    requires |vs| == |t|
    decreases |t|
  {
    if t == [] then s
    else Resident(k, Next(k, s, t[0], vs[0]), t[1..], vs[1..])
  }

  /** A run starts with its first reference. */
  lemma RunCons(k: nat, s: set<Page>, t: seq<Page>, v: Page, s': set<Page>, vs: seq<Page>)
    requires t != [] && Legal(k, s, t[0], v) && Next(k, s, t[0], v) == s' && Run(k, s', t[1..], vs)
    ensures Run(k, s, t, [v] + vs)
    ensures Faults(k, s, t, [v] + vs) == Cost(s, t[0]) + Faults(k, s', t[1..], vs)
  {
    assert ([v] + vs)[0] == v && ([v] + vs)[1..] == vs;
  }

  /** A run grows at its end by one reference. */
  lemma {:induction false} RunSnoc(k: nat, s: set<Page>, t: seq<Page>, vs: seq<Page>, r: Page, v: Page)
    requires Run(k, s, t, vs)
    requires Legal(k, Resident(k, s, t, vs), r, v)
    ensures Run(k, s, t + [r], vs + [v])
    ensures Faults(k, s, t + [r], vs + [v]) == Faults(k, s, t, vs) + Cost(Resident(k, s, t, vs), r)
    ensures Resident(k, s, t + [r], vs + [v]) == Next(k, Resident(k, s, t, vs), r, v)
    decreases |t|
  {
    var t', vs' := t + [r], vs + [v];
    if t == [] {
      assert t' == [r] && vs' == [v];
      assert t'[1..] == [] && vs'[1..] == [];
    } else {
      assert t'[0] == t[0] && t'[1..] == t[1..] + [r];
      assert vs'[0] == vs[0] && vs'[1..] == vs[1..] + [v];
      RunSnoc(k, Next(k, s, t[0], vs[0]), t[1..], vs[1..], r, v);
    }
  }

  lemma SubsetSize<T>(a: set<T>, b: set<T>)
    requires a <= b
    ensures |a| <= |b|
  {
    assert b == a + (b - a);
  }

  /** How many references pass before `p` is referenced; `|t|` if it never is. */
  function NextUse(p: Page, t: seq<Page>): nat {
    if t == [] || t[0] == p then 0 else 1 + NextUse(p, t[1..])
  }

  /** `NextUse` is the first position of `p`, or the length. */
  lemma {:induction false} NextUseIsFirst(p: Page, t: seq<Page>)
    ensures NextUse(p, t) <= |t|
    ensures NextUse(p, t) < |t| ==> t[NextUse(p, t)] == p
    ensures forall j :: 0 <= j < NextUse(p, t) ==> t[j] != p
  {
    if t != [] && t[0] != p {
      NextUseIsFirst(p, t[1..]);
      forall j | 0 <= j < NextUse(p, t) ensures t[j] != p {
        if j > 0 { assert t[j] == t[1..][j - 1]; }
      }
    }
  }
}
