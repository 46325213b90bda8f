/** LRU and FIFO with room for `k` pages against any demand policy with room for
    `h <= k`: misses times `k - h + 1` are at most `k` times the other's misses,
    and a constant; with equal room, at most `k` times as many.

    The proof keeps a potential: every page that the list policy holds and the
    other run does not, a stray, is weighted by its place in the list, the front
    (next to go) weighing `base` and the back `base + |m| - 1`. */
module Competitive {
  import opened DemandPaging
  import opened PagingPolicy

  ghost function Potential(m: seq<Page>, o: set<Page>, base: nat): nat {
    if m == [] then 0
    else (if m[0] in o then 0 else base) + Potential(m[1..], o, base + 1)
  }

  ghost function Strays(m: seq<Page>, o: set<Page>): nat {
    if m == [] then 0 else (if m[0] in o then 0 else 1) + Strays(m[1..], o)
  }

  /** Moving every page one place towards the front pays one for each stray. */
  lemma {:induction false} ShiftPays(m: seq<Page>, o: set<Page>, base: nat)
    ensures Potential(m, o, base) + Strays(m, o) == Potential(m, o, base + 1)
  {
    if m != [] { ShiftPays(m[1..], o, base + 1); }
  }

  lemma {:induction false} StraysIgnore(m: seq<Page>, o: set<Page>, p: Page)
    requires p !in m
    ensures Strays(m, o - {p}) == Strays(m, o)
  {
    if m != [] { StraysIgnore(m[1..], o, p); }
  }

  /** What the other run has no room for is stray. */
  lemma {:induction false} StraysBound(m: seq<Page>, o: set<Page>)
    requires Distinct(m)
    ensures Strays(m, o) >= |m| - |o|
  {
    if m != [] {
      if m[0] in o {
        StraysBound(m[1..], o - {m[0]});
        StraysIgnore(m[1..], o, m[0]);
      } else {
        StraysBound(m[1..], o);
      }
    }
  }

  /** The other run may drop one page at the price of the greatest weight. */
  lemma {:induction false} DropCosts(m: seq<Page>, o: set<Page>, v: Page, base: nat)
    requires Distinct(m)
    ensures Potential(m, o - {v}, base) <= Potential(m, o, base) + (if v in m then base + |m| - 1 else 0)
  {
    if m != [] {
      DropCosts(m[1..], o, v, base + 1);
    }
  }

  lemma {:induction false} AddHelps(m: seq<Page>, o: set<Page>, o': set<Page>, base: nat)
    requires o <= o'
    ensures Potential(m, o', base) <= Potential(m, o, base)
  {
    if m != [] { AddHelps(m[1..], o, o', base + 1); }
  }

  /** A page held by both weighs nothing at the back. */
  lemma {:induction false} AppendFree(m: seq<Page>, n: Page, o: set<Page>, base: nat)
    requires n in o
    ensures Potential(m + [n], o, base) == Potential(m, o, base)
  {
    if m == [] {
      assert (m + [n])[1..] == [];
    } else {
      assert (m + [n])[1..] == m[1..] + [n];
      AppendFree(m[1..], n, o, base + 1);
    }
  }

  lemma {:induction false} RemoveFree(m: seq<Page>, i: nat, o: set<Page>, base: nat)
    requires i < |m|
    ensures Potential(RemoveAt(m, i), o, base) <= Potential(m, o, base)
  {
    if i == 0 {
      assert RemoveAt(m, i) == m[1..];
      ShiftPays(m[1..], o, base);
    } else {
      assert RemoveAt(m, i)[1..] == RemoveAt(m[1..], i - 1);
      RemoveFree(m[1..], i - 1, o, base + 1);
    }
  }

  lemma {:induction false} NoneStray(m: seq<Page>, o: set<Page>, base: nat)
    requires Pages(m) <= o
    ensures Potential(m, o, base) == 0
  {
    if m != [] {
      assert m[0] in Pages(m);
      assert Pages(m[1..]) <= Pages(m);
      NoneStray(m[1..], o, base + 1);
    }
  }

  function Triangle(n: nat): nat { if n == 0 then 0 else n + Triangle(n - 1) }

  /** What links the list `m` and the other run's pages `o`: all of them are in
      the list until it is full, and as many as there is room for. */
  ghost predicate Coupled(k: nat, h: nat, m: seq<Page>, o: set<Page>) {
    1 <= h <= k && Holds(k, m) && |o| == (if |m| < h then |m| else h) && (|m| < k ==> o <= Pages(m))
  }

  /** `aside[n]` is put aside for filling a list of `n` pages: `k - n` for each
      page beyond `h`. */
  ghost predicate PutAside(k: nat, h: nat, aside: seq<nat>) {
    |aside| == k + 1 && forall n :: 0 <= n < k ==> aside[n] == aside[n + 1] + if n < h then 0 else k - n
  }

  lemma {:induction false} Asides(k: nat, h: nat, n: nat) returns (aside: seq<nat>)
    requires 1 <= h <= k && n <= k
    ensures |aside| == n + 1 && aside[n] == 0
    ensures forall i :: 0 <= i < n ==> aside[i] == aside[i + 1] + if i + (k - n) < h then 0 else n - i
    ensures aside[0] == Triangle(if n < k - h then n else k - h)
    decreases n
  {
    aside := [0];
    if n > 0 {
      var rest := Asides(k, h, n - 1);
      aside := [rest[0] + if k - n < h then 0 else n] + rest;
      forall i | 0 <= i < n ensures aside[i] == aside[i + 1] + if i + (k - n) < h then 0 else n - i {
        if i > 0 { assert aside[i] == rest[i - 1] && aside[i + 1] == rest[i]; }
      }
    }
  }

  /** The potential, and what is put aside. */
  ghost function Phi(k: nat, aside: seq<nat>, m: seq<Page>, o: set<Page>): nat
    requires |m| <= k < |aside|
  {
    Potential(m, o, k - |m| + 1) + aside[|m|]
  }

  /** The other run's move: it pays `k` for a miss. */
  lemma OtherMoves(k: nat, h: nat, aside: seq<nat>, m: seq<Page>, o: set<Page>, r: Page, v: Page)
    requires PutAside(k, h, aside) && Coupled(k, h, m, o) && Legal(h, o, r, v)
    ensures Phi(k, aside, m, Next(h, o, r, v)) <= Phi(k, aside, m, o) + if r in o then 0 else k
  {
    var b := k - |m| + 1;
    if r !in o {
      if |o| < h {
        AddHelps(m, o, o + {r}, b);
      } else {
        DropCosts(m, o, v, b);
        AddHelps(m, o - {v}, o - {v} + {r}, b);
      }
    }
  }

  /** A hit of the list policy costs nothing. */
  lemma HitMoves(policy: Policy, k: nat, h: nat, aside: seq<nat>, m: seq<Page>, o: set<Page>, r: Page, future: seq<Page>)
    requires 1 <= h <= k && (policy == LRU || policy == FIFO) && Holds(k, m) && r in o && r in m
    requires |aside| == k + 1
    ensures var m' := Step(policy, k, m, r, future); |m'| == |m| && Phi(k, aside, m', o) <= Phi(k, aside, m, o)
  {
    if policy == LRU {
      var i, b := IndexOf(m, r), k - |m| + 1;
      RemoveFree(m, i, o, b);
      AppendFree(RemoveAt(m, i), r, o, b);
    }
  }

  /** A miss, once the other run holds `r`, is paid for by the strays moving up,
      and while the list fills from what was put aside. */
  lemma MissMoves(policy: Policy, k: nat, h: nat, aside: seq<nat>, m: seq<Page>, o: set<Page>, r: Page, future: seq<Page>)
    requires 1 <= h <= k && (policy == LRU || policy == FIFO) && Holds(k, m) && r in o && r !in m
    requires PutAside(k, h, aside) && h <= |m| && |o| == h
    ensures var m' := Step(policy, k, m, r, future);
      |m'| <= k && Phi(k, aside, m', o) + (k - h + 1) <= Phi(k, aside, m, o)
  {
    EnoughStrays(m, o, r);
    if |m| == k {
      assert RemoveAt(m, 0) == m[1..];
      FrontGoes(m, o, r);
    } else {
      ShiftPays(m, o, k - |m|);
      AppendFree(m, r, o, k - |m|);
    }
  }

  lemma EnoughStrays(m: seq<Page>, o: set<Page>, r: Page)
    requires Distinct(m) && r in o && r !in m
    ensures Strays(m, o) >= |m| - |o| + 1
  {
    StraysIgnore(m, o, r);
    StraysBound(m, o - {r});
  }

  /** In a full list the front page goes, and all others move up. */
  lemma FrontGoes(m: seq<Page>, o: set<Page>, r: Page)
    requires m != [] && r in o
    ensures Potential(m[1..] + [r], o, 1) + Strays(m, o) == Potential(m, o, 1)
  {
    ShiftPays(m[1..], o, 1);
    AppendFree(m[1..], r, o, 1);
  }

  lemma NextSize(k: nat, o: set<Page>, r: Page, v: Page)
    requires Legal(k, o, r, v) && |o| <= k && k >= 1
    ensures r in Next(k, o, r, v)
    ensures |Next(k, o, r, v)| == if r !in o && |o| < k then |o| + 1 else |o|
  {
  }

  /** Both sides stay linked. */
  lemma CoupledStep(policy: Policy, k: nat, h: nat, m: seq<Page>, o: set<Page>, t: seq<Page>, v: Page) returns (m': seq<Page>)
    requires (policy == LRU || policy == FIFO) && Coupled(k, h, m, o) && t != [] && Legal(h, o, t[0], v)
    ensures m' == Step(policy, k, m, t[0], t[1..]) && Coupled(k, h, m', Next(h, o, t[0], v))
    ensures |m'| == if t[0] !in m && |m| < k then |m| + 1 else |m|
    ensures |m| < h ==> (t[0] in o <==> t[0] in m) && Pages(m) == o && Pages(m') == Next(h, o, t[0], v)
  {
    var r := t[0];
    var w;
    w, m' := PolicyStep(policy, k, m, t);
    PagesSize(m);
    PagesSize(m');
    NextSize(h, o, r, v);
    NextSize(k, Pages(m), r, w);
    if |m| < h { Equal(o, Pages(m)); }
  }

  lemma Equal<T>(a: set<T>, b: set<T>)
    requires a <= b && |a| == |b|
    ensures a == b
  {
    assert b == a + (b - a);
  }

  /** One reference, both sides moving. */
  lemma BothMove(policy: Policy, k: nat, h: nat, aside: seq<nat>, m: seq<Page>, o: set<Page>, t: seq<Page>, v: Page) returns (m': seq<Page>)
    requires PutAside(k, h, aside)
    requires (policy == LRU || policy == FIFO) && Coupled(k, h, m, o) && t != [] && Legal(h, o, t[0], v)
    ensures m' == Step(policy, k, m, t[0], t[1..]) && Coupled(k, h, m', Next(h, o, t[0], v))
    ensures Phi(k, aside, m', Next(h, o, t[0], v)) + (if t[0] in m then 0 else k - h + 1)
      <= Phi(k, aside, m, o) + if t[0] in o then 0 else k
  {
    var r, o' := t[0], Next(h, o, t[0], v);
    m' := CoupledStep(policy, k, h, m, o, t, v);
    NextSize(h, o, r, v);
    if |m| < h {
      NoneStray(m', o', k - |m'| + 1);
    } else {
      OtherMoves(k, h, aside, m, o, r, v);
      if r in m { HitMoves(policy, k, h, aside, m, o', r, t[1..]); } else { MissMoves(policy, k, h, aside, m, o', r, t[1..]); }
    }
  }

  /** `d` for each miss is paid by `k` for each fault and the potential. */
  ghost predicate Paid(k: nat, d: nat, misses: nat, faults: nat, phi: nat) {
    Times(d, misses) <= Times(k, faults) + phi
  }

  ghost function Times(n: nat, c: nat): nat { if c == 0 then 0 else n + Times(n, c - 1) }

  lemma {:induction false} TimesIs(n: nat, c: nat)
    ensures Times(n, c) == n * c
  {
    if c > 0 {
      TimesIs(n, c - 1);
      assert n * c == n * (c - 1) + n;
    }
  }

  /** The account of one reference added to that of the rest. */
  lemma AddUp(k: nat, d: nat, missed: bool, misses: nat, faulted: bool, faults: nat, phi: nat, phi': nat)
    requires phi' + (if missed then d else 0) <= phi + if faulted then k else 0
    requires Paid(k, d, misses, faults, phi')
    ensures Paid(k, d, (if missed then 1 else 0) + misses, (if faulted then 1 else 0) + faults, phi)
  {
    assert Times(d, misses + 1) == d + Times(d, misses) && Times(k, faults + 1) == k + Times(k, faults);
  }

  lemma MissesCons(policy: Policy, k: nat, m: seq<Page>, t: seq<Page>, m': seq<Page>)
    requires policy.Fixed() && k >= 1 && t != [] && m' == Step(policy, k, m, t[0], t[1..])
    ensures Misses(policy, k, m, t) == (if t[0] !in m then 1 else 0) + Misses(policy, k, m', t[1..])
  {
  }

  lemma FaultsCons(h: nat, o: set<Page>, t: seq<Page>, vs: seq<Page>)
    requires t != [] && |vs| == |t|
    ensures Faults(h, o, t, vs) == (if t[0] !in o then 1 else 0) + Faults(h, Next(h, o, t[0], vs[0]), t[1..], vs[1..])
  {
  }

  /** List and rival with `phi` in hand. */
  ghost predicate Playing(k: nat, h: nat, aside: seq<nat>, m: seq<Page>, o: set<Page>, phi: nat) {
    PutAside(k, h, aside) && Coupled(k, h, m, o) && Phi(k, aside, m, o) <= phi
  }

  /** What the first reference adds to misses and faults, and what is left in hand. */
  ghost predicate FirstCharge(policy: Policy, k: nat, h: nat, m: seq<Page>, o: set<Page>, t: seq<Page>, vs: seq<Page>, phi: nat,
                              m': seq<Page>, o': set<Page>, phi': nat)
    requires policy.Fixed() && 1 <= h <= k && t != [] && |vs| == |t|
  {
    Misses(policy, k, m, t) == (if t[0] !in m then 1 else 0) + Misses(policy, k, m', t[1..])
    && Faults(h, o, t, vs) == (if t[0] !in o then 1 else 0) + Faults(h, o', t[1..], vs[1..])
    && phi' + (if t[0] !in m then k - h + 1 else 0) == phi + if t[0] !in o then k else 0
  }

  /** The first reference. */
  lemma FirstReference(policy: Policy, k: nat, h: nat, aside: seq<nat>, m: seq<Page>, o: set<Page>, t: seq<Page>, vs: seq<Page>, phi: nat)
    returns (m': seq<Page>, o': set<Page>, phi': nat)
    requires (policy == LRU || policy == FIFO) && Playing(k, h, aside, m, o, phi) && Run(h, o, t, vs) && t != []
    ensures Playing(k, h, aside, m', o', phi') && Run(h, o', t[1..], vs[1..])
    ensures FirstCharge(policy, k, h, m, o, t, vs, phi, m', o', phi')
  {
    m' := BothMove(policy, k, h, aside, m, o, t, vs[0]);
    o' := Next(h, o, t[0], vs[0]);
    MissesCons(policy, k, m, t, m');
    FaultsCons(h, o, t, vs);
    phi' := phi + (if t[0] !in o then k else 0) - if t[0] !in m then k - h + 1 else 0;
  }

  /** The charge in numbers. */
  lemma Charged(k: nat, d: nat, missed: bool, misses: nat, rest: nat, faulted: bool, faults: nat, left: nat, phi: nat, phi': nat)
    requires misses == (if missed then 1 else 0) + rest && faults == (if faulted then 1 else 0) + left
    requires phi' + (if missed then d else 0) <= phi + if faulted then k else 0
    requires Paid(k, d, rest, left, phi')
    ensures Paid(k, d, misses, faults, phi)
  {
    AddUp(k, d, missed, rest, faulted, left, phi, phi');
  }

  lemma OneMore(policy: Policy, k: nat, h: nat, m: seq<Page>, o: set<Page>, t: seq<Page>, vs: seq<Page>, phi: nat,
                m': seq<Page>, o': set<Page>, phi': nat)
    requires policy.Fixed() && 1 <= h <= k && t != [] && |vs| == |t|
    requires FirstCharge(policy, k, h, m, o, t, vs, phi, m', o', phi')
    requires Paid(k, k - h + 1, Misses(policy, k, m', t[1..]), Faults(h, o', t[1..], vs[1..]), phi')
    ensures Paid(k, k - h + 1, Misses(policy, k, m, t), Faults(h, o, t, vs), phi)
  {
    Charged(k, k - h + 1, t[0] !in m, Misses(policy, k, m, t), Misses(policy, k, m', t[1..]),
            t[0] !in o, Faults(h, o, t, vs), Faults(h, o', t[1..], vs[1..]), phi, phi');
  }

  lemma {:induction false} Amortized(policy: Policy, k: nat, h: nat, aside: seq<nat>, m: seq<Page>, o: set<Page>,
                                     t: seq<Page>, vs: seq<Page>, phi: nat)
    requires (policy == LRU || policy == FIFO) && Playing(k, h, aside, m, o, phi) && Run(h, o, t, vs)
    ensures Paid(k, k - h + 1, Misses(policy, k, m, t), Faults(h, o, t, vs), phi)
    decreases |t|
  {
    if t != [] {
      var m', o', phi' := FirstReference(policy, k, h, aside, m, o, t, vs, phi);
      Amortized(policy, k, h, aside, m', o', t[1..], vs[1..], phi');
      OneMore(policy, k, h, m, o, t, vs, phi, m', o', phi');
    }
  }

  /** From an empty memory, LRU and FIFO with room for `k` against any demand
      policy with room for `h`. */
  lemma UnequalRoom(policy: Policy, k: nat, h: nat, t: seq<Page>, vs: seq<Page>)
    requires 1 <= h <= k && (policy == LRU || policy == FIFO)
    requires Run(h, {}, t, vs)
    ensures (k - h + 1) * Misses(policy, k, [], t) <= k * Faults(h, {}, t, vs) + Triangle(k - h)
  {
    assert Pages([]) == {};
    var aside := Asides(k, h, k);
    Amortized(policy, k, h, aside, [], {}, t, vs, Triangle(k - h));
    TimesIs(k - h + 1, Misses(policy, k, [], t));
    TimesIs(k, Faults(h, {}, t, vs));
  }

  /** With equal room they miss at most `k` times as often. */
  lemma KCompetitive(policy: Policy, k: nat, t: seq<Page>, vs: seq<Page>)
    requires k >= 1 && (policy == LRU || policy == FIFO)
    requires Run(k, {}, t, vs)
    ensures Misses(policy, k, [], t) <= k * Faults(k, {}, t, vs)
  {
    UnequalRoom(policy, k, k, t, vs);
  }

  /** In particular, at most `k` times as often as OPT. */
  lemma KCompetitiveWithOpt(policy: Policy, k: nat, t: seq<Page>)
    requires k >= 1 && (policy == LRU || policy == FIFO)
    ensures Misses(policy, k, [], t) <= k * Misses(OPT, k, [], t)
  {
    assert Pages([]) == {};
    var vs := PolicyIsDemand(OPT, k, [], t);
    KCompetitive(policy, k, t, vs);
  }

  /** Twice the room of OPT: at most about twice its misses. */
  lemma TwiceTheRoom(policy: Policy, h: nat, t: seq<Page>)
    requires h >= 1 && (policy == LRU || policy == FIFO)
    ensures (h + 1) * Misses(policy, 2 * h, [], t) <= 2 * h * Misses(OPT, h, [], t) + Triangle(h)
  {
    assert Pages([]) == {};
    var vs := PolicyIsDemand(OPT, h, [], t);
    UnequalRoom(policy, 2 * h, h, t, vs);
  }
}
