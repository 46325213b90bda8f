/** OPT and UNOPT bound every demand policy. */
module Belady {
  import opened DemandPaging
  import opened Exchange
  import opened PagingPolicy

  /** After a full miss, the memory of the policy and that of the run are one
      common part plus one page each. */
  lemma SplitMiss(k: nat, m: seq<Page>, r: Page, mine: Page, theirs: Page) returns (s: set<Page>)
    requires Holds(k, m) && |m| == k && r !in m
    requires mine in m && theirs in m && mine != theirs
    ensures mine !in s && theirs !in s && |s| + 1 == k
    ensures Next(k, Pages(m), r, theirs) == s + {mine}
    ensures Next(k, Pages(m), r, mine) == s + {theirs}
  {
    PagesSize(m);
    s := Pages(m) - {mine} - {theirs} + {r};
    assert Pages(m) - {theirs} + {r} == s + {mine};
    assert Pages(m) - {mine} + {r} == s + {theirs};
  }

  /** No demand policy misses less often than OPT. */
  lemma {:induction false} OptIsOptimal(k: nat, m: seq<Page>, t: seq<Page>, vs: seq<Page>)
    requires k >= 1 && Holds(k, m)
    requires Run(k, Pages(m), t, vs)
    ensures Misses(OPT, k, m, t) <= Faults(k, Pages(m), t, vs)
    decreases |t|
  {
    if t == [] { return; }
    var v, m' := PolicyStep(OPT, k, m, t);
    var ws := vs[1..];
    PagesSize(m);
    if t[0] !in m && |m| == k && vs[0] != v {
      var s := SplitMiss(k, m, t[0], v, vs[0]);
      ws := KeepSooner(k, s, v, vs[0], t[1..], ws);
    }
    OptIsOptimal(k, m', t[1..], ws);
  }

  /** No demand policy misses more often than UNOPT. */
  lemma {:induction false} UnoptIsPessimal(k: nat, m: seq<Page>, t: seq<Page>, vs: seq<Page>)
    requires k >= 1 && Holds(k, m)
    requires Run(k, Pages(m), t, vs)
    ensures Faults(k, Pages(m), t, vs) <= Misses(UNOPT, k, m, t)
    decreases |t|
  {
    if t == [] { return; }
    var v, m' := PolicyStep(UNOPT, k, m, t);
    var ws := vs[1..];
    PagesSize(m);
    if t[0] !in m && |m| == k && vs[0] != v {
      var s := SplitMiss(k, m, t[0], v, vs[0]);
      ws := KeepLater(k, s, vs[0], v, t[1..], ws);
    }
    UnoptIsPessimal(k, m', t[1..], ws);
  }

  /** With more room OPT misses no more often. */
  lemma OptMoreRoom(k: nat, k': nat, t: seq<Page>)
    requires 1 <= k <= k'
    ensures Misses(OPT, k', [], t) <= Misses(OPT, k, [], t)
  {
    var vs := PolicyIsDemand(OPT, k, [], t);
    var ws := MoreRoom(k, Pages([]), k', Pages([]), t, vs);
    OptIsOptimal(k', [], t, ws);
  }
}
