/** When a larger FIFO cache can miss more often than a smaller one. */
module FifoAnomaly {
  import opened DemandPaging
  import opened PagingPolicy

  /** The FIFO list after a reference. */
  function Fifo(k: nat, m: seq<Page>, r: Page): seq<Page> {
    if r in m then m else if |m| == k && k > 0 then m[1..] + [r] else m + [r]
  }

  lemma FifoStep(k: nat, m: seq<Page>, t: seq<Page>)
    requires k >= 1 && |m| <= k && t != []
    ensures Misses(FIFO, k, m, t) == (if t[0] in m then 0 else 1) + Misses(FIFO, k, Fifo(k, m, t[0]), t[1..])
  {
    if t[0] !in m && |m| == k { assert RemoveAt(m, 0) == m[1..]; }
  }

  // From k' = 2k - 1 on there is no anomaly

  /** The list holds the last loads; `at[p]` is the number of loads before the
      last one of `p`, of `n` loads in all. */
  ghost predicate Loads(k: nat, m: seq<Page>, n: nat, at: map<Page, int>) {
    |m| == (if n < k then n else k)
    && (forall i :: 0 <= i < |m| ==> m[i] in at && at[m[i]] == n - |m| + i)
    && (forall p :: p in at && p !in m ==> at[p] < n - k)
  }

  lemma LoadsDistinct(k: nat, m: seq<Page>, n: nat, at: map<Page, int>)
    requires Loads(k, m, n, at)
    ensures Distinct(m)
    ensures forall p :: p in m ==> p in at && n - |m| <= at[p] < n
  {
  }

  lemma LoadsNext(k: nat, m: seq<Page>, n: nat, at: map<Page, int>, r: Page)
    requires k >= 1 && Loads(k, m, n, at) && r !in m
    ensures Loads(k, Fifo(k, m, r), n + 1, at[r := n])
  {
    var m' := Fifo(k, m, r);
    assert |m| == k ==> m[0] in at && at[m[0]] == n - k;
    forall i | 0 <= i < |m'| ensures m'[i] in at[r := n] && at[r := n][m'[i]] == n + 1 - |m'| + i {
      if i < |m'| - 1 { assert m'[i] in m; }
    }
    forall p | p in at[r := n] && p !in m' ensures at[r := n][p] < n + 1 - k {
      if p in m { assert p == m[0]; }
    }
  }

  /** A small and a large list side by side.  A page of the small list is in `u` if
      it was loaded while the large one held it, and has not been missed there
      since; the loads the small list is ahead pay for `u`. */
  datatype Pair = Pair(m: seq<Page>, n: nat, at: map<Page, int>, m': seq<Page>, n': nat, at': map<Page, int>, u: set<Page>)

  ghost predicate Ahead(k: nat, k': nat, s: Pair) {
    Loads(k, s.m, s.n, s.at) && Loads(k', s.m', s.n', s.at')
    && (forall p :: p in s.m ==> p in s.at')
    && (forall p :: p in s.u ==> p in s.m)
    && s.n - s.n' >= |s.u|
    && forall p :: p in s.m && p !in s.u ==> s.n - s.n' - |s.u| >= s.at[p] - s.at'[p] - k + 1
  }

  lemma UnusedFit(m: seq<Page>, u: set<Page>)
    requires forall p :: p in u ==> p in m
    requires Distinct(m)
    ensures |u| <= |m|
  {
    PagesSize(m);
    assert u <= Pages(m) by { forall p | p in u ensures p in Pages(m) { assert p in m; } }
    SubsetSize(u, Pages(m));
  }

  /** Only a page of `u` can be missed by the large list alone. */
  lemma OnlyUnused(k: nat, k': nat, s: Pair, r: Page)
    requires k >= 1 && k' >= 2 * k - 1 && Ahead(k, k', s) && r in s.m && r !in s.m'
    ensures r in s.u
  {
    LoadsDistinct(k, s.m, s.n, s.at);
  }

  lemma LargeMisses(k: nat, k': nat, s: Pair, r: Page) returns (s': Pair)
    requires k >= 1 && k' >= 2 * k - 1 && Ahead(k, k', s) && r in s.m && r !in s.m'
    ensures s'.m == s.m && s'.m' == Fifo(k', s.m', r) && s'.n == s.n && s'.n' == s.n' + 1
    ensures Ahead(k, k', s')
  {
    OnlyUnused(k, k', s, r);
    LoadsDistinct(k, s.m, s.n, s.at);
    LoadsNext(k', s.m', s.n', s.at', r);
    UnusedFit(s.m, s.u);
    s' := s.(m' := Fifo(k', s.m', r), n' := s.n' + 1, at' := s.at'[r := s.n'], u := s.u - {r});
  }

  lemma SmallMisses(k: nat, k': nat, s: Pair, r: Page) returns (s': Pair)
    requires k >= 1 && Ahead(k, k', s) && r !in s.m && r in s.m'
    ensures s'.m == Fifo(k, s.m, r) && s'.m' == s.m' && s'.n == s.n + 1 && s'.n' == s.n'
    ensures Ahead(k, k', s')
  {
    LoadsNext(k, s.m, s.n, s.at, r);
    LoadsDistinct(k', s.m', s.n', s.at');
    var m := Fifo(k, s.m, r);
    var kept := set p | p in s.u && p in m;
    SubsetSize(kept, s.u);
    s' := s.(m := m, n := s.n + 1, at := s.at[r := s.n], u := kept + {r});
  }

  lemma BothMiss(k: nat, k': nat, s: Pair, r: Page) returns (s': Pair)
    requires k >= 1 && k' >= 1 && Ahead(k, k', s) && r !in s.m && r !in s.m'
    ensures s'.m == Fifo(k, s.m, r) && s'.m' == Fifo(k', s.m', r) && s'.n == s.n + 1 && s'.n' == s.n' + 1
    ensures Ahead(k, k', s')
  {
    LoadsNext(k, s.m, s.n, s.at, r);
    LoadsNext(k', s.m', s.n', s.at', r);
    var m := Fifo(k, s.m, r);
    LoadsDistinct(k, m, s.n + 1, s.at[r := s.n]);
    var u := StillUnused(k, s.m, s.u, r);
    s' := Pair(m, s.n + 1, s.at[r := s.n], Fifo(k', s.m', r), s.n' + 1, s.at'[r := s.n'], u);
    assert s.n - s.n' - |u| >= s.n - s.n' - k + 1;
    forall p | p in m && p !in u ensures s.n - s.n' - |u| >= s'.at[p] - s'.at'[p] - k + 1 {
      if p != r { assert p in s.m && p !in s.u; }
    }
  }

  /** The pages of `u` that a load of `r` leaves in the list. */
  lemma StillUnused(k: nat, m: seq<Page>, u: set<Page>, r: Page) returns (kept: set<Page>)
    requires k >= 1 && |m| <= k && r !in m && Distinct(Fifo(k, m, r)) && forall p :: p in u ==> p in m
    ensures forall p :: p in kept <==> p in u && p in Fifo(k, m, r)
    ensures |kept| <= |u| && |kept| <= k - 1
  {
    var m' := Fifo(k, m, r);
    kept := set p | p in u && p in m';
    SubsetSize(kept, u);
    UnusedFit(m', kept + {r});
  }

  lemma {:induction false} StaysAhead(k: nat, k': nat, s: Pair, t: seq<Page>)
    requires k >= 1 && k' >= 2 * k - 1 && Ahead(k, k', s)
    ensures s.n' + Misses(FIFO, k', s.m', t) <= s.n + Misses(FIFO, k, s.m, t)
    decreases |t|
  {
    if t == [] { return; }
    FifoStep(k, s.m, t);
    FifoStep(k', s.m', t);
    var r, s' := t[0], s;
    if r in s.m && r !in s.m' {
      s' := LargeMisses(k, k', s, r);
    } else if r !in s.m && r in s.m' {
      s' := SmallMisses(k, k', s, r);
    } else if r !in s.m {
      s' := BothMiss(k, k', s, r);
    }
    StaysAhead(k, k', s', t[1..]);
  }

  /** A FIFO cache of at least `2k - 1` pages never misses more often than one of `k`. */
  lemma NoAnomaly(k: nat, k': nat, t: seq<Page>)
    requires k >= 1 && k' >= 2 * k - 1
    ensures Misses(FIFO, k', [], t) <= Misses(FIFO, k, [], t)
  {
    StaysAhead(k, k', Pair([], 0, map[], [], 0, map[], {}), t);
  }

  // Below that there is

  /** The last `k` of the loads `h`. */
  function Last(k: nat, h: seq<Page>): seq<Page> {
    if |h| <= k then h else h[|h| - k..]
  }

  /** Every reference of `t` is to a page not among the last `k` loads. */
  ghost predicate AllNew(k: nat, h: seq<Page>, t: seq<Page>) {
    forall i, p :: 0 <= i < |t| && 0 <= p < |h| + i && |h| + i - k <= p ==> (h + t)[p] != t[i]
  }

  /** References that all miss. */
  lemma {:induction false} MissRun(k: nat, h: seq<Page>, t: seq<Page>, rest: seq<Page>)
    requires k >= 1 && AllNew(k, h, t)
    ensures Misses(FIFO, k, Last(k, h), t + rest) == |t| + Misses(FIFO, k, Last(k, h + t), rest)
    decreases |t|
  {
    if t == [] {
      assert t + rest == rest && h + t == h;
    } else {
      var h', t' := h + [t[0]], t[1..];
      assert h' + t' == h + t && (t + rest)[1..] == t' + rest;
      FifoStep(k, Last(k, h), t + rest);
      NewAtHead(k, h, t);
      assert AllNew(k, h', t');
      MissRun(k, h', t', rest);
    }
  }

  lemma NewAtHead(k: nat, h: seq<Page>, t: seq<Page>)
    requires k >= 1 && AllNew(k, h, t) && t != []
    ensures t[0] !in Last(k, h) && Fifo(k, Last(k, h), t[0]) == Last(k, h + [t[0]])
  {
    forall p | 0 <= p < |h| && |h| - k <= p ensures h[p] != t[0] { assert (h + t)[p] == h[p]; }
    NotInLast(k, h, t[0]);
    LastGrows(k, h, t[0]);
  }

  lemma NotInLast(k: nat, h: seq<Page>, r: Page)
    requires forall p :: 0 <= p < |h| && |h| - k <= p ==> h[p] != r
    ensures r !in Last(k, h)
  {
  }

  lemma LastGrows(k: nat, h: seq<Page>, r: Page)
    requires k >= 1
    ensures Last(k, h + [r]) == (if |h| < k then h else Last(k, h)[1..]) + [r]
  {
  }

  /** References that all hit. */
  lemma {:induction false} HitRun(k: nat, m: seq<Page>, t: seq<Page>, rest: seq<Page>)
    requires k >= 1 && |m| <= k && forall i :: 0 <= i < |t| ==> t[i] in m
    ensures Misses(FIFO, k, m, t + rest) == Misses(FIFO, k, m, rest)
    decreases |t|
  {
    if t == [] {
      assert t + rest == rest;
    } else {
      assert (t + rest)[1..] == t[1..] + rest;
      FifoStep(k, m, t + rest);
      HitRun(k, m, t[1..], rest);
    }
  }

  /** The pages `a` to `b - 1`. */
  function Range(a: int, b: int): (s: seq<Page>)
    requires a <= b
    ensures |s| == b - a && forall i :: 0 <= i < |s| ==> s[i] == a + i
  {
    seq(b - a, i => a + i)
  }

  /** Pages beyond all that were loaded. */
  lemma BeyondIsNew(k: nat, h: seq<Page>, a: int, b: int)
    requires a <= b && forall p :: 0 <= p < |h| ==> h[p] < a
    ensures AllNew(k, h, Range(a, b))
  {
  }

  // The parts of the trace, for 1 <= k < k' <= 2k - 2

  function Fill(k': nat): seq<Page> { Range(1, k' + 1) }

  function Again(k: nat): seq<Page>
    requires k >= 1
  {
    Range(1, k)
  }

  function One(k': nat): seq<Page> { Range(k' + 1, k' + 2) }

  function More(k: nat, k': nat): seq<Page>
    requires k <= k'
  {
    Range(k' + 2, 2 * k' - k + 3)
  }

  /** Fill the large cache; read again what the small one has lost; one new page
      for both; the pages read again, which only the large one has lost by now; new
      pages for both; and the one new page, which only the small one still has. */
  function Trace(k: nat, k': nat): seq<Page>
    requires 1 <= k <= k'
  {
    Fill(k') + (Again(k) + (One(k') + Tail(k, k')))
  }

  function Tail(k: nat, k': nat): seq<Page>
    requires 1 <= k <= k'
  {
    Again(k) + (More(k, k') + (One(k') + []))
  }

  lemma AgainIsNewToSmall(k: nat, k': nat)
    requires 1 <= k < k' <= 2 * k - 2
    ensures AllNew(k, Fill(k'), Again(k))
  {
    var h := Fill(k') + Again(k);
    assert forall p :: 0 <= p < k' ==> h[p] == p + 1;
    assert forall p :: k' <= p < |h| ==> h[p] == p - k' + 1;
  }

  lemma FillMisses(q: nat, k: nat, k': nat)
    requires q >= 1 && 1 <= k <= k'
    ensures Misses(FIFO, q, [], Trace(k, k')) == k' + Misses(FIFO, q, Last(q, Fill(k')), Again(k) + (One(k') + Tail(k, k')))
  {
    BeyondIsNew(q, [], 1, k' + 1);
    assert [] + Fill(k') == Fill(k');
    MissRun(q, [], Fill(k'), Again(k) + (One(k') + Tail(k, k')));
  }

  lemma LastOfSmall(k: nat, k': nat)
    requires 1 <= k < k'
    ensures Last(k, Fill(k') + Again(k) + One(k')) == Again(k) + One(k')
  {
  }

  lemma SmallFirst(k: nat, k': nat)
    requires 1 <= k < k' <= 2 * k - 2
    ensures Misses(FIFO, k, [], Trace(k, k')) == k' + k + Misses(FIFO, k, Again(k) + One(k'), Tail(k, k'))
  {
    var h := Fill(k') + Again(k);
    FillMisses(k, k, k');
    AgainIsNewToSmall(k, k');
    MissRun(k, Fill(k'), Again(k), One(k') + Tail(k, k'));
    BeyondIsNew(k, h, k' + 1, k' + 2);
    MissRun(k, h, One(k'), Tail(k, k'));
    LastOfSmall(k, k');
  }

  lemma SmallThen(k: nat, k': nat)
    requires 1 <= k < k' <= 2 * k - 2
    ensures Misses(FIFO, k, Again(k) + One(k'), Tail(k, k')) == k' - k + 1
  {
    var m := Again(k) + One(k');
    forall i | 0 <= i < |Again(k)| ensures Again(k)[i] in m { assert m[i] == Again(k)[i]; }
    HitRun(k, m, Again(k), More(k, k') + (One(k') + []));
    BeyondIsNew(k, m, k' + 2, 2 * k' - k + 3);
    assert Last(k, m) == m;
    MissRun(k, m, More(k, k'), One(k') + []);
    var last := Last(k, m + More(k, k'));
    assert last[2 * k - k' - 2] == (m + More(k, k'))[k - 1] == k' + 1;
    HitRun(k, last, One(k'), []);
  }

  lemma AgainIsNewToLarge(k: nat, k': nat)
    requires 1 <= k < k' <= 2 * k - 2
    ensures AllNew(k', Fill(k') + One(k'), Again(k))
  {
    var h := Fill(k') + One(k') + Again(k);
    assert forall p :: 0 <= p <= k' ==> h[p] == p + 1;
    assert forall p :: k' < p < |h| ==> h[p] == p - k';
  }

  lemma OneIsNewToLarge(k: nat, k': nat)
    requires 1 <= k < k' <= 2 * k - 2
    ensures AllNew(k', Fill(k') + One(k') + Again(k) + More(k, k'), One(k'))
  {
    var h := Fill(k') + One(k') + Again(k) + More(k, k');
    assert forall p :: k' < p < k' + k ==> h[p] == p - k';
    assert forall p :: k' + k <= p < |h| ==> h[p] == p - k + 2;
  }

  lemma LargeFirst(k: nat, k': nat)
    requires 1 <= k < k' <= 2 * k - 2
    ensures Misses(FIFO, k', [], Trace(k, k')) == k' + 1 + Misses(FIFO, k', Last(k', Fill(k') + One(k')), Tail(k, k'))
  {
    FillMisses(k', k, k');
    forall i | 0 <= i < |Again(k)| ensures Again(k)[i] in Last(k', Fill(k')) { assert Fill(k')[i] == Again(k)[i]; }
    HitRun(k', Last(k', Fill(k')), Again(k), One(k') + Tail(k, k'));
    BeyondIsNew(k', Fill(k'), k' + 1, k' + 2);
    MissRun(k', Fill(k'), One(k'), Tail(k, k'));
  }

  lemma LargeThen(k: nat, k': nat)
    requires 1 <= k < k' <= 2 * k - 2
    ensures Misses(FIFO, k', Last(k', Fill(k') + One(k')), Tail(k, k')) == k' + 1
  {
    var h := Fill(k') + One(k');
    AgainIsNewToLarge(k, k');
    MissRun(k', h, Again(k), More(k, k') + (One(k') + []));
    BeyondIsNew(k', h + Again(k), k' + 2, 2 * k' - k + 3);
    MissRun(k', h + Again(k), More(k, k'), One(k') + []);
    OneIsNewToLarge(k, k');
    MissRun(k', h + Again(k) + More(k, k'), One(k'), []);
  }

  /** The larger cache misses once more. */
  lemma AnomalyOnTrace(k: nat, k': nat)
    requires 1 <= k < k' <= 2 * k - 2
    ensures Misses(FIFO, k, [], Trace(k, k')) == 2 * k' + 1
    ensures Misses(FIFO, k', [], Trace(k, k')) == 2 * k' + 2
  {
    SmallFirst(k, k');
    SmallThen(k, k');
    LargeFirst(k, k');
    LargeThen(k, k');
  }

  /** Belady's anomaly in full: for two sizes there is a trace on which the larger
      FIFO cache misses more often exactly if it is less than twice the smaller,
      less one. */
  lemma AnomalyIff(k: nat, k': nat)
    requires 1 <= k < k'
    ensures (exists t :: Misses(FIFO, k', [], t) > Misses(FIFO, k, [], t)) <==> k' < 2 * k - 1
  {
    if k' < 2 * k - 1 {
      AnomalyOnTrace(k, k');
    } else {
      forall t ensures Misses(FIFO, k', [], t) <= Misses(FIFO, k, [], t) { NoAnomaly(k, k', t); }
    }
  }

  /** The smallest case: nine misses with three pages, ten with four. */
  lemma ThreeAndFour() returns (t: seq<Page>)
    ensures Misses(FIFO, 3, [], t) == 9 && Misses(FIFO, 4, [], t) == 10
  {
    t := Trace(3, 4);
    AnomalyOnTrace(3, 4);
  }
}
