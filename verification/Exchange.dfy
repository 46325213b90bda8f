/** Exchange arguments on demand runs, and what they say about evicting the
    page referenced farthest in the future (or nearest). */
module Exchange {
  import opened DemandPaging

  /** A miss in a full memory, with the set written as "common part plus one". */
  lemma Swap(k: nat, s: set<Page>, x: Page, r: Page, v: Page)
    requires x !in s && |s| + 1 == k && r !in s && r != x
    ensures v == x ==> Legal(k, s + {x}, r, v) && Next(k, s + {x}, r, v) == s + {r}
    ensures v in s ==> Legal(k, s + {x}, r, v) && Next(k, s + {x}, r, v) == (s - {v} + {r}) + {x}
    ensures v in s ==> |s - {v} + {r}| + 1 == k
    ensures Legal(k, s + {x}, r, v) ==> v == x || v in s
  {
    assert |s + {x}| == k;
    if v == x { assert s + {x} - {v} + {r} == s + {r}; }
    if v in s { assert s + {x} - {v} + {r} == (s - {v} + {r}) + {x}; }
  }

  /** Two full memories that differ in one page differ by at most one miss:
      a run from `s + {x}` is matched from `s + {y}` at the price of one. */
  lemma {:induction false} OffByOne(k: nat, s: set<Page>, x: Page, y: Page, t: seq<Page>, vs: seq<Page>)
    returns (ws: seq<Page>)
    requires x !in s && y !in s && x != y && |s| + 1 == k
    requires Run(k, s + {x}, t, vs)
    ensures Run(k, s + {y}, t, ws)
    ensures Faults(k, s + {y}, t, ws) <= 1 + Faults(k, s + {x}, t, vs)
    decreases |t|, 1
  {
    if t == [] { return []; }
    var r, v := t[0], vs[0];
    if r in s {
      var rest := OffByOne(k, s, x, y, t[1..], vs[1..]);
      ws := [v] + rest;
      RunCons(k, s + {y}, t, v, s + {y}, rest);
    } else if r == x {
      ws := [y] + vs[1..];
      Swap(k, s, y, r, y);
      RunCons(k, s + {y}, t, y, s + {x}, vs[1..]);
    } else if r == y {
      ws := ReadOther(k, s, x, y, t, vs);
    } else {
      ws := OffByOneMiss(k, s, x, y, t, vs);
    }
  }

  /** If the next reference is to `y`, the memory with `x` misses and the other
      does not, which pays for the difference. */
  lemma {:induction false} ReadOther(k: nat, s: set<Page>, x: Page, y: Page, t: seq<Page>, vs: seq<Page>)
    returns (ws: seq<Page>)
    requires x !in s && y !in s && x != y && |s| + 1 == k && t != [] && t[0] == y
    requires Run(k, s + {x}, t, vs)
    ensures Run(k, s + {y}, t, ws)
    ensures Faults(k, s + {y}, t, ws) <= Faults(k, s + {x}, t, vs)
    decreases |t|, 0
  {
    var v, rest := vs[0], vs[1..];
    Swap(k, s, x, y, v);
    if v != x {
      assert s - {v} + {y} + {v} == s + {y};
      rest := OffByOne(k, s - {v} + {y}, x, v, t[1..], vs[1..]);
    }
    ws := [v] + rest;
    RunCons(k, s + {y}, t, v, s + {y}, rest);
  }

  lemma {:induction false} OffByOneMiss(k: nat, s: set<Page>, x: Page, y: Page, t: seq<Page>, vs: seq<Page>)
    returns (ws: seq<Page>)
    requires x !in s && y !in s && x != y && |s| + 1 == k
    requires t != [] && t[0] !in s && t[0] != x && t[0] != y
    requires Run(k, s + {x}, t, vs)
    ensures Run(k, s + {y}, t, ws)
    ensures Faults(k, s + {y}, t, ws) <= 1 + Faults(k, s + {x}, t, vs)
    decreases |t|, 0
  {
    var r, v := t[0], vs[0];
    Swap(k, s, x, r, v);
    if v == x {
      ws := [y] + vs[1..];
      Swap(k, s, y, r, y);
      RunCons(k, s + {y}, t, y, s + {r}, vs[1..]);
    } else {
      var rest := OffByOne(k, s - {v} + {r}, x, y, t[1..], vs[1..]);
      ws := [v] + rest;
      Swap(k, s, y, r, v);
      RunCons(k, s + {y}, t, v, s - {v} + {r} + {y}, rest);
    }
  }

  /** Holding the page used sooner is at least as good. */
  lemma {:induction false} KeepSooner(k: nat, s: set<Page>, far: Page, near: Page, t: seq<Page>, vs: seq<Page>)
    returns (ws: seq<Page>)
    requires far !in s && near !in s && far != near && |s| + 1 == k
    requires NextUse(near, t) <= NextUse(far, t)
    requires Run(k, s + {far}, t, vs)
    ensures Run(k, s + {near}, t, ws)
    ensures Faults(k, s + {near}, t, ws) <= Faults(k, s + {far}, t, vs)
    decreases |t|
  {
    if t == [] { return []; }
    if t[0] == near { ws := ReadOther(k, s, far, near, t, vs); return; }
    var r, v := t[0], vs[0];
    var w, s', rest;
    if r in s {
      w, s' := v, s + {near};
      rest := KeepSooner(k, s, far, near, t[1..], vs[1..]);
    } else {
      Swap(k, s, far, r, v);
      if v == far {
        w, s', rest := near, s + {r}, vs[1..];
      } else {
        w, s' := v, s - {v} + {r} + {near};
        rest := KeepSooner(k, s - {v} + {r}, far, near, t[1..], vs[1..]);
      }
      Swap(k, s, near, r, w);
    }
    RunCons(k, s + {near}, t, w, s', rest);
    ws := [w] + rest;
  }

  /** Holding the page used later can be made at least as bad. */
  lemma {:induction false} KeepLater(k: nat, s: set<Page>, far: Page, near: Page, t: seq<Page>, vs: seq<Page>)
    returns (ws: seq<Page>)
    requires far !in s && near !in s && far != near && |s| + 1 == k
    requires NextUse(near, t) <= NextUse(far, t)
    requires Run(k, s + {near}, t, vs)
    ensures Run(k, s + {far}, t, ws)
    ensures Faults(k, s + {far}, t, ws) >= Faults(k, s + {near}, t, vs)
    decreases |t|
  {
    if t == [] { return []; }
    if t[0] == near {
      Swap(k, s, far, near, far);
      RunCons(k, s + {far}, t, far, s + {near}, vs[1..]);
      return [far] + vs[1..];
    }
    var r, v := t[0], vs[0];
    var w, s', rest;
    if r in s {
      w, s' := v, s + {far};
      rest := KeepLater(k, s, far, near, t[1..], vs[1..]);
    } else {
      Swap(k, s, near, r, v);
      if v == near {
        w, s', rest := far, s + {r}, vs[1..];
      } else {
        w, s' := v, s - {v} + {r} + {far};
        rest := KeepLater(k, s - {v} + {r}, far, near, t[1..], vs[1..]);
      }
      Swap(k, s, far, r, w);
    }
    RunCons(k, s + {far}, t, w, s', rest);
    ws := [w] + rest;
  }

  /** More room never hurts: a run is matched, reference by reference, from
      any memory that holds at least its pages and has at least its room. */
  lemma {:induction false} MoreRoom(k: nat, s: set<Page>, k': nat, s': set<Page>, t: seq<Page>, vs: seq<Page>)
    returns (ws: seq<Page>)
    requires 1 <= k <= k' && s <= s' && |s| <= k && |s'| <= k'
    requires Run(k, s, t, vs)
    ensures Run(k', s', t, ws)
    ensures Faults(k', s', t, ws) <= Faults(k, s, t, vs)
    decreases |t|
  {
    if t == [] { return []; }
    var r, v := t[0], vs[0];
    var w := v;
    if r !in s' && |s'| == k' && |s| < k {
      w := Smaller(s, s');
    }
    Grows(k, s, r, v);
    Grows(k', s', r, w);
    var rest := MoreRoom(k, Next(k, s, r, v), k', Next(k', s', r, w), t[1..], vs[1..]);
    RunCons(k', s', t, w, Next(k', s', r, w), rest);
    ws := [w] + rest;
  }

  lemma Smaller<T>(s: set<T>, s': set<T>) returns (w: T)
    requires s <= s' && |s| < |s'|
    ensures w in s' && w !in s
  {
    assert s' == s + (s' - s);
    w :| w in s' - s;
  }

  lemma Grows(k: nat, s: set<Page>, r: Page, v: Page)
    requires k >= 1 && |s| <= k && Legal(k, s, r, v)
    ensures |Next(k, s, r, v)| <= k
  {
  }
}
