/** The replacement policies of the simulator as functions on its `memory`
    list, and the proof that each of them is a demand policy. */
module PagingPolicy {
  import opened DemandPaging

  datatype Policy = FIFO | LRU | MRU | RAND | CLOCK | OPT | UNOPT {
    /** The victim follows from the memory list and the rest of the trace. */
    predicate Fixed() { this != RAND && this != CLOCK }
  }

  predicate Distinct(m: seq<Page>) {
    forall i, j :: 0 <= i < j < |m| ==> m[i] != m[j]
  }

  ghost function Pages(m: seq<Page>): set<Page> { set p | p in m }

  function RemoveAt(m: seq<Page>, i: nat): seq<Page>
    requires i < |m|
  {
    m[..i] + m[i + 1..]
  }

  function IndexOf(m: seq<Page>, p: Page): (i: nat)
    requires p in m
    ensures i < |m| && m[i] == p
    ensures p !in m[..i]
  {
    if m[0] == p then 0
    else
      var i := 1 + IndexOf(m[1..], p);
      assert m[..i] == [m[0]] + m[1..][..i - 1];
      i
  }

  /** Among the first `n`, the last of the pages referenced farthest in the future. */
  ghost predicate IsFarthest(m: seq<Page>, future: seq<Page>, n: nat, i: nat)
    requires n <= |m|
  {
    i < n &&
    (forall j :: 0 <= j < n ==> NextUse(m[j], future) <= NextUse(m[i], future)) &&
    (forall j :: i < j < n ==> NextUse(m[j], future) < NextUse(m[i], future))
  }

  /** Among the first `n`, the first of the pages referenced nearest in the future. */
  ghost predicate IsNearest(m: seq<Page>, future: seq<Page>, n: nat, i: nat)
    requires n <= |m|
  {
    i < n &&
    (forall j :: 0 <= j < n ==> NextUse(m[i], future) <= NextUse(m[j], future)) &&
    (forall j :: 0 <= j < i ==> NextUse(m[i], future) < NextUse(m[j], future))
  }

  function Farthest(m: seq<Page>, future: seq<Page>, n: nat): (i: nat)
    requires 0 < n <= |m|
    ensures IsFarthest(m, future, n, i)
  {
    if n == 1 then 0
    else
      var i := Farthest(m, future, n - 1);
      if NextUse(m[n - 1], future) >= NextUse(m[i], future) then n - 1 else i
  }

  function Nearest(m: seq<Page>, future: seq<Page>, n: nat): (i: nat)
    requires 0 < n <= |m|
    ensures IsNearest(m, future, n, i)
  {
    if n == 1 then 0
    else
      var i := Nearest(m, future, n - 1);
      if NextUse(m[n - 1], future) < NextUse(m[i], future) then n - 1 else i
  }

  /** Position in the full memory `m` of the page given up. */
  function VictimIndex(policy: Policy, m: seq<Page>, future: seq<Page>): (i: nat)
    requires policy.Fixed() && m != []
    ensures i < |m|
  {
    match policy
    case FIFO => 0
    case LRU => 0
    case MRU => |m| - 1
    case OPT => Farthest(m, future, |m|)
    case UNOPT => Nearest(m, future, |m|)
  }

  /** The memory list after a reference to `n`, giving up position `i` if need be. */
  function StepAt(policy: Policy, k: nat, m: seq<Page>, n: Page, i: nat): seq<Page>
    requires n !in m && |m| == k ==> i < |m|
  {
    if n in m then
      if policy == LRU || policy == MRU then RemoveAt(m, IndexOf(m, n)) + [n] else m
    else if |m| == k then RemoveAt(m, i) + [n]
    else m + [n]
  }

  function Step(policy: Policy, k: nat, m: seq<Page>, n: Page, future: seq<Page>): seq<Page>
    requires policy.Fixed() && k >= 1
  {
    StepAt(policy, k, m, n, if m == [] then 0 else VictimIndex(policy, m, future))
  }

  function Misses(policy: Policy, k: nat, m: seq<Page>, t: seq<Page>): nat
    requires policy.Fixed() && k >= 1
    decreases |t|
  {
    if t == [] then 0
    else (if t[0] in m then 0 else 1) + Misses(policy, k, Step(policy, k, m, t[0], t[1..]), t[1..])
  }

  /** The memory list after the whole trace. */
  function Memory(policy: Policy, k: nat, m: seq<Page>, t: seq<Page>): seq<Page>
    requires policy.Fixed() && k >= 1
    decreases |t|
  {
    if t == [] then m
    else Memory(policy, k, Step(policy, k, m, t[0], t[1..]), t[1..])
  }

  ghost predicate Holds(k: nat, m: seq<Page>) { Distinct(m) && |m| <= k }

  lemma {:induction false} PagesSize(m: seq<Page>)
    requires Distinct(m)
    ensures |Pages(m)| == |m|
  {
    if m == [] {
      assert Pages(m) == {};
    } else {
      PagesSize(m[1..]);
      assert Pages(m) == {m[0]} + Pages(m[1..]);
    }
  }

  lemma RemoveAtPages(m: seq<Page>, i: nat)
    requires Distinct(m) && i < |m|
    ensures Distinct(RemoveAt(m, i)) && Pages(RemoveAt(m, i)) == Pages(m) - {m[i]}
  {
    var m' := RemoveAt(m, i);
    forall p ensures p in m' <==> p in m && p != m[i] {
      if p in m && p != m[i] {
        var j :| 0 <= j < |m| && m[j] == p;
        assert m'[if j < i then j else j - 1] == p;
      }
    }
  }

  lemma AppendPages(m: seq<Page>, n: Page)
    requires Distinct(m) && n !in m
    ensures Distinct(m + [n]) && Pages(m + [n]) == Pages(m) + {n}
  {
  }

  /** The page given up by a step, or a page that is never looked at. */
  function VictimOf(k: nat, m: seq<Page>, n: Page, i: nat): Page
    requires n !in m && |m| == k ==> i < |m|
  {
    if n !in m && |m| == k then m[i] else n
  }

  /** Whatever position is given up, one reference is a demand step. */
  lemma StepIsDemand(policy: Policy, k: nat, m: seq<Page>, n: Page, i: nat)
    requires k >= 1 && Holds(k, m)
    requires n !in m && |m| == k ==> i < |m|
    ensures Legal(k, Pages(m), n, VictimOf(k, m, n, i))
    ensures Pages(StepAt(policy, k, m, n, i)) == Next(k, Pages(m), n, VictimOf(k, m, n, i))
    ensures Holds(k, StepAt(policy, k, m, n, i))
    ensures n in StepAt(policy, k, m, n, i)
  {
    PagesSize(m);
    if n in m {
      var j := IndexOf(m, n);
      RemoveAtPages(m, j);
      assert n !in RemoveAt(m, j);
      AppendPages(RemoveAt(m, j), n);
    } else if |m| == k {
      RemoveAtPages(m, i);
      assert n !in RemoveAt(m, i);
      AppendPages(RemoveAt(m, i), n);
    } else {
      AppendPages(m, n);
    }
  }

  /** Every fixed policy is a demand policy with exactly its misses. */
  lemma {:induction false} PolicyIsDemand(policy: Policy, k: nat, m: seq<Page>, t: seq<Page>) returns (vs: seq<Page>)
    requires policy.Fixed() && k >= 1 && Holds(k, m)
    ensures Run(k, Pages(m), t, vs)
    ensures Faults(k, Pages(m), t, vs) == Misses(policy, k, m, t)
    decreases |t|
  {
    if t == [] { return []; }
    var v, m' := PolicyStep(policy, k, m, t);
    var rest := PolicyIsDemand(policy, k, m', t[1..]);
    RunCons(k, Pages(m), t, v, Pages(m'), rest);
    vs := [v] + rest;
  }

  lemma PolicyStep(policy: Policy, k: nat, m: seq<Page>, t: seq<Page>) returns (v: Page, m': seq<Page>)
    requires policy.Fixed() && k >= 1 && Holds(k, m) && t != []
    ensures m' == Step(policy, k, m, t[0], t[1..]) && Holds(k, m')
    ensures t[0] !in m && |m| == k ==> v == m[VictimIndex(policy, m, t[1..])]
    ensures Legal(k, Pages(m), t[0], v) && Pages(m') == Next(k, Pages(m), t[0], v)
    ensures Misses(policy, k, m, t) == Cost(Pages(m), t[0]) + Misses(policy, k, m', t[1..])
  {
    var i := if m == [] then 0 else VictimIndex(policy, m, t[1..]);
    m' := Step(policy, k, m, t[0], t[1..]);
    v := VictimOf(k, m, t[0], i);
    StepIsDemand(policy, k, m, t[0], i);
  }
}
