/** LRU is a stack algorithm: the memory of a smaller cache is the back end of
    the memory of a larger one, so misses never rise with the cache size. */
module StackInclusion {
  import opened DemandPaging
  import opened PagingPolicy

  ghost predicate Suffix(a: seq<Page>, b: seq<Page>) {
    |a| <= |b| && a == b[|b| - |a|..]
  }

  /** The smaller memory is a suffix, and the same until it is full. */
  ghost predicate Stacked(k: nat, m: seq<Page>, k': nat, m': seq<Page>) {
    k <= k' && Holds(k, m) && Holds(k', m') && Suffix(m, m') && (|m| < k ==> m == m')
  }

  lemma RemoveFromBoth(m: seq<Page>, m': seq<Page>, i: nat)
    requires Suffix(m, m') && i < |m|
    ensures Suffix(RemoveAt(m, i), RemoveAt(m', |m'| - |m| + i))
  {
    var d := |m'| - |m|;
    assert m'[d..][..i] == m'[..d + i][d..];
    assert RemoveAt(m', d + i)[d..] == m'[..d + i][d..] + m'[d + i + 1..];
  }

  lemma RemoveFromLarger(m: seq<Page>, m': seq<Page>, j: nat)
    requires Suffix(m, m') && j < |m'| - |m|
    ensures Suffix(m, RemoveAt(m', j))
  {
    var d := |m'| - |m|;
    assert RemoveAt(m', j)[d - 1..] == m'[j + 1..][d - 1 - j..] == m'[d..];
  }

  lemma IndexIs(m: seq<Page>, i: nat)
    requires Distinct(m) && i < |m|
    ensures IndexOf(m, m[i]) == i
  {
    var j := IndexOf(m, m[i]);
    assert m[j] == m[i];
  }

  lemma SuffixAt(m: seq<Page>, m': seq<Page>, i: nat)
    requires Suffix(m, m') && i < |m|
    ensures m'[|m'| - |m| + i] == m[i]
  {
  }

  lemma RemoveShared(m: seq<Page>, m': seq<Page>, r: Page)
    requires Distinct(m') && Suffix(m, m') && r in m
    ensures r in m' && Suffix(RemoveAt(m, IndexOf(m, r)), RemoveAt(m', IndexOf(m', r)))
  {
    var d, i := |m'| - |m|, IndexOf(m, r);
    SuffixAt(m, m', i);
    IndexIs(m', d + i);
    RemoveFromBoth(m, m', i);
  }

  lemma RemoveExtra(m: seq<Page>, m': seq<Page>, r: Page)
    requires Suffix(m, m') && r in m' && r !in m
    ensures Suffix(m, RemoveAt(m', IndexOf(m', r)))
  {
    var d, j := |m'| - |m|, IndexOf(m', r);
    SuffixFrom(m, m');
    RemoveFromLarger(m, m', j);
  }

  lemma SuffixFrom(m: seq<Page>, m': seq<Page>)
    requires Suffix(m, m')
    ensures forall j :: |m'| - |m| <= j < |m'| ==> m'[j] in m
  {
    forall j | |m'| - |m| <= j < |m'| ensures m'[j] in m {
      assert m'[j] == m[j - (|m'| - |m|)];
    }
  }

  lemma SuffixAppend(m: seq<Page>, m': seq<Page>, r: Page)
    requires Suffix(m, m')
    ensures Suffix(m + [r], m' + [r])
    ensures m != [] ==> Suffix(m[1..] + [r], m' + [r])
    ensures m != [] ==> Suffix(m[1..] + [r], m'[1..] + [r])
  {
  }

  /** LRU moves a page that is hit to the end, and gives up the first page. */
  lemma LruStep(k: nat, m: seq<Page>, r: Page, future: seq<Page>)
    requires k >= 1 && |m| <= k
    ensures Step(LRU, k, m, r, future) ==
      (if r in m then RemoveAt(m, IndexOf(m, r)) else if |m| == k then m[1..] else m) + [r]
  {
    if r !in m && |m| == k { assert RemoveAt(m, 0) == m[1..]; }
  }

  lemma StackSuffix(k: nat, m: seq<Page>, k': nat, m': seq<Page>, r: Page, future: seq<Page>)
    requires k >= 1 && Stacked(k, m, k', m')
    ensures Suffix(Step(LRU, k, m, r, future), Step(LRU, k', m', r, future))
    ensures r in m ==> r in m'
  {
    LruStep(k, m, r, future);
    LruStep(k', m', r, future);
    if r in m {
      RemoveShared(m, m', r);
      SuffixAppend(RemoveAt(m, IndexOf(m, r)), RemoveAt(m', IndexOf(m', r)), r);
    } else if r in m' {
      RemoveExtra(m, m', r);
      SuffixAppend(m, RemoveAt(m', IndexOf(m', r)), r);
    } else {
      SuffixAppend(m, m', r);
    }
  }

  lemma StackStep(k: nat, m: seq<Page>, k': nat, m': seq<Page>, r: Page, future: seq<Page>)
    requires k >= 1 && Stacked(k, m, k', m')
    ensures Stacked(k, Step(LRU, k, m, r, future), k', Step(LRU, k', m', r, future))
    ensures r in m ==> r in m'
  {
    StackSuffix(k, m, k', m', r, future);
    StepIsDemand(LRU, k, m, r, 0);
    StepIsDemand(LRU, k', m', r, 0);
    assert |m| < k ==> Step(LRU, k, m, r, future) == Step(LRU, k', m', r, future);
  }

  lemma {:induction false} LruIsStack(k: nat, m: seq<Page>, k': nat, m': seq<Page>, t: seq<Page>)
    requires k >= 1 && Stacked(k, m, k', m')
    ensures Suffix(Memory(LRU, k, m, t), Memory(LRU, k', m', t))
    ensures Misses(LRU, k', m', t) <= Misses(LRU, k, m, t)
    decreases |t|
  {
    if t != [] {
      StackStep(k, m, k', m', t[0], t[1..]);
      LruIsStack(k, Step(LRU, k, m, t[0], t[1..]), k', Step(LRU, k', m', t[0], t[1..]), t[1..]);
    }
  }

  /** LRU on any trace: inclusion of memories, and no more misses with more room. */
  lemma LruMoreRoom(k: nat, k': nat, t: seq<Page>)
    requires 1 <= k <= k'
    ensures Suffix(Memory(LRU, k, [], t), Memory(LRU, k', [], t))
    ensures Misses(LRU, k', [], t) <= Misses(LRU, k, [], t)
  {
    LruIsStack(k, [], k', [], t);
  }
}
