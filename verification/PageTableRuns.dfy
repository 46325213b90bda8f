/** Every sequence of `mapPage`, `unmapPage` and `translatePageTable` behaves as
    one flat map from pages to frames and rights. */
module PageTableRuns {
  import opened Wrappers
  import opened PageBits
  import opened PageTable

  /** The flat map, keyed by page address. */
  ghost function View(dir: seq<Word64>, tables: TableMap): map<nat, Page>
    requires Consistent(dir, tables)
  {
    map v: nat | v < 0x1_0000_0000 && Offset(v) == 0 && Lookup(dir, tables, DirectoryIndex(v), TableIndex(v)).Some?
      :: Lookup(dir, tables, DirectoryIndex(v), TableIndex(v)).value
  }

  datatype Op =
    | Map(v: Word, p: Word, mode: ReadWrite, privilege: Privilege, granted: bool)
    | Unmap(v: Word)
    | Translate(a: Word, mode: ReadWrite, privilege: Privilege)

  /** Is some page with this directory index mapped? */
  ghost predicate TableInUse(view: map<nat, Page>, d: nat) {
    exists v: Word :: v in view && DirectoryIndex(v) == d
  }

  ghost predicate MapSucceeds(view: map<nat, Page>, op: Op)
    requires op.Map?
  {
    Offset(op.v) == 0 && Offset(op.p) == 0 && (op.granted || TableInUse(view, DirectoryIndex(op.v)))
  }

  ghost predicate Hits(view: map<nat, Page>, op: Op)
    requires op.Translate?
  {
    Base(op.a) in view && Allowed(view[Base(op.a)], op.mode, op.privilege)
  }

  /** The operations on the flat map. */
  ghost function Apply(view: map<nat, Page>, op: Op): map<nat, Page> {
    match op
    case Map(v, p, mode, privilege, _) =>
      if MapSucceeds(view, op) then view[v := Page(p, mode == AccessWrite, privilege == UserMode, false)] else view
    case Unmap(v) => view - {v}
    case Translate(a, _, _) =>
      if Hits(view, op) then view[Base(a) := view[Base(a)].(accessed := true)] else view
  }

  ghost function Answer(view: map<nat, Page>, op: Op): int {
    match op
    case Map(_, _, _, _, _) => if MapSucceeds(view, op) then 0 else -1
    case Unmap(v) => if v in view then 0 else -1
    case Translate(a, _, _) => if Hits(view, op) then view[Base(a)].frame + Offset(a) else INVALID_ADDRESS
  }

  /** One call on the tables. */
  ghost predicate Call(dir: seq<Word64>, tables: TableMap, op: Op, dir': seq<Word64>, tables': TableMap, r: int) {
    match op
    case Map(v, p, mode, privilege, granted) => MapPost(dir, tables, v, p, mode, privilege, granted, dir', tables', r)
    case Unmap(v) => UnmapPost(dir, tables, v, dir', tables', r)
    case Translate(a, mode, privilege) => TranslatePost(dir, tables, a, mode, privilege, dir', tables', r)
  }

  lemma DifferentPages(u: Word, v: Word)
    requires Offset(u) == 0 && Offset(v) == 0
    ensures DirectoryIndex(u) == DirectoryIndex(v) && TableIndex(u) == TableIndex(v) <==> u == v
  {
    SameEntry(u, v);
    SplitIsExact(u);
    SplitIsExact(v);
  }

  lemma PageChanges(dir: seq<Word64>, tables: TableMap, dir': seq<Word64>, tables': TableMap, v: Word, page: Option<Page>, u: Word)
    requires Consistent(dir, tables) && Consistent(dir', tables') && Offset(v) == 0 && Offset(u) == 0
    requires OneChanged(dir, tables, dir', tables', DirectoryIndex(v), TableIndex(v), page)
    ensures Lookup(dir', tables', DirectoryIndex(u), TableIndex(u)) ==
      if u == v then page else Lookup(dir, tables, DirectoryIndex(u), TableIndex(u))
  {
    DifferentPages(u, v);
  }

  /** One page of the flat map before and after. */
  lemma OnePage(dir: seq<Word64>, tables: TableMap, dir': seq<Word64>, tables': TableMap, v: Word, page: Option<Page>, u: nat)
    requires Consistent(dir, tables) && Consistent(dir', tables') && Offset(v) == 0
    requires OneChanged(dir, tables, dir', tables', DirectoryIndex(v), TableIndex(v), page)
    ensures u in View(dir', tables') <==> if u == v then page.Some? else u in View(dir, tables)
    ensures u in View(dir', tables') ==> View(dir', tables')[u] == if u == v then page.value else View(dir, tables)[u]
  {
    if u < 0x1_0000_0000 && Offset(u) == 0 { PageChanges(dir, tables, dir', tables', v, page, u); }
  }

  lemma MapsAgree(before: map<nat, Page>, after: map<nat, Page>, v: nat, page: Option<Page>)
    requires forall u :: u in after <==> if u == v then page.Some? else u in before
    requires forall u :: u in after ==> after[u] == if u == v then page.value else before[u]
    ensures after == if page.Some? then before[v := page.value] else before - {v}
  {
  }

  /** Changing one entry changes one page of the flat map. */
  lemma ViewChanges(dir: seq<Word64>, tables: TableMap, dir': seq<Word64>, tables': TableMap, v: Word, page: Option<Page>)
    requires Consistent(dir, tables) && Consistent(dir', tables') && Offset(v) == 0
    requires OneChanged(dir, tables, dir', tables', DirectoryIndex(v), TableIndex(v), page)
    ensures View(dir', tables') == if page.Some? then View(dir, tables)[v := page.value] else View(dir, tables) - {v}
  {
    var before, after := View(dir, tables), View(dir', tables');
    forall u: nat
      ensures u in after <==> if u == v then page.Some? else u in before
      ensures u in after ==> after[u] == if u == v then page.value else before[u]
    {
      OnePage(dir, tables, dir', tables', v, page, u);
    }
    MapsAgree(before, after, v, page);
  }

  /** A directory entry is present exactly when a page of its range is mapped. */
  lemma PresentIsInUse(dir: seq<Word64>, tables: TableMap, d: nat)
    requires Consistent(dir, tables) && d < ENTRIES
    ensures Present(dir[d]) <==> TableInUse(View(dir, tables), d)
  {
    if Present(dir[d]) {
      var t := tables[Base(dir[d])];
      assert SomePresent(t);
      var i :| 0 <= i < |t| && Present(t[i]);
      var v := JoinIsExact(d, i, 0);
      assert v in View(dir, tables) && DirectoryIndex(v) == d;
    }
  }

  lemma BaseIsPage(a: Word)
    ensures Base(a) < 0x1_0000_0000 && Offset(Base(a)) == 0
    ensures DirectoryIndex(Base(a)) == DirectoryIndex(a) && TableIndex(Base(a)) == TableIndex(a)
  {
    SameEntry(a, Base(a));
  }

  /** The entry for an address is that of its page. */
  lemma LookupIsView(dir: seq<Word64>, tables: TableMap, a: Word)
    requires Consistent(dir, tables)
    ensures var (page, view) := (Lookup(dir, tables, DirectoryIndex(a), TableIndex(a)), View(dir, tables));
      (Base(a) in view <==> page.Some?) && (page.Some? ==> view[Base(a)] == page.value)
  {
    BaseIsPage(a);
  }

  lemma TranslationRefines(dir: seq<Word64>, tables: TableMap, op: Op, dir': seq<Word64>, tables': TableMap, r: int)
    requires Call(dir, tables, op, dir', tables', r) && op.Translate?
    ensures View(dir', tables') == Apply(View(dir, tables), op)
    ensures r == Answer(View(dir, tables), op)
  {
    LookupIsView(dir, tables, op.a);
    if Hits(View(dir, tables), op) { PageIsMarked(dir, tables, op.a, dir', tables'); }
  }

  lemma PageIsMarked(dir: seq<Word64>, tables: TableMap, a: Word, dir': seq<Word64>, tables': TableMap)
    requires Consistent(dir, tables) && Consistent(dir', tables') && Base(a) in View(dir, tables)
    requires var page := View(dir, tables)[Base(a)];
      OneChanged(dir, tables, dir', tables', DirectoryIndex(a), TableIndex(a), Some(page.(accessed := true)))
    ensures View(dir', tables') == View(dir, tables)[Base(a) := View(dir, tables)[Base(a)].(accessed := true)]
  {
    BaseIsPage(a);
    ViewChanges(dir, tables, dir', tables', Base(a), Some(View(dir, tables)[Base(a)].(accessed := true)));
  }

  /** Refinement: each call does to the flat map, and answers, what the map's own
      operation does and answers. */
  lemma CallRefines(dir: seq<Word64>, tables: TableMap, op: Op, dir': seq<Word64>, tables': TableMap, r: int)
    requires Call(dir, tables, op, dir', tables', r)
    ensures View(dir', tables') == Apply(View(dir, tables), op)
    ensures r == Answer(View(dir, tables), op)
  {
    var view := View(dir, tables);
    match op
    case Map(v, p, mode, privilege, _) =>
      PresentIsInUse(dir, tables, DirectoryIndex(v));
      if r == 0 { ViewChanges(dir, tables, dir', tables', v, Some(Page(p, mode == AccessWrite, privilege == UserMode, false))); }
    case Unmap(v) =>
      if r == 0 { ViewChanges(dir, tables, dir', tables', v, None); } else { assert v !in view; assert Apply(view, op) == view; }
    case Translate(_, _, _) => TranslationRefines(dir, tables, op, dir', tables', r);
  }

  datatype Memory = Memory(dir: seq<Word64>, tables: TableMap)

  /** A run from an empty directory. */
  ghost predicate Calls(ms: seq<Memory>, ops: seq<Op>, answers: seq<int>) {
    |ms| == |ops| + 1 && |answers| == |ops|
    && |ms[0].dir| == ENTRIES && (forall d :: 0 <= d < ENTRIES ==> !Present(ms[0].dir[d])) && ms[0].tables == map[]
    && forall i :: 0 <= i < |ops| ==> Call(ms[i].dir, ms[i].tables, ops[i], ms[i + 1].dir, ms[i + 1].tables, answers[i])
  }

  /** The same operations on the flat map. */
  ghost function FlatRun(ops: seq<Op>): map<nat, Page> {
    if ops == [] then map[] else Apply(FlatRun(ops[..|ops| - 1]), ops[|ops| - 1])
  }

  lemma FlatStep(ops: seq<Op>, i: nat)
    requires i < |ops|
    ensures FlatRun(ops[..i + 1]) == Apply(FlatRun(ops[..i]), ops[i])
  {
    assert ops[..i + 1][..i] == ops[..i] && ops[..i + 1][i] == ops[i];
  }

  /** Every run refines the flat map, answer by answer.  That tables stay consistent
      is part of the contracts of the three methods, from which `Call` takes it. */
  lemma {:induction false} RunRefines(ms: seq<Memory>, ops: seq<Op>, answers: seq<int>, i: nat)
    requires Calls(ms, ops, answers) && i <= |ops|
    ensures Consistent(ms[i].dir, ms[i].tables) && View(ms[i].dir, ms[i].tables) == FlatRun(ops[..i])
    ensures i < |ops| ==> answers[i] == Answer(FlatRun(ops[..i]), ops[i])
    decreases i
  {
    if i == 0 {
      assert View(ms[0].dir, ms[0].tables) == map[];
    } else {
      RunRefines(ms, ops, answers, i - 1);
      var m, m' := ms[i - 1], ms[i - 1 + 1];
      assert Call(m.dir, m.tables, ops[i - 1], m'.dir, m'.tables, answers[i - 1]);
      CallRefines(m.dir, m.tables, ops[i - 1], m'.dir, m'.tables, answers[i - 1]);
      FlatStep(ops, i - 1);
    }
    if i < |ops| {
      var m, m' := ms[i], ms[i + 1];
      CallRefines(m.dir, m.tables, ops[i], m'.dir, m'.tables, answers[i]);
    }
  }

  // What the calls so far make of a page, in terms of the calls and their answers alone

  /** Call `k` mapped or unmapped page `v`. */
  ghost predicate Changes(ops: seq<Op>, answers: seq<int>, k: nat, v: nat) {
    k < |ops| && k < |answers| && answers[k] == 0 && (ops[k].Map? || ops[k].Unmap?) && ops[k].v == v
  }

  /** Of the first `i` calls, call `j` mapped page `v`, and none since has changed it. */
  ghost predicate MappedBy(ops: seq<Op>, answers: seq<int>, j: nat, i: nat, v: nat) {
    j < i && Changes(ops, answers, j, v) && ops[j].Map? && forall k :: j < k < i ==> !Changes(ops, answers, k, v)
  }

  /** What such a call makes of its page. */
  ghost predicate AsMapped(page: Page, op: Op) {
    op.Map? && page.frame == op.p && page.writable == (op.mode == AccessWrite) && page.user == (op.privilege == UserMode)
  }

  /** One operation, on one page of the flat map. */
  lemma FlatApply(view: map<nat, Page>, op: Op, v: nat)
    ensures var (after, changed) := (Apply(view, op), Answer(view, op) == 0 && (op.Map? || op.Unmap?) && op.v == v);
      if changed then (v in after <==> op.Map?) && (v in after ==> AsMapped(after[v], op))
      else (v in after <==> v in view) && (v in view ==> after[v] == view[v].(accessed := after[v].accessed))
  {
  }

  lemma FlatCall(ms: seq<Memory>, ops: seq<Op>, answers: seq<int>, i: nat, v: nat)
    requires Calls(ms, ops, answers) && i < |ops|
    ensures var (before, after) := (FlatRun(ops[..i]), FlatRun(ops[..i + 1]));
      if Changes(ops, answers, i, v) then (v in after <==> ops[i].Map?) && (v in after ==> AsMapped(after[v], ops[i]))
      else (v in after <==> v in before) && (v in before ==> after[v] == before[v].(accessed := after[v].accessed))
  {
    RunRefines(ms, ops, answers, i);
    FlatStep(ops, i);
    FlatApply(FlatRun(ops[..i]), ops[i], v);
  }

  lemma {:induction false} StaysAsMapped(ms: seq<Memory>, ops: seq<Op>, answers: seq<int>, j: nat, i: nat, v: nat)
    requires Calls(ms, ops, answers) && i <= |ops| && MappedBy(ops, answers, j, i, v)
    ensures v in FlatRun(ops[..i]) && AsMapped(FlatRun(ops[..i])[v], ops[j])
    decreases i
  {
    FlatCall(ms, ops, answers, i - 1, v);
    if j < i - 1 { StaysAsMapped(ms, ops, answers, j, i - 1, v); }
  }

  /** A page is mapped exactly if some call mapped it and none since has changed it. */
  lemma {:induction false} MappedIff(ms: seq<Memory>, ops: seq<Op>, answers: seq<int>, i: nat, v: nat)
    requires Calls(ms, ops, answers) && i <= |ops|
    ensures v in FlatRun(ops[..i]) <==> exists j: nat :: MappedBy(ops, answers, j, i, v)
    decreases i
  {
    if j: nat :| MappedBy(ops, answers, j, i, v) { StaysAsMapped(ms, ops, answers, j, i, v); }
    if i > 0 && v in FlatRun(ops[..i]) {
      FlatCall(ms, ops, answers, i - 1, v);
      if Changes(ops, answers, i - 1, v) {
        assert MappedBy(ops, answers, i - 1, i, v);
      } else {
        MappedIff(ms, ops, answers, i - 1, v);
        var j: nat :| MappedBy(ops, answers, j, i - 1, v);
        assert MappedBy(ops, answers, j, i, v);
      }
    }
  }

  /** Rights: in every run, an address on a page that call `j` mapped translates to
      the frame of that call exactly if the kernel asks, or the page was mapped for
      user mode and, for a write, for writing; otherwise to the error value. */
  lemma RightsDecide(ms: seq<Memory>, ops: seq<Op>, answers: seq<int>, j: nat, i: nat)
    requires Calls(ms, ops, answers) && i < |ops| && ops[i].Translate? && MappedBy(ops, answers, j, i, Base(ops[i].a))
    ensures answers[i] ==
      if ops[i].privilege == KernelMode
         || (ops[j].privilege == UserMode && (ops[i].mode == AccessRead || ops[j].mode == AccessWrite))
      then ops[j].p + ops[i].a % 0x1000 else 0xFFFF_FFFF
  {
    RunRefines(ms, ops, answers, i);
    StaysAsMapped(ms, ops, answers, j, i, Base(ops[i].a));
  }

  /** An address on any other page is not translated, and the page not unmapped. */
  lemma UnmappedFails(ms: seq<Memory>, ops: seq<Op>, answers: seq<int>, i: nat, v: nat)
    requires Calls(ms, ops, answers) && i < |ops| && forall j: nat :: !MappedBy(ops, answers, j, i, v)
    ensures ops[i].Translate? && Base(ops[i].a) == v ==> answers[i] == 0xFFFF_FFFF
    ensures ops[i].Unmap? && ops[i].v == v ==> answers[i] == -1
  {
    RunRefines(ms, ops, answers, i);
    MappedIff(ms, ops, answers, i, v);
  }

  /** A page is unmapped exactly if it is mapped. */
  lemma UnmapAnswers(ms: seq<Memory>, ops: seq<Op>, answers: seq<int>, i: nat)
    requires Calls(ms, ops, answers) && i < |ops| && ops[i].Unmap?
    ensures answers[i] == if exists j: nat :: MappedBy(ops, answers, j, i, ops[i].v) then 0 else -1
  {
    RunRefines(ms, ops, answers, i);
    MappedIff(ms, ops, answers, i, ops[i].v);
  }

  /** Some page in the range of a second-level table is mapped. */
  ghost predicate RangeMapped(ops: seq<Op>, answers: seq<int>, i: nat, d: nat) {
    exists j: nat, v: Word :: MappedBy(ops, answers, j, i, v) && v / 0x40_0000 == d
  }

  lemma RangeIsInUse(ms: seq<Memory>, ops: seq<Op>, answers: seq<int>, i: nat, d: nat)
    requires Calls(ms, ops, answers) && i <= |ops|
    ensures TableInUse(FlatRun(ops[..i]), d) <==> RangeMapped(ops, answers, i, d)
  {
    if v: Word :| v in FlatRun(ops[..i]) && DirectoryIndex(v) == d {
      MappedIff(ms, ops, answers, i, v);
      var j: nat :| MappedBy(ops, answers, j, i, v);
    }
    if j: nat, v: Word :| MappedBy(ops, answers, j, i, v) && v / 0x40_0000 == d {
      StaysAsMapped(ms, ops, answers, j, i, v);
      assert DirectoryIndex(v) == d;
    }
  }

  /** A page is mapped exactly if both addresses are aligned and a table is there,
      because of another page, or can be had. */
  lemma MapAnswers(ms: seq<Memory>, ops: seq<Op>, answers: seq<int>, i: nat)
    requires Calls(ms, ops, answers) && i < |ops| && ops[i].Map?
    ensures var (op, range) := (ops[i], ops[i].v / 0x40_0000);
      answers[i] ==
        if op.v % 0x1000 == 0 && op.p % 0x1000 == 0 && (op.granted || RangeMapped(ops, answers, i, range)) then 0 else -1
  {
    RunRefines(ms, ops, answers, i);
    RangeIsInUse(ms, ops, answers, i, DirectoryIndex(ops[i].v));
  }

  /** Call `i` translated an address on page `v`. */
  ghost predicate TranslatedAt(ops: seq<Op>, i: nat, v: nat) {
    i < |ops| && ops[i].Translate? && Base(ops[i].a) == v && Hits(FlatRun(ops[..i]), ops[i])
  }

  /** Call `i` mapped page `v`. */
  ghost predicate MappedAt(ops: seq<Op>, i: nat, v: nat) {
    i < |ops| && ops[i].Map? && ops[i].v == v && MapSucceeds(FlatRun(ops[..i]), ops[i])
  }

  ghost predicate TouchedSinceMapped(ops: seq<Op>, v: nat) {
    exists i: nat :: TranslatedAt(ops, i, v) && forall k :: i < k < |ops| ==> !MappedAt(ops, k, v)
  }

  lemma SamePrefix(ops: seq<Op>, i: nat, v: nat)
    requires i < |ops| - 1
    ensures TranslatedAt(ops[..|ops| - 1], i, v) <==> TranslatedAt(ops, i, v)
    ensures MappedAt(ops[..|ops| - 1], i, v) <==> MappedAt(ops, i, v)
  {
    assert ops[..|ops| - 1][..i] == ops[..i];
  }

  /** What the last call does to `TouchedSinceMapped`. */
  lemma TouchedStep(ops: seq<Op>, v: nat)
    requires ops != []
    ensures var l := |ops| - 1;
      TouchedSinceMapped(ops, v) <==> TranslatedAt(ops, l, v) || (TouchedSinceMapped(ops[..l], v) && !MappedAt(ops, l, v))
  {
    var l := |ops| - 1;
    forall i: nat | i < l
      ensures TranslatedAt(ops[..l], i, v) <==> TranslatedAt(ops, i, v)
      ensures MappedAt(ops[..l], i, v) <==> MappedAt(ops, i, v)
    {
      SamePrefix(ops, i, v);
    }
    if TouchedSinceMapped(ops, v) && !TranslatedAt(ops, l, v) { StillTouched(ops, l, v); }
    if TouchedSinceMapped(ops[..l], v) && !MappedAt(ops, l, v) {
      var i: nat :| TranslatedAt(ops[..l], i, v) && forall k :: i < k < l ==> !MappedAt(ops[..l], k, v);
      assert TranslatedAt(ops, i, v);
    }
  }

  lemma StillTouched(ops: seq<Op>, l: nat, v: nat)
    requires l == |ops| - 1 && TouchedSinceMapped(ops, v) && !TranslatedAt(ops, l, v)
    requires forall i: nat :: i < l ==> (TranslatedAt(ops[..l], i, v) <==> TranslatedAt(ops, i, v))
    requires forall i: nat :: i < l ==> (MappedAt(ops[..l], i, v) <==> MappedAt(ops, i, v))
    ensures TouchedSinceMapped(ops[..l], v) && !MappedAt(ops, l, v)
  {
    var i: nat :| TranslatedAt(ops, i, v) && forall k :: i < k < |ops| ==> !MappedAt(ops, k, v);
    assert TranslatedAt(ops[..l], i, v);
  }

  /** The accessed bit of a mapped page is set exactly when the page was
      translated since it was last mapped. */
  lemma {:induction false} AccessedMeansTranslated(ops: seq<Op>, v: nat)
    requires v in FlatRun(ops)
    ensures FlatRun(ops)[v].accessed <==> TouchedSinceMapped(ops, v)
    decreases |ops|
  {
    if ops == [] { return; }
    var l := |ops| - 1;
    var before := FlatRun(ops[..l]);
    TouchedStep(ops, v);
    if v in before { AccessedMeansTranslated(ops[..l], v); }
  }

  /** The same of the bit in the table: in every run, the entry of a mapped page has
      its accessed bit set exactly when the page was translated since it was mapped. */
  lemma AccessedBitMeansTranslated(ms: seq<Memory>, ops: seq<Op>, answers: seq<int>, i: nat, v: Word)
    requires Calls(ms, ops, answers) && i <= |ops| && Offset(v) == 0
    requires Consistent(ms[i].dir, ms[i].tables) && Lookup(ms[i].dir, ms[i].tables, DirectoryIndex(v), TableIndex(v)).Some?
    ensures var table := ms[i].tables[Base(ms[i].dir[DirectoryIndex(v)])];
      Bit(table[TableIndex(v)], ACCESSED) <==> TouchedSinceMapped(ops[..i], v)
  {
    RunRefines(ms, ops, answers, i);
    assert v in View(ms[i].dir, ms[i].tables);
    AccessedMeansTranslated(ops[..i], v);
  }

  /** The whole entry of a mapped page, bit by bit. */
  lemma EntryOfRun(ms: seq<Memory>, ops: seq<Op>, answers: seq<int>, j: nat, i: nat, v: Word)
    requires Calls(ms, ops, answers) && i <= |ops| && Offset(v) == 0 && MappedBy(ops, answers, j, i, v)
    ensures var (d, t) := (v / 0x40_0000, v / 0x1000 % 0x400);
      Consistent(ms[i].dir, ms[i].tables) && d < ENTRIES && Base(ms[i].dir[d]) in ms[i].tables
      && ms[i].tables[Base(ms[i].dir[d])][t] ==
        ops[j].p + 0x01 + (if ops[j].mode == AccessWrite then 0x02 else 0) + (if ops[j].privilege == UserMode then 0x04 else 0)
        + if TouchedSinceMapped(ops[..i], v) then 0x20 else 0
  {
    RunRefines(ms, ops, answers, i);
    StaysAsMapped(ms, ops, answers, j, i, v);
    AccessedMeansTranslated(ops[..i], v);
    ViewIsEntry(ms[i].dir, ms[i].tables, v);
  }

  lemma ViewIsEntry(dir: seq<Word64>, tables: TableMap, v: Word)
    requires Consistent(dir, tables) && v in View(dir, tables)
    ensures var t := Base(dir[DirectoryIndex(v)]);
      t in tables && tables[t][TableIndex(v)] == EntryOf(View(dir, tables)[v])
  {
  }

  // Second-level tables

  ghost function DirectoriesInUse(view: map<nat, Page>): set<nat> {
    set d: nat | d < ENTRIES && TableInUse(view, d)
  }

  /** There are exactly as many second-level tables as directory indices among
      the mapped pages. */
  lemma TableCount(dir: seq<Word64>, tables: TableMap)
    requires Consistent(dir, tables)
    ensures |tables| == |DirectoriesInUse(View(dir, tables))|
  {
    var ds := DirectoriesInUse(View(dir, tables));
    forall d: nat | d < ENTRIES ensures d in ds <==> Present(dir[d]) { PresentIsInUse(dir, tables, d); }
    ImageSize(ds, tables.Keys, dir);
    assert |tables| == |tables.Keys|;
  }

  /** `d -> Base(dir[d])` is a bijection from `ds` to `ts`. */
  lemma {:induction false} ImageSize(ds: set<nat>, ts: set<nat>, dir: seq<Word64>)
    requires forall d :: d in ds ==> d < |dir| && Base(dir[d]) in ts
    requires forall d, e :: d in ds && e in ds && d != e ==> Base(dir[d]) != Base(dir[e])
    requires forall t :: t in ts ==> exists d :: d in ds && Base(dir[d]) == t
    ensures |ts| == |ds|
  {
    if ds == {} {
      assert ts == {};
    } else {
      var d :| d in ds;
      var ds', ts' := ds - {d}, ts - {Base(dir[d])};
      forall t | t in ts' ensures exists e :: e in ds' && Base(dir[e]) == t {
        var e :| e in ds && Base(dir[e]) == t;
        assert e in ds';
      }
      ImageSize(ds', ts', dir);
    }
  }
}
