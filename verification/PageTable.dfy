/** The two-level page table: second-level tables allocated when first needed
    and freed when empty, refining a finite map from pages to frames and rights. */
module PageTable {
  import opened Wrappers
  import opened PageBits

  const ENTRIES := 1024
  const INVALID_ADDRESS: Word := 0xFFFF_FFFF

  datatype ReadWrite = AccessRead | AccessWrite
  datatype Privilege = UserMode | KernelMode

  /** Second-level tables in memory, by address. */
  type TableMap = map<nat, seq<Word>>

  function ZeroTable(): (table: seq<Word>)
    ensures |table| == ENTRIES && forall i :: 0 <= i < ENTRIES ==> table[i] == 0
  {
    seq(ENTRIES, _ => 0)
  }

  /** `table->entries[i] = e` for the table at address `t`. */
  function Store(tables: TableMap, t: nat, i: nat, e: Word): TableMap
    requires t in tables && i < |tables[t]|
  {
    var table: seq<Word> := tables[t][i := e];
    tables[t := table]
  }

  predicate Present(e: nat) { Bit(e, PRESENT) }

  /** The tables in memory are exactly those that present directory entries point
      to, each by one entry, and each holds a present entry; present entries have
      no stray bits. */
  ghost predicate Consistent(dir: seq<Word64>, tables: TableMap) {
    |dir| == ENTRIES
    && (forall t :: t in tables ==> |tables[t]| == ENTRIES && SomePresent(tables[t]) && Exact(tables[t]) && Owned(dir, t))
    && (forall d :: 0 <= d < ENTRIES && Present(dir[d]) ==> Base(dir[d]) in tables)
    && (forall d, e :: 0 <= d < e < ENTRIES && Present(dir[d]) && Present(dir[e]) ==> Base(dir[d]) != Base(dir[e]))
  }

  ghost predicate SomePresent(table: seq<Word>) {
    exists i :: 0 <= i < |table| && Present(table[i])
  }

  ghost predicate Exact(table: seq<Word>) {
    forall i :: 0 <= i < |table| && Present(table[i]) ==> table[i] == EntryOf(Decode(table[i]))
  }

  ghost predicate Owned(dir: seq<Word64>, t: nat) {
    exists d :: 0 <= d < |dir| && Present(dir[d]) && Base(dir[d]) == t
  }

  /** The entry for indices `d` and `i`, decoded; None if the page is not mapped. */
  ghost function Lookup(dir: seq<Word64>, tables: TableMap, d: nat, i: nat): Option<Page>
    requires Consistent(dir, tables) && d < ENTRIES && i < ENTRIES
  {
    if !Present(dir[d]) then None
    else
      var e := tables[Base(dir[d])][i];
      if Present(e) then Some(Decode(e)) else None
  }

  /** `after` is `before` but for the entry at `d`, `i`, which is `page`. */
  ghost predicate OneChanged(dir: seq<Word64>, tables: TableMap, dir': seq<Word64>, tables': TableMap,
                             d: nat, i: nat, page: Option<Page>)
    requires Consistent(dir, tables) && Consistent(dir', tables')
  {
    forall c, k :: 0 <= c < ENTRIES && 0 <= k < ENTRIES ==>
      Lookup(dir', tables', c, k) == if c == d && k == i then page else Lookup(dir, tables, c, k)
  }

  /** Storing an entry in a table that is there and keeps a present entry. */
  lemma WriteEntry(dir: seq<Word64>, tables: TableMap, d: nat, i: nat, e: Word)
    requires Consistent(dir, tables) && d < ENTRIES && i < ENTRIES && Present(dir[d])
    requires SomePresent(tables[Base(dir[d])][i := e]) && (Present(e) ==> e == EntryOf(Decode(e)))
    ensures var t := Base(dir[d]);
      var tables' := Store(tables, t, i, e);
      Consistent(dir, tables')
      && OneChanged(dir, tables, dir, tables', d, i, if Present(e) then Some(Decode(e)) else None)
  {
    assert Owned(dir, Base(dir[d]));
  }

  /** Marking a present entry accessed. */
  lemma MarkEntry(dir: seq<Word64>, tables: TableMap, d: nat, i: nat)
    requires Consistent(dir, tables) && d < ENTRIES && i < ENTRIES && Lookup(dir, tables, d, i).Some?
    ensures var t := Base(dir[d]);
      SetBit(tables[t][i], ACCESSED) < 0x1_0000_0000
      && var tables' := Store(tables, t, i, SetBit(tables[t][i], ACCESSED));
      Consistent(dir, tables')
      && OneChanged(dir, tables, dir, tables', d, i, Some(Lookup(dir, tables, d, i).value.(accessed := true)))
  {
    var t := tables[Base(dir[d])];
    MarkAccessed(t[i]);
    var marked: Word := SetBit(t[i], ACCESSED);
    assert Present(t[i := marked][i]);
    WriteEntry(dir, tables, d, i, marked);
  }

  /** Storing a present entry in a new table. */
  lemma NewTable(dir: seq<Word64>, tables: TableMap, d: nat, t: Word64, i: nat, e: Word)
    requires Consistent(dir, tables) && d < ENTRIES && i < ENTRIES && !Present(dir[d])
    requires Present(e) && e == EntryOf(Decode(e))
    requires Offset(t) == 0 && t !in tables
    ensures SetBit(t, PRESENT) < 0x1_0000_0000_0000_0000
    ensures var dir' := dir[d := SetBit(t, PRESENT)];
      var tables' := tables[t := ZeroTable()[i := e]];
      Consistent(dir', tables') && OneChanged(dir, tables, dir', tables', d, i, Some(Decode(e)))
  {
    EntryOfTable(t);
    var table := ZeroTable()[i := e];
    var dir' := dir[d := SetBit(t, PRESENT)];
    assert Present(table[i]);
    assert Present(dir'[d]) && Base(dir'[d]) == t;
    forall u | u in tables ensures Owned(dir', u) {
      var c :| 0 <= c < |dir| && Present(dir[c]) && Base(dir[c]) == u;
      assert Present(dir'[c]) && Base(dir'[c]) == u;
    }
  }

  /** Clearing the last present entry of a table and freeing the table. */
  lemma DropTable(dir: seq<Word64>, tables: TableMap, d: nat, i: nat)
    requires Consistent(dir, tables) && d < ENTRIES && i < ENTRIES && Present(dir[d])
    requires forall k :: 0 <= k < ENTRIES && k != i ==> !Present(tables[Base(dir[d])][k])
    ensures var dir' := dir[d := ClearBit(dir[d], PRESENT)];
      var tables' := tables - {Base(dir[d])};
      Consistent(dir', tables') && OneChanged(dir, tables, dir', tables', d, i, None)
  {
    ClearPresent(dir[d]);
    var dir' := dir[d := ClearBit(dir[d], PRESENT)];
    var tables' := tables - {Base(dir[d])};
    forall u | u in tables' ensures Owned(dir', u) {
      var c :| 0 <= c < |dir| && Present(dir[c]) && Base(dir[c]) == u;
      assert c != d;
      assert Present(dir'[c]) && Base(dir'[c]) == u;
    }
  }

  /** May a page be used this way?  The kernel may do anything. */
  predicate Allowed(p: Page, mode: ReadWrite, privilege: Privilege) {
    privilege == KernelMode || (p.user && (mode == AccessWrite ==> p.writable))
  }

  /** What `mapPage` does; `granted` says whether memory for a table can be had. */
  ghost predicate MapPost(dir: seq<Word64>, tables: TableMap, v: Word, p: Word, mode: ReadWrite, privilege: Privilege,
                          granted: bool, dir': seq<Word64>, tables': TableMap, r: int)
  {
    Consistent(dir, tables) && Consistent(dir', tables') &&
    if Offset(v) != 0 || Offset(p) != 0 || (!Present(dir[DirectoryIndex(v)]) && !granted) then
      r == -1 && dir' == dir && tables' == tables
    else
      r == 0 && OneChanged(dir, tables, dir', tables', DirectoryIndex(v), TableIndex(v),
                           Some(Page(p, mode == AccessWrite, privilege == UserMode, false)))
  }

  ghost predicate TranslatePost(dir: seq<Word64>, tables: TableMap, a: Word, mode: ReadWrite, privilege: Privilege,
                                dir': seq<Word64>, tables': TableMap, r: int)
  {
    Consistent(dir, tables) && Consistent(dir', tables') &&
    var page := Lookup(dir, tables, DirectoryIndex(a), TableIndex(a));
    if page.Some? && Allowed(page.value, mode, privilege) then
      r == page.value.frame + Offset(a)
      && OneChanged(dir, tables, dir', tables', DirectoryIndex(a), TableIndex(a), Some(page.value.(accessed := true)))
    else
      r == INVALID_ADDRESS && dir' == dir && tables' == tables
  }

  ghost predicate UnmapPost(dir: seq<Word64>, tables: TableMap, v: Word, dir': seq<Word64>, tables': TableMap, r: int) {
    Consistent(dir, tables) && Consistent(dir', tables') &&
    if Offset(v) != 0 || Lookup(dir, tables, DirectoryIndex(v), TableIndex(v)) == None then
      r == -1 && dir' == dir && tables' == tables
    else
      r == 0 && OneChanged(dir, tables, dir', tables', DirectoryIndex(v), TableIndex(v), None)
  }

  /** The scan for an entry that is still present. */
  method AllUnmapped(table: seq<Word>) returns (all: bool)
    ensures all <==> forall i :: 0 <= i < |table| ==> !Present(table[i])
    ensures !all ==> SomePresent(table)
  {
    for i := 0 to |table|
      invariant forall k :: 0 <= k < i ==> !Present(table[k])
    {
      if Present(table[i]) { return false; }
    }
    all := true;
  }

  class Tables {
    /** The page directory `_cr3->entries`. */
    const directory: array<Word64>
    var tables: TableMap

    ghost predicate Valid()
      reads this, directory
    {
      Consistent(directory[..], tables)
    }

    constructor (directory: array<Word64>)
      requires directory.Length == ENTRIES && forall d :: 0 <= d < ENTRIES ==> !Present(directory[d])
      ensures Valid() && this.directory == directory && tables == map[]
    {
      this.directory := directory;
      tables := map[];
    }

    /** `mapPage`.  `block` is the answer of posix_memalign: the address of a new
        aligned block, or None. */
    method MapPage(virtualBase: Word, physicalBase: Word, mode: ReadWrite, privilege: Privilege, block: Option<Word64>)
      returns (r: int)
      requires Valid()
      requires block.Some? ==> Offset(block.value) == 0 && block.value !in tables
      modifies this`tables, directory
      ensures Valid()
      ensures MapPost(old(directory[..]), old(tables), virtualBase, physicalBase, mode, privilege, block.Some?,
                      directory[..], tables, r)
    {
      if Offset(virtualBase) != 0 || Offset(physicalBase) != 0 { return -1; }
      ghost var dir0, tables0 := directory[..], tables;
      var d, i := DirectoryIndex(virtualBase), TableIndex(virtualBase);
      EncodeDecode(physicalBase, mode == AccessWrite, privilege == UserMode);
      EncodeExact(physicalBase, mode == AccessWrite, privilege == UserMode);
      var e := Encode(physicalBase, mode == AccessWrite, privilege == UserMode);
      var pde := directory[d];
      var table;
      if !Present(pde) {
        if block == None { return -1; }
        table := block.value;
        NewTable(dir0, tables0, d, table, i, e);
        tables := tables[table := ZeroTable()];
        directory[d] := SetBit(table, PRESENT);
        assert Store(tables, table, i, e) == tables0[table := ZeroTable()[i := e]];
      } else {
        table := Base(pde);
        assert Present(tables[table][i := e][i]);
        WriteEntry(dir0, tables0, d, i, e);
      }
      tables := Store(tables, table, i, e);
      r := 0;
    }

    /** `translatePageTable`. */
    method Translate(a: Word, mode: ReadWrite, privilege: Privilege) returns (r: Word)
      requires Valid()
      modifies this`tables
      ensures Valid()
      ensures TranslatePost(old(directory[..]), old(tables), a, mode, privilege, directory[..], tables, r)
    {
      var d, i := DirectoryIndex(a), TableIndex(a);
      var pde := directory[d];
      if !Present(pde) { return INVALID_ADDRESS; }
      var table := Base(pde);
      var pte := tables[table][i];
      if !Present(pte) { return INVALID_ADDRESS; }
      if privilege == UserMode {
        if mode == AccessWrite && !Bit(pte, READWRITE) { return INVALID_ADDRESS; }
        if !Bit(pte, USERMODE) { return INVALID_ADDRESS; }
      }
      MarkEntry(directory[..], tables, d, i);
      tables := Store(tables, table, i, SetBit(pte, ACCESSED));
      AnswerIsInvalid(Base(pte), a);
      r := Base(pte) + Offset(a);
    }

    /** `unmapPage`, which frees the table when its last page goes. */
    method UnmapPage(virtualBase: Word) returns (r: int)
      requires Valid()
      modifies this`tables, directory
      ensures Valid()
      ensures UnmapPost(old(directory[..]), old(tables), virtualBase, directory[..], tables, r)
    {
      if Offset(virtualBase) != 0 { return -1; }
      ghost var dir0, tables0 := directory[..], tables;
      var d, i := DirectoryIndex(virtualBase), TableIndex(virtualBase);
      var pde := directory[d];
      if !Present(pde) { return -1; }
      var table := Base(pde);
      var pte := tables[table][i];
      if !Present(pte) { return -1; }
      ClearPresent(pte);
      var cleared: Word := ClearBit(pte, PRESENT);
      tables := Store(tables, table, i, cleared);
      var allUnmapped := AllUnmapped(tables[table]);
      r := 0;
      if allUnmapped {
        forall k | 0 <= k < ENTRIES && k != i ensures !Present(tables0[table][k]) {
          assert tables[table][k] == tables0[table][k];
        }
        DropTable(dir0, tables0, d, i);
        tables := tables - {table};
        directory[d] := ClearBit(pde, PRESENT);
        assert tables == tables0 - {table};
      } else {
        WriteEntry(dir0, tables0, d, i, cleared);
      }
    }
  }
}
