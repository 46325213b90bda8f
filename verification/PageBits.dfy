/** Addresses and table entries of the page table, bit by bit: 32- and 64-bit
    words are naturals, and masks are written with division by powers of two. */
module PageBits {

  type Word = x: nat | x < 0x1_0000_0000
  type Word64 = x: nat | x < 0x1_0000_0000_0000_0000

  /** Is the bit of weight `w` set? */
  predicate Bit(e: nat, w: nat)
    requires w > 0
  {
    e / w % 2 == 1
  }

  /** `e | w` for a single bit. */
  function SetBit(e: nat, w: nat): nat
    requires w > 0
  {
    if Bit(e, w) then e else e + w
  }

  /** `e & ~w` for a single bit. */
  function ClearBit(e: nat, w: nat): nat
    requires w > 0
  {
    if Bit(e, w) && e >= w then e - w else e
  }

  const PRESENT := 0x01
  const READWRITE := 0x02
  const USERMODE := 0x04
  const ACCESSED := 0x20

  /** `a & ~0xfff` and `a & 0xfff`. */
  function Base(a: nat): (base: nat)
    ensures base <= a < base + 0x1000 && Offset(base) == 0
  {
    a / 0x1000 * 0x1000
  }

  function Offset(a: nat): nat { a % 0x1000 }

  function DirectoryIndex(a: Word): (d: nat)
    ensures d < 1024
  {
    a / 0x40_0000
  }

  function TableIndex(a: Word): (i: nat)
    ensures i < 1024
  {
    a / 0x1000 % 0x400
  }

  /** The split into indices and offset is a bijection. */
  lemma SplitIsExact(a: Word)
    ensures a == DirectoryIndex(a) * 0x40_0000 + TableIndex(a) * 0x1000 + Offset(a)
    ensures a == Base(a) + Offset(a)
  {
  }

  lemma JoinIsExact(d: nat, i: nat, o: nat) returns (a: Word)
    requires d < 0x400 && i < 0x400 && o < 0x1000
    ensures DirectoryIndex(a) == d && TableIndex(a) == i && Offset(a) == o
  {
    a := d * 0x40_0000 + i * 0x1000 + o;
  }

  /** Two addresses use the same entry exactly when they lie on the same page. */
  lemma SameEntry(a: Word, b: Word)
    ensures DirectoryIndex(a) == DirectoryIndex(b) && TableIndex(a) == TableIndex(b) <==> Base(a) == Base(b)
  {
    SplitIsExact(a);
    SplitIsExact(b);
  }

  /** What an entry says about a page. */
  datatype Page = Page(frame: nat, writable: bool, user: bool, accessed: bool)

  function Decode(e: nat): Page {
    Page(Base(e), Bit(e, READWRITE), Bit(e, USERMODE), Bit(e, ACCESSED))
  }

  function Encode(frame: nat, writable: bool, user: bool): nat {
    var e := SetBit(frame, PRESENT);
    var e := if writable then SetBit(e, READWRITE) else e;
    if user then SetBit(e, USERMODE) else e
  }

  /** The entry of a page, with no other bit set. */
  ghost function EntryOf(p: Page): nat {
    p.frame + 0x01 + (if p.writable then 0x02 else 0) + (if p.user then 0x04 else 0) + if p.accessed then 0x20 else 0
  }

  lemma Below(a: nat, b: nat, w: nat)
    requires a * w < (b + 1) * w
    ensures a <= b
  {
    if a > b { Times(a, b + 1, w); }
  }

  lemma Times(a: nat, b: nat, w: nat)
    requires a >= b
    ensures a * w >= b * w
  {
    assert a * w == (a - b) * w + b * w;
  }

  lemma QuotientIs(x: nat, w: nat, q: nat)
    requires w > 0 && q * w <= x < (q + 1) * w
    ensures x / w == q
  {
    var d, r := x / w, x % w;
    assert x == d * w + r && (d + 1) * w == d * w + w;
    Below(d, q, w);
    Below(q, d, w);
  }

  /** Adding a multiple of twice its weight does not change a bit. */
  lemma HigherBits(q: nat, w: nat, c: nat)
    requires w > 0
    ensures Bit(2 * q * w + c, w) == Bit(c, w)
  {
    QuotientIs(2 * q * w + c, w, 2 * q + c / w);
  }

  /** The low twelve bits of a word with page number `m` are those of `c`. */
  lemma LowBits(m: nat, c: nat)
    requires c < 0x1000
    ensures Base(0x1000 * m + c) == 0x1000 * m
    ensures Bit(0x1000 * m + c, PRESENT) == Bit(c, PRESENT) && Bit(0x1000 * m + c, READWRITE) == Bit(c, READWRITE)
    ensures Bit(0x1000 * m + c, USERMODE) == Bit(c, USERMODE) && Bit(0x1000 * m + c, ACCESSED) == Bit(c, ACCESSED)
  {
    QuotientIs(0x1000 * m + c, 0x1000, m);
    HigherBits(0x800 * m, PRESENT, c);
    HigherBits(0x400 * m, READWRITE, c);
    HigherBits(0x200 * m, USERMODE, c);
    HigherBits(0x40 * m, ACCESSED, c);
  }

  /** The page number, and one bit each for what the page may be used for. */
  lemma EncodeExact(frame: Word, writable: bool, user: bool)
    requires Offset(frame) == 0
    ensures Encode(frame, writable, user) == EntryOf(Page(frame, writable, user, false))
  {
    var m := frame / 0x1000;
    assert frame == 0x1000 * m + 0;
    LowBits(m, 0);
    LowBits(m, 1);
    LowBits(m, 3);
  }

  /** Encoding a page and decoding the entry gives the page back, not yet accessed. */
  lemma EncodeDecode(frame: Word, writable: bool, user: bool)
    requires Offset(frame) == 0
    ensures Encode(frame, writable, user) < 0x1_0000_0000
    ensures Bit(Encode(frame, writable, user), PRESENT)
    ensures Decode(Encode(frame, writable, user)) == Page(frame, writable, user, false)
  {
    var m := frame / 0x1000;
    EncodeExact(frame, writable, user);
    LowBits(m, 1);
    LowBits(m, 3);
    LowBits(m, 5);
    LowBits(m, 7);
  }

  lemma AddAccessed(e: nat)
    requires !Bit(e, ACCESSED)
    ensures Base(e + ACCESSED) == Base(e) && Bit(e + ACCESSED, ACCESSED)
  {
    var m, c := e / 0x1000, e % 0x1000;
    LowBits(m, c);
    AccessedFits(c);
    LowBits(m, c + ACCESSED);
  }

  lemma AccessedFits(c: nat)
    requires c < 0x1000 && !Bit(c, ACCESSED)
    ensures c + ACCESSED < 0x1000 && Bit(c + ACCESSED, ACCESSED)
  {
    assert c / ACCESSED <= 126;
    QuotientIs(c + ACCESSED, ACCESSED, c / ACCESSED + 1);
  }

  lemma AddAccessedLow(e: nat)
    ensures Bit(e + ACCESSED, PRESENT) == Bit(e, PRESENT)
    ensures Bit(e + ACCESSED, READWRITE) == Bit(e, READWRITE)
    ensures Bit(e + ACCESSED, USERMODE) == Bit(e, USERMODE)
  {
    HigherBits(16, PRESENT, e);
    HigherBits(8, READWRITE, e);
    HigherBits(4, USERMODE, e);
  }

  /** Marking an entry accessed changes nothing else. */
  lemma MarkAccessed(e: Word)
    ensures SetBit(e, ACCESSED) < 0x1_0000_0000
    ensures Decode(SetBit(e, ACCESSED)) == Decode(e).(accessed := true)
    ensures Bit(SetBit(e, ACCESSED), PRESENT) == Bit(e, PRESENT)
    ensures e == EntryOf(Decode(e)) ==> SetBit(e, ACCESSED) == EntryOf(Decode(e).(accessed := true))
  {
    if !Bit(e, ACCESSED) {
      AddAccessed(e);
      AddAccessedLow(e);
    }
  }

  lemma ClearPresent(e: nat)
    ensures !Bit(ClearBit(e, PRESENT), PRESENT) && Base(ClearBit(e, PRESENT)) == Base(e)
  {
    var m, c := e / 0x1000, e % 0x1000;
    LowBits(m, c);
    if Bit(e, PRESENT) { LowBits(m, c - 1); }
  }

  /** A directory entry for a page-aligned table. */
  lemma EntryOfTable(table: Word64)
    requires Offset(table) == 0
    ensures SetBit(table, PRESENT) < 0x1_0000_0000_0000_0000
    ensures Bit(SetBit(table, PRESENT), PRESENT) && Base(SetBit(table, PRESENT)) == table
  {
    LowBits(table / 0x1000, 0);
    LowBits(table / 0x1000, 1);
  }

  /** A translation looks like a failure for one byte of one frame only. */
  lemma AnswerIsInvalid(frame: Word, a: Word)
    requires Offset(frame) == 0
    ensures frame + Offset(a) < 0x1_0000_0000
    ensures frame + Offset(a) == 0xFFFF_FFFF <==> frame == 0xFFFF_F000 && Offset(a) == 0xFFF
  {
  }
}
