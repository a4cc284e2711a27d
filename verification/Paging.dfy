/**
 Four-level page tables as a value: the words of the table pages, one 512-word row per page, row 0 being
 the PML4 page and rows 1 to POOL_PAGES the static pool. An entry names a page by its address.
 */
module Paging {
  import opened Pages

  type Word = w: nat | w < 0x1_0000_0000_0000_0000

  const INVALID_ADDRESS: Word := 0xFFFF_FFFF_FFFF_FFFF
  const POOL_PAGES: nat := 2048
  const ROWS: nat := 2049
  const WORDS: nat := 1049088 // ROWS * 512
  const PAGES: nat := 0x10_0000_0000 // 2^36 page numbers in 48 bits of address

  // -------------------------------------------------------------------------
  // Bit fields of an entry. A bitwise or of disjoint fields is written as a sum.

  predicate Present(w: Word) { w % 2 == 1 }
  predicate Writable(w: Word) { w / 2 % 2 == 1 }
  predicate UserMode(w: Word) { w / 4 % 2 == 1 }
  predicate WriteThrough(w: Word) { w / 8 % 2 == 1 }
  predicate CacheDisable(w: Word) { w / 16 % 2 == 1 }
  predicate Large(w: Word) { w / 128 % 2 == 1 }

  // Bits 48 to 51.
  predicate ReservedClear(w: Word) { w / 0x1_0000_0000_0000 % 16 == 0 }

  // w & PML4AddressMask: bits 12 to 51.
  function Frame(w: Word): (a: Word)
    ensures a % 4096 == 0 && a < 0x10_0000_0000_0000
  {
    w / 4096 % 0x100_0000_0000 * 4096
  }

  // PRESENT | WRITABLE | USER_CPL on top of a table address.
  function TableEntry(address: nat): Word
    requires Aligned(address) && address <= PAGE_MASK
  {
    address + 7
  }

  function PageEntry(frame: nat, writable: bool, user: bool, pageFlags: nat): Word
    requires Aligned(frame) && frame <= PAGE_MASK
  {
    frame + 1
    + (if user then 4 else 0)
    + (if writable then 2 else 0)
    + (if pageFlags == PAGE_FLAGS_CACHE_DISABLE then 16 else 0)
    + (if pageFlags == PAGE_FLAGS_WRITE_THROUGH then 8 else 0)
  }

  const PAGE_FLAGS_NONE: nat := 0
  const PAGE_FLAGS_WRITE_THROUGH: nat := 1
  const PAGE_FLAGS_CACHE_DISABLE: nat := 2

  lemma TableEntryFields(address: nat)
    requires Aligned(address) && address <= PAGE_MASK
    ensures var w := TableEntry(address);
            Present(w) && Writable(w) && UserMode(w) && !Large(w) && ReservedClear(w) && Frame(w) == address
  {
    TableWord(address / 4096);
  }

  lemma TableWord(q: nat)
    requires q < 0x10_0000_0000
    ensures var w := 4096 * q + 7;
            Present(w) && Writable(w) && UserMode(w) && !Large(w) && ReservedClear(w) && Frame(w) == 4096 * q
  {
    FlagBits(q, 7);
    SizeBit(q, 7);
  }

  lemma SizeBit(q: nat, low: nat)
    requires low < 128
    ensures (4096 * q + low) / 128 == 2 * (16 * q)
  {
  }

  // The fields of a leaf entry can be read back, so none of them overlaps another.
  lemma PageEntryFields(frame: nat, writable: bool, user: bool, pageFlags: nat)
    requires Aligned(frame) && frame <= PAGE_MASK
    ensures var w := PageEntry(frame, writable, user, pageFlags);
            && Present(w) && ReservedClear(w) && Frame(w) == frame
            && Writable(w) == writable && UserMode(w) == user
            && CacheDisable(w) == (pageFlags == PAGE_FLAGS_CACHE_DISABLE)
            && WriteThrough(w) == (pageFlags == PAGE_FLAGS_WRITE_THROUGH)
  {
    var q := frame / 4096;
    var low := PageEntry(frame, writable, user, pageFlags) - frame;
    assert frame == 4096 * q;
    FlagBits(q, low);
  }

  lemma FlagBits(q: nat, low: nat)
    requires low < 32 && q < 0x10_0000_0000
    ensures var w := 4096 * q + low;
            && Present(w) == Present(low) && Writable(w) == Writable(low) && UserMode(w) == UserMode(low)
            && WriteThrough(w) == WriteThrough(low) && CacheDisable(w) == CacheDisable(low)
            && ReservedClear(w) && Frame(w) == 4096 * q
  {
    Digits(q, low);
    Parity(2048 * q, low);
    Parity(1024 * q, low / 2);
    Parity(512 * q, low / 4);
    Parity(256 * q, low / 8);
    Parity(128 * q, low / 16);
  }

  lemma Parity(x: int, y: int)
    ensures (2 * x + y) % 2 == y % 2
  {
  }

  // The quotients of a word whose low five bits are split off one at a time.
  lemma Digits(q: nat, low: nat)
    requires low < 32
    ensures (4096 * q + low) / 2 == 2 * (1024 * q) + low / 2
    ensures (4096 * q + low) / 4 == 2 * (512 * q) + low / 4
    ensures (4096 * q + low) / 8 == 2 * (256 * q) + low / 8
    ensures (4096 * q + low) / 16 == 2 * (128 * q) + low / 16
    ensures (4096 * q + low) / 4096 == q
  {
  }

  // -------------------------------------------------------------------------
  // Walking the tables

  // Reads outside the table pages yield an absent entry.
  function Read(m: seq<Word>, row: int, j: int): Word {
    if 0 <= row < ROWS && 0 <= j < 512 && |m| == WORDS then m[row * 512 + j] else 0
  }

  // The row an entry points to, or -1 for an absent entry.
  function Child(base: nat, w: Word): int {
    if Present(w) then (Frame(w) - base) / 4096 else -1
  }

  function Pdpt(m: seq<Word>, base: nat, i: int): int {
    Child(base, Read(m, 0, i))
  }

  function PdWord(m: seq<Word>, base: nat, k: int): Word {
    Read(m, Pdpt(m, base, k / 512), k % 512)
  }

  function Pd(m: seq<Word>, base: nat, k: int): int {
    Child(base, PdWord(m, base, k))
  }

  function PtWord(m: seq<Word>, base: nat, k: int): Word {
    Read(m, Pd(m, base, k / 512), k % 512)
  }

  function Pt(m: seq<Word>, base: nat, k: int): int {
    Child(base, PtWord(m, base, k))
  }

  // The leaf entry of a virtual page number.
  function Entry(m: seq<Word>, base: nat, vpn: int): Word {
    Read(m, Pt(m, base, vpn / 512), vpn % 512)
  }

  function GetPhysicalAddress(m: seq<Word>, base: nat, virtualAddress: Word): Word {
    var pml4Entry := Read(m, 0, virtualAddress / 0x80_0000_0000 % 512);
    if !Present(pml4Entry) then INVALID_ADDRESS else
    var pdptEntry := Read(m, Child(base, pml4Entry), virtualAddress / 0x4000_0000 % 512);
    if !Present(pdptEntry) then INVALID_ADDRESS else
    var pdEntry := Read(m, Child(base, pdptEntry), virtualAddress / 0x20_0000 % 512);
    if !Present(pdEntry) then INVALID_ADDRESS else
    if Large(pdEntry) then Frame(pdEntry) + virtualAddress % 0x20_0000 else
    var ptEntry := Read(m, Child(base, pdEntry), virtualAddress / 4096 % 512);
    if !Present(ptEntry) then INVALID_ADDRESS else
    Frame(ptEntry) + virtualAddress % 4096
  }

  // -------------------------------------------------------------------------
  // The no-aliasing invariant

  // Whose table a row is: the level and the address prefix it serves.
  datatype Owner = Root | Unused | PdptOf(i: int) | PdOf(k: int) | PtOf(k: int)

  ghost predicate Placement(base: nat) {
    0 < base && Aligned(base) && base + ROWS * PAGE_SIZE <= PAGE_MASK
  }

  function RowAddress(base: nat, row: nat): nat {
    base + 4096 * row
  }

  // An entry above the leaf level is absent, or it is exactly the link to the table that serves its prefix.
  ghost predicate LinkOk(base: nat, owner: seq<Owner>, w: Word, o: Owner) {
    Present(w) ==>
      && 1 <= Child(base, w) < |owner| && owner[Child(base, w)] == o
      && w == RowAddress(base, Child(base, w)) + 7
  }

  // Every linked page has one parent, and every owned page is linked where its owner says.
  ghost predicate Linked(m: seq<Word>, base: nat, owner: seq<Owner>) {
    && Placement(base) && |m| == WORDS && |owner| == ROWS && owner[0] == Root
    && (forall i {:trigger LinkOk(base, owner, Read(m, 0, i), PdptOf(i))} :: 0 <= i < 512 ==>
          LinkOk(base, owner, Read(m, 0, i), PdptOf(i)))
    && (forall k {:trigger LinkOk(base, owner, PdWord(m, base, k), PdOf(k))} :: 0 <= k < 0x4_0000 ==>
          LinkOk(base, owner, PdWord(m, base, k), PdOf(k)))
    && (forall k {:trigger LinkOk(base, owner, PtWord(m, base, k), PtOf(k))} :: 0 <= k < 0x800_0000 ==>
          LinkOk(base, owner, PtWord(m, base, k), PtOf(k)))
    && (forall vpn :: 0 <= vpn < PAGES ==> ReservedClear(Entry(m, base, vpn)))
    && (forall r {:trigger OwnerHonest(m, base, owner[r], r)} :: 1 <= r < ROWS ==> OwnerHonest(m, base, owner[r], r))
  }

  ghost predicate OwnerHonest(m: seq<Word>, base: nat, o: Owner, r: int) {
    match o
    case Root => false
    case Unused => true
    case PdptOf(i) => 0 <= i < 512 && Pdpt(m, base, i) == r
    case PdOf(k) => 0 <= k < 0x4_0000 && Pd(m, base, k) == r
    case PtOf(k) => 0 <= k < 0x800_0000 && Pt(m, base, k) == r
  }

  lemma ChildOfLink(base: nat, row: nat)
    requires Placement(base) && row < ROWS
    ensures Child(base, RowAddress(base, row) + 7) == row && Present(RowAddress(base, row) + 7)
    ensures Frame(RowAddress(base, row) + 7) == RowAddress(base, row)
    ensures RowAddress(base, row) <= PAGE_MASK && Aligned(RowAddress(base, row))
  {
    TableEntryFields(RowAddress(base, row));
  }

  // The four table indices of an address are the base-512 digits of its page number.
  lemma Indices(v: nat)
    ensures var vpn := v / 4096 % PAGES;
            && vpn % 512 == v / 4096 % 512
            && vpn / 512 % 512 == v / 0x20_0000 % 512
            && vpn / 512 / 512 % 512 == v / 0x4000_0000 % 512
            && vpn / 512 / 512 / 512 == v / 0x80_0000_0000 % 512
  {
    var p := v / 4096;
    assert v / 0x20_0000 == p / 512;
    assert v / 0x4000_0000 == p / 512 / 512;
    assert v / 0x80_0000_0000 == p / 512 / 512 / 512;
    var t := p / PAGES;
    var vpn := p % PAGES;
    assert p == 512 * (0x800_0000 * t + vpn / 512) + vpn % 512;
    assert p / 512 == 0x800_0000 * t + vpn / 512;
    assert p / 512 == 512 * (0x4_0000 * t + vpn / 512 / 512) + vpn / 512 % 512;
    assert p / 512 / 512 == 0x4_0000 * t + vpn / 512 / 512;
    assert p / 512 / 512 / 512 == 512 * t + vpn / 512 / 512 / 512;
  }

  // The walk of the reader, in terms of the tables that serve the prefixes of the page number.
  lemma WalkByPrefix(m: seq<Word>, base: nat, v: Word)
    ensures var vpn := v / 4096 % PAGES;
            var pdEntry := PtWord(m, base, vpn / 512);
            GetPhysicalAddress(m, base, v) ==
            if !Present(pdEntry) then INVALID_ADDRESS
            else if Large(pdEntry) then Frame(pdEntry) + v % 0x20_0000
            else if Present(Entry(m, base, vpn)) then Frame(Entry(m, base, vpn)) + v % 4096
            else INVALID_ADDRESS
  {
    Indices(v);
    var k := v / 4096 % PAGES / 512;
    if !Present(Read(m, 0, k / 512 / 512)) {
      assert PdWord(m, base, k / 512) == 0;
    }
    if !Present(PdWord(m, base, k / 512)) {
      assert PtWord(m, base, k) == 0;
    }
  }

  // The reader sees only the leaf entry of the page number: no linked entry is a large page.
  lemma TranslationIsByEntry(m: seq<Word>, base: nat, owner: seq<Owner>, v: Word)
    requires Linked(m, base, owner)
    ensures var w := Entry(m, base, v / 4096 % PAGES);
            GetPhysicalAddress(m, base, v) == if Present(w) then Frame(w) + v % 4096 else INVALID_ADDRESS
  {
    WalkByPrefix(m, base, v);
    NoLargePage(m, base, owner, v / 4096 % PAGES);
  }

  lemma LinkIsPlain(base: nat, owner: seq<Owner>, w: Word, o: Owner)
    requires Placement(base) && |owner| == ROWS && LinkOk(base, owner, w, o) && Present(w)
    ensures !Large(w) && ReservedClear(w)
  {
    RowLinkIsPlain(base, Child(base, w), w);
  }

  lemma RowLinkIsPlain(base: nat, row: nat, w: Word)
    requires Placement(base) && row < ROWS && w == RowAddress(base, row) + 7
    ensures !Large(w) && ReservedClear(w)
  {
    var q := base / 4096 + row;
    assert w == 4096 * q + 7;
    TableWord(q);
  }

  lemma NoLargePage(m: seq<Word>, base: nat, owner: seq<Owner>, vpn: nat)
    requires Linked(m, base, owner) && vpn < PAGES
    ensures var pdEntry := PtWord(m, base, vpn / 512);
            if Present(pdEntry) then !Large(pdEntry) else Entry(m, base, vpn) == 0
  {
    var pdEntry := PtWord(m, base, vpn / 512);
    assert LinkOk(base, owner, pdEntry, PtOf(vpn / 512));
    if Present(pdEntry) {
      LinkIsPlain(base, owner, pdEntry, PtOf(vpn / 512));
    }
  }

  // -------------------------------------------------------------------------
  // Writes

  function Write(m: seq<Word>, row: int, j: int, w: Word): seq<Word>
    requires |m| == WORDS && 0 <= row < ROWS && 0 <= j < 512
  {
    m[row * 512 + j := w]
  }

  lemma ReadWrite(m: seq<Word>, row: int, j: int, w: Word)
    requires |m| == WORDS && 0 <= row < ROWS && 0 <= j < 512
    ensures forall row', j' :: Read(Write(m, row, j, w), row', j')
                            == if row' == row && j' == j then w else Read(m, row', j')
  {
  }

  // The same tables are linked in both memories.
  ghost predicate SameTables(m: seq<Word>, m': seq<Word>, base: nat) {
    && (forall i :: 0 <= i < 512 ==> Read(m', 0, i) == Read(m, 0, i))
    && (forall k :: 0 <= k < 0x4_0000 ==> PdWord(m', base, k) == PdWord(m, base, k))
    && (forall k :: 0 <= k < 0x800_0000 ==> PtWord(m', base, k) == PtWord(m, base, k))
  }

  // Rows of different owners are different, so a row linked for one prefix serves no other.
  lemma OwnersSeparate(m: seq<Word>, base: nat, owner: seq<Owner>, r: int)
    requires Linked(m, base, owner) && 0 <= r < ROWS
    ensures forall i :: 0 <= i < 512 && Pdpt(m, base, i) == r ==> owner[r] == PdptOf(i)
    ensures forall k :: 0 <= k < 0x4_0000 && Pd(m, base, k) == r ==> owner[r] == PdOf(k)
    ensures forall k :: 0 <= k < 0x800_0000 && Pt(m, base, k) == r ==> owner[r] == PtOf(k)
  {
    forall i | 0 <= i < 512 && Pdpt(m, base, i) == r ensures owner[r] == PdptOf(i) {
      assert LinkOk(base, owner, Read(m, 0, i), PdptOf(i));
    }
    forall k | 0 <= k < 0x4_0000 && Pd(m, base, k) == r ensures owner[r] == PdOf(k) {
      assert LinkOk(base, owner, PdWord(m, base, k), PdOf(k));
    }
    forall k | 0 <= k < 0x800_0000 && Pt(m, base, k) == r ensures owner[r] == PtOf(k) {
      assert LinkOk(base, owner, PtWord(m, base, k), PtOf(k));
    }
  }

  // A memory that differs only in one row r that is no PDPT and no PD links the same tables.
  lemma TablesUnaffected(m: seq<Word>, m': seq<Word>, base: nat, owner: seq<Owner>, r: int)
    requires Linked(m, base, owner) && |m'| == WORDS && 1 <= r < ROWS
    requires owner[r] == Unused || owner[r].PtOf?
    requires forall row, j :: row != r ==> Read(m', row, j) == Read(m, row, j)
    ensures SameTables(m, m', base)
  {
    OwnersSeparate(m, base, owner, r);
  }

  // Rewriting one leaf entry changes the translation of its own page and of no other.
  lemma SetLeaf(m: seq<Word>, base: nat, owner: seq<Owner>, vpn: nat, w: Word)
    requires Linked(m, base, owner) && vpn < PAGES && ReservedClear(w)
    requires Pt(m, base, vpn / 512) != -1
    ensures 1 <= Pt(m, base, vpn / 512) < ROWS
    ensures var m' := Write(m, Pt(m, base, vpn / 512), vpn % 512, w);
            && Linked(m', base, owner) && SameTables(m, m', base)
            && forall n :: 0 <= n < PAGES ==> Entry(m', base, n) == if n == vpn then w else Entry(m, base, n)
  {
    var r := Pt(m, base, vpn / 512);
    assert LinkOk(base, owner, PtWord(m, base, vpn / 512), PtOf(vpn / 512));
    var m' := Write(m, r, vpn % 512, w);
    ReadWrite(m, r, vpn % 512, w);
    TablesUnaffected(m, m', base, owner, r);
    forall n | 0 <= n < PAGES ensures Entry(m', base, n) == if n == vpn then w else Entry(m, base, n) {
      assert Pt(m', base, n / 512) == Pt(m, base, n / 512);
      if Pt(m, base, n / 512) == r && n % 512 == vpn % 512 {
        OwnersSeparate(m, base, owner, r);
        assert n / 512 == vpn / 512;
      }
    }
    LinkedAfter(m, m', base, owner);
  }

  // The contents of an unused row are invisible.
  lemma UnusedRowInvisible(m: seq<Word>, m': seq<Word>, base: nat, owner: seq<Owner>, r: int)
    requires Linked(m, base, owner) && |m'| == WORDS && 1 <= r < ROWS && owner[r] == Unused
    requires forall row, j :: row != r ==> Read(m', row, j) == Read(m, row, j)
    ensures Linked(m', base, owner) && SameTables(m, m', base)
    ensures forall n :: 0 <= n < PAGES ==> Entry(m', base, n) == Entry(m, base, n)
  {
    TablesUnaffected(m, m', base, owner, r);
    OwnersSeparate(m, base, owner, r);
    forall n | 0 <= n < PAGES ensures Entry(m', base, n) == Entry(m, base, n) {
      assert Pt(m', base, n / 512) == Pt(m, base, n / 512) != r;
    }
    LinkedAfter(m, m', base, owner);
  }

  // The invariant follows when the links are the same and the leaf entries stay clean.
  lemma LinkedAfter(m: seq<Word>, m': seq<Word>, base: nat, owner: seq<Owner>)
    requires Linked(m, base, owner) && |m'| == WORDS && SameTables(m, m', base)
    requires forall n :: 0 <= n < PAGES ==> ReservedClear(Entry(m', base, n))
    ensures Linked(m', base, owner)
  {
    forall r | 1 <= r < ROWS ensures OwnerHonest(m', base, owner[r], r) {
      assert OwnerHonest(m, base, owner[r], r);
    }
  }

  // m' is m with row r linked as the table of o; nothing else is seen to change.
  ghost predicate Grown(m: seq<Word>, m': seq<Word>, base: nat, o: Owner, r: nat) {
    && |m'| == WORDS
    && (forall i :: 0 <= i < 512 ==>
          Read(m', 0, i) == if o == PdptOf(i) then RowAddress(base, r) + 7 else Read(m, 0, i))
    && (forall k :: 0 <= k < 0x4_0000 ==>
          PdWord(m', base, k) == if o == PdOf(k) then RowAddress(base, r) + 7 else PdWord(m, base, k))
    && (forall k :: 0 <= k < 0x800_0000 ==>
          PtWord(m', base, k) == if o == PtOf(k) then RowAddress(base, r) + 7 else PtWord(m, base, k))
    && (forall n :: 0 <= n < PAGES ==> Entry(m', base, n) == Entry(m, base, n))
  }

  // The entry that o occupies exists in a linked parent and is absent.
  ghost predicate Vacant(m: seq<Word>, base: nat, o: Owner) {
    match o
    case Root => false
    case Unused => false
    case PdptOf(i) => 0 <= i < 512 && Pdpt(m, base, i) == -1
    case PdOf(k) => 0 <= k < 0x4_0000 && Pdpt(m, base, k / 512) != -1 && Pd(m, base, k) == -1
    case PtOf(k) => 0 <= k < 0x800_0000 && Pd(m, base, k / 512) != -1 && Pt(m, base, k) == -1
  }

  function ParentRow(m: seq<Word>, base: nat, o: Owner): int {
    match o
    case PdOf(k) => Pdpt(m, base, k / 512)
    case PtOf(k) => Pd(m, base, k / 512)
    case _ => 0
  }

  function ParentIndex(o: Owner): int {
    match o
    case PdptOf(i) => i
    case PdOf(k) => k % 512
    case PtOf(k) => k % 512
    case _ => 0
  }

  lemma ParentInRange(m: seq<Word>, base: nat, owner: seq<Owner>, o: Owner)
    requires Linked(m, base, owner) && Vacant(m, base, o)
    ensures 0 <= ParentRow(m, base, o) < ROWS && 0 <= ParentIndex(o) < 512
    ensures owner[ParentRow(m, base, o)]
         == if o.PdptOf? then Root else if o.PdOf? then PdptOf(o.k / 512) else PdOf(o.k / 512)
  {
    match o
    case PdOf(k) => assert LinkOk(base, owner, Read(m, 0, k / 512), PdptOf(k / 512));
    case PtOf(k) => assert LinkOk(base, owner, PdWord(m, base, k / 512), PdOf(k / 512));
    case _ =>
  }

  // Linking a cleared row into a vacant entry.
  lemma LinkTable(m: seq<Word>, base: nat, owner: seq<Owner>, o: Owner, r: nat)
    requires Linked(m, base, owner) && Vacant(m, base, o)
    requires 1 <= r < ROWS && owner[r] == Unused && forall j :: Read(m, r, j) == 0
    ensures 0 <= ParentRow(m, base, o) < ROWS && 0 <= ParentIndex(o) < 512 && RowAddress(base, r) <= PAGE_MASK
    ensures var m' := Write(m, ParentRow(m, base, o), ParentIndex(o), RowAddress(base, r) + 7);
            Grown(m, m', base, o, r) && Linked(m', base, owner[r := o])
  {
    ParentInRange(m, base, owner, o);
    var m' := Write(m, ParentRow(m, base, o), ParentIndex(o), RowAddress(base, r) + 7);
    ReadWrite(m, ParentRow(m, base, o), ParentIndex(o), RowAddress(base, r) + 7);
    ChildOfLink(base, r);
    match o {
      case PdptOf(i) => GrowPdpt(m, m', base, owner, i, r);
      case PdOf(k) => GrowPd(m, m', base, owner, k, r);
      case PtOf(k) => GrowPt(m, m', base, owner, k, r);
    }
    LinkedAfterGrowth(m, m', base, owner, o, r);
  }

  lemma RowsNamed(m: seq<Word>, base: nat, owner: seq<Owner>)
    requires Linked(m, base, owner)
    ensures forall i :: 0 <= i < 512 && Pdpt(m, base, i) != -1 ==>
              1 <= Pdpt(m, base, i) < ROWS && owner[Pdpt(m, base, i)] == PdptOf(i)
    ensures forall k :: 0 <= k < 0x4_0000 && Pd(m, base, k) != -1 ==>
              1 <= Pd(m, base, k) < ROWS && owner[Pd(m, base, k)] == PdOf(k)
    ensures forall k :: 0 <= k < 0x800_0000 && Pt(m, base, k) != -1 ==>
              1 <= Pt(m, base, k) < ROWS && owner[Pt(m, base, k)] == PtOf(k)
  {
    forall i | 0 <= i < 512 && Pdpt(m, base, i) != -1
      ensures 1 <= Pdpt(m, base, i) < ROWS && owner[Pdpt(m, base, i)] == PdptOf(i)
    {
      assert LinkOk(base, owner, Read(m, 0, i), PdptOf(i));
    }
    forall k | 0 <= k < 0x4_0000 && Pd(m, base, k) != -1
      ensures 1 <= Pd(m, base, k) < ROWS && owner[Pd(m, base, k)] == PdOf(k)
    {
      assert LinkOk(base, owner, PdWord(m, base, k), PdOf(k));
    }
    forall k | 0 <= k < 0x800_0000 && Pt(m, base, k) != -1
      ensures 1 <= Pt(m, base, k) < ROWS && owner[Pt(m, base, k)] == PtOf(k)
    {
      assert LinkOk(base, owner, PtWord(m, base, k), PtOf(k));
    }
  }

  lemma GrowPdpt(m: seq<Word>, m': seq<Word>, base: nat, owner: seq<Owner>, i: nat, r: nat)
    requires Linked(m, base, owner) && Vacant(m, base, PdptOf(i)) && |m'| == WORDS
    requires 1 <= r < ROWS && owner[r] == Unused && forall j :: Read(m, r, j) == 0
    requires Child(base, RowAddress(base, r) + 7) == r
    requires forall row, j :: Read(m', row, j)
                           == if row == 0 && j == i then RowAddress(base, r) + 7 else Read(m, row, j)
    ensures Grown(m, m', base, PdptOf(i), r)
  {
    RowsNamed(m, base, owner);
    forall k | 0 <= k < 0x4_0000 ensures PdWord(m', base, k) == PdWord(m, base, k) {
      if k / 512 == i {
        assert Pdpt(m', base, i) == r;
      } else {
        assert Pdpt(m', base, k / 512) == Pdpt(m, base, k / 512);
      }
    }
    forall k | 0 <= k < 0x800_0000 ensures PtWord(m', base, k) == PtWord(m, base, k) {
      assert Pd(m', base, k / 512) == Pd(m, base, k / 512);
    }
    forall n | 0 <= n < PAGES ensures Entry(m', base, n) == Entry(m, base, n) {
      assert Pt(m', base, n / 512) == Pt(m, base, n / 512);
    }
  }

  lemma GrowPd(m: seq<Word>, m': seq<Word>, base: nat, owner: seq<Owner>, k: nat, r: nat)
    requires Linked(m, base, owner) && Vacant(m, base, PdOf(k)) && |m'| == WORDS
    requires 1 <= r < ROWS && owner[r] == Unused && forall j :: Read(m, r, j) == 0
    requires Child(base, RowAddress(base, r) + 7) == r
    requires forall row, j :: Read(m', row, j)
                           == if row == Pdpt(m, base, k / 512) && j == k % 512 then RowAddress(base, r) + 7
                              else Read(m, row, j)
    ensures Grown(m, m', base, PdOf(k), r)
  {
    RowsNamed(m, base, owner);
    forall x | 0 <= x < 0x4_0000
      ensures PdWord(m', base, x) == if x == k then RowAddress(base, r) + 7 else PdWord(m, base, x)
    {
      assert Pdpt(m', base, x / 512) == Pdpt(m, base, x / 512);
      if Pdpt(m, base, x / 512) == Pdpt(m, base, k / 512) {
        assert x / 512 == k / 512;
      }
    }
    forall x | 0 <= x < 0x800_0000 ensures PtWord(m', base, x) == PtWord(m, base, x) {
      if x / 512 == k {
        assert Pd(m', base, k) == r;
      } else {
        assert Pd(m', base, x / 512) == Pd(m, base, x / 512);
      }
    }
    forall n | 0 <= n < PAGES ensures Entry(m', base, n) == Entry(m, base, n) {
      assert Pt(m', base, n / 512) == Pt(m, base, n / 512);
    }
  }

  lemma GrowPt(m: seq<Word>, m': seq<Word>, base: nat, owner: seq<Owner>, k: nat, r: nat)
    requires Linked(m, base, owner) && Vacant(m, base, PtOf(k)) && |m'| == WORDS
    requires 1 <= r < ROWS && owner[r] == Unused && forall j :: Read(m, r, j) == 0
    requires Child(base, RowAddress(base, r) + 7) == r
    requires forall row, j :: Read(m', row, j)
                           == if row == Pd(m, base, k / 512) && j == k % 512 then RowAddress(base, r) + 7
                              else Read(m, row, j)
    ensures Grown(m, m', base, PtOf(k), r)
  {
    RowsNamed(m, base, owner);
    forall x | 0 <= x < 0x4_0000 ensures PdWord(m', base, x) == PdWord(m, base, x) {
      assert Pdpt(m', base, x / 512) == Pdpt(m, base, x / 512);
    }
    forall x | 0 <= x < 0x800_0000
      ensures PtWord(m', base, x) == if x == k then RowAddress(base, r) + 7 else PtWord(m, base, x)
    {
      assert Pd(m', base, x / 512) == Pd(m, base, x / 512);
      if Pd(m, base, x / 512) == Pd(m, base, k / 512) {
        assert x / 512 == k / 512;
      }
    }
    forall n | 0 <= n < PAGES ensures Entry(m', base, n) == Entry(m, base, n) {
      if n / 512 == k {
        assert Pt(m', base, k) == r;
      } else {
        assert Pt(m', base, n / 512) == Pt(m, base, n / 512);
      }
    }
  }

  lemma LinkedAfterGrowth(m: seq<Word>, m': seq<Word>, base: nat, owner: seq<Owner>, o: Owner, r: nat)
    requires Linked(m, base, owner) && Vacant(m, base, o) && Grown(m, m', base, o, r)
    requires 1 <= r < ROWS && owner[r] == Unused && Child(base, RowAddress(base, r) + 7) == r
    ensures Linked(m', base, owner[r := o])
  {
    var owner' := owner[r := o];
    forall i | 0 <= i < 512 ensures LinkOk(base, owner', Read(m', 0, i), PdptOf(i)) {
      assert LinkOk(base, owner, Read(m, 0, i), PdptOf(i));
    }
    forall k | 0 <= k < 0x4_0000 ensures LinkOk(base, owner', PdWord(m', base, k), PdOf(k)) {
      assert LinkOk(base, owner, PdWord(m, base, k), PdOf(k));
    }
    forall k | 0 <= k < 0x800_0000 ensures LinkOk(base, owner', PtWord(m', base, k), PtOf(k)) {
      assert LinkOk(base, owner, PtWord(m, base, k), PtOf(k));
    }
    forall x | 1 <= x < ROWS ensures OwnerHonest(m', base, owner'[x], x) {
      assert OwnerHonest(m, base, owner[x], x);
    }
  }

  lemma VacancyStays(m: seq<Word>, m': seq<Word>, base: nat, o: Owner)
    requires SameTables(m, m', base) && Vacant(m, base, o)
    ensures Vacant(m', base, o) && ParentRow(m', base, o) == ParentRow(m, base, o)
  {
    match o
    case PdOf(k) => assert PdWord(m', base, k) == PdWord(m, base, k) && Read(m', 0, k / 512) == Read(m, 0, k / 512);
    case PtOf(k) =>
      assert PtWord(m', base, k) == PtWord(m, base, k) && PdWord(m', base, k / 512) == PdWord(m, base, k / 512);
    case _ =>
  }

  lemma GrownAcross(m0: seq<Word>, m1: seq<Word>, m2: seq<Word>, base: nat, o: Owner, r: nat)
    requires SameTables(m0, m1, base) && Grown(m1, m2, base, o, r)
    requires forall n :: 0 <= n < PAGES ==> Entry(m1, base, n) == Entry(m0, base, n)
    ensures Grown(m0, m2, base, o, r)
  {
    forall i | 0 <= i < 512
      ensures Read(m2, 0, i) == if o == PdptOf(i) then RowAddress(base, r) + 7 else Read(m0, 0, i)
    {
      assert Read(m1, 0, i) == Read(m0, 0, i);
    }
    forall k | 0 <= k < 0x4_0000
      ensures PdWord(m2, base, k) == if o == PdOf(k) then RowAddress(base, r) + 7 else PdWord(m0, base, k)
    {
      assert PdWord(m1, base, k) == PdWord(m0, base, k);
    }
    forall k | 0 <= k < 0x800_0000
      ensures PtWord(m2, base, k) == if o == PtOf(k) then RowAddress(base, r) + 7 else PtWord(m0, base, k)
    {
      assert PtWord(m1, base, k) == PtWord(m0, base, k);
    }
  }

  ghost predicate InRange(o: Owner) {
    match o
    case PdptOf(i) => 0 <= i < 512
    case PdOf(k) => 0 <= k < 0x4_0000
    case PtOf(k) => 0 <= k < 0x800_0000
    case _ => false
  }

  function TableOf(m: seq<Word>, base: nat, o: Owner): int {
    match o
    case PdptOf(i) => Pdpt(m, base, i)
    case PdOf(k) => Pd(m, base, k)
    case PtOf(k) => Pt(m, base, k)
    case _ => 0
  }

  lemma TableInRange(m: seq<Word>, base: nat, owner: seq<Owner>, o: Owner)
    requires Linked(m, base, owner) && InRange(o)
    ensures var w := Read(m, ParentRow(m, base, o), ParentIndex(o));
            && TableOf(m, base, o) == Child(base, w)
            && (Present(w) <==> TableOf(m, base, o) != -1)
            && (Present(w) ==> 1 <= TableOf(m, base, o) < ROWS && owner[TableOf(m, base, o)] == o)
            && LinkOk(base, owner, w, o)
  {
    assert LinkOk(base, owner, Read(m, ParentRow(m, base, o), ParentIndex(o)), o) by {
      match o
      case PdptOf(i) => assert LinkOk(base, owner, Read(m, 0, i), PdptOf(i));
      case PdOf(k) => assert LinkOk(base, owner, PdWord(m, base, k), PdOf(k));
      case PtOf(k) => assert LinkOk(base, owner, PtWord(m, base, k), PtOf(k));
    }
  }

  // -------------------------------------------------------------------------
  // The free list of table pages, linked through the first word of each page

  function NextLink(base: nat, free: seq<nat>, i: nat): nat {
    if i < |free| then RowAddress(base, free[i]) else 0
  }

  // The list holds every unused row exactly once.
  ghost predicate FreeList(m: seq<Word>, base: nat, owner: seq<Owner>, head: Word, free: seq<nat>) {
    && |owner| == ROWS
    && head == NextLink(base, free, 0)
    && (forall i :: 0 <= i < |free| ==> 1 <= free[i] < ROWS && owner[free[i]] == Unused)
    && (forall i {:trigger Read(m, free[i], 0)} :: 0 <= i < |free| ==>
          Read(m, free[i], 0) == NextLink(base, free, i + 1))
    && (forall i, j :: 0 <= i < j < |free| ==> free[i] != free[j])
    && (forall r {:trigger r in free} :: 1 <= r < ROWS && owner[r] == Unused ==> r in free)
  }

  // Taking the first page and giving it an owner leaves a proper list of the others.
  lemma TakeFirst(m: seq<Word>, m': seq<Word>, base: nat, owner: seq<Owner>, head: Word, free: seq<nat>, o: Owner)
    requires FreeList(m, base, owner, head, free) && free != [] && o != Unused
    requires forall i :: 1 <= i < |free| ==> Read(m', free[i], 0) == Read(m, free[i], 0)
    ensures NextLink(base, free[1..], 0) == Read(m, free[0], 0)
    ensures FreeList(m', base, owner[free[0] := o], Read(m, free[0], 0), free[1..])
  {
    forall r | 1 <= r < ROWS && owner[free[0] := o][r] == Unused ensures r in free[1..] {
      assert r in free;
    }
  }

  // Writing to an owned row leaves the list alone.
  lemma FreeListUntouched(m: seq<Word>, m': seq<Word>, base: nat, owner: seq<Owner>, head: Word, free: seq<nat>, r: int)
    requires FreeList(m, base, owner, head, free) && 0 <= r < ROWS && owner[r] != Unused
    requires forall row, j :: row != r ==> Read(m', row, j) == Read(m, row, j)
    ensures FreeList(m', base, owner, head, free)
  {
    forall i | 0 <= i < |free| ensures Read(m', free[i], 0) == NextLink(base, free, i + 1) {
      assert Read(m, free[i], 0) == NextLink(base, free, i + 1);
    }
  }

  // -------------------------------------------------------------------------
  // How many table pages a request still needs

  ghost function MissingPdpts(m: seq<Word>, base: nat, lo: nat, hi: nat): set<int> {
    set i: int | lo / 512 / 512 / 512 <= i <= (hi - 1) / 512 / 512 / 512 && Pdpt(m, base, i) == -1
  }

  ghost function MissingPds(m: seq<Word>, base: nat, lo: nat, hi: nat): set<int> {
    set k: int | lo / 512 / 512 <= k <= (hi - 1) / 512 / 512 && Pd(m, base, k) == -1
  }

  ghost function MissingPts(m: seq<Word>, base: nat, lo: nat, hi: nat): set<int> {
    set k: int | lo / 512 <= k <= (hi - 1) / 512 && Pt(m, base, k) == -1
  }

  // Exactly the tables that are absent on the way to some page in [lo, hi).
  ghost function NeededTables(m: seq<Word>, base: nat, lo: nat, hi: nat): nat {
    |MissingPdpts(m, base, lo, hi)| + |MissingPds(m, base, lo, hi)| + |MissingPts(m, base, lo, hi)|
  }

  // o serves some page in [lo, hi).
  ghost predicate Serves(o: Owner, lo: nat, hi: nat) {
    match o
    case PdptOf(i) => lo / 512 / 512 / 512 <= i <= (hi - 1) / 512 / 512 / 512
    case PdOf(k) => lo / 512 / 512 <= k <= (hi - 1) / 512 / 512
    case PtOf(k) => lo / 512 <= k <= (hi - 1) / 512
    case _ => false
  }

  lemma GrowthUsesOne(m: seq<Word>, m': seq<Word>, base: nat, o: Owner, r: nat, lo: nat, hi: nat)
    requires Grown(m, m', base, o, r) && Vacant(m, base, o) && Serves(o, lo, hi) && lo < hi <= PAGES
    requires Child(base, RowAddress(base, r) + 7) == r
    ensures NeededTables(m', base, lo, hi) == NeededTables(m, base, lo, hi) - 1
  {
    GrowthMissing(m, m', base, o, r, lo, hi);
    CountWithout(MissingPdpts(m, base, lo, hi), if o.PdptOf? then [o.i] else []);
    CountWithout(MissingPds(m, base, lo, hi), if o.PdOf? then [o.k] else []);
    CountWithout(MissingPts(m, base, lo, hi), if o.PtOf? then [o.k] else []);
  }

  function Without(s: set<int>, x: seq<int>): set<int> {
    if x == [] then s else s - {x[0]}
  }

  lemma CountWithout(s: set<int>, x: seq<int>)
    requires |x| <= 1 && (x == [] || x[0] in s)
    ensures |Without(s, x)| == |s| - |x|
  {
  }

  lemma GrowthMissing(m: seq<Word>, m': seq<Word>, base: nat, o: Owner, r: nat, lo: nat, hi: nat)
    requires Grown(m, m', base, o, r) && Vacant(m, base, o) && lo < hi <= PAGES
    requires Child(base, RowAddress(base, r) + 7) == r
    ensures MissingPdpts(m', base, lo, hi) == Without(MissingPdpts(m, base, lo, hi), if o.PdptOf? then [o.i] else [])
    ensures MissingPds(m', base, lo, hi) == Without(MissingPds(m, base, lo, hi), if o.PdOf? then [o.k] else [])
    ensures MissingPts(m', base, lo, hi) == Without(MissingPts(m, base, lo, hi), if o.PtOf? then [o.k] else [])
  {
    PrefixBounds(hi - 1);
    forall i: int | 0 <= i < 512 ensures Pdpt(m', base, i) == if o == PdptOf(i) then r else Pdpt(m, base, i) {}
    forall k: int | 0 <= k < 0x4_0000 ensures Pd(m', base, k) == if o == PdOf(k) then r else Pd(m, base, k) {}
    forall k: int | 0 <= k < 0x800_0000 ensures Pt(m', base, k) == if o == PtOf(k) then r else Pt(m, base, k) {}
  }

  lemma PrefixOrder(lo: nat, vpn: nat, hi: nat)
    requires lo <= vpn < hi <= PAGES
    ensures InRange(PdptOf(vpn / 512 / 512 / 512)) && Serves(PdptOf(vpn / 512 / 512 / 512), lo, hi)
    ensures InRange(PdOf(vpn / 512 / 512)) && Serves(PdOf(vpn / 512 / 512), lo, hi)
    ensures InRange(PtOf(vpn / 512)) && Serves(PtOf(vpn / 512), lo, hi)
  {
    PrefixBounds(vpn);
  }

  // The indices MapPages computes are those of the tables on the way to the page.
  lemma PageIndices(v: nat, lo: nat, hi: nat)
    requires lo <= v / 4096 < hi <= PAGES
    ensures var n := v / 4096;
            && v / 0x80_0000_0000 % 512 == n / 512 / 512 / 512
            && v / 0x4000_0000 % 512 == n / 512 / 512 % 512
            && v / 0x20_0000 % 512 == n / 512 % 512
            && InRange(PdptOf(n / 512 / 512 / 512)) && Serves(PdptOf(n / 512 / 512 / 512), lo, hi)
            && InRange(PdOf(n / 512 / 512)) && Serves(PdOf(n / 512 / 512), lo, hi)
            && InRange(PtOf(n / 512)) && Serves(PtOf(n / 512), lo, hi)
  {
    SmallIndices(v);
    PrefixOrder(lo, v / 4096, hi);
  }

  lemma SmallIndices(v: nat)
    requires v / 4096 < PAGES
    ensures var n := v / 4096;
            && v / 0x80_0000_0000 % 512 == n / 512 / 512 / 512
            && v / 0x4000_0000 % 512 == n / 512 / 512 % 512
            && v / 0x20_0000 % 512 == n / 512 % 512
  {
    Indices(v);
    assert v / 4096 % PAGES == v / 4096;
  }

  lemma PrefixBounds(vpn: nat)
    requires vpn < PAGES
    ensures vpn / 512 < 0x800_0000 && vpn / 512 / 512 < 0x4_0000 && vpn / 512 / 512 / 512 < 512
  {
  }

  lemma VacantIsNeeded(m: seq<Word>, base: nat, o: Owner, lo: nat, hi: nat)
    requires Vacant(m, base, o) && Serves(o, lo, hi)
    ensures NeededTables(m, base, lo, hi) > 0
  {
    match o
    case PdptOf(i) => assert i in MissingPdpts(m, base, lo, hi);
    case PdOf(k) => assert k in MissingPds(m, base, lo, hi);
    case PtOf(k) => assert k in MissingPts(m, base, lo, hi);
    case _ =>
  }

  // One page needs at most one table of each level.
  lemma OnePageNeeds(m: seq<Word>, base: nat, vpn: nat)
    ensures NeededTables(m, base, vpn, vpn + 1) <= 3
  {
    AtMostOne(MissingPdpts(m, base, vpn, vpn + 1), vpn / 512 / 512 / 512);
    AtMostOne(MissingPds(m, base, vpn, vpn + 1), vpn / 512 / 512);
    AtMostOne(MissingPts(m, base, vpn, vpn + 1), vpn / 512);
  }

  lemma AtMostOne(s: set<int>, x: int)
    requires s <= {x}
    ensures |s| <= 1
  {
    assert {x} == s + ({x} - s);
  }

  lemma SameTablesSameNeed(m: seq<Word>, m': seq<Word>, base: nat, lo: nat, hi: nat)
    requires SameTables(m, m', base) && lo < hi <= PAGES
    ensures NeededTables(m', base, lo, hi) == NeededTables(m, base, lo, hi)
  {
    assert MissingPdpts(m', base, lo, hi) == MissingPdpts(m, base, lo, hi);
    assert MissingPds(m', base, lo, hi) == MissingPds(m, base, lo, hi);
    assert MissingPts(m', base, lo, hi) == MissingPts(m, base, lo, hi);
  }

  // -------------------------------------------------------------------------
  // The tables seen as one array of leaf entries

  ghost predicate Shows(m: seq<Word>, base: nat, entries: seq<Word>) {
    && |entries| == PAGES
    && forall n {:trigger Entry(m, base, n)} :: 0 <= n < PAGES ==> Entry(m, base, n) == entries[n]
  }

  // Everything the state of the page tables must satisfy.
  ghost predicate Consistent(m: seq<Word>, base: nat, owner: seq<Owner>, head: Word, free: seq<nat>,
                             entries: seq<Word>)
  {
    Linked(m, base, owner) && FreeList(m, base, owner, head, free) && Shows(m, base, entries)
  }

  ghost function Translate(entries: seq<Word>, v: Word): Word
    requires |entries| == PAGES
  {
    var w := entries[v / 4096 % PAGES];
    if Present(w) then Frame(w) + v % 4096 else INVALID_ADDRESS
  }

  // The walk through memory reads the flat array.
  lemma WalkIsLookup(m: seq<Word>, base: nat, owner: seq<Owner>, entries: seq<Word>, v: Word)
    requires Linked(m, base, owner) && Shows(m, base, entries)
    ensures GetPhysicalAddress(m, base, v) == Translate(entries, v)
  {
    TranslationIsByEntry(m, base, owner, v);
  }

  lemma OwnedNotFree(m: seq<Word>, base: nat, owner: seq<Owner>, head: Word, free: seq<nat>, r: nat)
    requires FreeList(m, base, owner, head, free) && r < ROWS && owner[r] != Unused
    ensures r !in free
  {
  }

  // The linked tables form a tree beside the free list: a page is reached through one entry only, it is neither
  // free nor the root, and no entry above the leaves is a large page or sets a reserved bit.
  lemma TablesFormTree(m: seq<Word>, base: nat, owner: seq<Owner>, head: Word, free: seq<nat>, entries: seq<Word>,
                       o: Owner, o': Owner)
    requires Consistent(m, base, owner, head, free, entries) && InRange(o) && InRange(o')
    requires TableOf(m, base, o) != -1
    ensures TableOf(m, base, o) == TableOf(m, base, o') ==> o == o'
    ensures TableOf(m, base, o) !in free && 1 <= TableOf(m, base, o) < ROWS
    ensures var w := Read(m, ParentRow(m, base, o), ParentIndex(o)); !Large(w) && ReservedClear(w)
  {
    TableInRange(m, base, owner, o);
    TableInRange(m, base, owner, o');
    OwnedNotFree(m, base, owner, head, free, TableOf(m, base, o));
    LinkIsPlain(base, owner, Read(m, ParentRow(m, base, o), ParentIndex(o)), o);
  }

  lemma ShowsAfterGrowth(m: seq<Word>, m': seq<Word>, base: nat, o: Owner, r: nat, entries: seq<Word>)
    requires Grown(m, m', base, o, r) && Shows(m, base, entries)
    ensures Shows(m', base, entries)
  {
  }
}
