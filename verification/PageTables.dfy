/**
 The live page tables: one flat buffer of table words, changed in place. Pages come from an intrusive free
 list; each operation is proved against the value-level walk of module Paging.
 */
module PageTableStore {
  import opened Pages
  import opened Paging

  datatype PrivilegeLevel = Kernel | User | Keep

  // The leaf word one step of MapPages stores over `before`; a freed page keeps only its frame bits.
  function LeafWord(before: Word, frame: nat, release: bool, writable: bool, level: PrivilegeLevel, pageFlags: nat)
    : Word
    requires Aligned(frame) && frame <= PAGE_MASK
  {
    if release then frame
    else PageEntry(frame, writable, UserBit(before, level), pageFlags)
  }

  // Keep leaves the user bit of a present entry as it was.
  predicate UserBit(before: Word, level: PrivilegeLevel) {
    level == User || (Present(before) && level == Keep && UserMode(before))
  }

  // The leaf entries after MapPages has handled `count` pages from page `first`, with frames from `frame` up.
  ghost function Mapped(entries: seq<Word>, first: nat, frame: nat, count: nat, release: bool,
                        writable: bool, level: PrivilegeLevel, pageFlags: nat): (r: seq<Word>)
    requires Aligned(frame) && frame + 4096 * count <= PAGE_MASK
    ensures |r| == |entries|
  {
    seq(|entries|, n requires 0 <= n < |entries| =>
      if first <= n < first + count
      then LeafWord(entries[n], frame + 4096 * (n - first), release, writable, level, pageFlags)
      else entries[n])
  }

  lemma MappedNothing(entries: seq<Word>, first: nat, frame: nat, release: bool,
                      writable: bool, level: PrivilegeLevel, pageFlags: nat)
    requires Aligned(frame) && frame <= PAGE_MASK
    ensures Mapped(entries, first, frame, 0, release, writable, level, pageFlags) == entries
  {
  }

  // A stored leaf entry translates the start of its page to its frame.
  lemma LeafTranslates(entries: seq<Word>, vpn: nat, before: Word, frame: nat, writable: bool, level: PrivilegeLevel,
                       pageFlags: nat)
    requires |entries| == PAGES && vpn < PAGES && Aligned(frame) && frame <= PAGE_MASK
    requires entries[vpn] == LeafWord(before, frame, false, writable, level, pageFlags)
    ensures Translate(entries, 4096 * vpn) == frame
  {
    PageEntryFields(frame, writable, UserBit(before, level), pageFlags);
    assert 4096 * vpn / 4096 == vpn;
  }

  // Storing one more leaf word, entry n, extends the mapped range, and the page now translates to its frame.
  lemma StepEffect(entries: seq<Word>, now: seq<Word>, next: seq<Word>, first: nat, start: nat, k: nat, n: nat,
                   frame: nat, release: bool, writable: bool, level: PrivilegeLevel, pageFlags: nat)
    requires |entries| == PAGES && Aligned(start) && start + 4096 * (k + 1) <= PAGE_MASK
    requires n == first + k < PAGES && frame == start + 4096 * k && Aligned(frame)
    requires now == Mapped(entries, first, start, k, release, writable, level, pageFlags)
    requires next == now[n := LeafWord(now[n], frame, release, writable, level, pageFlags)]
    ensures next == Mapped(entries, first, start, k + 1, release, writable, level, pageFlags)
    ensures !release ==> Translate(next, 4096 * n) == frame
  {
    if !release {
      LeafTranslates(next, n, now[n], frame, writable, level, pageFlags);
    }
  }

  lemma StaysAligned(start: nat, k: nat)
    requires Aligned(start)
    ensures Aligned(start + 4096 * k)
  {
  }

  class PageTables {
    const base: nat
    const mem: array<Word>
    var freeHead: Word
    ghost var free: seq<nat>
    ghost var owner: seq<Owner>
    ghost var entries: seq<Word>

    ghost predicate Valid()
      reads this, mem
    {
      && mem.Length == WORDS
      && Consistent(mem[..], base, owner, freeHead, free, entries)
    }

    function GetPhysicalAddress(virtualAddress: Word): (physicalAddress: Word)
      requires Valid()
      reads this, mem
      ensures physicalAddress == Translate(entries, virtualAddress)
    {
      WalkIsLookup(mem[..], base, owner, entries, virtualAddress);
      Paging.GetPhysicalAddress(mem[..], base, virtualAddress)
    }

    // Clears the PML4 and links the whole static pool, last page first.
    constructor (base: nat)
      requires Placement(base)
      ensures Valid() && fresh(mem) && this.base == base
      ensures |free| == POOL_PAGES
      ensures forall n :: 0 <= n < PAGES ==> entries[n] == 0
    {
      this.base := base;
      mem := new Word[WORDS](_ => 0);
      freeHead, free, entries := 0, [], seq(PAGES, _ => 0);
      owner := seq(ROWS, i => if i == 0 then Root else Unused);
      new;
      PreparePML4FreeList();
    }

    method PreparePML4FreeList()
      requires Placement(base) && mem.Length == WORDS && freeHead == 0
      requires forall x :: 0 <= x < WORDS ==> mem[x] == 0
      requires |owner| == ROWS && owner[0] == Root && forall r :: 1 <= r < ROWS ==> owner[r] == Unused
      requires |entries| == PAGES && forall n :: 0 <= n < PAGES ==> entries[n] == 0
      modifies this`freeHead, this`free, mem
      ensures Valid() && |free| == POOL_PAGES
    {
      var i := POOL_PAGES;
      while i > 0
        invariant 0 <= i <= POOL_PAGES
        invariant freeHead == if i < POOL_PAGES then RowAddress(base, i + 1) else 0
        invariant forall x :: 0 <= x < 512 ==> mem[x] == 0
        invariant forall r :: i < r <= POOL_PAGES ==>
                    mem[r * 512] == if r < POOL_PAGES then RowAddress(base, r + 1) else 0
      {
        mem[i * 512] := freeHead;
        freeHead := RowAddress(base, i);
        i := i - 1;
      }
      free := seq(POOL_PAGES, x => x + 1);
      NothingLinked(mem[..], base, owner);
      AllListed(mem[..], base, owner, freeHead, free);
    }

    lemma AllListed(m: seq<Word>, base: nat, owner: seq<Owner>, head: Word, free: seq<nat>)
      requires |m| == WORDS && |owner| == ROWS && forall r :: 1 <= r < ROWS ==> owner[r] == Unused
      requires |free| == POOL_PAGES && forall x :: 0 <= x < |free| ==> free[x] == 1 + x
      requires head == RowAddress(base, 1)
      requires forall r :: 1 <= r < ROWS ==> m[r * 512] == if r < POOL_PAGES then RowAddress(base, r + 1) else 0
      ensures FreeList(m, base, owner, head, free)
    {
      forall r | 1 <= r < ROWS ensures r in free {
        assert free[r - 1] == r;
      }
    }

    lemma NothingLinked(m: seq<Word>, base: nat, owner: seq<Owner>)
      requires Placement(base) && |m| == WORDS && forall x :: 0 <= x < 512 ==> m[x] == 0
      requires |owner| == ROWS && owner[0] == Root && forall r :: 1 <= r < ROWS ==> owner[r] == Unused
      ensures Linked(m, base, owner)
      ensures forall n :: 0 <= n < PAGES ==> Entry(m, base, n) == 0
    {
      forall i | 0 <= i < 512 ensures Read(m, 0, i) == 0 {}
      forall k | 0 <= k < 0x4_0000 ensures PdWord(m, base, k) == 0 {
        assert Pdpt(m, base, k / 512) == -1;
      }
      forall k | 0 <= k < 0x800_0000 ensures PtWord(m, base, k) == 0 {
        assert Pd(m, base, k / 512) == -1;
      }
      forall n | 0 <= n < PAGES ensures Entry(m, base, n) == 0 {
        assert Pt(m, base, n / 512) == -1;
      }
    }

    // Pops a page and clears it.
    method GetPML4FreePage() returns (page: nat)
      requires Placement(base) && mem.Length == WORDS
      requires FreeList(mem[..], base, owner, freeHead, free) && free != []
      modifies this`freeHead, mem
      ensures page == RowAddress(base, free[0]) && freeHead == old(Read(mem[..], free[0], 0))
      ensures forall row, j :: Read(mem[..], row, j) == if row == free[0] then 0 else old(Read(mem[..], row, j))
    {
      page := freeHead;
      var row := (page - base) / 4096;
      assert row == free[0];
      freeHead := mem[row * 512];
      var i := 0;
      while i < 512
        invariant 0 <= i <= 512 && freeHead == old(mem[row * 512])
        invariant forall x :: 0 <= x < WORDS ==> mem[x] == if row * 512 <= x < row * 512 + i then 0 else old(mem[x])
      {
        mem[row * 512 + i] := 0;
        i := i + 1;
      }
      forall r, j ensures Read(mem[..], r, j) == if r == free[0] then 0 else old(Read(mem[..], r, j)) {
        if 0 <= r < ROWS && 0 <= j < 512 {
          assert row * 512 <= r * 512 + j < row * 512 + 512 <==> r == row;
        }
      }
    }

    // A cleared page and the entry that links it.
    method TakePage() returns (table: nat, entry: Word)
      requires Placement(base) && mem.Length == WORDS
      requires FreeList(mem[..], base, owner, freeHead, free) && free != []
      modifies this`freeHead, mem
      ensures table == free[0] && entry == RowAddress(base, table) + 7 && Child(base, entry) == table
      ensures freeHead == old(Read(mem[..], free[0], 0))
      ensures forall row, j :: Read(mem[..], row, j) == if row == free[0] then 0 else old(Read(mem[..], row, j))
    {
      var page := GetPML4FreePage();
      table := (page - base) / 4096;
      assert table == free[0];
      LinkWord(base, table);
      entry := TableEntry(page);
      // "Reserved bits set"; in the PML4 page bit 7 counts as reserved too
      assert ReservedClear(entry) && !Large(entry);
    }

    // Links a cleared page into a vacant entry.
    method InstallTable(parent: nat, index: nat, ghost o: Owner) returns (table: nat)
      requires Valid() && Vacant(mem[..], base, o) && free != []
      requires parent == ParentRow(mem[..], base, o) && index == ParentIndex(o)
      modifies this`freeHead, this`free, this`owner, mem
      ensures Valid() && 1 <= table < ROWS && owner[table] == o
      ensures free == old(free)[1..]
      ensures entries == old(entries)
      ensures Child(base, RowAddress(base, table) + 7) == table
      ensures Grown(old(mem[..]), mem[..], base, o, table)
    {
      ghost var m0 := mem[..];
      ParentInRange(m0, base, owner, o);
      var entry;
      table, entry := TakePage();
      ghost var m1 := mem[..];
      ghost var m2 := Write(m1, parent, index, entry);
      InstallEffect(m0, m1, m2, base, owner, old(freeHead), free, entries, o);
      mem[parent * 512 + index] := entry;
      assert mem[..] == m2;
      free, owner := free[1..], owner[table := o];
    }

    // The entry that links a table page.
    lemma LinkWord(base: nat, row: nat)
      requires Placement(base) && row < ROWS
      ensures Aligned(RowAddress(base, row)) && RowAddress(base, row) <= PAGE_MASK
      ensures var w := TableEntry(RowAddress(base, row));
              w == RowAddress(base, row) + 7 && ReservedClear(w) && !Large(w) && Child(base, w) == row
    {
      ChildOfLink(base, row);
      TableEntryFields(RowAddress(base, row));
    }

    // Popping and clearing the first free page, then linking it for o.
    lemma InstallEffect(m0: seq<Word>, m1: seq<Word>, m2: seq<Word>, base: nat, owner: seq<Owner>, head: Word,
                        free: seq<nat>, entries: seq<Word>, o: Owner)
      requires Consistent(m0, base, owner, head, free, entries) && free != []
      requires Vacant(m0, base, o) && |m1| == WORDS
      requires forall row, j :: Read(m1, row, j) == if row == free[0] then 0 else Read(m0, row, j)
      requires 0 <= ParentRow(m0, base, o) < ROWS && 0 <= ParentIndex(o) < 512
      requires m2 == Write(m1, ParentRow(m0, base, o), ParentIndex(o), RowAddress(base, free[0]) + 7)
      ensures Consistent(m2, base, owner[free[0] := o], Read(m0, free[0], 0), free[1..], entries)
      ensures Grown(m0, m2, base, o, free[0])
    {
      ParentInRange(m0, base, owner, o);
      LinkAcross(m0, m1, m2, base, owner, o, free[0]);
      ReadWrite(m1, ParentRow(m0, base, o), ParentIndex(o), RowAddress(base, free[0]) + 7);
      TakeFirst(m0, m2, base, owner, head, free, o);
      ShowsAfterGrowth(m0, m2, base, o, free[0], entries);
    }

    // The links after an unused page r was cleared and linked.
    lemma LinkAcross(m0: seq<Word>, m1: seq<Word>, m2: seq<Word>, base: nat, owner: seq<Owner>, o: Owner, r: nat)
      requires Linked(m0, base, owner) && Vacant(m0, base, o) && |m1| == WORDS
      requires 1 <= r < ROWS && owner[r] == Unused
      requires forall row, j :: Read(m1, row, j) == if row == r then 0 else Read(m0, row, j)
      requires 0 <= ParentRow(m0, base, o) < ROWS && 0 <= ParentIndex(o) < 512
      requires m2 == Write(m1, ParentRow(m0, base, o), ParentIndex(o), RowAddress(base, r) + 7)
      ensures Linked(m2, base, owner[r := o]) && Grown(m0, m2, base, o, r)
    {
      UnusedRowInvisible(m0, m1, base, owner, r);
      VacancyStays(m0, m1, base, o);
      LinkTable(m1, base, owner, o, r);
      GrownAcross(m0, m1, m2, base, o, r);
    }

    // Follows one entry, installing a table first when it is absent. o names the table to reach.
    method EnsureTable(parent: nat, index: nat, ghost o: Owner, ghost lo: nat, ghost hi: nat) returns (table: nat)
      requires Valid() && InRange(o) && Serves(o, lo, hi) && lo < hi <= PAGES
      requires parent < ROWS && index < 512
      requires parent == ParentRow(mem[..], base, o) && index == ParentIndex(o)
      requires |free| >= NeededTables(mem[..], base, lo, hi)
      modifies this`freeHead, this`free, this`owner, mem
      ensures Valid() && table == TableOf(mem[..], base, o) && 1 <= table < ROWS
      ensures |free| >= NeededTables(mem[..], base, lo, hi) && entries == old(entries)
      ensures if TableOf(old(mem[..]), base, o) == -1 then Grown(old(mem[..]), mem[..], base, o, table)
              else mem[..] == old(mem[..])
    {
      ghost var m0 := mem[..];
      TableInRange(m0, base, owner, o);
      var entry := mem[parent * 512 + index];
      assert entry == Read(m0, parent, index);
      if Present(entry) {
        table := (Frame(entry) - base) / 4096;
      } else {
        assert Vacant(m0, base, o);
        VacantIsNeeded(m0, base, o, lo, hi);
        table := InstallTable(parent, index, o);
        assert Grown(m0, mem[..], base, o, table);
        assert Child(base, RowAddress(base, table) + 7) == table;
        GrowthUsesOne(m0, mem[..], base, o, table, lo, hi);
      }
    }

    // One iteration of the loop of MapPages: reach the page table of the address, then store its leaf entry.
    method MapPage(virtualAddress: nat, physicalAddress: nat, release: bool, writable: bool, level: PrivilegeLevel,
                   pageFlags: nat, ghost vpn: nat, ghost lo: nat, ghost hi: nat)
      requires Valid() && virtualAddress == 4096 * vpn && lo <= vpn < hi <= PAGES
      requires Aligned(physicalAddress) && physicalAddress <= PAGE_MASK
      requires |free| >= NeededTables(mem[..], base, lo, hi)
      modifies this, mem
      ensures Valid() && |free| >= NeededTables(mem[..], base, lo, hi)
      ensures entries == old(entries)[
                vpn := LeafWord(old(entries[vpn]), physicalAddress, release, writable, level, pageFlags)]
    {
      var ptIndex := virtualAddress / 4096 % 512;
      var pt := ReachTable(virtualAddress, vpn, lo, hi);
      StoreLeaf(pt, ptIndex, vpn, physicalAddress, release, writable, level, pageFlags, lo, hi);
    }

    // The three levels above the leaf entry, each installed when absent.
    method ReachTable(virtualAddress: nat, ghost vpn: nat, ghost lo: nat, ghost hi: nat) returns (pt: nat)
      requires Valid() && virtualAddress == 4096 * vpn && lo <= vpn < hi <= PAGES
      requires |free| >= NeededTables(mem[..], base, lo, hi)
      modifies this`freeHead, this`free, this`owner, mem
      ensures Valid() && |free| >= NeededTables(mem[..], base, lo, hi)
      ensures pt == Pt(mem[..], base, vpn / 512) && entries == old(entries)
    {
      var pml4Index := virtualAddress / 0x80_0000_0000 % 512;
      var pdptIndex := virtualAddress / 0x4000_0000 % 512;
      var pdIndex := virtualAddress / 0x20_0000 % 512;
      PageIndices(virtualAddress, lo, hi);
      var pdpt := EnsureTable(0, pml4Index, PdptOf(vpn / 512 / 512 / 512), lo, hi);
      var pd := EnsureTable(pdpt, pdptIndex, PdOf(vpn / 512 / 512), lo, hi);
      pt := EnsureTable(pd, pdIndex, PtOf(vpn / 512), lo, hi);
    }

    method StoreLeaf(pt: nat, ptIndex: nat, ghost vpn: nat, physicalAddress: nat, release: bool, writable: bool,
                     level: PrivilegeLevel, pageFlags: nat, ghost lo: nat, ghost hi: nat)
      requires Valid() && vpn < PAGES && lo < hi <= PAGES && pt == Pt(mem[..], base, vpn / 512) && ptIndex == vpn % 512
      requires Aligned(physicalAddress) && physicalAddress <= PAGE_MASK
      modifies this`entries, mem
      ensures Valid() && NeededTables(mem[..], base, lo, hi) == NeededTables(old(mem[..]), base, lo, hi)
      ensures entries == old(entries)[
                vpn := LeafWord(old(entries[vpn]), physicalAddress, release, writable, level, pageFlags)]
    {
      ghost var m := mem[..];
      LeafInRange(m, base, owner, vpn);
      var before := mem[pt * 512 + ptIndex];
      assert before == Entry(m, base, vpn);
      var entry := NewEntry(before, physicalAddress, release, writable, level, pageFlags);
      LeafEffect(m, base, owner, freeHead, free, entries, vpn, entry);
      SameTablesSameNeed(m, Write(m, pt, ptIndex, entry), base, lo, hi);
      mem[pt * 512 + ptIndex] := entry;
      assert mem[..] == Write(m, pt, ptIndex, entry);
      entries := entries[vpn := entry];
    }

    // The word for one leaf entry, with its check.
    method NewEntry(before: Word, physicalAddress: nat, release: bool, writable: bool, level: PrivilegeLevel,
                    pageFlags: nat)
      returns (entry: Word)
      requires Aligned(physicalAddress) && physicalAddress <= PAGE_MASK
      ensures entry == LeafWord(before, physicalAddress, release, writable, level, pageFlags) && ReservedClear(entry)
    {
      entry := physicalAddress;
      if !release {
        var wasPresent := Present(before);
        var user := level == User || (wasPresent && level == Keep && UserMode(before));
        entry := PageEntry(physicalAddress, writable, user, pageFlags);
        PageEntryFields(physicalAddress, writable, user, pageFlags);
        assert ReservedClear(entry); // "Reserved bits set"
      }
    }

    lemma LeafInRange(m: seq<Word>, base: nat, owner: seq<Owner>, vpn: nat)
      requires Linked(m, base, owner) && vpn < PAGES && Pt(m, base, vpn / 512) >= 0
      ensures 1 <= Pt(m, base, vpn / 512) < ROWS && owner[Pt(m, base, vpn / 512)] == PtOf(vpn / 512)
    {
      TableInRange(m, base, owner, PtOf(vpn / 512));
    }

    // Storing one leaf entry keeps everything consistent and changes the flat array at that entry.
    lemma LeafEffect(m: seq<Word>, base: nat, owner: seq<Owner>, head: Word, free: seq<nat>, entries: seq<Word>,
                     vpn: nat, entry: Word)
      requires Consistent(m, base, owner, head, free, entries) && vpn < PAGES && ReservedClear(entry)
      requires 1 <= Pt(m, base, vpn / 512) < ROWS && owner[Pt(m, base, vpn / 512)] != Unused
      ensures var m' := Write(m, Pt(m, base, vpn / 512), vpn % 512, entry);
              Consistent(m', base, owner, head, free, entries[vpn := entry]) && SameTables(m, m', base)
    {
      var pt := Pt(m, base, vpn / 512);
      var m' := Write(m, pt, vpn % 512, entry);
      SetLeaf(m, base, owner, vpn, entry);
      ReadWrite(m, pt, vpn % 512, entry);
      FreeListUntouched(m, m', base, owner, head, free, pt);
    }

    // One step of the loop with its check, seen as extending the mapped range by a page.
    method MapStep(virtualAddress: nat, physicalAddress: nat, release: bool, writable: bool, level: PrivilegeLevel,
                   pageFlags: nat, ghost start: seq<Word>, ghost first: nat, ghost frame: nat, ghost k: nat,
                   ghost count: nat)
      requires Valid() && k < count && first + count <= PAGES
      requires virtualAddress == 4096 * (first + k) && physicalAddress == frame + 4096 * k
      requires Aligned(frame) && frame + 4096 * count <= PAGE_MASK
      requires |free| >= NeededTables(mem[..], base, first, first + count)
      requires entries == Mapped(start, first, frame, k, release, writable, level, pageFlags)
      modifies this, mem
      ensures Valid() && |free| >= NeededTables(mem[..], base, first, first + count)
      ensures entries == Mapped(start, first, frame, k + 1, release, writable, level, pageFlags)
    {
      StaysAligned(frame, k);
      ghost var now, n := entries, first + k;
      MapPage(virtualAddress, physicalAddress, release, writable, level, pageFlags, n, first, first + count);
      StepEffect(start, now, entries, first, frame, k, n, physicalAddress, release, writable, level, pageFlags);
      if !release {
        var newPhysicalAddress := GetPhysicalAddress(virtualAddress);
        assert physicalAddress == newPhysicalAddress; // "Physical address mismatch."
      }
    }

    // The loop of MapPages.
    method MapRange(virtualStart: nat, physicalStart: nat, size: nat, release: bool, writable: bool,
                    level: PrivilegeLevel, pageFlags: nat, ghost first: nat, ghost count: nat)
      requires Valid() && virtualStart == 4096 * first && size == 4096 * count && Aligned(physicalStart)
      requires virtualStart + size <= PAGE_MASK && physicalStart + size <= PAGE_MASK
      requires |free| >= NeededTables(mem[..], base, first, first + count)
      modifies this, mem
      ensures Valid()
      ensures entries == Mapped(old(entries), first, physicalStart, count, release, writable, level, pageFlags)
    {
      var virtualAddress, physicalAddress := virtualStart, physicalStart;
      var originalVirtualAddress, originalPhysicalAddress := virtualStart, physicalStart;
      var endVirtualAddress := virtualStart + size;
      ghost var k := 0;
      MappedNothing(entries, first, physicalStart, release, writable, level, pageFlags);
      while virtualAddress < endVirtualAddress
        invariant 0 <= k <= count
        invariant virtualAddress == virtualStart + 4096 * k && physicalAddress == physicalStart + 4096 * k
        invariant !release ==> originalVirtualAddress == virtualAddress && originalPhysicalAddress == physicalAddress
        invariant Valid() && |free| >= NeededTables(mem[..], base, first, first + count)
        invariant entries == Mapped(old(entries), first, physicalStart, k, release, writable, level, pageFlags)
        decreases count - k
      {
        MapStep(virtualAddress, physicalAddress, release, writable, level, pageFlags, old(entries), first,
                physicalStart, k, count);
        if !release {
          assert originalVirtualAddress == virtualAddress; // "Virtual address mismatch."
          assert originalPhysicalAddress == physicalAddress; // "Physical address mismatch."
          originalVirtualAddress := originalVirtualAddress + PAGE_SIZE;
          originalPhysicalAddress := originalPhysicalAddress + PAGE_SIZE;
        }
        virtualAddress := virtualAddress + PAGE_SIZE;
        physicalAddress := physicalAddress + PAGE_SIZE;
        k := k + 1;
      }
    }
  }
}
