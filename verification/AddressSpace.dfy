/**
 The allocator as a value: the two range trees and the array of leaf page-table entries. MapPages and the
 three calls on top of it are functions here, and the laws about single calls and about whole runs are lemmas.
 */
module AddressSpace {
  import opened Pages
  import opened RangeTree
  import opened Paging
  import opened PageTableStore

  datatype Space = Space(phys: Tree, virt: Tree, physEnd: nat, entries: seq<Word>)

  // The virtual tree always covers [0, PAGE_MASK).
  ghost predicate WellFormed(s: Space) {
    && s.physEnd <= PAGE_MASK && |s.entries| == PAGES
    && Spans(s.phys, 0, s.physEnd) && Spans(s.virt, 0, PAGE_MASK)
    && Canonical(s.phys) && Canonical(s.virt)
  }

  ghost predicate MapRequest(s: Space, va: nat, pa: nat, size: nat, newState: RangeState) {
    && Aligned(va) && Aligned(pa) && Aligned(size) && size > 0 && newState != Branch
    && va + size <= PAGE_MASK && pa + size <= s.physEnd
  }

  ghost function MapPages(s: Space, va: nat, pa: nat, size: nat, writable: bool, level: PrivilegeLevel,
                          newState: RangeState, pageFlags: nat): Space
    requires WellFormed(s) && MapRequest(s, va, pa, size, newState)
  {
    TagBoth(s, va, pa, size, newState).(
      entries := Mapped(s.entries, va / 4096, pa, size / 4096, newState == Free, writable, level, pageFlags))
  }

  ghost function TagBoth(s: Space, va: nat, pa: nat, size: nat, newState: RangeState): Space {
    s.(phys := Tag(s.phys, 0, s.physEnd, pa, pa + size, newState),
       virt := Tag(s.virt, 0, PAGE_MASK, va, va + size, newState))
  }

  // -------------------------------------------------------------------------
  // One call of MapPages

  lemma MapPagesWellFormed(s: Space, va: nat, pa: nat, size: nat, writable: bool, level: PrivilegeLevel,
                           newState: RangeState, pageFlags: nat)
    requires WellFormed(s) && MapRequest(s, va, pa, size, newState)
    ensures WellFormed(MapPages(s, va, pa, size, writable, level, newState, pageFlags))
  {
    RequestFits(va, size);
    RequestFits(pa, size);
    TagKeepsShape(s.phys, 0, s.physEnd, pa, pa + size, newState);
    TagKeepsShape(s.virt, 0, PAGE_MASK, va, va + size, newState);
  }

  lemma RequestFits(a: nat, size: nat)
    requires Aligned(a) && Aligned(size)
    ensures Aligned(a + size) && (a + size) / 4096 == a / 4096 + size / 4096
    ensures 4096 * (size / 4096) == size && 4096 * (a / 4096) == a
  {
  }

  // What the entry checks of MapPages and its callees ask of a request.
  lemma RequestChecks(s: Space, va: nat, pa: nat, size: nat, newState: RangeState)
    requires WellFormed(s) && MapRequest(s, va, pa, size, newState)
    ensures size % PAGE_SIZE == 0 && PageMask(va) == va && PageMask(pa) == pa
    ensures Request(0, s.physEnd, pa, pa + size, newState) && Request(0, PAGE_MASK, va, va + size, newState)
    ensures va == 4096 * (va / 4096) && size == 4096 * (size / 4096)
  {
    RequestFits(va, size);
    RequestFits(pa, size);
    MaskIdentity(va);
    MaskIdentity(pa);
  }

  // The address as the page tables see it: only the low 48 bits select a page.
  function Low48(v: Word): nat {
    v % 0x1_0000_0000_0000
  }

  // Inside the range every byte translates to its byte of the physical range, or to nothing after a release;
  // every other 64-bit address translates as before.
  lemma MapPagesTranslates(s: Space, va: nat, pa: nat, size: nat, writable: bool, level: PrivilegeLevel,
                           newState: RangeState, pageFlags: nat, v: Word)
    requires WellFormed(s) && MapRequest(s, va, pa, size, newState)
    ensures var s' := MapPages(s, va, pa, size, writable, level, newState, pageFlags);
            Translate(s'.entries, v)
            == if !(va <= Low48(v) < va + size) then Translate(s.entries, v)
               else if newState == Free then INVALID_ADDRESS
               else pa + (Low48(v) - va)
  {
    PageOf(v, va, size);
    MappedTranslation(s.entries, va / 4096, pa, size / 4096, newState == Free, writable, level, pageFlags, v);
  }

  // The same on page numbers.
  lemma MappedTranslation(entries: seq<Word>, first: nat, frame: nat, count: nat, release: bool, writable: bool,
                          level: PrivilegeLevel, pageFlags: nat, v: Word)
    requires |entries| == PAGES && Aligned(frame) && frame + 4096 * count <= PAGE_MASK
    ensures var vpn := v / 4096 % PAGES;
            Translate(Mapped(entries, first, frame, count, release, writable, level, pageFlags), v)
            == if !(first <= vpn < first + count) then Translate(entries, v)
               else if release then INVALID_ADDRESS
               else frame + 4096 * (vpn - first) + v % 4096
  {
    var vpn := v / 4096 % PAGES;
    if first <= vpn < first + count {
      var start := frame + 4096 * (vpn - first);
      StaysAligned(frame, vpn - first);
      if !release {
        var before := entries[vpn];
        PageEntryFields(start, writable, UserBit(before, level), pageFlags);
      }
    }
  }

  lemma PageOf(v: Word, va: nat, size: nat)
    requires Aligned(va) && Aligned(size)
    ensures var vpn := v / 4096 % PAGES;
            && Low48(v) == 4096 * vpn + v % 4096
            && (va <= Low48(v) < va + size <==> va / 4096 <= vpn < va / 4096 + size / 4096)
            && va == 4096 * (va / 4096)
  {
    assert v == 0x1_0000_0000_0000 * (v / 4096 / PAGES) + 4096 * (v / 4096 % PAGES) + v % 4096;
    RequestFits(va, size);
  }

  // Point update of one address of a plain map.
  function Coloured(before: RangeState, start: nat, size: nat, newState: RangeState, a: nat): RangeState {
    if start <= a < start + size then Recolour(before, newState) else before
  }

  // Both plain maps receive the same colour over their own range.
  lemma MapPagesTags(s: Space, va: nat, pa: nat, size: nat, writable: bool, level: PrivilegeLevel,
                     newState: RangeState, pageFlags: nat, a: nat)
    requires WellFormed(s) && MapRequest(s, va, pa, size, newState)
    ensures var s' := MapPages(s, va, pa, size, writable, level, newState, pageFlags);
            && (a < PAGE_MASK ==>
                  StateAt(s'.virt, a) == Coloured(StateAt(s.virt, a), va, size, newState, a))
            && (a < s.physEnd ==>
                  StateAt(s'.phys, a) == Coloured(StateAt(s.phys, a), pa, size, newState, a))
  {
    RequestFits(va, size);
    RequestFits(pa, size);
    if a < PAGE_MASK { TagIsPointUpdate(s.virt, 0, PAGE_MASK, va, va + size, newState, a); }
    if a < s.physEnd { TagIsPointUpdate(s.phys, 0, s.physEnd, pa, pa + size, newState, a); }
  }

  // The same for one virtual address of the tracked range.
  lemma MapPagesAt(s: Space, va: nat, pa: nat, size: nat, writable: bool, level: PrivilegeLevel,
                   newState: RangeState, pageFlags: nat, v: nat)
    requires WellFormed(s) && MapRequest(s, va, pa, size, newState) && v < PAGE_MASK
    ensures var s' := MapPages(s, va, pa, size, writable, level, newState, pageFlags);
            && StateAt(s'.virt, v) == Coloured(StateAt(s.virt, v), va, size, newState, v)
            && Translate(s'.entries, v)
               == if !(va <= v < va + size) then Translate(s.entries, v)
                  else if newState == Free then INVALID_ADDRESS
                  else pa + (v - va)
  {
    MapPagesTags(s, va, pa, size, writable, level, newState, pageFlags, v);
    SmallAddress(v);
    MapPagesTranslates(s, va, pa, size, writable, level, newState, pageFlags, v);
  }

  lemma SmallAddress(v: nat)
    requires v < PAGE_MASK
    ensures Low48(v) == v
  {
  }

  // A Free virtual address has no translation, a Used one has.
  ghost predicate Coupled(s: Space)
    requires |s.entries| == PAGES
  {
    forall v {:trigger StateAt(s.virt, v)} :: 0 <= v < PAGE_MASK ==>
      && (StateAt(s.virt, v) == Free ==> Translate(s.entries, v) == INVALID_ADDRESS)
      && (StateAt(s.virt, v) == Used ==> Translate(s.entries, v) != INVALID_ADDRESS)
  }

  lemma EmptyIsCoupled(s: Space)
    requires |s.entries| == PAGES && s.virt == Leaf(Free) && forall n :: 0 <= n < PAGES ==> s.entries[n] == 0
    ensures Coupled(s) && Backed(s)
  {
  }

  // The whole converse of the first half: every virtual address that is not Free has a translation.
  ghost predicate Backed(s: Space)
    requires |s.entries| == PAGES
  {
    forall v: nat :: v < PAGE_MASK ==> BackedAt(s, v)
  }

  ghost predicate BackedAt(s: Space, v: nat)
    requires |s.entries| == PAGES && v < PAGE_MASK
  {
    StateAt(s.virt, v) != Free ==> Translate(s.entries, v) != INVALID_ADDRESS
  }

  // At one address: only a release of a Reserved address breaks it.
  lemma MapPagesBacks(s: Space, va: nat, pa: nat, size: nat, writable: bool, level: PrivilegeLevel,
                      newState: RangeState, pageFlags: nat, v: nat)
    requires WellFormed(s) && MapRequest(s, va, pa, size, newState) && v < PAGE_MASK && BackedAt(s, v)
    ensures BackedAt(MapPages(s, va, pa, size, writable, level, newState, pageFlags), v)
       <==> !(newState == Free && va <= v < va + size && StateAt(s.virt, v) == Reserved)
  {
    MapPagesAt(s, va, pa, size, writable, level, newState, pageFlags, v);
  }

  ghost predicate ReservedFree(s: Space, va: nat, size: nat) {
    forall a: nat :: va <= a < va + size ==> StateAt(s.virt, a) != Reserved
  }

  // Any request keeps this, unless it takes the translation from an address that stays Reserved.
  lemma MapPagesKeepsBacked(s: Space, va: nat, pa: nat, size: nat, writable: bool, level: PrivilegeLevel,
                            newState: RangeState, pageFlags: nat)
    requires WellFormed(s) && Backed(s) && MapRequest(s, va, pa, size, newState)
    ensures Backed(MapPages(s, va, pa, size, writable, level, newState, pageFlags))
       <==> (newState == Free ==> ReservedFree(s, va, size))
  {
    var s' := MapPages(s, va, pa, size, writable, level, newState, pageFlags);
    forall v: nat | v < PAGE_MASK
      ensures BackedAt(s', v) <==> !(newState == Free && va <= v < va + size && StateAt(s.virt, v) == Reserved)
    {
      assert BackedAt(s, v);
      MapPagesBacks(s, va, pa, size, writable, level, newState, pageFlags, v);
    }
    if newState == Free && !ReservedFree(s, va, size) {
      var a: nat :| va <= a < va + size && StateAt(s.virt, a) == Reserved;
      assert !BackedAt(s', a);
    }
  }

  lemma MapPagesKeepsCoupling(s: Space, va: nat, pa: nat, size: nat, writable: bool, level: PrivilegeLevel,
                              newState: RangeState, pageFlags: nat)
    requires WellFormed(s) && Coupled(s) && MapRequest(s, va, pa, size, newState)
    ensures Coupled(MapPages(s, va, pa, size, writable, level, newState, pageFlags))
  {
    var s' := MapPages(s, va, pa, size, writable, level, newState, pageFlags);
    forall v | 0 <= v < PAGE_MASK
      ensures StateAt(s'.virt, v) == Free ==> Translate(s'.entries, v) == INVALID_ADDRESS
      ensures StateAt(s'.virt, v) == Used ==> Translate(s'.entries, v) != INVALID_ADDRESS
    {
      MapPagesAt(s, va, pa, size, writable, level, newState, pageFlags, v);
    }
  }

  // -------------------------------------------------------------------------
  // The three calls

  ghost function PhysicalFit(s: Space, size: nat): nat {
    FirstFit(Runs(s.phys, 0, s.physEnd), size)
  }

  ghost function VirtualFit(s: Space, size: nat): nat {
    FirstFit(Runs(s.virt, 0, PAGE_MASK), size)
  }

  // Only the physical search is checked for failure; a failed virtual search still maps, at address 0.
  ghost function VirtualAlloc(s: Space, size: nat, level: PrivilegeLevel, pageFlags: nat): (Space, nat)
    requires WellFormed(s) && size > 0 && Aligned(size)
  {
    var pa := PhysicalFit(s, size);
    if pa == 0 then (s, 0)
    else
      var va := VirtualFit(s, size);
      AllocRequest(s, size);
      (MapPages(s, va, pa, size, true, level, Used, pageFlags), va)
  }

  lemma AllocRequest(s: Space, size: nat)
    requires WellFormed(s) && size > 0 && Aligned(size) && PhysicalFit(s, size) != 0
    ensures MapRequest(s, VirtualFit(s, size), PhysicalFit(s, size), size, Used)
  {
    FitIsFree(s.phys, 0, s.physEnd, size);
    FitIsFree(s.virt, 0, PAGE_MASK, size);
  }

  // VirtualFree and VirtualProtect take the physical range to start where the first page is mapped.
  ghost predicate Mappable(s: Space, va: nat, size: nat)
    requires WellFormed(s)
  {
    && va < PAGE_MASK && Translate(s.entries, va) != INVALID_ADDRESS
    && MapRequest(s, va, Translate(s.entries, va), size, Used)
  }

  ghost function VirtualFree(s: Space, va: nat, size: nat): Space
    requires WellFormed(s) && Mappable(s, va, size)
  {
    MapPages(s, va, Translate(s.entries, va), size, false, Kernel, Free, PAGE_FLAGS_NONE)
  }

  datatype MemoryProtection = ReadOnly | ReadWrite | Execute

  ghost function VirtualProtect(s: Space, va: nat, size: nat, protection: MemoryProtection, pageFlags: nat,
                                level: PrivilegeLevel): Space
    requires WellFormed(s) && Mappable(s, va, size)
  {
    MapPages(s, va, Translate(s.entries, va), size, protection == ReadWrite, level, Used, pageFlags)
  }

  // The physical tree has a fit but the virtual tree has none. A Free virtual leaf that starts at 0 is no fit,
  // however large it is.
  ghost predicate NoVirtualFit(s: Space, size: nat) {
    PhysicalFit(s, size) != 0 && VirtualFit(s, size) == 0
  }

  // The condition in terms of the leaves.
  lemma NoVirtualFitMeans(s: Space, size: nat)
    ensures NoVirtualFit(s, size) <==>
              && (exists run :: run in Runs(s.phys, 0, s.physEnd) && FreeRun(run, size) && run.lo != 0)
              && (forall run :: run in Runs(s.virt, 0, PAGE_MASK) && FreeRun(run, size) ==> run.lo == 0)
  {
    FirstFitExact(Runs(s.phys, 0, s.physEnd), size);
    FirstFitExact(Runs(s.virt, 0, PAGE_MASK), size);
  }

  // A failed (0) allocation leaves everything unchanged exactly when there is no fit in physical memory or one in
  // both. When only virtual space has none, the physical block is lost and the addresses from 0 are remapped.
  lemma FailedAllocChangesNothing(s: Space, size: nat, level: PrivilegeLevel, pageFlags: nat)
    requires WellFormed(s) && size > 0 && Aligned(size)
    ensures var (s', r) := VirtualAlloc(s, size, level, pageFlags);
            && ((r == 0 ==> s' == s) <==> !NoVirtualFit(s, size))
            && (NoVirtualFit(s, size) ==>
                  && r == 0
                  && (forall a :: PhysicalFit(s, size) <= a < PhysicalFit(s, size) + size ==>
                        StateAt(s.phys, a) == Free && StateAt(s'.phys, a) == Used)
                  && (forall v: Word :: v < size ==> Translate(s'.entries, v) == PhysicalFit(s, size) + v))
  {
    var (s', r) := VirtualAlloc(s, size, level, pageFlags);
    var pa := PhysicalFit(s, size);
    if NoVirtualFit(s, size) {
      FitIsFree(s.phys, 0, s.physEnd, size);
      AllocRequest(s, size);
      forall a | pa <= a < pa + size ensures StateAt(s.phys, a) == Free && StateAt(s'.phys, a) == Used {
        MapPagesTags(s, 0, pa, size, true, level, Used, pageFlags, a);
      }
      forall v: Word | v < size ensures Translate(s'.entries, v) == pa + v {
        MapPagesAt(s, 0, pa, size, true, level, Used, pageFlags, v);
      }
      assert StateAt(s.phys, pa) != StateAt(s'.phys, pa);
    }
  }

  // It happens while virtual space is still one Free leaf, as soon as physical page 0 is not Free.
  lemma FreshStateHasNoVirtualFit(s: Space, a: nat)
    requires WellFormed(s) && s.virt == Leaf(Free) && StateAt(s.phys, 0) != Free
    requires a < s.physEnd && StateAt(s.phys, a) == Free
    ensures NoVirtualFit(s, PAGE_SIZE)
  {
    OnePageFit(s.phys, s.physEnd, a);
    assert Runs(s.virt, 0, PAGE_MASK)[1..] == [];
  }

  // With two pages of memory, the first of them not Free, the first allocation fails and takes the second.
  lemma FirstAllocation(s: Space, level: PrivilegeLevel, pageFlags: nat)
    requires WellFormed(s) && Coupled(s) && s.physEnd == 8192 && s.virt == Leaf(Free)
    requires StateAt(s.phys, 0) != Free && StateAt(s.phys, 4096) == Free
    ensures NoVirtualFit(s, PAGE_SIZE) && VirtualFit(s, PAGE_SIZE) == 0 && Translate(s.entries, 0) == INVALID_ADDRESS
    ensures var (s', r) := VirtualAlloc(s, PAGE_SIZE, level, pageFlags);
            r == 0 && StateAt(s'.phys, 4096) == Used && Translate(s'.entries, 0) == 4096
  {
    FreshStateHasNoVirtualFit(s, 4096);
    FailedAllocChangesNothing(s, PAGE_SIZE, level, pageFlags);
    FitIsFree(s.phys, 0, s.physEnd, PAGE_SIZE);
    assert PhysicalFit(s, PAGE_SIZE) == 4096;
    assert StateAt(s.virt, 0) == Free;
    var zero: Word := 0;
    var (s', r) := VirtualAlloc(s, PAGE_SIZE, level, pageFlags);
    assert Translate(s'.entries, zero) == 4096;
  }

  // -------------------------------------------------------------------------
  // Live blocks

  datatype Block = Block(va: nat, pa: nat, size: nat)

  ghost predicate Live(s: Space, b: Block)
    requires |s.entries| == PAGES
  {
    && MapRequest(s, b.va, b.pa, b.size, Used)
    && (forall a :: b.va <= a < b.va + b.size ==>
          StateAt(s.virt, a) == Used && Translate(s.entries, a) == b.pa + (a - b.va))
    && (forall a :: b.pa <= a < b.pa + b.size ==> StateAt(s.phys, a) == Used)
  }

  ghost predicate Disjoint(b: Block, c: Block) {
    && (b.va + b.size <= c.va || c.va + c.size <= b.va)
    && (b.pa + b.size <= c.pa || c.pa + c.size <= b.pa)
  }

  datatype World = World(space: Space, live: seq<Block>)

  ghost predicate Safe(w: World) {
    && WellFormed(w.space) && Coupled(w.space)
    && (forall i :: 0 <= i < |w.live| ==> Live(w.space, w.live[i]))
    && (forall i, j :: 0 <= i < j < |w.live| ==> Disjoint(w.live[i], w.live[j]))
  }

  // A request over ranges disjoint from a live block does not touch the block.
  lemma LiveElsewhere(s: Space, b: Block, va: nat, pa: nat, size: nat, writable: bool, level: PrivilegeLevel,
                      newState: RangeState, pageFlags: nat)
    requires WellFormed(s) && Live(s, b) && MapRequest(s, va, pa, size, newState)
    requires Disjoint(b, Block(va, pa, size))
    ensures Live(MapPages(s, va, pa, size, writable, level, newState, pageFlags), b)
  {
    var s' := MapPages(s, va, pa, size, writable, level, newState, pageFlags);
    forall a | b.va <= a < b.va + b.size
      ensures StateAt(s'.virt, a) == Used && Translate(s'.entries, a) == b.pa + (a - b.va)
    {
      assert StateAt(s.virt, a) == Used;
      MapPagesAt(s, va, pa, size, writable, level, newState, pageFlags, a);
    }
    forall a | b.pa <= a < b.pa + b.size ensures StateAt(s'.phys, a) == Used {
      MapPagesTags(s, va, pa, size, writable, level, newState, pageFlags, a);
    }
  }

  // Mapping a range Used makes it a live block unless part of it is Reserved.
  lemma MappedIsLive(s: Space, b: Block, writable: bool, level: PrivilegeLevel, pageFlags: nat)
    requires WellFormed(s) && MapRequest(s, b.va, b.pa, b.size, Used)
    requires forall a :: b.va <= a < b.va + b.size ==> StateAt(s.virt, a) != Reserved
    requires forall a :: b.pa <= a < b.pa + b.size ==> StateAt(s.phys, a) != Reserved
    ensures Live(MapPages(s, b.va, b.pa, b.size, writable, level, Used, pageFlags), b)
  {
    var s' := MapPages(s, b.va, b.pa, b.size, writable, level, Used, pageFlags);
    forall a | b.va <= a < b.va + b.size
      ensures StateAt(s'.virt, a) == Used && Translate(s'.entries, a) == b.pa + (a - b.va)
    {
      MapPagesAt(s, b.va, b.pa, b.size, writable, level, Used, pageFlags, a);
    }
    forall a | b.pa <= a < b.pa + b.size ensures StateAt(s'.phys, a) == Used {
      MapPagesTags(s, b.va, b.pa, b.size, writable, level, Used, pageFlags, a);
    }
  }

  // A Used page is never inside a Free run, so a live block lies outside any fit.
  lemma LiveOutsideFree(s: Space, b: Block, va: nat, pa: nat, size: nat)
    requires WellFormed(s) && Live(s, b) && size > 0
    requires forall a :: va <= a < va + size ==> StateAt(s.virt, a) == Free
    requires forall a :: pa <= a < pa + size ==> StateAt(s.phys, a) == Free
    ensures Disjoint(b, Block(va, pa, size))
  {
    var v := if va < b.va then b.va else va;
    var p := if pa < b.pa then b.pa else pa;
    assert StateAt(s.virt, v) != Free || StateAt(s.virt, v) != Used;
    assert StateAt(s.phys, p) != Free || StateAt(s.phys, p) != Used;
  }

  // A successful allocation is a live block, taken from addresses that were all Free.
  lemma AllocIsLive(s: Space, size: nat, level: PrivilegeLevel, pageFlags: nat)
    requires WellFormed(s) && Coupled(s) && size > 0 && Aligned(size)
    ensures var (s', va) := VirtualAlloc(s, size, level, pageFlags);
            var pa := PhysicalFit(s, size);
            va != 0 ==>
              && WellFormed(s') && Coupled(s') && Live(s', Block(va, pa, size))
              && (forall a :: va <= a < va + size ==>
                    StateAt(s.virt, a) == Free && Translate(s.entries, a) == INVALID_ADDRESS)
              && (forall a :: pa <= a < pa + size ==> StateAt(s.phys, a) == Free)
  {
    var (s', va) := VirtualAlloc(s, size, level, pageFlags);
    var pa := PhysicalFit(s, size);
    if va != 0 {
      AllocRequest(s, size);
      FitIsFree(s.phys, 0, s.physEnd, size);
      FitIsFree(s.virt, 0, PAGE_MASK, size);
      MapPagesWellFormed(s, va, pa, size, true, level, Used, pageFlags);
      MapPagesKeepsCoupling(s, va, pa, size, true, level, Used, pageFlags);
      MappedIsLive(s, Block(va, pa, size), true, level, pageFlags);
      forall a | va <= a < va + size
        ensures StateAt(s.virt, a) == Free && Translate(s.entries, a) == INVALID_ADDRESS {}
    }
  }

  // Any aligned part of a live block is mapped where the block says.
  lemma PartIsMappable(s: Space, b: Block, offset: nat, size: nat)
    requires WellFormed(s) && Live(s, b) && PartOf(b, offset, size)
    ensures Mappable(s, b.va + offset, size) && Translate(s.entries, b.va + offset) == b.pa + offset
    ensures Contiguous(s, b.va + offset, size)
  {
    assert StateAt(s.virt, b.va + offset) == Used;
    RequestFits(b.va, offset);
    RequestFits(b.pa, offset);
    forall a: Word | b.va + offset <= a < b.va + offset + size ensures Translate(s.entries, a) == b.pa + (a - b.va) {
      assert StateAt(s.virt, a) == Used;
    }
  }

  ghost predicate PartOf(b: Block, offset: nat, size: nat) {
    Aligned(offset) && Aligned(size) && size > 0 && offset + size <= b.size
  }

  lemma LiveIsMappable(s: Space, b: Block)
    requires WellFormed(s) && Live(s, b)
    ensures Mappable(s, b.va, b.size) && Translate(s.entries, b.va) == b.pa
  {
    assert StateAt(s.virt, b.va) == Used;
  }

  // The page tables name the physical block of a new allocation.
  lemma AllocTranslates(s: Space, size: nat, level: PrivilegeLevel, pageFlags: nat)
    requires WellFormed(s) && Coupled(s) && size > 0 && Aligned(size)
    ensures var (s', va) := VirtualAlloc(s, size, level, pageFlags);
            va != 0 ==> va < PAGE_MASK && |s'.entries| == PAGES && Translate(s'.entries, va) == PhysicalFit(s, size)
  {
    AllocIsLive(s, size, level, pageFlags);
    var (s', va) := VirtualAlloc(s, size, level, pageFlags);
    if va != 0 {
      LiveIsMappable(s', Block(va, PhysicalFit(s, size), size));
    }
  }

  // Two spaces that no caller can tell apart: same states and same translation everywhere.
  ghost predicate SameView(s: Space, t: Space)
    requires WellFormed(s) && WellFormed(t)
  {
    && s.physEnd == t.physEnd
    && (forall a :: 0 <= a < s.physEnd ==> StateAt(t.phys, a) == StateAt(s.phys, a))
    && (forall a :: 0 <= a < PAGE_MASK ==> StateAt(t.virt, a) == StateAt(s.virt, a))
    && (forall v: Word :: Translate(t.entries, v) == Translate(s.entries, v))
  }

  // Freeing a block right after allocating it restores both plain maps and every translation.
  lemma FreeUndoesAlloc(s: Space, size: nat, level: PrivilegeLevel, pageFlags: nat)
    requires WellFormed(s) && Coupled(s) && size > 0 && Aligned(size)
    ensures var (s', va) := VirtualAlloc(s, size, level, pageFlags);
            va != 0 ==>
              && WellFormed(s') && Mappable(s', va, size)
              && WellFormed(VirtualFree(s', va, size)) && SameView(s, VirtualFree(s', va, size))
  {
    var (s', va) := VirtualAlloc(s, size, level, pageFlags);
    var pa := PhysicalFit(s, size);
    if va != 0 {
      AllocRequest(s, size);
      AllocIsLive(s, size, level, pageFlags);
      assert Translate(s'.entries, va) == pa by { assert StateAt(s'.virt, va) == Used; }
      var t := VirtualFree(s', va, size);
      MapPagesWellFormed(s', va, pa, size, false, Kernel, Free, PAGE_FLAGS_NONE);
      forall a | 0 <= a < s.physEnd ensures StateAt(t.phys, a) == StateAt(s.phys, a) {
        MapPagesTags(s, va, pa, size, true, level, Used, pageFlags, a);
        MapPagesTags(s', va, pa, size, false, Kernel, Free, PAGE_FLAGS_NONE, a);
      }
      forall a | 0 <= a < PAGE_MASK ensures StateAt(t.virt, a) == StateAt(s.virt, a) {
        MapPagesTags(s, va, pa, size, true, level, Used, pageFlags, a);
        MapPagesTags(s', va, pa, size, false, Kernel, Free, PAGE_FLAGS_NONE, a);
      }
      forall v: Word ensures Translate(t.entries, v) == Translate(s.entries, v) {
        MapPagesTranslates(s, va, pa, size, true, level, Used, pageFlags, v);
        MapPagesTranslates(s', va, pa, size, false, Kernel, Free, PAGE_FLAGS_NONE, v);
        OnlyLow48(s.entries, v);
        if va <= Low48(v) < va + size { assert StateAt(s.virt, Low48(v)) == Free; }
      }
    }
  }

  lemma OnlyLow48(entries: seq<Word>, v: Word)
    requires |entries| == PAGES
    ensures Translate(entries, v) == Translate(entries, Low48(v))
  {
    var w := Low48(v);
    assert w == 4096 * (v / 4096 % PAGES) + v % 4096 by { PageOf(v, 0, 0); }
    assert w / 4096 == v / 4096 % PAGES && w % 4096 == v % 4096;
  }

  // What a protected entry must carry; Keep leaves the user bit of a present entry as it was.
  ghost predicate Protected(before: Word, after: Word, writable: bool, level: PrivilegeLevel, pageFlags: nat) {
    && Present(after) && Writable(after) == writable
    && UserMode(after) == (level == User || (level == Keep && Present(before) && UserMode(before)))
    && CacheDisable(after) == (pageFlags == PAGE_FLAGS_CACHE_DISABLE)
    && WriteThrough(after) == (pageFlags == PAGE_FLAGS_WRITE_THROUGH)
  }

  lemma LeafWordProtects(before: Word, frame: nat, writable: bool, level: PrivilegeLevel, pageFlags: nat)
    requires Aligned(frame) && frame < PAGE_MASK
    ensures Protected(before, LeafWord(before, frame, false, writable, level, pageFlags), writable, level, pageFlags)
  {
    PageEntryFields(frame, writable, UserBit(before, level), pageFlags);
  }

  // After mapping, the entries of the range carry exactly the requested permissions, and no other entry changes.
  lemma MapPagesProtects(s: Space, va: nat, pa: nat, size: nat, writable: bool, level: PrivilegeLevel,
                         newState: RangeState, pageFlags: nat, n: nat)
    requires WellFormed(s) && MapRequest(s, va, pa, size, newState) && newState != Free && n < PAGES
    ensures var s' := MapPages(s, va, pa, size, writable, level, newState, pageFlags);
            if va / 4096 <= n < va / 4096 + size / 4096
            then Protected(s.entries[n], s'.entries[n], writable, level, pageFlags)
            else s'.entries[n] == s.entries[n]
  {
    RequestFits(va, size);
    if va / 4096 <= n < va / 4096 + size / 4096 {
      StaysAligned(pa, n - va / 4096);
      LeafWordProtects(s.entries[n], pa + 4096 * (n - va / 4096), writable, level, pageFlags);
    }
  }

  // An allocated block is writable, with the requested level and caching.
  lemma AllocPermissions(s: Space, size: nat, level: PrivilegeLevel, pageFlags: nat, n: nat)
    requires WellFormed(s) && size > 0 && Aligned(size) && n < PAGES
    ensures var (s', va) := VirtualAlloc(s, size, level, pageFlags);
            va != 0 ==>
              if va / 4096 <= n < va / 4096 + size / 4096
              then Protected(s.entries[n], s'.entries[n], true, level, pageFlags)
              else s'.entries[n] == s.entries[n]
  {
    if PhysicalFit(s, size) != 0 {
      AllocRequest(s, size);
      MapPagesProtects(s, VirtualFit(s, size), PhysicalFit(s, size), size, true, level, Used, pageFlags, n);
    }
  }

  // Each byte of the range lies right behind the one before it in physical memory.
  ghost predicate Contiguous(s: Space, va: nat, size: nat)
    requires |s.entries| == PAGES && va < PAGE_MASK && va + size <= PAGE_MASK
  {
    forall a: Word :: va <= a < va + size ==> Translate(s.entries, a) == Translate(s.entries, va) + (a - va)
  }

  // In the page tables, protecting a physically contiguous mapped range changes flags only: every translation
  // stays, the entries of the range carry exactly the requested permissions, and all other entries stay.
  lemma ProtectKeepsTranslations(s: Space, va: nat, size: nat, protection: MemoryProtection, pageFlags: nat,
                                 level: PrivilegeLevel)
    requires WellFormed(s) && Mappable(s, va, size) && Contiguous(s, va, size)
    ensures var s' := VirtualProtect(s, va, size, protection, pageFlags, level);
            && (forall v: Word :: Translate(s'.entries, v) == Translate(s.entries, v))
            && (forall n :: 0 <= n < PAGES ==>
                  if va / 4096 <= n < va / 4096 + size / 4096
                  then Protected(s.entries[n], s'.entries[n], protection == ReadWrite, level, pageFlags)
                  else s'.entries[n] == s.entries[n])
  {
    var pa := Translate(s.entries, va);
    var s' := VirtualProtect(s, va, size, protection, pageFlags, level);
    forall v: Word ensures Translate(s'.entries, v) == Translate(s.entries, v) {
      MapPagesTranslates(s, va, pa, size, protection == ReadWrite, level, Used, pageFlags, v);
      OnlyLow48(s.entries, v);
    }
    forall n | 0 <= n < PAGES
      ensures if va / 4096 <= n < va / 4096 + size / 4096
              then Protected(s.entries[n], s'.entries[n], protection == ReadWrite, level, pageFlags)
              else s'.entries[n] == s.entries[n]
    {
      MapPagesProtects(s, va, pa, size, protection == ReadWrite, level, Used, pageFlags, n);
    }
  }

  // The two range maps under the same call. The virtual map stays as it is. The physical range is tagged Used
  // again, so the physical map stays as it is exactly when no address of that range was Free.
  lemma ProtectMaps(s: Space, va: nat, size: nat, protection: MemoryProtection, pageFlags: nat, level: PrivilegeLevel)
    requires WellFormed(s) && Coupled(s) && Mappable(s, va, size) && Contiguous(s, va, size)
    ensures var s' := VirtualProtect(s, va, size, protection, pageFlags, level);
            var pa := Translate(s.entries, va);
            && (forall a :: 0 <= a < PAGE_MASK ==> StateAt(s'.virt, a) == StateAt(s.virt, a))
            && ((forall a :: 0 <= a < s.physEnd ==> StateAt(s'.phys, a) == StateAt(s.phys, a))
                <==> (forall a :: pa <= a < pa + size ==> StateAt(s.phys, a) != Free))
  {
    var s' := VirtualProtect(s, va, size, protection, pageFlags, level);
    var pa := Translate(s.entries, va);
    forall a | 0 <= a < PAGE_MASK ensures StateAt(s'.virt, a) == StateAt(s.virt, a) {
      MapPagesTags(s, va, pa, size, protection == ReadWrite, level, Used, pageFlags, a);
      NeverBranch(s.virt, 0, PAGE_MASK, a);
      if va <= a < va + size {
        assert StateAt(s.virt, a) != Free;
      }
    }
    forall a | 0 <= a < s.physEnd
      ensures StateAt(s'.phys, a) == Coloured(StateAt(s.phys, a), pa, size, Used, a) && StateAt(s.phys, a) != Branch
    {
      MapPagesTags(s, va, pa, size, protection == ReadWrite, level, Used, pageFlags, a);
      NeverBranch(s.phys, 0, s.physEnd, a);
    }
  }

  // PhysicalAlloc maps a given physical range, whatever its state.
  ghost function PhysicalAlloc(s: Space, pa: nat, size: nat, level: PrivilegeLevel, pageFlags: nat): (Space, nat)
    requires WellFormed(s) && MapRequest(s, VirtualFit(s, size), pa, size, Used)
  {
    var va := VirtualFit(s, size);
    (MapPages(s, va, pa, size, true, level, Used, pageFlags), va)
  }

  // Two blocks over the same physical range, at different virtual addresses.
  ghost predicate Aliased(s: Space, va: nat, other: nat, pa: nat, size: nat)
    requires |s.entries| == PAGES
  {
    Live(s, Block(va, pa, size)) && Live(s, Block(other, pa, size)) && (va + size <= other || other + size <= va)
  }

  lemma PhysicalAllocAliases(s: Space, b: Block, level: PrivilegeLevel, pageFlags: nat)
    requires WellFormed(s) && Coupled(s) && Live(s, b) && VirtualFit(s, b.size) != 0
    ensures MapRequest(s, VirtualFit(s, b.size), b.pa, b.size, Used)
    ensures var (s', other) := PhysicalAlloc(s, b.pa, b.size, level, pageFlags);
            WellFormed(s') && Coupled(s') && Aliased(s', b.va, other, b.pa, b.size)
  {
    var va := VirtualFit(s, b.size);
    FitIsFree(s.virt, 0, PAGE_MASK, b.size);
    var v := if va < b.va then b.va else va;
    assert b.va + b.size <= va || va + b.size <= b.va by {
      assert StateAt(s.virt, v) != Free || StateAt(s.virt, v) != Used;
    }
    var s' := MapPages(s, va, b.pa, b.size, true, level, Used, pageFlags);
    MapPagesWellFormed(s, va, b.pa, b.size, true, level, Used, pageFlags);
    MapPagesKeepsCoupling(s, va, b.pa, b.size, true, level, Used, pageFlags);
    MappedIsLive(s, Block(va, b.pa, b.size), true, level, pageFlags);
    forall a | b.va <= a < b.va + b.size
      ensures StateAt(s'.virt, a) == Used && Translate(s'.entries, a) == b.pa + (a - b.va)
    {
      assert StateAt(s.virt, a) == Used;
      MapPagesAt(s, va, b.pa, b.size, true, level, Used, pageFlags, a);
    }
  }

  // Freeing one of two such blocks leaves its physical range Free under the other one, and protecting the other
  // then tags that range Used: the physical map does change.
  lemma ProtectRetagsAlias(s: Space, va: nat, other: nat, pa: nat, size: nat, protection: MemoryProtection,
                           pageFlags: nat, level: PrivilegeLevel)
    requires WellFormed(s) && Coupled(s) && Aliased(s, va, other, pa, size)
    ensures Mappable(s, va, size)
    ensures var s' := VirtualFree(s, va, size);
            && WellFormed(s') && Coupled(s') && Mappable(s', other, size) && Contiguous(s', other, size)
            && var s'' := VirtualProtect(s', other, size, protection, pageFlags, level);
               forall a :: pa <= a < pa + size ==> StateAt(s'.phys, a) == Free && StateAt(s''.phys, a) == Used
  {
    LiveIsMappable(s, Block(va, pa, size));
    var s' := VirtualFree(s, va, size);
    MapPagesWellFormed(s, va, pa, size, false, Kernel, Free, PAGE_FLAGS_NONE);
    MapPagesKeepsCoupling(s, va, pa, size, false, Kernel, Free, PAGE_FLAGS_NONE);
    forall a | other <= a < other + size ensures Translate(s'.entries, a) == pa + (a - other) {
      assert StateAt(s.virt, a) == Used;
      MapPagesAt(s, va, pa, size, false, Kernel, Free, PAGE_FLAGS_NONE, a);
    }
    assert Translate(s'.entries, other) == pa;
    var s'' := VirtualProtect(s', other, size, protection, pageFlags, level);
    forall a | pa <= a < pa + size ensures StateAt(s'.phys, a) == Free && StateAt(s''.phys, a) == Used {
      MapPagesTags(s, va, pa, size, false, Kernel, Free, PAGE_FLAGS_NONE, a);
      MapPagesTags(s', other, pa, size, protection == ReadWrite, level, Used, pageFlags, a);
    }
  }

  // Such a state is reached from empty trees in three calls: firmware reserves page 0, one page is allocated, and
  // its frame is mapped a second time.
  lemma AliasIsReachable(entries: seq<Word>, pageFlags: nat)
    returns (s: Space, va: nat, other: nat, pa: nat)
    requires |entries| == PAGES && forall n :: 0 <= n < PAGES ==> entries[n] == 0
    ensures WellFormed(s) && Coupled(s) && Aliased(s, va, other, pa, PAGE_SIZE)
    ensures var empty := Space(Leaf(Free), Leaf(Free), 8192, entries);
            && WellFormed(empty) && MapRequest(empty, 0, 0, PAGE_SIZE, Reserved)
            && var booted := MapPages(empty, 0, 0, PAGE_SIZE, true, User, Reserved, PAGE_FLAGS_NONE);
               && WellFormed(booted) && pa == PhysicalFit(booted, PAGE_SIZE)
               && var (first, va') := VirtualAlloc(booted, PAGE_SIZE, Kernel, pageFlags);
                  && va' == va != 0 && WellFormed(first)
                  && MapRequest(first, VirtualFit(first, PAGE_SIZE), pa, PAGE_SIZE, Used)
                  && PhysicalAlloc(first, pa, PAGE_SIZE, Kernel, pageFlags) == (s, other)
  {
    var empty := Space(Leaf(Free), Leaf(Free), 8192, entries);
    EmptyIsCoupled(empty);
    MapPagesWellFormed(empty, 0, 0, PAGE_SIZE, true, User, Reserved, PAGE_FLAGS_NONE);
    MapPagesKeepsCoupling(empty, 0, 0, PAGE_SIZE, true, User, Reserved, PAGE_FLAGS_NONE);
    var booted := MapPages(empty, 0, 0, PAGE_SIZE, true, User, Reserved, PAGE_FLAGS_NONE);
    MapPagesTags(empty, 0, 0, PAGE_SIZE, true, User, Reserved, PAGE_FLAGS_NONE, 0);
    MapPagesTags(empty, 0, 0, PAGE_SIZE, true, User, Reserved, PAGE_FLAGS_NONE, 4096);
    MapPagesTags(empty, 0, 0, PAGE_SIZE, true, User, Reserved, PAGE_FLAGS_NONE, 8192);
    OnePageFit(booted.phys, 8192, 4096);
    OnePageFit(booted.virt, PAGE_MASK, 4096);
    pa := PhysicalFit(booted, PAGE_SIZE);
    var (first, v1) := VirtualAlloc(booted, PAGE_SIZE, Kernel, pageFlags);
    va := v1;
    AllocIsLive(booted, PAGE_SIZE, Kernel, pageFlags);
    AllocRequest(booted, PAGE_SIZE);
    MapPagesTags(booted, va, pa, PAGE_SIZE, true, Kernel, Used, pageFlags, 0);
    var a := if va == 4096 then 8192 else 4096;
    MapPagesTags(booted, va, pa, PAGE_SIZE, true, Kernel, Used, pageFlags, a);
    OnePageFit(first.virt, PAGE_MASK, a);
    PhysicalAllocAliases(first, Block(va, pa, PAGE_SIZE), Kernel, pageFlags);
    var (second, v2) := PhysicalAlloc(first, pa, PAGE_SIZE, Kernel, pageFlags);
    s, other := second, v2;
  }

  // -------------------------------------------------------------------------
  // Whole runs

  datatype Op =
    | Alloc(size: nat, level: PrivilegeLevel, pageFlags: nat)
    | Release(i: nat)
    | Protect(i: nat, offset: nat, size: nat, protection: MemoryProtection, pageFlags: nat, level: PrivilegeLevel)

  // The requests the callers make. The last conjunct of the last two cases is what the assertions of the kernel
  // ask for; a safe world grants it.
  ghost predicate Requested(w: World, op: Op)
    requires WellFormed(w.space)
  {
    match op
    case Alloc(size, _, _) => size > 0 && Aligned(size)
    case Release(i) => i < |w.live| && Mappable(w.space, w.live[i].va, w.live[i].size)
    case Protect(i, offset, size, _, _, _) =>
      && i < |w.live| && PartOf(w.live[i], offset, size)
      && Mappable(w.space, w.live[i].va + offset, size)
  }

  lemma SafeRequestsPass(w: World, op: Op)
    requires Safe(w)
    ensures op.Release? ==> (Requested(w, op) <==> op.i < |w.live|)
    ensures op.Protect? ==> (Requested(w, op) <==> op.i < |w.live| && PartOf(w.live[op.i], op.offset, op.size))
  {
    if op.Release? && op.i < |w.live| {
      LiveIsMappable(w.space, w.live[op.i]);
    }
    if op.Protect? && op.i < |w.live| && PartOf(w.live[op.i], op.offset, op.size) {
      PartIsMappable(w.space, w.live[op.i], op.offset, op.size);
    }
  }

  // The one request that does harm: only virtual space has no fit, and a live block lies where the allocation
  // then maps, at the addresses from 0.
  ghost predicate Overwrites(w: World, op: Op) {
    op.Alloc? && NoVirtualFit(w.space, op.size) && exists i :: 0 <= i < |w.live| && w.live[i].va < op.size
  }

  ghost function Step(w: World, op: Op): World
    requires WellFormed(w.space) && Requested(w, op)
  {
    match op
    case Alloc(size, level, pageFlags) =>
      var (s', va) := VirtualAlloc(w.space, size, level, pageFlags);
      if va == 0 then World(s', w.live)
      else World(s', w.live + [Block(va, PhysicalFit(w.space, size), size)])
    case Release(i) =>
      var b := w.live[i];
      World(VirtualFree(w.space, b.va, b.size), w.live[..i] + w.live[i + 1..])
    case Protect(i, offset, size, protection, pageFlags, level) =>
      World(VirtualProtect(w.space, w.live[i].va + offset, size, protection, pageFlags, level), w.live)
  }

  lemma StepKeepsWellFormed(w: World, op: Op)
    requires WellFormed(w.space) && Requested(w, op)
    ensures WellFormed(Step(w, op).space)
  {
    var s := w.space;
    match op
    case Alloc(size, level, pageFlags) =>
      if PhysicalFit(s, size) != 0 {
        AllocRequest(s, size);
        MapPagesWellFormed(s, VirtualFit(s, size), PhysicalFit(s, size), size, true, level, Used, pageFlags);
      }
    case Release(i) =>
      var b := w.live[i];
      MapPagesWellFormed(s, b.va, Translate(s.entries, b.va), b.size, false, Kernel, Free, PAGE_FLAGS_NONE);
    case Protect(i, offset, size, protection, pageFlags, level) =>
      var va := w.live[i].va + offset;
      MapPagesWellFormed(s, va, Translate(s.entries, va), size, protection == ReadWrite, level, Used, pageFlags);
  }

  lemma AllocKeepsSafe(w: World, size: nat, level: PrivilegeLevel, pageFlags: nat)
    requires Safe(w) && Requested(w, Alloc(size, level, pageFlags)) && !NoVirtualFit(w.space, size)
    ensures Safe(Step(w, Alloc(size, level, pageFlags)))
  {
    var s := w.space;
    var (s', va) := VirtualAlloc(s, size, level, pageFlags);
    FailedAllocChangesNothing(s, size, level, pageFlags);
    if va != 0 {
      var b := Block(va, PhysicalFit(s, size), size);
      AllocIsLive(s, size, level, pageFlags);
      AllocRequest(s, size);
      forall i | 0 <= i < |w.live| ensures Disjoint(w.live[i], b) && Live(s', w.live[i]) {
        LiveOutsideFree(s, w.live[i], b.va, b.pa, b.size);
        LiveElsewhere(s, w.live[i], b.va, b.pa, b.size, true, level, Used, pageFlags);
      }
    }
  }

  // When only virtual space has no fit the addresses from 0 are remapped, so the world stays safe exactly when no
  // live block is there.
  lemma UnfitAllocSafe(w: World, size: nat, level: PrivilegeLevel, pageFlags: nat)
    requires Safe(w) && Requested(w, Alloc(size, level, pageFlags)) && NoVirtualFit(w.space, size)
    ensures Safe(Step(w, Alloc(size, level, pageFlags))) <==> !Overwrites(w, Alloc(size, level, pageFlags))
  {
    var s, pa := w.space, PhysicalFit(w.space, size);
    AllocRequest(s, size);
    var s' := MapPages(s, 0, pa, size, true, level, Used, pageFlags);
    FitIsFree(s.phys, 0, s.physEnd, size);
    MapPagesWellFormed(s, 0, pa, size, true, level, Used, pageFlags);
    MapPagesKeepsCoupling(s, 0, pa, size, true, level, Used, pageFlags);
    forall i | 0 <= i < |w.live| ensures Live(s', w.live[i]) <==> w.live[i].va >= size {
      LiveAfterUnfitAlloc(s, w.live[i], size, level, pageFlags);
    }
  }

  lemma LiveAfterUnfitAlloc(s: Space, b: Block, size: nat, level: PrivilegeLevel, pageFlags: nat)
    requires WellFormed(s) && Live(s, b) && size > 0 && Aligned(size)
    requires NoVirtualFit(s, size) && MapRequest(s, 0, PhysicalFit(s, size), size, Used)
    ensures Live(MapPages(s, 0, PhysicalFit(s, size), size, true, level, Used, pageFlags), b) <==> b.va >= size
  {
    var pa := PhysicalFit(s, size);
    FitIsFree(s.phys, 0, s.physEnd, size);
    var p := if pa < b.pa then b.pa else pa;
    assert b.pa + b.size <= pa || pa + size <= b.pa by {
      assert StateAt(s.phys, p) != Free || StateAt(s.phys, p) != Used;
    }
    if b.va >= size {
      LiveElsewhere(s, b, 0, pa, size, true, level, Used, pageFlags);
    } else {
      MapPagesAt(s, 0, pa, size, true, level, Used, pageFlags, b.va);
    }
  }

  lemma ReleaseKeepsSafe(w: World, i: nat)
    requires Safe(w) && Requested(w, Release(i))
    ensures Safe(Step(w, Release(i)))
  {
    var s, b := w.space, w.live[i];
    LiveIsMappable(s, b);
    MapPagesWellFormed(s, b.va, b.pa, b.size, false, Kernel, Free, PAGE_FLAGS_NONE);
    MapPagesKeepsCoupling(s, b.va, b.pa, b.size, false, Kernel, Free, PAGE_FLAGS_NONE);
    var s' := VirtualFree(s, b.va, b.size);
    forall j | 0 <= j < |w.live| && j != i ensures Live(s', w.live[j]) {
      assert if j < i then Disjoint(w.live[j], w.live[i]) else Disjoint(w.live[i], w.live[j]);
      LiveElsewhere(s, w.live[j], b.va, b.pa, b.size, false, Kernel, Free, PAGE_FLAGS_NONE);
    }
    RestIsSafe(w.live, i, s');
  }

  lemma RestIsSafe(live: seq<Block>, i: nat, s: Space)
    requires i < |live| && WellFormed(s) && Coupled(s)
    requires forall j :: 0 <= j < |live| && j != i ==> Live(s, live[j])
    requires forall j, k :: 0 <= j < k < |live| ==> Disjoint(live[j], live[k])
    ensures Safe(World(s, live[..i] + live[i + 1..]))
  {
    var rest := live[..i] + live[i + 1..];
    forall k | 0 <= k < |rest| ensures rest[k] == live[if k < i then k else k + 1] {}
  }

  lemma ProtectKeepsSafe(w: World, i: nat, offset: nat, size: nat, protection: MemoryProtection, pageFlags: nat,
                         level: PrivilegeLevel)
    requires Safe(w) && Requested(w, Protect(i, offset, size, protection, pageFlags, level))
    ensures Safe(Step(w, Protect(i, offset, size, protection, pageFlags, level)))
  {
    var b := w.live[i];
    PartIsMappable(w.space, b, offset, size);
    RemapKeepsLive(w.space, Step(w, Protect(i, offset, size, protection, pageFlags, level)).space, w.live, i, offset,
                   size, protection == ReadWrite, level, pageFlags);
  }

  lemma RemapKeepsLive(s: Space, s': Space, live: seq<Block>, i: nat, offset: nat, size: nat, writable: bool,
                       level: PrivilegeLevel, pageFlags: nat)
    requires Safe(World(s, live)) && i < |live| && PartOf(live[i], offset, size)
    requires MapRequest(s, live[i].va + offset, live[i].pa + offset, size, Used)
    requires s' == MapPages(s, live[i].va + offset, live[i].pa + offset, size, writable, level, Used, pageFlags)
    ensures Safe(World(s', live))
  {
    var va, pa := live[i].va + offset, live[i].pa + offset;
    MapPagesWellFormed(s, va, pa, size, writable, level, Used, pageFlags);
    MapPagesKeepsCoupling(s, va, pa, size, writable, level, Used, pageFlags);
    forall j | 0 <= j < |live| ensures Live(s', live[j]) {
      if j == i {
        PartRemapped(s, live[i], offset, size, writable, level, pageFlags);
      } else {
        assert if j < i then Disjoint(live[j], live[i]) else Disjoint(live[i], live[j]);
        LiveElsewhere(s, live[j], va, pa, size, writable, level, Used, pageFlags);
      }
    }
  }

  // Mapping a part of a live block again where it is keeps the block live.
  lemma PartRemapped(s: Space, b: Block, offset: nat, size: nat, writable: bool, level: PrivilegeLevel, pageFlags: nat)
    requires WellFormed(s) && Live(s, b) && PartOf(b, offset, size)
    requires MapRequest(s, b.va + offset, b.pa + offset, size, Used)
    ensures Live(MapPages(s, b.va + offset, b.pa + offset, size, writable, level, Used, pageFlags), b)
  {
    var s' := MapPages(s, b.va + offset, b.pa + offset, size, writable, level, Used, pageFlags);
    forall a | b.va <= a < b.va + b.size
      ensures StateAt(s'.virt, a) == Used && Translate(s'.entries, a) == b.pa + (a - b.va)
    {
      assert StateAt(s.virt, a) == Used;
      MapPagesAt(s, b.va + offset, b.pa + offset, size, writable, level, Used, pageFlags, a);
    }
    forall a | b.pa <= a < b.pa + b.size ensures StateAt(s'.phys, a) == Used {
      MapPagesTags(s, b.va + offset, b.pa + offset, size, writable, level, Used, pageFlags, a);
    }
  }

  // Over a physical range without a Free address nothing but flags changes: both maps and every translation stay.
  lemma ProtectKeepsView(s: Space, va: nat, size: nat, protection: MemoryProtection, pageFlags: nat,
                         level: PrivilegeLevel)
    requires WellFormed(s) && Coupled(s) && Mappable(s, va, size) && Contiguous(s, va, size)
    requires var pa := Translate(s.entries, va); forall a :: pa <= a < pa + size ==> StateAt(s.phys, a) != Free
    ensures var s' := VirtualProtect(s, va, size, protection, pageFlags, level); WellFormed(s') && SameView(s, s')
  {
    var pa := Translate(s.entries, va);
    MapPagesWellFormed(s, va, pa, size, protection == ReadWrite, level, Used, pageFlags);
    ProtectKeepsTranslations(s, va, size, protection, pageFlags, level);
    ProtectMaps(s, va, size, protection, pageFlags, level);
  }

  // So it is inside a live block.
  lemma ProtectLiveKeepsView(s: Space, b: Block, offset: nat, size: nat, protection: MemoryProtection, pageFlags: nat,
                             level: PrivilegeLevel)
    requires WellFormed(s) && Coupled(s) && Live(s, b) && PartOf(b, offset, size)
    ensures Mappable(s, b.va + offset, size)
    ensures var s' := VirtualProtect(s, b.va + offset, size, protection, pageFlags, level);
            WellFormed(s') && SameView(s, s')
  {
    PartIsMappable(s, b, offset, size);
    ProtectKeepsView(s, b.va + offset, size, protection, pageFlags, level);
  }

  // A step from a safe world leads to a safe world exactly when it does not overwrite a live block.
  lemma StepIsSafe(w: World, op: Op)
    requires Safe(w) && Requested(w, op)
    ensures Safe(Step(w, op)) <==> !Overwrites(w, op)
  {
    match op
    case Alloc(size, level, pageFlags) =>
      if NoVirtualFit(w.space, size) {
        UnfitAllocSafe(w, size, level, pageFlags);
      } else {
        AllocKeepsSafe(w, size, level, pageFlags);
      }
    case Release(i) => ReleaseKeepsSafe(w, i);
    case Protect(i, offset, size, protection, pageFlags, level) =>
      ProtectKeepsSafe(w, i, offset, size, protection, pageFlags, level);
  }

  // The worlds passed through by a run, one per operation.
  ghost predicate IsRun(ws: seq<World>, ops: seq<Op>) {
    && |ws| == |ops| + 1 && WellFormed(ws[0].space)
    && forall k {:trigger ops[k]} :: 0 <= k < |ops| ==> WellFormed(ws[k].space) ==>
         Requested(ws[k], ops[k]) && ws[k + 1] == Step(ws[k], ops[k])
  }

  lemma {:induction false} RunIsWellFormed(ws: seq<World>, ops: seq<Op>, k: nat)
    requires IsRun(ws, ops) && k < |ws|
    ensures WellFormed(ws[k].space)
    decreases k, 0
  {
    if k > 0 {
      RunStep(ws, ops, k - 1);
      StepKeepsWellFormed(ws[k - 1], ops[k - 1]);
    }
  }

  lemma {:induction false} RunStep(ws: seq<World>, ops: seq<Op>, k: nat)
    requires IsRun(ws, ops) && k < |ops|
    ensures WellFormed(ws[k].space) && Requested(ws[k], ops[k]) && ws[k + 1] == Step(ws[k], ops[k])
    decreases k, 1
  {
    RunIsWellFormed(ws, ops, k);
    var op := ops[k];
  }

  ghost predicate NeverOverwrites(ws: seq<World>, ops: seq<Op>, n: nat)
    requires |ws| == |ops| + 1 && n <= |ops|
  {
    forall k :: 0 <= k < n ==> !Overwrites(ws[k], ops[k])
  }

  lemma {:induction false} SafeUpTo(ws: seq<World>, ops: seq<Op>, k: nat)
    requires IsRun(ws, ops) && Safe(ws[0]) && k < |ws| && NeverOverwrites(ws, ops, k)
    ensures Safe(ws[k])
  {
    if k > 0 {
      SafeUpTo(ws, ops, k - 1);
      RunStep(ws, ops, k - 1);
      StepIsSafe(ws[k - 1], ops[k - 1]);
    }
  }

  // Every state of a run from a safe one is safe, with its live blocks mapped and disjoint in both spaces, if and
  // only if no allocation of the run overwrites a live block. No pool bounds the spaces here.
  lemma RunIsSafe(ws: seq<World>, ops: seq<Op>)
    requires IsRun(ws, ops) && Safe(ws[0])
    ensures (forall k :: 0 <= k < |ws| ==> Safe(ws[k])) <==> NeverOverwrites(ws, ops, |ops|)
  {
    if NeverOverwrites(ws, ops, |ops|) {
      forall k | 0 <= k < |ws| ensures Safe(ws[k]) {
        SafeUpTo(ws, ops, k);
      }
    } else {
      var k :| 0 <= k < |ops| && Overwrites(ws[k], ops[k]);
      if Safe(ws[k]) {
        RunStep(ws, ops, k);
        StepIsSafe(ws[k], ops[k]);
      }
    }
  }

  // The calls themselves keep every non-Free virtual address translated: only Used pages are released.
  lemma StepKeepsBacked(w: World, op: Op)
    requires Safe(w) && Backed(w.space) && Requested(w, op)
    ensures Backed(Step(w, op).space)
  {
    match op
    case Alloc(size, level, pageFlags) =>
      AllocKeepsBacked(w.space, size, level, pageFlags);
    case Release(i) =>
      ReleaseKeepsBacked(w, i);
    case Protect(i, offset, size, protection, pageFlags, level) =>
      var va := w.live[i].va + offset;
      MapPagesKeepsBacked(w.space, va, Translate(w.space.entries, va), size, protection == ReadWrite, level, Used,
                          pageFlags);
  }

  lemma AllocKeepsBacked(s: Space, size: nat, level: PrivilegeLevel, pageFlags: nat)
    requires WellFormed(s) && Backed(s) && size > 0 && Aligned(size)
    ensures Backed(VirtualAlloc(s, size, level, pageFlags).0)
  {
    if PhysicalFit(s, size) != 0 {
      AllocRequest(s, size);
      MapPagesKeepsBacked(s, VirtualFit(s, size), PhysicalFit(s, size), size, true, level, Used, pageFlags);
    }
  }

  lemma ReleaseKeepsBacked(w: World, i: nat)
    requires Safe(w) && Backed(w.space) && Requested(w, Release(i))
    ensures Backed(Step(w, Release(i)).space)
  {
    var b := w.live[i];
    LiveIsMappable(w.space, b);
    MapPagesKeepsBacked(w.space, b.va, b.pa, b.size, false, Kernel, Free, PAGE_FLAGS_NONE);
  }

  // Without pools to bound the page tables an overwriting allocation is possible: all of virtual space but page 0
  // is taken, and two pages of physical memory are left.
  lemma OverwriteWithoutPools(level: PrivilegeLevel, pageFlags: nat) returns (w: World)
    ensures Safe(w) && Requested(w, Alloc(8192, level, pageFlags)) && Overwrites(w, Alloc(8192, level, pageFlags))
  {
    var word := PageEntry(4096, true, false, PAGE_FLAGS_NONE);
    PageEntryFields(4096, true, false, PAGE_FLAGS_NONE);
    var entries: seq<Word> := seq(PAGES, n => if n == 0 then 0 else word);
    var taken := Fork(4096, Leaf(Reserved), Fork(8192, Leaf(Used), Leaf(Free)));
    var s := Space(taken, Fork(4096, Leaf(Free), Leaf(Used)), 16384, entries);
    w := World(s, [Block(4096, 4096, 4096)]);
    var runs := Runs(s.phys, 0, 16384);
    assert runs == [Run(0, 4096, Reserved), Run(4096, 8192, Used), Run(8192, 16384, Free)];
    assert runs[1..][1..] == [Run(8192, 16384, Free)];
    assert FirstFit(runs, 8192) == FirstFit(runs[1..], 8192) == FirstFit(runs[1..][1..], 8192) == 8192;
    var virts := Runs(s.virt, 0, PAGE_MASK);
    assert virts == [Run(0, 4096, Free), Run(4096, PAGE_MASK, Used)];
    assert virts[1..] == [Run(4096, PAGE_MASK, Used)] && virts[1..][1..] == [];
    assert FirstFit(virts, 8192) == FirstFit(virts[1..], 8192) == 0;
    forall v | 0 <= v < PAGE_MASK
      ensures Translate(entries, v) == if v < 4096 then INVALID_ADDRESS else 4096 + v % 4096
    {
      assert v / 4096 % PAGES == v / 4096;
    }
    assert PhysicalFit(s, 8192) == 8192 && VirtualFit(s, 8192) == 0;
    forall a | 4096 <= a < 8192
      ensures StateAt(s.virt, a) == Used && Translate(s.entries, a) == 4096 + (a - 4096)
      ensures StateAt(s.phys, a) == Used
    {
      assert a % 4096 == a - 4096;
      assert StateAt(s.phys.right, a) == Used;
    }
    assert WellFormed(s);
    assert Coupled(s);
    assert Live(s, w.live[0]);
    assert w.live[0].va < 8192;
  }

  // -------------------------------------------------------------------------
  // Reserved pages over whole runs, safe or not

  ghost predicate ReservedIn(t: Tree, end: nat, a: nat) {
    a < end && StateAt(t, a) == Reserved
  }

  // The same pages are Reserved in both spaces, physical and virtual.
  ghost predicate SameReserved(s: Space, t: Space) {
    && t.physEnd == s.physEnd
    && (forall a :: ReservedIn(t.phys, s.physEnd, a) <==> ReservedIn(s.phys, s.physEnd, a))
    && (forall a :: ReservedIn(t.virt, PAGE_MASK, a) <==> ReservedIn(s.virt, PAGE_MASK, a))
  }

  lemma RequestKeepsReserved(s: Space, va: nat, pa: nat, size: nat, writable: bool, level: PrivilegeLevel,
                             newState: RangeState, pageFlags: nat)
    requires WellFormed(s) && MapRequest(s, va, pa, size, newState) && newState != Reserved
    ensures SameReserved(s, MapPages(s, va, pa, size, writable, level, newState, pageFlags))
  {
    var s' := MapPages(s, va, pa, size, writable, level, newState, pageFlags);
    forall a
      ensures ReservedIn(s'.phys, s.physEnd, a) <==> ReservedIn(s.phys, s.physEnd, a)
      ensures ReservedIn(s'.virt, PAGE_MASK, a) <==> ReservedIn(s.virt, PAGE_MASK, a)
    {
      if a >= 0 {
        MapPagesTags(s, va, pa, size, writable, level, newState, pageFlags, a);
      }
    }
  }

  lemma StepKeepsReserved(w: World, op: Op)
    requires WellFormed(w.space) && Requested(w, op)
    ensures SameReserved(w.space, Step(w, op).space)
  {
    var s := w.space;
    match op
    case Alloc(size, level, pageFlags) =>
      if PhysicalFit(s, size) != 0 {
        AllocRequest(s, size);
        RequestKeepsReserved(s, VirtualFit(s, size), PhysicalFit(s, size), size, true, level, Used, pageFlags);
      }
    case Release(i) =>
      var b := w.live[i];
      RequestKeepsReserved(s, b.va, Translate(s.entries, b.va), b.size, false, Kernel, Free, PAGE_FLAGS_NONE);
    case Protect(i, offset, size, protection, pageFlags, level) =>
      var va := w.live[i].va + offset;
      RequestKeepsReserved(s, va, Translate(s.entries, va), size, protection == ReadWrite, level, Used, pageFlags);
  }

  // No address of the block, physical or virtual, is Reserved.
  ghost predicate Clear(s: Space, b: Block) {
    && (forall a :: b.pa <= a < b.pa + b.size ==> !ReservedIn(s.phys, s.physEnd, a))
    && (forall a :: b.va <= a < b.va + b.size ==> !ReservedIn(s.virt, PAGE_MASK, a))
  }

  ghost predicate AllClear(w: World) {
    forall i :: 0 <= i < |w.live| ==> Clear(w.space, w.live[i])
  }

  lemma StepStaysClear(w: World, op: Op)
    requires WellFormed(w.space) && Requested(w, op) && AllClear(w)
    ensures AllClear(Step(w, op))
  {
    var s, s', live' := w.space, Step(w, op).space, Step(w, op).live;
    StepKeepsReserved(w, op);
    if op.Alloc? {
      FitIsFree(s.phys, 0, s.physEnd, op.size);
      FitIsFree(s.virt, 0, PAGE_MASK, op.size);
    }
    forall i | 0 <= i < |live'| ensures Clear(s', live'[i]) {
      if live'[i] in w.live {
        var j :| 0 <= j < |w.live| && w.live[j] == live'[i];
        assert Clear(s, w.live[j]);
      }
    }
  }

  // What is Reserved never changes, and no block, live or recorded, ever holds a Reserved page.
  lemma {:induction false} RunKeepsReserved(ws: seq<World>, ops: seq<Op>, k: nat)
    requires IsRun(ws, ops) && AllClear(ws[0]) && k < |ws|
    ensures SameReserved(ws[0].space, ws[k].space) && AllClear(ws[k])
  {
    if k > 0 {
      RunKeepsReserved(ws, ops, k - 1);
      RunStep(ws, ops, k - 1);
      StepKeepsReserved(ws[k - 1], ops[k - 1]);
      StepStaysClear(ws[k - 1], ops[k - 1]);
    }
  }

  // A physical page that is Reserved at any time of a run is so at all times, and in no block at any time.
  lemma ReservedNeverAllocated(ws: seq<World>, ops: seq<Op>, j: nat, k: nat, a: nat)
    requires IsRun(ws, ops) && Safe(ws[0]) && j < |ws| && k < |ws|
    requires ReservedIn(ws[j].space.phys, ws[j].space.physEnd, a)
    ensures ReservedIn(ws[k].space.phys, ws[k].space.physEnd, a)
    ensures forall b :: b in ws[k].live ==> !(b.pa <= a < b.pa + b.size)
  {
    SafeIsClear(ws[0]);
    RunKeepsReserved(ws, ops, j);
    RunKeepsReserved(ws, ops, k);
  }

  // The same for virtual pages.
  lemma ReservedNeverMapped(ws: seq<World>, ops: seq<Op>, j: nat, k: nat, a: nat)
    requires IsRun(ws, ops) && Safe(ws[0]) && j < |ws| && k < |ws|
    requires ReservedIn(ws[j].space.virt, PAGE_MASK, a)
    ensures ReservedIn(ws[k].space.virt, PAGE_MASK, a)
    ensures forall b :: b in ws[k].live ==> !(b.va <= a < b.va + b.size)
  {
    SafeIsClear(ws[0]);
    RunKeepsReserved(ws, ops, j);
    RunKeepsReserved(ws, ops, k);
  }

  lemma SafeIsClear(w: World)
    requires Safe(w)
    ensures AllClear(w)
  {
    forall i | 0 <= i < |w.live| ensures Clear(w.space, w.live[i]) {
      assert Live(w.space, w.live[i]);
    }
  }

  // No two bytes of live blocks share a physical byte.
  lemma FramesNotShared(w: World, i: nat, j: nat, u: Word, v: Word)
    requires Safe(w) && i < |w.live| && j < |w.live|
    requires w.live[i].va <= u < w.live[i].va + w.live[i].size
    requires w.live[j].va <= v < w.live[j].va + w.live[j].size
    requires u != v
    ensures Translate(w.space.entries, u) != INVALID_ADDRESS
    ensures Translate(w.space.entries, u) != Translate(w.space.entries, v)
  {
    assert StateAt(w.space.virt, u) == Used && StateAt(w.space.virt, v) == Used;
    if i < j { assert Disjoint(w.live[i], w.live[j]); }
    if j < i { assert Disjoint(w.live[j], w.live[i]); }
  }
}
