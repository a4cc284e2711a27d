/**
 What each call of the allocator does, in full and for every state: which request it makes of MapPages, and the whole
 effect of that request on both maps, on every translation and on every leaf entry.
 */
module Calls {
  import opened Pages
  import opened RangeTree
  import opened Paging
  import opened PageTableStore
  import opened AddressSpace

  // -------------------------------------------------------------------------
  // The effect of one request

  // Only [start, start + size) takes the new state, and only where the map is not Reserved.
  ghost predicate Recoloured(t: Tree, t': Tree, end: nat, start: nat, size: nat, newState: RangeState) {
    forall a: nat :: a < end ==>
      StateAt(t', a) == if start <= a < start + size && StateAt(t, a) != Reserved then newState else StateAt(t, a)
  }

  // Only addresses of the virtual range change their translation: to the physical range, byte by byte, or to none.
  ghost predicate Retranslated(s: Space, s': Space, va: nat, pa: nat, size: nat, newState: RangeState)
    requires |s.entries| == |s'.entries| == PAGES
  {
    forall v: Word ::
      Translate(s'.entries, v)
      == if !(va <= Low48(v) < va + size) then Translate(s.entries, v)
         else if newState == Free then INVALID_ADDRESS
         else pa + (Low48(v) - va)
  }

  // The entries of the virtual range carry exactly the requested permissions, after a release the frame alone; no
  // other entry changes.
  ghost predicate Permitted(s: Space, s': Space, va: nat, pa: nat, size: nat, newState: RangeState, writable: bool,
                            level: PrivilegeLevel, pageFlags: nat)
    requires |s.entries| == |s'.entries| == PAGES
  {
    forall n: nat :: n < PAGES ==>
      if !(va <= 4096 * n < va + size) then s'.entries[n] == s.entries[n]
      else if newState == Free then s'.entries[n] == pa + (4096 * n - va)
      else Protected(s.entries[n], s'.entries[n], writable, level, pageFlags)
  }

  ghost predicate Remaps(s: Space, s': Space, va: nat, pa: nat, size: nat, newState: RangeState, writable: bool,
                         level: PrivilegeLevel, pageFlags: nat)
  {
    && s'.physEnd == s.physEnd && |s.entries| == |s'.entries| == PAGES
    && Recoloured(s.phys, s'.phys, s.physEnd, pa, size, newState)
    && Recoloured(s.virt, s'.virt, PAGE_MASK, va, size, newState)
    && Retranslated(s, s', va, pa, size, newState)
    && Permitted(s, s', va, pa, size, newState, writable, level, pageFlags)
  }

  lemma MapPagesRemaps(s: Space, va: nat, pa: nat, size: nat, writable: bool, level: PrivilegeLevel,
                       newState: RangeState, pageFlags: nat)
    requires WellFormed(s) && MapRequest(s, va, pa, size, newState)
    ensures Remaps(s, MapPages(s, va, pa, size, writable, level, newState, pageFlags), va, pa, size, newState,
                   writable, level, pageFlags)
  {
    var s' := MapPages(s, va, pa, size, writable, level, newState, pageFlags);
    forall a: nat | a < s.physEnd
      ensures StateAt(s'.phys, a) == if pa <= a < pa + size && StateAt(s.phys, a) != Reserved then newState
                                     else StateAt(s.phys, a)
    {
      MapPagesTags(s, va, pa, size, writable, level, newState, pageFlags, a);
    }
    forall a: nat | a < PAGE_MASK
      ensures StateAt(s'.virt, a) == if va <= a < va + size && StateAt(s.virt, a) != Reserved then newState
                                     else StateAt(s.virt, a)
    {
      MapPagesTags(s, va, pa, size, writable, level, newState, pageFlags, a);
    }
    MapPagesRetranslates(s, va, pa, size, writable, level, newState, pageFlags);
    MapPagesPermits(s, va, pa, size, writable, level, newState, pageFlags);
  }

  lemma MapPagesRetranslates(s: Space, va: nat, pa: nat, size: nat, writable: bool, level: PrivilegeLevel,
                             newState: RangeState, pageFlags: nat)
    requires WellFormed(s) && MapRequest(s, va, pa, size, newState)
    ensures Retranslated(s, MapPages(s, va, pa, size, writable, level, newState, pageFlags), va, pa, size, newState)
  {
    var s' := MapPages(s, va, pa, size, writable, level, newState, pageFlags);
    forall v: Word
      ensures Translate(s'.entries, v)
           == if !(va <= Low48(v) < va + size) then Translate(s.entries, v)
              else if newState == Free then INVALID_ADDRESS
              else pa + (Low48(v) - va)
    {
      MapPagesTranslates(s, va, pa, size, writable, level, newState, pageFlags, v);
    }
  }

  lemma MapPagesPermits(s: Space, va: nat, pa: nat, size: nat, writable: bool, level: PrivilegeLevel,
                        newState: RangeState, pageFlags: nat)
    requires WellFormed(s) && MapRequest(s, va, pa, size, newState)
    ensures Permitted(s, MapPages(s, va, pa, size, writable, level, newState, pageFlags), va, pa, size, newState,
                      writable, level, pageFlags)
  {
    var s' := MapPages(s, va, pa, size, writable, level, newState, pageFlags);
    RequestFits(va, size);
    forall n: nat | n < PAGES
      ensures if !(va <= 4096 * n < va + size) then s'.entries[n] == s.entries[n]
              else if newState == Free then s'.entries[n] == pa + (4096 * n - va)
              else Protected(s.entries[n], s'.entries[n], writable, level, pageFlags)
    {
      if newState != Free {
        MapPagesProtects(s, va, pa, size, writable, level, newState, pageFlags, n);
      }
    }
  }

  // -------------------------------------------------------------------------
  // The calls

  // Some Free leaf of at least n bytes does not start at 0.
  ghost predicate HasFit(t: Tree, end: nat, n: nat) {
    exists run :: run in Runs(t, 0, end) && FreeRun(run, n) && run.lo != 0
  }

  // The lowest such start.
  ghost predicate IsLowestFit(t: Tree, end: nat, n: nat, start: nat) {
    && (exists run :: run in Runs(t, 0, end) && FreeRun(run, n) && run.lo == start != 0)
    && (forall run :: run in Runs(t, 0, end) && FreeRun(run, n) && run.lo != 0 ==> start <= run.lo)
  }

  lemma SearchIsExact(t: Tree, end: nat, n: nat)
    requires Spans(t, 0, end)
    ensures var r := FirstFit(Runs(t, 0, end), n);
            (r != 0 <==> HasFit(t, end, n)) && (r != 0 ==> IsLowestFit(t, end, n, r))
  {
    FitIsLowest(t, 0, end, n);
  }

  // An allocation: it succeeds exactly when both spaces have a fit, and then maps the lowest virtual fit to the lowest
  // physical one. Without a physical fit nothing changes; when only virtual space has none, the addresses from 0 are
  // mapped and the result is 0.
  ghost predicate Allocated(s: Space, s': Space, result: nat, size: nat, level: PrivilegeLevel, pageFlags: nat) {
    && result < PAGE_MASK && |s'.entries| == PAGES
    && (result != 0 <==> HasFit(s.phys, s.physEnd, size) && HasFit(s.virt, PAGE_MASK, size))
    && (result != 0 ==> IsLowestFit(s.virt, PAGE_MASK, size, result))
    && if !HasFit(s.phys, s.physEnd, size) then s' == s
       else
         var pa := Translate(s'.entries, result);
         && IsLowestFit(s.phys, s.physEnd, size, pa)
         && Remaps(s, s', result, pa, size, Used, true, level, pageFlags)
  }

  lemma AllocExact(s: Space, size: nat, level: PrivilegeLevel, pageFlags: nat)
    requires WellFormed(s) && size > 0 && Aligned(size)
    ensures var (s', result) := VirtualAlloc(s, size, level, pageFlags);
            Allocated(s, s', result, size, level, pageFlags)
  {
    var pa, va := PhysicalFit(s, size), VirtualFit(s, size);
    SearchIsExact(s.phys, s.physEnd, size);
    SearchIsExact(s.virt, PAGE_MASK, size);
    if pa != 0 {
      AllocRequest(s, size);
      MapPagesRemaps(s, va, pa, size, true, level, Used, pageFlags);
      SmallAddress(va);
    }
  }

  // A release, of any range that starts on a mapped page: the virtual range loses its translation, and both ranges
  // become Free except where Reserved. The physical range is the one that starts where the first page was mapped.
  ghost predicate Freed(s: Space, s': Space, va: Word, size: nat) {
    |s.entries| == PAGES
    && Remaps(s, s', va, Translate(s.entries, va), size, Free, false, Kernel, PAGE_FLAGS_NONE)
  }

  lemma FreeExact(s: Space, va: nat, size: nat)
    requires WellFormed(s) && Mappable(s, va, size)
    ensures Freed(s, VirtualFree(s, va, size), va, size)
  {
    MapPagesRemaps(s, va, Translate(s.entries, va), size, false, Kernel, Free, PAGE_FLAGS_NONE);
  }

  // A protection, of any such range, contiguous or not: the range is mapped again, writable or not, to the physical
  // range that starts where the first page was mapped, and both ranges become Used except where Reserved.
  ghost predicate Reprotected(s: Space, s': Space, va: Word, size: nat, protection: MemoryProtection, pageFlags: nat,
                              level: PrivilegeLevel)
  {
    |s.entries| == PAGES
    && Remaps(s, s', va, Translate(s.entries, va), size, Used, protection == ReadWrite, level, pageFlags)
  }

  lemma ProtectExact(s: Space, va: nat, size: nat, protection: MemoryProtection, pageFlags: nat, level: PrivilegeLevel)
    requires WellFormed(s) && Mappable(s, va, size)
    ensures Reprotected(s, VirtualProtect(s, va, size, protection, pageFlags, level), va, size, protection, pageFlags,
                        level)
  {
    MapPagesRemaps(s, va, Translate(s.entries, va), size, protection == ReadWrite, level, Used, pageFlags);
  }

  // The mapping of a given physical range, whatever its state: writable, with the level and caching asked for, at the
  // lowest virtual fit, or at 0 when there is none.
  ghost predicate PhysicallyAllocated(s: Space, s': Space, result: nat, pa: nat, size: nat, level: PrivilegeLevel,
                                      pageFlags: nat)
  {
    && (result != 0 <==> HasFit(s.virt, PAGE_MASK, size))
    && (result != 0 ==> IsLowestFit(s.virt, PAGE_MASK, size, result))
    && Remaps(s, s', result, pa, size, Used, true, level, pageFlags)
  }

  lemma PhysicalAllocExact(s: Space, pa: nat, size: nat, level: PrivilegeLevel, pageFlags: nat)
    requires WellFormed(s) && size > 0 && Aligned(size) && Aligned(pa) && pa + size <= s.physEnd
    ensures MapRequest(s, VirtualFit(s, size), pa, size, Used)
    ensures var (s', result) := PhysicalAlloc(s, pa, size, level, pageFlags);
            PhysicallyAllocated(s, s', result, pa, size, level, pageFlags)
  {
    SearchIsExact(s.virt, PAGE_MASK, size);
    FitIsFree(s.virt, 0, PAGE_MASK, size);
    MapPagesRemaps(s, VirtualFit(s, size), pa, size, true, level, Used, pageFlags);
  }

  // -------------------------------------------------------------------------
  // The list of a client's blocks

  // A step records exactly what it did: the new block with the address and size that were handed out and the physical
  // address behind it, or the released block gone and all others in place.
  ghost predicate Recorded(live: seq<Block>, live': seq<Block>, op: Op, s': Space, result: nat)
    requires |s'.entries| == PAGES && result < PAGE_MASK
  {
    match op
    case Alloc(size, _, _) =>
      live' == if result == 0 then live else live + [Block(result, Translate(s'.entries, result), size)]
    case Release(i) =>
      && |live'| == |live| - 1
      && forall j :: 0 <= j < |live'| ==> live'[j] == if j < i then live[j] else live[j + 1]
    case Protect(_, _, _, _, _, _) => live' == live
  }

  lemma StepRecords(w: World, op: Op)
    requires WellFormed(w.space) && Requested(w, op)
    ensures var w' := Step(w, op);
            var result := if op.Alloc? then VirtualAlloc(w.space, op.size, op.level, op.pageFlags).1 else 0;
            && |w'.space.entries| == PAGES && result < PAGE_MASK
            && Recorded(w.live, w'.live, op, w'.space, result)
  {
    StepKeepsWellFormed(w, op);
    if op.Alloc? {
      BlockIsRecorded(w.space, op.size, op.level, op.pageFlags);
    }
  }

  lemma BlockIsRecorded(s: Space, size: nat, level: PrivilegeLevel, pageFlags: nat)
    requires WellFormed(s) && size > 0 && Aligned(size)
    ensures var (s', result) := VirtualAlloc(s, size, level, pageFlags);
            && |s'.entries| == PAGES && result < PAGE_MASK
            && (result != 0 ==> Translate(s'.entries, result) == PhysicalFit(s, size))
  {
    AllocExact(s, size, level, pageFlags);
    SearchIsExact(s.phys, s.physEnd, size);
  }
}
