/**
 What the initial pools of nodes and page tables rule out. They bound how much of virtual space can be taken and how
 finely the rest can be divided, so a request they can serve always finds a virtual fit once something is mapped.
 */
module PoolBounds {
  import opened Basics
  import opened Pages
  import opened RangeTree
  import opened Paging
  import opened PageTableStore
  import opened AddressSpace

  // One leaf from the branch pool and all of the leaf pool.
  const MAX_LEAVES: nat := 4097

  // More than all pool tables can map, in bytes.
  const MAX_REQUEST: nat := 2 * ROWS * 512 * 4096

  // The size of the lower half of the canonical addresses.
  const LOWER_HALF: nat := 0x8000_0000_0000

  // -------------------------------------------------------------------------
  // Counting

  // {0, ..., n - 1}
  ghost function Below(n: nat): (s: set<int>)
    ensures |s| == n && forall x :: x in s <==> 0 <= x < n
  {
    if n == 0 then {} else Below(n - 1) + {n - 1}
  }

  ghost predicate Injective<T>(s: set<T>, f: T -> int) {
    forall x, y {:trigger f(x), f(y)} :: x in s && y in s && f(x) == f(y) ==> x == y
  }

  // What fits one to one into n places has at most n elements.
  lemma {:induction false} AtMost<T>(s: set<T>, f: T -> int, n: nat)
    requires Injective(s, f) && forall x :: x in s ==> 0 <= f(x) < n
    ensures |s| <= n
    decreases n
  {
    if n == 0 {
      assert s == {};
    } else {
      var rest := set x | x in s && f(x) != n - 1;
      AtMost(rest, f, n - 1);
      if x :| x in s && f(x) == n - 1 {
        assert s == rest + {x};
      } else {
        assert s == rest;
      }
    }
  }

  // -------------------------------------------------------------------------
  // Page tables

  datatype Tables = Tables(words: seq<Word>, base: nat, owner: seq<Owner>, head: Word, free: seq<nat>)

  ghost predicate Hold(t: Tables, entries: seq<Word>) {
    Consistent(t.words, t.base, t.owner, t.head, t.free, entries)
  }

  lemma FreeAtMost(t: Tables, entries: seq<Word>)
    requires Hold(t, entries)
    ensures |t.free| <= ROWS
  {
    AtMost(Below(|t.free|), i => if 0 <= i < |t.free| then t.free[i] else 0, ROWS);
  }

  // A request at address 0 that the free tables can serve spans no more page tables than there are rows for: each
  // is either linked, in a row of its own, or still to come from the free list.
  lemma RequestAtMost(t: Tables, entries: seq<Word>, count: nat)
    requires Hold(t, entries) && 0 < count <= PAGES && |t.free| >= NeededTables(t.words, t.base, 0, count)
    ensures 4096 * count <= MAX_REQUEST
  {
    var last := (count - 1) / 512;
    var missing := MissingPts(t.words, t.base, 0, count);
    var linked := Below(last + 1) - missing;
    FreeAtMost(t, entries);
    LinkedAtMost(t, entries, linked, last);
    Subset(Below(last + 1), missing + linked);
    assert |missing + linked| <= |missing| + |linked|;
  }

  lemma LinkedAtMost(t: Tables, entries: seq<Word>, linked: set<int>, last: nat)
    requires Hold(t, entries) && last < 0x800_0000
    requires forall k :: k in linked ==> 0 <= k <= last && Pt(t.words, t.base, k) != -1
    ensures |linked| <= ROWS
  {
    RowsNamed(t.words, t.base, t.owner);
    AtMost(linked, k => Pt(t.words, t.base, k), ROWS);
  }

  // The word of the pool that holds the leaf entry of an address, and the byte within the page.
  ghost function PoolByte(t: Tables, a: int): int {
    (Pt(t.words, t.base, a / 4096 / 512) * 512 + a / 4096 % 512) * 4096 + a % 4096
  }

  lemma TranslatedIsLinked(t: Tables, entries: seq<Word>, a: nat)
    requires Hold(t, entries) && a < PAGE_MASK && Translate(entries, a) != INVALID_ADDRESS
    ensures var k := a / 4096 / 512;
            k < 0x800_0000 && 1 <= Pt(t.words, t.base, k) < ROWS && t.owner[Pt(t.words, t.base, k)] == PtOf(k)
  {
    var vpn := a / 4096;
    assert vpn % PAGES == vpn;
    assert Present(Entry(t.words, t.base, vpn));
    NoLargePage(t.words, t.base, t.owner, vpn);
    RowsNamed(t.words, t.base, t.owner);
  }

  lemma PoolByteDigits(row: int, index: int, byte: int, row': int, index': int, byte': int)
    requires 0 <= index < 512 && 0 <= index' < 512 && 0 <= byte < 4096 && 0 <= byte' < 4096
    requires (row * 512 + index) * 4096 + byte == (row' * 512 + index') * 4096 + byte'
    ensures row == row' && index == index' && byte == byte'
  {
  }

  // At most one address is translated for each byte that the pool's leaf entries can map.
  lemma TranslatedAtMost(t: Tables, entries: seq<Word>, taken: set<int>)
    requires Hold(t, entries)
    requires forall a :: a in taken ==> 0 <= a < PAGE_MASK && Translate(entries, a) != INVALID_ADDRESS
    ensures |taken| <= ROWS * 512 * 4096
  {
    forall a | a in taken ensures 0 <= PoolByte(t, a) < ROWS * 512 * 4096 {
      TranslatedIsLinked(t, entries, a);
    }
    forall a, b | a in taken && b in taken && PoolByte(t, a) == PoolByte(t, b) ensures a == b {
      TranslatedIsLinked(t, entries, a);
      TranslatedIsLinked(t, entries, b);
      PoolByteDigits(Pt(t.words, t.base, a / 4096 / 512), a / 4096 % 512, a % 4096,
                     Pt(t.words, t.base, b / 4096 / 512), b / 4096 % 512, b % 4096);
    }
    AtMost(taken, a => PoolByte(t, a), ROWS * 512 * 4096);
  }

  // -------------------------------------------------------------------------
  // Free space

  // Every Free leaf, but for one that starts at 0, has at most MAX_REQUEST bytes.
  ghost predicate SmallRuns(t: Tree, lo: nat, hi: nat, first: nat) {
    forall run :: run in Runs(t, lo, hi) && run.state == Free ==>
      if run.lo == 0 then run.hi <= first else run.hi - run.lo <= MAX_REQUEST
  }

  lemma {:induction false} RemainingAtMost(t: Tree, lo: nat, hi: nat, first: nat)
    requires Spans(t, lo, hi) && SmallRuns(t, lo, hi, first)
    ensures RemainingFree(t, lo, hi) <= Leaves(t) * MAX_REQUEST + if lo == 0 then first else 0
  {
    match t
    case Leaf(s) => assert Run(lo, hi, s) in Runs(t, lo, hi);
    case Fork(mid, l, r) =>
      SpansOrder(l, lo, mid);
      assert SmallRuns(l, lo, mid, first) && SmallRuns(r, mid, hi, first);
      RemainingAtMost(l, lo, mid, first);
      RemainingAtMost(r, mid, hi, first);
  }

  lemma FreeAndTaken(t: Tree, hi: nat, taken: set<int>)
    requires Spans(t, 0, hi) && taken == (set a: int | 0 <= a < hi && StateAt(t, a) != Free)
    ensures RemainingFree(t, 0, hi) + |taken| == hi
  {
    RemainingCountsFree(t, 0, hi);
    var free: set<int> := FreeAddresses(t, 0, hi);
    assert Below(hi) == free + taken && free !! taken;
  }

  // -------------------------------------------------------------------------
  // No request within the pools lacks a virtual fit

  ghost predicate Serve(t: Tables, entries: seq<Word>, va: nat, size: nat) {
    Hold(t, entries) && |t.free| >= NeededTables(t.words, t.base, va / 4096, va / 4096 + size / 4096)
  }

  // The node pool bounds the leaves, and some consistent tables have enough free pages for the allocation.
  ghost predicate WithinPools(s: Space, size: nat) {
    Leaves(s.virt) <= MAX_LEAVES && exists t :: Serve(t, s.entries, VirtualFit(s, size), size)
  }

  // Without a virtual fit the Free leaves are small, but for the one that starts at 0.
  lemma UnfitRunsAreSmall(s: Space, size: nat, x: nat)
    requires WellFormed(s) && size <= MAX_REQUEST && NoVirtualFit(s, size)
    requires x < LOWER_HALF && StateAt(s.virt, x) != Free
    ensures SmallRuns(s.virt, 0, PAGE_MASK, LOWER_HALF)
  {
    NoVirtualFitMeans(s, size);
    forall run | run in Runs(s.virt, 0, PAGE_MASK) && run.state == Free
      ensures if run.lo == 0 then run.hi <= LOWER_HALF else run.hi - run.lo <= MAX_REQUEST
    {
      if run.lo == 0 && x < run.hi {
        RunGivesState(s.virt, 0, PAGE_MASK, run, x);
      } else if run.lo != 0 {
        assert !FreeRun(run, size);
      }
    }
  }

  // So little of it is Free.
  lemma UnfitLeavesLittle(s: Space, size: nat, x: nat)
    requires WellFormed(s) && size <= MAX_REQUEST && NoVirtualFit(s, size) && Leaves(s.virt) <= MAX_LEAVES
    requires x < LOWER_HALF && StateAt(s.virt, x) != Free
    ensures RemainingFree(s.virt, 0, PAGE_MASK) + ROWS * 512 * 4096 < PAGE_MASK
  {
    UnfitRunsAreSmall(s, size, x);
    RemainingAtMost(s.virt, 0, PAGE_MASK, LOWER_HALF);
    LittleIsLittle(Leaves(s.virt), RemainingFree(s.virt, 0, PAGE_MASK));
  }

  lemma LittleIsLittle(leaves: nat, remaining: nat)
    requires leaves <= MAX_LEAVES && remaining <= leaves * MAX_REQUEST + LOWER_HALF
    ensures remaining + ROWS * 512 * 4096 < PAGE_MASK
  {
  }

  // A request within the pools has a virtual fit once any address of the lower half is taken.
  lemma FitWithinPools(s: Space, size: nat, x: nat)
    requires WellFormed(s) && Backed(s) && size > 0 && Aligned(size)
    requires PhysicalFit(s, size) != 0 ==> WithinPools(s, size)
    requires x < LOWER_HALF && StateAt(s.virt, x) != Free
    ensures !NoVirtualFit(s, size)
  {
    if NoVirtualFit(s, size) {
      var t :| Serve(t, s.entries, VirtualFit(s, size), size);
      SizeWithinPools(s, size, t);
      TakenIsBounded(s, t);
      UnfitLeavesLittle(s, size, x);
      assert false;
    }
  }

  // Nearly all of virtual space is Free: the pool's leaf entries cannot map more than a sliver of it.
  lemma TakenIsBounded(s: Space, t: Tables)
    requires WellFormed(s) && Backed(s) && Hold(t, s.entries)
    ensures RemainingFree(s.virt, 0, PAGE_MASK) + ROWS * 512 * 4096 >= PAGE_MASK
  {
    var taken := set a: int | 0 <= a < PAGE_MASK && StateAt(s.virt, a) != Free;
    FreeAndTaken(s.virt, PAGE_MASK, taken);
    forall a | a in taken ensures Translate(s.entries, a) != INVALID_ADDRESS {
      assert BackedAt(s, a);
    }
    TranslatedAtMost(t, s.entries, taken);
  }

  lemma SizeWithinPools(s: Space, size: nat, t: Tables)
    requires WellFormed(s) && size > 0 && Aligned(size) && NoVirtualFit(s, size)
    requires Serve(t, s.entries, VirtualFit(s, size), size)
    ensures size <= MAX_REQUEST
  {
    AllocRequest(s, size);
    RequestFits(0, size);
    RequestAtMost(t, s.entries, size / 4096);
  }

  // Once any address of the lower half is taken, a failed allocation changes nothing.
  lemma FailedAllocWithinPools(s: Space, size: nat, level: PrivilegeLevel, pageFlags: nat, x: nat)
    requires WellFormed(s) && Backed(s) && size > 0 && Aligned(size)
    requires PhysicalFit(s, size) != 0 ==> WithinPools(s, size)
    requires x < LOWER_HALF && StateAt(s.virt, x) != Free
    ensures var (s', r) := VirtualAlloc(s, size, level, pageFlags); r == 0 ==> s' == s
  {
    FitWithinPools(s, size, x);
    FailedAllocChangesNothing(s, size, level, pageFlags);
  }

  // -------------------------------------------------------------------------
  // Runs within the pools

  ghost predicate PoolsServe(w: World, op: Op) {
    op.Alloc? && PhysicalFit(w.space, op.size) != 0 ==> WithinPools(w.space, op.size)
  }

  // No allocation within the pools overwrites a live block.
  lemma NeverOverwritesWithinPools(w: World, op: Op)
    requires Safe(w) && Backed(w.space) && Requested(w, op) && PoolsServe(w, op)
    ensures !Overwrites(w, op)
  {
    if Overwrites(w, op) {
      var i :| 0 <= i < |w.live| && w.live[i].va < op.size;
      var t :| Serve(t, w.space.entries, VirtualFit(w.space, op.size), op.size);
      SizeWithinPools(w.space, op.size, t);
      assert Live(w.space, w.live[i]) && StateAt(w.space.virt, w.live[i].va) == Used;
      FitWithinPools(w.space, op.size, w.live[i].va);
    }
  }

  // Every step within the pools keeps the world safe.
  lemma StepWithinPools(w: World, op: Op)
    requires Safe(w) && Backed(w.space) && Requested(w, op) && PoolsServe(w, op)
    ensures Safe(Step(w, op)) && Backed(Step(w, op).space)
  {
    NeverOverwritesWithinPools(w, op);
    StepIsSafe(w, op);
    StepKeepsBacked(w, op);
  }

  lemma StepOfRun(ws: seq<World>, ops: seq<Op>, k: nat)
    requires IsRun(ws, ops) && k < |ops| && Safe(ws[k]) && Backed(ws[k].space) && PoolsServe(ws[k], ops[k])
    ensures Safe(ws[k + 1]) && Backed(ws[k + 1].space)
  {
    RunStep(ws, ops, k);
    StepWithinPools(ws[k], ops[k]);
  }

  // Every state of every run within the pools is safe: live blocks stay mapped as they were handed out, and
  // disjoint in both spaces.
  lemma {:induction false} EveryRunIsSafe(ws: seq<World>, ops: seq<Op>, k: nat)
    requires IsRun(ws, ops) && Safe(ws[0]) && Backed(ws[0].space) && k < |ws|
    requires forall i {:trigger ops[i]} :: 0 <= i < |ops| ==> PoolsServe(ws[i], ops[i])
    ensures Safe(ws[k]) && Backed(ws[k].space)
  {
    if k > 0 {
      EveryRunIsSafe(ws, ops, k - 1);
      StepOfRun(ws, ops, k - 1);
    }
  }
}
