/**
 The gap walk at the end of BuildPML4: every physical address that no firmware descriptor covers is tagged
 Reserved, whatever the order of the descriptors.
 */
module BootMap {
  import opened Basics
  import opened Pages
  import opened RangeTree
  import opened MemoryStates

  datatype Descriptor = Descriptor(physicalStart: nat, numberOfPages: nat) {
    function End(): nat {
      physicalStart + numberOfPages * 4096
    }
  }

  const ALL_ONES: nat := 0xFFFF_FFFF_FFFF_FFFF

  ghost predicate Overlap(d: Descriptor, e: Descriptor) {
    d.physicalStart < e.End() && e.physicalStart < d.End()
  }

  // Disjoint, non-empty, page-aligned descriptors in any order, ending at or below `highest`, which one reaches.
  ghost predicate GoodMap(descs: seq<Descriptor>, highest: nat) {
    && highest <= PAGE_MASK
    && (forall i :: 0 <= i < |descs| ==>
          Aligned(descs[i].physicalStart) && descs[i].numberOfPages > 0 && descs[i].End() <= highest)
    && (forall i, j :: 0 <= i < j < |descs| ==> !Overlap(descs[i], descs[j]))
    && (highest != 0 ==> exists i :: 0 <= i < |descs| && descs[i].End() == highest)
  }

  ghost predicate Covered(descs: seq<Descriptor>, a: nat) {
    exists i :: 0 <= i < |descs| && descs[i].physicalStart <= a < descs[i].End()
  }

  // A descriptor covers its pages and nothing else.
  lemma CoveredPages(descs: seq<Descriptor>, a: nat)
    ensures Covered(descs, a) <==>
              exists i, k :: && 0 <= i < |descs| && 0 <= k < descs[i].numberOfPages
                             && PageAt(descs[i].physicalStart, k) <= a < PageAt(descs[i].physicalStart, k + 1)
  {
    if Covered(descs, a) {
      var i :| 0 <= i < |descs| && descs[i].physicalStart <= a < descs[i].End();
      var k := (a - descs[i].physicalStart) / PAGE_SIZE;
      assert PageAt(descs[i].physicalStart, k) <= a < PageAt(descs[i].physicalStart, k + 1);
    }
  }

  // The start of the k-th page from an address.
  function PageAt(start: nat, k: int): int {
    start + PAGE_SIZE * k
  }

  // The largest end address, as the first loop of BuildPML4 finds it.
  method HighestEnd(descs: seq<Descriptor>) returns (highest: nat)
    ensures forall i :: 0 <= i < |descs| ==> descs[i].End() <= highest
    ensures highest != 0 ==> exists i :: 0 <= i < |descs| && descs[i].End() == highest
  {
    highest := 0;
    for entry := 0 to |descs|
      invariant forall i :: 0 <= i < entry ==> descs[i].End() <= highest
      invariant highest != 0 ==> exists i :: 0 <= i < entry && descs[i].End() == highest
    {
      var end := descs[entry].End();
      if end > highest {
        highest := end;
      }
    }
  }

  method EntryAt(descs: seq<Descriptor>, startP: nat) returns (found: bool, next: nat)
    ensures found <==> exists i :: 0 <= i < |descs| && descs[i].physicalStart == startP
    ensures found ==> exists i :: 0 <= i < |descs| && descs[i].physicalStart == startP && next == descs[i].End()
    ensures !found ==> next == startP
  {
    found, next := false, startP;
    for entry := 0 to |descs|
      invariant !found && next == startP
      invariant forall i :: 0 <= i < entry ==> descs[i].physicalStart != startP
    {
      if startP == descs[entry].physicalStart {
        next := descs[entry].End();
        found := true;
        break;
      }
    }
  }

  method LowestAbove(descs: seq<Descriptor>, startP: nat) returns (lowest: nat)
    requires forall i :: 0 <= i < |descs| ==> descs[i].physicalStart < ALL_ONES
    ensures forall i :: 0 <= i < |descs| && descs[i].physicalStart > startP ==> lowest <= descs[i].physicalStart
    ensures lowest == ALL_ONES
         || exists i :: 0 <= i < |descs| && descs[i].physicalStart == lowest && lowest > startP
  {
    lowest := ALL_ONES;
    for entry := 0 to |descs|
      invariant forall i :: 0 <= i < entry && descs[i].physicalStart > startP ==> lowest <= descs[i].physicalStart
      invariant lowest == ALL_ONES
             || exists i :: 0 <= i < entry && descs[i].physicalStart == lowest && lowest > startP
    {
      if descs[entry].physicalStart > startP && descs[entry].physicalStart < lowest {
        lowest := descs[entry].physicalStart;
      }
    }
  }

  // p is on no descriptor's inside, so the walk may stand there.
  ghost predicate Boundary(descs: seq<Descriptor>, p: nat) {
    forall i :: 0 <= i < |descs| ==> !(descs[i].physicalStart < p < descs[i].End())
  }

  lemma EdgesAreBoundaries(descs: seq<Descriptor>, highest: nat, i: nat)
    requires GoodMap(descs, highest) && i < |descs|
    ensures Boundary(descs, descs[i].physicalStart) && Boundary(descs, descs[i].End())
    ensures Aligned(descs[i].End())
  {
    forall j | 0 <= j < |descs|
      ensures !(descs[j].physicalStart < descs[i].physicalStart < descs[j].End())
      ensures !(descs[j].physicalStart < descs[i].End() < descs[j].End())
    {
      if j < i { assert !Overlap(descs[j], descs[i]); }
      if i < j { assert !Overlap(descs[i], descs[j]); }
    }
  }

  // Below the highest end, a boundary that starts no descriptor has a descriptor above it: the assertion
  // "Unexpected memory map mismatch" is unreachable.
  lemma SomethingAbove(descs: seq<Descriptor>, highest: nat, p: nat)
    requires GoodMap(descs, highest) && Boundary(descs, p) && p < highest
    requires forall i :: 0 <= i < |descs| ==> descs[i].physicalStart != p
    ensures exists i :: 0 <= i < |descs| && descs[i].physicalStart > p
  {
    var i :| 0 <= i < |descs| && descs[i].End() == highest;
  }

  lemma GapIsUncovered(descs: seq<Descriptor>, highest: nat, p: nat, lowest: nat, a: nat)
    requires GoodMap(descs, highest) && Boundary(descs, p) && p <= a < lowest
    requires forall i :: 0 <= i < |descs| ==> descs[i].physicalStart != p
    requires forall i :: 0 <= i < |descs| && descs[i].physicalStart > p ==> lowest <= descs[i].physicalStart
    ensures !Covered(descs, a)
  {
  }

  // Descriptors still ahead of the walk: an upper bound for the gaps to come.
  ghost function Ahead(descs: seq<Descriptor>, p: nat): set<int> {
    set i | 0 <= i < |descs| && descs[i].physicalStart > p
  }

  lemma AheadAtMost(descs: seq<Descriptor>, p: nat)
    ensures |Ahead(descs, p)| <= |descs|
  {
    if descs != [] {
      var last := |descs| - 1;
      AheadAtMost(descs[..last], p);
      assert Ahead(descs, p) <= Ahead(descs[..last], p) + {last};
      Subset(Ahead(descs, p), Ahead(descs[..last], p) + {last});
    }
  }

  // The plain map after the walk.
  function AfterWalk(before: RangeState, covered: bool): RangeState {
    if covered then before else Reserved
  }

  // Below p the walk is done, from p on nothing has changed.
  ghost predicate WalkedTo(descs: seq<Descriptor>, highest: nat, before: Tree, now: Tree, p: nat) {
    forall a :: 0 <= a < highest ==>
      StateAt(now, a) == if a < p then AfterWalk(StateAt(before, a), Covered(descs, a)) else StateAt(before, a)
  }

  lemma GapTagged(descs: seq<Descriptor>, highest: nat, before: Tree, now: Tree, p: nat, next: nat)
    requires GoodMap(descs, highest) && Spans(now, 0, highest) && Boundary(descs, p)
    requires WalkedTo(descs, highest, before, now, p) && Request(0, highest, p, next, Reserved)
    requires forall i :: 0 <= i < |descs| ==> descs[i].physicalStart != p
    requires forall i :: 0 <= i < |descs| && descs[i].physicalStart > p ==> next <= descs[i].physicalStart
    ensures WalkedTo(descs, highest, before, Tag(now, 0, highest, p, next, Reserved), next)
  {
    var after := Tag(now, 0, highest, p, next, Reserved);
    forall a | 0 <= a < highest
      ensures StateAt(after, a)
           == if a < next then AfterWalk(StateAt(before, a), Covered(descs, a)) else StateAt(before, a)
    {
      TagIsPointUpdate(now, 0, highest, p, next, Reserved, a);
      assert StateAt(now, a) == if a < p then AfterWalk(StateAt(before, a), Covered(descs, a)) else StateAt(before, a);
      if p <= a < next {
        GapIsUncovered(descs, highest, p, next, a);
      }
    }
  }

  method TagGaps(physical: MemoryState, descs: seq<Descriptor>)
    requires physical.Valid() && GoodMap(descs, physical.highest)
    requires |physical.leafFree| >= 3 + 2 * |descs| && |physical.branchFree| >= 2 + 2 * |descs|
    modifies physical, physical.slots
    ensures physical.Valid() && physical.highest == old(physical.highest) && physical.slots == old(physical.slots)
    ensures |physical.leafFree| >= 3 && |physical.branchFree| >= 2
    ensures forall a :: 0 <= a < physical.highest ==>
              StateAt(physical.Tree(), a) == if Covered(descs, a) then old(StateAt(physical.Tree(), a)) else Reserved
  {
    ghost var before := physical.Tree();
    ghost var highest := physical.highest;
    var startP := 0;
    AheadAtMost(descs, 0);
    while startP != physical.highest
      invariant physical.Valid() && physical.highest == highest && physical.slots == old(physical.slots)
      invariant Standing(descs, highest, startP)
      invariant PoolsAhead(physical, descs, startP)
      invariant WalkedTo(descs, highest, before, physical.Tree(), startP)
      decreases highest - startP
    {
      startP := WalkStep(physical, descs, startP, before);
    }
  }

  ghost predicate Standing(descs: seq<Descriptor>, highest: nat, p: nat) {
    p <= highest && Aligned(p) && Boundary(descs, p)
  }

  ghost predicate PoolsAhead(physical: MemoryState, descs: seq<Descriptor>, p: nat)
    reads physical
  {
    |physical.leafFree| >= 3 + 2 * |Ahead(descs, p)| && |physical.branchFree| >= 2 + 2 * |Ahead(descs, p)|
  }

  // One iteration: step over the descriptor that starts here, or reserve the gap up to the next one.
  method WalkStep(physical: MemoryState, descs: seq<Descriptor>, startP: nat, ghost before: Tree) returns (next: nat)
    requires physical.Valid() && GoodMap(descs, physical.highest)
    requires Standing(descs, physical.highest, startP) && startP < physical.highest
    requires PoolsAhead(physical, descs, startP)
    requires WalkedTo(descs, physical.highest, before, physical.Tree(), startP)
    modifies physical, physical.slots
    ensures physical.Valid() && physical.highest == old(physical.highest) && physical.slots == old(physical.slots)
    ensures startP < next && Standing(descs, physical.highest, next)
    ensures PoolsAhead(physical, descs, next)
    ensures WalkedTo(descs, physical.highest, before, physical.Tree(), next)
  {
    var found: bool;
    found, next := EntryAt(descs, startP);
    if found {
      WalkOver(descs, physical.highest, startP, next);
    } else {
      SomethingAbove(descs, physical.highest, startP);
      next := LowestAbove(descs, startP);
      assert next != ALL_ONES; // "Unexpected memory map mismatch"
      WalkGap(descs, physical.highest, startP, next);
      GapTagged(descs, physical.highest, before, physical.Tree(), startP, next);
      physical.TagRange(startP, next, Reserved);
    }
  }

  lemma WalkOver(descs: seq<Descriptor>, highest: nat, p: nat, next: nat)
    requires GoodMap(descs, highest)
    requires exists i :: 0 <= i < |descs| && descs[i].physicalStart == p && next == descs[i].End()
    ensures p < next <= highest && Aligned(next) && Boundary(descs, next)
    ensures forall a :: p <= a < next ==> Covered(descs, a)
    ensures |Ahead(descs, next)| <= |Ahead(descs, p)|
  {
    var i :| 0 <= i < |descs| && descs[i].physicalStart == p && next == descs[i].End();
    EdgesAreBoundaries(descs, highest, i);
    Subset(Ahead(descs, next), Ahead(descs, p));
  }

  lemma WalkGap(descs: seq<Descriptor>, highest: nat, p: nat, next: nat)
    requires GoodMap(descs, highest)
    requires exists i :: 0 <= i < |descs| && descs[i].physicalStart == next && next > p
    ensures p < next < highest && Aligned(next) && Boundary(descs, next)
    ensures |Ahead(descs, next)| < |Ahead(descs, p)|
  {
    var i :| 0 <= i < |descs| && descs[i].physicalStart == next && next > p;
    EdgesAreBoundaries(descs, highest, i);
    assert i in Ahead(descs, p) && i !in Ahead(descs, next);
    Subset(Ahead(descs, next), Ahead(descs, p) - {i});
  }

  // A map of one descriptor, for the second of two pages.
  lemma SecondPageOnly()
    ensures var descs := [Descriptor(4096, 1)];
            GoodMap(descs, 8192) && !Covered(descs, 0) && Covered(descs, 4096)
  {
    var descs := [Descriptor(4096, 1)];
    assert descs[0].physicalStart <= 4096 < descs[0].End() == 8192;
  }
}
