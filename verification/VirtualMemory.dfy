/**
 The allocator in place: the two global range trees and the page tables, changed together by MapPages. Every
 call is proved equal to its function in module AddressSpace.
 */
module VirtualMemory {
  import opened Pages
  import opened RangeTree
  import opened MemoryStates
  import opened Paging
  import opened PageTableStore
  import AddressSpace
  import BootMap
  import PoolBounds
  import Calls

  class Kernel {
    const physical: MemoryState
    const virtual_: MemoryState
    const tables: PageTables

    ghost predicate Valid()
      reads this, physical, physical.slots, virtual_, virtual_.slots, tables, tables.mem
    {
      && physical.Valid() && virtual_.Valid() && tables.Valid()
      && physical != virtual_ && physical.slots !! virtual_.slots
      && virtual_.highest == PAGE_MASK
    }

    ghost function View(): (s: AddressSpace.Space)
      reads this, physical, virtual_, tables
    {
      AddressSpace.Space(physical.Tree(), virtual_.Tree(), physical.highest, tables.entries)
    }

    lemma ViewWellFormed()
      requires Valid()
      ensures AddressSpace.WellFormed(View())
    {
    }

    // The entry checks of MapPages and of both tags pass on a well-formed request.
    lemma ChecksPass(virtualAddress: nat, physicalAddress: nat, size: nat, newState: RangeState)
      requires Valid() && AddressSpace.MapRequest(View(), virtualAddress, physicalAddress, size, newState)
      ensures AddressSpace.WellFormed(View())
      ensures size % PAGE_SIZE == 0 && PageMask(virtualAddress) == virtualAddress
      ensures PageMask(physicalAddress) == physicalAddress
      ensures Request(0, physical.highest, physicalAddress, physicalAddress + size, newState)
      ensures Request(0, PAGE_MASK, virtualAddress, virtualAddress + size, newState)
      ensures virtualAddress == 4096 * (virtualAddress / 4096) && size == 4096 * (size / 4096)
    {
      ViewWellFormed();
      AddressSpace.RequestChecks(View(), virtualAddress, physicalAddress, size, newState);
    }

    constructor (highestAddress: nat, tableBase: nat)
      requires 0 < highestAddress <= PAGE_MASK && Aligned(highestAddress) && Placement(tableBase)
      ensures Valid()
      ensures View().phys == Leaf(Free) && View().virt == Leaf(Free) && View().physEnd == highestAddress
      ensures AddressSpace.Coupled(View()) && AddressSpace.Backed(View())
      ensures fresh(physical) && fresh(physical.slots) && fresh(virtual_) && fresh(virtual_.slots)
      ensures fresh(tables) && fresh(tables.mem)
      ensures |physical.leafFree| == |virtual_.leafFree| == INITIAL_ENTRIES
      ensures |physical.branchFree| == |virtual_.branchFree| == INITIAL_ENTRIES - 1
      ensures |tables.free| == POOL_PAGES
    {
      physical := new MemoryState(highestAddress);
      virtual_ := new MemoryState(PAGE_MASK);
      tables := new PageTables(tableBase);
      new;
      AddressSpace.EmptyIsCoupled(View());
    }

    // The pools in hand cover one request: no refill is needed while it runs.
    ghost predicate PoolsSuffice(va: nat, size: nat)
      reads physical, virtual_, tables, tables.mem
    {
      && |physical.leafFree| >= 3 && |physical.branchFree| >= 2
      && |virtual_.leafFree| >= 3 && |virtual_.branchFree| >= 2
      && |tables.free| >= NeededTables(tables.mem[..], tables.base, va / 4096, va / 4096 + size / 4096)
    }

    method MapPages(virtualAddress: nat, physicalAddress: nat, size: nat, writable: bool, executable: bool,
                    level: PrivilegeLevel, newState: RangeState, pageFlags: nat)
      requires Valid() && PoolsSuffice(virtualAddress, size)
      requires AddressSpace.MapRequest(View(), virtualAddress, physicalAddress, size, newState)
      modifies physical, physical.slots, virtual_, virtual_.slots, tables, tables.mem
      ensures Valid() && physical.slots == old(physical.slots) && virtual_.slots == old(virtual_.slots)
      ensures View() == AddressSpace.MapPages(old(View()), virtualAddress, physicalAddress, size, writable, level,
                                              newState, pageFlags)
    {
      ChecksPass(virtualAddress, physicalAddress, size, newState);
      assert size % PAGE_SIZE == 0; // "Misaligned page size"
      assert PageMask(virtualAddress) == virtualAddress; // "Virtual address mismatch."
      assert PageMask(physicalAddress) == physicalAddress; // "Physical address mismatch."
      TagAndWrite(virtualAddress, physicalAddress, size, writable, level, newState, pageFlags,
                  virtualAddress / 4096, size / 4096);
    }

    // The two tags, then the loop over the pages.
    method TagAndWrite(va: nat, pa: nat, size: nat, writable: bool, level: PrivilegeLevel, newState: RangeState,
                       pageFlags: nat, ghost first: nat, ghost count: nat)
      requires Valid() && va == 4096 * first && size == 4096 * count
      requires |physical.leafFree| >= 3 && |physical.branchFree| >= 2
      requires |virtual_.leafFree| >= 3 && |virtual_.branchFree| >= 2
      requires |tables.free| >= NeededTables(tables.mem[..], tables.base, first, first + count)
      requires physical.highest <= PAGE_MASK
      requires Request(0, physical.highest, pa, pa + size, newState) && Request(0, PAGE_MASK, va, va + size, newState)
      modifies physical, physical.slots, virtual_, virtual_.slots, tables, tables.mem
      ensures Valid() && physical.slots == old(physical.slots) && virtual_.slots == old(virtual_.slots)
      ensures View() == AddressSpace.TagBoth(old(View()), va, pa, size, newState).(
                entries := Mapped(old(View()).entries, first, pa, count, newState == Free, writable, level, pageFlags))
    {
      TagBoth(va, pa, size, newState);
      WriteEntries(va, pa, size, newState == Free, writable, level, pageFlags, first, count);
    }

    method WriteEntries(va: nat, pa: nat, size: nat, release: bool, writable: bool, level: PrivilegeLevel,
                        pageFlags: nat, ghost first: nat, ghost count: nat)
      requires Valid() && va == 4096 * first && size == 4096 * count && Aligned(pa)
      requires va + size <= PAGE_MASK && pa + size <= PAGE_MASK
      requires |tables.free| >= NeededTables(tables.mem[..], tables.base, first, first + count)
      modifies tables, tables.mem
      ensures Valid()
      ensures View() == old(View()).(
                entries := Mapped(old(View()).entries, first, pa, count, release, writable, level, pageFlags))
    {
      tables.MapRange(va, pa, size, release, writable, level, pageFlags, first, count);
    }

    method TagBoth(virtualAddress: nat, physicalAddress: nat, size: nat, newState: RangeState)
      requires Valid()
      requires |physical.leafFree| >= 3 && |physical.branchFree| >= 2
      requires |virtual_.leafFree| >= 3 && |virtual_.branchFree| >= 2
      requires Request(0, physical.highest, physicalAddress, physicalAddress + size, newState)
      requires Request(0, PAGE_MASK, virtualAddress, virtualAddress + size, newState)
      modifies physical, physical.slots, virtual_, virtual_.slots
      ensures Valid() && physical.slots == old(physical.slots) && virtual_.slots == old(virtual_.slots)
      ensures View() == AddressSpace.TagBoth(old(View()), virtualAddress, physicalAddress, size, newState)
    {
      TagPhysical(physicalAddress, physicalAddress + size, newState);
      TagVirtual(virtualAddress, virtualAddress + size, newState);
    }

    method TagPhysical(low: nat, high: nat, newState: RangeState)
      requires Valid() && |physical.leafFree| >= 3 && |physical.branchFree| >= 2
      requires Request(0, physical.highest, low, high, newState)
      modifies physical, physical.slots
      ensures Valid() && physical.slots == old(physical.slots)
      ensures View() == old(View()).(phys := Tag(old(View()).phys, 0, old(View()).physEnd, low, high, newState))
    {
      physical.TagRange(low, high, newState);
    }

    method TagVirtual(low: nat, high: nat, newState: RangeState)
      requires Valid() && |virtual_.leafFree| >= 3 && |virtual_.branchFree| >= 2
      requires Request(0, PAGE_MASK, low, high, newState)
      modifies virtual_, virtual_.slots
      ensures Valid() && virtual_.slots == old(virtual_.slots)
      ensures View() == old(View()).(virt := Tag(old(View()).virt, 0, PAGE_MASK, low, high, newState))
    {
      virtual_.TagRange(low, high, newState);
    }

    method VirtualAlloc(byteSize: nat, level: PrivilegeLevel, pageFlags: nat) returns (virtualAddress: nat)
      requires Valid() && byteSize > 0 && Aligned(byteSize)
      requires AddressSpace.PhysicalFit(View(), byteSize) != 0 ==>
                 PoolsSuffice(AddressSpace.VirtualFit(View(), byteSize), byteSize)
      modifies physical, physical.slots, virtual_, virtual_.slots, tables, tables.mem
      ensures Valid()
      ensures (View(), virtualAddress) == AddressSpace.VirtualAlloc(old(View()), byteSize, level, pageFlags)
      ensures Calls.Allocated(old(View()), View(), virtualAddress, byteSize, level, pageFlags)
    {
      Calls.AllocExact(View(), byteSize, level, pageFlags);
      var physicalAddress := physical.FindMinimumSizeFreeBlock(byteSize);
      if physicalAddress == 0 {
        return 0;
      }
      virtualAddress := virtual_.FindMinimumSizeFreeBlock(byteSize);
      AddressSpace.AllocRequest(View(), byteSize);
      MapPages(virtualAddress, physicalAddress, byteSize, true, false, level, Used, pageFlags);
    }

    method VirtualFree(address: Word, byteSize: nat) returns (success: bool)
      requires Valid() && AddressSpace.Mappable(View(), address, byteSize) && PoolsSuffice(address, byteSize)
      modifies physical, physical.slots, virtual_, virtual_.slots, tables, tables.mem
      ensures Valid() && success
      ensures View() == AddressSpace.VirtualFree(old(View()), address, byteSize)
      ensures Calls.Freed(old(View()), View(), address, byteSize)
    {
      Calls.FreeExact(View(), address, byteSize);
      var physicalAddress := tables.GetPhysicalAddress(address);
      MapPages(address, physicalAddress, byteSize, false, false, PrivilegeLevel.Kernel, Free, PAGE_FLAGS_NONE);
      success := true;
    }

    method VirtualProtect(address: Word, byteSize: nat, protection: AddressSpace.MemoryProtection, pageFlags: nat,
                          level: PrivilegeLevel)
      requires Valid() && AddressSpace.Mappable(View(), address, byteSize) && PoolsSuffice(address, byteSize)
      modifies physical, physical.slots, virtual_, virtual_.slots, tables, tables.mem
      ensures Valid()
      ensures View() == AddressSpace.VirtualProtect(old(View()), address, byteSize, protection, pageFlags, level)
      ensures Calls.Reprotected(old(View()), View(), address, byteSize, protection, pageFlags, level)
    {
      Calls.ProtectExact(View(), address, byteSize, protection, pageFlags, level);
      var physicalAddress := tables.GetPhysicalAddress(address);
      var writable, executable := false, false;
      match protection {
        case ReadOnly =>
        case ReadWrite => writable := true;
        case Execute => executable := true;
      }
      MapPages(address, physicalAddress, byteSize, writable, executable, level, Used, pageFlags);
    }

    // -------------------------------------------------------------------
    // Runs of this kernel

    // What the pools of a kernel grant is what the abstract bounds ask for.
    lemma PoolsAreWithin(size: nat)
      requires Valid() && PoolsSuffice(AddressSpace.VirtualFit(View(), size), size)
      ensures PoolBounds.WithinPools(View(), size)
    {
      var t := PoolBounds.Tables(tables.mem[..], tables.base, tables.owner, tables.freeHead, tables.free);
      assert PoolBounds.Serve(t, View().entries, AddressSpace.VirtualFit(View(), size), size);
    }

    // The pools in hand cover an operation on the given blocks.
    ghost predicate PoolsCover(op: AddressSpace.Op, live: seq<AddressSpace.Block>)
      requires op.Alloc? || op.i < |live|
      reads this, physical, virtual_, tables, tables.mem
    {
      match op
      case Alloc(size, _, _) =>
        AddressSpace.PhysicalFit(View(), size) != 0 ==> PoolsSuffice(AddressSpace.VirtualFit(View(), size), size)
      case Release(i) => PoolsSuffice(live[i].va, live[i].size)
      case Protect(i, offset, size, _, _, _) => PoolsSuffice(live[i].va + offset, size)
    }

    // From a kernel on which any address of the lower half is taken, a failed allocation changes nothing.
    lemma FailedAllocChangesNothing(size: nat, level: PrivilegeLevel, pageFlags: nat, x: nat)
      requires Valid() && AddressSpace.Backed(View()) && size > 0 && Aligned(size)
      requires PoolsCover(AddressSpace.Alloc(size, level, pageFlags), [])
      requires x < PoolBounds.LOWER_HALF && StateAt(View().virt, x) != Free
      ensures AddressSpace.WellFormed(View())
      ensures var (s', r) := AddressSpace.VirtualAlloc(View(), size, level, pageFlags); r == 0 ==> s' == View()
    {
      ViewWellFormed();
      if AddressSpace.PhysicalFit(View(), size) != 0 {
        PoolsAreWithin(size);
      }
      PoolBounds.FailedAllocWithinPools(View(), size, level, pageFlags, x);
    }

    // One call of a client that keeps the list of its blocks. Safety is kept without any condition on the call, so
    // it holds after every run of calls that the pools cover.
    method Perform(op: AddressSpace.Op, live: seq<AddressSpace.Block>) returns (live': seq<AddressSpace.Block>)
      requires Valid() && AddressSpace.Safe(AddressSpace.World(View(), live)) && AddressSpace.Backed(View())
      requires AddressSpace.Requested(AddressSpace.World(View(), live), op) && PoolsCover(op, live)
      modifies physical, physical.slots, virtual_, virtual_.slots, tables, tables.mem
      ensures Valid() && AddressSpace.Safe(AddressSpace.World(View(), live')) && AddressSpace.Backed(View())
      ensures AddressSpace.World(View(), live') == AddressSpace.Step(AddressSpace.World(old(View()), live), op)
    {
      StepStaysSafe(op, live);
      ghost var w' := AddressSpace.Step(AddressSpace.World(View(), live), op);
      live' := Call(op, live);
      assert AddressSpace.World(View(), live') == w';
    }

    // The call itself.
    method Call(op: AddressSpace.Op, live: seq<AddressSpace.Block>) returns (live': seq<AddressSpace.Block>)
      requires Valid() && AddressSpace.Coupled(View())
      requires AddressSpace.Requested(AddressSpace.World(View(), live), op) && PoolsCover(op, live)
      modifies physical, physical.slots, virtual_, virtual_.slots, tables, tables.mem
      ensures Valid()
      ensures AddressSpace.World(View(), live') == AddressSpace.Step(AddressSpace.World(old(View()), live), op)
    {
      if op.Alloc? {
        live' := AllocBlock(op, live);
      } else if op.Release? {
        live' := ReleaseBlock(op, live);
      } else {
        live' := live;
        ProtectPart(op, live);
      }
    }

    method AllocBlock(op: AddressSpace.Op, live: seq<AddressSpace.Block>) returns (live': seq<AddressSpace.Block>)
      requires Valid() && AddressSpace.Coupled(View()) && op.Alloc?
      requires AddressSpace.Requested(AddressSpace.World(View(), live), op) && PoolsCover(op, live)
      modifies physical, physical.slots, virtual_, virtual_.slots, tables, tables.mem
      ensures Valid()
      ensures AddressSpace.World(View(), live') == AddressSpace.Step(AddressSpace.World(old(View()), live), op)
    {
      AddressSpace.AllocTranslates(View(), op.size, op.level, op.pageFlags);
      var va := VirtualAlloc(op.size, op.level, op.pageFlags);
      live' := live;
      if va != 0 {
        var pa := tables.GetPhysicalAddress(va);
        live' := live + [AddressSpace.Block(va, pa, op.size)];
      }
    }

    method ReleaseBlock(op: AddressSpace.Op, live: seq<AddressSpace.Block>) returns (live': seq<AddressSpace.Block>)
      requires Valid() && AddressSpace.Coupled(View()) && op.Release?
      requires AddressSpace.Requested(AddressSpace.World(View(), live), op) && PoolsCover(op, live)
      modifies physical, physical.slots, virtual_, virtual_.slots, tables, tables.mem
      ensures Valid()
      ensures AddressSpace.World(View(), live') == AddressSpace.Step(AddressSpace.World(old(View()), live), op)
    {
      var success := VirtualFree(live[op.i].va, live[op.i].size);
      live' := live[..op.i] + live[op.i + 1..];
    }

    method ProtectPart(op: AddressSpace.Op, live: seq<AddressSpace.Block>)
      requires Valid() && AddressSpace.Coupled(View()) && op.Protect?
      requires AddressSpace.Requested(AddressSpace.World(View(), live), op) && PoolsCover(op, live)
      modifies physical, physical.slots, virtual_, virtual_.slots, tables, tables.mem
      ensures Valid()
      ensures AddressSpace.World(View(), live) == AddressSpace.Step(AddressSpace.World(old(View()), live), op)
    {
      ghost var w' := AddressSpace.Step(AddressSpace.World(View(), live), op);
      var address := live[op.i].va + op.offset;
      assert AddressSpace.Mappable(View(), address, op.size);
      VirtualProtect(address, op.size, op.protection, op.pageFlags, op.level);
      assert View() == w'.space;
    }

    lemma StepStaysSafe(op: AddressSpace.Op, live: seq<AddressSpace.Block>)
      requires Valid() && AddressSpace.Safe(AddressSpace.World(View(), live)) && AddressSpace.Backed(View())
      requires AddressSpace.Requested(AddressSpace.World(View(), live), op) && PoolsCover(op, live)
      ensures var w' := AddressSpace.Step(AddressSpace.World(View(), live), op);
              AddressSpace.Safe(w') && AddressSpace.Backed(w'.space)
    {
      if op.Alloc? && AddressSpace.PhysicalFit(View(), op.size) != 0 {
        PoolsAreWithin(op.size);
      }
      PoolBounds.StepWithinPools(AddressSpace.World(View(), live), op);
    }

    // Maps a given physical range at the first virtual fit.
    method PhysicalAlloc(physicalAddress: nat, byteSize: nat, level: PrivilegeLevel, pageFlags: nat)
      returns (virtualAddress: nat)
      requires Valid() && PoolsSuffice(AddressSpace.VirtualFit(View(), byteSize), byteSize)
      requires AddressSpace.MapRequest(View(), AddressSpace.VirtualFit(View(), byteSize), physicalAddress, byteSize,
                                       Used)
      modifies physical, physical.slots, virtual_, virtual_.slots, tables, tables.mem
      ensures Valid()
      ensures (View(), virtualAddress)
           == AddressSpace.PhysicalAlloc(old(View()), physicalAddress, byteSize, level, pageFlags)
      ensures Calls.PhysicallyAllocated(old(View()), View(), virtualAddress, physicalAddress, byteSize, level,
                                        pageFlags)
    {
      Calls.PhysicalAllocExact(View(), physicalAddress, byteSize, level, pageFlags);
      virtualAddress := virtual_.FindMinimumSizeFreeBlock(byteSize);
      MapPages(virtualAddress, physicalAddress, byteSize, true, false, level, Used, pageFlags);
    }

    // The gap walk of the boot code, on the physical tree of this kernel.
    method ReserveGaps(descs: seq<BootMap.Descriptor>)
      requires Valid() && BootMap.GoodMap(descs, physical.highest)
      requires |physical.leafFree| >= 3 + 2 * |descs| && |physical.branchFree| >= 2 + 2 * |descs|
      modifies physical, physical.slots
      ensures Valid() && physical.slots == old(physical.slots)
      ensures View() == old(View()).(phys := View().phys)
      ensures |physical.leafFree| >= 3 && |physical.branchFree| >= 2
      ensures forall a :: 0 <= a < View().physEnd ==>
                StateAt(View().phys, a) == if BootMap.Covered(descs, a) then StateAt(old(View().phys), a) else Reserved
    {
      BootMap.TagGaps(physical, descs);
    }
  }

  // A kernel on which nothing has been mapped yet, with two pages of memory of which firmware describes the second:
  // the gap walk reserves page 0. The boot code maps descriptors and the framebuffer before the first allocation,
  // so it leaves this state, and the one below, behind.
  method StartOnTwoPages(tableBase: nat) returns (kernel: Kernel)
    requires Placement(tableBase)
    ensures kernel.Valid() && kernel.PoolsSuffice(0, PAGE_SIZE)
    ensures fresh(kernel.physical) && fresh(kernel.physical.slots)
    ensures fresh(kernel.virtual_) && fresh(kernel.virtual_.slots) && fresh(kernel.tables) && fresh(kernel.tables.mem)
    ensures kernel.View().physEnd == 8192 && kernel.View().virt == Leaf(Free)
    ensures StateAt(kernel.View().phys, 0) == Reserved && StateAt(kernel.View().phys, 4096) == Free
    ensures AddressSpace.Coupled(kernel.View())
  {
    kernel := new Kernel(8192, tableBase);
    BootMap.SecondPageOnly();
    kernel.ReserveGaps([BootMap.Descriptor(4096, 1)]);
    OnePageNeeds(kernel.tables.mem[..], kernel.tables.base, 0);
  }

  // On such a kernel an allocation fails and changes the state: it returns 0, marks the second page Used and maps it
  // at address 0. By FailedAllocChangesNothing this ends with the first mapping in the lower half.
  method FirstAllocationFails(tableBase: nat) returns (kernel: Kernel, result: nat, ghost before: AddressSpace.Space)
    requires Placement(tableBase)
    ensures kernel.Valid() && AddressSpace.WellFormed(before) && AddressSpace.Coupled(before)
    ensures AddressSpace.NoVirtualFit(before, PAGE_SIZE) && result == 0
    ensures StateAt(before.phys, 4096) == Free && StateAt(kernel.View().phys, 4096) == Used
    ensures Translate(before.entries, 0) == INVALID_ADDRESS && Translate(kernel.View().entries, 0) == 4096
  {
    kernel := StartOnTwoPages(tableBase);
    before := kernel.View();
    AddressSpace.FirstAllocation(before, PrivilegeLevel.Kernel, PAGE_FLAGS_NONE);
    result := kernel.VirtualAlloc(PAGE_SIZE, PrivilegeLevel.Kernel, PAGE_FLAGS_NONE);
  }
}
