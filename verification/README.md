# Enkel: a verified model of the kernel's memory manager and its small components

Enkel is a hobby kernel for x86-64. This project models the parts of it whose correctness is hardest to see from
the code, in Dafny, and proves what they are for. `dafny verify dfyconfig.toml` checks everything.

| file | models |
|---|---|
| `Pages.dfy` | page size, address mask |
| `RangeTree.dfy` | the range-state tree as a value: tagging, caches, first fit, runs of tags |
| `TagShape.dfy` | the shape a tag leaves behind: cut, recolour, merge; what a later search finds |
| `MemoryState.dfy` | the mutable tree: slots, intrusive free lists, in-place tagging, the two read-only walks |
| `Paging.dfy` | four-level tables as a value: entry format, the reader, the no-aliasing invariant, table growth |
| `PageTables.dfy` | the live tables in one buffer: free list, tables built on demand, the loop of `MapPages` |
| `AddressSpace.dfy` | the allocator as a state machine: laws of single calls and of whole runs |
| `Calls.dfy` | what each call of the allocator does, in full: its result and its whole effect |
| `PoolBounds.dfy` | what the initial pools of nodes and page tables bound: every request within them finds a virtual fit |
| `VirtualMemory.dfy` | the allocator in place: two trees and the tables changed together, call by call and over runs |
| `BootMap.dfy` | the walk over the firmware memory map that reserves the gaps |
| `RingBuffer.dfy` | the ring buffer against a bounded first-in-first-out sequence |
| `Base45.dfy` | the Base45 encoder against section 4 of RFC 9285 |
| `IntegerText.dfy` | both versions of `witoabuf` against a positional reader |
| `StackMemory.dfy`, `ProcessStack.dfy` | the start-up block of a new process, read back by section 3.4.1 of the System V AMD64 ABI |
| `Execve.dfy` | `sys_execve` packing, and the way of a string from the caller to the new stack |
| `Basics.dfy` | shared small definitions |

Every structure the kernel changes in place is a class or an array here, with the kernel's own fields, and every
method is proved equal to a function on values. What the kernel promises is then proved about those functions.
Runtime assertions of the kernel appear as `assert` statements with the kernel's message as their comment, so
that none of them can fire on a request that meets the stated preconditions.

## How the pieces fit

* A `MemoryState` object holds slots; a ghost field says which slot represents which part of a `Tree`. `TagRange`
  computes exactly `RangeTree.Tag`, and `TagIsPointUpdate`, `TagAllRefinesMap` and `ReservedAbsorbs` say what that
  does to the plain map from addresses to states. The colours do not decide what a later search finds, the leaves do:
  `TagIsCutPaintCollapse` says which tree a tag leaves, and `FreedPieceIsFound` what that is for.
* `PageTables` keeps a flat ghost array of leaf entries; `Linked` says that the pages reachable from the PML4 form
  a tree in which each page serves one address prefix. `MapRange` changes that array as `Mapped` says, and the
  reader is proved to look it up.
* `AddressSpace.Space` joins both. The three calls of the allocator are functions on it, and `Kernel` is proved equal
  to them. `Calls` says for each of them, and for `PhysicalAlloc`, what it returns and what it does to every address of
  both maps, every translation and every entry (`AllocExact`, `FreeExact`, `ProtectExact`, `PhysicalAllocExact`). An
  allocation succeeds if and only if both trees have a large enough Free leaf that does not start at 0, and takes the
  lowest of each.
* `Kernel.Perform` is one call of a client that keeps a list of its blocks: as long as the pools cover the call, the
  blocks stay mapped as they were handed out and disjoint in both spaces, whatever was called before
  (`EveryRunIsSafe`). The constructor establishes what that needs, and every mapping made at boot keeps it unless it
  frees something Reserved (`MapPagesKeepsBacked`).
* `PoolBounds` supplies the counting behind this. A request that the initial pools can serve spans at most two page
  tables' worth per pool row, at most one address is translated per byte that the pool's leaf entries can map, and the
  node pool allows at most 4097 leaves. So the Free leaves cannot all be too small for the request.

## Where the code keeps its promise only under a condition

* `VirtualAlloc` tests the result of the physical search but not that of the virtual search. The virtual search
  finds nothing when no Free virtual leaf of the wanted size starts anywhere but at 0, which includes the case that
  all of virtual space is still one Free leaf (`NoVirtualFitMeans`). If physical memory has a block then, the call
  marks it Used, maps it over the addresses from 0 and returns 0. A failed allocation changes nothing if and only if
  that does not happen (`AddressSpace.FailedAllocChangesNothing`). `FirstAllocationFails` is a kernel on which nothing
  has been mapped yet, and whose first allocation does it. The boot code leaves that state behind before its first
  allocation, since it maps the firmware's descriptors and the framebuffer: as soon as one address below 2^47 is
  taken, an allocation within the pools that returns 0 has changed nothing (`Kernel.FailedAllocChangesNothing`).
* Without pools to bound the page tables, such an allocation could hit live blocks. Then a step is safe if and only if
  no live block starts below the requested size (`StepIsSafe`), and a run is safe if and only if no allocation of it
  overwrites a live block (`RunIsSafe`). `OverwriteWithoutPools` is such a world; it needs more page tables than the
  initial pool holds, and within the pools there is none (`NeverOverwritesWithinPools`).
* `VirtualProtect` retags both ranges as Used. It leaves the page-table translations and the virtual map alone, but
  it leaves the physical map alone if and only if no address of the physical range was Free (`ProtectMaps`). It
  never is Free under a live block (`ProtectLiveKeepsView`); it is when a frame was mapped twice and freed once
  (`ProtectRetagsAlias`, reached from empty trees in `AliasIsReachable`).
* The auxiliary vector describes the program, with or without an interpreter, as section 3.4.1 of the ABI asks for
  the entry point and the program headers. AT_BASE, which should be the interpreter's base address, is the program's
  too; it is right if and only if both have the same base address (`BaseIsProgram`, `BaseIsNotInterpreter`).
* `CreateProcess` limits each copied string to `STACK_LEFT`, which subtracts a number of eight-byte words from a
  number of bytes. A string can fit on the stack and still be cut short; it arrives whole if and only if it is
  within that limit and no code unit has a zero low byte (`ReceivedWhole`). The finished stack decodes to the strings
  that were given if and only if that holds of all of them (`BuildStack`, and `Launch` from the system call on), and
  the limit is never below seven eighths of the stack (`LimitBounds`).
  `FittingArgumentIsCut` and `ZeroLowByteIsCut` are an argument for each half: 120000 characters on the 128 KiB
  stack, and U+0100.
* `PopElements(0)` on a full ring buffer empties it, because the two positions coincide and the full mark is
  cleared. In every other case it equals single pops, and `BlockPopIsSinglePops` says so in both directions. Over
  any mix of operations every item comes out once and in order if and only if none throws items away
  (`FirstInFirstOut`).
* `GetPageState` beyond the highest address answers with the state of the last tracked page (`StatePastEnd`).
* The end of `MapPages` for `Free` leaves the frame bits in the entry; since the entry is not present, the reader
  answers `INVALID_ADDRESS` all the same (`MapPagesTranslates`).

## Model

| member | source | states |
|---|---|---|
| Pages.MaskIdentity | src/kernel/memory/pml4.cpp:223-227 | masking an address with PAGE_MASK keeps it exactly when it is page-aligned and at most PAGE_MASK, which is what the two mismatch assertions test |
| RangeTree.LargestIsMaximum | inc/kernel/memory/state.h:163-179 | the cached Largest is the size of a biggest free leaf, is attained by one, and is 0 exactly when no leaf is free |
| RangeTree.RemainingCountsFree | inc/kernel/memory/state.h:145-161 | the cached Remaining is the number of addresses that the plain map calls Free |
| RangeTree.TagKeepsShape | src/kernel/memory/state.cpp:92-220 | every tag keeps the intervals non-empty, aligned and nested, and keeps the tree free of branches over two equal leaves |
| RangeTree.TagIsPointUpdate | src/kernel/memory/state.cpp:83-223 | after a tag an address has the new state exactly when it lies in the range and was not Reserved; every other address keeps its state |
| RangeTree.TagAllRefinesMap | src/kernel/memory/state.cpp:83-223 | any sequence of tags keeps the invariant and agrees everywhere with the same sequence applied to the plain map |
| RangeTree.ReservedAbsorbs | src/kernel/memory/state.cpp:131-135 | over any sequence of tags an address ends Reserved if and only if it was Reserved or some covering tag reserved it |
| RangeTree.TagLeafGrowth | src/kernel/memory/state.cpp:137-185 | one tag adds at most one leaf for each end of the request that is not an end of the interval, so at most two |
| RangeTree.StatePastEnd | src/kernel/memory/state.cpp:269-294 | a lookup at or past the end of the tracked interval answers with the state of its last address |
| RangeTree.PruningIsSafe | src/kernel/memory/state.cpp:237-253 | a subtree whose cached Largest is below the wanted size contains no fit |
| RangeTree.FirstFitFork | src/kernel/memory/state.cpp:229-256 | searching only the children whose cached Largest suffices, left one first, equals the linear scan over all leaves |
| RangeTree.RunsTile | src/kernel/memory/state.cpp:13-28 | the leaves from left to right are non-empty and cover the interval without gap or overlap, one per leaf counted |
| RangeTree.RunGivesState | src/kernel/memory/state.cpp:274-294 | every address of a leaf is looked up with the state of that leaf |
| RangeTree.FitIsLowest | src/kernel/memory/state.cpp:225-267 | the search result is the lowest start, other than 0, of a free leaf of at least the wanted size, and it is non-zero whenever there is such a leaf |
| RangeTree.FitIsFree | src/kernel/memory/state.cpp:225-267 | a non-zero result is an aligned block inside the interval, every address of which is Free |
| TagShape.TagIsCutPaintCollapse | src/kernel/memory/state.cpp:83-223 | the tree after a tag is exactly the old one cut at the lower end, then at the upper end, recoloured between them except where Reserved, with equal sibling leaves merged from the bottom up |
| TagShape.FreedPieceRejoins | src/kernel/memory/state.cpp:147-211 | a piece taken out of a Free leaf and freed again is one Free leaf with the rest of that leaf above it, whatever was tagged outside both in between |
| TagShape.FreedPieceIsFound | src/kernel/memory/state.cpp:147-267 | so a search for at most that much then finds a block at or below the piece, unless the joined leaf starts at 0 |
| MemoryStates.LinkEntries | src/kernel/memory/state.cpp:48-59 | linking an entry table gives a proper intrusive list of 4096 distinct slots |
| MemoryStates.MemoryState.constructor | src/kernel/memory/state.cpp:30-65 | a fresh tree is one Free leaf taken from the branch pool, with all slots accounted for |
| MemoryStates.MemoryState.GetFreeBranchState | inc/kernel/memory/state.h:93-107 | takes the first slot off the branch list, which stays a proper list of the others, and counts it |
| MemoryStates.MemoryState.GetFreeLeafState | inc/kernel/memory/state.h:119-133 | takes the first slot off the leaf list, which stays a proper list of the others, and counts it |
| MemoryStates.MemoryState.FreeStateBranch | inc/kernel/memory/state.h:109-117 | puts a cleared slot in front of the branch list and counts it back |
| MemoryStates.MemoryState.FreeLeafState | inc/kernel/memory/state.h:135-143 | puts a slot in front of the leaf list, touching its address word only, and counts it back |
| MemoryStates.MemoryState.GetRemaining | inc/kernel/memory/state.h:145-161 | for a slot that represents a tree, the number of free bytes of that tree, read from the cache |
| MemoryStates.MemoryState.GetLargestFree | inc/kernel/memory/state.h:163-179 | for a slot that represents a tree, the size of its biggest free leaf, read from the cache |
| MemoryStates.MemoryState.UpdateNode | inc/kernel/memory/state.h:182-213 | a branch over two equal leaves becomes one leaf, any other branch gets correct caches; no slot is lost and both counters still match their lists |
| MemoryStates.MemoryState.TagRangeInternal | src/kernel/memory/state.cpp:83-223 | terminates, fires no assertion, turns the represented tree into its tagged tree, and moves slots only between the tree and the two lists |
| MemoryStates.MemoryState.SplitAndTag | src/kernel/memory/state.cpp:147-211 | a leaf that is only partly covered is split, at the lower end of the piece first unless the piece starts there, and the covered piece recoloured; the unexpected-merge assertions and the incorrect-branch assertion cannot fire |
| MemoryStates.MemoryState.TagRange | inc/kernel/memory/state.h:75-78 | on a valid tree the call yields the tagged tree, which is the old one cut at both ends, lower one first, recoloured and merged; it keeps every slot in exactly one place and each list length plus its counter at 4096, and uses at most 2 slots of each list, 3 free leaf slots and 2 free branch slots being enough |
| MemoryStates.MemoryState.GetPageState | src/kernel/memory/state.cpp:269-294 | the walk over the slots answers with the state of the address in the represented tree |
| MemoryStates.MemoryState.FindMinimumSizeFreeBlock | src/kernel/memory/state.cpp:225-267 | the pruned walk over the slots gives the same result as a linear first-fit scan of all leaves |
| Paging.TableEntryFields | src/kernel/memory/pml4.cpp:255-257 | a table entry is present, writable and user-accessible, has no size bit and no reserved bit, and names its table |
| Paging.PageEntryFields | src/kernel/memory/pml4.cpp:302-324 | every flag and the frame of a leaf entry can be read back, and the reserved bits are clear |
| Paging.TranslationIsByEntry | src/kernel/memory/pml4.cpp:148-212 | in tables that satisfy the invariant the reader's result depends on the leaf entry of the page only; the 2 MB case never applies |
| Paging.TablesFormTree | src/kernel/memory/pml4.cpp:248-282 | no table page has two parents, none is free or the root, and no entry above the leaves has the size bit or a reserved bit |
| Paging.SetLeaf | src/kernel/memory/pml4.cpp:284-302 | rewriting one leaf entry keeps the invariant and changes the leaf entry of that page and of no other |
| Paging.LinkTable | src/kernel/memory/pml4.cpp:255-257 | linking a cleared unused page into a vacant entry keeps the invariant and every leaf entry |
| Paging.GrowthUsesOne | src/kernel/memory/pml4.cpp:253-282 | installing a table that a request needs lowers the number of tables still missing for it by exactly one |
| PageTableStore.PageTables.constructor | src/kernel/memory/pml4.cpp:450-451 | the prepared tables satisfy the invariant, list all 2048 static pages and map nothing |
| PageTableStore.PageTables.PreparePML4FreeList | src/kernel/memory/pml4.cpp:102-112 | links every static page into one proper free list |
| PageTableStore.PageTables.GetPML4FreePage | src/kernel/memory/pml4.cpp:114-140 | pops the first page of the list and clears it, changing no other page |
| PageTableStore.PageTables.GetPhysicalAddress | src/kernel/memory/pml4.cpp:148-212 | the walk through memory translates every 64-bit address as the array of leaf entries says |
| PageTableStore.PageTables.InstallTable | src/kernel/memory/pml4.cpp:255-281 | a page popped for an absent entry is linked there, translations stay as they were |
| PageTableStore.PageTables.EnsureTable | src/kernel/memory/pml4.cpp:248-282 | reaches the table of an address prefix, installing it only when it is absent, and keeps enough free pages for the rest of the request |
| PageTableStore.PageTables.MapPage | src/kernel/memory/pml4.cpp:236-325 | one round stores the entry of its own page and leaves every other entry as it was |
| PageTableStore.PageTables.MapRange | src/kernel/memory/pml4.cpp:236-346 | the loop terminates, its translation assertions never fail, and it leaves exactly the entries of the range changed as requested |
| AddressSpace.MapPagesTranslates | src/kernel/memory/pml4.cpp:214-347 | after MapPages each byte of the range translates to its byte of the physical range, or to INVALID_ADDRESS after Free; every other 64-bit address translates as before |
| AddressSpace.MapPagesTags | src/kernel/memory/pml4.cpp:229-234 | both range maps take the new state on their own range only, except where Reserved |
| AddressSpace.MapPagesWellFormed | src/kernel/memory/pml4.cpp:214-347 | every request keeps both trees well formed and fully merged |
| AddressSpace.MapPagesKeepsCoupling | src/kernel/memory/pml4.cpp:233-334 | a Free virtual address has no translation and a Used one has one, after every request if before |
| AddressSpace.MapPagesKeepsBacked | src/kernel/memory/pml4.cpp:214-347 | if every virtual address that is not Free has a translation, a request keeps that if and only if it does not free a range with a Reserved address in it |
| AddressSpace.RequestChecks | src/kernel/memory/pml4.cpp:219-234 | on a page-aligned non-empty request inside both intervals the entry assertions and those of both tags hold |
| AddressSpace.NoVirtualFitMeans | src/kernel/memory/virtual.cpp:12-20 | the unchecked case in terms of leaves: some Free physical leaf of that size does not start at 0, and every Free virtual leaf of that size does |
| AddressSpace.FailedAllocChangesNothing | src/kernel/memory/virtual.cpp:9-29 | an allocation that returns 0 changes nothing if and only if it is not the unchecked case; in that case the physical block is lost and the addresses from 0 are remapped to it |
| AddressSpace.FreshStateHasNoVirtualFit | src/kernel/memory/virtual.cpp:12-20 | while virtual space is one Free leaf and physical address 0 is not Free, any Free physical page brings about the unchecked case for one page |
| VirtualMemory.FirstAllocationFails | src/kernel/memory/virtual.cpp:9-29 | on a kernel on which nothing has been mapped yet, with two pages of memory of which the gap walk reserved the first, an allocation returns 0 and yet takes the second page and maps it at 0 |
| AddressSpace.AllocIsLive | src/kernel/memory/virtual.cpp:9-29 | a non-zero allocation was Free and untranslated before, and is Used in both spaces and translated byte by byte afterwards |
| AddressSpace.FreeUndoesAlloc | src/kernel/memory/virtual.cpp:31-39 | freeing a block right after allocating it restores both state maps and the translation of every address |
| AddressSpace.ProtectKeepsTranslations | src/kernel/memory/virtual.cpp:41-63 | in the page tables, protecting a physically contiguous mapped range keeps every translation, its entries carry exactly the requested permissions, Keep leaving the user bit as it was, and no other entry changes |
| AddressSpace.ProtectMaps | src/kernel/memory/virtual.cpp:62 | the same call leaves the virtual map as it is, and the physical map as it is if and only if no address of the physical range is Free |
| AddressSpace.ProtectLiveKeepsView | src/kernel/memory/virtual.cpp:41-63 | protecting any aligned part of a live block passes the kernel's assertions and changes neither map and no translation |
| AddressSpace.PhysicalAllocAliases | src/kernel/memory/physical.cpp:9-16 | mapping the physical range of a live block again leaves two live blocks over one range, at disjoint virtual addresses |
| AddressSpace.ProtectRetagsAlias | src/kernel/memory/virtual.cpp:31-63 | after one of two such blocks is freed its physical range is Free, and protecting the other makes all of it Used |
| AddressSpace.AliasIsReachable | src/kernel/memory/physical.cpp:9-16 | two blocks over one range arise from empty trees by reserving page 0, allocating a page and mapping its frame again |
| AddressSpace.AllocPermissions | src/kernel/memory/virtual.cpp:22 | the entries of an allocated block are present and writable with the requested level and caching, and every other entry is as before |
| Calls.MapPagesRemaps | src/kernel/memory/pml4.cpp:214-347 | the whole effect of a request: both maps over their own range except where Reserved, every translation, and every entry, which after Free keeps the frame alone |
| Calls.AllocExact | src/kernel/memory/virtual.cpp:9-29 | for every state: the result is non-zero if and only if both trees have a Free leaf of that size that does not start at 0; it is the lowest such virtual start, mapped writable to the lowest such physical start; without a physical one nothing changes, and with only a physical one it is mapped at 0 |
| Calls.FreeExact | src/kernel/memory/virtual.cpp:31-39 | for every range that starts on a mapped page: it has no translation afterwards, it and the physical range become Free except where Reserved, and nothing else changes |
| Calls.ProtectExact | src/kernel/memory/virtual.cpp:41-63 | for every such range, contiguous or not: it is mapped to the physical range that starts where its first page was, writable only for ReadWrite, both ranges become Used except where Reserved, and nothing else changes |
| Calls.PhysicalAllocExact | src/kernel/memory/physical.cpp:9-16 | for every state: the given range is mapped, writable and with the level and caching asked for, at the lowest virtual fit, or at 0 if and only if there is none |
| Calls.StepRecords | src/kernel/memory/virtual.cpp:9-39 | a client's list gains exactly the block handed out with the physical address behind it, loses exactly the released one, and otherwise stays |
| AddressSpace.StepIsSafe | src/kernel/memory/virtual.cpp:9-63 | without any bound from pools: from a safe state, every allocation, every release of a block and every protection of an aligned part of one leads to a safe state if and only if it is not an unchecked allocation with a live block starting below its size |
| AddressSpace.RunIsSafe | src/kernel/memory/virtual.cpp:9-63 | without any bound from pools: in every state of a run the live blocks are mapped as they were handed out and pairwise disjoint in virtual and in physical space, if and only if no allocation of the run overwrites a live block |
| AddressSpace.OverwriteWithoutPools | src/kernel/memory/virtual.cpp:12-22 | a safe state, with more page tables than any pool here holds, in which an allocation of two pages overwrites a live block |
| AddressSpace.StepKeepsBacked | src/kernel/memory/virtual.cpp:9-63 | every step of a client keeps every virtual address that is not Free translated |
| AddressSpace.RunKeepsReserved | src/kernel/memory/virtual.cpp:9-63 | over every run, overwriting or not, exactly the same pages stay Reserved in both spaces and none of them is ever in a block |
| PoolBounds.RequestAtMost | src/kernel/memory/pml4.cpp:248-282 | a request at address 0 that the free table pages can serve is bounded by the rows of the pool, whatever is already linked |
| PoolBounds.TranslatedAtMost | src/kernel/memory/pml4.cpp:148-212 | at most one address is translated for each byte that the pool's leaf entries can map |
| PoolBounds.FitWithinPools | src/kernel/memory/virtual.cpp:12-22 | once any address below 2^47 is taken, an allocation within the pools is never the unchecked case |
| PoolBounds.FailedAllocWithinPools | src/kernel/memory/virtual.cpp:9-29 | from then on an allocation within the pools that returns 0 changes nothing |
| PoolBounds.NeverOverwritesWithinPools | src/kernel/memory/virtual.cpp:9-29 | in a safe state no allocation within the pools overwrites a live block |
| PoolBounds.StepWithinPools | src/kernel/memory/virtual.cpp:9-63 | every step within the pools leads from a safe state to a safe state, without condition on the step |
| PoolBounds.EveryRunIsSafe | src/kernel/memory/virtual.cpp:9-63 | in every state of every run within the pools the live blocks are mapped as they were handed out and pairwise disjoint in virtual and in physical space |
| AddressSpace.ReservedNeverAllocated | src/kernel/memory/virtual.cpp:9-39 | in every run from a safe state, overwriting or not, a physical page that is Reserved at any time is so at all times, and is in no block at any time |
| AddressSpace.ReservedNeverMapped | src/kernel/memory/virtual.cpp:9-39 | the same for virtual pages |
| AddressSpace.FramesNotShared | src/kernel/memory/virtual.cpp:9-39 | two different bytes of live blocks translate to two different physical bytes |
| VirtualMemory.Kernel.constructor | src/kernel/memory/pml4.cpp:447-451 | the initial state has two Free trees and empty tables, is coupled, and no address that is not Free lacks a translation |
| VirtualMemory.Kernel.MapPages | src/kernel/memory/pml4.cpp:214-347 | tagging both trees in place and filling the tables in place gives exactly the abstract MapPages |
| VirtualMemory.Kernel.VirtualAlloc | src/kernel/memory/virtual.cpp:9-29 | state and result of the call in place are those of the abstract allocation: it succeeds if and only if both trees have a fit, and maps the lowest virtual one to the lowest physical one |
| VirtualMemory.Kernel.VirtualFree | src/kernel/memory/virtual.cpp:31-39 | the call in place gives the abstract release: the range is untranslated, and both ranges are Free except where Reserved |
| VirtualMemory.Kernel.VirtualProtect | src/kernel/memory/virtual.cpp:41-63 | the call in place gives the abstract protection: the range is remapped with the requested permissions |
| VirtualMemory.Kernel.PhysicalAlloc | src/kernel/memory/physical.cpp:9-16 | state and result of the call in place are those of the abstract mapping of a given physical range, writable and at the lowest virtual fit |
| VirtualMemory.Kernel.FailedAllocChangesNothing | src/kernel/memory/virtual.cpp:9-29 | on the kernel's own pools: once any address below 2^47 is taken, an allocation that returns 0 has changed nothing |
| VirtualMemory.Kernel.Perform | src/kernel/memory/virtual.cpp:9-63 | one call of a client on the kernel in place takes the abstract step, and keeps the client's blocks mapped as they were handed out and disjoint in both spaces, without condition on the call |
| VirtualMemory.Kernel.ReserveGaps | src/kernel/memory/pml4.cpp:557-629 | the gap walk on the kernel's physical tree reserves exactly the uncovered addresses and touches nothing else |
| BootMap.HighestEnd | src/kernel/memory/pml4.cpp:409-419 | finds the largest end address of all descriptors |
| BootMap.LowestAbove | src/kernel/memory/pml4.cpp:576-588 | finds the lowest descriptor start above the position, or all ones when there is none |
| BootMap.SomethingAbove | src/kernel/memory/pml4.cpp:590-593 | below the highest end, a position that starts no descriptor and is inside none has a descriptor above it, so the map-mismatch assertion is unreachable |
| BootMap.WalkStep | src/kernel/memory/pml4.cpp:560-629 | one round moves strictly up to the next boundary, having reserved what it passed if and only if no descriptor covers it |
| BootMap.TagGaps | src/kernel/memory/pml4.cpp:557-629 | for unsorted disjoint descriptors the walk terminates and reserves exactly the addresses that no descriptor covers |
| BootMap.CoveredPages | src/kernel/memory/pml4.cpp:563-574 | an address is covered if and only if it lies in one of the pages that a descriptor counts from its start |
| Ring.DropKeepsLast | inc/common/ring_buffer.h:13-36 | with DropOnFull any run of pushes leaves the last Size items of everything there was |
| Ring.RefuseKeepsFirst | inc/common/ring_buffer.h:21-24 | without it the first Size items stay and later pushes are refused |
| Ring.BlockPopIsSinglePops | inc/common/ring_buffer.h:60-115 | PopElements(n) takes and leaves what min(n, length) single pops do, if and only if it is not the call with n = 0 on a full buffer; that call takes nothing and leaves nothing |
| Ring.HoldsLastEntered | inc/common/ring_buffer.h:13-115 | over any mix of pushes, pops, block pops and clears the buffer holds at most Size items, the last ones of everything that entered |
| Ring.FirstInFirstOut | inc/common/ring_buffer.h:13-115 | over any such mix every item leaves once, in order of entering, or is still held, if and only if no operation throws items away |
| Ring.RingBuffer.Push | inc/common/ring_buffer.h:13-36 | appends the item to the stored sequence, refusing it or dropping the oldest when full |
| Ring.RingBuffer.DropOldest | inc/common/ring_buffer.h:129-136 | removes the first stored item if there is one |
| Ring.RingBuffer.Pop | inc/common/ring_buffer.h:38-51 | gives and removes the oldest item, or reports an empty buffer |
| Ring.RingBuffer.Clear | inc/common/ring_buffer.h:53-58 | leaves the empty sequence |
| Ring.RingBuffer.PopElements | inc/common/ring_buffer.h:60-115 | copies out the oldest items in order across the end of the store, writes nothing behind them and removes them |
| Base45.AlphabetInverse | src/kernel/utilities/base45.cpp:28-34 | the 45 characters are distinct and the reader knows exactly them |
| Base45.DecodeEncoded | src/kernel/utilities/base45.cpp:57-125 | decoding the encoding gives back every byte string |
| Base45.EncodeDecoded | src/kernel/utilities/base45.cpp:57-125 | every decodable text is the encoding of what it decodes to, so encoding is canonical |
| Base45.EncodedLength | src/kernel/utilities/base45.cpp:80 | three characters for each pair of bytes and two for a single last one, as the required length computes it |
| Base45.GroupFits | src/kernel/utilities/base45.cpp:61-73 | a group of one or two bytes is below 45^2 or 45^3, so its digits fit its characters |
| Base45.PowInt | src/kernel/utilities/base45.cpp:36-46 | the loop computes the power |
| Base45.EncodeGroup | src/kernel/utilities/base45.cpp:57-76 | writes the digits of the group without its leading zeroes, at most one more than its bytes, and nothing else |
| Base45.WriteGroup | src/kernel/utilities/base45.cpp:101-119 | with the zeroes added, exactly the two or three digits of the group, and nothing else |
| Base45.Encode | src/kernel/utilities/base45.cpp:78-125 | writes exactly the encoding and returns its length, which is itself below 2^31 and wraps to an int above, or leaves a too small buffer alone and reports it |
| IntegerText.ReadText | src/kernel/common/string.cpp:87-185 | reading the text positionally gives the value back, for every padding, base and version |
| IntegerText.TextIsInjective | src/kernel/common/string.cpp:87-185 | two values never share a text in one base, whatever the padding of each |
| IntegerText.NoLeadingZero | src/kernel/common/string.cpp:95-106 | before padding, the text of a non-zero number does not begin with a zero |
| IntegerText.TextWidth | src/kernel/common/string.cpp:108-161 | the text is as long as its digits, one more in the narrow version, or padDigits if that is more, and the sign |
| IntegerText.PaddingKeepsValue | src/kernel/common/string.cpp:108-161 | padding, including the extra leading zero of the narrow version, does not change the number read |
| IntegerText.EmitDigits | src/kernel/common/string.cpp:95-106 | the digit loop writes all digits of the magnitude, least significant first, at least one |
| IntegerText.EmitPadding | src/kernel/common/string.cpp:108-161 | the wide loop pads up to padDigits, the narrow loop writes one zero first |
| IntegerText.ReverseInPlace | src/kernel/common/string.cpp:120-132 | the swap loop reverses the text for even and for odd lengths |
| IntegerText.Witoabuf | src/kernel/common/string.cpp:87-185 | fills the buffer with the text and its terminator, and touches nothing behind it |
| StackMemory.WideToAscii | src/kernel/common/string.cpp:216-233 | writes the low byte of each code unit up to the limit, then a zero, and nothing else |
| StackMemory.CopiedString | src/kernel/common/string.cpp:216-233 | a reader of the copy sees its bytes up to the first zero among them |
| ProcessStack.WriteAuxEntry | src/kernel/process/process.cpp:48-59 | stores one entry below the vector so far, or nothing on a dry run, and returns the same pointer |
| ProcessStack.WriteProcessAuxVectors | src/kernel/process/process.cpp:61-87 | the dry and the real pass return the same pointer, and the real one stores the vector of the process there |
| ProcessStack.AuxReadsBack | src/kernel/process/process.cpp:61-87 | a stored vector that ends in its only AT_NULL entry is read back whole |
| ProcessStack.AuxDescribes | src/kernel/process/process.cpp:61-110 | with or without an interpreter, looking up the vector gives the entry point, base address and program headers of the program, the page size and the stack cookie, while control starts in the interpreter when there is one |
| ProcessStack.BaseIsProgram | src/kernel/process/process.cpp:68-74 | AT_BASE is the program's base address, so it is the interpreter's if and only if the two are equal |
| ProcessStack.BaseIsNotInterpreter | src/kernel/process/process.cpp:68-74 | a program and an interpreter for which AT_BASE is not the interpreter's base address |
| ProcessStack.PlaceStrings | src/kernel/process/process.cpp:174-206 | one pointer loop stores every string and its pointer and a closing null pointer, and writes nowhere else |
| ProcessStack.StringsReadBack | src/kernel/process/process.cpp:174-206 | following the stored table gives each string, cut at the copy limit and at its first zero byte |
| ProcessStack.StringsApart | src/kernel/process/process.cpp:182-186 | each string lies wholly below the string placed before it |
| ProcessStack.PartsApart | src/kernel/process/process.cpp:125-170 | in a fitting stack the pointer tables, the auxiliary vector and the strings do not overlap |
| ProcessStack.BuildStack | src/kernel/process/process.cpp:118-215 | the finished stack decodes, by the rules of the ABI, to argc, the argument and environment strings as received, and the auxiliary vector; it decodes to exactly the strings given if and only if both lists are within their limits and free of zero low bytes, and always when no string exceeds seven eighths of the stack; the stack pointer is aligned to 8 bytes as the end of the stack is |
| ProcessStack.FillBlock | src/kernel/process/process.cpp:163-209 | the first environment string lies right below the end marker, the first argument right below the environment strings, and the block decodes to argc, both lists as received and the vector |
| ProcessStack.LimitBounds | src/kernel/process/process.cpp:120-123 | in a fitting stack both copy limits are at least seven eighths of the stack and less than all of it, that of envp the larger |
| ProcessStack.BlockIsRounded | src/kernel/process/process.cpp:160-161 | the strings take the fewest 16-byte units that hold them |
| ProcessStack.BlockKeepsAlignment | src/kernel/process/process.cpp:125-176 | the size of the block, with 8 entries in the vector or 9 without an interpreter, and that the stack pointer has the alignment of the stack's end to 8 bytes |
| ProcessStack.ReceivedWhole | src/kernel/process/process.cpp:123-206 | one string arrives unchanged if and only if it is within the limit and none of its low bytes is zero |
| ProcessStack.ReceivedIsPrefix | src/kernel/process/process.cpp:174-206 | what arrives of any string is its low bytes up to the limit, the first zero among them, or its end, whichever comes first |
| ProcessStack.StartupExact | src/kernel/process/process.cpp:118-215 | the block as received is the block as given if and only if both lists are within their limits and free of zero low bytes |
| ProcessStack.FittingArgumentIsCut | src/kernel/process/process.cpp:123-183 | an argument without zero low bytes that fits in a 128 KiB stack and is received differently from what was given |
| ProcessStack.ZeroLowByteIsCut | src/kernel/process/process.cpp:199-202 | an argument within the limit that is received differently because of a zero low byte |
| Execve.AsciiToWide | src/kernel/common/string.cpp:197-214 | writes the characters up to the limit, ASCII ones as they are and all others with ones above them, then a zero, and nothing else |
| Execve.NarrowWiden | src/kernel/common/string.cpp:197-233 | widening and narrowing again is the identity on every string of non-zero bytes, and gives no zero |
| Execve.Pack | src/kernel/user_mode/syscalls.cpp:332-405 | both blocks are filled to their last slot: the pointers with the start of each string and a null after each list, the string block with the name and all strings; it begins with the characters of the given name, without its first one if that is a dot, and a zero |
| Execve.PackReadsBack | src/kernel/user_mode/syscalls.cpp:355-405 | the name and both lists are read back from the packed blocks as they were widened |
| Execve.Launch | src/kernel/user_mode/syscalls.cpp:332-413 | packing followed by building the stack hands the new process every byte of every string up to the copy limit; the finished stack decodes to exactly the caller's strings if and only if none is longer than its limit, and always when none exceeds seven eighths of the stack |
| Execve.AllDeliveredWhole | src/kernel/user_mode/syscalls.cpp:332-413 | a list of strings of non-zero bytes arrives unchanged if and only if none is longer than the limit |

## Left out

- Pool refill: the node pools and the table pool are required to suffice for a request (3 leaf slots, 2 branch slots, the missing tables); refill hands over memory that is not yet linked, and re-enters the allocator in the middle of `MapPages`.
- MemoryStates.MemoryState.GetFreeLeafState: requires a non-empty list, because of the above.
- MemoryStates.MemoryState.GetFreeBranchState: requires a non-empty list, because of the above.
- PageTableStore.PageTables.GetPML4FreePage: requires a non-empty list, because of the above.
- VirtualMemory.Kernel.VirtualAlloc: does not model the write through the new address at its end, which stores one zero word in the new block; that this page is present and writable is `AllocIsLive` and `AllocPermissions`.
- VirtualMemory.Kernel.VirtualFree: requires the range to start on a mapped page inside both intervals; elsewhere an assertion of `MapPages` or `TagRange` fires.
- VirtualMemory.Kernel.VirtualProtect: has the same requirement; `executable` has no effect because the kernel is built with ENABLE_NX=0.
- VirtualMemory.Kernel.MapPages: does not model `clflush`, `invlpg` and CR3; the reader always walks the kernel's own PML4.
- PageTableStore.PageTables.constructor: places the table pages one after another in one buffer with the PML4 first; in the kernel the PML4 is a separate page.
- PoolBounds.EveryRunIsSafe: asks that the initial pools cover every request of the run, as all calls here do; refill is left out, see above.
- AddressSpace.RunIsSafe: a run consists of `VirtualAlloc`, `VirtualFree` of whole blocks and `VirtualProtect` of aligned parts of blocks; mappings made at boot are part of the initial state, and `PhysicalAlloc` and `sys_memory_map`, which may alias frames on purpose, are no steps of a run.
- RangeTree.FitIsLowest: is about single leaves, as the code is; free space that spans several adjacent leaves is not joined.
- BootMap.TagGaps: starts from descriptors that are aligned, so the trimmed and the untrimmed highest address agree; the mapping of descriptors and of the framebuffer around the walk is ordinary `MapPages`.
- Empty or unaligned tag ranges, and tags with the Branch mark: excluded by precondition, as the assertions of `MapPages` exclude misaligned ones.
- IntegerText.Witoabuf: excludes the minimum of a signed type and negative values in other bases than 10, where the code negates out of range or indexes its digit table with a negative number.
- ProcessStack.BuildStack: works on a given stack of any size that holds the block; allocating it, filling it with marks, ELF and TLS loading and the 16-byte alignment of the stack pointer, which the code does not establish, are not modelled. The header with the AT values is not part of this model; they are those of the ABI.
- Execve.Launch: takes the caller's strings as sequences of non-zero bytes with a signed char type, and the two blocks as fresh arrays; opening the program file between packing and stack building is not modelled.
- Concurrent interrupts around the ring buffer, drivers, file systems, the console, ACPI and the boot loader.
