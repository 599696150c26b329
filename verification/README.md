# A verified model of libvfio-user

libvfio-user lets a process emulate a PCI device for a virtual machine monitor, its client. This
project models the parts of it that keep state, and proves what they keep over every run:

- **DMA controller** (`Dma*.dfy`, `DirtyBitmap.dfy`): the table of DMA regions, the translation of
  address spans into scatter/gather entries with its one-entry cache, reference counts, and the
  dirty page bitmaps.
- **PCI configuration space** (`Pci*.dfy`): the capability list that is threaded through a byte
  array, the search through it, the access loop that cuts an access into header, capability and
  device segments, and what a whole access does to registers and capabilities.
- **Live migration** (`Migration*.dfy`, `Sample*.dfy`, `LiveMigration.dfy`): the migration region
  with its device states and save iterations, the sample device, and the sample client that
  migrates it while a guest goes on writing.
- **Region info** (`RegionInfo*.dfy`): the encoding of region capabilities and the client's walk
  through them.
- **Messages** (`Descriptors.dfy`, `DescriptorRuns.dfy`, `RequestHandler.dfy`, `Dispatch.dfy`,
  `DispatchEffects.dfy`, `MessageLoop.dfy`): who owns the file descriptors that come with a message,
  which commands are let through in which migration state, and what they then do.

Each part has a specification on values (datatypes, functions and the lemmas about them). Where the
original changes things in place there is a class or a method with loops beside it, whose
postconditions equate the new state with a function of the old one, so that every lemma about the
specification is also one about the code that changes state.

`dafny verify dfyconfig.toml` checks the whole project with Dafny 4.11.

## Where the code and its promises part

The model follows the code. Where the code departs from its comments or its documentation, a lemma
says exactly when the promise is met, or names an input on which it is not.

- The slow translation writes all its entries into the same slot (`lib/dma.c:381`): the caller's
  list describes the span if and only if at most one region is met: `ListDescribesIff`. Tiling is
  therefore stated over the pieces that are found.
- The page range of a write subtracts the region's base from an offset that is already relative,
  and ignores how far into its first page a piece starts (`lib/dma.h:141-166`): `PageRangeExact`,
  `WrongPageForNonzeroBase`. The mark can leave the bitmap altogether: `MarkInsideIff`,
  `InsideIffReaches`, `StraysIff`, `LostIff`, `MarkLeavesBitmap`, `FirstLoggedWriteStrays`,
  `LoggedWriteBreaks`.
- A mapping is as long as the region rounded up, however far into a page the region starts
  (`lib/dma.c:218-250`): `MappingCoversIff`.
- A failed `dma_map_sg` keeps the counts of the entries in front of the failing one
  (`lib/dma.h:252-282`): `FailedMapConservesIff`.
- `dma_unmap_sg` tests the index with `>` and so touches the slot behind the table for an entry
  whose region is gone (`lib/dma.h:300`): `UnmapStaysInTableIff`, `UnmapBreaksFullTable`.
- Automatic placement of a capability is not checked for overlap (`lib/pci_caps.c:425-440`), and the
  link to a capability is stored in eight bits (`lib/pci_caps.c:451`): `AddKeepsListIff`,
  `ListAfterAnyAdditionsIff`, `AutomaticPlacementOverlaps`, `HighCapabilityIsLost`.
- A segment inside a capability is as long as the capability even if it starts in its middle, and
  the table is searched in table order (`lib/pci.c:359`, `lib/pci_caps.c:338-351`): `RoutingExact`,
  `TableOrderMatters`. The test for nearness holds of a capability that starts where the access ends
  (`lib/pci_caps.c:327-331`), so an access within one capability can be handed to the device:
  `CapabilitySegment`. A write that overruns a vendor capability can change the list:
  `WriteBreaksIff`, `RunKeepsGuardedIff`, `OverrunReplacesHeader`.
- In the pre-copy row of the transition table a shift binds tighter than the inner or
  (`lib/migration_priv.h:102`), so pre-copy may return to running but not be written again:
  `TransitionTable`. Writing the error state runs into an assertion (`lib/migration.c:162-163`):
  `AbortsIff`.
- `irqs_disable` stops at count instead of start + count (`lib/irq.c:126`): `DisableEmptiesRangeIff`.
  Descriptors for the error and request interrupts go to the common row of slots (`lib/irq.c:210-239`):
  `SetIrqsPlaces`, `RunKeepsNoSpecial`.
- A descriptor that comes for a region that is mapped already is lost, and one whose file cannot be
  mapped is closed twice (`lib/libvfio-user.c:520-541`, `lib/dma.c:268-350`): `ReAddLosesDescriptor`,
  `FailedMmapClosesTwice`, `HeldOrClosedOnceIff`.
- In stop-and-copy the sample device still takes data for its BARs (`samples/server.c:356-388`):
  `BarsKeptIff`, `MessageReplacesBar1`.

## Model

| member | source | states |
|---|---|---|
| `DmaTable.AddKeepsWellFormed` | lib/dma.c:252-359 | adding a region keeps bases distinct, regions disjoint, and every region mapped exactly when it has a descriptor |
| `DmaTable.WithoutKeepsWellFormed` | lib/dma.c:119-178 | so does removing one |
| `DmaTable.NoAddressTwice` | lib/dma.c:252-359 | no address lies in two regions of a well-formed table |
| `DmaTable.AddSucceedsIff` | lib/dma.c:252-359 | a request is accepted if and only if a compatible region with its span is there, or nothing overlaps it, there is room, and its file can be examined and mapped |
| `DmaTable.SameSpanIsFirstClash` | lib/dma.c:268-313 | a region with the requested span is the only one the request clashes with, so the order of the table does not matter |
| `DmaTable.ClashIff` | lib/dma.c:298-309 | a request and a region, neither of them empty, clash if and only if they share an address |
| `DmaTable.AddAnswers` | lib/dma.c:252-359 | a request for a span that is there is answered with the index of its region if file, offset and protection agree; any other that adds nothing with -1 - i, i the index of that region, of the first that overlaps, or the number of regions |
| `DmaTable.NewRegionRecords` | lib/dma.c:319-336 | a new region has the span, protection, descriptor and offset of its request, no users and no bitmap, and the larger of block size and page size |
| `DmaTable.AddInserts` | lib/dma.c:252-359 | the table refines a finite map by base address: a new region is one insertion under a free base |
| `DmaTable.WithoutErases` | lib/dma.c:138-178 | removing a region erases its base from that map and nothing else |
| `DmaTable.AddThenRemove` | lib/dma.c:138-178 | removing the region just added gives back the exact table and closes exactly its descriptor |
| `DmaTable.RemoveOutcome` | lib/dma.c:138-178 | a span that no region has is answered with -ENOENT and a failing callback with its error, and the table stays; otherwise exactly the region with the span is erased and its descriptor closed |
| `DmaTable.AddTwice` | lib/dma.c:268-300 | adding the same request again returns the same index and changes no region |
| `DmaTable.MappingCoversIff` | lib/dma.c:218-250 | the bytes of a mapped region lie in its mapping if and only if the remainders of its offset and of its last byte do not carry into another page (for an empty region: if the offset is aligned) |
| `DmaTranslate.PiecesTile` | lib/dma.c:361-413 | the pieces found for any span tile it in order without gap or overlap, each inside one region and ended by that region or the span |
| `DmaTranslate.CoveredIff` | lib/dma.c:361-413 | the pieces cover the span if and only if every byte of it lies in some region |
| `DmaTranslate.NotFoundIff` | lib/dma.c:361-413 | if the regions met grant the protection, the search fails with ENOENT if and only if some byte lies in no region, and never with EACCES |
| `DmaTranslate.TranslationOutcome` | lib/dma.c:361-413 | for any table and span: EACCES if and only if bit 1 of the protection asks for writing and a piece that gets an entry lies in a region without that bit; otherwise ENOENT if and only if a byte lies in no region; -1 exactly for an error |
| `DmaTranslate.DeniedIff` | lib/dma.h:185-206 | a covered span with room for its entries is refused with EACCES if and only if writing is asked for and some region that it meets was registered without permission to write |
| `DmaTranslate.OnePiecePerRegion` | lib/dma.c:361-413 | in a disjoint table a covered span has as many pieces as there are regions that meet it |
| `DmaTranslate.RetryCount` | lib/dma.h:208-250 | the result is that number x if there is room for x entries, else -x - 1, which is never -1, and a retry with room for x returns x |
| `DmaTranslate.SpanInsideRegion` | lib/dma.h:221-250 | for a span inside any one region, the search gives what looking at that region alone gives: result, entry, error and dirty marks |
| `DmaTranslate.ListDescribesIff` | lib/dma.c:361-413 | only the first entry of the caller's array is written: after a search that succeeds the array describes the span if and only if at most one region was met |
| `DmaRuns.StepKeepsValid` | lib/dma.c:119-531 | every operation keeps the table well-formed and within its capacity, or the controller is lost: an assertion failed or memory outside was written |
| `DmaRuns.TableAfterAnyRun` | lib/dma.c:119-359 | after any run of operations from an empty table that is not lost: bases distinct, ranges disjoint, at most max regions, mapped exactly when there is a descriptor |
| `DmaRuns.StepLeaves` | lib/dma.c:180-205 | removing all regions leaves none and closes their descriptors; starting, stopping, mapping and translating within a run have the results stated for them |
| `DmaRuns.RunKeepsLogged` | lib/dma.c:427-467 | after any run from an empty table that is not lost, every bitmap has the size that its region and the current page size ask for |
| `DmaRuns.ReadFitsAfterRun` | lib/dma.c:487-531 | after any such run, a bitmap that is read is that of the region at the address, and what is sent back fits into it |
| `DmaRuns.StraysIff` | lib/dma.h:153-206 | while that is so, a translation marks a page outside its bitmap if and only if it is a logged write and one of the pieces that it marks lies in a region without a bitmap or fails the condition of MarkInsideIff |
| `DmaRuns.LostIff` | lib/dma.h:168-310 | a run from an empty table is lost if and only if one of its operations removes a region in use, unmaps an entry of no region on a full table, or is a logged write one of whose pieces lies in a region that was added since logging started or fails the condition of MarkInsideIff |
| `DmaRuns.LoggedWriteBreaks` | lib/dma.h:141-183 | such a run: a page at address 0x100000 is logged and its first byte written |
| `DmaRuns.UnmapBreaksFullTable` | lib/dma.h:284-310 | another: on any full table, any entry whose region is not there makes unmapping touch the slot behind the array |
| `DmaRuns.FastPathStraysIff` | lib/dma.h:221-250 | whether a translation strays is the same on the fast path, for the one piece that it marks |
| `DmaRuns.HintFollows` | lib/dma.h:221-250 | after a translation inside a region, any other one inside it takes the fast path |
| `DmaRuns.HintIsInvisible` | lib/dma.h:221-250 | over any run, from any two hints, stale ones included, translating with the cache and without it gives the same results and the same tables, and is lost at the same operation |
| `DmaRuns.StepConserves` | lib/dma.h:252-310 | every legal operation keeps each reference count equal to the number of outstanding entries of that region |
| `DmaRuns.CountsAfterAnyRun` | lib/dma.h:252-310 | so after any legal run, although mapping finds regions by index, unmapping by base, and removals shift them |
| `DmaMapping.MapConserves` | lib/dma.h:252-282 | a successful map of current entries counts each of them once |
| `DmaMapping.TakenByIndex` | lib/dma.h:252-282 | a map adds to each count the number of its entries that name the region by index |
| `DmaMapping.MapAnswers` | lib/dma.h:252-282 | a map succeeds if and only if every entry names a mapped region; otherwise the first that does not decides between EINVAL and EFAULT, and the ranges in front of it are the entries at their offsets |
| `DmaMapping.TranslateThenMap` | lib/dma.h:185-282 | translating a span inside a mapped region and mapping the entry gives the server addresses of exactly these bytes |
| `DmaMapping.MappedIsFile` | lib/dma.c:218-250 | after a region has been added with a descriptor, the mapped bytes of a span are the bytes q.offset + (a - q.base) of the file |
| `DmaMapping.UnmappedEntry` | lib/dma.h:185-282 | an entry of a region without a mapping says so, and mapping it fails with EFAULT |
| `DmaMapping.FailedMapConservesIff` | lib/dma.h:252-282 | a failed map leaves the counts right if and only if its first entry already failed |
| `DmaMapping.UnmapConserves` | lib/dma.h:284-310 | unmapping outstanding entries takes each off its region's count once |
| `DmaMapping.UnmapStaysInTableIff` | lib/dma.h:284-310 | unmapping touches regions of the table only, if and only if every entry's region is there |
| `DmaMapping.AddConserves` | lib/dma.c:252-359 | adding a region disturbs no count |
| `DmaMapping.RemoveConserves` | lib/dma.c:138-178 | removing a region whose count is zero loses no outstanding entry |
| `DirtyBitmap.MarkRangeAdds` | lib/dma.h:168-183 | marking a range of pages sets exactly the bits of that range and keeps all others |
| `DirtyBitmap.MaskIsPower` | lib/dma.h:168-183 | the bits of a byte are numbered from the least significant one |
| `DirtyBitmap.FirstPageExact` | lib/dma.h:141-145 | the first page is computed right if and only if the base is at most the offset within its page |
| `DirtyBitmap.LastPage` | lib/dma.h:147-151 | the last page touched is that of a piece that starts on a page boundary, one further exactly when the remainders of offset and length carry |
| `DirtyBitmap.PageRangeExact` | lib/dma.h:153-166 | the computed pages are the touched ones if and only if the base is at most the offset within a page and the remainders of offset and length do not carry |
| `DirtyBitmap.PageRangeInBitmap` | lib/dma.h:153-183 | computed pages are pages of the region whenever the offset reaches the base |
| `DirtyBitmap.PageLimitFits` | lib/dma.h:147-166 | the computed page numbers stay below 2^64, although the subtraction in front of them wraps |
| `DirtyBitmap.MarkInsideIff` | lib/dma.h:153-183 | a mark is written inside the allocated bitmap if and only if the offset reaches the base or the wrapped difference is still among the bitmap's pages |
| `DirtyBitmap.InsideIffReaches` | lib/dma.h:141-166 | for a region that ends eight pages or more below 2^64 that is so if and only if the offset reaches the base |
| `DirtyBitmap.MarkLeavesBitmap` | lib/dma.h:141-183 | the first byte of a page at 0x100000 is marked far behind its bitmap of one byte |
| `DmaLogging.StartOutcome` | lib/dma.c:427-467 | logging that is off starts if and only if the page size is not 0, every region has a page and memory suffices, and every region then has a blank bitmap with a bit for each page; logging that is on stays and accepts the same page size only |
| `DmaLogging.FailedStart` | lib/dma.c:427-467 | what a failing start leaves: a region that is too small lets those in front of it keep their bitmaps, a failed allocation does not |
| `DmaLogging.StopOutcome` | lib/dma.c:468-485 | stopping turns logging off and, if it was on, releases every bitmap |
| `DmaLogging.GetSucceedsIff` | lib/dma.c:487-531 | a bitmap is returned if and only if a region starts at the address and is long enough, the page size is the current one and the size fits; it is that region's bitmap |
| `DmaLogging.GetAnswers` | lib/dma.c:487-531 | -ENOTSUP if no region starts at the address and is long enough, otherwise -EINVAL if page size or size do not agree |
| `DmaLogging.GetFitsAllocation` | lib/dma.c:487-531 | after logging start and any run of translations (a mark outside its bitmap being no operation), a bitmap that is read is that of the region at the address, and what is sent back is no larger than what was allocated for it |
| `DmaLogging.ReadBackPages` | lib/dma.c:487-531 | reading a region's bitmap after a run whose marks stay inside succeeds and gives exactly the pages that the run was computed to cover |
| `DmaLogging.ApplyAllMarks` | lib/dma.h:168-206 | a run of translations marks exactly the pieces of its writes, a mark outside its bitmap being no operation |
| `DmaLogging.MarksStayInsideIff` | lib/dma.h:168-183 | after logging start every mark of a run falls inside the bitmap of its region if and only if every piece it marks meets the condition of MarkInsideIff |
| `DmaLogging.FirstLoggedWriteStrays` | lib/dma.h:168-183 | a table and one write after logging start whose mark leaves the bitmap |
| `DmaLogging.LoggedPages` | lib/dma.h:133-206 | after logging start and any run whose marks stay inside, a bit is set exactly when some translated piece was computed to cover its page |
| `DmaLogging.DirtyPagesExact` | lib/dma.h:133-206 | if every piece meets the exact condition, the bitmap is the set of pages touched |
| `DmaLogging.WrongPageForNonzeroBase` | lib/dma.h:141-166 | a page-aligned piece of a region with a nonzero base is never marked right |
| `DmaController.Controller.constructor` | lib/dma.c:73-92 | a new controller has an empty table and no logging |
| `DmaController.Controller.AddRegion` | lib/dma.c:252-359 | the array holds what the value-level addition gives; result and closed descriptors agree |
| `DmaController.Controller.RemoveSlot` | lib/dma.c:119-135 | shifting the array deletes exactly one region |
| `DmaController.Controller.RemoveRegion` | lib/dma.c:138-178 | refines the value-level removal; the assertions about descriptors hold |
| `DmaController.Controller.RemoveRegions` | lib/dma.c:180-205 | empties the table and closes the descriptor of every mapped region once |
| `DmaController.Controller.MarkDirty` | lib/dma.h:168-183 | the loop over pages marks exactly the piece in its region and nothing else |
| `DmaController.Controller.InitSg` | lib/dma.h:185-206 | the entry describes the piece, its pages are marked if it is a write under logging, a missing permission is refused |
| `DmaController.Controller.SgSplit` | lib/dma.c:361-413 | the nested search loop ends and computes the specified split: table, count, error and entry |
| `DmaController.Controller.AddrToSg` | lib/dma.h:221-250 | with any hint, the result is that of the slow search |
| `DmaController.Controller.MapSg` | lib/dma.h:252-282 | refines the value-level map, partial counts of a failure included |
| `DmaController.Controller.UnmapSg` | lib/dma.h:284-310 | refines the value-level unmap |
| `DmaController.Controller.LoggingStart` | lib/dma.c:427-467 | every region gets a blank bitmap, or what a failure leaves behind |
| `DmaController.Controller.LoggingStop` | lib/dma.c:468-485 | releases all bitmaps |
| `DmaController.Controller.DirtyPageGet` | lib/dma.c:487-531 | refines reading a bitmap; the table is unchanged |
| `PciCaps.FindByOffset` | lib/pci_caps.c:333-352 | the first capability in table order that is near the range, and none in front of it is |
| `PciList.WriteKeepsList` | lib/pci_caps.c:398-455 | a capability written into free bytes is appended to the list through the bytes; all earlier links, ids and sizes are kept |
| `PciList.AddKeepsListIff` | lib/pci_caps.c:527-643 | a successful addition leaves a well-formed list with the new capability at its end if and only if the bytes it was given were free |
| `PciList.WalkVisitsTable` | lib/pci_caps.c:407-440 | following next bytes from the header of a well-formed list visits exactly the table's capabilities in order, each once, and ends |
| `PciList.PlaceOnList` | lib/pci_caps.c:407-455 | on a well-formed list the bytes say what the table says: where the last link is stored, and which offset is behind the last capability |
| `PciList.LinkBytes` | lib/pci_caps.c:398-455 | the links byte by byte: offset 0x34 leads to the first capability, and the second byte of each to the next, or is 0 |
| `PciList.AutoIsNext` | lib/pci_caps.c:425-440 | the automatic position is the first multiple of 4 behind the last capability, or 0x40 |
| `PciList.AddedRecords` | lib/pci_caps.c:527-643 | a capability that was added has the id, size, flags and position that were asked for |
| `PciList.AddSucceedsIff` | lib/pci_caps.c:527-643 | a capability is added to a well-formed list if and only if a callback flag has a handler, there are fewer than 1024, the id is known, and the position is acceptable or there is room |
| `PciList.AddRefuses` | lib/pci_caps.c:527-643 | the error for each of these: EINVAL, ENOSPC, ENOTSUP |
| `PciList.HighCapabilityIsLost` | lib/pci_caps.c:449-453 | from offset 256 on the stored link differs from the offset, no walk that ends leads to the capability, and the list is no longer well-formed |
| `PciList.ExplicitIsFree` | lib/pci_caps.c:409-424 | a position that was asked for and accepted is free |
| `PciList.TameIsFree` | lib/pci_caps.c:425-440 | an automatic position, or one above all earlier ones, is free when the table ascends |
| `PciList.AutomaticPlacementOverlaps` | lib/pci_caps.c:425-440 | three accepted additions to a blank space of which the automatic one is placed over an earlier capability |
| `PciList.ListAfterAnyAdditionsIff` | lib/pci_caps.c:398-455 | through any run of additions, refused ones included, the list stays well-formed (links visit exactly the table in insertion order and end at 0; ranges disjoint, outside the header, encoding id and size) if and only if every addition that was made was given free bytes |
| `PciList.ListAfterTameAdditions` | lib/pci_caps.c:398-455 | if every addition that is made asks for an automatic position or one behind all earlier capabilities, and below 256, the list stays well-formed and ascending |
| `PciList.SearchStart` | lib/pci_caps.c:686-736 | the byte a search continues from links to the capability behind the given one |
| `PciList.FindOnList` | lib/pci_caps.c:686-736 | on a well-formed list, from 0 or a listed offset, the search through the bytes answers as the search through the table, and ends |
| `PciList.FindErrors` | lib/pci_caps.c:686-736 | on any bytes: EINVAL for an offset or a link outside the space, ENOENT for the end of the list |
| `PciList.SearchEnumerates` | lib/pci_caps.c:686-742 | repeated find-next from any listed offset returns exactly the later capabilities with the id, each once, in list order, then 0 |
| `PciList.SearchFindsTable` | lib/pci_caps.c:686-742 | on a well-formed list, from 0, these are the table's capabilities with that id in the order they were added |
| `PciRouting.SecondLookupAgrees` | lib/pci_caps.c:354-362 | the second lookup finds the capability that the segment was cut for |
| `PciRouting.SegmentsTile` | lib/pci.c:334-400 | the segments tile the access in order, whatever the table holds |
| `PciRouting.RoutingExact` | lib/pci.c:334-400 | each segment lies in the header, in its one capability, or outside all of them if and only if the access meets the capabilities in table order and does not overrun one it starts inside |
| `PciRouting.RestOverrunsNothing` | lib/pci.c:334-370 | if an access overruns no capability, neither does the rest of it behind a segment, and the segment ends within its capability |
| `PciRouting.TableOrderMatters` | lib/pci_caps.c:333-352 | two capabilities and an access that is routed right in one table order and wrong in the other |
| `PciAccess.WrittenInFull` | lib/pci.c:372-400 | if the device handles all bytes it is given or fails, so does every handler for its segment |
| `PciAccess.WrittenInPart` | lib/pci.c:372-400 | every handler handles a part of its segment or fails, and the space keeps its size |
| `PciAccess.BarSizing` | lib/pci.c:45-77 | after all ones are written to a base address register its type bits are kept and the size of the region can be read back from the others |
| `PciAccess.BarHoldsAddress` | lib/pci.c:45-77 | an aligned address that is written reads back with the type bits kept |
| `PciAccess.CommandTakesBits` | lib/pci.c:81-188 | the command register takes over the six known bits and keeps all others, even when the write is refused, which it is exactly for a bit that is neither known nor ignored |
| `PciAccess.RomStaysAbsent` | lib/pci.c:190-217 | an expansion ROM register that reads 0 does so after any write |
| `PciAccess.HeaderWriteKeeps` | lib/pci.c:219-300 | a header write changes neither the capability pointer nor any byte of a capability's header |
| `PciAccess.CapHandlerStays` | lib/pci_caps.c:113-325 | a capability's write handler changes only bytes of that write |
| `PciAccess.CapWriteKeeps` | lib/pci_caps.c:354-387 | a write within a capability leaves its id, next and size bytes alone |
| `PciAccess.NoOverrunKeepsList` | lib/pci.c:372-400 | a write that overruns no capability, failed or not, whatever the order of the table, changes none of the bytes that hold the list together |
| `PciAccess.GuardedAfterWrite` | lib/pci.c:372-400 | after any write, failed or not, such a byte is what the client sent for it if a segment that was reached and belongs to a writable vendor capability, behind its header, carries it, and what it was otherwise |
| `PciAccess.WriteBreaksIff` | lib/pci.c:359-400 | so a write keeps all these bytes if and only if no such segment carries a different byte to one of them |
| `PciAccess.RunKeepsGuardedIff` | lib/pci.c:372-400 | over any run of writes they are kept throughout if and only if no write of it does that |
| `PciAccess.OverrunReplacesHeader` | lib/pci.c:359-360 | a write that overruns a vendor capability replaces the next capability's id |
| `PciAccess.RunKeepsGuarded` | lib/pci.c:372-400 | over any run of writes that overrun no capability these bytes are kept |
| `PciAccess.ListSurvives` | lib/pci_caps.c:398-455 | the list is well-formed after any change of other bytes |
| `PciAccess.ClientCannotBreakList` | lib/pci.c:372-400 | after any such run the list is well-formed and every find-next answers as before |
| `PciAccess.ReadEqualsMemory` | lib/pci.c:277-400 | for any table in any order, an in-bounds read returns exactly the bytes of configuration space |
| `PciEffects.OneSegment` | lib/pci.c:372-400 | an access that is one segment, handled in full or not at all, has the effect of its handler |
| `PciEffects.BarSizingAccess` | lib/pci.c:45-77 | after all ones were written to base address register b through an access, the size of region b can be read back from that register, its type bits are kept, and no other byte changes |
| `PciEffects.BarAddressAccess` | lib/pci.c:45-77 | an aligned address written to it reads back with the type bits kept |
| `PciEffects.AbsentBarKept` | lib/pci.c:45-77 | the register of a region that is not there keeps its value |
| `PciEffects.ByteRegisters` | lib/pci.c:219-265 | a byte for the interrupt line or the latency timer is stored there, and no other byte changes |
| `PciEffects.StatusIgnored` | lib/pci.c:219-265 | the status register ignores writes |
| `PciEffects.CommandAccess` | lib/pci.c:81-188 | through an access the command register takes over exactly its known bits and refuses unknown ones |
| `PciEffects.CommandSize` | lib/pci.c:81-188 | a write to it of any size but two bytes is refused |
| `PciEffects.RomAccess` | lib/pci.c:190-217 | the expansion ROM register accepts sizing, is cleared by 0, and refuses all else |
| `PciEffects.OtherHeaderBytes` | lib/pci.c:219-265 | a write that starts at any other byte of the header is refused and changes nothing |
| `PciEffects.CapabilitySegment` | lib/pci.c:334-370 | an access within a capability is one segment in its hands if and only if no capability in front of it in the table starts where the access ends |
| `PciEffects.ReadOnlyRefuses` | lib/pci_caps.c:354-387 | a write to a read-only capability is answered with EPERM and changes nothing |
| `PciEffects.CallbackReached` | lib/pci_caps.c:354-387 | a write to a capability with the callback flag is answered by the device |
| `PciEffects.CapHeaderRefuses` | lib/pci_caps.c:354-387 | a write to the header of any other capability is answered with EPERM |
| `PciEffects.VendorStores` | lib/pci_caps.c:303-325 | bytes written into a vendor-specific capability behind its header and within its end are stored, and no other byte changes |
| `PciEffects.PowerManagementStores` | lib/pci_caps.c:113-154 | control and status of power management are stored as written |
| `PciEffects.PowerCapabilitiesAbort` | lib/pci_caps.c:133-154 | writing its capabilities register runs into an assertion |
| `PciEffects.MsixTakesBits` | lib/pci_caps.c:156-200 | message control of MSI-X takes over its enable and mask bits and keeps the others |
| `PciEffects.ExpressTakesBits` | lib/pci_caps.c:202-301 | device control of PCI Express takes over all bits but the one that starts a reset |
| `PciEffects.OtherRegistersRefuse` | lib/pci_caps.c:113-325 | every other write behind the header of these capabilities is refused and changes nothing |
| `PciEffects.DeviceAccess` | lib/pci.c:302-325 | a write near no capability is answered by the device, or refused if it has no handler |
| `PciEffects.ReadOnlyKept` | lib/pci.c:372-400 | a write of any extent that overruns nothing changes no byte of a read-only capability |
| `PciEffects.MemoryRead` | lib/pci.c:277-400 | reads of the header and of capabilities without the callback flag return memory, whatever the device does |
| `PciEffects.CallbackRead` | lib/pci_caps.c:354-387 | a read of a capability with the callback flag returns what the device returns |
| `PciEffects.DeviceReadAccess` | lib/pci.c:302-325 | so does a read near no capability; without a handler it returns memory |
| `PciEffects.AddedReadOnly` | lib/pci_caps.c:527-643 | a capability that was added read-only refuses every write within it with EPERM |
| `PciEffects.AddedCallback` | lib/pci_caps.c:527-643 | one that was added with the callback flag hands them to the device |
| `PciEffects.AddedBytes` | lib/pci_caps.c:398-455 | the bytes of an added capability are where it was put, but for its link |
| `PciDevice.ConfigSpace.constructor` | lib/pci.c:402-451 | a blank configuration space without capabilities |
| `PciDevice.ConfigSpace.LastLink` | lib/pci_caps.c:407-424 | on any bytes whose links do not run in a circle the walk ends where the specified walk ends, or leaves the space where that does |
| `PciDevice.ConfigSpace.NextFree` | lib/pci_caps.c:425-440 | the offset behind the capability that the list ends with, read off its bytes, or the abort on an unknown one |
| `PciDevice.ConfigSpace.FindCap` | lib/pci_caps.c:333-352 | refines the lookup by offset |
| `PciDevice.ConfigSpace.AddCapability` | lib/pci_caps.c:527-643 | on any such bytes and any table it does what the value-level addition does; on any error nothing has changed |
| `PciDevice.ConfigSpace.FindNextCapability` | lib/pci_caps.c:686-736 | on any such bytes and from any offset it returns what the search through the bytes finds, or 0 and its error |
| `PciDevice.ConfigSpace.AccessRead` | lib/pci.c:372-400 | the read loop computes the specified bytes, also when the device returns fewer than it was asked for |
| `PciDevice.ConfigSpace.WriteHeader` | lib/pci.c:219-300 | refines the value-level header write |
| `PciDevice.ConfigSpace.WriteDevice` | lib/pci.c:306-325 | refines the device's own handler |
| `PciDevice.ConfigSpace.HandleCapability` | lib/pci_caps.c:113-325 | refines the handlers of the capabilities |
| `PciDevice.ConfigSpace.AccessWrite` | lib/pci.c:372-400 | the write loop has the specified effect, reply and error |
| `Migration.TransitionTable` | lib/migration_priv.h:76-113 | the allowed transitions, spelled out, in both directions |
| `Migration.AnswerMattersIff` | lib/migration.c:112-477 | what the device answers makes a difference to an access if and only if the access makes a callback |
| `Migration.AbortsIff` | lib/migration.c:112-175 | the library stops the server if and only if the error state is written in a state other than stop and error |
| `Migration.RefusedAccessIff` | lib/migration.c:112-477 | exactly these accesses are refused without a callback: a state that cannot be set, a register that cannot be written or has no value now, a wrong width, the gap in front of the data |
| `Migration.CallsMade` | lib/migration.c:112-477 | which callback each register and the data area make, when, and with which arguments |
| `Migration.StateIsLastSet` | lib/migration.c:112-175 | after any run, whatever the device answered, device_state reads as the last state that was set |
| `Migration.PendingIsStable` | lib/migration.c:179-222 | two reads of pending_bytes in a row agree, with at most one callback |
| `Migration.RunIsOrderly` | lib/migration.c:112-309 | in any run, whatever the device answers, each callback comes when it is due, and the iteration state is what the callbacks made it |
| `Migration.OrderlyFromStart` | lib/migration.c:62-102 | so every run from a new region, which starts out running |
| `Migration.NothingAfterZero` | lib/migration.c:179-309 | once zero pending bytes were reported, neither callback is made before the state is set again |
| `Migration.PreparationsAlternate` | lib/migration.c:179-309 | between two successful preparations without a state change, a nonzero number of pending bytes was reported |
| `Migration.QuietKeepsIteration` | lib/migration.c:231-272 | once data is prepared, any run of accesses that neither ends the iteration nor sets the state leaves all registers as they are |
| `Migration.DataOffsetIsStable` | lib/migration.c:231-309 | within one iteration every read of data_offset returns the same |
| `MigrationRegion.Region.constructor` | lib/migration.c:62-102 | running, with no iteration begun |
| `MigrationRegion.Region.HandleDeviceState` | lib/migration.c:112-175 | the handler makes exactly the callback that the access calls for, and leaves region, device and reply as the device's answer demands |
| `MigrationRegion.Region.HandlePendingBytes` | lib/migration.c:179-222 | the handler makes exactly the callback that the access calls for, and leaves region, device and reply as the device's answer demands |
| `MigrationRegion.Region.HandleDataOffset` | lib/migration.c:231-309 | the handler makes exactly the callback that the access calls for, and leaves region, device and reply as the device's answer demands |
| `MigrationRegion.Region.HandleDataSize` | lib/migration.c:311-367 | the handler makes exactly the callback that the access calls for, and leaves region, device and reply as the device's answer demands |
| `MigrationRegion.Region.RegionAccess` | lib/migration.c:369-477 | so does any access to the region, registers and data area |
| `SampleServer.GuestsChangeBars` | samples/server.c:87-141 | any writes of the guest change contents of the BARs and what is pending in pre-copy, nothing else |
| `SampleServer.GuestsAreFrozen` | lib/libvfio-user.c:240-285 | in stop-and-copy and in stop, any writes of the guest change nothing |
| `SampleServer.GuestsStore` | samples/server.c:87-141 | before stop-and-copy, the guest's writes are stored in the BARs in order |
| `SampleServer.GuestEffect` | samples/server.c:87-141 | what one write of the guest changes, byte by byte, and what it makes pending |
| `SampleServer.DeviceAbortsIff` | samples/server.c:258-388 | the device's assertions fail exactly when it is stopped with data pending, or a full image arrives while it runs and the timer cannot be armed |
| `SampleServer.DeviceStates` | samples/server.c:258-297 | what each state makes pending, and that a device cannot run without its timer |
| `SampleServer.DeviceReads` | samples/server.c:318-354 | the image is read at once or not at all, and reads as zeros outside saving |
| `SampleServer.DeviceWrites` | samples/server.c:356-388 | BAR1 is taken from any data that is long enough, BAR0 only from data of the full size, and other sizes are refused after BAR1 was replaced |
| `SampleServer.RegionRefuses` | lib/libvfio-user.c:240-285 | a stopped device refuses every access to the migration region, and any device one past its end |
| `SampleDevice.Device.ChangeState` | samples/server.c:258-297 | refines the transition callback, its assertion included |
| `SampleDevice.Device.ReadData` | samples/server.c:318-354 | returns the image and takes it off what is pending |
| `SampleDevice.Device.WriteData` | samples/server.c:356-388 | restores BAR1, and BAR0 behind it |
| `SampleDevice.Device.GuestWrites` | samples/server.c:87-141 | refines a guest's write to a BAR |
| `MigrationRegion.SampleHost.ClientAccess` | lib/migration.c:419-477 | an access through the dispatcher, the library and the device's callback has the specified effect on all of them |
| `LiveMigration.GuestsKeepCopying` | samples/server.c:116-141 | guest writes do not disturb an iteration; what is pending stays pending |
| `LiveMigration.DataStep` | samples/server.c:318-354 | reading what is pending returns the device's image |
| `LiveMigration.EnterCopying` | samples/server.c:258-297 | entering pre-copy or stop-and-copy makes the whole image pending |
| `LiveMigration.StopStep` | samples/server.c:258-297 | a device with nothing pending can be stopped: no assertion fails |
| `LiveMigration.RestoreStep` | samples/server.c:356-388 | writing a chunk restores the BARs it carries |
| `MigrationClient.AskPending` | samples/client.c:732-799 | reads what is pending, and begins an iteration if there is anything |
| `MigrationClient.FetchChunk` | samples/client.c:732-799 | fetches the image as it is when it is read; the BARs are then those before with the guest's writes of these three turns stored in order |
| `MigrationClient.DoMigrate` | samples/client.c:732-799 | between 1 (if anything is pending) and the given number of chunks; fewer only when nothing is pending any more. In pre-copy chunk i is BAR1 with all guest writes up to its read; in stop-and-copy there is one chunk, the whole image |
| `MigrationClient.MigrateFrom` | samples/client.c:842-922 | the source is stopped with the BARs that the guest left before the freeze, and the chunks, one or more of pre-copy and one of stop-and-copy, end with its whole image |
| `MigrationClient.MigrateTo` | samples/client.c:924-1066 | replaying such chunks in order gives a running device with that image |
| `MigrationClient.Migrate` | samples/client.c:842-1066 | for any guest writes between any two accesses and any number of pre-copy iterations: no callback fails, the destination runs, and both its BARs equal those of the stopped source, which are the initial ones with the guest's writes before the freeze stored in order |
| `MigrationClient.DestinationHasLastFill` | samples/client.c:808-840 | the sample's own comparison: if the guest's last write before the freeze fills BAR1, the destination's BAR1 is those bytes |
| `RegionInfo.FromLeOfLe` | lib/libvfio-user.c:104-166 | a little-endian field is read back as written |
| `RegionInfo.AreasRoundTrip` | lib/libvfio-user.c:104-166 | any list of areas is decoded as encoded |
| `RegionInfo.CapsRoundTrip` | lib/libvfio-user.c:104-166 | the client's walk recovers exactly the type and the areas that were encoded |
| `RegionInfo.CapsLayout` | lib/libvfio-user.c:104-166 | the bytes behind the header field by field: ids, versions, links, type and subtype, number of areas, and each area |
| `RegionInfo.CapsKeepInfo` | lib/libvfio-user.c:104-166 | encoding capabilities leaves the fields of the header alone |
| `RegionInfo.Negotiation` | lib/libvfio-user.c:349-413 | a bare header is told the size needed, and a buffer of that size is filled exactly and holds everything |
| `RegionInfo.ReplyFields` | lib/libvfio-user.c:349-413 | for any buffer that holds the header: the size needed, each flag bit, index, start of the capabilities, size, and the offset with the index from bit 40 on |
| `RegionInfoMessages.DevGetCaps` | lib/libvfio-user.c:104-166 | the encoding in place, cursor and loop included, is the specified one, with one descriptor for each area, no more than the client can take |
| `RegionInfoMessages.DevGetRegInfo` | lib/libvfio-user.c:349-413 | the reply has the specified bytes for any buffer size |
| `RegionInfoMessages.GetRegionVfioCaps` | samples/client.c:211-250 | the pointer walk ends and finds what the specified walk finds |
| `RegionInfoMessages.GetDeviceRegionInfo` | samples/client.c:295-341 | after its two calls the client has exactly the migration type and the areas of the region, and a descriptor for each area |
| `Descriptors.AssignPlaces` | lib/irq.c:210-239 | each descriptor ends up in its own slot, no other slot changes |
| `Descriptors.SetIrqsPlaces` | lib/irq.c:319-373 | a valid request with descriptors puts the j-th into slot start + j whatever interrupt it is for; the slots of error and request never change |
| `Descriptors.SetIrqsRefusedIff` | lib/irq.c:241-317 | exactly which requests are refused with EINVAL, and that they change nothing |
| `Descriptors.DisableAll` | lib/irq.c:95-136 | TRIGGER without data and count 0 empties every slot of the kind and no other, for error and request interrupts too |
| `Descriptors.DisableSome` | lib/irq.c:319-373 | DATA_EVENTFD without descriptors empties the first count slots |
| `Descriptors.DisableFrom` | lib/irq.c:95-136 | from a later slot on it empties the slots in front of count only |
| `Descriptors.OthersKeepSlots` | lib/irq.c:319-373 | masking, unmasking and triggering leave the slots alone |
| `Descriptors.SetIrqsConserves` | lib/irq.c:319-373 | whatever is asked, a descriptor that is taken is held, one that is replaced is closed once, and no other is lost |
| `Descriptors.DisableConserves` | lib/irq.c:95-136 | disabling closes what it empties, once |
| `Descriptors.ResetIrqsConserves` | lib/irq.c:138-157 | so does a reset |
| `Descriptors.DisableEmptiesRangeIff` | lib/irq.c:95-136 | slots in use in [start, start + count) are all emptied if and only if start is 0 |
| `Descriptors.AddFate` | lib/dma.c:252-359 | the controller itself closes the descriptor exactly when the file cannot be mapped, and succeeds without change exactly for a region that is there already |
| `Descriptors.MapManyAccounts` | lib/libvfio-user.c:482-563 | over any DMA_MAP message each taken descriptor is held or closed once, but for the two exceptions, which are counted |
| `Descriptors.ExceptionIff` | lib/libvfio-user.c:482-563 | the books of a DMA_MAP message show an exception for a descriptor if and only if an entry that the loop reaches takes it and meets the guard of one of the two branches |
| `Descriptors.UnmapManyConserves` | lib/libvfio-user.c:482-563 | a DMA_UNMAP message closes the descriptors of the regions it removes, once |
| `Descriptors.MapAppends` | lib/libvfio-user.c:482-563 | a DMA_MAP message that succeeds appends its regions in order, the i-th with the i-th descriptor |
| `Descriptors.MapRecords` | lib/libvfio-user.c:482-563 | the i-th new region has span, offset and protection of the i-th entry and holds the i-th descriptor |
| `Descriptors.MapWithoutFd` | lib/libvfio-user.c:482-563 | an entry that is not mappable takes no descriptor, and its region has none |
| `Descriptors.FirstFailureDecides` | lib/libvfio-user.c:482-563 | the first entry that fails decides the answer, and those in front of it stay |
| `Descriptors.NoFailureSucceeds` | lib/libvfio-user.c:482-563 | a message none of whose entries fails is answered with 0 |
| `Descriptors.FirstUnmapFailureDecides` | lib/libvfio-user.c:482-563 | the first span that no region has, or whose callback fails, decides the answer to a DMA_UNMAP message |
| `Descriptors.UnmapUndoesMap` | lib/libvfio-user.c:482-563 | a DMA_UNMAP message for the same spans gives back the exact table |
| `DescriptorRuns.HandleBalances` | lib/libvfio-user.c:900-942 | the books of every descriptor balance over any one message: held, closed and lost after it are held, received and doubly closed with it |
| `DescriptorRuns.DisableMessage` | lib/irq.c:319-373 | a message that disables a kind of interrupts empties all its slots and changes nothing else |
| `DescriptorRuns.AssignMessage` | lib/irq.c:319-373 | a message with a descriptor for each interrupt puts them into their slots and changes nothing else |
| `DescriptorRuns.MapThenUnmap` | lib/libvfio-user.c:482-563 | a DMA_MAP message that succeeds adds its regions with their descriptors, and DMA_UNMAP for the same spans gives back all holders |
| `DescriptorRuns.RunBalances` | lib/libvfio-user.c:900-996 | and over any run of messages and disconnections |
| `DescriptorRuns.HeldOrClosedOnceIff` | lib/libvfio-user.c:900-996 | in any run a descriptor that came once is held in one place or was closed once, never both and never neither, if and only if in no DMA_MAP message it came for a region that was there already or for a file that could not be mapped |
| `DescriptorRuns.RunKeepsNoSpecial` | lib/irq.c:210-239 | in any run the slots of the error and request interrupts stay empty |
| `DescriptorRuns.NothingHeldAfterDisconnect` | lib/libvfio-user.c:1110-1130 | after a disconnection every received descriptor is closed, but for the two exceptions |
| `DescriptorRuns.ReAddLosesDescriptor` | lib/libvfio-user.c:520-541 | a descriptor for a region that is there already is neither held nor closed |
| `DescriptorRuns.FailedMmapClosesTwice` | lib/libvfio-user.c:520-541 | a descriptor whose file cannot be mapped is closed twice |
| `DescriptorRuns.BothExceptionsArise` | lib/dma.c:268-350 | an input for each exception |
| `RequestHandler.Context.IrqsDisable` | lib/irq.c:95-136 | the loop over slots has the specified effect, and closes what is specified |
| `RequestHandler.Context.IrqsReset` | lib/irq.c:138-157 | refines the specified reset |
| `RequestHandler.Context.SetDataEventfd` | lib/irq.c:210-239 | the loop fills the slots, closes the old descriptors and consumes every received one |
| `RequestHandler.Context.HandleSetIrqs` | lib/irq.c:319-373 | refines the specified handler: slots, closed descriptors, consumed ones, result |
| `RequestHandler.Context.ConsumeFd` | lib/libvfio-user.c:456-468 | hands out a descriptor and marks it consumed |
| `RequestHandler.Context.HandleDmaMap` | lib/libvfio-user.c:482-563 | the mapping loop on the controller's array has the specified effect, up to its first error |
| `RequestHandler.Context.HandleDmaUnmap` | lib/libvfio-user.c:482-563 | so has the unmapping loop |
| `RequestHandler.Context.CloseLeftovers` | lib/libvfio-user.c:935-942 | closes exactly the received descriptors that nobody consumed |
| `RequestHandler.Context.ProcessRequest` | lib/libvfio-user.c:900-942 | holders and closed descriptors after a message are the specified ones |
| `RequestHandler.Context.ResetCtx` | lib/libvfio-user.c:1110-1130 | holders and closed descriptors after a disconnection are the specified ones |
| `Dispatch.HoldersServedIff` | lib/libvfio-user.c:732-750 | DMA and interrupt messages take effect exactly when the device is neither stopped nor stop-and-copying |
| `Dispatch.BarWriteServedIff` | lib/libvfio-user.c:240-339 | so do writes to BAR1: the written bytes and no others change |
| `Dispatch.SavingLeadsToStop` | lib/migration.c:112-175 | from stop-and-copy no access to the migration region leads anywhere but to stop |
| `Dispatch.StepFreezes` | lib/libvfio-user.c:752-898 | one message in stop-and-copy or stop changes no interrupt slot, no DMA region but for its bitmap, and no byte of configuration space |
| `Dispatch.FrozenWhileConnected` | lib/libvfio-user.c:724-898 | so over any run of messages, and the state can only stay or become stop |
| `Dispatch.StoppedStep` | lib/libvfio-user.c:732-750 | in stop only DIRTY_PAGES does anything |
| `Dispatch.StopIsFinal` | lib/libvfio-user.c:732-750 | once stopped, over any run with any reconnections: state, device and configuration space never change |
| `Dispatch.SpecialStayEmpty` | lib/irq.c:210-239 | over any run of messages and disconnections the slots of the error and request interrupts stay empty |
| `Dispatch.EmptyOnceLost` | lib/libvfio-user.c:1110-1130 | after a disconnection in stop-and-copy no run fills a slot, those of the error and request interrupts included, or a region again |
| `Dispatch.RunKeepsAgree` | lib/migration.c:112-175 | over any run the device was told the state that the library keeps |
| `Dispatch.BarsKeptIff` | samples/server.c:356-388 | in stop-and-copy an access to the migration region keeps the BARs if and only if it is not a data write of other contents that starts at the data offset and covers BAR1 |
| `Dispatch.BarsAreFrozen` | lib/libvfio-user.c:240-285 | from stop-and-copy on, a run without writes into the data area keeps both BARs |
| `Dispatch.MessageReplacesBar1` | samples/server.c:356-388 | in stop-and-copy one data write replaces BAR1 by any bytes |
| `DispatchEffects.ConfigWriteServedIff` | lib/libvfio-user.c:201-339 | a write to configuration space has the effect of the PCI code if the device is neither stopped nor stop-and-copying, and none otherwise |
| `DispatchEffects.ByteRegisterServedIff` | lib/libvfio-user.c:201-339 | so a byte for the interrupt line or latency timer is stored, or nothing changes |
| `DispatchEffects.VendorWriteServedIff` | lib/libvfio-user.c:201-339 | so are bytes for a vendor-specific capability |
| `DispatchEffects.BarSizingServed` | lib/libvfio-user.c:201-339 | a message that sizes base address register b has the size of region b read back from it |
| `DispatchEffects.Bar0WriteServedIff` | samples/server.c:87-114 | a timestamp for BAR0 is stored if and only if the device is not frozen and, if it runs, the timer is armed |
| `DispatchEffects.Bar0PartRefused` | samples/server.c:87-114 | any other write to BAR0 changes nothing |
| `DispatchEffects.BadAccessRefused` | lib/libvfio-user.c:240-339 | a bad header, an empty access, a wrong size, an unknown region and an access past the end of its region change nothing |
| `DispatchEffects.ReadsChangeNothing` | lib/libvfio-user.c:201-339 | reads change nothing outside the migration region |
| `DispatchEffects.LoggingStarts` | lib/libvfio-user.c:620-652 | in any state of the device, DIRTY_PAGES with the start flag turns logging on with pages of 4096 bytes and a blank bitmap for every region |
| `DispatchEffects.LoggingStops` | lib/libvfio-user.c:620-652 | with the stop flag it turns logging off and releases every bitmap |
| `DispatchEffects.OtherDirtyPages` | lib/libvfio-user.c:620-652 | reading a bitmap, bad flags and a bad size change nothing |
| `DispatchEffects.StateWriteServed` | lib/migration.c:112-175 | a message that sets the state of a running device leaves library and device in it, with what it makes pending |
| `MessageLoop.MessageServer.IsValidAccess` | lib/libvfio-user.c:240-285 | decides what the value-level check decides |
| `MessageLoop.MessageServer.HandleRegionAccess` | lib/libvfio-user.c:201-339 | an access to any region changes exactly the object behind it, as the value-level dispatcher says |
| `MessageLoop.MessageServer.DirtyPagesCommand` | lib/libvfio-user.c:620-652 | logging is started or stopped on the controller, and nothing else changes |
| `MessageLoop.MessageServer.ProcessMessage` | lib/libvfio-user.c:752-942 | after any message the whole server is in the state of the value-level dispatcher, and the closed descriptors are those of the ledger; all that came with a refused command are among them |
| `MessageLoop.MessageServer.ConnectionLost` | lib/libvfio-user.c:1110-1130 | slots and regions are emptied and their descriptors closed; migration state, device and configuration space stay |

## Left out

- Socket transport, version negotiation and its JSON (`lib/tran_sock.c`): input and output only.
- `mmap`, `fstat`, `close` and `eventfd_write`: what they answer is an input; `close` is recorded, and a descriptor number used again counts as another descriptor.
- Logging of messages, errno, timers, signals, MD5 sums, and processes of the sample programs.
- 64-bit wrap-around and 32-bit truncation: addresses, offsets and lengths are natural numbers, but for the subtraction in front of a page number (`DirtyBitmap`).
- The per-thread copy of the cached region index: the model keeps one for each controller.
- Extended capabilities: their place in lookups is modelled, their placement and search are not.
- PciDevice.ConfigSpace.AddCapability: bytes whose links run in a circle are excluded, since the original never returns from them.
- PciDevice.ConfigSpace.FindNextCapability: so they are here, unless a match comes first.
- PciDevice.ConfigSpace.AccessWrite: a device's own handler that reports no byte handled is excluded, since the original calls it forever.
- PciDevice.ConfigSpace.AccessRead: a device's own handler that returns no byte is excluded for the same reason.
- PciEffects.CallbackReached: for answers of the device that cover the whole access; a part is followed by another segment.
- PciEffects.CallbackRead: likewise.
- PciEffects.DeviceAccess: likewise.
- PciEffects.DeviceReadAccess: likewise.
- PciEffects.ReadOnlyKept: for devices that handle all bytes or fail and leave the capability alone.
- PciAccess.NoOverrunKeepsList: for devices that handle all bytes or fail; after a part of a capability the next segment starts inside it. `WriteBreaksIff` is the exact condition for any device that leaves the bytes of the list alone.
- PciAccess.ClientCannotBreakList: for accesses that do not overrun a capability; `OverrunReplacesHeader` shows why, and `RunKeepsGuardedIff` is the exact condition.
- DmaLogging.DirtyPagesExact: one direction over a run; `PageRangeExact` is the exact condition for each piece.
- RequestHandler.Context.HandleDmaUnmap: a message that removes a region with outstanding entries runs into an assertion and is excluded.
- DmaLogging.GetFitsAllocation: a mark outside its bitmap is no operation here; `ReadFitsAfterRun` is about runs without one.
- DmaLogging.ApplyAllMarks: a mark outside its bitmap, or in a region that was added while logging was on and has none, is no operation here; what it overwrites is not modelled, and `DmaRuns` promises nothing after it.
- DirtyBitmap.MarkInsideIff: pages of one byte are excluded, since their numbers can exceed 64 bits.
- DmaRuns.LostIff: for regions that end within 2^64 and, for the same reason, pages of more than one byte.
- DmaController.Controller.SgSplit: spans of which a piece would be marked outside its bitmap are excluded; `MarkInsideIff` says which those are.
- DmaController.Controller.RemoveRegion: a region with outstanding entries runs into an assertion and is excluded.
- MigrationClient.Migrate: both devices have BARs of the same sizes, and the timer of the destination can be armed.
- Reply messages and their buffers, but for region info and the migration region.
- MessageLoop.MessageServer.HandleRegionAccess: the state that a failed assertion leaves behind is not specified.
- A device other than the sample device: its migration callbacks may answer anything in `Migration`, but `Dispatch` and `MigrationClient` are about the sample device.
- The commands that only report (device, region and interrupt information) are one command in `Dispatch`, and so is DEVICE_RESET, since the sample device ignores it.
- Entries that the device has mapped while messages come: `DescriptorRuns` and `Dispatch` have none, so the assertion about a removed region in use is not part of their runs.
- More than one error or request interrupt: `vfu_setup_device_nr_irqs` stores any number (`lib/libvfio-user.c:1456`), and `irqs_disable` then walks past the one slot; `CountsOk` excludes it.
- Triggering interrupts: what writing to the slots returns is an input.
- The other samples, the Python and C unit tests, and the build.
