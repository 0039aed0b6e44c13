# Coyote: verified models of its memory manager, scheduler and simulation host

Coyote is a shell for FPGAs: a kernel driver that gives the FPGA virtual memory on host and card, a
run-time scheduler that shares the FPGA between tasks, and a simulation host for testing designs.
This project models the parts of it in which state, protocol and arithmetic meet, and proves what
they keep.

**Virtual memory of a vFPGA.** `Bits`, `Tlb` and `TlbMapping` model the words the driver writes to
the TLBs, the controller that decodes them, and the walk that coalesces pages into large entries.
`BufferTable` is the page-fault window and the search for a present buffer. `Dma` is a migration
between host and card as two interleaving parties. `VirtualMemory` puts them together as a state
machine of driver, card, FPGA, processor and TLB replacement, and proves of every run, whatever
frames buffers share, that each TLB entry leads to the page its buffer's flag selects. `FlatMemory`
proves that the contents of memory are those of one flat memory per thread, with a host and a card
copy of every page, as long as frames are not shared. `RangeMoves` and `MemoryManager` model the
driver's calls (page fault, offload, sync, release) as methods that change the table, the TLBs and
the memories in place, and prove the first of every run of calls; `MemoryContents` proves the second,
and `Coverage` which pages are mapped after a call and which entries an unmap takes away.
`CardMemory` is the ring allocator behind card pages.

**Scheduling.** `Scheduler` is the task list and the scheduling thread under both policies, over
every interleaving of submissions and passes; `TaskResults` is what becomes of each task, and
`Fairness` how long it can wait. `Responses` is the path from completed tasks over the
socket to the client.

**Simulation host.** `SimMemory` is the sorted allocation tracker, refined to a flat byte memory.
`StreamDecoder` is the thread that reads messages from a pipe in arbitrary fragments, compared with a
parser of the whole stream.

**Reconfiguration buffers.** `ReconfigBuffers` follows every page and DMA mapping from allocation
over mapping to release, with every failure on the way.

`LittleEndian`, `Errno` and `Wrappers` hold byte order, error numbers and the option type.

What the environment decides is a parameter: the outcome of pinning pages and of kernel allocations,
what functions and reconfigurations return, the hash function and the order of hash chains, how a
pipe cuts its bytes, when the FPGA, the processor or the TLB replacement acts.

Where properties one would expect are false of the code, the code is modelled as it is, with an
example and the exact condition:

- The driver's unmapping writes miss small entries that were mapped through a window which cuts a
  group that coalesces in the whole buffer (`TlbMapping.WindowEntryMissed`).
- A window that begins inside a huge page can miss its last huge page (`Coverage.HugeReach`,
  `Coverage.InsideHugeUnmapped`).
- Unmapping a buffer also unmaps the same pages of other threads of the process
  (`Coverage.OthersSurvive`, `Coverage.ThreadsCollideExample`).
- Card chunks are handed out without looking at their used flag, so frees out of stack order lead to
  shared chunks (`CardMemory.TakeExact`, `CardMemory.OutOfOrderExample`). Where frames are shared, a
  write to one page shows in another (`FlatMemory.WriteFlatExact`, `FlatMemory.SharedFrameExample`).
- Offload and sync copy even when a buffer is already on the requested side and then lose what was
  written there (`MemoryContents.RangeKeeps`, `FlatMemory.LostWriteExample`). They take a
  following neighbour of the same chain with them (`RangeMoves.OneBufferRange`), and they do not end
  on every request (`RangeMoves.EndsExact`).
- Release compares with "less or equal" and stops at the first match, so a preceding neighbour that
  stands in front in the chain is released instead (`RangeMoves.ReleaseExact`).
- A huge-page fault may be clipped to a part of a huge page (`MemoryManager.ClippedHugeWindow`).
- With reordering, new tasks of the loaded bitstream keep another task waiting without end
  (`Fairness.FinishedInTime`, `Fairness.Starves`).
- The server answers failed tasks with code zero and without a value, so the client loses the frame
  of the stream (`Responses.ReportedExact`, `Responses.MisfiledExample`).
- Overlapping allocations of simulated memory give one byte two values (`SimMemory.AddedWf`,
  `SimMemory.OverlapExample`).
- Two failure paths of the reconfiguration buffers keep the memory lock (`ReconfigBuffers.RunLock`,
  `ReconfigBuffers.LostLockExample`).

## Model

| member | source | states |
|---|---|---|
| `Tlb.MapWordsDecode` | driver/src/vfpga/vfpga_hw.c:80-111 | The two packed words of a mapping write, read back through the controller's bit fields, give the page, thread id, side, frame and process that were asked for, although the frame's second copy runs out of word 1 |
| `Tlb.UnmapWordsDecode` | driver/src/vfpga/vfpga_hw.c:113-134 | An unmapping write addresses the same page and process and carries a clear valid bit |
| `Tlb.MapWrites` | hw/hdl/mmu/tlb_controller.sv:233-290 | A mapping write adds exactly the intended entry to the set of entries |
| `Tlb.UnmapWrites` | hw/hdl/mmu/tlb_controller.sv:281-302 | An unmapping write removes exactly the entries of that TLB and process that cover the page |
| `Tlb.FrameExact` | driver/src/vfpga/vfpga_hw.c:80-111 | The frame field gives the address back if and only if the address is aligned to the page size and below 2^44 |
| `TlbMapping.WalkIsChosen` | driver/src/vfpga/vfpga_gup.c:135-199 | The stepping walk over page arrays takes exactly the steps that a description without loop chooses: a large page at each aligned contiguous group, small pages for everything outside groups |
| `TlbMapping.WalkTiles` | driver/src/vfpga/vfpga_gup.c:135-199 | The steps cover all pages of the window one behind the other, without gap or overlap |
| `TlbMapping.MapRefinesPaging` | driver/src/vfpga/vfpga_gup.c:135-199 | Coalesced mapping refines page-by-page mapping: the entries of one call translate exactly the pages of a prefix, each to its own frame, and the prefix is everything unless the limit of entries per call was reached |
| `TlbMapping.MapEntryExact` | driver/src/vfpga/vfpga_gup.c:135-199 | No entry of a map call covers a page outside the window or sends a page to another page's frame |
| `TlbMapping.MapThenUnmap` | driver/src/vfpga/vfpga_gup.c:201-252 | Unmapping a buffer after mapping all of it leaves no entry of the map call: both walks choose alike at every page |
| `TlbMapping.WindowGroup` | driver/src/vfpga/vfpga_gup.c:135-199 | A group is coalesced inside a window if and only if it is coalesced in the whole buffer and lies inside the window |
| `TlbMapping.WindowEntryMissed` | driver/src/vfpga/vfpga_gup.c:201-252 | For an entry mapped through a window, the buffer's unmapping writes miss it if and only if it is a small entry inside a group that coalesces in the whole buffer |
| `TlbMapping.WindowEntryMissedExample` | driver/src/vfpga/vfpga_gup.c:201-252 | A concrete entry that the unmapping writes miss, for every geometry with real large pages |
| `TlbMapping.InvalidationsTile` | driver/src/vfpga/vfpga_gup.c:253-258 | If the request size divides the buffer, the invalidation requests tile it and exactly the final one carries the completion marker |
| `TlbMapping.InvalidationsNeverLast` | driver/src/vfpga/vfpga_gup.c:253-258 | If it does not divide the buffer, no request carries the marker |
| `BufferTable.FaultWindowExact` | driver/src/vfpga/vfpga_gup.c:42-50 | The page window of a fault contains a page if and only if the requested bytes touch it |
| `BufferTable.ZeroLength` | driver/src/vfpga/vfpga_gup.c:42-50 | A fault of no bytes asks for no page at the start of a page, and for that one page elsewhere |
| `BufferTable.MapPresent` | driver/src/vfpga/vfpga_gup.c:114-133 | The search returns the buffer that holds the first page with the window clipped to it, or else the window clipped in front of the nearest buffer behind it |
| `BufferTable.AnswerUnique` | driver/src/vfpga/vfpga_gup.c:114-133 | Over disjoint buffers the search result does not depend on the order of iteration |
| `BufferTable.AnswerPages` | driver/src/vfpga/vfpga_gup.c:114-133 | The pages left of the window: on a hit exactly those of the buffer, on a miss exactly those in front of the first page that a buffer holds |
| `BufferTable.MissKeepsDisjoint` | driver/src/vfpga/vfpga_gup.c:114-133 | A buffer created for a missed window is disjoint from all others of its thread |
| `Dma.Throttled` | driver/src/vfpga/vfpga_hw.c:136-191 | In every interleaving of driver and card at most 32 commands are outstanding, and the issued ones are a prefix of the job |
| `Dma.OnePerPage` | driver/src/vfpga/vfpga_hw.c:136-191 | With non-zero addresses there is one command per page, in page order |
| `Dma.LastIssued` | driver/src/vfpga/vfpga_hw.c:136-164 | Exactly the final page's command is marked last, if that page is not passed over |
| `Dma.InterruptPossible` | driver/src/vfpga/vfpga_gup.c:665-674 | The interrupt the driver waits for can come if and only if there is a final page and it is not passed over |
| `Dma.InterruptMeansDone` | driver/src/vfpga/vfpga_gup.c:665-685 | When the interrupt has come, every command was issued and is complete |
| `Dma.NeverStuck` | driver/src/vfpga/vfpga_hw.c:136-191 | Until everything is complete some step lowers a measure, in every reachable state |
| `Dma.MigrationMoves` | driver/src/vfpga/vfpga_gup.c:665-685 | On every interleaving, at the interrupt the target side holds the source's pages and nothing else has changed |
| `Dma.MigrationExact` | driver/src/vfpga/vfpga_hw.c:136-191 | The same for every list of pages: at the interrupt the pages with an address on both sides are across (for a sync all of them), pages passed over and everything else are as they were |
| `Dma.LimitReached` | driver/src/vfpga/vfpga_hw.c:136-191 | The limit is used: a run with 32 commands outstanding exists for every job with that many pages |
| `VirtualMemory.WindowEntriesBack` | driver/src/vfpga/vfpga_gup.c:135-199 | Every entry written for a window belongs to its buffer: right thread, process, side, pages and frames, also for a window that begins in the middle of a huge page |
| `VirtualMemory.ClearedExact` | driver/src/vfpga/vfpga_gup.c:201-263 | Unmapping a buffer removes an entry if and only if it is of the buffer's process and covers one of its pages |
| `VirtualMemory.StepOk` | driver/src/vfpga/vfpga_gup.c:27-112 | Every step of driver, card, FPGA, processor and TLB replacement, offload and sync in place included, keeps: page ranges of a thread disjoint, every TLB entry backed by a live buffer that is not in flight, migration consistent. It does not matter which frames buffers share |
| `VirtualMemory.InFlightUnmapped` | driver/src/vfpga/vfpga_gup.c:60-90 | While a buffer migrates, to the other side or in place, no TLB entry reaches any of its pages |
| `VirtualMemory.RunOk` | driver/src/vfpga/vfpga_gup.c:27-112 | The invariant holds in every state of every run |
| `VirtualMemory.RunEntries` | driver/src/vfpga/vfpga_gup.c:27-112 | On every run, at any time, every TLB entry leads to the frame that its buffer's flag selects for the page, on that side, and none reaches a buffer in flight |
| `FlatMemory.ReadsAreFlat` | hw/hdl/mmu/tlb_controller.sv:390-415 | What the FPGA reads through any entry is the current copy of that page in one flat memory per thread |
| `FlatMemory.StepFlat` | driver/src/vfpga/vfpga_gup.c:60-109 | Where a created buffer shares no frame, each event acts on a flat memory with a host and a card copy per page: mapping, eviction, transfer and the end of a migration are invisible; a migration makes both copies the current one and changes the side, in place it makes both the other one; the FPGA writes the current copy, the processor the host copy; creation adds and release removes the buffer's pages only |
| `FlatMemory.RunRefinesFlat` | driver/src/vfpga/vfpga_gup.c:27-112 | On every run, up to the first buffer created with a shared frame, the pages are those of the flat memory driven by the same events |
| `FlatMemory.RunReadsFlat` | driver/src/vfpga/vfpga_gup.c:27-112 | On such a run a read through any TLB entry returns the current copy of that page of the flat memory |
| `FlatMemory.WriteFlatExact` | driver/src/vfpga/vfpga_gup.c:27-112 | A write to a page changes that page and no other, whatever is written, if and only if no other page has the same frame on that side |
| `FlatMemory.SharedFrameExample` | driver/src/vfpga/vfpga_gup.c:89-109 | A run with two buffers on one frame, after which the pages are not those of the flat memory |
| `FlatMemory.ExampleRun` | driver/src/vfpga/vfpga_gup.c:89-109 | A concrete run that creates and maps a buffer, with an entry to read through and the value it must give |
| `FlatMemory.LostWriteExample` | driver/src/vfpga/vfpga_gup.c:706-716 | A run that moves a buffer to the card, writes it from the FPGA and offloads again: by the events alone, the write is lost |
| `RangeMoves.PassProgress` | driver/src/vfpga/vfpga_gup.c:700-718 | A pass over a hash chain moves on if and only if the chain holds a buffer with the page; otherwise the outer loop repeats without end |
| `RangeMoves.TiledRange` | driver/src/vfpga/vfpga_gup.c:700-718 | From a buffer's start over adjacent buffers the loop ends and takes every buffer of the range, for every hash function and chain order |
| `RangeMoves.LoopOnce` | driver/src/vfpga/vfpga_gup.c:700-718 | No buffer is taken twice in one request |
| `RangeMoves.EndsExact` | driver/src/vfpga/vfpga_gup.c:700-718 | For every hash: if no buffer of the first page's own chain has that page strictly inside, the loop ends if and only if the range is empty or tiled by adjacent buffers from its start on |
| `RangeMoves.InsideExample` | driver/src/vfpga/vfpga_gup.c:700-718 | From strictly inside a buffer of its own chain the loop jumps by that buffer's size and ends without a tiling |
| `RangeMoves.EndlessExample` | driver/src/vfpga/vfpga_gup.c:700-718 | A request from inside a buffer on which the loop does not end |
| `RangeMoves.OneBufferRange` | driver/src/vfpga/vfpga_gup.c:700-718 | A request inside one buffer: the loop ends if and only if the first page asked for is in the chain of the buffer's start; it takes that buffer alone if and only if no buffer behind it in the chain holds the page that lies the buffer's size further on |
| `RangeMoves.ReleaseExact` | driver/src/vfpga/vfpga_gup.c:524-587 | Releasing by a buffer's start removes that buffer and no other if and only if no buffer of its chain that ends there stands in front of it; otherwise exactly that neighbour is removed and the buffer stays, because the test includes the page behind a buffer and unlinking ends the iteration |
| `RangeMoves.ReleaseInside` | driver/src/vfpga/vfpga_gup.c:524-587 | Releasing by a page inside a buffer removes exactly that buffer if the page hashes to its chain, and else nothing |
| `RangeMoves.ReleaseElsewhere` | driver/src/vfpga/vfpga_gup.c:524-587 | Releasing a page that no buffer holds or ends before changes nothing |
| `RangeMoves.NeighbourExample` | driver/src/vfpga/vfpga_gup.c:700-718 | Two adjacent one-page buffers in one chain: moving the first takes the second as well |
| `RangeMoves.WrongReleaseExample` | driver/src/vfpga/vfpga_gup.c:524-587 | Releasing the second of them removes the first if that stands in front, and the second if it does not |
| `MemoryManager.CanGroup` | driver/src/vfpga/vfpga_gup.c:150-176 | The loop that tests for a large page decides exactly whether the group is aligned and contiguous |
| `MemoryManager.PlacedByProtocol` | driver/src/vfpga/vfpga_gup.c:60-109 | Bringing a buffer to either side is one migration of the protocol: its beginning, transfers until the interrupt, its end |
| `MemoryManager.HitOk` | driver/src/vfpga/vfpga_gup.c:60-88 | A fault on a present buffer keeps the invariant, in all four combinations of side and stream and on the error path |
| `MemoryManager.MissOk` | driver/src/vfpga/vfpga_gup.c:89-109 | A fault on an absent buffer keeps the invariant whatever frames it is granted, and on failure |
| `MemoryManager.ClippedHugeWindow` | driver/src/vfpga/vfpga_gup.c:114-133 | The window of a huge-page fault that misses is whole huge pages if and only if it is not clipped or the buffer it is clipped in front of starts at a huge page |
| `MemoryManager.ClippedHugeExample` | driver/src/vfpga/vfpga_gup.c:114-133 | A fault over two huge pages, wherever they are, with a small buffer one page into the second: its window ends inside a huge page |
| `MemoryManager.ForcedAllSides` | driver/src/vfpga/vfpga_gup.c:687-761 | Exactly the listed buffers end on the requested side |
| `MemoryManager.ForcedAllOk` | driver/src/vfpga/vfpga_gup.c:687-761 | All moves of an offload or sync, to the other side or in place, keep the invariant, TLBs included |
| `MemoryManager.CallOk` | driver/src/vfpga/vfpga_gup.c:27-761 | Every page fault, offload, sync and release keeps the invariant |
| `MemoryManager.CallsOk` | driver/src/vfpga/vfpga_gup.c:27-761 | On every run of faults, offloads, syncs and releases with writes and evictions between them the invariant holds in every state, whatever frames buffers share |
| `MemoryManager.CallsEntries` | driver/src/vfpga/vfpga_gup.c:27-761 | On every such run every TLB entry leads to the frame that its buffer's flag selects for the page |
| `MemoryManager.TiledRangeMoved` | driver/src/vfpga/vfpga_gup.c:687-761 | Offload and sync of a range tiled by buffers end, and leave every buffer of the range on the requested side |
| `Coverage.RegularReach` | driver/src/vfpga/vfpga_gup.c:158-197 | The pages a map call gives an entry are a prefix of the window, and that is the whole window unless the call wrote 256 entries; it never writes more |
| `Coverage.HugeReach` | driver/src/vfpga/vfpga_gup.c:145-156 | In a huge buffer a page of the window gets an entry if and only if its huge page comes within 256 steps and before the loop has counted off the window, wherever the window begins |
| `Coverage.WholeWindow` | driver/src/vfpga/vfpga_gup.c:135-199 | A window is mapped whole if it has at most 256 regular pages; in a huge buffer if and only if its last page gets its turn, as it does if the window begins at a huge page and has at most 256 of them |
| `Coverage.InsideHugeUnmapped` | driver/src/vfpga/vfpga_gup.c:145-156 | A window of two pages around a boundary inside a huge buffer leaves the second page unmapped |
| `Coverage.OthersSurvive` | driver/src/vfpga/vfpga_gup.c:253-258 | Unmapping a buffer takes an entry of another one if and only if both are of one process and the entry covers one of its pages; never within one thread |
| `Coverage.ThreadsCollideExample` | driver/src/vfpga/vfpga_gup.c:253-258 | Two threads of one process with a buffer on the same page: unmapping the one unmaps the other |
| `Coverage.FaultTable` | driver/src/vfpga/vfpga_gup.c:60-109 | The table after an answered fault: a hit leaves its buffer on the side the fault came from and all others alone; a miss adds a buffer with the pinned and allocated frames in front |
| `Coverage.FaultMaps` | driver/src/vfpga/vfpga_gup.c:60-109 | After a fault that returns 0 or 99 the pages of its window, as far as a map call gets, are mapped for its thread and process to the frames of the side it came from |
| `Coverage.ForcedAllMaps` | driver/src/vfpga/vfpga_gup.c:687-761 | After an offload or sync every buffer it moved is mapped on the requested side, as far as a map call gets |
| `Coverage.TiledRangeMapped` | driver/src/vfpga/vfpga_gup.c:687-761 | The same by the requested range: every buffer of a tiled range is mapped on the requested side |
| `Coverage.ReleaseUnmaps` | driver/src/vfpga/vfpga_gup.c:524-587 | After a release no entry of the process covers a page of the buffer |
| `Coverage.ReleaseKeepsMapped` | driver/src/vfpga/vfpga_gup.c:524-587 | Pages of the thread's other buffers that were mapped before a release still are |
| `MemoryContents.PlacedKeeps` | driver/src/vfpga/vfpga_gup.c:60-109 | Changing a buffer's side makes both copies of its pages the current one and keeps what the FPGA sees of every page |
| `MemoryContents.HitKeeps` | driver/src/vfpga/vfpga_gup.c:60-88 | A fault on a present buffer keeps what the FPGA sees of every page, and switches the buffer's copies when it comes from the other side |
| `MemoryContents.MissKeeps` | driver/src/vfpga/vfpga_gup.c:89-109 | A fault on an absent buffer adds its pages with their host contents and changes no other page, or changes nothing on failure |
| `MemoryContents.MissShows` | driver/src/vfpga/vfpga_gup.c:89-109 | A page of the new buffer shows the pinned host page; on the host the card frame keeps its old contents, and after a fault from the card both copies are the pinned page |
| `MemoryContents.ForcedFlat` | driver/src/vfpga/vfpga_gup.c:706-716 | Moving a buffer to a side, from whatever side, makes both copies of its pages those of the opposite side |
| `MemoryContents.ForcedAllFlat` | driver/src/vfpga/vfpga_gup.c:687-761 | A whole offload or sync does this to the pages of the listed buffers, in whatever order, and to no others |
| `MemoryContents.RangeKeeps` | driver/src/vfpga/vfpga_gup.c:687-761 | An offload or sync keeps what the FPGA sees of every page if and only if the pages it takes that are already on that side have equal copies |
| `MemoryContents.ForcedInPlace` | driver/src/vfpga/vfpga_gup.c:687-761 | Offloading what is on the card, or syncing what is on the host, replaces a page by its other copy; it keeps the page if and only if both copies agree already |
| `MemoryContents.OffloadThenSyncIdentity` | driver/src/vfpga/vfpga_gup.c:687-761 | Offloading buffers and syncing some of them back leaves every page of host memory as it was; only card frames must be unshared |
| `MemoryContents.CallFlat` | driver/src/vfpga/vfpga_gup.c:27-761 | Every page fault, offload, sync and release does to the flat memory what is said of it, if a fault leaves no frame shared |
| `MemoryContents.CallsRefineFlat` | driver/src/vfpga/vfpga_gup.c:27-761 | On every run of calls, up to the first fault that shares a frame, memory is the flat memory |
| `MemoryContents.CallsReadFlat` | driver/src/vfpga/vfpga_gup.c:27-761 | On such a run a read through any TLB entry returns the current copy of that page of the flat memory |
| `MemoryManager.Vfpga.CreateTlbMapping` | driver/src/vfpga/vfpga_hw.c:80-111 | The TLBs gain exactly the mapped entry |
| `MemoryManager.Vfpga.CreateTlbUnmapping` | driver/src/vfpga/vfpga_hw.c:113-134 | The TLBs lose exactly the entries of the process that cover the page |
| `MemoryManager.Vfpga.TlbMapGup` | driver/src/vfpga/vfpga_gup.c:135-199 | The loop adds exactly the entries of the window's walk, cut at the limit per call: those of `Coverage.RegularReach` and `Coverage.HugeReach` |
| `MemoryManager.Vfpga.TlbUnmapGup` | driver/src/vfpga/vfpga_gup.c:201-263 | Afterwards exactly the entries of the process that cover a page of the buffer are gone, as `VirtualMemory.ClearedExact` says; the requests are those of the specification |
| `MemoryManager.Vfpga.Migrate` | driver/src/vfpga/vfpga_hw.c:136-191 | Issue with throttling and polling, then the wait for the interrupt: both memories are as after the whole list of commands, whatever the pace of the card |
| `MemoryManager.Vfpga.MmuHandlerGup` | driver/src/vfpga/vfpga_gup.c:27-112 | Hit or miss as the search specifies, the resulting table, TLBs, memories and return code, and the invariant |
| `MemoryManager.Vfpga.MoveUserPages` | driver/src/vfpga/vfpga_gup.c:687-761 | Table, TLBs, memories and return code of offload and sync are those of moving the specified buffers one after the other, and the invariant is kept |
| `MemoryManager.Vfpga.TlbPutUserPages` | driver/src/vfpga/vfpga_gup.c:517-590 | The first buffer of the chain that passes the test is unmapped and removed, and only that; memory is untouched and the invariant kept |
| `CardMemory.AlwaysAccounted` | driver/src/vfpga/vfpga_hw.c:193-320 | On every run of allocations and frees, in any order, free chunks and used flags never exceed the ring and the pointer stays inside |
| `CardMemory.TakeExact` | driver/src/vfpga/vfpga_hw.c:228-264 | An allocation hands out only unused chunks, and the count stays exact, if and only if the next chunks of the ring are unused |
| `CardMemory.GiveShape` | driver/src/vfpga/vfpga_hw.c:266-320 | Freeing clears exactly the listed flags, keeps the books balanced and leaves the pointer at the chunk freed last |
| `CardMemory.TakeThenGive` | driver/src/vfpga/vfpga_hw.c:228-320 | Freeing what was just allocated restores the ring, if the chunks were free |
| `CardMemory.OutOfOrderExample` | driver/src/vfpga/vfpga_hw.c:193-320 | On every ring of three chunks or more: after freeing the older of two buffers first, the next allocation hands out a chunk that is in use |
| `CardMemory.StackRunPacked` | driver/src/vfpga/vfpga_hw.c:193-320 | With frees in stack order the used chunks are always one prefix of the ring, buffer behind buffer |
| `CardMemory.StackOrderExact` | driver/src/vfpga/vfpga_hw.c:193-320 | With frees in stack order the count is exact and no two live buffers share a chunk, on every run |
| `CardMemory.AlwaysAligned` | driver/src/vfpga/vfpga_hw.c:193-320 | On every run of huge allocations and frees the ring stays aligned to huge pages |
| `CardMemory.HugeIds` | driver/src/vfpga/vfpga_hw.c:228-243 | A huge allocation from an aligned ring comes in aligned contiguous groups of 512 chunks |
| `CardMemory.AddressRecovered` | driver/src/vfpga/vfpga_hw.c:266-320 | Freeing recovers block and chunk from the address that allocation computed; the address is page aligned, non-zero and representable |
| `CardMemory.AddressLayout` | driver/src/vfpga/vfpga_hw.c:231-255 | Blocks lie one behind the other from the start of card memory; in each the regular chunks come first and the huge ones right behind them, a page apart |
| `CardMemory.PagesRecovered` | driver/src/vfpga/vfpga_hw.c:228-320 | The pages handed out are the addresses of the chunks from the pointer on, in order, and freeing finds each of them again |
| `CardMemory.AddressInjective` | driver/src/vfpga/vfpga_hw.c:236-258 | Different chunks, blocks or page kinds never share an address |
| `CardMemory.HugeCardPages` | driver/src/vfpga/vfpga_hw.c:228-243 | The card pages of a huge buffer are what the large TLB needs: aligned and contiguous per huge page |
| `CardMemory.ChooseBlock` | driver/src/vfpga/vfpga_hw.c:199-226 | Which block is chosen or which error is returned, with the strict comparison for unnamed blocks |
| `CardMemory.SpacedInRange` | driver/src/vfpga/vfpga_gup.c:406-430 | The spacing formula stays inside the memory blocks |
| `CardMemory.SpacedNearest` | driver/src/vfpga/vfpga_gup.c:406-430 | The spacing formula gives the one block that is nearest to the channel's share, the upper of two equally near |
| `CardMemory.SpacedDistinct` | driver/src/vfpga/vfpga_gup.c:406-430 | The spacing formula gives channels different, ascending blocks if and only if there are at most 63 channels |
| `CardMemory.VfpgaBlocksDistinct` | driver/src/vfpga/vfpga_gup.c:406-430 | For channel numbers of several vFPGAs: their blocks differ and ascend, by vFPGA and then by channel, if and only if all vFPGAs together have at most 63 channels |
| `CardMemory.Partition.constructor` | driver/src/coyote_setup.c:159-199 | A fresh ring: every chunk linked to the next, the last to the first, all free |
| `CardMemory.Partition.Allocate` | driver/src/vfpga/vfpga_hw.c:228-264 | Succeeds if and only if enough chunks are counted free; hands out the next chunks of the ring and updates flags, count and pointer |
| `CardMemory.Partition.Release` | driver/src/vfpga/vfpga_hw.c:266-320 | Gives back the chunks the addresses stand for, from last to first |
| `Scheduler.PickedIsFirst` | sw/src/cSched.cpp:71-111 | Everything submitted before the picked task is finished, given up, or needs another bitstream |
| `Scheduler.RunSafe` | sw/src/cSched.cpp:65-210 | On every interleaving of submissions and passes: a function runs at most once per task, only under its own bitstream, and tasks of one bitstream run in submission order |
| `Scheduler.RunGrows` | sw/src/cSched.cpp:65-210 | Tasks keep their identity and finished tasks never change |
| `Scheduler.CompletedIsFound` | sw/src/cSched.cpp:212-232 | Whatever happens between the two calls, a task reported completed is found afterwards, still completed: the branch for a missing one is unreachable |
| `Scheduler.RunCodes` | sw/src/cSched.cpp:114-155 | On every run a completed task has code zero, or code one and no return value |
| `TaskResults.PickedResult` | sw/src/cSched.cpp:113-155 | The picked task runs if its bitstream is loaded or can be loaded, after a reconfiguration if it is not, and ends with code zero and the returned value or with code one; otherwise it gets code one, does not run, and nothing is loaded |
| `TaskResults.NothingPicked` | sw/src/cSched.cpp:113-155 | If no task can run, a pass runs and loads nothing |
| `TaskResults.OtherResult` | sw/src/cSched.cpp:71-111 | Of the other tasks those that cannot run and that the search comes past get code one; the rest is left alone |
| `TaskResults.CodeIsOutcome` | sw/src/cSched.cpp:65-159 | On every run a completed task has code zero if and only if some pass ran it and its function returned the value that is recorded |
| `TaskResults.SubmitAccepted` | sw/src/cSched.cpp:184-210 | On every run a submission is appended if and only if it is a task with a new id and a registered function |
| `Scheduler.PassProgress` | sw/src/cSched.cpp:65-159 | While a task is unfinished every pass finishes at least one |
| `Fairness.FinishedInTime` | sw/src/cSched.cpp:65-159 | Under either policy a task is finished after as many passes as there are unfinished tasks in front of it or, with reordering, of a bitstream that is loaded or needed in front of it, counting those of such a bitstream that are submitted meanwhile |
| `Fairness.FinishedInTurn` | sw/src/cSched.cpp:65-159 | Without reordering it is finished after as many passes as there are unfinished tasks up to it, whatever is submitted meanwhile |
| `Fairness.Starves` | sw/src/cSched.cpp:71-111 | With reordering, for every number of passes, a run on which new tasks of the loaded bitstream keep a task waiting |
| `Scheduler.DrainCost` | sw/src/cSched.cpp:71-128 | Under reordering a batch is drained with exactly one reconfiguration per pending bitstream that is not loaded |
| `Scheduler.SwitchesAtLeast` | sw/src/cSched.cpp:71-128 | Any order of execution needs at least one reconfiguration for each bitstream it uses that is not loaded |
| `Scheduler.ReorderIsOptimal` | sw/src/cSched.cpp:71-128 | No order that serves every pending bitstream uses fewer reconfigurations than the reorder policy |
| `Scheduler.Sched.AddTask` | sw/src/cSched.cpp:184-210 | Refuses a null task, a known id and an unregistered function without change; otherwise appends the task |
| `Scheduler.Sched.IsTaskCompleted` | sw/src/cSched.cpp:212-221 | True if and only if some task has the id and is completed |
| `Scheduler.Sched.GetTask` | sw/src/cSched.cpp:223-232 | Finds the task of an id if and only if there is one |
| `Scheduler.Sched.Select` | sw/src/cSched.cpp:71-111 | The search loop stops where specified, gives up broken tasks on its way and settles on the specified task or none |
| `Scheduler.Sched.RunPass` | sw/src/cSched.cpp:67-159 | One pass of the thread does what the step relation allows: search, reconfigure or give up, execute; `TaskResults` says what that means for each task |
| `Responses.ScanConserves` | sw/src/cService.cpp:376-413 | One scan loses and duplicates no entry: answers and remaining entries are the entries there were |
| `Responses.ScanExact` | sw/src/cService.cpp:376-413 | One scan answers an entry if and only if it is completed and the one before it was not answered by this scan; answers come in the list's order, and what remains is the rest in its order |
| `Responses.ScanAnswersDone` | sw/src/cService.cpp:376-413 | Only completed tasks are answered |
| `Responses.ScanAdvances` | sw/src/cService.cpp:376-413 | A completed task is answered by the scan or moves towards the front, although the scan steps over the entry behind each answer |
| `Responses.AnsweredInTime` | sw/src/cService.cpp:376-413 | A completed task at position p is answered within p + 1 scans, whatever is submitted meanwhile |
| `Responses.AnswersConserve` | sw/src/cService.cpp:310-413 | Over a whole run, answers and open entries are the entries submitted |
| `Responses.NeverTwice` | sw/src/cService.cpp:310-413 | On every run of submissions, numbered by the service's counter, and scans no entry is answered twice |
| `Responses.ReceiveAll` | sw/src/cConn.cpp:93-123 | The client reads any stream of expected answers to the last byte and files each one |
| `Responses.ReceiveUnknown` | sw/src/cConn.cpp:93-123 | A header for an unknown task is read and dropped |
| `Responses.ReceiveShort` | sw/src/cConn.cpp:93-123 | With fewer bytes than the value needs the client stops behind the header and records nothing |
| `Responses.FiledUnder` | sw/src/cConn.cpp:93-123 | Every task ends with its own code and value, in whatever order the answers come |
| `Responses.ParsedFiled` | sw/src/cConn.cpp:93-123 | What the client ends with is the sequence of answers it read, filed in order, for every stream |
| `Responses.InFrame` | sw/src/cService.cpp:389-402 | In front of the first failed task the client reads every answer as it is meant, whatever follows |
| `Responses.ReportedExact` | sw/src/cService.cpp:389-402 | The client reads exactly the answers meant, code and value of every task, if and only if no task failed |
| `Responses.ReportedValues` | sw/src/cService.cpp:389-402 | Without failed tasks every task of the client ends completed with its own value |
| `Responses.LastFailureUnseen` | sw/src/cService.cpp:389-402 | A failed answer that comes last is not seen and its task stays open |
| `Responses.MisfiledExample` | sw/src/cService.cpp:389-402 | A failed task in front of a successful one: the client files the next header as its value and never completes the other |
| `Responses.Connection.SendResponses` | sw/src/cService.cpp:376-413 | The in-place scan of the list, erasing and advancing, is the scan of `ScanExact` |
| `Responses.Client.CheckCompletedTasks` | sw/src/cConn.cpp:93-123 | The reading loop is the specified reader, including unknown ids and missing bytes |
| `SimMemory.BisectRight` | sim/unit_test/io_writer.py:524-527 | The position behind the last address that is at most the given one |
| `SimMemory.ContainingIff` | sim/unit_test/io_writer.py:541-561 | The look-up of a non-empty range succeeds if and only if every byte of it is allocated |
| `SimMemory.AddedWf` | sim/unit_test/io_writer.py:563-587 | An allocation keeps the intervals sorted, disjoint and apart if and only if no other one starts behind its address and up to its end |
| `SimMemory.AddedFlat` | sim/unit_test/io_writer.py:563-587 | In the flat memory an allocation keeps every old byte and adds zero bytes, and nothing else |
| `SimMemory.RoomFlat` | sim/unit_test/io_writer.py:563-587 | Whether there is room can be told from the flat memory alone |
| `SimMemory.LoadedFlat` | sim/unit_test/io_writer.py:866-887 | A read returns exactly the bytes of the flat memory, if and only if all are allocated |
| `SimMemory.WrittenFlat` | sim/unit_test/io_writer.py:889-916 | A write changes exactly its range, or nothing if a byte of it is not allocated |
| `SimMemory.RunIsFlat` | sim/unit_test/io_writer.py:514-916 | After every run whose allocations found room, the tracker is the flat memory of last writes |
| `SimMemory.NextOnlyRoomy` | sim/unit_test/io_writer.py:589-600 | Runs that allocate only through the next-free call with gaps that are not negative always find room |
| `SimMemory.NextFreeHasRoom` | sim/unit_test/io_writer.py:589-600 | The next free address has room and nothing allocated at or above it |
| `SimMemory.NextFreeLeast` | sim/unit_test/io_writer.py:589-600 | It is the least such address: the byte before it is allocated, and with nothing allocated it is zero |
| `SimMemory.OverlapExample` | sim/unit_test/io_writer.py:563-587 | An allocation without room after which one byte has two values |
| `SimMemory.Writer.ContainingOrNeighboring` | sim/unit_test/io_writer.py:514-539 | The start of the allocation that holds the address or ends right before it |
| `SimMemory.Writer.AddMemoryAllocation` | sim/unit_test/io_writer.py:563-587 | Extends the neighbour or inserts in order |
| `SimMemory.Writer.AllocateSimMemory` | sim/unit_test/io_writer.py:843-853 | Refuses negative sizes, takes one byte for size zero, and acts on the flat memory as specified when there is room |
| `SimMemory.Writer.AllocateNextFree` | sim/unit_test/io_writer.py:961-970 | The address is the offset behind the last allocated byte, or behind zero if there is none; the bytes handed out were free, are zeroed, and all others are left alone |
| `SimMemory.Writer.ReadFromSimMemory` | sim/unit_test/io_writer.py:866-887 | The bytes of the flat memory, or failure if and only if one is missing; for negative sizes success wherever the address has a neighbour, with Python's slice |
| `SimMemory.Writer.WriteToSimMemory` | sim/unit_test/io_writer.py:889-916 | The flat memory changes exactly in the range, or not at all |
| `StreamDecoder.ParseExtends` | sim/unit_test/io_writer.py:335-366 | A complete message is read the same whatever follows it |
| `StreamDecoder.OutputThread.ReadExactly` | sim/unit_test/io_writer.py:210-241 | The next bytes of the stream, however many reads it takes and however many of them are empty |
| `StreamDecoder.OutputThread.ReadQueued` | sim/unit_test/io_writer.py:243-333 | A message without payload takes effect exactly as the reference parser says, or waits |
| `StreamDecoder.OutputThread.ReadHostWrite` | sim/unit_test/io_writer.py:260-300 | Header, bound check and payload of a host write exactly as the reference parser says, with every length including negative ones |
| `StreamDecoder.OutputThread.ReadSimulationOutput` | sim/unit_test/io_writer.py:335-366 | Queues and memory are those of decoding the bytes taken as one whole, for every fragmentation; with enough non-empty reads no byte is left |
| `StreamDecoder.RoundTrip` | sim/unit_test/io_writer.py:243-366 | Decoding the bytes of any sequence of messages delivers exactly these messages, up to the first failing one |
| `StreamDecoder.FormatExamples` | sim/unit_test/io_writer.py:243-333 | The bytes of each queued message, and that an unknown type fails |
| `StreamDecoder.WriteFormat` | sim/unit_test/io_writer.py:243-333 | The bytes of a host write: address, length, payload, which lands at the address |
| `StreamDecoder.ParseHostWrite` | sim/unit_test/io_writer.py:260-300 | A host write to memory that is not allocated fails behind its header, one of no or negative length is ignored, an incomplete one waits |
| `StreamDecoder.WrittenContaining` | sim/unit_test/io_writer.py:290-296 | A host write changes no look-up |
| `StreamDecoder.HostWritesLand` | sim/unit_test/io_writer.py:260-300 | If every host write hits memory allocated at the start, none fails and each byte is the one written last |
| `ReconfigBuffers.StepSafe` | driver/src/reconfig/reconfig_mem.c:28-145 | Every call keeps exact ownership: each live page and DMA mapping has exactly one owner, two arrays per buffer; a free lock is lost if and only if the pointer array is missing or a remap fails |
| `ReconfigBuffers.RunSafe` | driver/src/reconfig/reconfig_mem.c:28-145 | In every state of every run each live page and each DMA mapping has exactly one owner, and nothing else is owned |
| `ReconfigBuffers.RunLock` | driver/src/reconfig/reconfig_mem.c:52-57 | The lock is free in a state of a run if and only if no earlier call met one of the two failures |
| `ReconfigBuffers.LostLockExample` | driver/src/reconfig/reconfig_mem.c:52-57 | A first call that loses the lock |
| `ReconfigBuffers.LockedForever` | driver/src/reconfig/reconfig_ops.c:233-264 | Once the lock is lost no allocation or mapping ever succeeds again |
| `ReconfigBuffers.RemapFailureKeepsPages` | driver/src/reconfig/reconfig_ops.c:247-258 | After a failed remap and a free the current buffer still points to pages that are gone |
| `ReconfigBuffers.AllocMapFree` | driver/src/reconfig/reconfig_mem.c:28-145 | After an allocation its process can map the buffer and free it, and all three together give everything back, whatever other entries have the same key |
| `ReconfigBuffers.AllocExact` | driver/src/reconfig/reconfig_mem.c:28-116 | When an allocation succeeds, its answer in every other case, and that the buffer holds the kernel's pages and addresses in order |
| `ReconfigBuffers.MapByOther` | driver/src/reconfig/reconfig_ops.c:218-270 | A process that did not allocate the buffer cannot map it and changes nothing |
| `ReconfigBuffers.FreeExact` | driver/src/reconfig/reconfig_mem.c:118-145 | A free removes the first entry with that address, process and region, gives back what it owns, and changes nothing else |
| `ReconfigBuffers.FreeMisses` | driver/src/reconfig/reconfig_mem.c:118-145 | A free with an unknown key changes nothing |
| `ReconfigBuffers.FreeReleasesNewest` | driver/src/reconfig/reconfig_mem.c:118-145 | Of several entries with one key a free releases the newest and the others keep what they own |
| `ReconfigBuffers.Aligned` | driver/src/reconfig/reconfig_ops.c:229-230 | The first page boundary at or behind an address |
| `ReconfigBuffers.ReconfigDev.AllocReconfigBuffer` | driver/src/reconfig/reconfig_mem.c:28-116 | The new state and return code for every failure; each failed call releases all it took, each page and mapping once |
| `ReconfigBuffers.ReconfigDev.FailAlloc` | driver/src/reconfig/reconfig_mem.c:106-115 | The first pages taken go back, each exactly once, and the buffer is empty |
| `ReconfigBuffers.ReconfigDev.ReconfigDevMmap` | driver/src/reconfig/reconfig_ops.c:218-270 | The current buffer moves to the table, or stays with the lock taken when a remap fails, or nothing happens |
| `ReconfigBuffers.ReconfigDev.FreeReconfigBuffer` | driver/src/reconfig/reconfig_mem.c:118-145 | The first matching entry is released, its pages and mappings once each, and nothing else |

## Left out

- MemoryManager.Vfpga.MmuHandlerGup: assumes that a huge-page fault which misses and is granted pages got a window of whole huge pages; `MemoryManager.ClippedHugeWindow` says exactly when it does. Otherwise the code writes behind its page array (`driver/src/vfpga/vfpga_gup.c:357-361`) and a later unmap waits for a marker that no request carries.
- FlatMemory.RunRefinesFlat: says nothing of contents once a buffer is created that shares a host or card frame, as threads of one process that map the same memory do; `FlatMemory.WriteFlatExact` shows that it could not, and for card frames `CardMemory.StackOrderExact` says when the allocator gives unshared ones. The TLB part, `VirtualMemory.RunEntries`, has no such condition.
- MemoryContents.CallsRefineFlat: the same for runs of calls; the part without the condition is `MemoryManager.CallsEntries`.
- MemoryContents.OffloadThenSyncIdentity: assumes unshared card frames, because with a shared one the sync brings back what was offloaded last.
- MemoryManager.Vfpga.MoveUserPages: is specified for requests on which the loop ends; `RangeMoves.PassProgress`, `RangeMoves.EndsExact` and `RangeMoves.OneBufferRange` say which they are.
- RangeMoves.EndsExact: a request that starts strictly inside a buffer of its own chain and ends outside it is decided by the definition `Ends` only; `RangeMoves.OneBufferRange` covers those that end inside it.
- MemoryManager.Vfpga.Migrate: the card completes at least one command between two polls; an interrupted wait (`wait_event_interruptible`) is not modelled.
- MemoryManager.Vfpga.TlbPutUserPages: unpinning and DMA unmapping of host pages and the return of card chunks are not part of its state; `CardMemory` models the chunks.
- ReconfigBuffers.ReconfigDev.AllocReconfigBuffer: a call that spins on a lost lock is one that returns nothing; page counts are not cut to 32 bits because the limit of 128 pages comes first.
- CardMemory.ChooseBlock: block numbers below -1, which the code would use as an index, are excluded.
- StreamDecoder.OutputThread.ReadSimulationOutput: stops where the given reads end; a stop event discards the message that is incomplete at that moment.
- Processor writes to a page whose buffer is in flight: they race with the DMA and are not steps of the protocol.
- TLB sets, ways and replacement order: the TLBs are sets of entries from which replacement may take any entry at any time.
- Invalidation requests: modelled as removing the entries of the process that overlap the range, which is what the driver relies on; in `hw/hdl/mmu/tlb_fsm.sv` they drain requests in flight.
- `tlb_get_user_pages`: pinning, huge-page checks and DMA mapping are the outcome `Grant` of a miss.
- `tlb_put_user_pages_ctid`, DMA-buf attachments and peer-to-peer transfers: they repeat the release and creation steps.
- HMM-based memory management, character-device and sysfs handlers, interrupt dispatch: they would only add easy members.
- Locks and their waiting times, except the memory lock of the reconfiguration device; `alloc_card_memory` too returns without unlocking when a block is too full.
- Scheduler start and stop, functions registered while it runs, null entries of the task list, 32-bit task ids.
- Socket errors and short reads or writes, the bound of the receive buffer, and the server's messages for tasks that could not be added.
- Simulation control messages to the simulator (CSR access, polling, sleeping, RDMA requests) and the order of the two host threads.
- RDMA, TCP and collective operations, the hardware data path beyond the TLB controller, build scripts and examples.
