# Verified model of flurry

flurry is a small x86-64 kernel; its repository also carries the Limine
installer and the uACPI interpreter. This project models the parts whose
correctness rests on invariants over every run, and proves those invariants.
Each part is imperative code that has to behave like a simple object, and the
main theorems say that it does:

| part | files | the simple object |
|---|---|---|
| kernel heap | `HeapLayout`, `HeapWords`, `KHeap` | a tiling of the heap by chunks, live blocks never disturbed |
| installer block cache and undo log | `UndoLog`, `BlockDevice` | a flat disk that can be put back as it was |
| page tables, frame allocator, TLB | `PageTables`, `Mmu`, `GlobalPages` | a flat map from pages to entries, per address space |
| timer events | `EventTree`, `EventQueue` | a stable sorted queue |
| scheduler | `SchedSpec`, `Scheduler` | a line of threads with round robin and sleep |
| bit-granular fields | `BitSpan`, `BufferField`, `FieldUnit`, `FieldLayout` | independent variables made of bits |
| locks | `GlobalLock`, `RwLock` | mutual exclusion without lost wakeups |
| ACPI namespace | `NamespaceTree`, `Namespace`, `NamespaceWalk`, `NamespaceVisits`, `NamespacePath` | an ordered tree of names |

`Wrappers` holds the option type they share. `dafny verify dfyconfig.toml`
checks everything.

## How the source is rendered

- **Heap.** The heap is an array of 8-byte words of any length; a pointer is a
  byte address computed from a word index (`Ptr`, `Idx`). Size and flags share
  a word as in the source and are taken apart by division. `kmalloc` adds the
  header and the alignment in 64 bits; `Need` says exactly when that sum does
  not wrap. The search adds another 32 bytes, also in 64 bits: requests from
  2^64 - 47 to 2^64 - 16 bytes (`Overlong`) are given a chunk far too small,
  and `Kmalloc` says that the heap is ruined exactly then. A block that was
  joined to a free left neighbour keeps its old header, so freeing it again is
  not noticed: `FreeTwice` says exactly when a double free is caught. Where the
  source panics, the model returns failure.
- **Installer.** The device is a file of bytes and the only device failure is
  going past its end. A file may end with part of a block: asking for that one
  fails, but only after its bytes have been read over the cached block.
  A request that stays clear of it is answered as by a flat disk; for one that
  reaches it, `Serve` says what the cache then shows and exactly when that is
  still the device, and `TailMistakenForBlock` reads a wrong byte back. The
  installer undoes everything at the first request that is refused, and that
  always works (`Install`), because rollback does not look at the cache. A write
  that fails half-way through some other fault is not in the log, and
  `UndoInstall` says exactly when rollback still works. A record of zero bytes
  cannot be stored, because `fwrite` of zero bytes reports no item;
  `FileRoundTrip` is an if-and-only-if about that.
- **Paging.** Physical memory is a map from frame numbers to 512-entry tables.
  Mapping needs as many free frames as tables are missing: without them
  `get_next_pml` links frame 0, and `OutOfFramesShares` shows the resulting
  sharing. `paging_map_page` takes 16-bit flags, so the no-execute bit never
  reaches an entry, and the upper four bits are or-ed into the frame number.
  What the processor lets through is the conjunction of a right over all four
  entries of a walk (`Permits`).
  The TLB is a set of cached translations that the processor may fill or drop
  at any time. Global ones survive a load of another root: a load is safe
  whatever the TLB holds if and only if the new tables have every global page
  of the old ones (`LoadKeepsExactly`), and `GlobalOutlivesLoad` is a run where
  they do not.
- **Events and scheduler.** Event records live in a map from addresses, the
  thread list is a sequence. The clock is a parameter and is monotone. One
  event dispatch, and one `thread_sleep` including its switch, is one step; the
  state of the abstract scheduler includes when the current slice ends.
  `event_remove` on an event that is not queued loses the whole queue: `Remove`
  states both cases.
- **Fields.** A region answers a read with what was last written. The byte
  offset a field keeps has 32 bits, so fields are placed modulo 2^35 bits;
  `ApartExactly` says for any two fields of any list whether they share a bit,
  and `FarFieldsCollide` gives a list of encodable lengths with two that do.
- **Locks.** State machines over single loads, compare-exchanges, flag updates
  and mutex operations, interleaved arbitrarily. Firmware follows the global
  lock protocol of section 5.2.10.1 of the ACPI specification from its side.
  Compare-exchange may fail spuriously. The two lock bits are the two low
  binary digits of the word.
- **Namespace.** Node records live in a map from addresses and leave it when
  freed, so every access shown is to a record that still exists. Callbacks of
  the walk are a function from node, depth and direction to a decision. A node
  without an object leaves the walk's match flag as the previous node set it,
  so it is called, or passed over with its children, on that node's account;
  `StaleMatch` says exactly when, and the order theorem exactly when it matters.
  A search above a start that is missing dereferences NULL in the source; the
  model calls that a fault, and `NoStartFaults` says when.

Clock readings, allocator addresses for new records, disk contents, firmware
behaviour and callback decisions are parameters or nondeterministic steps.

## Model

| member | source | states |
|---|---|---|
| `HeapLayout.Need` | kernel/memory/kmalloc.c:125-135 | the chunk asked for has at least 4 words and holds the header and `sz` bytes if and only if the 64-bit sum does not wrap |
| `HeapLayout.OverlongExactly` | kernel/memory/kmalloc.c:125-152 | the bound of the search wraps around exactly for requests from 2^64 - 47 to 2^64 - 16 bytes |
| `HeapLayout.AcceptsExactly` | kernel/memory/kmalloc.c:142-152 | the search accepts exactly the chunks that fit, unless the request is overlong: then it accepts every chunk |
| `HeapLayout.OverlongRequest` | kernel/memory/kmalloc.c:142-152 | a request of 2^64 - 40 bytes is met with a chunk of 32 |
| `HeapLayout.AllocateShape` | kernel/memory/kmalloc.c:159-193 | taking any amount that fits from any free chunk leaves a heap tiled exactly by chunks of at least 4 words, no two free ones adjacent |
| `HeapLayout.FreeShape` | kernel/memory/kmalloc.c:211-287 | freeing any used chunk leaves such a heap, whichever neighbours it is joined with |
| `HeapLayout.FreeUndoesAllocate` | kernel/memory/kmalloc.c:125-288 | freeing a block right after allocating it gives back the layout from before |
| `HeapLayout.Conservation` | kernel/memory/kmalloc.c:125-288 | free and used words always add up to the heap |
| `HeapLayout.AllocateWords` | kernel/memory/kmalloc.c:159-193 | allocation moves exactly the words handed out from free to used |
| `HeapLayout.FreeWords` | kernel/memory/kmalloc.c:211-287 | freeing moves exactly the freed words back |
| `HeapLayout.FullyCoalesced` | kernel/memory/kmalloc.c:211-287 | a well-formed heap with no used chunk is a single free chunk |
| `HeapLayout.StepIsSafe` | kernel/memory/kmalloc.c:125-288 | each enabled allocation or free keeps the shape and the balance of words |
| `HeapLayout.RunsAreSafe` | kernel/memory/kmalloc.c:125-303 | every run from the initial heap keeps the shape, conserves words, and the used words are what was handed out and not returned |
| `HeapLayout.AllFreedIsOneChunk` | kernel/memory/kmalloc.c:199-303 | once everything was freed, in any order, the heap is one free chunk of the full size |
| `HeapWords.Fields` | kernel/memory/kmalloc.c:61-87 | a metadata word is its size and its low bits, independently |
| `HeapWords.SetSz` | kernel/memory/kmalloc.c:67-72 | sets the size and keeps both flags |
| `HeapWords.PutFree` | kernel/memory/kmalloc.c:79-87 | sets the free flag and keeps size and the other flag |
| `HeapWords.PutPrevFree` | kernel/memory/kmalloc.c:79-87 | sets the previous-free flag and keeps size and the other flag |
| `HeapWords.FreelistAddNode` | kernel/memory/kmalloc.c:95-107 | the doubly linked list gains the node at its front; only link words change |
| `HeapWords.FreelistRemoveNode` | kernel/memory/kmalloc.c:109-123 | the list loses exactly that node; only links of its neighbours change; of a node that is on no list, only the words its links lead to |
| `HeapWords.FreeTagged` | kernel/memory/kmalloc.c:211-287 | after a free every header, previous-free flag and footer agrees with the new layout |
| `HeapWords.FreeKeepsPayload` | kernel/memory/kmalloc.c:199-288 | a free changes no payload word of any live block |
| `HeapWords.AllocTagged` | kernel/memory/kmalloc.c:159-193 | after an allocation every header, previous-free flag and footer agrees with the new layout |
| `HeapWords.AllocKeepsPayload` | kernel/memory/kmalloc.c:125-197 | an allocation changes no payload word of any live block |
| `KHeap.FirstFit` | kernel/memory/kmalloc.c:142-152 | the index found is the first on the list that the search accepts, and there is none exactly when nothing is accepted |
| `KHeap.CarveWhole` | kernel/memory/kmalloc.c:159-193 | the exact-fit branch yields the allocated layout, well formed, payloads kept |
| `KHeap.CarveFront` | kernel/memory/kmalloc.c:159-193 | if the chunk is large enough, the split branch yields the allocated layout with the remainder listed, well formed, payloads kept; in any case the header claims the size asked for |
| `KHeap.FreeAlone` | kernel/memory/kmalloc.c:218-231 | the branch without coalescing yields the freed layout, well formed, payloads kept |
| `KHeap.FreeWithPrev` | kernel/memory/kmalloc.c:234-253 | the branch that joins the left neighbour yields the freed layout, well formed, payloads kept; the header of the freed block stays as it was |
| `KHeap.FreeWithNext` | kernel/memory/kmalloc.c:256-268 | the branch that joins the right neighbour yields the freed layout, well formed, payloads kept |
| `KHeap.FreeWithBoth` | kernel/memory/kmalloc.c:271-287 | the branch that joins both neighbours yields the freed layout, well formed, payloads kept; the header of the freed block stays as it was |
| `KHeap.FindMergeStart` | kernel/memory/kmalloc.c:214-239 | the previous-free flag and the footer lead to the left neighbour exactly when it is free |
| `KHeap.BlockIsFresh` | kernel/memory/kmalloc.c:125-197 | a returned block is 8-aligned, holds the bytes asked for unless the size wrapped, and overlaps no live block |
| `KHeap.OthersStayLive` | kernel/memory/kmalloc.c:199-288 | freeing one block keeps every other live block where it is |
| `KHeap.Oversized` | kernel/memory/kmalloc.c:125-197 | a free chunk whose header claims more than it has leaves no well-formed heap with the live blocks in place |
| `KHeap.DoubleFreeSlips` | kernel/memory/kmalloc.c:211-287 | a heap with a used block behind a free chunk, where a double free of that block is not caught |
| `KHeap.PayloadUntilFreed` | kernel/memory/kmalloc.c:125-288 | over any run a live block keeps its place, its size and every payload word until its own free |
| `KHeap.KHeap.constructor` | kernel/memory/kmalloc.c:290-303 | one free chunk of the whole heap, well formed, whatever the memory held |
| `KHeap.KHeap.Search` | kernel/memory/kmalloc.c:142-152 | the list walk ends at the first chunk that the wrapped comparison accepts |
| `KHeap.KHeap.Kmalloc` | kernel/memory/kmalloc.c:125-197 | fails exactly when no free chunk is accepted; otherwise, unless the request is overlong, the layout is the allocated one, well formed, payloads kept; the heap survives if and only if it failed or the request is not overlong |
| `KHeap.KHeap.Kfree` | kernel/memory/kmalloc.c:199-288 | refuses addresses outside the heap and blocks that are free chunks; frees exactly a live block, well formed, other payloads kept; a block already joined to its left neighbour is not refused and the heap is ruined |
| `KHeap.KHeap.FreeBlock` | kernel/memory/kmalloc.c:211-287 | the four branches free exactly a live block; on one already joined to its left neighbour they leave no well-formed heap |
| `KHeap.KHeap.FreeTwice` | kernel/memory/kmalloc.c:199-288 | an immediate double free is caught if and only if the left neighbour was not free; otherwise it ruins the heap |
| `KHeap.KHeap.Run` | kernel/memory/kmalloc.c:125-303 | any sequence of calls by a client that frees what it holds is a run over the layouts, one operation per call that is not refused, refusals exactly when nothing is accepted; the blocks held are the live ones, each once, and with none held the heap is one free chunk again |
| `UndoLog.RollbackRestores` | limine/limine.c:499-549 | replaying the reversed log restores the original from any image that differs from it only where logged writes went |
| `UndoLog.RollbackRestoresExactly` | limine/limine.c:499-549 | rollback restores the original if and only if the image differs from it nowhere off the logged ranges |
| `UndoLog.LogWrite` | limine/limine.c:448-497 | saving the bytes about to be replaced keeps the log sound |
| `UndoLog.LeRoundTrip` | limine/limine.c:341-424 | a 64-bit number survives being stored and loaded |
| `UndoLog.EntriesRoundTrip` | limine/limine.c:341-424 | the records decode back from their encoding if and only if none is empty |
| `UndoLog.FileRoundTrip` | limine/limine.c:341-424 | a stored log loads back if and only if none of its records is empty |
| `UndoLog.FileLayout` | limine/limine.c:341-379 | the file is the record count, then location, length and data of each record, numbers as eight bytes with the least significant first |
| `UndoLog.StoredLogRestores` | limine/limine.c:341-549 | rolling back from the stored file restores the original |
| `BlockDevice.FlushedView` | limine/limine.c:265-284 | writing the dirty block back leaves the image as it was and the device equal to it |
| `BlockDevice.LoadedView` | limine/limine.c:286-311 | with a clean block cached the image is the device |
| `BlockDevice.PatchedView` | limine/limine.c:448-497 | changing cached bytes changes exactly those bytes of the image |
| `BlockDevice.ReadView` | limine/limine.c:426-446 | reading cached bytes reads the image |
| `BlockDevice.TailOverCache` | limine/limine.c:300-306 | reading a partial last block over a clean cache puts its bytes on the image, and leaves it equal to the device if and only if they were there already |
| `BlockDevice.TailMistakenForBlock` | limine/limine.c:286-446 | for every file with a partial last block: one refused read of it and byte 0 of the device reads as its first byte |
| `BlockDevice.WriteIsRecoverable` | limine/limine.c:448-497 | completing a logged write keeps rollback able to restore the original |
| `BlockDevice.Device.constructor` | limine/limine.c:232-263 | for any file of at least one block, partial last block included: the first block is cached and the image is the whole blocks |
| `BlockDevice.Device.FlushCache` | limine/limine.c:265-284 | a dirty block is written back, and the device becomes the image, which does not change |
| `BlockDevice.Device.CacheBlock` | limine/limine.c:286-311 | the block asked for is cached, the image stays; fails exactly past the whole blocks; at a partial block the cache still stands for the device if and only if the cached block begins with its bytes |
| `BlockDevice.Device.Fetch` | limine/limine.c:430-442 | one turn of the read loop: the bytes up to the end of the block, from the cache if it is the cached one, whatever its state |
| `BlockDevice.Device.Read` | limine/limine.c:426-446 | returns what a flat disk of the whole blocks holds and fails exactly past its end; the cache keeps standing for the device unless a partial block is reached, and then exactly as `CacheBlock` says |
| `BlockDevice.Device.Deliver` | limine/limine.c:475-493 | one turn of the write loop, over the cached block if it is that one and else over the device, whatever the state of the cache |
| `BlockDevice.Device.WriteThrough` | limine/limine.c:473-496 | the image becomes the old one with the buffer in place, even where a partial block stops the write, and also over a block that a partial one was read onto; outside the range the device only catches up with the old image |
| `BlockDevice.Device.Save` | limine/limine.c:453-471 | the bytes of the range go into the next log slot |
| `BlockDevice.Device.Write` | limine/limine.c:448-497 | writes the image and logs the old bytes; a refused write changes neither image nor log, unless it reaches a partial block, with the effect of a read there |
| `BlockDevice.Device.ReverseUninstallData` | limine/limine.c:327-333 | the log comes out last to first |
| `BlockDevice.Device.Restore` | limine/limine.c:509-528 | writes one record back, with the one retry; fails exactly past the end; takes every state of an uninstallation to the one `RestoreOn` gives, a partial last block included |
| `BlockDevice.Device.Uninstall` | limine/limine.c:499-549 | with the cache thrown away, dirty or not, the device ends up as the replay of the log over what had reached it, with exactly the bytes of a partial block that records running into it bring along; the plain replay if there are none; reports failure exactly when a record lies past the end |
| `BlockDevice.Device.UndoInstall` | limine/limine.c:1062-1070 | from every state, cache and partial block included: with a sound log in range the device ends up byte for byte as it was if and only if it differs from that nowhere off the log |
| `BlockDevice.Device.Install` | limine/limine.c:551-1070 | an installation that stops at the first refused request, at a partial last block or before, or gives up, leaves the device byte for byte as it was; otherwise every request was answered as by a flat disk; it succeeds exactly if the flat disk refuses none |
| `BlockDevice.UninstallLater` | limine/limine.c:381-549 | storing the log, loading it in a later run and uninstalling gives the original back, whatever became of the logged ranges; the log is stored exactly when no record is empty |
| `BlockDevice.ReplayUnmarked` | limine/limine.c:499-549 | without a record that runs from the whole blocks into a partial one, uninstalling is the plain replay |
| `BlockDevice.TailWrittenBack` | limine/limine.c:499-549 | with one, the next record that begins inside the last block writes bytes of the partial block onto the device |
| `BlockDevice.Device.Serve` | limine/limine.c:265-497 | one read, write or flush acts as on a flat disk unless it reaches a partial block; then it is refused, its bytes show on the cached block, and that is the device if and only if the block begins with them; rollback works after either |
| `BlockDevice.Device.Run` | limine/limine.c:265-497 | any mix of reads, writes and flushes answers as a flat disk would, refusals included, up to and including the first that reaches a partial last block; if none does it stays recoverable |
| `BlockDevice.Device.StoreUninstallData` | limine/limine.c:341-379 | stores the encoded log, refusing one with an empty record |
| `BlockDevice.Device.LoadUninstallData` | limine/limine.c:381-424 | fails exactly when the file does not decode; otherwise the log becomes what it decodes to |
| `PageTables.MakeEntry` | kernel/memory/paging.c:60-64 | an entry is present, has exactly the flag bits asked for and none above bit 51, and gives back its frame with the upper four flag bits or-ed in |
| `PageTables.FullFrame` | kernel/memory/paging.c:60-64 | the low four frame bits are or-ed with the upper four flag bits, bit by bit; the frame is the one asked for if and only if those are already set in it |
| `PageTables.IndicesInjective` | kernel/memory/paging.c:33-47 | two pages with the same four indices are the same page |
| `PageTables.ShiftsAreIndices` | kernel/memory/paging.c:33-47 | the shifts and masks pick the four indices of the 36-bit page number |
| `PageTables.WalkIsLookup` | kernel/memory/paging.c:22-47 | the processor's 4-level walk reads the tree of tables as a flat map |
| `PageTables.TableEntry` | kernel/memory/paging.c:29-29 | a link is present, leads to its frame, has the write and user bits and no other flag, so it takes no right away and is no large page |
| `PageTables.RightsAreTheLeafs` | kernel/memory/paging.c:22-47 | writing, and user access, are granted by all four entries of the walk if and only if the last one grants them |
| `PageTables.PutLeafKeepsTree` | kernel/memory/paging.c:60-69 | writing a last-level entry keeps the tables a tree without sharing |
| `PageTables.PutLeafLookup` | kernel/memory/paging.c:60-69 | and changes the translation of exactly one page of one address space |
| `PageTables.HangKeepsTree` | kernel/memory/paging.c:22-31 | hanging a zeroed frame into an absent entry keeps the tree |
| `PageTables.HangLookup` | kernel/memory/paging.c:22-31 | and changes no translation |
| `PageTables.NewRootKeepsTree` | kernel/memory/vmm.c:38-42 | a fresh zeroed root keeps the tree |
| `PageTables.NewRootLookup` | kernel/memory/vmm.c:38-42 | and translates nothing, leaving the other spaces alone |
| `PageTables.OutOfFramesShares` | kernel/memory/paging.c:22-31 | after two links made with no frame left, both entries lead to the same frame, and no tree without sharing describes the tables any more |
| `Mmu.Mmu.constructor` | kernel/memory/pmm.c:14-40 | the free list holds exactly the pages of the usable regions after the first entry of the memory map, each once |
| `Mmu.Mmu.AddRegion` | kernel/memory/pmm.c:14-40 | exactly the pages of that region join the list |
| `Mmu.Mmu.PmmAlloc` | kernel/memory/pmm.c:44-56 | hands out the first free frame, zeroed and off the list; with none left it returns 0 and changes nothing |
| `Mmu.Mmu.GetNextPml` | kernel/memory/paging.c:22-31 | follows the entry, hanging one fresh zeroed table in by a link that withholds no right if it was absent, and no translation changes; with no frame left it links frame 0 |
| `Mmu.Mmu.LinkNext` | kernel/memory/paging.c:22-31 | an absent entry gets a fresh table in the tree, by a link that withholds no right, or, with no frame left, frame 0 outside it |
| `Mmu.Mmu.GetPml1Entry` | kernel/memory/paging.c:33-47 | reaches the page's last-level table taking exactly the frames missing; no translation changes |
| `Mmu.Mmu.MapPage` | kernel/memory/paging.c:60-64 | exactly one page of one space gets the new entry, the processor then grants on it exactly the write and user rights of the flags and on every other page what it did, the tables stay a tree and a coherent TLB stays so |
| `Mmu.Mmu.UnmapPage` | kernel/memory/paging.c:66-69 | exactly one page loses its translation and all rights, even if the walk created tables; a coherent TLB stays so |
| `Mmu.Mmu.InvlpgIfNeeded` | kernel/memory/paging.c:49-54 | drops the cached translation of the page exactly when the tables are the loaded ones |
| `Mmu.Mmu.NewSpace` | kernel/memory/vmm.c:38-42 | a new address space that translates nothing |
| `Mmu.Mmu.LoadPml4` | kernel/memory/paging.c:56-58 | loads a root and drops exactly the cached translations that are not global; the TLB is coherent if and only if those left agree with the new tables |
| `Mmu.Mmu.Step` | kernel/memory/paging.c:49-69 | one step has its effect on the flat maps, takes exactly the frames its missing tables need, and keeps the TLB coherent except by a load that global translations disagree with |
| `Mmu.Mmu.Run` | kernel/memory/paging.c:22-69 | with frames for the tables the whole run is missing: each page has what its last map or unmap left, the processor grants on it exactly the rights it was last mapped with, and the TLB is coherent throughout if and only if it was at the start and every load agreed with the global translations cached then |
| `Mmu.NoGlobalsNoDoubt` | kernel/memory/paging.c:49-69 | a run that maps no page as global, from a state without any and with a coherent TLB, has it coherent throughout |
| `Mmu.ThroughoutExactly` | kernel/memory/paging.c:49-69 | the TLB is coherent throughout a run if and only if it was at the start and every load agreed with the global translations cached then |
| `GlobalPages.LoadKeepsExactly` | kernel/memory/paging.c:56-58 | every TLB coherent with one root's tables stays so when another is loaded if and only if each page the first maps as global has the same entry in the second |
| `GlobalPages.SharedIsCoherent` | kernel/memory/paging.c:49-69 | a run in which no load finds a global page that the new tables lack, a condition on its steps and the first tables, keeps the TLB coherent whatever is cached on the way |
| `GlobalPages.ClashIsSeen` | kernel/memory/paging.c:49-69 | at a load that does, caching that page just before makes the TLB incoherent |
| `GlobalPages.GlobalOutlivesLoad` | kernel/memory/paging.c:56-64 | mapping a page with flag 256, caching it and loading a root without it ends with an incoherent TLB |
| `Mmu.MissingCounts` | kernel/memory/paging.c:33-47 | the frames a walk takes are the tables of its path that are missing |
| `Mmu.TablesLeft` | kernel/memory/paging.c:22-47 | a step uses up its missing tables out of those of the rest of the run |
| `Mmu.StaysCoherent` | kernel/memory/paging.c:49-69 | changing one translation and dropping its cached copy keeps the TLB coherent |
| `Mmu.RightsFollow` | kernel/memory/paging.c:60-69 | when one translation changes, the rights on that page are those of its flags and no other right changes |
| `Mmu.SpaceAdded` | kernel/memory/vmm.c:38-42 | adding an address space leaves the others' maps alone |
| `EventTree.PlugOrder` | kernel/multitasking/events.c:29-93 | the order of a tree is what comes before a place, the subtree there, and what comes after |
| `EventTree.PlugShape` | kernel/multitasking/events.c:29-93 | parent and child links of the whole are those around a place and those of the subtree there |
| `EventTree.Rehung` | kernel/multitasking/events.c:52-63 | the links around a place stay consistent when its holder is pointed elsewhere |
| `EventTree.Reparented` | kernel/multitasking/events.c:52-63 | a subtree's links stay consistent under another parent |
| `EventTree.Locate` | kernel/multitasking/events.c:75-93 | every event of a tree is the top of a subtree with a context around it |
| `EventQueue.InsertSplit` | kernel/multitasking/events.c:29-49 | insertion puts the event after all that are not later and before all later ones |
| `EventQueue.InsertSorted` | kernel/multitasking/events.c:29-49 | insertion keeps the queue sorted |
| `EventQueue.WithoutSorted` | kernel/multitasking/events.c:96-103 | removal keeps the queue sorted whatever time the removed event has by then |
| `EventQueue.EventQueue.constructor` | kernel/multitasking/events.c:9-26 | the empty queue |
| `EventQueue.EventQueue.Create` | kernel/multitasking/events.c:9-22 | a record that is in no queue |
| `EventQueue.EventQueue.Transplant` | kernel/multitasking/events.c:52-63 | for every context that the first node fills, the links around it are consistent with the second in its place, and no record but the second and its surroundings changes |
| `EventQueue.TransplantAround` | kernel/multitasking/events.c:52-63 | around the place that one subtree filled, all links are consistent with the other in it |
| `EventQueue.EventQueue.Minimum` | kernel/multitasking/events.c:66-72 | the first event of a subtree, with nothing to its left |
| `EventQueue.EventQueue.DeleteInner` | kernel/multitasking/events.c:75-93 | a node with two children is replaced by its successor, the rest of the order kept |
| `EventQueue.EventQueue.Delete` | kernel/multitasking/events.c:75-93 | takes exactly that event out of the order without reading any time; on a record that is in no queue the queue is lost |
| `EventQueue.EventQueue.FindPlace` | kernel/multitasking/events.c:29-49 | the descent ends at the place where the order wants the event |
| `EventQueue.EventQueue.BstInsert` | kernel/multitasking/events.c:29-49 | the queue becomes the one with the event inserted, links consistent |
| `EventQueue.EventQueue.SetTime` | kernel/multitasking/sched.c:111-116 | the owner may overwrite a time while the event is linked |
| `EventQueue.EventQueue.Remove` | kernel/multitasking/events.c:96-103 | removes exactly that event when it is queued; otherwise everything is lost |
| `EventQueue.EventQueue.Enqueue` | kernel/multitasking/events.c:106-116 | an event already queued is taken out first, so it ends up in its place once, the queue sorted |
| `EventQueue.EventQueue.PeekNext` | kernel/multitasking/events.c:119-121 | the front of the queue, or NULL exactly when it is empty |
| `EventQueue.EventQueue.EnqueueAt` | kernel/multitasking/sched.c:235-240 | a new time followed by enqueue is correct even if the event was linked under its old time |
| `SchedSpec.StepKeepsPlaces` | kernel/multitasking/sched.c:94-244 | every step keeps each thread in exactly one place: current, in line once, or asleep |
| `SchedSpec.RunKeepsPlaces` | kernel/multitasking/sched.c:94-244 | so does every run; no thread is lost but finished ones, and none appears but the idle one |
| `SchedSpec.RoundRobin` | kernel/multitasking/sched.c:47-162 | a thread at position k moves up one place per switch and is current after the (k+1)-th |
| `SchedSpec.TurnComes` | kernel/multitasking/sched.c:47-162 | in any run with enough switches a waiting thread gets its turn at exactly that switch |
| `SchedSpec.NoEarlyWake` | kernel/multitasking/sched.c:169-244 | a sleeper's wake time does not move and it gets in line no earlier |
| `SchedSpec.SleepsLongEnough` | kernel/multitasking/sched.c:228-244 | from the call of `thread_sleep` until the delay has passed the thread is neither in line nor current |
| `SchedSpec.WakeTimeIsExact` | kernel/multitasking/sched.c:228-244 | the wake time is the intended one if and only if the 64-bit sum does not wrap |
| `SchedSpec.WrappedSleeperWakes` | kernel/multitasking/sched.c:228-244 | after any call whose sum wraps there is a run with the sleeper in line before its delay has passed, with none of it passed unless the end of a slice wraps as well |
| `SchedSpec.FullSlice` | kernel/multitasking/sched.c:94-162 | a thread that does not go to sleep keeps the processor for 3 ms from when it got it: no step ends its slice earlier |
| `SchedSpec.SliceGivesWay` | kernel/multitasking/sched.c:137-189 | an interrupt at or after the end of the slice ends it, unless a sleeper's time came no later, and the first in line runs |
| `SchedSpec.SliceMustEnd` | kernel/multitasking/sched.c:137-189 | once its time is up the slice ends after at most one interrupt per sleeper and one more |
| `Scheduler.SwitchIsNext` | kernel/multitasking/sched.c:126-162 | the queue and list updates of a switch are the abstract switch |
| `Scheduler.WakeIsNext` | kernel/multitasking/sched.c:221-226 | those of a wake are the abstract wake |
| `Scheduler.Scheduler.constructor` | kernel/multitasking/sched.c:279-306 | the boot state satisfies the invariant |
| `Scheduler.Scheduler.Arm` | kernel/multitasking/sched.c:94-118 | queues the switch event of the current thread for 3 ms from now, modulo 2^64, restoring the invariant; no sleeper's wake time changes |
| `Scheduler.Scheduler.GetNextThread` | kernel/multitasking/sched.c:126-135 | the front of the line, or the idle thread when it is empty |
| `Scheduler.Scheduler.Requeue` | kernel/multitasking/sched.c:94-118 | a thread that can still run goes to the end of the line |
| `Scheduler.Scheduler.SwitchThread` | kernel/multitasking/sched.c:137-162 | is an abstract switch, starts a slice of 3 ms and keeps the invariant |
| `Scheduler.Scheduler.WakeThread` | kernel/multitasking/sched.c:221-226 | puts a sleeper at the end of the line; its assertion never fails |
| `Scheduler.Scheduler.RunCallback` | kernel/multitasking/sched.c:169-189 | a due event ends the current slice or wakes its sleeper, nothing else |
| `Scheduler.Scheduler.Dispatch` | kernel/multitasking/sched.c:169-189 | one round of the interrupt handler is an abstract step: the earliest event if it is due, and nothing only if none is; keeps the invariant |
| `Scheduler.Scheduler.SleepThread` | kernel/multitasking/sched.c:228-244 | `thread_sleep` with its switch is an abstract step, starts the next thread's slice of 3 ms and keeps the invariant |
| `Scheduler.Scheduler.Run` | kernel/multitasking/sched.c:94-244 | every run of interrupts and sleeps is a run of the abstract scheduler, each call the step it stands for, at its time |
| `Scheduler.Scheduler.PlacesAndQueue` | kernel/multitasking/sched.c:94-244 | between steps the event queue is exactly the current thread's switch event and one wake event per sleeper, each thread in one place |
| `BitSpan.GatherBit` | uacpi/source/io.c:66-79 | the shifts and mask fetch exactly the next up to eight source bits |
| `BitSpan.ScatterLowBit` | uacpi/source/io.c:81-82 | the first store replaces exactly the bits of its window |
| `BitSpan.ScatterHighBit` | uacpi/source/io.c:84-88 | the spill-over store replaces exactly the bits left over |
| `BitSpan.StoredBitAt` | uacpi/source/io.c:81-88 | one step replaces exactly its window of the destination |
| `BitSpan.StepExtendsCopy` | uacpi/source/io.c:62-92 | one step extends the copied part by up to eight bits |
| `BitSpan.BitCopy` | uacpi/source/io.c:46-93 | for any two spans, the destination span gets the source bits, zeroes past the source, and no other bit changes |
| `BitSpan.SameBits` | uacpi/source/io.c:46-93 | byte strings with the same bits are equal |
| `BufferField.CopyBytes` | uacpi/source/stdlib.c:584-594 | copies what the source has and clears the rest |
| `BufferField.CutMisalignedTail` | uacpi/source/io.c:14-24 | clears exactly the bits past the field in its last byte |
| `BufferField.JoinByteBit` | uacpi/source/io.c:164-169 | the repaired last byte has the new low bits under the old high ones |
| `BufferField.ReadBufferField` | uacpi/source/io.c:95-127 | byte path and bit path give the same bits, zeroes in the rest of the last byte |
| `BufferField.WriteBufferField` | uacpi/source/io.c:129-175 | byte path and bit path set exactly the field, zeroes past the source, all other bits kept |
| `BufferField.ReadAfterWrite` | uacpi/source/io.c:112-175 | a read returns what was written cut to the field; the same bytes if they fit it |
| `BufferField.WriteBackIsNothing` | uacpi/source/io.c:112-175 | writing back what was read changes nothing |
| `BufferField.DisjointFieldsAreIndependent` | uacpi/source/io.c:112-175 | a write is invisible to fields it does not overlap |
| `FieldUnit.UnitsAreDivision` | uacpi/source/io.c:427-432 | the rounded division counts the units that cover the field |
| `FieldUnit.ReadAccess` | uacpi/source/opregion.c:897-913 | one access reads a zero-extended unit, or fails exactly past the region |
| `FieldUnit.WriteAccess` | uacpi/source/opregion.c:897-913 | one access stores a unit, or fails and changes nothing exactly past the region |
| `FieldUnit.ReadUnit` | uacpi/source/io.c:434-452 | one turn extends the bits read, zeroes behind them |
| `FieldUnit.ReadMisaligned` | uacpi/source/io.c:406-455 | the loop reads the field's bits for every width, offset, length and destination size |
| `FieldUnit.ReadFieldUnit` | uacpi/source/io.c:457-505 | fast and slow path read the same; fails exactly when a unit lies past the region |
| `FieldUnit.StartUnit` | uacpi/source/io.c:528-554 | a partly covered unit starts from its old contents, all ones or all zeroes as its rule says; a covered one from zeroes |
| `FieldUnit.WriteUnit` | uacpi/source/io.c:528-568 | one turn writes one unit: field bits from the source, the rest by the rule; fails, changing nothing, exactly on a reserved rule with a partial unit or past the region |
| `FieldUnit.WriteFieldUnit` | uacpi/source/io.c:574-593 | bit by bit: the field gets the source bits; the other bits of its units become ones, zeroes or stay under the three rules; nothing else changes |
| `FieldUnit.WriteGenericFieldUnit` | uacpi/source/io.c:507-572 | the loop does that; fails exactly past the region or on a reserved rule with a partial unit, leaving a written prefix |
| `FieldUnit.FiveInHalfAByte` | uacpi/source/io.c:534-552 | five written to the low half of a zero byte makes 0xF5 under the rule of ones and 0x05 under the others |
| `FieldUnit.SpanCovers` | uacpi/source/io.c:530-567 | the units written cover the field and none lies wholly outside it |
| `FieldLayout.FieldReadBack` | uacpi/source/io.c:406-572 | write then read gives the value cut to the field |
| `FieldLayout.FieldWriteBack` | uacpi/source/io.c:406-572 | with Preserve, writing back what was read changes nothing |
| `FieldLayout.WritesStayApart` | uacpi/source/io.c:507-572 | a write is invisible to other fields: always with Preserve, otherwise outside its units |
| `FieldLayout.FieldsAreVariables` | uacpi/source/io.c:406-572 | after any run of writes every field reads as its own last write, or as at the start |
| `FieldLayout.Place` | uacpi/source/interpreter.c:1733-1745 | aligned byte offset and bit offset recombine to the bit offset, modulo 2^35 |
| `FieldLayout.WidthOf` | uacpi/source/interpreter.c:1710-1731 | the access width is 1, 2, 4 or 8 bytes for types 0 to 5, and no other type is valid |
| `FieldLayout.WidthsDouble` | uacpi/source/interpreter.c:1710-1731 | from bytes on each access type is twice as wide as the one before |
| `FieldLayout.KindIsLast` | uacpi/source/interpreter.c:1808-1861 | the access type in force is that of the last change before the field, or of the declaration |
| `FieldLayout.CreateFields` | uacpi/source/interpreter.c:1681-1861 | each named field lies at the sum of the lengths ahead of it; fails exactly on an invalid access type in force at a field |
| `FieldLayout.LaidOutApart` | uacpi/source/interpreter.c:1733-1806 | while the list fits the 32-bit byte offset no two fields share a bit |
| `FieldLayout.ApartExactly` | uacpi/source/interpreter.c:1733-1806 | two non-empty fields of any list share no bit if and only if their ranges modulo 2^35 do not meet; fields that start in the same stretch of 2^35 bits never do |
| `FieldLayout.FarFieldsCollide` | uacpi/source/interpreter.c:1733-1806 | a byte, gaps of 2^35 - 4 bits in all, none longer than a package length can say, and another byte: the two fields share bits |
| `GlobalLock.Taken` | uacpi/source/mutex.c:18-39 | an attempt sets owned, sets pending if and only if it was owned, and keeps the other bits |
| `GlobalLock.Dropped` | uacpi/source/mutex.c:41-51 | a release clears both bits and keeps the others |
| `GlobalLock.OsStepKeeps` | uacpi/source/mutex.c:18-114 | every step of the OS keeps the invariant and the reserved bits |
| `GlobalLock.FwStepKeeps` | uacpi/source/mutex.c:18-114 | so does every step of the firmware |
| `GlobalLock.HandlerStepKeeps` | uacpi/source/event.c:2088-2113 | so does every step of the notification handler |
| `GlobalLock.NeverBoth` | uacpi/source/mutex.c:18-114 | under every interleaving OS and firmware never both hold the lock, owned means held, reserved bits stay |
| `GlobalLock.NoLostWakeup` | uacpi/source/mutex.c:53-101 | a waiting OS with the firmware not the owner has its event signalled or a notification owed, latched or being handled; likewise for a waiting firmware |
| `GlobalLock.WaiterIsWoken` | uacpi/source/event.c:2088-2113 | from every such state at most five steps of firmware and handler deliver the event |
| `RwLock.SharedKept` | uacpi/source/mutex.c:351-382 | every step keeps the reader count and the hold on the write mutex right |
| `RwLock.StepKeeps` | uacpi/source/mutex.c:351-392 | every step of every thread, failed acquires included, keeps the invariant |
| `RwLock.NeverWithAWriter` | uacpi/source/mutex.c:351-392 | in every run at most one writer, never beside a reader |
| `RwLock.CountIsReaders` | uacpi/source/mutex.c:351-382 | with the read mutex free the count is the number of readers, who hold the write mutex exactly while there are any |
| `NamespaceTree.AttachKeepsTree` | uacpi/source/namespace.c:300-327 | linking a fresh leaf as last child gives the tree with it appended |
| `NamespaceTree.SkipKeepsTree` | uacpi/source/namespace.c:421-441 | skipping a childless node, whatever becomes of its record, gives the tree without it |
| `Namespace.Unreferenced` | uacpi/source/shareable.c:48-60 | dropping a reference touches no other record |
| `Namespace.Namespace.constructor` | uacpi/source/namespace.c:20-22 | the root alone |
| `Namespace.Namespace.Install` | uacpi/source/namespace.c:300-327 | the node becomes the last child of its parent, nothing but links changes; a dangling node is refused |
| `Namespace.Namespace.LastPeer` | uacpi/source/namespace.c:317-320 | the peer links end at the last child |
| `Namespace.Namespace.SkipPeer` | uacpi/source/namespace.c:421-438 | the predecessor, or the parent, is pointed past the node |
| `Namespace.Namespace.Uninstall` | uacpi/source/namespace.c:349-444 | removes exactly a childless installed node: with the last reference its record is freed, or cleared if static, and else stays, dangling and without object, with one reference less; of every other record at most links change; dangling, parenthood and unlinked nodes give the source's errors with the stated effect |
| `Namespace.Namespace.Wipe` | uacpi/source/namespace.c:226-228 | uninstalls all children of a node whose children have none; none is refused, each record meets the same fate, of all others at most links change |
| `Namespace.Namespace.ClearTree` | uacpi/source/namespace.c:206-248 | terminates with the root alone, every other node gone with that fate of its record, no uninstall refused and no freed record touched |
| `Namespace.Namespace.Deinitialize` | uacpi/source/namespace.c:206-263 | the same, and of the root's record only its name, its reference count and its predefined flag are left, without links or object |
| `NamespaceWalk.ForEachChild` | uacpi/source/namespace.c:832-934 | the stackless loop makes the calls of the recursive walk, in its order and with its outcome; for every callback behaviour: no node below one whose descending call asks for the next peer is called, a call that breaks is the last with status Ok, a descending call that fails is the last with an error, and there is no other error |
| `NamespaceWalk.WalkBelowNode` | uacpi/source/namespace.c:864-928 | the loop itself: the calls and the outcome of the recursive walk |
| `NamespaceWalk.DecisionsHeeded` | uacpi/source/namespace.c:864-928 | the same decisions for the walk of any forest from any state: only the last call may end it, and it says how |
| `NamespaceWalk.BelowByParents` | uacpi/source/namespace.c:300-327 | the nodes below one are its children by parent link, and theirs |
| `NamespaceWalk.VisitNode` | uacpi/source/namespace.c:867-898 | one visit is that of the recursive walk: whether it calls, the flag it leaves and the decision; what follows from the decision is `DecisionsHeeded` |
| `NamespaceWalk.OnceEach` | uacpi/source/namespace.c:832-934 | every selected node within the depth limit exactly once in either order, no other node at all |
| `NamespaceWalk.ForestIs` | uacpi/source/namespace.c:300-327 | below every node of a valid tree the links spell out exactly its descendants, each once |
| `NamespaceVisits.CallsArePicked` | uacpi/source/namespace.c:787-934 | for any callbacks the calls are the visits where the flag left by the node last tested is set, up to the first whose decision ends the walk; none are made below a node that asked for the next peer |
| `NamespaceVisits.StaleMatch` | uacpi/source/namespace.c:787-804 | in every forest and for any callbacks, if no call ends the walk, a visit leads to a call if and only if its direction has a callback, the node is not passed over, and the last tested node with an object is of a wanted type; never if there was none |
| `NamespaceVisits.WalkOrder` | uacpi/source/namespace.c:832-934 | the walk finishes exactly if no call breaks it or fails; then descending calls are in pre-order and ascending ones in post-order, without the nodes below one that asked for the next peer, if and only if no node without an object is called, or has selected nodes below it passed over, on another node's account |
| `NamespaceVisits.ObjectsSuffice` | uacpi/source/namespace.c:832-934 | which is so when every node has an object |
| `NamespaceVisits.WalkOfTree` | uacpi/source/namespace.c:832-934 | the loop below any node of the namespace, for any callbacks: exactly its descendants, the decisions heeded, each selected node within reach once and in order under that condition, certainly if all have objects; no other call cuts it short |
| `NamespaceVisits.CalledForAnother` | uacpi/source/namespace.c:787-804 | a node without an object right after a wanted one is called |
| `NamespaceVisits.HiddenByAnother` | uacpi/source/namespace.c:787-804 | a temporary node without an object right after a wanted one hides its children |
| `NamespacePath.PathLength` | uacpi/source/namespace.c:1040-1049 | the computed size is the length of the path |
| `NamespacePath.Depth` | uacpi/source/namespace.c:1013-1023 | the number of ancestors |
| `NamespacePath.GenerateAbsolutePath` | uacpi/source/namespace.c:1032-1070 | the path and its terminator fill the buffer exactly |
| `NamespacePath.FindSubNode` | uacpi/source/namespace.c:446-464 | the first child with the name, or NULL |
| `NamespacePath.SegmentToName` | uacpi/source/namespace.c:466-487 | up to four characters before a dot, padded with underscores |
| `NamespacePath.SkipPrefix` | uacpi/source/namespace.c:515-559 | consumes the prefix as the recursive reading does: what that leads to is `PrefixClimbs` |
| `NamespacePath.PrefixClimbs` | uacpi/source/namespace.c:515-559 | k carets lead to the k-th ancestor by parent links, and nowhere if there are fewer levels; the rest of the path is read from there, no longer as a single name |
| `NamespacePath.FollowNames` | uacpi/source/namespace.c:561-591 | follows the names down; a single name may be found above the start, and without a start that search faults |
| `NamespacePath.SearchAncestors` | uacpi/source/namespace.c:579-589 | the nearest ancestor's child with the name |
| `NamespacePath.Resolve` | uacpi/source/namespace.c:489-619 | the node the path names, with the source's errors for invalid paths and missing nodes, denied exactly if it is temporary and only permanent ones are asked for, and a fault exactly when it has to search above a missing start |
| `NamespacePath.SegmentsOfSpelled` | uacpi/source/namespace.c:466-591 | splitting names joined with dots gives them back |
| `NamespacePath.PathRoundTrip` | uacpi/source/namespace.c:489-1070 | when no name but the root's holds a dot or a terminator and siblings differ, the printed path of any node, read up to its terminator, resolves to it from any start |
| `NamespacePath.CaretsAndNames` | uacpi/source/namespace.c:515-591 | from any start, k carets and the names from the k-th ancestor down to any node below it, joined with dots, resolve to that node |
| `NamespacePath.QualifiedLeadsDown` | uacpi/source/namespace.c:515-591 | carets and names, other than a single name, lead to c if and only if those are the names down to c from that ancestor; otherwise nothing is found, even when searching above is allowed |
| `NamespacePath.AbsoluteLeadsDown` | uacpi/source/namespace.c:515-591 | behind a backslash the same from the root, from any start and without one |
| `NamespacePath.TooManyCarets` | uacpi/source/namespace.c:515-559 | more carets than levels, or a backslash behind a caret, give an invalid path |
| `NamespacePath.NearestIsFound` | uacpi/source/namespace.c:466-591 | a single name of up to four characters, filled up with underscores, is found at the nearest node on the way up that has a child of that name, by parent links, and not found exactly if none has |
| `NamespacePath.NoStartFaults` | uacpi/source/namespace.c:504-591 | without a start it is looked for below the root, and searching above is a fault exactly if it is not there |

## Left out

- Hardware access and assembly: port I/O, model-specific registers, interrupt controllers, timers, `switch_context`, descriptor tables.
- kernel/multitasking/events.c `event_dequeue` and kernel/memory/pmm.c `pmm_free`: not called by live code; the latter does not undo `pmm_alloc`.
- kernel/memory/pmm.c: frames are numbered instead of addressed through the direct map.
- Paging-structure caches of the processor; only final translations are cached in the model.
- Timer programming and the window inside `thread_sleep` before its switch: excluded by the atomic steps; bare `thread_yield` calls and thread creation after boot likewise.
- `Scheduler.Scheduler.SleepThread`: is for a running thread other than the idle one, as the source assumes.
- `Mmu.Mmu.MapPage`: needs as many free frames as tables are missing; the failure without them is that of `GetNextPml` and `OutOfFramesShares`.
- `Mmu.Mmu.UnmapPage`: likewise.
- `Mmu.Mmu.GetPml1Entry`: likewise.
- `KHeap.KHeap.Run`: is for clients that free only blocks they hold and make no overlong request; `FreeTwice` and `Kmalloc` say what other calls do.
- `KHeap.KHeap.Kfree`: a pointer into the middle of a block, other than one the block itself was given out at, is not modelled.
- limine/limine.c:430 and 476: 64-bit wrap-around of a location plus the progress made.
- `BlockDevice.Device.LoadUninstallData`: trusts the record count of the file to be at most 256, as the source does.
- limine/limine.c beyond the cache and the log: partition probing, `bios_install` apart from its cleanup, `enroll_config`, argument parsing; device faults other than going past the end.
- uacpi/source/io.c: Bank and Index fields, general-purpose I/O and buffer-access address spaces, GAS registers; 32-bit wrap-around of the running byte offset and of bit counts near 2^32.
- uacpi/source/interpreter.c: the rest of the AML machine; attributes, connections and pin offsets of field lists; 64-bit wrap-around of the summed bit offset.
- uacpi/source/mutex.c: platforms without a global lock, the sequence numbers of `uacpi_acquire_global_lock`, recursive locks and AML mutexes; several OS threads are serialised by the AML mutex above the modelled one.
- uacpi/source/event.c beyond the global lock handler and its status bit.
- `RwLock.StepKeeps`: the reader count does not wrap around at 2^32.
- `NamespaceWalk.ForEachChild`: locking around callbacks, and callbacks that change the tree while it is walked.
- uacpi/source/namespace.c: predefined nodes other than the root, aliases, object lookup, the typed sibling iterator, failure to allocate a path buffer.
- uacpi/source/namespace.c: that detaching an object may drop references the object held on other nodes.
- `Namespace.Namespace.Install`: is for a node without children or a next peer, as a newly allocated one is.
- `Namespace.Namespace.Uninstall`: a node whose parent does not list it is not modelled.
- Logging, text output, string routines, boot information, sleep states, notify and the unimplemented kernel hooks of uACPI.
