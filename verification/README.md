# Verified models of bekOS

bekOS is a 64-bit ARM kernel with its own userspace. This project models the parts of it whose correctness
rests on an invariant over whole runs, and proves those invariants. Code that changes things in place is
modelled by classes and loops, proved against functions and relations on plain values; what the code is for is
then proved about those. Each group of files stands for one component:

- **Userspace heap**: `Heap` (blocks and chunks), `HeapRuns` (every run, and two exact conditions),
  `HeapClass` (the lists threaded through memory).
- **virtio split virtqueue** (section 2.7 of VIRTIO 1.2): `Virtio` (driver and device as interleaved steps),
  `VirtioQueue` (tables and rings in memory), `VirtioDriver` (the object, with callbacks that re-enter).
- **xHCI rings** (section 4.9 of the xHCI specification): `XhciRing` (cycle bits, the objects), `XhciRuns` (whole
  runs, and what becomes of every callback).
- **FAT**: `FatEntries` (entries in sectors), `FatChains` (files as disjoint chains), `FatTraces` (which sectors the
  operations ask for, and when a cache goes unnoticed), `FatCache` (the object, over disk and cache).
- **Sector cache**: `LruCache` (a cache over the hash table, as a machine over requests), `SectorHash` (the hash the
  code uses). **Hash table**: `Hashtable`.
- **Scheduler**: `Scheduler` (selection, bounded waiting, critical sections), `ProcessManager`.
- **Interlink messages**: `Words`, `RingBuffer`, `Interlink` (message buffers), `InterlinkChannel` (messages as
  queue entries and bytes), `InterlinkConnection`.
- **Page allocator**: `PageAllocator`, `PageRegions`. **Slab allocator**: `Slab`, `SlabLists`, `SlabAllocator`,
  on `IntrusiveList`. **Boot memory map**: `MemoryMap`.
- **Timers**: `Timers`, `TimingManager`.
- **Directory listings**, written by the kernel and read by userspace: `DirectoryPages`, `DirectoryStream`.
- **DMA ranges** (sections 2.3.8 and 2.3.9 of the Devicetree Specification): `DmaRanges`.
- `Counting` holds counting and modular arithmetic used throughout, `Wrappers` values that may be missing.

Where the code falls short of what one would expect of it, the model keeps the code's behaviour, gives the case
that fails and proves exactly when it does not:

- The size check on freeing a small block can fail for rounded requests above 4072 bytes
  (`HeapRuns.FreeCheckExactly`), and alignments above 8 are ignored (`HeapRuns.AlignmentExactly`).
- The virtqueue loop compares a 32-bit count with a 16-bit index (`VirtioModel.GuardExactly`); after a run of 2^16
  completions its next pass frees a descriptor that is free (`VirtioDriver.WrappedRun`).
- A 127th unread TRB may overwrite a Link TRB the controller has yet to follow (`XhciRuns.PushUntested`), which then
  reads no more (`XhciRuns.StalledRun`); and a callback is lost when 127 TRBs are pushed from its own on before it is
  reported (`XhciRuns.PushLosesExactly`), in a run with never more than one TRB unread (`XhciRuns.LostRun`).
- FAT16 cluster numbers from 0xFFF7 on cannot be linked to (`FatChains.ExtendsWellExactly`); on a table of 65536
  entries an allocation cuts the file it was to extend (`FatChains.LargeFat16Cuts`).
- The hash table needs a capacity of at least 3 (`Hashtable.CapacityExactly`), and a present key behind a
  tombstone is stored twice (`Hashtable.TombstoneDuplicates`). Tombstones are cleared by growing only, and a table
  whose entries stay few does not grow: after as many stores as it has slots, looking for an absent key may fail
  (`Hashtable.StoresExactly`, `Hashtable.WearRun`).
- The sector cache evicts from such a table and never lets it grow, so reading more than twice as many sectors as it
  is to hold can panic (`LruCaches.GoesOnExactly`, `FatTraces.ShortRunsUnnoticedExactly`); twenty-one reads do on a
  volume of 62 FAT sectors (`FatTraces.SmallVolumePanics`). A table of no more sectors than the cache holds is safe
  (`FatTraces.UnnoticedIf`).
- Entering a sector does not advance the use counter, so sectors entered between two hits are evicted in the order of
  the table: least recently used is guaranteed exactly when the least counter is unique (`LruCaches.OldestExactly`),
  and eleven reads evict the most recently used (`SectorHashes.SpreadEvictsNewest`).
- A refused registration leaves its critical section entered and stops the scheduler
  (`Scheduling.RefusalStopsScheduling`). No caller in the repository can be refused: a process is created with
  identifier -1 (`kernel/src/process/process.cpp:40`), which asks for any slot, and still has it at every registration
  (`process.cpp:84`, `process.cpp:112`, `syscalls.cpp:436`).
- An interlink message as large as the ring is told to try again for ever (`InterlinkQueue.NeverFits`); every ring has
  such messages (`InterlinkQueue.WholeRingRetried`).
- The page allocator never looks below the page freed last (`PageBook.RefusedExactly`).
- An empty directory lists one entry that does not exist, and so does, in place of the rest, one with an entry too
  large for the buffer (`DirectoryStreams.Walk`, `DirectoryStreams.ExactlyWhen`).
- The identity mapping assumed for DMA leaves out the last byte (`DmaRanges.LastByteLeftOut`).

The sector cache stands on the hash table as a value, with the functions the table's object is proved to compute;
runs over it are sequences of requests, each with the sectors held meanwhile.

Integers are unbounded unless a width is written out; the widths that matter (ring indices, cycle counts, FAT
entries, message and directory fields) are. Clocks, the kernel's answers to memory requests, the device's
behaviour and what callbacks do are parameters, over which every statement quantifies. Block headers and timers
that the code finds by pointer arithmetic are kept in maps from address to contents.

## Model

| member | source | states |
|---|---|---|
| HeapArena.SplitTiles | userspace/libcore/src/allocation.cpp:35-45 | splitting a block that is large enough leaves the chunks exactly tiled: no overlap and no lost byte |
| HeapArena.TakeInv | userspace/libcore/src/allocation.cpp:151-166 | taking a chosen block off the free list, split or whole, keeps the tiling, the accounting of live blocks and the separation of free neighbours |
| HeapArena.GrowInv | userspace/libcore/src/allocation.cpp:142-149 | a fresh page-aligned chunk from the kernel joins as one free block without disturbing anything |
| HeapArena.ReleaseInv | userspace/libcore/src/allocation.cpp:189-207 | freeing and coalescing with the next and the previous block keeps the tiling, and afterwards two free blocks touch only where the later one starts a chunk |
| HeapArena.ReleasedExactly | userspace/libcore/src/allocation.cpp:189-207 | freeing leaves every other live block as it was, and the bytes of the freed one in one free block |
| HeapRuns.EveryRunTiles | userspace/libcore/src/allocation.cpp:102-207 | in every run of allocate and free, free and live blocks exactly tile the chunks, every size is a multiple of 8, and free neighbours touch only at chunk starts |
| HeapRuns.EveryByteOwnedOnce | userspace/libcore/src/allocation.cpp:102-207 | in every run, each byte of a chunk belongs to exactly one block, free or live |
| HeapRuns.ServedExactly | userspace/libcore/src/allocation.cpp:119-149 | the block that serves a request is the lowest that exceeds it by 16 to 39 bytes, or else the smallest with 16 bytes more than the request, the lowest of several; the heap grows only if no free block has those 16 bytes |
| HeapRuns.TakenExactly | userspace/libcore/src/allocation.cpp:35-45 | a block at least 40 bytes larger than the request is cut 16 bytes behind it, any other is handed out whole |
| HeapRuns.FreeCheckExactly | userspace/libcore/src/allocation.cpp:189-193 | the size check on free passes in all runs for a rounded request exactly when the request is at most 4072 bytes; above that a run is given in which a merged block of 4112 bytes fails it |
| HeapRuns.AlignmentExactly | bek/include/bek/allocations.h:35-40 | the requested alignment is honoured in all runs exactly when it divides 8, because the allocator does not look at it |
| HeapClass.NextTouches | userspace/libcore/src/allocation.cpp:195-201 | the block linked after the freed one is the only one that can start where it ends |
| HeapClass.OnlyPreviousTouches | userspace/libcore/src/allocation.cpp:203-206 | only the block linked before it can end where it starts, so one look each way coalesces everything |
| HeapClass.Heap.InsertBlock | userspace/libcore/src/allocation.cpp:81-100 | the loop links a block into the address-sorted list after its predecessor, which it returns, and changes nothing else |
| HeapClass.Heap.FindBest | userspace/libcore/src/allocation.cpp:119-140 | the search returns the first block too tight to split, or else the smallest that fits, or none exactly when none fits |
| HeapClass.Heap.SplitBlock | userspace/libcore/src/allocation.cpp:35-45 | the header writes of a split are those of the split on the block map |
| HeapClass.Heap.Unlink | userspace/libcore/src/allocation.cpp:156-162 | a block is linked out of the list and no other link changes |
| HeapClass.Heap.TakeBlock | userspace/libcore/src/allocation.cpp:151-162 | unlinking and splitting together are one step of the model |
| HeapClass.Heap.TrackRange | userspace/libcore/src/allocation.cpp:67-75 | the tracked bounds become the new pointer where it lies outside them, and stay otherwise |
| HeapClass.Heap.AddChunk | userspace/libcore/src/allocation.cpp:142-149 | a kernel region becomes a free block |
| HeapClass.Heap.FindOrGrow | userspace/libcore/src/allocation.cpp:119-149 | the block chosen, from the list exactly when a free block has 16 bytes more than the request, or a fresh chunk; nothing changes when the kernel refuses one |
| HeapClass.Heap.AllocateSmall | userspace/libcore/src/allocation.cpp:119-166 | a small request is served from the list exactly when a free block has 16 bytes more than the request, else from a fresh chunk, else refused |
| HeapClass.Heap.AllocateHuge | userspace/libcore/src/allocation.cpp:110-118 | a request of a page or more gets a region of its own: the least number of pages that hold it and its header of 16 bytes |
| HeapClass.Heap.Allocate | userspace/libcore/src/allocation.cpp:102-167 | every call is one step of the model; a null result means size 0, or refusal by the kernel with nothing that fits |
| HeapClass.Heap.UnlinkHuge | userspace/libcore/src/allocation.cpp:174-182 | a huge block is linked out of its list |
| HeapClass.Heap.TryFreeHuge | userspace/libcore/src/allocation.cpp:169-187 | a pointer is recognised as huge exactly when it is one |
| HeapClass.Heap.CoalesceNext | userspace/libcore/src/allocation.cpp:198-201 | the in-memory merge with the next block is the merge of the model |
| HeapClass.Heap.CoalescePrevious | userspace/libcore/src/allocation.cpp:203-206 | the in-memory merge with the previous block is the merge of the model |
| HeapClass.Heap.ReleaseBlock | userspace/libcore/src/allocation.cpp:189-207 | inserting and coalescing are one release step |
| HeapClass.Heap.FreeSmall | userspace/libcore/src/allocation.cpp:189-207 | a small block is released, or the size check fails and nothing changes |
| HeapClass.Heap.Free | userspace/libcore/src/allocation.cpp:209-216 | every free of a live pointer is one step; it fails exactly when the size check does, and the range check never does |
| HeapClass.Heap.FindHuge | userspace/libcore/src/allocation.cpp:221-229 | the list of huge blocks is searched for a pointer |
| HeapClass.Heap.SizeOf | userspace/libcore/src/allocation.cpp:218-238 | the size reported is the one behind the pointer, huge or small |
| VirtioModel.StepInv | kernel/src/peripherals/virtio.cpp:109-152 | posting, taking, completing and processing each keep the free list and the chains in flight a partition of the descriptors |
| VirtioModel.PostedExactly | kernel/src/peripherals/virtio.cpp:334-366 | a transfer can be posted exactly when it has elements and as many descriptors are free; it goes behind the others, on the first free descriptors |
| Modular.SlotExactly | kernel/src/peripherals/virtio.cpp:362-366 | an index so many entries into a lap of the ring lands in that entry |
| VirtioModel.EveryRunPartitions | kernel/src/peripherals/virtio.cpp:102-152 | in every interleaving of driver and device, free list and in-flight chains partition all descriptors |
| VirtioModel.RingsNeverOverrun | kernel/src/peripherals/virtio.cpp:121-151 | entries waiting in the available ring and in the used ring never exceed the ring, so none is overwritten before it is read |
| VirtioModel.GuardExactly | kernel/src/peripherals/virtio.cpp:127-129 | the loop guard holds exactly when a completion is waiting, or when the count of processed ones is 2^16 or more modulo 2^32 |
| VirtioModel.LoopStopsExactly | kernel/src/peripherals/virtio.cpp:127-145 | with a 32-bit count against a 16-bit index the loop stops on a drained ring exactly while the count of completions is below 2^16 modulo 2^32 |
| VirtioQueue.PostRep | kernel/src/peripherals/virtio.cpp:334-366 | the descriptor, ring and callback writes of a transfer represent the posted queue |
| VirtioQueue.PostCallbacks | kernel/src/peripherals/virtio.cpp:362-363 | the callback table has no entry for the new head, so the insert never finds a duplicate |
| VirtioQueue.ProcessFree | kernel/src/peripherals/virtio.cpp:133-142 | pointing the last descriptor at the old free list puts the whole chain in front of it |
| VirtioQueue.ProcessRep | kernel/src/peripherals/virtio.cpp:129-151 | the writes made for one completion represent the queue with that completion processed |
| VirtioQueue.TakeRep | kernel/src/peripherals/virtio.cpp:362-366 | what the device finds at its place in the available ring is the head of the next transfer |
| VirtioDriver.SplitVQ.constructor | kernel/src/peripherals/virtio.cpp:92-107 | all descriptors start on the free list |
| VirtioDriver.SplitVQ.AllocateDescriptor | kernel/src/peripherals/virtio.cpp:109-119 | takes the head of the free list; with a descriptor free it cannot fail |
| VirtioDriver.SplitVQ.AppendElement | kernel/src/peripherals/virtio.cpp:342-354 | one descriptor is filled from one element and linked to the next |
| VirtioDriver.SplitVQ.WriteChain | kernel/src/peripherals/virtio.cpp:340-360 | the loop spells out exactly the elements, on the first descriptors of the free list |
| VirtioDriver.SplitVQ.PlaceAvailable | kernel/src/peripherals/virtio.cpp:121-125 | the head goes into the slot of the next index, which is advanced modulo 2^16 |
| VirtioDriver.SplitVQ.QueueTransfer | kernel/src/peripherals/virtio.cpp:316-370 | a transfer is posted exactly when enough descriptors are free, and otherwise nothing changes; the unreachable failure is unreachable |
| VirtioDriver.SplitVQ.DeviceTake | kernel/src/peripherals/virtio.cpp:340-366 | a device that follows the available ring and the NEXT flags reads back exactly the posted elements, in posting order |
| VirtioDriver.SplitVQ.ChainEnd | kernel/src/peripherals/virtio.cpp:134-139 | following the NEXT flags finds the last descriptor and the length of the chain |
| VirtioDriver.SplitVQ.FreeChain | kernel/src/peripherals/virtio.cpp:133-142 | a chain goes back in front of the free list and its callback is forgotten |
| VirtioDriver.SplitVQ.ProcessEntry | kernel/src/peripherals/virtio.cpp:130-150 | the loop body, whatever the entry: its chain goes in front of the free list and its callback, if any, is run |
| VirtioDriver.SplitVQ.ProcessOne | kernel/src/peripherals/virtio.cpp:129-151 | one completion frees its own chain and runs the callback posted with its transfer, with the length reported |
| VirtioDriver.SplitVQ.Perform | kernel/src/peripherals/virtio.cpp:334-370 | a callback may post and the device may go on, each as a step of the model |
| VirtioDriver.SplitVQ.ProcessUsed | kernel/src/peripherals/virtio.cpp:127-152 | the handler leaves exactly the drained queue, whatever its callbacks and the device do meanwhile, if the count of completions is then below 2^16 modulo 2^32, which is when it stops |
| VirtioDriver.RunQueue | kernel/src/peripherals/virtio.cpp:102-152 | in every run from construction in which the handler stops each time, however many completions it sees, the callbacks run are those of the processed completions, each its own, once, in completion order |
| VirtioDriver.FewSettle | kernel/src/peripherals/virtio.cpp:127-152 | with fewer than 2^16 completions in all the handler stops each time |
| VirtioDriver.WrappedRun | kernel/src/peripherals/virtio.cpp:127-152 | a legal run of 2^16 transfers, all processed, after which the loop goes on, counts one free descriptor more than there are and links descriptor 0 to itself |
| XhciStream.WriteHolds | kernel/src/usb/xhci_ring.cpp:160-177 | writing the next slot of the ring extends the stream it stands for |
| XhciStream.NextSlotIsStale | kernel/src/usb/xhci_ring.cpp:160-163 | the slot about to be written always carries the old cycle bit, so the check never fails |
| XhciStream.PreviousOccupant | kernel/src/usb/xhci_ring.cpp:164-167 | the slot about to be written last held the item one lap back |
| XhciStream.ConsumerSees | kernel/include/usb/xhci_ring.h:208-223 | a consumer at most a ring behind sees a valid cycle bit exactly when something is unread, and then reads that item |
| XhciStream.OverrunConsumerStalls | kernel/src/usb/xhci_ring.cpp:160-177 | a consumer more than a ring behind sees its slot as empty |
| XhciStream.WindowExactly | kernel/src/usb/xhci_ring.cpp:160-177 | the producer is within a ring of the consumer exactly with at most 126 TRBs unread, or 127 and no Link TRB left to follow |
| XhciRuns.MayPushExactly | kernel/src/usb/xhci_ring.cpp:160-177 | a push keeps the producer within a ring of the controller exactly when that test allows it |
| XhciRuns.PushUntested | kernel/src/usb/xhci_ring.cpp:160-177 | a push without the test keeps the controller in step exactly when the test would have allowed it, and otherwise the controller takes the ring for empty with TRBs unread |
| XhciRuns.StalledRun | kernel/src/usb/xhci_ring.cpp:160-177 | such a run from construction: 127 TRBs unread and the controller stands on an overwritten Link TRB |
| XhciRings.LinkHasNoCallback | kernel/src/usb/xhci_ring.cpp:168-176 | a Link TRB never has a callback waiting |
| XhciRings.CreatedType | kernel/include/usb/xhci_ring.h:92-100 | a TRB has the type it is created with, whatever its other fields |
| XhciRings.StageTypes | kernel/include/usb/xhci_ring.h:244-266 | the stages of a control transfer are not Link TRBs, so the controller delivers them |
| XhciRings.StagesDecode | kernel/include/usb/xhci_ring.h:244-266 | for fields within their widths a controller decodes from the stages the request, value, index and length, 8 bytes of immediate data, whether data follows and which way; the buffer, its length and direction; and the opposite direction, or in without data, with an interrupt exactly if there is a callback |
| XhciRings.IndexExactly | kernel/src/usb/xhci_ring.cpp:180-181 | an address on 64 bits leads to slot k exactly for the 16 bytes of that slot, and out of the ring exactly outside its 2048 bytes |
| XhciRings.ProducerRing.PushCommand | kernel/src/usb/xhci_ring.cpp:160-177 | the TRB is appended to the stream with its cycle bit, followed by a Link TRB at the end of a lap; a callback is dropped exactly when the slot still had one |
| XhciRings.ProducerRing.WriteSlot | kernel/src/usb/xhci_ring.cpp:160-165 | the slot gets the TRB with its cycle bit and its callback, and the check on the old bit passes |
| XhciRings.ProducerRing.WriteLink | kernel/src/usb/xhci_ring.cpp:168-176 | the Link TRB is written with the cycle bit of its lap and the cycle state toggled |
| XhciRings.ProducerRing.ProcessCompletion | kernel/src/usb/xhci_ring.cpp:178-190 | a report of any of the 16 bytes of the TRB last written to a slot returns the callback of that TRB, once; it fails exactly for addresses outside the 2048 bytes of the ring |
| XhciRings.ProducerRing.PushControlTransfer | kernel/src/usb/xhci_ring.cpp:191-210 | setup, data if any, and status are queued in order, decode to the transfer asked for, and only the last carries the callback |
| XhciRings.Controller.Advance | kernel/src/usb/xhci_ring.cpp:160-177 | a controller that trusts the cycle bit, and follows a Link TRB to the address in it, toggling if it says so, reads the next item, and finds nothing exactly when nothing is left |
| XhciRings.Controller.Drain | kernel/src/usb/xhci_ring.cpp:160-177 | reading until the ring looks empty reads everything |
| XhciRuns.PushIfRoom | kernel/src/usb/xhci_ring.cpp:160-177 | a driver that tests first keeps the controller in step, and a callback whose place the push takes is that of a TRB the controller has read |
| XhciRuns.RunRing | kernel/src/usb/xhci_ring.cpp:160-190 | in every run with the test made before pushing, the controller reads exactly the pushed TRBs in order, and the callbacks run are those the run calls for |
| XhciRuns.EveryRunAccounted | kernel/src/usb/xhci_ring.cpp:160-190 | in every run a callback is run at most once and on a report of its own TRB; every callback given has been run, waits less than a ring back, or was lost after its TRB was read |
| XhciRuns.ReportRuns | kernel/src/usb/xhci_ring.cpp:178-190 | a report of a TRB neither overwritten nor reported before runs its callback |
| XhciRuns.ReportedExactly | kernel/src/usb/xhci_ring.cpp:178-190 | in every run a report of any of the 16 bytes of a TRB not yet overwritten runs exactly its callback, if it was not run before, and a report fails exactly outside the 2048 bytes of the ring |
| XhciRuns.PushLosesExactly | kernel/src/usb/xhci_ring.cpp:160-161 | in every run a push loses a callback exactly when 127 TRBs or more were pushed from a TRB on whose callback still waits |
| XhciRuns.LostRun | kernel/src/usb/xhci_ring.cpp:160-177 | such a run from construction, for every TRB and callback: one TRB in flight at a time, none reported, and the 128th push drops the first callback |
| XhciRings.EventRing.Process | kernel/include/usb/xhci_ring.h:208-223 | the driver takes the next posted event, and none exactly when there is none |
| XhciRings.EventRing.ProcessSome | kernel/include/usb/xhci_ring.h:208-223 | repeated processing returns the posted events in order |
| XhciRings.PostedFull | kernel/include/usb/xhci_ring.h:188-226 | an event ring the driver does not read takes 128 events and no more |
| XhciRings.RunEvents | kernel/include/usb/xhci_ring.h:208-223 | in every interleaving the driver receives exactly the events posted |
| FatEntries.Located | kernel/src/filesystem/fat.cpp:347-353 | every cluster has its entry wholly inside one sector of the table, at 2 or 4 bytes times its number from the start of the table |
| FatEntries.KindExactly | kernel/src/filesystem/fat.cpp:332-345 | the kinds of entries by the low 28 bits of their values: free, pointer, corrupt, end of chain and reserved |
| FatEntries.ExtractExactly | kernel/src/filesystem/fat.cpp:355-368 | an entry is the little-endian number in its bytes, without the top 4 bits of 32, or with 16-bit values from 0xFFF7 on lifted |
| FatEntries.EntriesApart | kernel/src/filesystem/fat.cpp:347-353 | entries of different clusters share no byte |
| FatEntries.ExtractPut | kernel/src/filesystem/fat.cpp:355-378 | a value written is read back as the stored form: cut to 16 bits, or to 28 with the upper bits kept |
| FatEntries.ExtractElsewhere | kernel/src/filesystem/fat.cpp:355-378 | writing one entry changes no other |
| FatEntries.RoundTripExactly | kernel/src/filesystem/fat.cpp:355-378 | a value reads back unchanged exactly when it fits the width |
| FatChains.PointerExactly | kernel/src/filesystem/fat.cpp:355-378 | a cluster number stored as a link is read as a link exactly when it is addressable; FAT16 numbers from 0xFFF7 are not |
| FatChains.AllocateExactly | kernel/src/filesystem/fat.cpp:524-559 | on any table, with any hint: the cluster taken is the first from the hint on whose low 28 bits are 0, or none exactly if there is none; it and the entry of the last cluster are written, no other, and the hint goes behind it |
| FatChains.AllocateKeepsFiles | kernel/src/filesystem/fat.cpp:524-559 | allocating a cluster after the end of a file takes the first entry from the hint on whose low 28 bits are 0, lengthens that file by one and changes no other chain exactly when the cluster number can be stored as a pointer; it fails exactly when no entry from 2 up has its low 28 bits 0 |
| FatChains.ChainExtended | kernel/src/filesystem/fat.cpp:543-555 | linking a free cluster to the last one makes a simple chain one longer |
| FatChains.ExtendFrom | kernel/src/filesystem/fat.cpp:561-577 | the loop of an extension keeps every chain simple and all chains disjoint |
| FatChains.ExtendKeepsFiles | kernel/src/filesystem/fat.cpp:561-577 | on a table whose entry numbers can all be stored, extending a file keeps every other file as it is, and on success the file has the clusters its size needs, of so many sectors of so many bytes, unless it had more; `ExtendsWellExactly` shows that no other size will do |
| FatChains.ExtendedLength | kernel/src/filesystem/fat.cpp:561-577 | on success the file has the larger of its old length and the least number of clusters that hold its size |
| FatChains.ExtendsWellExactly | kernel/src/filesystem/fat.cpp:524-577 | extending works for every file of every table of a size exactly when all its entry numbers are addressable |
| FatChains.LargeFat16Cuts | kernel/src/filesystem/fat.cpp:543-555 | on a FAT16 table of 65536 entries the last cluster is taken and the file ends where it did |
| FatChains.EveryRunKeepsFiles | kernel/src/filesystem/fat.cpp:524-577 | on such a table, in every run of extensions all files stay disjoint simple chains and no free entry lies below the hint |
| FatCache.SameViewSameTable | kernel/src/filesystem/fat.cpp:495-514 | two cache states that show the same sectors are the same table |
| FatCache.EntryDecoded | kernel/src/filesystem/fat.cpp:347-368 | every entry of the table seen is decoded from the bytes at its place in the sector seen |
| FatCache.PutChangesEntry | kernel/src/filesystem/fat.cpp:370-378 | a write through a cached sector changes exactly one entry of the table seen |
| FatCache.EvictKeeps | kernel/src/filesystem/fat.cpp:678-687 | evicting a sector, written back first if dirty, changes nothing that can be seen |
| FatCache.EvictedStillHeld | kernel/src/filesystem/fat.cpp:678-687 | evicting a sector nobody holds leaves every reference valid |
| FatCache.FileAllocationTable.PickVictim | kernel/include/library/lru_cache.h:68-81 | the loop over the table finds its first sector with the least counter among those nobody holds |
| FatCache.FileAllocationTable.TryPurge | kernel/include/library/lru_cache.h:67-98 | a cache over its limit loses that sector, written back first if dirty, and nothing if every sector is held; what a reader sees does not change |
| FatCache.FileAllocationTable.Find | kernel/include/library/lru_cache.h:56-64 | finds a cached sector and marks it used, or fails where the lookup in the hash table does |
| FatCache.FileAllocationTable.Set | kernel/include/library/lru_cache.h:47-51 | enters a sector that is not there yet with the counter as it stands, then makes room as above |
| FatCache.FileAllocationTable.Fetch | kernel/src/filesystem/fat.cpp:495-514 | gives a reference to the sector as the table has it exactly when the cache answers, and is one request to it |
| FatCache.FileAllocationTable.Release | kernel/src/filesystem/fat.cpp:495-514 | one holder fewer, and nothing else changes |
| FatCache.FileAllocationTable.ReadEntry | kernel/src/filesystem/fat.cpp:516-522 | reads the entry the plain table holds |
| FatCache.FileAllocationTable.WriteEntry | kernel/src/filesystem/fat.cpp:370-378 | writes one entry of the plain table |
| FatCache.FileAllocationTable.GetNextCluster | kernel/src/filesystem/fat.cpp:516-522 | the successor is the one of the plain table; it panics exactly outside the table or when the cache does not answer |
| FatCache.FileAllocationTable.CheckEntry | kernel/src/filesystem/fat.cpp:531-539 | one entry of the search, free exactly if its low 28 bits are 0, with its sector held in place of the one before |
| FatCache.FileAllocationTable.FindFree | kernel/src/filesystem/fat.cpp:526-541 | the search finds the first entry from the hint on whose low 28 bits are 0, asking for one sector after the other |
| FatCache.FileAllocationTable.LinkCluster | kernel/src/filesystem/fat.cpp:543-555 | the new end and the link to it are written |
| FatCache.FileAllocationTable.AllocateNextCluster | kernel/src/filesystem/fat.cpp:524-559 | does to the table what the uncached allocation does, taking the first entry from the hint on whose low 28 bits are 0 and none exactly if there is none, or panics exactly when the cache does not answer its requests |
| FatCache.FileAllocationTable.ExtendFile | kernel/src/filesystem/fat.cpp:561-577 | does to the table what the uncached extension does, with the same result, or panics exactly when the cache does not answer |
| FatCache.Operate | kernel/src/filesystem/fat.cpp:516-577 | one read or extension through the cache gives the answer and leaves the table the plain operation does, unless the cache does not answer |
| FatCache.RunCached | kernel/src/filesystem/fat.cpp:495-577 | for every sequence of reads and extensions, every hash and every cache size the outputs are those of the plain table up to the first request the cache cannot answer; a cache of two sectors or more never exceeds its limit |
| FatTraces.UnnoticedExactly | kernel/src/filesystem/fat.cpp:495-577 | the outputs are all those of the plain table exactly when the cache answers every request of the run |
| FatTraces.UnnoticedIf | kernel/src/filesystem/fat.cpp:484-493 | it does whenever the table has no more sectors than the cache is to hold, or fewer than twice that many were entered before the last request |
| FatTraces.ShortRunsUnnoticedExactly | kernel/src/filesystem/fat.cpp:484-522 | if every slot of the cache's table is some sector's home, all runs of so many requests, and all runs of so many reads, go unnoticed exactly up to twice as many as the cache is to hold |
| FatTraces.ReadsPanic | kernel/src/filesystem/fat.cpp:495-522 | reads inside the table, one for each slot of the cache's table and one more, end in a panic |
| FatTraces.SmallVolumePanics | kernel/src/filesystem/fat.cpp:484-522 | with the code's hash and cache size, twenty-one reads on a FAT32 volume of 62 FAT sectors do |
| LruCaches.SeekExactly | kernel/include/library/lru_cache.h:56-64 | a lookup hits exactly the keys there, fails exactly for others when no slot is empty, and marks a hit |
| LruCaches.VictimLeast | kernel/include/library/lru_cache.h:72-81 | the victim has the least counter of the keys not held, and of several the first in the table |
| LruCaches.EveryRunConsistent | kernel/include/library/lru_cache.h:47-98 | in every run the table stands for a map, and a smaller counter means an earlier last use |
| LruCaches.StopsExactly | kernel/include/library/lru_cache.h:56-64 | a run stops at a request exactly when its key is not there and no slot is empty |
| LruCaches.StopsLate | kernel/include/library/lru_cache.h:43-51 | it does not stop before twice as many keys were entered as the cache is to hold |
| LruCaches.FewKeysGoOn | kernel/include/library/lru_cache.h:43-51 | a run over no more keys than the cache is to hold never stops, however long it is |
| LruCaches.EveryRunWithin | kernel/include/library/lru_cache.h:67-98 | in every run the cache holds no more than it is to, while the keys held leave room for one |
| LruCaches.EvictedExactly | kernel/include/library/lru_cache.h:67-98 | in every run the key evicted is the least recently used of those not held exactly when none with the same counter was used earlier |
| LruCaches.OldestExactly | kernel/include/library/lru_cache.h:72-81 | however the table lists its entries the least recently used is evicted, exactly when a single key has the least counter |
| LruCaches.NewestEvicted | kernel/include/library/lru_cache.h:47-81 | a run that evicts the most recently used key not held |
| LruCaches.ReadsStop | kernel/include/library/lru_cache.h:43-51 | keys asked for once each, one for each slot as its home, use the table up, and the next one that is missing stops the run |
| LruCaches.GoesOnExactly | kernel/include/library/lru_cache.h:43-51 | if every slot is some key's home, all runs of so many requests go on exactly up to twice as many as the cache is to hold |
| SectorHashes.SpreadHomes | bek/src/utility.cpp:21-28 | twenty sector numbers whose hashes fall on the twenty slots of a cache of ten |
| SectorHashes.SpreadStops | bek/src/utility.cpp:21-28 | reading them once each uses the table up |
| SectorHashes.SpreadEvictsNewest | bek/src/utility.cpp:21-28 | eleven reads evict the sector used most recently |
| Hashtable.LookupExactly | kernel/include/library/hashtable.h:209-225 | a lookup ends, with what the map has, exactly when the key is present or a slot is empty |
| Hashtable.PutAgrees | kernel/include/library/hashtable.h:190-206 | storing a key that is not behind a tombstone is storing it in the map |
| Hashtable.PutExactly | kernel/include/library/hashtable.h:190-206 | storing keeps the table a map exactly when no tombstone stands in front of a key that is present |
| Hashtable.ExtractAgrees | kernel/include/library/hashtable.h:130-139 | extracting leaves a tombstone and removes the key from the map |
| Hashtable.RoomLeft | kernel/include/library/hashtable.h:159-161 | without tombstones and with fewer entries than slots a slot is empty |
| Hashtable.PlaceLeft | kernel/include/library/hashtable.h:190-191 | with fewer entries than slots a lookup for insertion always ends |
| Hashtable.RefillAgrees | kernel/include/library/hashtable.h:162-188 | a rehash keeps the map |
| Hashtable.CheckSizeAgrees | kernel/include/library/hashtable.h:159-188 | growing when needed keeps the map, clears the tombstones and leaves fewer entries than slots |
| Hashtable.StepExactly | kernel/include/library/hashtable.h:88-139 | an operation answers as the map does and leaves a table for it exactly when, for a lookup, the key is present or a slot empty and, for a store, no tombstone stands in front of the key |
| Hashtable.RunsAgree | kernel/include/library/hashtable.h:88-139 | on every run of insert, set and find without extract the answers are those of a map, across all rehashes |
| Hashtable.AllowedRunsAgree | kernel/include/library/hashtable.h:88-139 | with extract the same holds, by counts the caller can keep: a present key is stored only with nothing extracted since the table grew, and an absent one looked for only while fewer slots were used than there are |
| Hashtable.PairedRunsAgree | kernel/include/library/hashtable.h:88-139 | runs that store absent keys and look up or extract present ones agree from any table, with or without an empty slot |
| Hashtable.StoresExactly | kernel/include/library/hashtable.h:130-161 | if every slot is some key's home, looking for an absent key is answered after all such runs of so many stores exactly when the stores are fewer than the slots |
| Hashtable.WearRun | kernel/include/library/hashtable.h:130-161 | storing and extracting one key for each slot, and then looking for any key, fails |
| Hashtable.CapacityExactly | kernel/include/library/hashtable.h:79-86 | all runs without extract agree with a map exactly when the initial capacity is at least 3 |
| Hashtable.TombstoneDuplicates | kernel/include/library/hashtable.h:190-206 | setting a present key behind a tombstone stores it twice |
| HashtableClass.HashTable.UncheckedLookup | kernel/include/library/hashtable.h:209-225 | the probing loop finds the slot the search function finds |
| HashtableClass.HashTable.UncheckedSet | kernel/include/library/hashtable.h:190-206 | the probing loop stores where the specification stores |
| HashtableClass.HashTable.CheckSize | kernel/include/library/hashtable.h:159-188 | the rehash loop builds the specified table |
| HashtableClass.HashTable.StoreEntry | kernel/include/library/hashtable.h:88-107 | insert and set as specified |
| HashtableClass.HashTable.Apply | kernel/include/library/hashtable.h:88-139 | each operation as specified |
| HashtableClass.RunObject | kernel/include/library/hashtable.h:88-139 | every run of the object, to its end or to the failing assertion, gives the outputs specified |
| Scheduling.TwoPasses | kernel/src/process/process.cpp:307-335 | with somebody running, the selection loop decides in its first or second pass |
| Scheduling.LoopEndsExactly | kernel/src/process/process.cpp:310-335 | the selection loop ends, and then within two passes, exactly when some process is running |
| Scheduling.ScheduledExactly | kernel/src/process/process.cpp:300-344 | the choice by numbers: the caller loses its ticks, everybody gets one if then no running process has any, and the process chosen is running and has the most ticks of those running, the first of several |
| Scheduling.EveryRunParked | kernel/src/process/process.cpp:300-362 | in every run everybody but the current process holds exactly the section its own suspended call entered, and after an effective call the new current process holds none |
| Scheduling.EffectiveExactly | kernel/src/process/process.cpp:300-306 | until a call is effective, a call is effective exactly when critical sections entered, sections left and refused registrations balance |
| Scheduling.RefusalStopsScheduling | kernel/src/process/process.cpp:261-271 | after one refused registration, which returns inside its critical section, the process is never switched away from again |
| Scheduling.WaitFalls | kernel/src/process/process.cpp:307-335 | every effective call that chooses somebody else lowers the bound on how long a running process still waits |
| Scheduling.BoundedWaiting | kernel/src/process/process.cpp:300-344 | among n processes one that stays running is chosen within 2n - 1 effective calls, whatever the others do |
| Scheduling.BoundIsMet | kernel/src/process/process.cpp:300-344 | for every n there is a run of 2n - 2 effective calls that never chooses a running process, so the bound is exact |
| ProcessManagement.ProcessManager.EnterCritical | kernel/src/process/process.cpp:241-245 | one section more for the current process |
| ProcessManagement.ProcessManager.ExitCritical | kernel/src/process/process.cpp:247-250 | one section fewer |
| ProcessManagement.ProcessManager.SelectBest | kernel/src/process/process.cpp:311-321 | one pass finds the first running process with the largest counter, or nobody |
| ProcessManagement.ProcessManager.HandOutTicks | kernel/src/process/process.cpp:328-334 | every process present gets one tick |
| ProcessManagement.ProcessManager.Choose | kernel/src/process/process.cpp:307-335 | the loop charges the caller and finds whom to run |
| ProcessManagement.ProcessManager.SwitchContext | kernel/src/process/process.cpp:345-362 | the old process is left suspended and the new one goes on where it was |
| ProcessManagement.ProcessManager.Schedule | kernel/src/process/process.cpp:300-344 | refused exactly inside a critical section; otherwise charges, chooses the running process with the most ticks, the first of several, and switches |
| ProcessManagement.ProcessManager.FirstEmpty | kernel/src/process/process.cpp:273-279 | the first empty slot of the table |
| ProcessManagement.ProcessManager.RegisterProcess | kernel/src/process/process.cpp:261-299 | places a process in the slot named or the first empty one; refused exactly for a taken or too large identifier |
| ProcessManagement.ProcessManager.ReapProcess | kernel/src/process/process.cpp:363-369 | empties one slot |
| RingBuffers.ReadSegment | kernel/src/library/ringbuffer.cpp:38-45 | reading up to the end of the buffer takes bytes off the front |
| RingBuffers.WriteSegment | kernel/src/library/ringbuffer.cpp:56-66 | writing up to the end of the buffer or the byte before the read index appends bytes |
| RingBuffers.RingBuffer.PendingBytes | kernel/src/library/ringbuffer.cpp:21-23 | the index arithmetic gives the number of unread bytes |
| RingBuffers.RingBuffer.FreeBytes | kernel/src/library/ringbuffer.cpp:24-26 | and the room left, with one slot kept empty |
| RingBuffers.RingBuffer.TakeSegment | kernel/src/library/ringbuffer.cpp:38-47 | one pass of a read |
| RingBuffers.RingBuffer.ReadTo | kernel/src/library/ringbuffer.cpp:27-49 | takes bytes off the front, all that are wanted or none, or what there is when partial, in at most two passes |
| RingBuffers.RingBuffer.StoreSegment | kernel/src/library/ringbuffer.cpp:56-68 | one pass of a write |
| RingBuffers.RingBuffer.WriteTo | kernel/src/library/ringbuffer.cpp:50-70 | appends all bytes or none, or what fits when partial, in at most two passes |
| InterlinkWire.DescribesOne | kernel/include/api/interlink.h:24-48 | a buffer describes at most one message |
| InterlinkWire.AcceptedDescribes | kernel/src/process/interlink.cpp:85-103 | a buffer that passes the checks describes the message it is taken for |
| InterlinkWire.DescribedAccepted | kernel/src/process/interlink.cpp:85-103 | conversely a buffer that describes a message without empty items passes the checks and is taken for that message |
| InterlinkWire.AcceptedExactly | kernel/src/process/interlink.cpp:85-103 | a buffer of data items is accepted exactly when it describes a message, does not claim to be longer than it is, and no item starts at its end or behind it |
| InterlinkWire.FillNext | kernel/src/process/interlink.cpp:177-188 | writing one item and its table entry fills the buffer one item further |
| InterlinkWire.FilledDescribes | kernel/src/process/interlink.cpp:168-188 | a filled buffer describes the message, byte for byte, its data packed behind the table, and says its size |
| InterlinkQueue.FramedOnce | kernel/src/process/interlink.cpp:109-119 | queue entries and pending bytes stand for one sequence of messages only |
| InterlinkQueue.SendExactly | kernel/src/process/interlink.cpp:105-107 | whatever is queued, an acceptable message is queued exactly when its data fits the free bytes of the ring, refused for good exactly when it is larger than the ring, and else for now |
| InterlinkQueue.FirstInFirstOut | kernel/src/process/interlink.cpp:80-217 | in every run what was accepted is, in order and byte for byte, what was delivered followed by what is still queued |
| InterlinkQueue.RetryOnEmptyExactly | kernel/src/process/interlink.cpp:105-107 | an empty channel says try again exactly for a message whose data is as large as the ring |
| InterlinkQueue.NeverFits | kernel/src/process/interlink.cpp:105-107 | and such a message is told so for ever |
| InterlinkQueue.WholeRingRetried | kernel/src/process/interlink.cpp:85-107 | such a message for every ring and content: one data item as large as the ring, whatever is queued |
| InterlinkConnection.Channel.Examine | kernel/src/process/interlink.cpp:85-103 | accepts exactly the well-formed buffers and sums their data |
| InterlinkConnection.Channel.EnqueueItem | kernel/src/process/interlink.cpp:113-119 | one item into ring and queue |
| InterlinkConnection.Channel.Enqueue | kernel/src/process/interlink.cpp:109-137 | all items of a message, once there is room |
| InterlinkConnection.Channel.Send | kernel/src/process/interlink.cpp:80-139 | refuses malformed messages, those larger than the ring, and those larger than its free bytes, exactly, and without a trace, and queues the others whole |
| InterlinkConnection.Channel.Measure | kernel/src/process/interlink.cpp:143-159 | finds the items and size of the first message |
| InterlinkConnection.Channel.DequeueItem | kernel/src/process/interlink.cpp:179-182 | one item out of queue and ring, whose read never fails |
| InterlinkConnection.Channel.Dequeue | kernel/src/process/interlink.cpp:168-214 | fills the caller's buffer with the first message |
| InterlinkConnection.Channel.Receive | kernel/src/process/interlink.cpp:140-217 | delivers the first message whole, into a buffer with room for 16 bytes, 32 for each item and the data, or leaves everything as it was when there is none or, exactly, the buffer is smaller |
| InterlinkConnection.RunChannel | kernel/src/process/interlink.cpp:80-217 | every interleaving of sends and receives answers as a queue of messages, and pending bytes are the sum of the queued sizes |
| Bitmap.SetMarks | kernel/src/mm/page_allocator.cpp:46-49 | setting a bit adds one page to those marked |
| Bitmap.MaskExactly | kernel/src/mm/page_allocator.cpp:46-53 | bits are counted from the least significant one |
| Bitmap.ClearMarks | kernel/src/mm/page_allocator.cpp:61-65 | clearing a bit removes one |
| Bitmap.Set | kernel/src/mm/page_allocator.cpp:46-49 | the byte written marks exactly that page more |
| Bitmap.Clear | kernel/src/mm/page_allocator.cpp:61-65 | the byte written marks exactly that page less |
| PageBook.BitmapsFit | kernel/src/mm/page_allocator.cpp:30-40 | both bitmaps have a bit for every page, fit the pages set aside for them but not one fewer, and those exist |
| PageBook.ReservedInv | kernel/src/mm/page_allocator.cpp:43-56 | reserving free pages keeps runs disjoint and delimited |
| PageBook.WalkIsRun | kernel/src/mm/page_allocator.cpp:59-70 | the walk over continuation bits ends exactly at the end of the run |
| PageBook.FreedInv | kernel/src/mm/page_allocator.cpp:59-70 | freeing a run frees exactly its pages |
| PageBook.StepInv | kernel/src/mm/page_allocator.cpp:89-101 | allocating and freeing keep all this |
| PageBook.EveryRunSeparates | kernel/src/mm/page_allocator.cpp:27-101 | in every run from zeroed bitmaps runs in use are inside the region, clear of the bitmaps and of each other, and a page is marked exactly when owned |
| PageBook.RefusedExactly | kernel/src/mm/page_allocator.cpp:71-88 | an allocation is refused exactly for no pages, or when every run that fits starts below the page freed last |
| PageBook.LowPageForgotten | kernel/src/mm/page_allocator.cpp:59-88 | a run in which two free pages are not found again |
| PageRegions.RegionPageAllocator.constructor | kernel/src/mm/page_allocator.cpp:27-41 | a region with its bitmaps' own pages reserved |
| PageRegions.RegionPageAllocator.MarkAsReserved | kernel/src/mm/page_allocator.cpp:43-56 | the loop marks a run and its continuation bits |
| PageRegions.RegionPageAllocator.MarkRegionAsFree | kernel/src/mm/page_allocator.cpp:59-70 | the walk clears exactly the run |
| PageRegions.RegionPageAllocator.SearchForFree | kernel/src/mm/page_allocator.cpp:71-88 | the first run of free pages from the page freed last on, or none |
| PageRegions.RegionPageAllocator.AllocatePages | kernel/src/mm/page_allocator.cpp:89-97 | one allocation step, and the address of its first page |
| PageRegions.RegionPageAllocator.FreeRegion | kernel/src/mm/page_allocator.cpp:98-101 | one free step for any address in the first page |
| PageRegions.PageAllocator.RegisterNewRegion | kernel/src/mm/page_allocator.cpp:109-119 | a region is taken in unless it overlaps another or there are four |
| PageRegions.PageAllocator.AllocateRegion | kernel/src/mm/page_allocator.cpp:133-143 | allocates from the first region that can; earlier ones cannot, and only that one changes |
| PageRegions.PageAllocator.FreeRegion | kernel/src/mm/page_allocator.cpp:144-155 | frees in the one region that holds the address |
| PageRegions.RunsApart | kernel/src/mm/page_allocator.cpp:133-155 | no two runs in use share a byte, within a region or across regions |
| MemoryMap.Intersection | kernel/include/mm/addresses.h:100-108 | holds exactly the addresses both regions hold |
| MemoryMap.NextReserved | kernel/src/mm/memory_manager.cpp:40-47 | the earliest reserved stretch left |
| MemoryMap.NextRegion | kernel/src/mm/memory_manager.cpp:40-59 | the earliest stretch of either kind, with memory cut where something found before begins |
| MemoryMap.EarliestTruthful | kernel/src/mm/memory_manager.cpp:60-75 | nothing is known before that stretch, and all of it is what it says |
| MemoryMap.ProcessMemoryRegions | kernel/src/mm/memory_manager.cpp:33-78 | non-empty ordered contiguous entries covering [0, 2^48), each address Reserved, Memory or Unknown as the lists make it |
| MemoryMap.EveryAddressOnce | kernel/src/mm/memory_manager.cpp:33-78 | every address lies in exactly one entry |
| MemoryMap.SweepsAgree | kernel/src/mm/memory_manager.cpp:33-78 | the order and overlap of the input regions make no difference |
| SlabBlocks.ObjectsFit | kernel/src/mm/kmalloc.cpp:121-126 | objects start behind the header, less than an object behind it, and end exactly with the block, and there is at least one |
| SlabBlocks.HeadMeansFree | kernel/src/mm/kmalloc.cpp:106-112 | the free list is empty exactly when all objects are handed out |
| SlabBlocks.TakenOk | kernel/src/mm/kmalloc.cpp:106-112 | taking gives an object nobody has and keeps the block |
| SlabBlocks.ReturnedOk | kernel/src/mm/kmalloc.cpp:114-119 | an object that was handed out passes the checks and returns to the list |
| SlabBlocks.NewBlock | kernel/src/mm/kmalloc.cpp:92-104 | the loop threads every object of a block into its free list |
| SlabBlocks.ObjectsApart | kernel/src/mm/kmalloc.cpp:90-145 | different objects share no byte |
| Slabs.ServedInv | kernel/src/mm/kmalloc.cpp:174-181 | serving keeps blocks and lists, and hands out an object not in use |
| Slabs.RestoredInv | kernel/src/mm/kmalloc.cpp:184-194 | freeing finds the block from the address and keeps blocks and lists |
| Slabs.StepInv | kernel/src/mm/kmalloc.cpp:163-194 | every call keeps them |
| Slabs.EveryRunSeparates | kernel/src/mm/kmalloc.cpp:163-194 | in every run objects in use are aligned, behind the header of their block and disjoint, free lists hold exactly the rest, and each block is on the list it belongs on |
| Slabs.ClassGeometry | kernel/src/mm/kmalloc.cpp:148-151 | the six object sizes divide their block sizes, of 4096 bytes up to objects of 256, then 8192 and 16384 |
| Slabs.Dispatch | kernel/src/mm/kmalloc.cpp:229-233 | the first allocator whose objects are no smaller than size and alignment |
| Slabs.SameAllocator | kernel/src/mm/kmalloc.cpp:245-250 | an object comes back to its allocator under any size from the one asked for up to the one given, and under no larger one |
| SlabAllocators.SlabAllocator.Grow | kernel/src/mm/kmalloc.cpp:164-172 | another block is laid out and listed |
| SlabAllocators.SlabAllocator.MoveToFull | kernel/src/mm/kmalloc.cpp:177-180 | the first block moves to the full list |
| SlabAllocators.SlabAllocator.MoveToFree | kernel/src/mm/kmalloc.cpp:188-192 | a full block moves back |
| SlabAllocators.SlabAllocator.Serve | kernel/src/mm/kmalloc.cpp:174-181 | takes an object from the first block |
| SlabAllocators.SlabAllocator.Allocate | kernel/src/mm/kmalloc.cpp:163-182 | one allocation step, of an object not in use |
| SlabAllocators.SlabAllocator.Free | kernel/src/mm/kmalloc.cpp:184-194 | one free step, whose checks pass |
| IntrusiveLists.IntrusiveList.Append | kernel/include/library/intrusive_list.h:101-110 | the item is linked in at the end |
| IntrusiveLists.IntrusiveList.InsertBefore | kernel/include/library/intrusive_list.h:118-134 | the item is linked in before another |
| IntrusiveLists.IntrusiveList.Remove | kernel/include/library/intrusive_list.h:43-60 | the item is linked out |
| IntrusiveLists.IntrusiveList.PopFront | kernel/include/library/intrusive_list.h:136-141 | the first item is linked out |
| IntrusiveLists.IntrusiveList.Empty | kernel/include/library/intrusive_list.h:99 | true exactly for no items |
| Timers.InsertedSorted | kernel/src/peripherals/timing.cpp:66-79 | inserting before the first later timer keeps the order, with ties in order of queueing |
| Timers.QueueNodeInv | kernel/src/peripherals/timing.cpp:59-83 | queueing keeps the queue sorted and accounts for the new entry |
| Timers.ScheduledTrigger | kernel/src/peripherals/timing.cpp:33-40 | a timer scheduled for so many nanoseconds is queued once, to trigger after the only number n of whole ticks with n * 10^9 <= ns * frequency < (n + 1) * 10^9, or after the shortest period if that is longer, from the clock as read |
| Timers.FireQueues | kernel/src/peripherals/timing.cpp:94-102 | one firing queues what its callback schedules, in order, and then its own timer if it is to be run again, for so many whole ticks and without a minimum |
| Timers.FireInv | kernel/src/peripherals/timing.cpp:93-102 | running the first due timer, with whatever its callback queues, keeps this |
| Timers.TriggerInv | kernel/src/peripherals/timing.cpp:90-105 | when the loop stops no pending timer is due at the last tick read |
| Timers.EveryRunSorted | kernel/src/peripherals/timing.cpp:33-113 | in every run the queue is sorted, callbacks run only when due, and what was queued is exactly what has run and what is pending |
| Timers.FiredOnce | kernel/src/peripherals/timing.cpp:90-105 | nothing queued is run twice |
| Timers.EveryRunOnTime | kernel/src/peripherals/timing.cpp:80-113 | no timer is forgotten: in every run the device is set whenever a timer is pending, for its trigger or the shortest period, late by no more than the time between two readings of the clock, and off otherwise |
| Timers.NeverEarly | kernel/src/peripherals/timing.cpp:80-113 | with a clock that does not run backwards it never interrupts before the first trigger |
| TimingManagement.TimingManager.FindLater | kernel/src/peripherals/timing.cpp:70-78 | the loop finds the place of a timer |
| TimingManagement.TimingManager.LinkIn | kernel/src/peripherals/timing.cpp:70-79 | the timer is linked in there |
| TimingManagement.TimingManager.InsertTimer | kernel/src/peripherals/timing.cpp:63-79 | sets the trigger from the clock and inserts |
| TimingManagement.TimingManager.QueueTimer | kernel/src/peripherals/timing.cpp:59-83 | inserts and, if the timer comes first, sets the device |
| TimingManagement.TimingManager.ScheduleCallback | kernel/src/peripherals/timing.cpp:33-40 | queues a new timer with the trigger just said |
| TimingManagement.TimingManager.TakeFront | kernel/src/peripherals/timing.cpp:92-94 | the first timer is linked out |
| TimingManagement.TimingManager.FireFront | kernel/src/peripherals/timing.cpp:94-102 | runs a callback that may queue others, and queues the timer again for the ticks of the time it asks for, or gives it back |
| TimingManagement.TimingManager.OnTrigger | kernel/src/peripherals/timing.cpp:90-113 | runs what is due, leaves nothing due, and says exactly how long until the next, the shortest period at least, or that there is none |
| TimingManagement.TimingManager.Interrupt | kernel/src/peripherals/arm/gentimer.cpp:49-63 | sets the device for that time from its own clock, or switches it off |
| DirectoryPages.PlacedHolds | kernel/src/process/syscalls.cpp:229-238 | header and name written into cleared memory make a terminated item and touch nothing else |
| DirectoryPages.FillNext | kernel/src/process/syscalls.cpp:210-242 | one more entry keeps the page well formed or completes it |
| DirectoryPages.GetDirectoryEntries | kernel/src/process/syscalls.cpp:196-245 | a page holds consecutive entries with correct distances, each where the sizes of those before it put it, and as many as fit: it ends with the directory or before the first that does not fit; a size that is a multiple of 8 never fails |
| DirectoryStreams.StrLenIs | bek/src/memory.cpp:84-91 | a bounded string length stops at the terminator or the bound |
| DirectoryStreams.ReadHeld | kernel/include/api/syscalls.h:159-162 | an item reads back as its entry, the last one's name cut to 1024 bytes |
| DirectoryStreams.ReadSlot | userspace/libcore/src/dir.cpp:37-60 | every item of a page reads back, and says whether it is the last of the page or of the directory |
| DirectoryStreams.DirectoryStream.constructor | userspace/libcore/src/dir.cpp:27-36 | the first page is fetched, and the stream stands on the first entry of what a walk yields |
| DirectoryStreams.DirectoryStream.Advance | userspace/libcore/src/dir.cpp:37-60 | moves one entry on, across pages, and stops exactly at the last of what a walk yields |
| DirectoryStreams.DirectoryStream.Current | userspace/libcore/src/dir.cpp:71-72 | the entry stood on |
| DirectoryStreams.Walk | userspace/libcore/src/dir.cpp:27-65 | walking yields every entry once and in order up to the first too large for the buffer, and in its place, or for an empty directory, one entry that does not exist |
| DirectoryStreams.ExactlyWhen | userspace/libcore/src/dir.cpp:37-65 | the walk is exact exactly for a non-empty directory whose entries all fit the buffer and whose last name is at most 1024 bytes |
| DirectoryStreams.NeverCut | userspace/libcore/src/dir.cpp:24-33 | entries that fit the buffer are never cut exactly with buffers of up to 1042 bytes; the allocator's answer to the stream's 1024 is below that |
| DmaRanges.ApplyIsComposition | kernel/src/peripherals/device_tree.cpp:397-409 | the range computed maps exactly what one range and then the other map |
| DmaRanges.ApplyAll | kernel/src/peripherals/device_tree.cpp:463-470 | one range through a list |
| DmaRanges.Compose | kernel/src/peripherals/device_tree.cpp:460-472 | a list through a list: the relational composition |
| DmaRanges.FirstRanges | kernel/src/peripherals/device_tree.cpp:428-438 | a node's own step, the identity where it says nothing |
| DmaRanges.GetDmaToPhysRanges | kernel/src/peripherals/device_tree.cpp:411-479 | the list returned denotes the composition of the node's step with every ancestor's ranges, for any depth and lengths; absent or malformed ranges denote nothing |
| DmaRanges.DenotesOnce | kernel/src/peripherals/device_tree.cpp:411-479 | if no list on the way is ambiguous, a DMA address has at most one physical address |
| DmaRanges.LastByteLeftOut | kernel/src/peripherals/device_tree.cpp:395 | the assumed identity maps every address but the last |

## Left out

- FatCache.FileAllocationTable.Fetch: a reference to a cached sector is its number and a count of holders; two references to one sector are not separate objects.
- FatCache.FileAllocationTable.Set: assumes that the hash table can take the sector, as it can when the lookup before has missed; reading and writing the disk do not fail.
- VirtioDriver.SplitVQ.ProcessUsed: assumes a queue size below 2^16 that divides it, as VIRTIO demands; what the loop does once it fails to stop is shown for one pass (`WrappedRun`). The callback table is a map, which its hash table is on such runs (`PairedRunsAgree`); the memory barriers and the notification register are not modelled.
- XhciRuns.RunRing: the pushing driver makes the test of `MayPush`, which the code leaves to its callers; the doorbell and the decoding of event TRBs are not modelled.
- ProcessManagement.ProcessManager.Schedule: assumes some process is running when it is effective, since otherwise the loop does not end (`LoopEndsExactly`); the switch of registers and address space is taken as a step.
- ProcessManagement.ProcessManager.ReapProcess: assumes the process is not the current one, which the code only implies through its reference count.
- InterlinkConnection.Channel.Send: data items only and no blocking; handles, shared memory and blocking sends depend on process state.
- InterlinkConnection.Channel.Receive: padding bytes of headers are taken as zero.
- PageRegions.PageAllocator.AllocateRegion: marking arbitrary regions reserved at boot is not modelled.
- SlabAllocators.SlabAllocator.Allocate: assumes the block it asks for is supplied, aligned and unused; the code goes on with a null block after reporting the failure.
- MemoryMap.ProcessMemoryRegions: region ends that overflow 64 bits are not modelled.
- DmaRanges.GetDmaToPhysRanges: range ends that overflow 64 bits are not modelled; reading the cells of a property is not either.
- TimingManagement.TimingManager.OnTrigger: callbacks follow a script and do nothing once it ends, so a callback that asks to be run again for ever is covered up to any length but not in the limit; running out of memory is not modelled.
- DirectoryStreams.Walk: the buffer is a multiple of 8 bytes with room for a header, and the directory does not change during the walk.
- HashtableClass.HashTable.Apply: keys and values are integers under an arbitrary hash.
- HeapClass.Heap.Allocate: the kernel's regions are fresh and page-aligned; reallocation is not modelled.
- The kernel's bitmap allocator and its range marking, and kernel allocations of 64 KiB and more: their code does not keep the marks the claims would need.
- FAT12, FAT data clusters, directory entries and long names: the content cache for partial writes is not transparent.
- The legacy block cache, message encoding in the IPC library, string formatting and time decomposition: their round trips do not hold as written.
- Mapping of device registers to the root of the device tree, and reading of the flattened tree: the former re-reads one node at every level, the latter is plumbing.
- Pipes: the same arithmetic as the byte ring.
- Page tables, context-switch assembly, interrupt masking, cache maintenance and device registers: taken as steps that do what they say.
- PCIe, UART, mailbox, USB host and HID drivers, the window system and the template library: input and output, or compile-time machinery.
- Overflow of lengths supplied by users, and races between cores: taken not to happen.
