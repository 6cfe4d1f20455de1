# OakOS in Dafny

A model of the self-contained algorithms of the OakOS kernel and proofs about them. Physical
memory, the disk and the wire are byte arrays, sector arrays and lists of segments; hardware,
drawing and foreign libraries are not part of the model. Code that updates variables is modelled by
classes and loops on arrays, each method proved against a function on values; what the kernel
promises is then proved about those functions, for all inputs and all runs.

| modules | program part |
|---|---|
| `Collections`, `Words`, `Memory`, `Allocator` | optional values and set sizes, bits and words, physical memory, the frame allocator (`memory.c`) |
| `Paging`, `VirtualMemory`, `LowMapping` | four-level page tables as values, the code that builds them in physical frames, and what it does below 1 GiB (`vm.c`) |
| `Elf`, `ElfExample` | the loader of executables, and an image whose segments meet (`elf.c`) |
| `FsModel`, `FsOperations`, `FsInvariant`, `FsRefinement`, `FsPersistence`, `FileSystem` | the persistent filesystem (`fs.c`): records, operations, invariant, the map of paths it refines, mounting, and the driver on arrays |
| `Flood`, `Shuffling`, `Minesweeper` | reachability, Fisher-Yates and the Minesweeper engine |
| `TetrisRules`, `TetrisGame` | board and pieces, and the Tetris engine |
| `SchedulerRules`, `Scheduler` | round robin as steps on a table, and the thread objects |
| `ProcessRules`, `Processes` | the life of processes as steps, and the process objects with their threads |
| `Checksum`, `TcpFrame`, `TcpRules`, `TcpEnding`, `TcpSending`, `TcpConnection` | checksums, frames, both directions of a TCP connection and its end, and the connection record (`network.c`) |
| `PngFilter` | scanline reconstruction (`generate_assets.py`) |

`dafny verify dfyconfig.toml` checks everything.

Three conventions run through the project. A walk through page tables is a function of table
contents, and the tree of table frames is kept by a ghost map from frames to their place
(`Forest`). A state-changing method ends in an equation between the abstract state after it and a
specification function of the state before. Values from outside (random draws, the clock, whether
an allocation or a transmission succeeds) are parameters, so a theorem holds whatever they are.

## What is not as expected

- `vm_map_page` below 1 GiB takes the entry that maps 2 MiB for a table: it reports success and
  stores into the first frame of that large page (`LowMapEffect`). While no page table lies there,
  the call has no effect on translations (`LowMapMissesTables`, `LowMapMisses`); frames from 1 MiB on
  are given out for tables too, and then it rewrites some other page's translation, perhaps in
  another address space (`LowMapRewritesPage`, `LowMapStrikes`).
- `elf_load` gives a page that two segments share to the last of them, contents and rights
  (`SharedPageByte`, `SharedPageRights`, `SharedPageLoses`).
- `mark_usable` counts frames without looking at their bit (`MapCountBound`, `OverlapCountsTwice`).
- `kmalloc` grants sizes above the heap limit (`Kmalloc`, `OversizeGranted`).
- The kernel heap lies in frames that the bitmap gives out (`HeapFrameFree`, `HeapGivenOut`): a page
  table can come to lie on the `address_space` object it belongs to.
- The repository's README.md, line 41, promises that preemption is protected against threads that
  have not started. `scheduler_preempt` only makes sure that some started thread is ready and then
  calls the plain yield, which takes the first ready one (`PreemptToStarted`, `PreemptToUnstarted`,
  `UnfairIsReached`).
- `process_create` may take an exited current process as the parent, and the child's exit then
  revives it (`StepKeeps` of `ProcessRules`, `Revived`).
- `drop_interval` of Tetris wraps from level 18 on (`IntervalRange`, `IntervalWraps`).
- `scheduler_start_thread` leaves another running thread marked RUNNING (`StepKeeps` of
  `SchedulerRules`, `TwoRunning`), and so does the kill of a process whose parent waits
  (`ExitSwitches`, `KillerStaysRunning`).
- The receive path of TCP takes the padding of short Ethernet frames for bytes of the stream
  (`ParsePadded`, `PaddingStored`, `BareAckStored`).
- It counts the end of the stream wherever it arrives: an early end loses the byte that is due, and
  bytes behind it may be delivered without it (`EarlyEnd`, `GapDelivered`, `EarlyEndSkips`).
- Bytes in the buffer are lost when the peer ends the stream, when the timer gives up a segment, and
  when the end of the program's own stream is acknowledged (`BufferLost`, `TimerLosesBuffer`,
  `ArrivalLosesBuffer`, `LastByteLost`).
- Closing a connection gives up the segment that waits for its acknowledgement: if it was lost, its
  bytes do not reach the peer (`CloseDropsPending`).
- Acknowledgement numbers are compared without regard to wrapping (`OldAckSettles`, `OldAckExample`).
- The scanline reader accepts a last row of filter 0 with up to four bytes missing, and returns it
  short (`RowsReadable`, `ShortRowAccepted`).

## Model

| member | source | states |
|---|---|---|
| `Allocator.FrameAllocator.constructor` | OakSh/OakS/Oakp/OakOS/kernel/memory.c:78-104 | Boot leaves free exactly the frames of the available regions, less the first megabyte and the kernel; the counter equals the number of clear bits if and only if no frame lies in two regions |
| `Allocator.FrameAllocator.MarkUsable` | OakSh/OakS/Oakp/OakOS/kernel/memory.c:51-61 | The whole pages inside a region become free, and the counter grows by their number whether or not they were free |
| `Allocator.FrameAllocator.MarkReserved` | OakSh/OakS/Oakp/OakOS/kernel/memory.c:63-76 | The pages a range touches stop being free; the counter follows the bitmap |
| `Allocator.MapCountBound` | OakSh/OakS/Oakp/OakOS/kernel/memory.c:51-61 | The counter after a memory map is at least the number of frames in it, and equal exactly for regions that share no frame |
| `Allocator.OverlapCountsTwice` | OakSh/OakS/Oakp/OakOS/kernel/memory.c:51-61 | Two regions that overlap in one frame: the counter ends at four with three frames free |
| `Allocator.FrameAllocator.AllocFrame` | OakSh/OakS/Oakp/OakOS/kernel/memory.c:111-122 | Takes the lowest free frame above 1 MiB, changes one bit and the counter; answers 0 exactly when there is none, and then changes nothing |
| `Allocator.FrameAllocator.FreeFrame` | OakSh/OakS/Oakp/OakOS/kernel/memory.c:124-132 | Gives back a frame that was in use; frame 0, frames out of range and free frames change nothing |
| `Allocator.FrameAllocator.Kmalloc` | OakSh/OakS/Oakp/OakOS/kernel/memory.c:134-142 | Sizes up to the heap limit: the next 16-byte aligned block if it ends by the limit, otherwise nothing. Larger sizes are granted at the current end, since the subtraction wraps, although they do not end by the limit, and the end moves on in 64 bits. Size 0 changes nothing |
| `Allocator.OversizeGranted` | OakSh/OakS/Oakp/OakOS/kernel/memory.c:134-142 | A request of 16 MiB to the heap of one is granted |
| `Allocator.HeapFrameFree` | OakSh/OakS/Oakp/OakOS/kernel/memory.c:97-100 | Nothing reserves the heap: one of its frames is free after boot if and only if a region covers it, it is not below 1 MiB and does not begin inside the kernel |
| `Allocator.HeapGivenOut` | OakSh/OakS/Oakp/OakOS/kernel/memory.c:111-142 | With 256 MiB of memory and a kernel that ends at 2 MiB, the first frame given out and the first object allocated are the same memory |
| `Words.SetBitCount` | OakSh/OakS/Oakp/OakOS/kernel/memory.c:41-44 | Setting a clear bit takes one from the number of clear bits |
| `Words.ClearBitCount` | OakSh/OakS/Oakp/OakOS/kernel/memory.c:46-49 | Clearing a bit adds one to the number of clear bits if and only if it was set |
| `Memory.StoreChangesOneEntry` | OakSh/OakS/Oakp/OakOS/kernel/vm.c:77-84 | A 64-bit store into a table frame changes one entry of one table and nothing else as tables are read |
| `Memory.Ram.StoreEntry` | OakSh/OakS/Oakp/OakOS/kernel/vm.c:77-84 | The same for the byte array of physical memory: other frames keep their bytes |
| `Paging.NoSharing` | OakSh/OakS/Oakp/OakOS/kernel/vm.c:59-86 | In the tree of table frames two present links never lead to the same frame |
| `Paging.LowIdentity` | OakSh/OakS/Oakp/OakOS/kernel/vm.c:31-35 | While the table frames are a forest, a page below 1 GiB maps to itself, writable and closed to user mode |
| `Paging.LinkKeepsForest` | OakSh/OakS/Oakp/OakOS/kernel/vm.c:74-79 | Linking a cleared, unused frame keeps the table frames a forest |
| `Paging.LinkKeepsWalks` | OakSh/OakS/Oakp/OakOS/kernel/vm.c:74-79 | and changes no translation of any address space |
| `Paging.LeafKeepsForest` | OakSh/OakS/Oakp/OakOS/kernel/vm.c:84 | Writing a leaf entry keeps the forest |
| `Paging.LeafKeepsOtherWalks` | OakSh/OakS/Oakp/OakOS/kernel/vm.c:84 | and changes no translation but that of its own page in its own space |
| `Paging.WalkReaches` | OakSh/OakS/Oakp/OakOS/kernel/vm.c:71-83 | The four-level walk of a page from 1 GiB on passes through the table reached level by level, with user and write access granted on the way |
| `Paging.LeafSetsTranslation` | OakSh/OakS/Oakp/OakOS/kernel/vm.c:84 | After the leaf is written the page translates to the given frame with the given rights, and only that translation changed |
| `Paging.SpaceKeepsForest` | OakSh/OakS/Oakp/OakOS/kernel/vm.c:25-36 | The three tables of a new address space join the forest |
| `Paging.SpaceKeepsWalks` | OakSh/OakS/Oakp/OakOS/kernel/vm.c:25-36 | and leave the translations of all other spaces as they were |
| `Paging.SpaceWalks` | OakSh/OakS/Oakp/OakOS/kernel/vm.c:31-36 | A new space maps the first gigabyte to itself without user access and nothing else |
| `VirtualMemory.IndexesArePageIndexes` | OakSh/OakS/Oakp/OakOS/kernel/vm.c:65-70 | The four shifted and masked indexes are the base-512 digits of the page number |
| `VirtualMemory.Paged.NewTable` | OakSh/OakS/Oakp/OakOS/kernel/vm.c:10-18 | A frame that was free, taken and zeroed; memory elsewhere is untouched; 0 only when memory is exhausted |
| `VirtualMemory.Paged.AddressSpaceCreate` | OakSh/OakS/Oakp/OakOS/kernel/vm.c:20-38 | The new space has exactly the low identity map; no other space changes, whether or not it succeeds |
| `VirtualMemory.Paged.WalkDown` | OakSh/OakS/Oakp/OakOS/kernel/vm.c:71-83 | The loop over three levels ends at the page's last-level table; tables it adds change no translation; it fails only without memory |
| `VirtualMemory.Paged.MapPage` | OakSh/OakS/Oakp/OakOS/kernel/vm.c:59-86 | From 1 GiB on, for all 64-bit flags: success changes exactly one translation, failure none, other spaces keep theirs, the tables stay a forest of allocated frames. Bad arguments change nothing. Below 1 GiB: the exact write it makes |
| `VirtualMemory.MappedPage` | OakSh/OakS/Oakp/OakOS/kernel/vm.c:71-85 | Walking down and writing the leaf together are one update of the map from pages to frames |
| `VirtualMemory.StoredBits` | OakSh/OakS/Oakp/OakOS/kernel/vm.c:84 | The stored entry has the binary digits of the address, of the flags and the present bit, for all 64-bit flags |
| `LowMapping.LowMapEffect` | OakSh/OakS/Oakp/OakOS/kernel/vm.c:59-86 | Mapping a page below 1 GiB: every translation of every address space afterwards. Walks that use the entry the store went to go on from what was stored, all others are as before |
| `LowMapping.LowMapGivesPage` | OakSh/OakS/Oakp/OakOS/kernel/vm.c:73-84 | The page then has what was asked for if and only if that was the identity mapping it had, or its own walk goes through the store and comes to it |
| `LowMapping.LowMapHasNoEffect` | OakSh/OakS/Oakp/OakOS/kernel/vm.c:73-84 | The call changes no translation if and only if every page that uses the struck entry comes to the same translation as before |
| `LowMapping.LowMapMissesTables` | OakSh/OakS/Oakp/OakOS/kernel/vm.c:73-84 | It changes none when the struck frame holds no table |
| `LowMapping.LowMapSparesPage` | OakSh/OakS/Oakp/OakOS/kernel/vm.c:73-84 | When that frame holds a table of the last level it changes none if and only if the page it hits had already what was asked for |
| `LowMapping.LowMapRewritesPage` | OakSh/OakS/Oakp/OakOS/kernel/vm.c:73-84 | If the struck frame holds a table of the last level, exactly one translation changes: that of another page, at or above 1 GiB and perhaps of another space |
| `LowMapping.LowMapMisses` | OakSh/OakS/Oakp/OakOS/kernel/vm.c:73-84 | In a new address space page 0 is not mapped as asked |
| `LowMapping.LowMapStrikes` | OakSh/OakS/Oakp/OakOS/kernel/vm.c:73-84 | In a space whose last-level table is frame 512, mapping the page at 2 MiB maps the page at 1 GiB |
| `Elf.ElfLoad` | OakSh/OakS/Oakp/OakOS/kernel/elf.c:48-95 | Success: every page of every loadable segment is mapped to its own frame, user-accessible, writable exactly when its segment asks, holding that segment's bytes; all headers were valid; the entry is the header's. No other translation changes, succeed or fail; a null space or a bad header changes no table and no frame; failure means a bad image, nothing to load or no memory |
| `Elf.ElfLoadBeside` | OakSh/OakS/Oakp/OakOS/kernel/elf.c:48-95 | Loading into one address space leaves the image loaded in another as it was, byte for byte, in frames the two do not share |
| `Elf.LoadSegment` | OakSh/OakS/Oakp/OakOS/kernel/elf.c:76-90 | One segment: its pages are added, each with its image, on top of what was loaded before |
| `Elf.LoadPage` | OakSh/OakS/Oakp/OakOS/kernel/elf.c:78-89 | One page: a fresh frame, mapped, with the right bytes; on failure no translation changed |
| `Elf.FillPage` | OakSh/OakS/Oakp/OakOS/kernel/elf.c:83-89 | The zero fill and the copy loop leave in the frame exactly the segment's part of that page |
| `Elf.ProviderIsLast` | OakSh/OakS/Oakp/OakOS/kernel/elf.c:65-92 | A page holds what the last segment that touches it put there |
| `Elf.LoadedByte` | OakSh/OakS/Oakp/OakOS/kernel/elf.c:84-89 | Each byte of a loaded page is the file byte of its last segment, or zero |
| `Elf.DisjointSegmentBytes` | OakSh/OakS/Oakp/OakOS/kernel/elf.c:65-94 | When segments share no page, every byte of every segment is the file's byte, and zero from the file size to the memory size |
| `Elf.SegmentInMemory` | OakSh/OakS/Oakp/OakOS/kernel/elf.c:65-94 | After a successful load of segments that share no page, the page tables lead from the address of every segment byte to memory that holds the file's byte, or zero past the file size, with user access and write access exactly when the segment has it |
| `Elf.SharedPageByte` | OakSh/OakS/Oakp/OakOS/kernel/elf.c:78-90 | When segments share a page, an earlier segment's byte survives there if and only if the last one has the same byte in its file part, or the byte is zero |
| `Elf.SharedPageRights` | OakSh/OakS/Oakp/OakOS/kernel/elf.c:78-82 | and the page is writable exactly when the last segment asks for it, whatever the earlier ones asked |
| `ElfExample.SharedPageLoses` | OakSh/OakS/Oakp/OakOS/kernel/elf.c:65-94 | An image of 178 bytes that is accepted and loses a byte and a write permission that way |
| `FsModel.NodeRoundTrip` | OakSh/OakS/Oakp/OakOS/kernel/fs.c:18-26 | Writing a node record as 64 bytes and reading it back gives the record |
| `FsInvariant.FirstFitSucceeds` | OakSh/OakS/Oakp/OakOS/kernel/fs.c:225-236 | In every reachable state the search finds a run of up to two blocks at or below sector 266: the no-space return cannot happen |
| `FsInvariant.PairsNeedBits` | OakSh/OakS/Oakp/OakOS/kernel/fs.c:226-235 | If none of n pairs of sectors is free, at least n sectors are in use |
| `FsInvariant.CreateKeepsInv` | OakSh/OakS/Oakp/OakOS/kernel/fs.c:112-128 | Creating keeps: used bits are sectors 0 to 17 and the disjoint extents of the used nodes, paths unique |
| `FsInvariant.WriteKeepsInv` | OakSh/OakS/Oakp/OakOS/kernel/fs.c:216-252 | Writing keeps the same, fails exactly for a missing path, a directory, no data or more than 1024 bytes, and then changes nothing |
| `FsInvariant.RemoveKeepsInv` | OakSh/OakS/Oakp/OakOS/kernel/fs.c:305-315 | Removing keeps the same |
| `FsRefinement.FindIsLookup` | OakSh/OakS/Oakp/OakOS/kernel/fs.c:85-90 | The search through the nodes is a lookup in the map from paths to directories and contents |
| `FsRefinement.CreateRefines` | OakSh/OakS/Oakp/OakOS/kernel/fs.c:112-128 | Creating is adding a directory or an empty file to that map |
| `FsRefinement.WriteRefines` | OakSh/OakS/Oakp/OakOS/kernel/fs.c:216-252 | Writing replaces the content of one path |
| `FsRefinement.RemoveRefines` | OakSh/OakS/Oakp/OakOS/kernel/fs.c:305-315 | Removing drops one path, never the root |
| `FsRefinement.ReadRefines` | OakSh/OakS/Oakp/OakOS/kernel/fs.c:254-267 | Reading returns the content of the path up to the capacity |
| `FsPersistence.MountRestores` | OakSh/OakS/Oakp/OakOS/kernel/fs.c:177-206 | After any operation, mounting from the disk alone gives the node table and the bitmap byte for byte |
| `FsPersistence.RecordRoundTrip` | OakSh/OakS/Oakp/OakOS/kernel/fs.c:130-143 | Each record of a synchronised table is on the disk where mounting reads it |
| `FsPersistence.FormatMounts` | OakSh/OakS/Oakp/OakOS/kernel/fs.c:145-175 | A formatted disk mounts and holds the root directory only |
| `FsPersistence.CreateKeepsMounted` | OakSh/OakS/Oakp/OakOS/kernel/fs.c:112-143 | After a create the disk is mountable: superblock, node table and bitmap on it are those in memory |
| `FsPersistence.WriteKeepsMounted` | OakSh/OakS/Oakp/OakOS/kernel/fs.c:216-252 | The same after a write |
| `FsPersistence.RemoveKeepsMounted` | OakSh/OakS/Oakp/OakOS/kernel/fs.c:305-315 | The same after a removal |
| `FsPersistence.RunRefines` | OakSh/OakS/Oakp/OakOS/kernel/fs.c:112-315 | Every run of creates, directories, writes and removals acts on the map as the map operations do |
| `FsPersistence.UntouchedPath` | OakSh/OakS/Oakp/OakOS/kernel/fs.c:112-315 | A path no operation of a run names keeps its kind and content |
| `FsPersistence.ReadsLastWrite` | OakSh/OakS/Oakp/OakOS/kernel/fs.c:216-267 | A read returns the prefix of the last successful write, whatever happened to other paths since |
| `FileSystem.Driver.SamePath` | OakSh/OakS/Oakp/OakOS/kernel/fs.c:75-83 | The comparison loop decides equality of the texts |
| `FileSystem.Driver.FindNode` | OakSh/OakS/Oakp/OakOS/kernel/fs.c:85-90 | First used node with the path, or -1 |
| `FileSystem.Driver.FsSync` | OakSh/OakS/Oakp/OakOS/kernel/fs.c:130-143 | Node table and bitmap are on their sectors; all other sectors keep their content |
| `FileSystem.Driver.AddNode` | OakSh/OakS/Oakp/OakOS/kernel/fs.c:112-128 | Node table, disk and result as the model says, and the map is extended by one path |
| `FileSystem.Driver.FormatFs` | OakSh/OakS/Oakp/OakOS/kernel/fs.c:145-175 | The formatted state, with only the root in the map |
| `FileSystem.Driver.FsMount` | OakSh/OakS/Oakp/OakOS/kernel/fs.c:177-206 | Mounts exactly the disks the model mounts; a disk left by the driver gives back the very same state |
| `FileSystem.Driver.FsInit` | OakSh/OakS/Oakp/OakOS/kernel/fs.c:208-211 | A disk that mounts is kept as it is, any other is formatted; the driver's invariant holds afterwards if and only if the state is one the driver leaves |
| `FileSystem.Driver.FindRoom` | OakSh/OakS/Oakp/OakOS/kernel/fs.c:225-235 | The search loop finds the first free run |
| `FileSystem.Driver.FsWrite` | OakSh/OakS/Oakp/OakOS/kernel/fs.c:216-252 | State, result and map as the model says |
| `FileSystem.Driver.FsRead` | OakSh/OakS/Oakp/OakOS/kernel/fs.c:254-267 | The bytes the map holds, up to the capacity |
| `FileSystem.Driver.FsRemove` | OakSh/OakS/Oakp/OakOS/kernel/fs.c:305-315 | State, result and map as the model says |
| `Shuffling.ShufflePermutes` | OakSh/OakS/Oakp/OakOS/kernel/apps/minesweeper.c:172-177 | The shuffle is a permutation, whatever the random draws |
| `Shuffling.EveryArrangement` | OakSh/OakS/Oakp/OakOS/kernel/apps/minesweeper.c:170-177 | Every arrangement comes out of some draws |
| `Shuffling.DrawsAreDetermined` | OakSh/OakS/Oakp/OakOS/kernel/apps/minesweeper.c:170-177 | and of one series of draws only, so equally likely draws make arrangements equally likely |
| `Minesweeper.MineLayout` | OakSh/OakS/Oakp/OakOS/kernel/apps/minesweeper.c:178-183 | Twelve different cells of the board hold mines |
| `Minesweeper.Shuffle` | OakSh/OakS/Oakp/OakOS/kernel/apps/minesweeper.c:172-177 | The loop that swaps in place computes that permutation |
| `Minesweeper.Game.Init` | OakSh/OakS/Oakp/OakOS/kernel/apps/minesweeper.c:155-189 | A new game with that layout, nothing revealed or marked |
| `Minesweeper.Game.AdjacentMines` | OakSh/OakS/Oakp/OakOS/kernel/apps/minesweeper.c:111-122 | The number of mines in the nine cells around and at a cell |
| `Minesweeper.Game.RevealCell` | OakSh/OakS/Oakp/OakOS/kernel/apps/minesweeper.c:124-144 | Ends, and reveals exactly the hidden unmarked cells that can be reached through clear ones; loses exactly on a mine; the counter follows the set |
| `Flood.ReachedIsSafe` | OakSh/OakS/Oakp/OakOS/kernel/apps/minesweeper.c:124-144 | No mine is reached except a mine one starts on |
| `Flood.ReachThrough` | OakSh/OakS/Oakp/OakOS/kernel/apps/minesweeper.c:135-143 | What a neighbour reaches, the clear cell beside it reaches |
| `Flood.ClosedHoldsReached` | OakSh/OakS/Oakp/OakOS/kernel/apps/minesweeper.c:135-143 | The reached cells are the least set closed under stepping from clear cells |
| `Minesweeper.CountDecides` | OakSh/OakS/Oakp/OakOS/kernel/apps/minesweeper.c:146-153 | Counting revealed cells decides whether exactly the safe cells are revealed |
| `Minesweeper.RevealPlays` | OakSh/OakS/Oakp/OakOS/kernel/apps/minesweeper.c:124-144 | A reveal keeps lost equivalent to a revealed mine |
| `Minesweeper.EveryGame` | OakSh/OakS/Oakp/OakOS/kernel/apps/minesweeper.c:146-242 | Over any run of keys, clicks and restarts: twelve mines, no cell marked and revealed, lost if and only if a mine is revealed, won if and only if exactly the safe cells are |
| `Minesweeper.Game.Key` | OakSh/OakS/Oakp/OakOS/kernel/apps/minesweeper.c:191-212 | The key step on the arrays, with both counters equal to the true numbers |
| `Minesweeper.Game.Mouse` | OakSh/OakS/Oakp/OakOS/kernel/apps/minesweeper.c:214-232 | The mouse step, with both counters equal to the true numbers |
| `Minesweeper.Game.Tick` | OakSh/OakS/Oakp/OakOS/kernel/apps/minesweeper.c:234-242 | The tick step on the arrays and the counter of ticks, with the check for a win before it and the restart |
| `Minesweeper.EndsAtZero` | OakSh/OakS/Oakp/OakOS/kernel/apps/minesweeper.c:124-153 | Whatever ends a game, its counter of ticks begins at zero |
| `Minesweeper.ResultStays` | OakSh/OakS/Oakp/OakOS/kernel/apps/minesweeper.c:191-242 | A finished game keeps its board and result until the time is up, whatever the player does but a restart |
| `Minesweeper.RestartsAfter5000` | OakSh/OakS/Oakp/OakOS/kernel/apps/minesweeper.c:234-242 | The tick that starts the next game is the 5000th after the end, and no earlier one |
| `TetrisRules.FourCells` | OakSh/OakS/Oakp/OakOS/kernel/apps/tetris.c:27-35 | Each of the 28 masks has four bits |
| `TetrisRules.FitsOnBoard` | OakSh/OakS/Oakp/OakOS/kernel/apps/tetris.c:119-131 | A piece that fits is on the board, so it falls only finitely far |
| `TetrisRules.LockedAt` | OakSh/OakS/Oakp/OakOS/kernel/apps/tetris.c:168-179 | Locking colours the cells the piece covers and no others |
| `TetrisRules.LockFillsFour` | OakSh/OakS/Oakp/OakOS/kernel/apps/tetris.c:168-179 | A fitting piece fills four more cells |
| `TetrisRules.LockCompletesFour` | OakSh/OakS/Oakp/OakOS/kernel/apps/tetris.c:144-163 | A lock on a board without full rows makes at most four, so the clamp to four is dead |
| `TetrisRules.SettledFill` | OakSh/OakS/Oakp/OakOS/kernel/apps/tetris.c:144-160 | Clearing takes ten cells for each full row |
| `TetrisRules.SettledHasNoneFull` | OakSh/OakS/Oakp/OakOS/kernel/apps/tetris.c:144-160 | and leaves no full row |
| `TetrisGame.Game.RemoveFull` | OakSh/OakS/Oakp/OakOS/kernel/apps/tetris.c:144-160 | The loop whose index goes up again ends; it leaves the rows that were not full in order at the bottom and as many empty ones on top as it removed |
| `TetrisGame.LookAt` | OakSh/OakS/Oakp/OakOS/kernel/apps/tetris.c:148-160 | What one turn of that loop finds and leaves, by how many old rows have been looked at |
| `TetrisGame.Game.ShiftDown` | OakSh/OakS/Oakp/OakOS/kernel/apps/tetris.c:155-159 | The inner loops move the rows above down by one |
| `TetrisGame.Game.ClearLines` | OakSh/OakS/Oakp/OakOS/kernel/apps/tetris.c:144-166 | Board, score, lines and level after clearing |
| `TetrisGame.Game.PieceFits` | OakSh/OakS/Oakp/OakOS/kernel/apps/tetris.c:119-131 | The two loops decide whether all four cells are free and on the board |
| `TetrisGame.Game.LockCells` | OakSh/OakS/Oakp/OakOS/kernel/apps/tetris.c:168-179 | The two loops write exactly the piece |
| `TetrisGame.Game.DropAll` | OakSh/OakS/Oakp/OakOS/kernel/apps/tetris.c:228-233 | A hard drop ends where the piece fits and one lower does not, and locks it there |
| `TetrisGame.LockCounts` | OakSh/OakS/Oakp/OakOS/kernel/apps/tetris.c:144-182 | A lock keeps filled cells at four for each locked piece less ten for each cleared row |
| `TetrisGame.EveryGame` | OakSh/OakS/Oakp/OakOS/kernel/apps/tetris.c:190-249 | Over any run of keys and ticks: the piece in play fits while the game is on, no row is full, filled cells are 4 * locked - 10 * cleared, and the line counter is the true number in 32 bits |
| `TetrisGame.IntervalRange` | OakSh/OakS/Oakp/OakOS/kernel/apps/tetris.c:184-188 | The drop interval is at most 700 ticks if and only if the level is at most 17; from 18 on the subtraction wraps |
| `TetrisGame.IntervalWraps` | OakSh/OakS/Oakp/OakOS/kernel/apps/tetris.c:184-188 | Level 17 has 100 ticks, level 18 more than 10^19 |
| `TetrisGame.Game.Key` | OakSh/OakS/Oakp/OakOS/kernel/apps/tetris.c:204-237 | The key step on the game's variables, keeping all of the above |
| `TetrisGame.Game.Timer` | OakSh/OakS/Oakp/OakOS/kernel/apps/tetris.c:239-249 | The timer step, keeping all of the above |
| `SchedulerRules.FirstReady` | OakSh/OakS/Oakp/OakOS/kernel/scheduler.c:155-157 | The candidate the loop takes: ready, with none ready before it in turn |
| `SchedulerRules.StepKeeps` | OakSh/OakS/Oakp/OakOS/kernel/scheduler.c:56-191 | Every step keeps ids increasing, the index usable and RUNNING at the current thread only; the start functions do so if and only if no other thread is RUNNING |
| `SchedulerRules.RunKeeps` | OakSh/OakS/Oakp/OakOS/kernel/scheduler.c:56-191 | The same over every run |
| `SchedulerRules.YieldStops` | OakSh/OakS/Oakp/OakOS/kernel/scheduler.c:150-168 | A yield stops the scheduler if and only if no thread was READY or RUNNING |
| `SchedulerRules.YieldApproaches` | OakSh/OakS/Oakp/OakOS/kernel/scheduler.c:150-164 | A yield takes a waiting thread or comes nearer to it in turn |
| `SchedulerRules.BoundedWaiting` | OakSh/OakS/Oakp/OakOS/kernel/scheduler.c:95-168 | Among n threads one that stays READY sees fewer than n - 1 yields before its turn, whatever the others do |
| `SchedulerRules.PreemptToStarted` | OakSh/OakS/Oakp/OakOS/kernel/scheduler.c:138-148 | Preemption switches to a started thread if and only if the first READY thread in turn is started |
| `SchedulerRules.PreemptToUnstarted` | OakSh/OakS/Oakp/OakOS/kernel/scheduler.c:138-148 | A table in which it switches to a thread that was never started |
| `SchedulerRules.UnfairIsReached` | OakSh/OakS/Oakp/OakOS/kernel/scheduler.c:56-191 | A run from boot that leads to that table |
| `SchedulerRules.TwoRunning` | OakSh/OakS/Oakp/OakOS/kernel/scheduler.c:179-191 | A run from boot after which two threads are marked RUNNING |
| `SchedulerRules.ExitSwitches` | OakSh/OakS/Oakp/OakOS/kernel/process.c:83-95 | The end of a process with a waiting parent makes the parent's thread run, whatever its state was; a second thread is left RUNNING if and only if the current thread was running and belongs to neither |
| `SchedulerRules.KillerStaysRunning` | OakSh/OakS/Oakp/OakOS/kernel/process.c:132-139 | A run from boot in which a thread kills another's child: the killer and the parent are both RUNNING |
| `Scheduler.RoundRobin.Create` | OakSh/OakS/Oakp/OakOS/kernel/scheduler.c:56-76 | A new READY thread with the next id at the end of the table, or no change but perhaps a lost id |
| `Scheduler.RoundRobin.Yield` | OakSh/OakS/Oakp/OakOS/kernel/scheduler.c:150-168 | The loop and the thread objects follow the step |
| `Scheduler.RoundRobin.Tick` | OakSh/OakS/Oakp/OakOS/kernel/scheduler.c:120-136 | The same for the tick, active or not |
| `Scheduler.RoundRobin.Preempt` | OakSh/OakS/Oakp/OakOS/kernel/scheduler.c:138-148 | The same for the search of a started thread |
| `Scheduler.RoundRobin.StartThread` | OakSh/OakS/Oakp/OakOS/kernel/scheduler.c:179-191 | The search for the object in the table; a thread that is not in it changes nothing; the invariant holds afterwards if and only if no other thread was RUNNING |
| `Scheduler.RoundRobin.Terminate` | OakSh/OakS/Oakp/OakOS/kernel/scheduler.c:89-93 | The thread of the pointer is TERMINATED, no other changes |
| `Scheduler.RoundRobin.Unblock` | OakSh/OakS/Oakp/OakOS/kernel/scheduler.c:102-106 | The thread of the pointer is READY if it was BLOCKED, no other changes |
| `ProcessRules.StepKeeps` | OakSh/OakS/Oakp/OakOS/kernel/process.c:42-139 | Parents come before children and are not EXITED, and no step undoes an exit; create and fork keep this if and only if they fail or the new parent is alive |
| `ProcessRules.RunKeeps` | OakSh/OakS/Oakp/OakOS/kernel/process.c:42-169 | The same over every run |
| `ProcessRules.ExitKeeps` | OakSh/OakS/Oakp/OakOS/kernel/process.c:79-100 | An exit is final, frees its children and revives nobody |
| `ProcessRules.ExitMarks` | OakSh/OakS/Oakp/OakOS/kernel/process.c:79-100 | An exit makes exactly one process EXITED, a living one, with the given status |
| `ProcessRules.ExitsOnce` | OakSh/OakS/Oakp/OakOS/kernel/process.c:79-116 | A process exits successfully at most once, and its status is that of that exit |
| `ProcessRules.WaitReportsTheExit` | OakSh/OakS/Oakp/OakOS/kernel/process.c:102-116 | From boot on, a wait that answers a status answers that of the child's one successful exit |
| `ProcessRules.Revived` | OakSh/OakS/Oakp/OakOS/kernel/process.c:42-100 | Without the condition an EXITED process becomes RUNNING again, here in a run from boot |
| `Processes.ProcessTable.Create` | OakSh/OakS/Oakp/OakOS/kernel/process.c:42-64 | A new object with the next pid, the current process as parent and a thread of its own; on each failure path no process, and the thread that was made without one |
| `Processes.ProcessTable.Fork` | OakSh/OakS/Oakp/OakOS/kernel/process.c:156-169 | Parent pointer, loaded image and both return values, in each of the failure cases too |
| `Processes.ProcessTable.SetCurrent` | OakSh/OakS/Oakp/OakOS/kernel/process.c:71-77 | Only a RUNNING process becomes current |
| `Processes.ProcessTable.Exit` | OakSh/OakS/Oakp/OakOS/kernel/process.c:79-100 | The objects after the exit and the loop over the children; the process's thread ended, the parent's unblocked, and, if the parent waited, its address space in use and its thread started |
| `Processes.ProcessTable.Wait` | OakSh/OakS/Oakp/OakOS/kernel/process.c:102-116 | The search answers for the one process with that pid |
| `Processes.ProcessTable.Kill` | OakSh/OakS/Oakp/OakOS/kernel/process.c:132-139 | The exit with status -9 of the process with that pid; without one nothing changes |
| `Checksum.Folded` | OakSh/OakS/Oakp/OakOS/kernel/network.c:132-140 | The carry loop ends below 65536 with the same remainder modulo 65535, and with zero only for zero |
| `Checksum.ChecksumOf` | OakSh/OakS/Oakp/OakOS/kernel/network.c:132-140 | The two loops compute the complement of the folded word sum |
| `Checksum.TransportChecksum` | OakSh/OakS/Oakp/OakOS/kernel/network.c:142-152 | The same with the pseudo header of RFC 9293 section 3.1, for odd lengths too |
| `Checksum.SelfVerifies` | OakSh/OakS/Oakp/OakOS/kernel/network.c:132-152 | A checksum computed over a zero field and written into it makes the sum verify to zero, for any data and any length (RFC 1071) |
| `Checksum.ZeroMeansMultiple` | OakSh/OakS/Oakp/OakOS/kernel/network.c:132-140 | A checksum is zero if and only if the words add up to a positive multiple of 65535 |
| `TcpFrame.HeaderVerifies` | OakSh/OakS/Oakp/OakOS/kernel/network.c:221-233 | The finished IPv4 header verifies to zero |
| `TcpFrame.SegmentVerifies` | OakSh/OakS/Oakp/OakOS/kernel/network.c:257-270 | The finished TCP segment verifies to zero for every payload |
| `TcpFrame.ParseBuilt` | OakSh/OakS/Oakp/OakOS/kernel/network.c:283-320 | Reading a built frame as the receive path does gives back the segment: addresses, ports, numbers, flags and payload |
| `TcpFrame.ParsePadded` | OakSh/OakS/Oakp/OakOS/kernel/network.c:316-323 | Bytes behind a packet are taken for payload: the length in the IPv4 header is not looked at |
| `TcpFrame.BuildFrame` | OakSh/OakS/Oakp/OakOS/kernel/network.c:237-272 | The writes into the frame buffer, checksums last, leave exactly that frame |
| `TcpRules.DeliveredIsPrefix` | OakSh/OakS/Oakp/OakOS/kernel/network.c:283-345 | However segments are lost, repeated, reordered or mixed with others, through polls and receive calls: the bytes delivered followed by those buffered are the peer's stream up to the acknowledged number, with the 1024-byte cap and partial reads; up to the end of the stream, wherever it arrives |
| `TcpEnding.TakesInFromPlace` | OakSh/OakS/Oakp/OakOS/kernel/network.c:323-330 | With an empty buffer, the bytes of the stream that some segment can bring in are those from the acknowledged place on, up to the 1024 the buffer holds |
| `TcpEnding.EarlyEnd` | OakSh/OakS/Oakp/OakOS/kernel/network.c:323-342 | An end of the stream when `total` bytes are acknowledged: the next byte can no longer be taken in if and only if there is one, and a byte behind it can be taken in without it if and only if there is a second one |
| `TcpEnding.GapDelivered` | OakSh/OakS/Oakp/OakOS/kernel/network.c:591-610 | A receive call whose poll takes in such an end delivers bytes if and only if a later segment of the poll stands one place behind the byte that is due, and then the bytes from there on |
| `TcpEnding.EarlyEndSkips` | OakSh/OakS/Oakp/OakOS/kernel/network.c:323-342 | A stream of three bytes of which the second is delivered without the first |
| `TcpEnding.BufferHandedOver` | OakSh/OakS/Oakp/OakOS/kernel/network.c:591-610 | A receive call hands over what was in the buffer when it began if and only if the connection is open and the peer has not ended the stream; what comes in meanwhile does not change that |
| `TcpEnding.BufferLost` | OakSh/OakS/Oakp/OakOS/kernel/network.c:591-596 | Bytes in the buffer are delivered by no run if and only if the connection is over or the peer has ended the stream |
| `TcpEnding.TimerLosesBuffer` | OakSh/OakS/Oakp/OakOS/kernel/network.c:397-413 | The timer brings that about if and only if it gives up a segment |
| `TcpEnding.ArrivalLosesBuffer` | OakSh/OakS/Oakp/OakOS/kernel/network.c:294-342 | An arriving segment does if and only if it ends the peer's stream or acknowledges the end of the program's |
| `TcpEnding.LastByteLost` | OakSh/OakS/Oakp/OakOS/kernel/network.c:323-342 | A last byte that comes with the end, taken in by a poll, is acknowledged and never delivered |
| `TcpRules.PaddingStored` | OakSh/OakS/Oakp/OakOS/kernel/network.c:323-329 | Padding taken for payload gets into the buffer if and only if the segment stands where the stream does, the buffer is empty and the segment's own bytes do not fill it |
| `TcpRules.BareAckStored` | OakSh/OakS/Oakp/OakOS/kernel/network.c:316-329 | A bare acknowledgement padded to 60 bytes adds six bytes to the stream |
| `TcpRules.AcceptReceives` | OakSh/OakS/Oakp/OakOS/kernel/network.c:323-330 | A segment is taken only where the stream stands, in 32-bit numbers |
| `TcpSending.EverySegment` | OakSh/OakS/Oakp/OakOS/kernel/network.c:397-427 | In every run what is sent, bare acknowledgements apart, is one segment for each call that took bytes or closed, in the order of the calls, each sent one to four times, the same each time, before the next; they carry the bytes written, each begins at the 32-bit number where the one before ends, and no bytes follow the end |
| `TcpSending.EveryByte` | OakSh/OakS/Oakp/OakOS/kernel/network.c:570-584 | Bytes are never sent under a number that is not theirs, however often the 32-bit numbers wrap |
| `TcpSending.SameByte` | OakSh/OakS/Oakp/OakOS/kernel/network.c:397-427 | Two bytes sent under one number are the same byte, in streams up to 4 GiB |
| `TcpSending.OldAckSettles` | OakSh/OakS/Oakp/OakOS/kernel/network.c:295-303 | An acknowledgement of an earlier place settles the pending segment if and only if the numbers wrap between the two |
| `TcpSending.OldAckExample` | OakSh/OakS/Oakp/OakOS/kernel/network.c:295-303 | Twenty bytes from 2^32 - 10 on are settled by an acknowledgement of the bytes before them |
| `TcpSending.CloseDropsPending` | OakSh/OakS/Oakp/OakOS/kernel/network.c:612-629 | Closing while a segment waits for its acknowledgement: no run sends its bytes, or any bytes, again if and only if the driver takes the segment that ends the stream |
| `TcpSending.SettledIn330` | OakSh/OakS/Oakp/OakOS/kernel/network.c:397-427 | Polled every tick, a segment is acknowledged or given up within 330 ticks |
| `TcpSending.PendingUntil330` | OakSh/OakS/Oakp/OakOS/kernel/network.c:397-427 | The bound is exact: while nothing arrives it is still pending after 329 ticks |
| `TcpConnection.Connection.Receive` | OakSh/OakS/Oakp/OakOS/kernel/network.c:283-331 | The connection record after an arriving segment: acknowledgement first, then SYN-ACK or data, then FIN |
| `TcpConnection.Connection.Retransmit` | OakSh/OakS/Oakp/OakOS/kernel/network.c:397-427 | One connection's turn of the timer loop |
| `TcpConnection.Connection.Send` | OakSh/OakS/Oakp/OakOS/kernel/network.c:570-589 | A send and the copy it keeps for sending again |
| `TcpConnection.Connection.ReceiveBytes` | OakSh/OakS/Oakp/OakOS/kernel/network.c:591-610 | A receive call: the tests at its beginning, the poll, and then the front of the buffer whatever the poll did to the connection |
| `TcpConnection.Connection.Poll` | OakSh/OakS/Oakp/OakOS/kernel/network.c:429-439 | The poll: the timer, then everything that has come in |
| `TcpConnection.Connection.TakeBytes` | OakSh/OakS/Oakp/OakOS/kernel/network.c:599-609 | The front of the buffer, and the loop that moves the rest to the front |
| `TcpConnection.Connection.Close` | OakSh/OakS/Oakp/OakOS/kernel/network.c:612-629 | The end of the stream takes a sequence number and waits for its acknowledgement like data |
| `PngFilter.RebuildFiltered` | OakSh/OakS/Oakp/OakOS/tools/generate_assets.py:32-50 | Reconstruction undoes each of the filters 0 to 4 of RFC 2083 section 6 |
| `PngFilter.FilterRebuilt` | OakSh/OakS/Oakp/OakOS/tools/generate_assets.py:32-50 | and filtering undoes reconstruction |
| `PngFilter.PaethIsNearest` | OakSh/OakS/Oakp/OakOS/tools/generate_assets.py:42-46 | The predictor is the nearest neighbour, ties to the left, then above |
| `PngFilter.RowsReadable` | OakSh/OakS/Oakp/OakOS/tools/generate_assets.py:28-52 | Reading raises no error if and only if every row has its filter byte and, unless rows are empty, either a filter up to 4 and all its bytes, or filter 0 and at most four bytes missing |
| `PngFilter.ShortRowAccepted` | OakSh/OakS/Oakp/OakOS/tools/generate_assets.py:34-50 | The stream [0] is read as one empty row where four bytes are due |
| `PngFilter.ReadsBack` | OakSh/OakS/Oakp/OakOS/tools/generate_assets.py:28-52 | The stream of any image, with any filter chosen for each row, reads back as its rows |
| `PngFilter.Reconstruct` | OakSh/OakS/Oakp/OakOS/tools/generate_assets.py:36-50 | The loop in place computes the reconstruction, and ends without an error exactly for a full row with a filter up to 4 or a row of filter 0 with at most four bytes missing |
| `PngFilter.ReadRows` | OakSh/OakS/Oakp/OakOS/tools/generate_assets.py:28-52 | The loop over the rows gives the rows the stream describes, or an error exactly when `RowsReadable` says |

## Left out

- VirtualMemory.Paged.MapPage: below 1 GiB it states the exact write instead of the map update, which is false there; `LowMapping` says what that write does to translations.
- Elf.ElfLoad: is stated for images whose segments lie from 1 GiB to 2^48, where `user.ld` links programs; a page below goes the way `LowMapping` describes. Frames and tables a failed load has allocated stay allocated, as in the program.
- The address-space theorems assume that heap and given-out frames are apart, which boot does not see to (`HeapFrameFree`): `address_space`, thread and process objects live outside modelled memory.
- The Multiboot structure is a list of regions; the walk over its variable-size entries is not modelled.
- FileSystem.Driver.FsWrite: disk failures are not modelled, every sector read and write succeeds. Before `fs_init` the tables are the zeros the program starts with; the calls also do as the model says then.
- FileSystem.Driver.FsMount: the driver's other operations are stated for states the driver itself leaves; `fs_mount` checks the superblock and the root only, so a disk written by something else can leave tables they are not stated for.
- A null path given to `fs_write`, `fs_read` or `fs_remove`, and null pointers elsewhere where the program would dereference them.
- `fs_list`, whose filter for nested names has a special case of its own, and the queries `fs_exists` and `fs_is_directory`.
- Shuffling: the random generators of the games, including the rejection loop that makes draws equally likely, are parameters; the loop is taken to end.
- Minesweeper.Game.Tick: the tick counter is not limited to 64 bits; it never passes 5000.
- TetrisGame.Game.Timer: the counter of ticks is not wrapped; it stays below the interval, which fits 64 bits.
- SchedulerRules.StepKeeps: a switch of contexts is a change of state only; stacks, registers, entry functions and owners are not part of the model, and the number of ids is not limited to 64 bits.
- ProcessRules.StepKeeps: `process_wait_blocking` is present only as its first half, the mark WAITING.
- Processes.ProcessTable.Exit: switches of contexts are changes of state only; in the program the loop over the children waits until the start-up context runs again.
- Processes.ProcessTable.Wait: the status pointer is not null.
- Entry functions, owners, stacks and images of processes; `process_run_user` and `process_take_child`. An address space is its root table here.
- TcpFrame.Parse: a segment whose TCP header length is malformed counts as no segment; the program looks at its acknowledgement number before it finds that out.
- TcpRules.DeliveredIsPrefix: what is stored is taken to be a piece of the stream that is not four gigabytes of stream old, and to come before any end of the stream; `PaddingStored` and `GapDelivered` show what happens otherwise. Connection 0 only; a second answer to the handshake and a close that throws away buffered bytes are excluded.
- TcpSending.EverySegment: a segment that closing gives up counts as sent as often as it was until then (`CloseDropsPending`).
- TcpSending.SettledIn330: the clock does not run backwards and every tick has a poll.
- The TCP handshake, connections 1 to 7 and the reuse of their slots: the receive path compares the port with the base port only and the SYN-ACK with the program's own sequence number.
- DNS, HTTP, ARP and UDP; sockets, keyboard and event rings; the other applications.
- PngFilter.ReadRows: the chunks and the decompression before it, the grouping of bytes into pixels after it, and resizing.
- ATA, E1000, PIC, PIT, PS/2, serial port, random instructions, assembly, graphics, TLS, boot.
