# Verified model of the s390-ccw boot firmware and the TPR option ROM

ACVM ships QEMU's boot firmware for s390 machines and the x86 option ROM that speeds up access to the
task priority register.  The Dafny files here model the parts of that code that hold state, loop over
structures on a disk, or share memory with a second party, and prove what they are for.

| files | what they are about |
|---|---|
| `IsoDirectory`, `IsoWalk`, `BootCatalogue` | finding and sizing the boot image of an ISO 9660 disk (ECMA-119, sections 6.8.1, 6.8.2.1, 7.3.3 and 9.1) |
| `Storage`, `BlockChains`, `PointerTables`, `EckdAddress`, `EckdLoader`, `ScsiLoader`, `BootScript`, `EckdScript`, `ScsiScript` | loading components along chains of block pointers, on ECKD and SCSI disks, through virtio-blk and virtio-scsi |
| `RingIndex`, `RingLayout`, `ReceiveRing`, `ReceiveQueue`, `CommandQueue`, `CommandDriver` | virtqueues: their layout, the receive ring, the command queue (VIRTIO 1.0, sections 2.4.5, 2.4.6 and 2.4.8) |
| `ChannelProgram`, `ChannelIo` | cutting self-modifying channel programs into pieces, and retrying channel I/O (z/Architecture Principles of Operation, SA22-7832, chapter 15) |
| `Vapic` | the lock-free update of the task priority (Intel SDM, volume 3A, section 10.8.3) |
| `ScsiRead`, `Menu`, `Decimal`, `Bytes`, `FiniteSets` | chunked reads, the boot menu's line editor, decimal numbers, machine words |

How the code is represented:

- Code that updates arrays and fields in place is a class with those arrays and fields, and its loops are
  methods.  Each is proved against a specification that does not know about the stack, the buffer or the
  running address: the pre-order listing of a directory tree, the flattened chain of extents, the packets
  in order of completion.
- Protocols are written twice.  `ReceiveRing` and `CommandQueue` are state machines whose steps are the
  single memory accesses of the driver and the actions of the device; a run is any sequence of steps, so a
  lemma about a run covers every interleaving.  `ReceiveQueue` and `CommandDriver` are the imperative
  code over arrays; a ghost log records the run, and every method shows that it only adds steps of the
  state machine.  Between any two accesses the device may act as often as it likes.
- A disk is a map from block numbers to bytes; a block outside its domain cannot be read.  Halting
  (`IPL_assert`, `panic`) is a result.  The word stored before the stack of the directory walk, the answers of
  the hardware, keystrokes, the moments at which the hypervisor acts and the patience of a wait are parameters.

Where the code does not have a property, the code is kept and the exact boundary is proved:

- A command that times out is not taken back.  From any wait, after one more move, every orderly way to go on stays
  safe and inside the descriptor table exactly when that move was not the timeout: `CommandQueue.TimeoutExactly`.  After a
  timeout with a descriptor to spare a published and unanswered entry can lead to a wiped descriptor; without one the
  next request is built behind the table.
- Block numbers do not always reach the disk as they are stated.  `virtio_load_direct` narrows those of data to a signed
  32-bit integer; virtio-blk counts 512-byte sectors in 64 bits; READ(10) on virtio-scsi cuts the address of every chunk to
  32 bits, which undoes the narrowing.  On either device what is loaded is what the format describes exactly when every
  table and pointer that is met is sound: `PointerTables.ChainExactly`.  For a complete chain of a SCSI disk that means on
  virtio-blk that tables can be named in sectors and data lies below block 2^31 or among the last 2^31 that can be named
  (`ScsiLoader.BlkExactly`), and on virtio-scsi that tables and the last chunk of every transfer start below block 2^32
  (`ScsiLoader.ScsiExactly`).  `ScsiLoader.SmallDisks` meets both boundaries from both sides.  ECKD chains on virtio-blk
  are always loaded as described: `EckdLoader.LoadsDescribed`.
- A SCSI component whose running address becomes all ones is taken for a failed load: `LoadSegment` halts exactly then
  or when the chain is stopped (`ScsiLoader.CollisionMet`: one block below the top of the address space is enough).
- READ(10) cuts block addresses to 32 bits, and a chunked read of no sectors transfers a full chunk.  The chunks are the one
  large read exactly when the last of them starts below block 2^32, and that is the read asked for exactly when the count is
  positive: `ScsiRead.ReadMany`, `ScsiRead.StartCut`.
- `atoui` adds up in a signed int, with the character code added before '0' is taken off: printed numbers read back
  exactly up to 2147483599 (`Decimal.PrintedReadsBack`).  Its comment promises numbers up to `UINT64_MAX`, and 0 for a
  string that other characters end; the code gives the digits before them, and the model follows the code.
- A ten-digit line at the boot menu can overflow: `Menu.NineDigitsFit`.
- The mask that aligns the used ring has 32 bits, so the ring must lie below 4 GiB: `RingLayout.RoundUpIsLeast`.
- Rounding a file's size up to sectors overflows for the topmost 2047 sizes, and nothing would be loaded: `BootCatalogue.SectorsFit`.
- When the root directory is exhausted the walk reads the sector named by the word before its stack: it then
  returns 0 if that sector can be read and halts otherwise (`IsoWalk.Walker.GetFileSize`).
- A receive completion shorter than the header, or a negative `maxlen`, makes the copy run away, and nothing else does:
  `ReceiveRing.FaultExactly`; `FaultMet` is a run from start-up into either fault.
- Busy answers in `do_cio` are retried without limit but use up the error retries: `ChannelIo.AtMostThreeErrorRetries`.
- At a cut, with a transfer in channel behind it, the pieces and the architecture stay together exactly when it still leads
  where it led when the piece was started, and the scan from there ends: `ChannelProgram.TransferExactly`.  If a read has
  put another command there they part, unless the saved target is one of the two addresses that command can go on at:
  `TransferReplaced`.  `MeaningCanBeLost` is a program in which a read changes the target, `TwoPieces` one that loads part
  of itself and keeps its meaning.  For whole programs the conditions of `PiecesPreserveMeaning` are sufficient.
- The SCSI component table is checked for room only after a component has been loaded: a table that is nothing but
  components and signatures, with a signature last, is read on behind its buffer (`ScsiScript.AstrayExactly`).

## Model

| member | source | states |
|---|---|---|
| IsoDirectory.ListedHasPath | ACVM/pc-bios/s390-ccw/bootmap.c:644-669 | a record of the pre-order listing is reached from the root by taking numbered entries through directories that are entered |
| IsoDirectory.PathIsListed | ACVM/pc-bios/s390-ccw/bootmap.c:644-669 | every record so reached is listed |
| IsoDirectory.ListingIsReachable | ACVM/pc-bios/s390-ccw/bootmap.c:659-669 | the listing the walk is compared with holds exactly the records at most eight directories deep |
| IsoWalk.EnterDirectory | ACVM/pc-bios/s390-ccw/bootmap.c:628-641 | skipping the self and parent records of a well-formed directory lists nothing, and leaves as many bytes as the extent still has |
| IsoWalk.SkipPadding | ACVM/pc-bios/s390-ccw/bootmap.c:644-648 | padding and sector ends list nothing and keep the remainder equal to the bytes that follow |
| IsoWalk.TakeRecord | ACVM/pc-bios/s390-ccw/bootmap.c:649-669 | passing over a record takes it, then the subtree it names above the last level, off what is still to be listed |
| IsoWalk.ExhaustedDirectory | ACVM/pc-bios/s390-ccw/bootmap.c:672-677 | with no bytes remaining a directory has nothing left to list |
| IsoWalk.SoundBounds | ACVM/pc-bios/s390-ccw/bootmap.c:622-633 | offset 0 with remainder 0 at the loop head means that the level has not been entered; offsets stay inside the sector and nothing wraps |
| IsoWalk.PendingAdvanced | ACVM/pc-bios/s390-ccw/bootmap.c:655-669 | over the whole stack exactly the one record leaves the pending listing, whether or not a level is pushed |
| IsoWalk.Walker.SkipSelfAndParent | ACVM/pc-bios/s390-ccw/bootmap.c:632-641 | the two subtractions on 32-bit words change only the current level, by the length of both records |
| IsoWalk.Walker.Enter | ACVM/pc-bios/s390-ccw/bootmap.c:630-642 | entering a directory keeps the three arrays, the buffer and the pending listing together |
| IsoWalk.Walker.EndSector | ACVM/pc-bios/s390-ccw/bootmap.c:644-648 | the same for padding, and the bytes not yet visited become fewer |
| IsoWalk.Walker.PassRecordAt | ACVM/pc-bios/s390-ccw/bootmap.c:649-669 | the record at the current position is the next of the pending listing; a record that is not the one looked for is passed, going down where the code does |
| IsoWalk.Walker.Leave | ACVM/pc-bios/s390-ccw/bootmap.c:672-677 | going up reads the parent's sector again, so that the shared buffer is right; leaving the root depends on the stray word |
| IsoWalk.Walker.Walk | ACVM/pc-bios/s390-ccw/bootmap.c:622-680 | from any sound stack holding one directory, the loop ends with the size of the first match of its listing |
| IsoWalk.Walker.GetFileSize | ACVM/pc-bios/s390-ccw/bootmap.c:609-681 | on a well-formed tree the result is the data length of the first record in pre-order whose extent is the one asked for; without one it is 0, or a halt if the stray sector cannot be read |
| BootCatalogue.FindCatalogue | ACVM/pc-bios/s390-ccw/bootmap.c:708-731 | the verdict of the first sector from 16 on that is unreadable, no volume descriptor, or an El Torito record |
| BootCatalogue.ChosenUnique | ACVM/pc-bios/s390-ccw/bootmap.c:755-766 | at most one entry is suitable number n with only readable images before it |
| BootCatalogue.ChoiceExists | ACVM/pc-bios/s390-ccw/bootmap.c:755-769 | with readable images there is such an entry exactly when at least n entries are suitable |
| BootCatalogue.IsCompatible | ACVM/pc-bios/s390-ccw/bootmap.c:588-600 | the probe decides suitability and leaves the catalogue half of the scratch space alone |
| BootCatalogue.FindEntry | ACVM/pc-bios/s390-ccw/bootmap.c:755-770 | an entry is returned if and only if it is suitable entry number max(loadparm, 1) and all probes before it could be read |
| BootCatalogue.SelectEntry | ACVM/pc-bios/s390-ccw/bootmap.c:733-771 | the same from the volume descriptors on, with the validation entry required |
| BootCatalogue.SectorsFit | ACVM/pc-bios/s390-ccw/bootmap.c:691-696 | the sectors loaded for a known size hold the file and no more, exactly for sizes up to 2^32 - 2048 |
| BootCatalogue.Start | ACVM/pc-bios/s390-ccw/bootmap.c:683-706 | what is loaded is the chosen entry's image with the size found by the directory walk, though the walk reuses the catalogue's memory |
| EckdAddress.PackIsBijective | ACVM/pc-bios/s390-ccw/bootmap.c:79-81 | the two fields hold a 28-bit cylinder and a 4-bit head and nothing else |
| EckdAddress.BlockNumWraps | ACVM/pc-bios/s390-ccw/bootmap.c:75-87 | 64-bit arithmetic wraps only when all terms add up to zero, which gives the null block number |
| EckdAddress.NullIsAllZero | ACVM/pc-bios/s390-ccw/bootmap.c:75-87 | for a non-zero geometry the null block number stands for cylinder, head and sector all zero, and for no other address |
| EckdAddress.BlockNumIncreases | ACVM/pc-bios/s390-ccw/bootmap.c:75-105 | on head- and sector-valid addresses block numbers are in the order of (cylinder, head, sector), in both directions |
| EckdAddress.BlockNumInjective | ACVM/pc-bios/s390-ccw/bootmap.c:75-105 | two such addresses with one block number are the same |
| BlockChains.EndlessExactly | ACVM/pc-bios/s390-ccw/bootmap.c:117-160 | flattening a chain reports it as endless exactly when it can be followed for any number of links |
| Storage.UnusedSpace | ACVM/pc-bios/s390-ccw/bootmap.h:320-331 | the scan returns true exactly for bytes that are all filler |
| Storage.StoreReads | ACVM/pc-bios/s390-ccw/bootmap.c:149-157 | a byte stored in sequence from an address that may wrap is found at its place |
| Storage.StoreKeeps | ACVM/pc-bios/s390-ccw/bootmap.c:149-157 | no other address changes |
| Storage.CopiedMore | ACVM/pc-bios/s390-ccw/bootmap.c:152-157 | copying at the running address after earlier copies is one copy of all, and the address stays the one behind it |
| Storage.PayloadLength | ACVM/pc-bios/s390-ccw/bootmap.c:157 | readable extents carry the block size times the number of their blocks |
| BlockChains.ContinuesTable | ACVM/pc-bios/s390-ccw/bootmap.c:117-160 | reading one table of a chain that ends leaves its rest, with one table less to come |
| PointerTables.NarrowedExactly | ACVM/pc-bios/s390-ccw/virtio-blkdev.c:67-77 | the number passed on is the one stored exactly below 2^31 or in the topmost 2^31 numbers |
| PointerTables.NarrowedFails | ACVM/pc-bios/s390-ccw/virtio-blkdev.c:67-77 | 2^31 is passed on as another number |
| PointerTables.CutUndoesNarrowing | ACVM/pc-bios/s390-ccw/virtio-scsi.c:156-160 | a 32-bit block address is the same with and without the narrowing |
| PointerTables.AtExactly | ACVM/pc-bios/s390-ccw/virtio.h:202-205 | a request reads the block it names exactly below 2^64 sectors on virtio-blk, and below 2^32 blocks on virtio-scsi |
| PointerTables.TransferExactly | ACVM/pc-bios/s390-ccw/virtio-blkdev.c:49-77 | on either device a transfer reads just the blocks its pointer names exactly when the pointer fits |
| PointerTables.ReadMany | ACVM/pc-bios/s390-ccw/virtio-blkdev.c:49-61 | both devices: the transfer halts exactly if one of its blocks cannot be read, and otherwise stores them all |
| PointerTables.TableForced | ACVM/pc-bios/s390-ccw/bootmap.c:462-489 | a pointer that is not sound shows in the blocks read, whatever follows |
| PointerTables.ChainExactly | ACVM/pc-bios/s390-ccw/bootmap.c:457-491 | tables read, blocks read and verdict are those the format describes if and only if every table and pointer met is sound; where every table can be named, the blocks alone tell the difference |
| PointerTables.CompleteExactly | ACVM/pc-bios/s390-ccw/bootmap.c:457-491 | for a complete chain that is the case if and only if all its tables can be named and all its pointers fit |
| EckdLoader.BlkSound | ACVM/pc-bios/s390-ccw/bootmap.c:75-87 | every chain of ECKD addresses is sound on virtio-blk |
| EckdLoader.LoadsDescribed | ACVM/pc-bios/s390-ccw/bootmap.c:107-160 | on either device an ECKD chain is loaded as described exactly when it is sound, and on virtio-blk always |
| EckdLoader.Loader.ReadBlocks | ACVM/pc-bios/s390-ccw/bootmap.c:149-157 | one extent is copied behind those before it, or the read fails |
| EckdLoader.Loader.LoadTable | ACVM/pc-bios/s390-ccw/bootmap.c:117-158 | one pass over a table loads the table's extents and tells apart its end, a last-slot link, a continue pointer and an entry of wrong size or address |
| EckdLoader.Loader.LoadSegments | ACVM/pc-bios/s390-ccw/bootmap.c:107-160 | the do-loop follows continue pointers, keeping what is loaded a prefix of the flattened chain |
| EckdLoader.Loader.LoadChain | ACVM/pc-bios/s390-ccw/bootmap.c:269-271 | the caller's loop follows last-slot links up to the null block number |
| EckdLoader.Loader.LoadComponent | ACVM/pc-bios/s390-ccw/bootmap.c:266-271 | for every chain that ends, memory holds exactly the concatenated extents from the load address on, the address has advanced by the block size times the number of their blocks, and the load halts exactly when the flattened chain is stopped; on virtio-blk it is the chain the format describes |
| BootScript.LoadedReads | ACVM/pc-bios/s390-ccw/bootmap.c:259-272 | after a script every byte of every component is at its place unless a later component covers it |
| BootScript.LoadedKeeps | ACVM/pc-bios/s390-ccw/bootmap.c:259-272 | memory that no component covers is untouched |
| BootScript.RunsMore | ACVM/pc-bios/s390-ccw/bootmap.c:259-272 | loading one component leaves the rest of the script to be run, or has stopped it |
| EckdScript.EndsInBlock | ACVM/pc-bios/s390-ccw/bootmap.c:256-260 | the filler behind the script's block stops the loop inside the scratch space |
| EckdScript.Booter.RunScript | ACVM/pc-bios/s390-ccw/bootmap.c:259-277 | the components are loaded in order, signatures passed over; the new PSW is used only if every chain is complete and an exec entry follows; only the chains up to the first stopped one have to end |
| EckdScript.Booter.Run | ACVM/pc-bios/s390-ccw/bootmap.c:231-278 | the same from the boot map table on, with every failing check a halt that has loaded nothing |
| ScsiLoader.BlkExactly | ACVM/pc-bios/s390-ccw/virtio-blkdev.c:16-84 | on virtio-blk a complete chain is loaded as described if and only if its tables can be named in sectors and its data lies below block 2^31 or among the last 2^31 that can be named |
| ScsiLoader.ScsiExactly | ACVM/pc-bios/s390-ccw/virtio-scsi.c:152-293 | on virtio-scsi, if and only if its tables, and the last chunk of every transfer, start below block 2^32 |
| ScsiLoader.SmallDisks | ACVM/pc-bios/s390-ccw/bootmap.c:457-491 | disks of 512-byte blocks: data at block 2 is loaded on both devices, at 2^31 only on virtio-scsi, at 2^64 - 1 only on virtio-blk; a link to 2^32 is followed only on virtio-blk |
| ScsiLoader.CollisionMet | ACVM/pc-bios/s390-ccw/bootmap.c:486-488 | a block that ends one below the top of the address space is taken for a failed load |
| ScsiLoader.PackedFields | ACVM/pc-bios/s390-ccw/virtio-blkdev.c:68-69 | the shifts recover block length and count from the packed pointer |
| ScsiLoader.Loader.LoadDirect | ACVM/pc-bios/s390-ccw/virtio-blkdev.c:63-84 | the addressed blocks are stored and the address after them returned; a wrong length gives the failure mark, an unreadable block a panic |
| ScsiLoader.Loader.LoadEntry | ACVM/pc-bios/s390-ccw/bootmap.c:486-488 | one extent is appended, or the load halts for one of its three reasons |
| ScsiLoader.Loader.LoadTable | ACVM/pc-bios/s390-ccw/bootmap.c:462-489 | one pass loads the table's extents and ends with 0, the next table, or a halt, and then what was reached is in memory |
| ScsiLoader.Loader.LoadSegment | ACVM/pc-bios/s390-ccw/bootmap.c:441-491 | for every chain that ends, memory holds the concatenated extents and the address has advanced by the block size times the number of their blocks; it halts exactly for a stopped chain or a running address of all ones, with the extents up to there stored; what is read is what the format describes exactly when the chain is sound on the device |
| ScsiScript.ReachesExactly | ACVM/pc-bios/s390-ccw/bootmap.c:486-488 | what a load that collides has reached is determined: the extents up to the first collision |
| ScsiScript.AstrayExactly | ACVM/pc-bios/s390-ccw/bootmap.c:510-526 | a component table leads out of its buffer if and only if all its entries are components or signatures and the last is a signature |
| ScsiScript.Booter.RunTable | ACVM/pc-bios/s390-ccw/bootmap.c:508-532 | the components are loaded in order up to the first that halts; the new PSW is used only if none does and an exec entry follows within the buffer |
| ScsiScript.Booter.Run | ACVM/pc-bios/s390-ccw/bootmap.c:495-533 | the same from the program's entry on, with the header checked first and the rest of the buffer left as the stack had it |
| ScsiRead.LimitIsMeet | ACVM/pc-bios/s390-ccw/virtio-scsi.c:416-423 | the limit in force is between 1 and 2048 and the least of the limits that are not 0 |
| ScsiRead.ChunksExactly | ACVM/pc-bios/s390-ccw/virtio-scsi.c:152-160 | chunks whose addresses are cut to 32 bits read one run of blocks, each once and in order, exactly when the last one starts below 2^32 |
| ScsiRead.ReadsAsked | ACVM/pc-bios/s390-ccw/virtio-scsi.c:280-290 | the blocks read are those asked for exactly when that is so and the number of sectors is positive |
| ScsiRead.StartCut | ACVM/pc-bios/s390-ccw/virtio-scsi.c:156-160 | a request for block 2^32 reads block 0 |
| ScsiRead.ReadChunks | ACVM/pc-bios/s390-ccw/virtio-scsi.c:271-293 | for any start and count: the commands read all chunks in order, none empty or over the limit, and memory is as after that; or the call halts, exactly if a block cannot be read, with the chunks before in memory |
| ScsiRead.ReadMany | ACVM/pc-bios/s390-ccw/virtio-scsi.c:271-293 | the chunks are one large read exactly when the last one's address fits 32 bits; then the call halts exactly when that read would, and otherwise memory is as after it |
| RingLayout.RoundUpIsLeast | ACVM/pc-bios/s390-ccw/virtio.c:118-119 | the used ring starts at the least aligned address that is not lower, exactly while it stays in 32 bits |
| RingLayout.PartsApart | ACVM/pc-bios/s390-ccw/virtio.c:116-119 | descriptor table, available ring and used ring are disjoint for every queue size |
| RingLayout.FitsExactly | ACVM/pc-bios/s390-ccw/virtio.h:47-49 | all three stay in the room of a queue exactly for at most 1137 entries |
| RingLayout.PowersFit | ACVM/pc-bios/s390-ccw/virtio.h:47-49 | of the powers of two, exactly those up to 1024 fit |
| RingLayout.QueuesApart | ACVM/pc-bios/s390-ccw/virtio.c:272-275 | no part of one queue overlaps any part of another |
| RingLayout.HeadersRead | ACVM/pc-bios/s390-ccw/virtio.c:121-127 | the two ring headers read as zero with notifications off, and no other byte of memory has changed |
| RingLayout.VRing.Init | ACVM/pc-bios/s390-ccw/virtio.c:109-133 | the queue is laid out as described and its counters start at 0 |
| RingIndex.SlotOfIndex | ACVM/pc-bios/s390-ccw/virtio-net.c:105-110 | a wrapped 16-bit index selects the slot of the unbounded counter behind it |
| RingIndex.SlotsDiffer | ACVM/pc-bios/s390-ccw/virtio-net.c:129-130 | counters less than a ring apart never share a slot |
| ReceiveRing.StepKeeps | ACVM/pc-bios/s390-ccw/virtio-net.c:94-137 | every statement of the driver and every action of the device keeps the protocol invariant |
| ReceiveRing.StepPlaced | ACVM/pc-bios/s390-ccw/virtio-net.c:94-137 | no step loses a buffer: what is not with the device is at its place in a ring |
| ReceiveRing.RunSound | ACVM/pc-bios/s390-ccw/virtio-net.c:61-137 | both hold after any run from start-up |
| ReceiveRing.DeliveredInOrder | ACVM/pc-bios/s390-ccw/virtio-net.c:101-136 | in any run the deliveries are the completions in order, once each, each the completed bytes after the header cut to the caller's length |
| ReceiveRing.UnreadIntact | ACVM/pc-bios/s390-ccw/virtio-net.c:105-111 | an unread completion's ring entry and buffer stay as the device left them |
| ReceiveRing.BuffersPartitioned | ACVM/pc-bios/s390-ccw/virtio-net.c:61-66 | each of the 64 buffers is in exactly one place: one slot of the available ring, the device, or one slot of the used ring |
| ReceiveRing.IdleIndices | ACVM/pc-bios/s390-ccw/virtio-net.c:101-134 | between calls the two indices are 64 apart modulo 2^16, and the driver's meets the device's exactly when nothing is pending |
| ReceiveRing.FaultExactly | ACVM/pc-bios/s390-ccw/virtio-net.c:105-126 | the copy runs away exactly on a completion shorter than the header or for a negative `maxlen` |
| ReceiveRing.FaultMet | ACVM/pc-bios/s390-ccw/virtio-net.c:105-126 | from every start-up there is a run into the fault, for any short completion and for any negative `maxlen` |
| ReceiveQueue.Queue.PostBuffers | ACVM/pc-bios/s390-ccw/virtio-net.c:61-66 | posting runs the machine's steps on the arrays, with the device acting in between |
| ReceiveQueue.Queue.Recv | ACVM/pc-bios/s390-ccw/virtio-net.c:94-137 | a call delivers the next undelivered completion cut to `maxlen` and returns its buffer, does nothing when nothing is pending, and runs away exactly on a short completion or a negative `maxlen` |
| ReceiveQueue.Queue.DeviceActs | ACVM/pc-bios/s390-ccw/virtio-net.c:94-137 | whatever the device does between two statements leaves the driver's side undisturbed |
| CommandQueue.BuiltIsWhole | ACVM/pc-bios/s390-ccw/virtio.c:148-153 | descriptors written one by one form, when followed by `next`, exactly the request's buffers with their addresses, lengths and directions |
| CommandQueue.ActKeeps | ACVM/pc-bios/s390-ccw/virtio.c:141-174 | every single write, reply and poll keeps the protocol invariant |
| CommandQueue.PublicationSafe | ACVM/pc-bios/s390-ccw/virtio.c:141-218 | in every state the device can see, each published unanswered entry heads the whole chain of its request; each request publishes one entry, in order |
| CommandQueue.WaitDecidesStart | ACVM/pc-bios/s390-ccw/virtio.c:161-213 | a poll resets to descriptor 0 exactly when the request has been answered; a timeout never does |
| CommandQueue.TimeoutExactly | ACVM/pc-bios/s390-ccw/virtio.c:183-217 | from any wait, whatever the request and whether or not its reply has come, one more move leaves a queue that every orderly run keeps safe and inside the descriptor table exactly when it is not the timeout |
| CommandQueue.OneTimeoutBreaks | ACVM/pc-bios/s390-ccw/virtio.c:203-217 | from a fresh queue, whatever orderly run leads to a wait, a timeout there can be followed by orderly moves that break the queue |
| CommandQueue.TableFull | ACVM/pc-bios/s390-ccw/virtio.c:148-153 | with all descriptors in use after a timeout, the next request of any kind leaves the table at once |
| CommandDriver.Driver.SendBuf | ACVM/pc-bios/s390-ccw/virtio.c:141-159 | the eight accesses, with the device acting in between, append one buffer and publish only the last |
| CommandDriver.Driver.PollOnce | ACVM/pc-bios/s390-ccw/virtio.c:161-174 | a poll, with its two reads of the used index and the device acting in between, either changes nothing of the driver's or frees the descriptors |
| CommandDriver.Driver.WaitReply | ACVM/pc-bios/s390-ccw/virtio.c:183-201 | after at least one poll the wait ends with the queue free, or timed out with the descriptors still used |
| CommandDriver.Driver.Run | ACVM/pc-bios/s390-ccw/virtio.c:203-218 | one entry is published for the whole command, every state on the way is safe, and without a timeout the next request starts at descriptor 0 |
| ChannelProgram.Fixup | ACVM/pc-bios/s390-ccw/dasd-ipl.c:42-73 | the walk finds the first place to cut and clears one bit there |
| ChannelProgram.SplitShape | ACVM/pc-bios/s390-ccw/dasd-ipl.c:33-40 | a cut is made only after a chained read followed by a transfer in channel, whose target is where to go on |
| ChannelProgram.CutEndsPiece | ACVM/pc-bios/s390-ccw/dasd-ipl.c:42-73 | a cut changes one chaining bit and no other byte, and makes the program end there: nothing before it is left to cut |
| ChannelProgram.StepAgrees | ACVM/pc-bios/s390-ccw/dasd-ipl.c:75-97 | a step that meets no overwritten, revisited or changed CCW keeps pieces and architecture together |
| ChannelProgram.FaithfulAgrees | ACVM/pc-bios/s390-ccw/dasd-ipl.c:75-97 | so does any number of them |
| ChannelProgram.TameIsFaithful | ACVM/pc-bios/s390-ccw/dasd-ipl.c:59-68 | conditions on the shape of a piece and on where reads store are enough for that |
| ChannelProgram.TameKeeps | ACVM/pc-bios/s390-ccw/dasd-ipl.c:59-68 | under them execution stays inside the piece |
| ChannelProgram.PiecesPreserveMeaning | ACVM/pc-bios/s390-ccw/dasd-ipl.c:75-97 | run in pieces, each fetched before it runs, the program has the same device effects, position and memory as fetching every CCW when it is executed, up to the cleared bits |
| ChannelProgram.TransferExactly | ACVM/pc-bios/s390-ccw/dasd-ipl.c:65-68 | at a cut with a transfer in channel behind it, pieces and architecture stay together if and only if it still names the saved target and the scan from there ends |
| ChannelProgram.TransferReplaced | ACVM/pc-bios/s390-ccw/dasd-ipl.c:59-68 | with another command loaded there they part, unless the saved target is the address 16 or 24 bytes behind the cut |
| ChannelProgram.TwoPieces | ACVM/pc-bios/s390-ccw/dasd-ipl.c:75-97 | a program that loads the end of its second piece meets the conditions throughout, ends, and agrees with the architecture |
| ChannelProgram.MeaningCanBeLost | ACVM/pc-bios/s390-ccw/dasd-ipl.c:59-68 | a read over the transfer in channel behind it makes the two go to different places |
| ChannelProgram.RunDynamic | ACVM/pc-bios/s390-ccw/dasd-ipl.c:75-97 | the loop over memory runs exactly the pieces, and ends only with a failure or a piece that has no cut |
| ChannelIo.DoCio | ACVM/pc-bios/s390-ccw/cio.c:375-427 | 0 is returned exactly when the last attempt gave code 0 twice and a clean status; every retried unit check is preceded by a sense, and no other retry is |
| ChannelIo.AtMostThreeErrorRetries | ACVM/pc-bios/s390-ccw/cio.c:379-407 | no sequence of answers leads to more than three error retries, and a busy answer among the first three attempts leaves at most two |
| Vapic.MaxIsPriority | ACVM/pc-bios/optionrom/kvmvapic.S:199-205 | comparing whole bytes gives the architectural processor priority, because the in-service byte's low half is zero |
| Vapic.PollMissesNothing | ACVM/pc-bios/optionrom/kvmvapic.S:206-209 | a deliverable interrupt is always polled for, and a poll in vain is within one class |
| Vapic.ApplyCommutes | ACVM/pc-bios/optionrom/kvmvapic.S:189-197 | replacing the priority byte commutes with everything the hypervisor does to the word |
| Vapic.Record.SetTpr | ACVM/pc-bios/optionrom/kvmvapic.S:171-228 | the update happens at one moment of the hypervisor's script and loses none of its changes; the poll decision is that of the word at that moment; the multiprocessor form writes elsewhere only when it finds the record not enabled; the retry loop ends |
| Vapic.Record.GetTpr | ACVM/pc-bios/optionrom/kvmvapic.S:101-123 | with the hypervisor acting between test and load, reading gives the byte last set whatever happened to the other bytes, or the fallback word if the record was found not enabled |
| Menu.TypedHoldsNoNul | ACVM/pc-bios/s390-ccw/menu.c:85-109 | no sequence of keys puts a NUL into the line or makes it longer than the buffer allows |
| Menu.ReadPrompt | ACVM/pc-bios/s390-ccw/menu.c:72-115 | the buffer holds the text of the abstract line editor and zeros behind it, or an empty string after the timeout |
| Menu.GetIndex | ACVM/pc-bios/s390-ccw/menu.c:117-144 | an empty line chooses the default, a line with a non-digit is refused, any other gives its decimal value or overflows |
| Menu.NineDigitsFit | ACVM/pc-bios/s390-ccw/menu.c:117-144 | lines of up to nine digits never overflow; a ten-digit one that the buffer takes does |
| Decimal.ValueOfDigits | ACVM/pc-bios/s390-ccw/libc.c:64-88 | the canonical digits of a number denote it, with a leading zero only for 0 |
| Decimal.DigitsUnique | ACVM/pc-bios/s390-ccw/libc.c:64-88 | no other string without leading zeros does |
| Decimal.Uitoa | ACVM/pc-bios/s390-ccw/libc.c:64-88 | the canonical digits and a NUL are written, nothing behind them, and too small a buffer halts with nothing written |
| Decimal.Atoui | ACVM/pc-bios/s390-ccw/libc.c:28-49 | the value of the digits after leading spaces, exactly when the signed accumulation does not overflow |
| Decimal.PrintedReadsBack | ACVM/pc-bios/s390-ccw/libc.c:28-88 | after any run of spaces a printed number reads back, exactly up to 2147483599 |

## Left out

- IsoWalk.Walker.GetFileSize: says nothing about malformed directories, on which the code may read on through whatever follows or halt on its structure check. Trees that refer back to themselves are covered: nothing below the eighth level is entered.
- ReceiveRing.RunSound: the writes of a descriptor and of its ring slot at start-up are one step, since nothing is published between them, and so is the copy of a packet; notifications are not modelled.
- ReceiveRing.DeliveredInOrder: the device reports used lengths of at most the buffer's size and returns only buffers it holds, as VIRTIO 1.0 asks of it.
- CommandDriver.Driver.WaitReply: one queue is polled; with three SCSI queues an event on another queue would also end the wait.
- CommandQueue.TableFull: the first write of such a request, which puts the number of the missing descriptor into the available ring, is not distinguished from the ones behind the table.
- CommandDriver.Driver.PollOnce: the notification of an empty poll, which updates the queue's cookie, and the yield are not modelled.
- CommandDriver.Driver.Run: the failure of `drain_irqs` and the yield hypercall are not modelled.
- ChannelProgram.PiecesPreserveMeaning: the conditions are sufficient, not necessary; data chaining, indirect addressing and the retry of a piece inside `do_cio` are not modelled.
- ChannelProgram.RunDynamic: observed for a bounded number of steps, because a channel program need not end; no bound occurs in the lemmas.
- ChannelIo.DoCio: the answers are a finite sequence, and no termination is claimed while the subchannel stays busy; the sense data is not modelled.
- EckdLoader.Loader.LoadComponent: chains that can be followed for ever are excluded, since the code does not end on them; loaded data does not overlay the firmware's own tables.
- PointerTables.ReadMany: a transfer that fails is taken to have stored nothing, although chunks before the failing one may have been.
- ScsiRead.ReadMany: blocks are below 2^18 bytes, so that the byte count of a chunk fits an int, and a sector is one block or four.
- BootCatalogue.FindCatalogue: needs a disk whose volume descriptors end; the image itself is read by the chunked read.
- Vapic.Record.SetTpr: the hypervisor makes finitely many changes; an endless stream of them could keep the loop going. The getters for other registers, one of which calls itself, are left out.
- Menu.ReadPrompt: the clock comparator is an event of the keystroke sequence; the menu that lists entries and the zipl menu parser are left out.
- `eckd_get_boot_menu_index` does not test the next block for the null number; it only feeds the menu.
- Volume labels, the MBR and program table of SCSI disks and the LDL/CDL front ends check magic numbers and pick an entry before the loaders modelled here.
- `virtio_setup_ccw`, SCSI inquiry and response parsing, `netmain.c`, `jump2ipl.c`, sense pretty-printing and the Swift launcher hold no deep property.
