# PekerOS: the state-keeping parts of the kernel, verified

This project models five parts of the PekerOS kernel that keep mutable state: the PAFS
file system, the kernel heap, the socket receive buffer with TCP and the Internet
checksum, physical frames with page tables and `sbrk`, and the round-robin scheduler.
Hardware becomes data: a disk is 4096 sectors of 512 bytes, physical memory is an array
of pages, the network card is a log of packets, a context switch is the stack pointer
returned.

Each part has the same shape.

* Pure functions say what every operation does to the state, branch by branch as the C
  code does (`PafsState`, `HeapLayout`, `Rings`, `Datagrams`, `Streams`, `Tcp`, `Frames`,
  `Paging`, `PagingInit`, `Sbrk`, `Scheduling`).
* Classes with the kernel's own fields, arrays and links (`Pafs.Volume`, `KHeap.Heap`,
  `Sockets.Socket`, `TcpLayer.Layer`, `Pmm.Manager`, `AddressSpaces.AddressSpace`,
  `Tasks.Scheduler`, `Descriptors.Files`) update them in place in loops; every method is
  proved to compute its pure function.
* Lemmas about the pure functions state what the kernel promises: over every run, over
  every interleaving, or exactly when.

## Parts

**PAFS** (`Pafs*`). Every state reachable from a format keeps exact block ownership,
dense directories and, but for the free-inode count, metadata on disk equal to memory
(`PafsRuns.ReachableInv`), remounts included. On top of that the volume is a map from
names to bytes (`PafsMap`), in states with two names on one inode and with holes too; `PafsExact` says
exactly when an operation changes the name it is given and no other. Positional I/O is a splice (`PafsFiles`, `PafsReads`), also behind the
end of a file and in files with holes (`PafsGaps`, `PafsHoles`), and a remount shows the same files
(`PafsMount`, `PafsMap`). `PafsCounts` follows the free-inode count over whole runs, `PafsCrash`
and `PafsMidway` say what a remount finds between two sector writes, and `PafsFailures` holds runs in which it goes wrong. Deleting is exact if and
only if the target and the last entry are the same slot or lie in different blocks; the
remaining case removes the wrong name, shown for every such deletion by
`PafsTree.DropEffect` and on a concrete disk by `PafsNames.DeleteGoesWrong`.

**Kernel heap** (`HeapLayout`, `HeapRuns`, `KHeap`). The linked headers tile the 4 MB,
no two neighbours are free, live payloads never overlap; freeing undoes allocating, and
a request is refused exactly when no free stretch can hold it.

**Sockets and TCP** (`Rings`, `Datagrams`, `Streams`, `Sockets`, `Tcp*`, `Checksum`,
`Packets`). The interrupt side may run between any two byte reads of a receive call; the
ring is still a first-in first-out queue. A connection is followed over its whole life
on both sides, up to an end-to-end statement about two of them, with the exact conditions
under which what goes out is what the send calls reported and checks at the other end.

**Memory** (`Frames`, `Pmm`, `Paging*`, `AddressSpaces`, `Sbrk`). Loans of frames, page
tables in frames of their own, the direct map at 0xC0000000, and a heap that grows page
by page, with the exact number of free frames each of them needs.

**Scheduler** (`Scheduling`, `SchedulingRounds`, `Tasks`). The search ends, a round
visits every live task once, waiting is bounded whatever else happens, and a task gets
back the stack pointer it was left with.

## Where the code does not do what one would expect

* `pafs_remove_entry` writes the last block after the target's block, from a copy read
  before; in the same block the removed entry comes back and the last one is lost.
* The entry that came back names a free inode. The next create hands that inode out, and the two names
  are one file from then on: format, create a, create b, delete a, create c, write c changes a
  (`PafsExact.TwoNamesOneInode`). Holes apart, a create changes no other file exactly when no name stands for the
  inode handed out (`PafsExact.CreateExactIff`), a write exactly when no other name stands for its
  inode, but for a file that has the bytes already (`PafsExact.WriteExactIff`). From then on the volume is out of
  the good states (unique names, every live inode bound once, no holes), which exactly the harmless
  operations keep (`PafsGood.GoodStepIff`).
* `pafs_create` does not save the superblock, so the free-inode count on disk is too high
  after it, unless the new entry took a block (`PafsCounts.CreateCountIff`). Format, create
  one file, remount: 127 inodes are counted free instead of 126 (`PafsCounts.CreateLosesCount`).
  Exactly when each operation leaves the count on disk right is `PafsCounts.CountStepIff`. Over a
  run the count in memory stays the number of free inodes exactly when every remount finds the
  disk right and no deletion hits an inode that is free already (`PafsCounts.FreeCountIff`); whatever happens it is never too low (`PafsCounts.CountNeverLow`).
* `pafs_vfs_write` accepts offsets behind the end of a file, and the size may pass 7168. Slots of
  the gap may be left without a block (`PafsGaps.GapLeavesNoHoleIff`); bytes not written show what
  their block held before, even one taken only now (`PafsGaps.VfsWriteContents`).
* Such a hole reads in two ways. `pafs_vfs_read` takes it for sector 0, the superblock; `pafs_read`
  stops at it, so bytes written behind it never come back by name: on a fresh volume a file of 1025
  bytes, written at 1024, is empty when read by name (`PafsHoles.HoleReadsTwoWays`). A read by
  name is right exactly when no slot before its end lacks a block (`PafsReads.ReadIsPrefixIff`).
* `pafs_delete` saves the bitmap before the inode: a remount in between finds blocks in use
  marked free, unless both inodes share a sector (`PafsCrash.DeleteCrashIff`, `PafsFailures.DeleteMarksFree`).
* `pafs_create` saves the directory before the new inode: a remount in between finds the name bound
  to a free inode, unless both share a sector (`PafsMidway.CreateCrashIff`, `PafsFailures.NameOfFreeInode`).
* Names longer than 27 bytes are cut when stored but compared in full, so they are never
  found again (`PafsNames.CreatedIsFoundIff`).
* `pafs_vfs_read` adds offset and size in 32 bits; when that wraps it may return too
  much (`PafsReads.VfsReadIsSlice`), never too little (`PafsReads.VfsReadNeverShort`).
* A comment in `pafs_vfs_write` promises only appending or whole blocks; the code is a
  full splice for every offset up to the size.
* `socket_sendto` cuts the length to 16 bits and reports the whole length as sent: a message
  of 65546 bytes puts 10 bytes on the wire (`TcpSender.LongMessageIsCut`). Data sent is data
  reported exactly when every message has at most 65515 bytes (`TcpSender.SenderSafety`).
* Where the low 16 bits of a message's length exceed 65515, `tcp_send_segment` wraps the
  total length too. It asks for a block of that length and writes header and data into it,
  past its end, and for 65516 bytes of data through the null pointer that `kmalloc(0)` returns;
  it then hands at most 19 bytes to IP. In the model no segment goes out, yet `snd_nxt` moves, as in the
  code, so sequence numbers leave a gap (`TcpGaps.OverlongLeavesGap`). They never do
  otherwise (`TcpSender.SenderSafety`). The same wrap in `net_send_ipv4` makes the
  total length field wrong for payloads above 65515 bytes, that is, data above 65495
  (`Packets.TotalLengthIff`).
* `tcp_send_segment` computes the checksum with the control block's own address, which stays
  0 after listening, while the IP header has 10.0.2.15. The other end then rejects every
  segment (`TcpWire.PassiveNeverChecks`); in general the checksum holds exactly when the address
  bound last equals the other modulo 65535 (`TcpWire.ConnectionChecksIff`).
* `socket_dispatch_udp` does not look at the type of the socket: a datagram for the port of a
  stream socket is framed into its stream, and the reader gets exactly what TCP accepted only
  if that never happens (`TcpReceiver.AcceptedReachesReader`, `TcpReceiver.UdpIsReadAsStream`).
* `kmalloc` computes sizes in 32 bits: a request above 0xFFFFFFEC bytes wraps to at
  most 16, so whatever block it gets is too short (`HeapRuns.GrantedLongEnoughIff`).
* `kmalloc` hands out a rest of up to 20 bytes with the block before it, though a request of one to four
  bytes would need no more (`HeapRuns.LastWordRefused`).
* `init_pmm` rounds the start of a region up in 32 bits: a region that starts in the last
  page of the 4 GB offers frames that do not belong to it (`Frames.OfferedInsideIff`).
* `tcp_input` does not compare the sequence number with `rcv_nxt`: a repeated segment is
  stored twice (`TcpReceiver.DuplicateIsStoredTwice`), and `rcv_nxt` counts the bytes
  accepted exactly when segments are taken in order (`TcpReceiver.ConservedIffInOrder`).
* `init_paging` multiplies the memory size by 1024 in 32 bits; at a multiple of 4 GB it
  maps nothing (`PagingInit.ReachesEveryFrameIff`).
* `paging_map_memory` counts pages from the size alone, rounded up in 32 bits: at an unaligned
  address the last bytes may stay unmapped, and a size above 0xFFFFF000 maps nothing (`PagingRuns.MapBytesIff`).
* `sys_sbrk` neither unmaps on a shrink nor looks before it maps: growing again gives
  pages a second frame and loses the first (`Sbrk.SbrkRemapsIff`, `Sbrk.GrowShrinkGrow`), one for
  every page mapped again (`SbrkRuns.CallsKeep`). An end that
  wraps round 4 GB is stored as it is, and nothing is mapped for it (`Sbrk.SbrkIff`).
* `alloc_frame` failures are not noticed by paging; `PagingRuns.MapMemoryIff`,
  `PagingInit.StartMaps` and `Sbrk.SbrkIff` say exactly when none happens.

## Model

| member | source | states |
|---|---|---|
| PafsRuns.FormatInv | kernel/fs/pafs.c:118-153 | a formatted volume satisfies the invariant: 4096 sectors, 4077 of them free, 128 inodes, 127 of them free, an empty root with one block, no other file |
| PafsRuns.StepInv | kernel/fs/pafs.c:201-533 | create, mkdir, delete, write, positional write and a remount each keep the invariant: block ownership exact, no leak, free-block count exact, free inodes clean, directories dense, metadata on disk equal to memory but for the free-inode count, which is never lower there |
| PafsRuns.ReachableInv | kernel/fs/pafs.c:118-533 | the invariant holds after every run of operations from a format, failing operations included |
| PafsGood.GoodStepIff | kernel/fs/pafs.c:201-533 | from a state in which names are unique, every live inode but the root is named exactly once and no file has a hole, an operation leads to such a state exactly when it is harmless: no name is created that its directory has already as far as an entry keeps it, no deletion is inexact, no write leaves a gap unfilled |
| PafsGood.NamedStepIff | kernel/fs/pafs.c:201-533 | the part on names alone, for volumes with holes too: unique names and inodes named once stay exactly unless a name is created a second time or a deletion is inexact |
| PafsGood.DenseStepIff | kernel/fs/pafs.c:201-533 | the part on holes alone, whatever the names: a hole comes into being exactly in a positional write behind the end that does not fill its gap |
| PafsGood.ReachableGoodIff | kernel/fs/pafs.c:118-533 | from a format on, every state of a run is such a state exactly when each of its operations is harmless when it is made |
| PafsMap.CreateRefines | kernel/fs/pafs.c:355-384 | in any state, with any name: a create in the root binds the name, as far as an entry keeps it, to the lowest free inode, unless it stands there already; every name of that inode is now an empty file, or none for a directory; every other inode is untouched, so its names are files with the bytes they had, holes showing sector 0; on failure nothing changes |
| PafsMap.CreateTakesFirst | kernel/fs/pafs.c:69-77 | the inode handed out is the lowest free one |
| PafsRoom.CreateFailsIff | kernel/fs/pafs.c:355-384 | creating, in any inode as parent, fails exactly when the name is taken, no inode is free or counted free, or there is no room for the entry: the directory or the disk is full, or the parent is no directory and not itself the inode handed out for one |
| PafsMap.WriteRefines | kernel/fs/pafs.c:386-422 | in any state, with any name: a write goes to the inode of the name or to the lowest free one; every name of that inode is now a file with the first n bytes, and all other inodes are untouched; it fails, changing nothing, exactly when a new file cannot be created or the name is a directory or free; n falls short of min(len, 7168) only when no block is free |
| PafsMap.ReadRefinesIff | kernel/fs/pafs.c:424-453 | in any state, with holes or not: reading a name gives its file up to the limit exactly when no slot before the end of what is asked for lacks its block |
| PafsMap.WriteThenRead | kernel/fs/pafs.c:386-453 | in any state: reading after a write returns the bytes written, up to the limit, exactly when the name has at most 27 bytes; a longer one is not found |
| PafsMap.VfsWriteRefines | kernel/fs/pafs.c:484-533 | in any state, at any offset: every name of the inode shows the new contents, given byte by byte, all other inodes are untouched; within a file without holes the contents are the splice |
| PafsMap.DeleteRefines | kernel/fs/pafs.c:316-353 | in any state: the root afterwards is the list of bindings without the entry, no name of the inode is a file any more, all other inodes are untouched; the root loses exactly the name iff the removal is clean |
| PafsExact.CreateExactIff | kernel/fs/pafs.c:355-384 | a create changes the files of the root as meant exactly when no name stands for the free inode handed out and holes of other files show what they did; the names that were there are files as before exactly when none stands for that inode; when sector 0, which holes show, is saved |
| PafsExact.WriteExactIff | kernel/fs/pafs.c:386-422 | a write changes the one file and no other exactly when no other name stands for its inode, unless as a file that has the very bytes already, and holes show what they did; how many bytes are written and when sector 0 is saved are told from the state before |
| PafsExact.VfsWriteExactIff | kernel/fs/pafs.c:484-533 | the same of positional writes at any offset |
| PafsExact.DeleteFilesIff | kernel/fs/pafs.c:316-353 | a deletion takes away the name and its file and nothing else exactly when the removal of the entry is clean, no other name of a file stands for the inode, and holes show what they did |
| PafsExact.TwoNamesOneInode | kernel/fs/pafs.c:266-422 | on any disk: format, create a, create b, delete a, create c; c gets the inode that a still names, and writing c changes the file a |
| PafsExact.GoodCreate | kernel/fs/pafs.c:355-384 | in good states, with a name of at most 27 bytes: an empty file or directory is added and nothing else changes |
| PafsExact.GoodWrite | kernel/fs/pafs.c:386-422 | in good states, with a name of at most 27 bytes: that file is set to the first n bytes and nothing else changes |
| PafsExact.GoodVfsWrite | kernel/fs/pafs.c:484-533 | in good states, within the file: the bytes are laid over it and nothing else changes |
| PafsExact.GoodDelete | kernel/fs/pafs.c:316-353 | in good states an exact deletion removes the name and its file and nothing else |
| PafsExact.GoodRead | kernel/fs/pafs.c:424-453 | in good states a read returns the file of that name up to the limit, or fails exactly when the name is not a file |
| PafsLength.WriteLengthIs | kernel/fs/pafs.c:386-422 | how many bytes a write by name writes: as many as fit the slots that have a block or get one of those counted free, after the block a new entry may take |
| PafsLength.VfsWriteLength | kernel/fs/pafs.c:484-533 | the same of a positional write, from the slot of the offset on |
| PafsMount.RemountIsSame | kernel/fs/pafs.c:186-197 | reloading from disk gives the same state with the free-inode count of the disk, which is never too low |
| PafsMount.MountIff | kernel/fs/pafs.c:174-197 | a disk is taken for a volume exactly when its first word is the magic number, and mounting leaves it alone |
| PafsMap.RemountKeepsFiles | kernel/fs/pafs.c:186-197 | reloading gives the same directories, files and free-block count |
| PafsCounts.CreateCountIff | kernel/fs/pafs.c:355-384 | after a successful create the count on disk is right exactly when the new entry took a block |
| PafsCounts.CreateLosesCount | kernel/fs/pafs.c:355-384 | on any disk: format, create one file, remount; 127 inodes are counted free, 126 were |
| PafsCounts.CountStepIff | kernel/fs/pafs.c:118-533 | for every operation, exactly when the free-inode count on disk is right afterwards; otherwise it is what it was |
| PafsCounts.StepDrift | kernel/fs/pafs.c:118-533 | by how much each operation moves the count against the free inodes: one up where a free inode is freed, by the difference to the disk over a remount, else nothing |
| PafsCounts.CreateSaved | kernel/fs/pafs.c:355-384 | a create saves the superblock exactly when the entry takes a block |
| PafsCounts.WriteFromSaved | kernel/fs/pafs.c:79-91 | the write loop saves the superblock exactly when it reaches a slot without a block and a block is free |
| PafsCounts.CountStaysRightIff | kernel/fs/pafs.c:118-533 | one step from any state: a right count stays right exactly unless a remount finds it wrong on disk or a deletion hits an inode that is free already |
| PafsCounts.RunRightIff | kernel/fs/pafs.c:118-533 | over any run that starts with a right count, it is right at every moment exactly when every remount is made while the count on disk is right and no deletion hits a free inode |
| PafsCounts.FreeCountIff | kernel/fs/pafs.c:118-533 | from a format on, over every run, the free-inode count equals the number of free inodes at every moment exactly when every remount is made while the disk has it right and no deletion hits a free inode |
| PafsCounts.CountNeverLow | kernel/fs/pafs.c:118-533 | over every run of operations from a format, remounts, inexact deletions, long names and gaps included, the count is never too low, so create is never turned away by it while an inode is free |
| PafsTree.DropEffect | kernel/fs/pafs.c:289-313 | which binding a removal takes away: the target's, or the last entry's when both lie in different slots of one block |
| PafsTree.DeleteExactIff | kernel/fs/pafs.c:266-353 | a deletion removes exactly the binding asked for if and only if the target is the last entry or in another block and neither its name nor, further on, the last entry's is bound again; with unique names only the first matters |
| PafsNames.DeleteGoesWrong | kernel/fs/pafs.c:266-353 | on any disk: format, create two names, delete the first; the second name is gone, the first remains and names a free inode |
| PafsRoom.LongNameNotFound | kernel/fs/pafs.c:240-257 | a lookup of a name of more than 27 bytes always fails |
| PafsNames.CreatedIsFoundIff | kernel/fs/pafs.c:205-256 | a name just created is found again exactly when it has at most 27 bytes |
| PafsNames.ReaddirLists | kernel/fs/pafs.c:544-596 | listing index 0, 1, 2, ... gives every entry once, in order, and then ends |
| PafsOps.FindIsSearch | kernel/fs/pafs.c:240-257 | lookup agrees with search in the directory's list of bindings |
| PafsOps.CreateEffect | kernel/fs/pafs.c:355-384 | create either changes nothing or adds one binding to a fresh inode, and keeps the invariant through its rollback |
| PafsOps.DeleteEffect | kernel/fs/pafs.c:316-353 | delete keeps the invariant; its three answers and what each means for the state |
| PafsDirs.AddEntryEffect | kernel/fs/pafs.c:205-238 | adding an entry appends one binding, or fails without effect when the directory or the disk is full |
| PafsDirs.RemoveEntryEffect | kernel/fs/pafs.c:266-314 | removing an entry: the list of bindings afterwards |
| PafsInv.EnsureCore | kernel/fs/pafs.c:79-90 | taking a block for a file keeps ownership and counts exact, or fails without effect when no block is free |
| PafsInv.AllocTakesLowest | kernel/fs/pafs.c:79-90 | the block taken is the lowest free one from 18 on, and -1 means there is none |
| PafsData.WriteFromBytes | kernel/fs/pafs.c:400-417 | the write loop: which bytes of the file are new, which are kept, and why it stopped |
| PafsData.WriteFromCore | kernel/fs/pafs.c:400-417 | the write loop keeps the invariant and leaves other inodes and their blocks alone |
| PafsFiles.WriteInodeContents | kernel/fs/pafs.c:386-422 | overwriting: the contents become exactly the bytes written |
| PafsFiles.WriteInodeZeroes | kernel/fs/pafs.c:400-417 | overwriting leaves zeros behind the last byte up to the end of its block |
| PafsFiles.VfsWriteSplice | kernel/fs/pafs.c:484-533 | for offset <= size the contents become c[..offset] + data[..w] + c[offset+w..], despite unzeroed new blocks |
| PafsGaps.VfsWriteGap | kernel/fs/pafs.c:484-533 | a write behind the end of any file: the new size, the bytes written, bytes and slots before the offset kept, and a block taken at the offset shows what it held |
| PafsGaps.VfsWriteAny | kernel/fs/pafs.c:484-533 | a positional write at any offset into any file: size, bytes written, bytes not written, slots changed, and why it stopped |
| PafsGaps.VfsWriteContents | kernel/fs/pafs.c:484-533 | every byte of the contents after any positional write: the ones written, else what the block held on disk before, even if only now taken, else sector 0; old contents with a block are kept |
| PafsGaps.FirstByteIff | kernel/fs/pafs.c:496-510 | a positional write below 7168 writes at all exactly when there is data and the slot has a block or one is free |
| PafsGaps.GapLeavesNoHoleIff | kernel/fs/pafs.c:484-533 | such a write on a file without holes leaves none exactly when the offset is at most 7168, every slot before it has a block and, if the offset lies inside a slot, that slot has a block or there is data and a free block |
| PafsHoles.UnreadableByName | kernel/fs/pafs.c:424-533 | whatever is written behind a slot without a block, a read by name ends where that slot begins, with any limit |
| PafsHoles.HoleReadsTwoWays | kernel/fs/pafs.c:424-533 | on any disk: format, create a file, write one byte at 1024; the file has 1025 bytes, reads as empty by name, and by position shows the superblock twice and then the byte |
| PafsCrash.DeleteCrashIff | kernel/fs/pafs.c:266-353 | mounting the disk as it is after any sector write of a deletion: exactly when block ownership found there is exact, and exactly when no block in use is marked free or held twice |
| PafsMidway.WriteCrashIff | kernel/fs/pafs.c:400-420 | mounting after any sector write of the write loop, those of `alloc_block` included, before the inode is saved: ownership is exact exactly when no block was taken yet, and no block in use is ever marked free |
| PafsMidway.CreateCrashIff | kernel/fs/pafs.c:205-238 | mounting after any sector write of a create: ownership is exact unless a block was taken and the directory's inode is not saved yet; no block in use is marked free; the name is bound from the save of the directory's inode on, to a free inode in between unless both inodes share a sector |
| PafsFailures.DeleteMarksFree | kernel/fs/pafs.c:316-353 | on any disk: eight files, one byte in the last, delete it; between the saves of bitmap and inode a block in use is marked free |
| PafsFailures.DeleteLosesBlock | kernel/fs/pafs.c:316-353 | on any disk: one file of one byte, delete it; once the directory's inode is saved and until the bitmap is, its block is lost |
| PafsFailures.NameOfFreeInode | kernel/fs/pafs.c:355-384 | on any disk: while the eighth file is created a mount finds its name bound to a free inode |
| PafsFailures.ReadRunsOn | kernel/fs/pafs.c:455-482 | on any disk: a file of two bytes read from the second on with size 0xFFFFFFFF gives 7167 bytes |
| PafsReads.VfsReadIsSlice | kernel/fs/pafs.c:455-482 | a positional read of any inode is the slice asked for, of a file of its contents, holes included, of anything else of nothing, if and only if it is no file, offset + size does not wrap, nothing is left to read, or the size is at least 7168; a directory always reads as empty |
| PafsReads.VfsReadNeverShort | kernel/fs/pafs.c:455-482 | it never returns less than that slice |
| PafsReads.FdReadNoFile | kernel/proc/syscall.c:54-69 | through a descriptor on anything but a file nothing is read and the offset stays |
| PafsReads.ReadIsPrefixIff | kernel/fs/pafs.c:424-453 | a read by name is the contents up to the limit if and only if the limit is not positive, or the size is below 2^31 and no slot before the end of what is asked for lacks a block |
| PafsReads.ReadIsPrefix | kernel/fs/pafs.c:424-453 | for files without holes it always is |
| PafsReads.ReadRunIsSlice | kernel/proc/syscall.c:54-69 | reads through one descriptor return, joined, the slice of the file from the offset, wherever that lies; of a directory nothing |
| PafsReads.ChunkingDoesNotMatter | kernel/proc/syscall.c:54-69 | how a read is cut into calls does not matter |
| PafsReads.WriteRunAppends | kernel/proc/syscall.c:71-92 | writes through one descriptor at the end of a file append the concatenation, cut once space or 7168 bytes run out |
| PafsReads.StuckRun | kernel/proc/syscall.c:71-92 | once a file cannot grow, later writes add nothing |
| PafsLayout.SuperblockRoundTrip | kernel/fs/pafs.c:93-96 | the superblock read back from its sector is the one saved |
| PafsLayout.InodeSectorRoundTrip | kernel/fs/pafs.c:98-102 | an inode read back from its sector is the one saved |
| PafsLayout.SuperblockLayout | kernel/fs/pafs.c:93-96 | the bytes of the superblock sector: six words, least significant byte first, then zeros |
| PafsLayout.InodeLayout | kernel/fs/pafs.c:98-102 | the bytes of an inode: type, size and fourteen block numbers in 64 bytes, eight to a sector |
| PafsLayout.EntryLayout | kernel/fs/pafs.c:205-238 | the bytes of a directory entry: inode and 28 bytes of name, sixteen to a sector, the rest of the sector kept |
| Pafs.Volume.AllocBlock | kernel/fs/pafs.c:79-90 | computes the lowest free block from 18 on, marks it and counts it, or answers -1 |
| Pafs.Volume.FindFreeInode | kernel/fs/pafs.c:69-77 | answers the lowest free inode, or -1 |
| Pafs.Volume.SaveInodeSector | kernel/fs/pafs.c:98-102 | stores the eight inodes of a sector |
| Pafs.Volume.SaveMetadata | kernel/fs/pafs.c:109-115 | stores superblock, inodes and bitmap |
| Pafs.Volume.FormatVolume | kernel/fs/pafs.c:118-153 | leaves exactly the formatted volume, whatever was on the disk |
| Pafs.Volume.Load | kernel/fs/pafs.c:186-197 | loads exactly what the mount function decodes, or reports that the disk holds no file system |
| Pafs.Volume.AddDirEntry | kernel/fs/pafs.c:205-238 | the scan over blocks and slots computes the pure entry insertion |
| Pafs.Volume.FindEntry | kernel/fs/pafs.c:240-257 | the scan over blocks and slots computes the pure lookup |
| Pafs.Volume.RemoveDirEntry | kernel/fs/pafs.c:266-314 | the reads and writes in the order of the code compute the pure removal |
| Pafs.Volume.DeleteFile | kernel/fs/pafs.c:316-353 | computes the pure deletion with its answer |
| Pafs.Volume.CreateFile | kernel/fs/pafs.c:355-384 | computes the pure creation with its answer, rollback included |
| Pafs.Volume.WriteFile | kernel/fs/pafs.c:386-422 | computes the pure overwrite with its answer, negative lengths included |
| Pafs.Volume.ReadFile | kernel/fs/pafs.c:424-453 | fills the caller's buffer with the bytes of the pure read and a NUL if there is room |
| Pafs.Volume.VfsReadFile | kernel/fs/pafs.c:455-482 | fills the caller's buffer with the bytes of the pure positional read |
| Pafs.Volume.VfsWriteFile | kernel/fs/pafs.c:484-533 | computes the pure positional write with its answer |
| Pafs.Volume.ReaddirAt | kernel/fs/pafs.c:544-596 | computes the pure directory listing |
| Descriptors.Files.SysRead | kernel/proc/syscall.c:54-69 | answer, buffer and offset of a read through a descriptor; a closed or wrong descriptor changes nothing, and one on a directory answers 0 and changes nothing |
| Descriptors.Files.SysWrite | kernel/proc/syscall.c:71-92 | descriptors 1 and 2 go to the console; any other advances its offset by what was written, and one on a directory answers 0 and changes nothing |
| Descriptors.Files.OpenInode | kernel/proc/syscall.c:41-52 | the lowest closed descriptor is taken with offset 0, or -1 when all are open |
| Descriptors.Files.Close | kernel/proc/syscall.c:94-105 | closing clears the entry and its offset |
| HeapLayout.KmallocOk | kernel/mm/kheap.c:22-69 | allocating keeps the blocks a tiling of the heap, aligned, large enough for a header, and coalesced |
| HeapLayout.KfreeOk | kernel/mm/kheap.c:71-105 | freeing keeps the same |
| HeapLayout.KfreeUndoesKmalloc | kernel/mm/kheap.c:22-105 | freeing what was just allocated gives back the very same layout |
| HeapRuns.HeapRunOk | kernel/mm/kheap.c:11-105 | over every run the blocks tile the heap and no two neighbours are free |
| HeapRuns.LiveDisjoint | kernel/mm/kheap.c:22-69 | live payloads are aligned, inside the heap and pairwise apart |
| HeapRuns.KmallocLive | kernel/mm/kheap.c:22-69 | an allocation adds one live payload, at least as long as asked, and keeps the others |
| HeapRuns.KmallocTakes | kernel/mm/kheap.c:40-62 | a request takes less than 24 bytes more than asked, header apart; its bytes were free, and every other free byte stays free |
| HeapRuns.KmallocIsFirst | kernel/mm/kheap.c:33-40 | the block handed out begins where the first free stretch begins that can hold it |
| HeapRuns.BothGranted | kernel/mm/kheap.c:40-62 | two requests that fit behind each other into one free stretch are both granted, the second with room for at least a header and two words |
| HeapRuns.LastWordRefused | kernel/mm/kheap.c:40-62 | with only the 20 bytes behind the first that the second needs, the first gets them and the second is refused |
| HeapRuns.KfreeLive | kernel/mm/kheap.c:71-105 | freeing takes away exactly that payload |
| HeapRuns.KfreeGives | kernel/mm/kheap.c:71-105 | freeing a live block makes exactly its bytes free, header included |
| HeapRuns.FreeIffNotLive | kernel/mm/kheap.c:11-105 | a byte of the heap is free exactly when it belongs to no live block or its header |
| HeapRuns.FreeAllRestores | kernel/mm/kheap.c:71-105 | freeing every live pointer, in any order, leaves one free block of 4 MB |
| HeapRuns.KmallocRefusesIff | kernel/mm/kheap.c:22-69 | a request is refused exactly when no stretch of free bytes can hold it with its header |
| HeapRuns.Needed32Iff | kernel/mm/kheap.c:25-31 | the size computed in 32 bits is right exactly for requests up to 0xFFFFFFEC |
| HeapRuns.GrantedLongEnoughIff | kernel/mm/kheap.c:25-38 | a granted payload is as long as asked exactly for requests up to 0xFFFFFFEC; beyond, at most 16 bytes are set aside |
| HeapRuns.HugeRequestGetsNothing | kernel/mm/kheap.c:25-38 | on the fresh heap a request of 0xFFFFFFFF bytes is granted with an empty payload |
| KHeap.Heap.constructor | kernel/mm/kheap.c:11-20 | one free block of 4 MB |
| KHeap.Heap.Kmalloc | kernel/mm/kheap.c:22-69 | the walk over linked headers, with split, computes the pure allocation and answers the payload address |
| KHeap.Heap.Kfree | kernel/mm/kheap.c:71-105 | merging with the next and the previous header in place computes the pure release; links stay inverse |
| KHeap.Heap.Split | kernel/mm/kheap.c:41-55 | a header for the rest is linked in behind the block, sizes adding up |
| Rings.OfferEffect | kernel/net/socket.c:248-263 | a producer step appends all its bytes behind those held and overwrites none of them, or changes nothing when they do not fit |
| Rings.FrontIs | kernel/net/socket.c:195-205 | the byte read at the tail is the next one of those held when the call began |
| Rings.ReleaseEffect | kernel/net/socket.c:218-219 | giving the space back keeps exactly the bytes not yet read |
| Datagrams.HeaderRoundTrip | kernel/net/socket.c:192-197 | the 8-byte header written and read back gives address, port and length |
| Datagrams.DispatchStandsFor | kernel/net/socket.c:238-273 | an arrival is queued whole exactly when its frame fits, also while a receive call is between two bytes |
| Datagrams.ReturnStep | kernel/net/socket.c:217-221 | the last step of a receive call returns the oldest datagram, cut to the caller's length, and removes all of it |
| Datagrams.EveryInterleavingIsFifo | kernel/net/socket.c:181-273 | over every interleaving of arrivals, calls and single steps: datagrams come back in order of acceptance with their source, each cut to what its call asked for; admission is all or nothing and exact |
| Datagrams.HeadFollowsTail | kernel/net/socket.c:190-221 | at every moment head = (tail at the start of the call + buffer_len) mod 4096 |
| Datagrams.CallReturns | kernel/net/socket.c:190-221 | a running call returns after a bounded number of its own steps, whatever arrives meanwhile |
| Datagrams.FinishReturns | kernel/net/socket.c:190-221 | an uninterrupted call returns the oldest datagram, cut |
| Datagrams.CallReturnsOldest | kernel/net/socket.c:181-221 | a call on a socket that holds datagrams returns the oldest, cut to the length asked for, and removes it |
| Streams.PushStandsFor | kernel/net/tcp.c:195-202 | accepted stream bytes go behind those held, all or none |
| Streams.ContinueStandsFor | kernel/net/socket.c:223-235 | a step of a stream receive keeps the stream, or returns its first bytes and releases exactly those |
| Streams.FinishReturns | kernel/net/socket.c:223-235 | a stream receive carried on without interruption returns the first bytes it wants and keeps the rest |
| Streams.ReceiveReturns | kernel/net/socket.c:181-235 | a call on a socket that holds bytes returns the first min(length, buffer_len) of them and keeps the rest |
| Streams.PushIsOffer | kernel/net/tcp.c:198-202 | counting byte by byte is the same as counting at the end |
| Sockets.Socket.constructor | kernel/net/socket.c:31-58 | an empty ring |
| Sockets.Socket.Deliver | kernel/net/socket.c:241-263 | the two copy loops compute the producer step on header and data |
| Sockets.Socket.Push | kernel/net/tcp.c:195-202 | the copy loop of TCP computes the stream append |
| Sockets.Socket.RecvDatagram | kernel/net/socket.c:190-221 | the two read loops compute the machine of `Datagrams` run without interruption, bytes past the length skipped |
| Sockets.Socket.RecvStream | kernel/net/socket.c:223-235 | the read loop computes the machine of `Streams` run without interruption |
| Sockets.DispatchUdp | kernel/net/socket.c:238-273 | the first socket in use on the port gets the datagram; every other socket is unchanged |
| TcpSender.SenderSafety | kernel/net/tcp.c:62-250 | over a whole connection: SYN first and once, at most one FIN and only bare acknowledgements after it; sequence numbers never leave a gap iff no message is overlong; data sent is what was reported as sent iff every message has at most 65515 bytes (sections 3.4 and 3.6 of RFC 9293) |
| TcpSender.NumbersFollow | kernel/net/tcp.c:62-97 | without overlong messages each sequence number is the one before plus data plus SYN or FIN, modulo 2^32, up to snd_nxt |
| TcpSender.LongMessageIsCut | kernel/net/socket.c:171-175 | 65546 bytes and one more are reported as sent; 10 bytes and one more go out, not a prefix |
| TcpSender.DataIsWhereItSays | kernel/net/tcp.c:62-97 | without overlong messages a data segment carries the bytes at the stream offset its sequence number says |
| TcpSender.EstablishedAfterHandshake | kernel/net/tcp.c:145-176 | ESTABLISHED is entered only on an acknowledgement from the peer, after our SYN was sent |
| TcpSender.StepSends | kernel/net/tcp.c:106-250 | what one step may emit in each phase of a connection, and which numbers an overlong message uses up |
| TcpGaps.SolidKeepsItsPlace | kernel/net/tcp.c:62-97 | with overlong messages too: what went out before the first of them is a prefix of all data sent, and every data segment carries the piece of it that its number says or lies behind all of it |
| TcpGaps.OverlongLeavesGap | kernel/net/tcp.c:62-97 | a message of 65516 to 65535 bytes and one byte more: only the byte goes out, numbered behind the whole message |
| TcpReceiver.AcceptedReachesReader | kernel/net/tcp.c:191-211 | bytes returned and bytes in the ring are, joined, everything stored, with arrivals between byte reads; that is the payloads accepted iff no UDP datagram was framed into the stream |
| TcpReceiver.CallsReturnWhatIsDue | kernel/net/socket.c:181-235 | over any run each receive call returns as many bytes as asked for or all that were held when it began, whichever is less, and the answers joined are what was returned |
| TcpReceiver.NextConservedIff | kernel/net/tcp.c:178-212 | one step keeps rcv_nxt equal to the bytes accepted exactly when what it takes arrived at rcv_nxt |
| TcpReceiver.ConservedIffInOrder | kernel/net/tcp.c:145-237 | rcv_nxt - (IRS + 1) is the number of bytes accepted (and one for FIN) throughout a run if and only if everything taken was in order (section 3.4 of RFC 9293) |
| TcpReceiver.DuplicateIsStoredTwice | kernel/net/tcp.c:191-204 | a repeated segment is stored twice |
| TcpReceiver.UdpIsReadAsStream | kernel/net/socket.c:238-273 | a UDP datagram for the port of an established connection: its header and data are what the stream reader gets, with nothing accepted from TCP |
| TcpReceiver.RefusedIsAsLost | kernel/net/tcp.c:191-212 | a segment in order or not leaves no trace exactly when it is empty or does not fit into the ring: the rest of the run is as if it had been lost |
| TcpReceiver.EndToEnd | kernel/net/tcp.c:62-250 | two ends, overlong messages included: with loss, repetition and reordering on the way, as long as what is taken is in order, the receiver gets a prefix of what was put on the wire before the first overlong message, all of it if there was none; that is what was reported as sent iff every message has at most 65515 bytes |
| TcpAcks.StepAnswers | kernel/net/tcp.c:106-250 | which segment each step emits, if any: SYNACK, ACK, data or FINACK, stamped with the acknowledgement, window and ports of the state after the step |
| TcpAcks.AcksCountBytes | kernel/net/tcp.c:145-237 | over any run in which what is taken is in order, every acknowledgement sent is IRS + 1 plus the bytes accepted, and one for a FIN |
| TcpAcks.StepStates | kernel/net/tcp.c:106-250 | each step leads to the state of the diagram in section 3.3.2 of RFC 9293, but for what the code leaves out; when the block is freed; what addresses and ports become |
| TcpAcks.StrangersAreIgnored | kernel/net/tcp.c:128-142 | a segment for another port or, but for a listener, from another peer changes nothing and is not answered |
| TcpAcks.HandshakeSyncs | kernel/net/tcp.c:144-176 | SYN, SYNACK and ACK bring a connecting and a listening end into ESTABLISHED, each expecting what the other sends next |
| TcpAcks.MessageArrives | kernel/net/tcp.c:178-212 | between two ends in sync a message that fits is stored, acknowledged with the number the sender has reached, and leaves them in sync; one that does not fit is not stored or answered |
| TcpAcks.TalkArrives | kernel/net/tcp.c:178-212 | a sequence of messages that fit into the ring together all arrive in order |
| TcpAcks.OrderlyClose | kernel/net/tcp.c:106-250 | FIN, ACK, FIN, ACK bring both ends through FIN-WAIT-1, CLOSE-WAIT, FIN-WAIT-2 and LAST-ACK to be freed |
| TcpWire.SealedReadsBack | kernel/net/tcp.c:62-97 | the other end reads from the bytes the very segment that was meant; acknowledgement, window, header length and flag bits lie where section 3.1 of RFC 9293 has them |
| TcpWire.OptionsAreSkipped | kernel/net/tcp.c:190-192 | options in front of the data are skipped as the header length says |
| TcpWire.OtherEndChecksIff | kernel/net/tcp.c:82-88 | a segment checks at the other end, which goes by the source of the IP header, iff that and the control block's address are equal modulo 65535 |
| TcpWire.FrameChecksIff | kernel/net/net.c:62-92 | the same, with addresses and segment taken from the frame |
| TcpWire.PassiveNeverChecks | kernel/net/socket.c:119-132 | with address 0, as after listening, no segment checks at the other end of 10.0.2.15 |
| TcpWire.ConnectionChecksIff | kernel/net/tcp.c:82-97 | whatever a connection emits at any moment checks iff the address its control block was bound to last, by connecting or binding, is that of the header, modulo 65535 |
| TcpWire.AddressIs | kernel/net/socket.c:69-76 | the address of a control block is the one bound last, whatever else happens |
| TcpWire.Build | kernel/net/tcp.c:63-88 | the buffer built is the header, the data and the checksum in place |
| TcpLayer.Layer.NewPcb | kernel/net/tcp.c:16-28 | the first empty place of the table gets a zeroed control block, or none |
| TcpLayer.Layer.SendSegment | kernel/net/tcp.c:62-97 | emits one packet and advances snd_nxt by data and SYN or FIN |
| TcpLayer.Layer.Close | kernel/net/tcp.c:106-120 | computes the pure close |
| TcpLayer.Layer.Bind | kernel/net/socket.c:64-76 | computes the pure bind: address and port of the control block |
| TcpLayer.Layer.Sendto | kernel/net/socket.c:171-178 | computes the pure send, the length cut to 16 bits, and answers the whole length |
| TcpLayer.Layer.Process | kernel/net/tcp.c:144-250 | the switch computes the pure state machine, ring and packets included, and says whether the block is freed |
| TcpLayer.Layer.Receive | kernel/net/tcp.c:122-250 | the first matching control block takes the segment; no other control block or socket changes |
| Checksum.Compute | kernel/net/net.c:140-158 | the loop computes the complement of the folded word sum; no sum of up to 65535 bytes overflows 32 bits |
| Checksum.FoldKeeps | kernel/net/net.c:152-155 | folding ends and keeps the value modulo 65535, and only 0 folds to 0 (section 1 of RFC 1071) |
| Checksum.WordSumBound | kernel/net/net.c:140-151 | the bound behind the absence of overflow |
| Checksum.StoredVerifies | kernel/net/net.c:82-86 | a buffer with its checksum stored checks to 0 |
| Checksum.CorruptionNoticedIff | kernel/net/net.c:140-158 | replacing one word of a valid buffer goes unnoticed exactly when old and new word are equal modulo 65535 and not all words are 0 afterwards |
| Checksum.SwappedChecksum | kernel/net/net.c:140-158 | swapping the bytes of all words swaps the bytes of the result, odd lengths included (section 2 of RFC 1071) |
| Packets.SendIpv4 | kernel/net/net.c:62-92 | the frame handed to the driver, byte by byte, with a header that checks to 0 |
| Packets.HandleIcmp | kernel/net/net.c:181-207 | an echo request is turned into its reply in place, with the length handed to the driver; anything else is left alone |
| Packets.TotalLengthIff | kernel/net/net.c:77 | the total length field is right exactly for payloads of up to 65515 bytes |
| Packets.HeaderReadsBack | kernel/net/net.c:73-84 | what a receiver reads of the header: version 4, five words, 64 hops, protocol, length, addresses, a valid checksum |
| Packets.EchoReplyMeaning | kernel/net/net.c:181-207 | in the reply addresses are exchanged, both checksums hold, the type is 0, the data is as sent |
| Packets.TcpChecksum | kernel/net/tcp.c:31-60 | the checksum over pseudo-header and segment (section 3.1 of RFC 9293) |
| Packets.PseudoHeaderIs | kernel/net/tcp.c:31-44 | the twelve bytes of the pseudo-header |
| Packets.SentSegmentVerifies | kernel/net/tcp.c:82-88 | a segment with its checksum in place checks to 0 with its pseudo-header |
| Frames.LoansAreSafe | kernel/mm/pmm.c:33-152 | over every run: frames on loan are above 1 MB, outside the kernel image and offered by the map; the counter is the number of frames in use; in use means withheld or on loan |
| Frames.ServesOne | kernel/mm/pmm.c:107-120 | a request for one frame is refused exactly when every frame counted and below 1 GB is in use; otherwise the lowest that is not is lent |
| Frames.ServesSeveral | kernel/mm/pmm.c:122-142 | contiguous frames handed out are the lowest run of so many that were all free; nothing is handed out exactly when the count is not positive or no run exists |
| Frames.ServesGiveBack | kernel/mm/pmm.c:146-152 | giving back a frame keeps the books |
| Frames.FreeUndoesAlloc | kernel/mm/pmm.c:107-152 | freeing a frame just allocated restores every bit and the counter |
| Frames.TakeRunSound | kernel/mm/pmm.c:131-134 | taking a run sets exactly its bits and keeps the counter exact |
| Frames.OfferedInsideIff | kernel/mm/pmm.c:63-69 | an offered frame lies wholly inside its region exactly when rounding the start up does not wrap |
| Frames.InsideIsOffered | kernel/mm/pmm.c:57-69 | without wrap-around a region offers exactly the frames wholly inside it |
| Frames.KernelFrameIff | kernel/mm/pmm.c:86-94 | the frames withheld for the kernel are those with a byte of its image |
| Frames.WithheldIff | kernel/mm/pmm.c:47-94 | a frame is withheld exactly when it is not offered, lies below 1 MB or has a byte of the kernel in it |
| Frames.CountedIff | kernel/mm/pmm.c:40-46 | which frames are counted, told from the sizes |
| Frames.OfferedWithoutMapIff | kernel/mm/pmm.c:73-81 | without a map the memory above 1 MB is offered |
| Frames.OffersForeignFrame | kernel/mm/pmm.c:63-69 | a region at 0xFFFFF800 that ends behind 4 GB offers frame 300 |
| Pmm.Manager.Init | kernel/mm/pmm.c:33-103 | exactly the frames not offered, below 1 MB or of the kernel image are in use, and they are counted |
| Pmm.Manager.AllocFrame | kernel/mm/pmm.c:107-120 | the scan computes the pure allocation of the lowest free frame |
| Pmm.Manager.AllocContiguous | kernel/mm/pmm.c:122-142 | the scan finds the lowest run of that length, or answers 0 because there is none |
| Pmm.Manager.FreeFrame | kernel/mm/pmm.c:146-152 | computes the pure release |
| Paging.MapPageTranslates | kernel/mm/paging.c:116-141 | one round maps its page, writable and open to ring 3, and changes no other mapping, with tables kept in frames of their own |
| Paging.WithTableTidy | kernel/mm/paging.c:125-134 | a new table lies in a frame of its own and changes no translation |
| Paging.AllocAvailable | kernel/mm/pmm.c:107-120 | allocation fails exactly when nothing is available and otherwise uses up one frame |
| PagingRuns.MapMemoryIff | kernel/mm/paging.c:113-142 | mapping n pages keeps tables in frames of their own exactly when as many frames are available as tables are missing, and then maps every page of the stretch, writable and open to ring 3, and no other |
| PagingRuns.MapBytesIff | kernel/mm/paging.c:113-142 | after mapping size bytes that were unmapped, each of them is found where it should be exactly when both addresses lie equally in their pages and the rest of the last page suffices |
| PagingRuns.TailLeftOut | kernel/mm/paging.c:113-142 | 4096 bytes from 0x10000001 on: the last byte stays unmapped |
| PagingRuns.WrappedSizeMapsNothing | kernel/mm/paging.c:114-117 | a size of 0xFFFFF001 maps nothing |
| PagingRuns.ReachesIff | kernel/mm/paging.c:114-115 | when the pages counted reach: the size does not wrap when rounded up, and start and length, each within its page, fit into one |
| PagingInit.StartMaps | kernel/mm/paging.c:20-74 | the direct map is complete, each page read-only exactly if it starts in text or constants and open to ring 3, and nothing else is mapped, exactly when there is a frame for the directory and one per table |
| PagingInit.ReachesEveryFrameIff | kernel/mm/paging.c:34-74 | every frame the allocator may hand out is reachable at 0xC0000000 plus its address exactly when the memory size without its whole 4 GB still covers them |
| PagingInit.NothingMappedAt4Gb | kernel/mm/paging.c:34-74 | with exactly 4 GB nothing at all is mapped |
| Sbrk.SbrkIff | kernel/proc/syscall.c:107-129 | a call that does not shrink, with any increment: if the new end rounds up within 32 bits, every heap page gets a frame of its own, writable and open to ring 3, exactly when there are enough free frames, and then no mapped page is mapped anew; otherwise nothing is mapped and the end wraps |
| Sbrk.SbrkRemapsIff | kernel/proc/syscall.c:107-129 | with a shrink before, a call of any sign that finds its frames leaves every mapped page alone exactly when it adds no page or starts where the heap last ended |
| Sbrk.GrowShrinkGrow | kernel/proc/syscall.c:107-129 | from an empty heap with frames to spare, 4096, -4096, 4096: the first heap page has another frame, and its old one stays in use |
| Sbrk.HeapAndFree | kernel/proc/syscall.c:107-129 | heap pages and frames still available are together no more than the frames of 1 GB |
| Sbrk.SbrkRunKeeps | kernel/proc/syscall.c:107-129 | over every run of calls that do not shrink |
| SbrkRuns.CallsKeep | kernel/proc/syscall.c:107-129 | over every run that grows and shrinks and finds its frames: the heap is whole up to its highest end, and every frame used up is that of a page added there, of a table, or one lost for a page mapped again |
| SbrkRuns.NothingLostIff | kernel/proc/syscall.c:107-129 | nothing is lost exactly when no call grows over pages that a shrink left mapped |
| SbrkRuns.UpAndDown | kernel/proc/syscall.c:107-129 | n times down and up a page: n frames are lost |
| Sbrk.FreshHeap | kernel/proc/task.c:98-100 | after `init_paging` the heap at 256 MB is empty and all above it up to the kernel is unmapped |
| Sbrk.GrowPagesEffect | kernel/proc/syscall.c:122-125 | the pages added have frames that were free and are pairwise different, writable and open to ring 3; no other page changes |
| AddressSpaces.AddressSpace.MapMemory | kernel/mm/paging.c:113-142 | the loop computes the pure mapping, 32-bit arithmetic included |
| AddressSpaces.AddressSpace.InitPaging | kernel/mm/paging.c:20-74 | the loops compute the pure start of paging |
| AddressSpaces.AddressSpace.Sbrk | kernel/proc/syscall.c:107-129 | the loop computes the pure growth and answers the old end |
| Scheduling.ChoiceIsNext | kernel/proc/task.c:124-129 | the choice is the next task round the list that is not dead, found within one round |
| Scheduling.ScheduleEffect | kernel/proc/task.c:117-138 | a tick saves the stack pointer of the task left, runs the one chosen on its own kernel stack with its stack pointer, and changes nothing else of any task |
| Scheduling.KernelStackFollows | kernel/proc/task.c:134-135 | from the first tick on the kernel stack set is that of the current task |
| Scheduling.CreateEffect | kernel/proc/task.c:42-114 | a new task stands at the end, ready, with a number nobody has and its name cut to 31 bytes; the others are as they were |
| Scheduling.NumbersStayDifferent | kernel/proc/task.c:42-44 | over every run no two tasks have the same number |
| Scheduling.ExitEffect | kernel/proc/task.c:147-152 | an exit kills the current task and no other, unless it is PID 1 |
| Scheduling.ExitedNeverRuns | kernel/proc/task.c:117-152 | a task that has exited is never chosen again unless somebody marks it |
| Scheduling.MarkEffect | kernel/net/socket.c:184-188 | marking changes one state and nothing else |
| Scheduling.ReachableSound | kernel/proc/task.c:18-159 | in every reachable state PID 1 heads the list and is alive, so the search ends |
| Scheduling.ResumesWhereLeft | kernel/proc/task.c:117-138 | whatever happens in between, a task chosen again gets back the stack pointer saved when it was left |
| Scheduling.StartsWhereCreated | kernel/proc/task.c:86-111 | a new task starts with the stack pointer it was created with |
| SchedulingRounds.RoundVisitsEachOnce | kernel/proc/task.c:117-138 | with k tasks alive, k consecutive calls run each of them exactly once |
| SchedulingRounds.BoundedWaiting | kernel/proc/task.c:106-154 | with tasks created, exiting, sleeping and waking in any way, a task that stays alive is chosen within as many ticks as there are live tasks in front of it, new tasks and dead tasks woken |
| SchedulingRounds.TickWait | kernel/proc/task.c:117-138 | a tick that chooses another task shortens the wait by one |
| SchedulingRounds.WaitBound | kernel/proc/task.c:117-138 | the wait is at most the number of live tasks |
| Tasks.FirstFrameRestores | kernel/proc/task.c:58-84 | restoring from the first stack enters the program in its ring, with interrupts on |
| Tasks.Stack.Prepare | kernel/proc/task.c:53-86 | the pushes leave exactly that frame |
| Tasks.Scheduler.Init | kernel/proc/task.c:18-38 | the kernel task alone, PID 1 |
| Tasks.Scheduler.CreateTask | kernel/proc/task.c:42-114 | walking to the end of the links appends the new task |
| Tasks.Scheduler.ScheduleInternal | kernel/proc/task.c:117-138 | saving, searching along the links with wrap-around and switching computes the pure choice |
| Tasks.Scheduler.TaskExit | kernel/proc/task.c:147-152 | marks the current task dead unless it is PID 1 |

## Left out

- Hardware and assembly: port I/O, ATA timing, network and sound cards, video, keyboard, mouse, PIC, GDT, IDT, TSS, boot code, panic.
- Graphical interface, shell and userland programs: user interface or thin wrappers.
- ext2, ELF loading, ramdisk mode and the probing of four drives in `pafs_init`: one PAFS disk is given; ext2 reading would repeat PAFS reading more simply.
- VFS paths, mounts, symbolic links and node objects: calls go straight to the PAFS operations with an inode number.
- Locks and interrupt flags: every file system, heap, frame and paging call is one step. Interleaving is modelled for the socket ring only, with one consumer per socket.
- Images made by the format script start with root size 0 but one entry present; every run here starts from `pafs_format`.
- Blocking: a receive call on an empty ring waits in the model by not starting; the sleeping state does not keep a task from being scheduled in the code either.
- TCP retransmission, reordering, windows, RST and timers: not in the code. Connecting or listening again on a used control block is not modelled, nor is any use of one after it is freed.
- Memory of control blocks, packets and tasks comes from the heap in the code; here allocation of objects does not fail.
- Multi-task `sbrk`: all tasks share one directory and one heap base, so isolation is not provided by the code.
- Strings are NUL-terminated byte sequences, as `strcmp` on them requires; the Dafny type is `CString`.
- PafsExact.GoodCreate: for good states (volumes without holes in which names are unique and every live inode is bound once) and names of at most 27 bytes; `PafsMap.CreateRefines` and `PafsExact.CreateExactIff` cover the others.
- PafsExact.GoodWrite: the same; `PafsMap.WriteRefines` and `PafsExact.WriteExactIff` cover the others.
- PafsExact.GoodVfsWrite: for good states and offsets within the file; `PafsMap.VfsWriteRefines` covers the others.
- PafsExact.GoodDelete: for good states and exact deletions; `PafsMap.DeleteRefines` and `PafsExact.DeleteFilesIff` cover the others.
- PafsExact.GoodRead: for good states; `PafsMap.ReadRefinesIff` covers the others.
- PafsTree.DropEffect: for directories with unique names; `PafsTree.DeleteExactIff` says when a removal is exact without.
- PafsFiles.VfsWriteSplice: for offsets within a file without holes; `PafsGaps.VfsWriteContents` covers the others.
- PafsReads.ReadRunIsSlice: for read sizes below 2^32 - 7168, which a size that is not negative keeps to; beyond, a read may wrap (`PafsReads.VfsReadIsSlice`).
- PafsReads.WriteRunAppends: for files without holes.
- PafsCrash.DeleteCrashIff: one sector write is one step; a sector half written is not modelled.
- PafsMidway.CreateCrashIff: the same; a create that fails writes nothing.
- PafsCounts.CountNeverLow: for runs shorter than the range of the 32-bit counter, which an operation may raise by at most one.
- Descriptors.Files.SysWrite: for sizes that are not negative; a negative size reads behind the caller's buffer.
- Pafs.Volume.CreateFile: the parent is a PAFS inode number below 128; the shell may pass an ext2 inode number, which the table access does not survive.
- KHeap.Heap.Kmalloc: for requests up to 0xFFFFFFEC bytes; beyond, the size wraps in 32 bits (`HeapRuns.GrantedLongEnoughIff`) and a header may be laid over the one it is cut from, which separate header objects do not show.
- KHeap.Heap.Kfree: for the null pointer and payload addresses of blocks; the code checks nothing about other pointers.
- Pafs.Volume.ReadFile: the buffer is as long as the limit says.
- Packets.SendIpv4: the answer of ARP is a parameter; the total length field keeps the low 16 bits, as the code does.
- Packets.HandleIcmp: for packets that hold the lengths they announce and at least 4 bytes of ICMP; the code computes its length from the header unchecked, and writes type and checksum even into a shorter one.
- Sockets.Socket.RecvDatagram: source address and port are returned always; the code stores them only into an address argument that is large enough.
- Sockets.Socket.RecvStream: the two loads of `buffer_len` in one conditional expression are one step.
- TcpWire.Build: for at most 65515 bytes of data; beyond, the length wraps in 16 bits and the data is copied behind the end of the buffer. `Tcp.Emit` models only that no segment goes out and the numbers move.
- TcpSender.StepSends: for an overlong message the at most 19 bytes that the code still hands to IP, less than a header, are no segment here, and what it overwrites behind its block is not modelled.
- TcpReceiver.EndToEnd: for fewer than 2^32 sequence numbers used for data, so that a position and its number correspond; that segments above 65495 bytes of data arrive whole is the network's part, since their IP length is wrong.
- TcpLayer.ControlBlock: every control block has its socket, as connect and listen make them; the tests for a missing socket are not modelled, nor are the ARP request and the waits of `socket_connect`, the free-port counter, and waking the waiting task.
- TcpLayer.Layer.Sendto: for lengths whose low 16 bits are at most 65515, for the same reason.
- TcpLayer.Layer.SendSegment: for at most 65515 bytes, for the same reason; the segment is handed to IP as bytes; ARP resolution and the Ethernet frame are those of `Packets.SendIpv4`.
- Frames.LoansAreSafe: clients give back only frames they were given; the free call of the code checks only that the frame is in use.
- PagingRuns.MapMemoryIff: for stretches of pages that do not wrap round 4 GB.
- PagingRuns.MapBytesIff: the same, and for bytes none of which was mapped before.
- SbrkRuns.CallsKeep: for calls that find their frames and ends not below the first page of the heap.
- Sbrk.SbrkRemapsIff: for calls that find their frames; without them a page gets frame 0 (`Sbrk.SbrkIff`).
- Pmm.Manager.Init: the memory map is a list of entries; stepping through it by entry sizes is not modelled.
- AddressSpaces.AddressSpace.MapMemory: physical memory is written page by page as values; accessed and dirty bits and the TLB are not modelled.
- Tasks.Scheduler.CreateTask: the two stacks are prepared by `Tasks.Stack.Prepare`; descriptor table and heap bounds of a task are those of `Descriptors` and `Sbrk`.
