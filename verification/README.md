# Jnix, modelled and proved

Jnix is a small i386 kernel. This project models the subsystems of it that carry
invariants over mutable state, and proves what they keep over whole runs:

- **Memory.** The frame allocator over `mem_map` (`Frames`), copy-on-write address spaces
  on top of it (`Paging`, `CowInvariant`, `CowRefinement`, `CowRuns`, `AddressSpaces`), what
  the processor makes of them (`Mmu`, `ForkWords`, `AccessRights`), the kernel map from boot
  into every child (`BootPaging`, `KernelMap`) and the bucket allocator with its free lists inside
  the pages (`BucketHeap`, `BucketSteps`, `BucketPages`, `Kmalloc`). `KernelMemory` runs the
  bucket allocator and the paging code on one machine, with `CowAside` for what the one may
  do beside the other, and `CowFailures` has runs from boot on which the paging code fails.
- **Network.** The Internet checksum (`Checksum`), sending and fragmenting over IPv4
  (`Ip`, `Fragmentation`), UDP from sender to receiver (`Udp`, `UdpDrops`), dotted addresses
  (`InetAton`) and the ARP cache (`Arp`, `ArpCache`).
- **Files.** The directory tree, path resolution, mkdir and mount (`Dentries`, `PathWalk`,
  `MountWalk`, `Vfs`), and descriptor and inode use counts (`FileTable`).
- **The rest of the core.** Printing and reading numbers (`Numerals`, `NumberText`), the text consoles
  (`Tty`, `TtyConsole`), and the thread ring with its round-robin step (`Threads`).

Code that works in place is modelled in place: classes over arrays and linked objects,
methods with the source's loops. Each method is proved equal to a function of the old state,
and the theorems are about those functions, over every input or every run. `dafny verify
dfyconfig.toml` checks everything.

The model follows the code where the code and the intention differ. Each such place has a
theorem that says exactly when the intended property holds:

- `get_free_page` starts the count at 1 and its callers add one per reference
  (mm/page.c:15, arch/i386/page.c:25), so a mapped frame's count is its references plus one
  (`CowRuns.ReachableCounts`), the in-place upgrade of `do_wp_page` is never taken
  (`CowRuns.ReachableWriteFaultCopies`), and a fault on a frame of count 2 leaks it
  (`CowRuns.LastSharerLeaks`). A fork after which both sides write is enough
  (`CowFailures.BothWritersLeak`).
- CR0.WP is never set (kernel/init/page.asm:26-28), so supervisor stores pass through
  write-protected entries. The runs of `CowRuns` have these stores; one is private, and the
  step like that of the eager machine, exactly if no other slot shows the frame or the word does
  not change (`CowRefinement.SupervisorStoreIsPrivate`, `CowRuns.StepRefines`). After a fork it
  shows in the other space (`CowFailures.SupervisorStoreShows`).
- A table that a kernel thread's fault installed stays closed to users even after `do_wp_page`
  (`AccessRights.WpFaultAccess`), but a fork opens it in the child (`AccessRights.ChildMayWrite`).
- `do_no_page` always installs a fresh table (arch/i386/page.c:46-49) and so drops the
  region's other pages (`CowRuns.MissingFaultKeepsRest`, `CowFailures.SecondFaultRun`).
- `mem_map` is rounded up to 4 MB regions and can offer frames that are not there
  (`BootPaging.FreeFramesAreRam`); 2 GB or more of memory makes the signed size negative
  (`BootPaging.PageTableCountBounded`).
- An odd last byte is added as the low byte of a big-endian word (net/ip.c:160), which
  differs from RFC 1071 unless it is zero (`Checksum.ChecksumIsRfc1071`); sender and
  receiver agree all the same (`Udp.RoundTrip`).
- The fragment loop charges every header against the payload (net/ip.c:52-53), so no
  datagram above 1480 bytes arrives (`Fragmentation.SendDelivers`), and some sizes make the
  copied length wrap (`Fragmentation.WildCopyWhen`).
- A UDP checksum of 0 is sent as 0 (`Udp.ZeroIsTransmitted`, `Udp.ZeroSentForFFDA`).
- `udp_rcv` takes the UDP length from the IP header as it comes (net/udp.c:35-43): above 4084
  bytes the allocator panics (`Udp.LongLengths`), and below 8 bytes the length of the answer
  wraps (`Udp.EchoedWhen`).
- `isxdigit` in the kernel's ctype header compares lower-case letters with 'F', so
  `inet_aton` reads a hexadecimal numeral exactly if it has no lower-case letter
  (`InetAton.HexReadsBack`).
- `hash_put` writes the head's MAC when it finds the address further down
  (net/arp.c:57, `Arp.PutUpdates`); `hash_get` runs off a non-empty chain on a miss
  (net/arp.c:79-82, `Arp.GetLooksUp`, `Arp.MissBehindHead`); address 0 is counted but never found
  (`Arp.PutZeroMiscounts`).
- Output to any terminal displays that terminal, whichever one is current
  (`Tty.OutputStealsDisplay`), and neither typing nor backspacing scrolls a window back
  up (`Tty.CharShown`, `Tty.DownThenTyping`). A terminal's area is not a whole number of rows, so on its last row the
  window shows cells of the next terminal (`Tty.OverhangsOnRow44`).
- A miss in a mounted root reports success without an answer (fs/rootfs/super.c:86-89):
  between other components the name is then passed over (`PathWalk.MissIsSkipped`), in front
  it follows an uninitialised pointer (`PathWalk.DotBefore`), and at the end `namei` succeeds
  with NULL (`PathWalk.MissingNames` has all three). Directories made by `sys_mkdir` have no inode operations at all, so a miss there
  reads through NULL. `PathWalk.ExistingPathsResolve` covers the paths that have no miss.
- `sys_mkdir` starts relative paths from the root (fs/file_op.c:375), `namei` from the working
  directory, and a path that uses the new name on the way may not resolve afterwards
  (`PathWalk.MkdirThenNamei`, `PathWalk.RelativeMkdirElsewhere`, `PathWalk.OwnNameOnTheWay`).
  A mount on a path that enters the covered directory on the way does not resolve either
  (`MountWalk.MountThenNamei`, `MountWalk.OwnMountOnTheWay`).
- `sys_open` of a missing file reads through NULL (fs/file_op.c:89), since `namei` reports no
  error. Only the root of a file system has operations, and opening any other directory reads
  through NULL with the counts half updated (`FileTable.OpenBalances`,
  `FileTable.MadeDirectoryStops`).
- `sys_close` leaves the descriptor's inode set, so descriptors are never reused
  (`FileTable.DescriptorsRunOut`, `FileTable.PairsRunOut`).

Where a run reaches a read through a null or an uninitialised pointer, or a panic, the model
gives that outcome a name and says nothing about what the machine does next.

## Model

| member | source | states |
|---|---|---|
| `Frames.FirstFree` | mm/page.c:11-12 | the frame the scan stops at is unused and every lower one is in use |
| `Frames.Machine.GetFreePage` | mm/page.c:9-22 | takes exactly the lowest unused frame, sets its count to 1, zeroes it and returns its address; fails exactly when every frame is used |
| `Frames.Machine.FreePage` | mm/page.c:25-30 | the frame's count drops by one (32-bit wrap) and every flag but MP_USE is set, so only MP_USE becomes clear |
| `Frames.TakenIsFresh` | mm/page.c:12-17 | an allocation marks one frame that was unmarked and changes no other record |
| `Frames.TakenUsesUp` | mm/page.c:11-17 | an allocation succeeds if and only if a frame is unused, and then one less is |
| `Frames.ReleaseUndoesTake` | mm/page.c:9-30 | giving back the frame just taken leaves it unused with count 0, and every other record as it was |
| `CowInvariant.RefsBound` | mm/page.c:15-15 | a frame has at most 2^30 page-table references, so its 32-bit count cannot wrap |
| `CowInvariant.ChangeEntry` | arch/i386/page.c:85-90 | any change of one page-table word keeps the paging invariant when the counts move by the references dropped and made |
| `CowInvariant.SharersProtected` | arch/i386/page.c:86-87 | two different entries naming one frame are both write-protected |
| `CowInvariant.InstallTableInv` | arch/i386/page.c:69-72 | hanging a fresh table into a directory keeps the invariant |
| `CowInvariant.ShareEntryInv` | arch/i386/page.c:83-95 | sharing one entry between two tables keeps the invariant |
| `CowInvariant.WpFaultInv` | arch/i386/page.c:9-27 | do_wp_page keeps the invariant in both branches, and where every count is one above the references the in-place branch is not the one taken |
| `CowInvariant.NoPageInv` | arch/i386/page.c:38-53 | do_no_page keeps the invariant |
| `CowInvariant.StoreInv` | arch/i386/page.c:16-16 | a store through a writable user entry keeps the invariant: it cannot hit a table, a directory or a shared frame |
| `CowRefinement.StoreAgrees` | arch/i386/page.c:83-90 | a harmless store changes only the writer's page, in every address space |
| `CowRefinement.StoreReaches` | arch/i386/page.c:83-90 | a store through any entry changes that word in exactly the slots that show the same frame |
| `CowRefinement.SupervisorStoreIsPrivate` | kernel/init/page.asm:26-28 | a store, which write protection does not stop in the supervisor, changes no other slot if and only if no other slot shows the frame or the word already had the value |
| `CowRefinement.WritableIsHarmless` | arch/i386/page.c:83-90 | no other slot shows the frame of a writable entry |
| `CowFailures.SupervisorStoreShows` | kernel/init/page.asm:26-28 | from boot with five unused frames a fork is reached after which every supervisor store of a new value into the parent's page shows in the child |
| `CowRefinement.WpFaultAgrees` | arch/i386/page.c:9-27 | do_wp_page changes nothing that any address space shows |
| `CowRefinement.NoPageAgrees` | arch/i386/page.c:38-53 | do_no_page leaves every slot outside the faulting 4 MB region as it was |
| `CowRefinement.ShareEntriesRow` | arch/i386/page.c:83-95 | after n rounds of the inner loop the destination shows the source's first n pages of the region and nothing else changed |
| `CowRefinement.CopyPageCopies` | arch/i386/page.c:74-107 | copy_page gives the destination the source's view and changes no other view, the source's included |
| `CowRuns.StepRefines` | arch/i386/page.c:9-107 | each of new directory, fork, write fault, missing-page fault, store of user or supervisor, frame taken and frame returned keeps the invariant, and acts on the views as an eager copier would if and only if it is not a store of a new value into a frame that another slot shows |
| `CowRuns.RunRefines` | arch/i386/page.c:9-107 | over any interleaving of these steps the invariant holds, and as long as the stores are harmless each address space reads as if every fork had copied every page |
| `CowRuns.UserStoresHarmless` | arch/i386/page.c:9-107 | in any run whose stores are through writable entries, as those of user programs are, all of them are harmless |
| `CowRuns.ReachableCounts` | arch/i386/page.c:15-27 | in every reachable state the count of a mapped frame is exactly its number of references plus one, and a writable entry is the only one naming its frame |
| `CowRuns.WpFaultWritable` | arch/i386/page.c:15-24 | after do_wp_page the entry is writable; it names the old frame if the count was 1 and otherwise the lowest free one |
| `CowRuns.ReachableWriteFaultCopies` | arch/i386/page.c:15-27 | in every reachable state the test for count 1 fails, so do_wp_page always copies |
| `CowRuns.LastSharerLeaks` | arch/i386/page.c:22-26 | after a write fault the old frame stays in use; no entry names it any more if and only if its count was 2, and it then stays at count 1 |
| `CowFailures.ForkShares` | arch/i386/page.c:74-107 | after the fork of a space with one page both entries name that page, no third does, and both are write-protected |
| `CowFailures.ChildFault` | arch/i386/page.c:20-27 | the child's write fault leaves the parent's entry as the only one that names the page |
| `CowFailures.BothWritersLeak` | arch/i386/page.c:9-107 | the run new directory, missing-page fault, new directory, fork, write fault of the child, write fault of the parent ends with a frame in use at count 1 that nothing names |
| `CowFailures.BothWritersRun` | arch/i386/page.c:9-107 | from boot with seven unused frames that run is legal and reaches no panic |
| `CowRuns.MissingFaultKeepsRest` | arch/i386/page.c:44-53 | do_no_page only adds a zero page to the view if and only if the region had no table or its table maps nothing else |
| `CowRuns.SecondFaultDropsFirst` | arch/i386/page.c:46-49 | two faults in one 4 MB region: the second removes the page the first had mapped |
| `CowFailures.SecondFaultRun` | arch/i386/page.c:38-62 | from boot with five unused frames that run is legal and reaches no panic |
| `AddressSpaces.PageTables.CreateDir` | arch/i386/page.c:64-67 | a fresh frame becomes an empty address space; the other views stay |
| `AddressSpaces.PageTables.InstallTable` | arch/i386/page.c:69-72 | in-place create_table, equal to the specification on RAM and mem_map |
| `AddressSpaces.PageTables.ShareEntry` | arch/i386/page.c:83-95 | in-place inner-loop body, equal to the specification |
| `AddressSpaces.PageTables.ShareTable` | arch/i386/page.c:83-95 | the inner loop, equal to the specification |
| `AddressSpaces.PageTables.CopySlot` | arch/i386/page.c:78-100 | the outer-loop body, equal to the specification, or no frame was left |
| `AddressSpaces.PageTables.CopyPage` | arch/i386/page.c:74-107 | the whole of copy_page in place, equal to the specification on RAM and mem_map, the kernel half included: new views are the old ones with the destination's replaced by the source's |
| `AddressSpaces.PageTables.UnsharePage` | arch/i386/page.c:20-27 | the copying branch in place |
| `AddressSpaces.PageTables.WpPage` | arch/i386/page.c:9-27 | both branches of do_wp_page in place, equal to the specification |
| `AddressSpaces.PageTables.DoWpPage` | arch/i386/page.c:9-36 | do_wp_page for an address: the entry becomes writable and no view changes; if the table is open to users a user program can now write there |
| `AddressSpaces.PageTables.MapPage` | arch/i386/page.c:44-53 | points an entry at a fresh frame and counts the reference |
| `AddressSpaces.PageTables.NoPage` | arch/i386/page.c:38-53 | do_no_page in place, equal to the specification |
| `AddressSpaces.PageTables.DoNoPage` | arch/i386/page.c:38-62 | do_no_page for an address: the region's other pages go, a zero page comes, other views stay; the address leads to the lowest unused frame, for users exactly if the thread is not the kernel's |
| `BootPaging.PageTableCountBounded` | arch/i386/init.c:74-79 | the table count is at most 224 if and only if mem_size is above -8388607, and below HIGH_MEMORY it is mem_size in 4 MB regions rounded up |
| `BootPaging.ResetPaging` | arch/i386/init.c:81-117 | the nested loops fill every table and directory slot, and mem_map is built with exactly the low frames marked; no other frame outside mem_map is written |
| `BootPaging.KernelMapIsLinear` | arch/i386/init.c:88-99 | with the boot directory every physical address a below the mapped limit is seen at PAGE_OFFSET + a by the supervisor, and by no user program |
| `BootPaging.KernelMapSeen` | arch/i386/init.c:88-99 | so it is with any directory that has the same words in slots 768 to 1023 |
| `BootPaging.ReservedFramesMarked` | arch/i386/init.c:103-117 | page tables and mem_map do not overlap and every frame holding them is marked used |
| `BootPaging.UsedFramesStay` | mm/page.c:9-30 | no run of get_free_page and free_page hands out a frame that was in use and not held |
| `BootPaging.BootFramesNeverHandedOut` | arch/i386/init.c:103-117 | after reset_paging no run ever hands out a frame of the directory, the tables or mem_map |
| `BootPaging.FreeFramesAreRam` | arch/i386/init.c:76-117 | for every memory size whose tables fit: mem_map offers a frame beyond the end of memory if and only if memory exceeds 4 MB, is below HIGH_MEMORY and is not a multiple of 4 MB |
| `BootPaging.ResetPagingBoots` | arch/i386/init.c:62-118 | what reset_paging leaves is a state the paging runs start from |
| `ForkWords.ForkKernelHalf` | arch/i386/page.c:102-105 | if the boot directory is in use and has no other role, copy_page gives the child its words in slots 768 to 1023 |
| `ForkWords.ForkWords` | arch/i386/page.c:78-101 | after copy_page the child has a table open to users exactly where the parent has a table, both spaces have each entry of the parent without write permission, and all other user words are as before |
| `ForkWords.SharedFramesMarked` | arch/i386/page.c:88-89 | every frame the two spaces share is marked MP_COW in mem_map |
| `KernelMap.BootIsSafe` | arch/i386/init.c:81-117 | reset_paging leaves the boot directory and its tables in use and without another role |
| `KernelMap.RunKeepsMap` | arch/i386/page.c:9-107 | no run that gives none of these frames back touches them |
| `KernelMap.ForkSeesKernel` | arch/i386/page.c:102-105 | a fork gives the child the kernel half of the boot directory |
| `KernelMap.ChildSeesKernel` | arch/i386/page.c:102-105 | after a fork, and in every state of every run from there, walking PAGE_OFFSET + a through the child's directory gives a from supervisor mode and faults for users, until a page of its kernel half is missing |
| `AccessRights.RunRights` | arch/i386/page.c:9-107 | in every reachable state a nonzero entry is present and a nonzero directory word present and writable, so the kernel's tests for zero are the processor's tests for presence |
| `AccessRights.ReachableAccess` | arch/i386/page.c:9-107 | in every reachable state an access goes through exactly if table and entry are there and, for users, both have the user bit and a written entry its write bit |
| `AccessRights.NoPageAccess` | arch/i386/page.c:45-50 | after do_no_page the supervisor reads and writes the fresh page at the address, and a user program does exactly if the faulting thread is not a kernel thread |
| `AccessRights.WpFaultAccess` | arch/i386/page.c:15-24 | after do_wp_page the supervisor writes the page at the address, and a user program does exactly if the table is open to users |
| `AccessRights.ForkAccess` | arch/i386/page.c:80-90 | after copy_page the child reads from user mode exactly what the parent's entries open to users, and neither space can write from user mode |
| `AccessRights.ChildMayWrite` | arch/i386/page.c:78-100 | after its write fault the child writes from user mode |
| `BucketSteps.PopInv` | mm/kmalloc.c:179-181 | taking the first free block keeps the allocator's invariant |
| `BucketSteps.PushInv` | mm/kmalloc.c:223-225 | putting a live block back keeps it |
| `BucketSteps.BlockOwner` | mm/kmalloc.c:202-216 | the page of a live block has a chained descriptor with a positive refcnt |
| `BucketPages.UnlinkInv` | mm/kmalloc.c:227-254 | unlinking an empty descriptor and freeing its page keeps the invariant |
| `BucketPages.StockInv` | mm/kmalloc.c:152-175 | putting a spare descriptor in charge of a fresh page keeps it |
| `BucketPages.RefillInv` | mm/kmalloc.c:84-106 | adding a page of spare descriptors keeps it |
| `BucketPages.WriteInv` | mm/kmalloc.c:179-184 | whatever a block's owner writes inside the block, the invariant survives |
| `Kmalloc.BucketFor` | mm/kmalloc.c:122-124 | the bucket taken is the first whose blocks hold len bytes; none exists only above 4096 |
| `Kmalloc.Allocator.constructor` | mm/kmalloc.c:62-77 | the empty allocator satisfies the invariant and holds no frame |
| `Kmalloc.Allocator.LinkDescs` | mm/kmalloc.c:95-105 | the loop links 256 descriptors in address order in front of the spare ones |
| `Kmalloc.Allocator.InitBucketDesc` | mm/kmalloc.c:84-106 | one fresh frame becomes 256 spare descriptors, and nothing else changes |
| `Kmalloc.Allocator.ThreadPage` | mm/kmalloc.c:166-173 | the loop chains the page's blocks in address order, ending in NULL |
| `Kmalloc.Allocator.StockFromSpare` | mm/kmalloc.c:152-175 | takes the lowest unused frame for a page of free blocks at the front of the bucket's chain; fails exactly without an unused frame |
| `Kmalloc.Allocator.FillSpare` | mm/kmalloc.c:152-175 | the first spare descriptor takes charge of the page, all its blocks free, and becomes the head of the chain |
| `Kmalloc.Allocator.FindFree` | mm/kmalloc.c:137-139 | the first chained descriptor with a free block, or 0 exactly when there is none |
| `Kmalloc.Allocator.TakeBlock` | mm/kmalloc.c:179-181 | the first free block of the descriptor becomes live; freeptr moves to the link in its first word and refcnt goes up |
| `Kmalloc.Allocator.Kmalloc` | mm/kmalloc.c:111-185 | succeeds if and only if len is at most 4096 and, before the call, a page of the bucket has a free block or enough frames are unused to fetch one; the block was not live, has the size of its bucket (at least len), all other live blocks stay, only frames the allocator newly took changed; the new state is the old one with the descriptors and the page fetched if needed and the first free block popped |
| `Kmalloc.Allocator.StockBucket` | mm/kmalloc.c:141-175 | fetches a page for the bucket, and a page of descriptors first if none is spare; fails if and only if the unused frames do not suffice |
| `Kmalloc.RoomCounts` | mm/kmalloc.c:141-156 | they suffice if and only if one is unused, or two when no descriptor is spare |
| `Kmalloc.MallocKeeps` | mm/kmalloc.c:111-185 | the step of kmalloc keeps the invariant and gives its caller a block nobody had |
| `Kmalloc.MallocFrames` | mm/kmalloc.c:137-176 | kmalloc takes no frame if the bucket has a block, and otherwise the lowest unused one, with the one before it for descriptors if none is spare |
| `Kmalloc.Allocator.FindPage` | mm/kmalloc.c:202-216 | finds the descriptor of the page and its predecessor, or shows that no bucket of at least the hint has it |
| `Kmalloc.Allocator.PutBlock` | mm/kmalloc.c:223-225 | the block goes to the front of its page's free list, refcnt goes down, and nothing else changes |
| `Kmalloc.Allocator.ReleasePage` | mm/kmalloc.c:227-254 | descriptor k leaves the chain and becomes spare, and its page is freed |
| `Kmalloc.Allocator.Kfree` | mm/kmalloc.c:195-258 | succeeds exactly when the size hint is at most the block's size, removes exactly that block, writes only its first word, and frees the page exactly when it was the last live block of it; neither panic is reached otherwise |
| `Kmalloc.FreeKeeps` | mm/kmalloc.c:218-258 | the step of kfree keeps the invariant, takes exactly that block away and gives its page back exactly with its last block |
| `Kmalloc.Allocator.WriteWord` | mm/kmalloc.c:179-184 | a store inside a live block changes that word only and keeps the allocator valid |
| `Kmalloc.Allocator.ZeroBlock` | mm/kmalloc.c:263-265 | exactly the first size bytes of the block become zero |
| `Kmalloc.Allocator.Kzmalloc` | mm/kmalloc.c:260-267 | as kmalloc, with the same exact condition, and the first size bytes of the block are zero |
| `Kmalloc.BlocksDisjoint` | mm/kmalloc.c:166-185 | live blocks never overlap |
| `Kmalloc.BlockFits` | mm/kmalloc.c:166-173 | a live block lies inside its page |
| `Kmalloc.RefcntCountsBlocks` | mm/kmalloc.c:181-181 | refcnt is the number of live blocks of the page, and the other blocks are its free list |
| `Kmalloc.Conservation` | mm/kmalloc.c:84-106 | chained plus spare descriptors are 256 per descriptor page, and the frames held are the descriptor pages plus one per chained descriptor, all in use |
| `CowAside.StepKeeps` | arch/i386/page.c:9-107 | no paging step but its own return touches a used frame without a paging role, or gives it one |
| `CowAside.OutsideChange` | arch/i386/page.c:9-107 | any change of RAM and mem_map in frames without a paging role keeps the paging invariant and every view |
| `KernelMemory.HeapUndisturbed` | mm/kmalloc.c:84-258 | any change outside the frames the allocator holds keeps its invariant |
| `KernelMemory.StepKeepsOk` | mm/kmalloc.c:111-258 | kmalloc, kfree, a write to a block or to another kernel frame, and each paging step keep both invariants and the two sides' frames apart, and unless it is a supervisor store that shows in another slot act on the views as the eager copier |
| `KernelMemory.BlockKept` | mm/kmalloc.c:111-258 | a live block stays live under every step but its own kfree, and only its owner's write changes a word of it |
| `KernelMemory.KernelRun` | mm/kmalloc.c:111-258 | over any interleaving no frame the allocator holds is a directory, a table or named by an entry, and each address space reads as its own steps make it, as long as the stores are harmless |
| `KernelMemory.BlocksBelongToOwners` | mm/kmalloc.c:111-258 | over any interleaving a block not freed stays live with its size and holds exactly what its owner wrote last |
| `KernelMemory.BootOk` | arch/i386/init.c:62-118 | the state after boot, with the empty allocator, starts these runs |
| `KernelMemory.Memory.constructor` | mm/kmalloc.c:62-77 | allocator and page tables over one RAM and one mem_map |
| `KernelMemory.Memory.Kmalloc` | mm/kmalloc.c:111-185 | kmalloc on the shared machine is one step of the runs, with the same exact condition for success |
| `KernelMemory.Memory.Kfree` | mm/kmalloc.c:195-258 | kfree of a live block is one step, or changes nothing when the size hint is too large |
| `KernelMemory.Memory.WriteBlock` | mm/kmalloc.c:179-184 | a store inside a live block is one step |
| `KernelMemory.Memory.CreateDir` | arch/i386/page.c:64-67 | a new directory is one step, with the heap untouched |
| `KernelMemory.Memory.CopyPage` | arch/i386/page.c:74-107 | a fork is one step, with the heap untouched |
| `KernelMemory.Memory.DoWpPage` | arch/i386/page.c:9-36 | a write fault is one step, with the heap untouched |
| `KernelMemory.Memory.DoNoPage` | arch/i386/page.c:38-62 | a missing-page fault is one step, with the heap untouched |
| `Checksum.IpHdrChecksum` | net/ip.c:150-165 | the loop and the two folds compute the specified 16-bit result on a 32-bit accumulator |
| `Checksum.NoOverflow` | net/ip.c:152-161 | up to 131074 bytes the accumulator does not wrap |
| `Checksum.OverflowsBeyond` | net/ip.c:152-161 | some message of n bytes wraps the accumulator if and only if n is above 131074 |
| `Checksum.TwoFoldsSuffice` | net/ip.c:162-164 | two folds bring any 32-bit sum to its end-around-carry representative |
| `Checksum.ChecksumIsRfc1071` | net/ip.c:150-165 | the result is the checksum of section 1 of RFC 1071 if and only if the length is even or the odd last byte is zero |
| `Checksum.OddLengthDiffers` | net/ip.c:158-161 | the one-byte message 01 shows the difference |
| `Checksum.ZeroChecksum` | net/ip.c:162-164 | the checksum of data is zero exactly when its words sum to a nonzero multiple of 0xFFFF |
| `Checksum.StoredChecksumVerifies` | net/ip.c:78-78 | for every length, storing the checksum in a zeroed even-offset field makes the check come out 0 |
| `Checksum.OnesAreInvisible` | net/ip.c:19-24 | adding words of ones to a verified sum keeps it verified |
| `Checksum.ChangedWord` | net/ip.c:150-165 | a message that adds up, with one word changed, adds up exactly if the word went from 0 to 0xFFFF or back |
| `Ip.FillHeader` | net/ip.c:101-110 | the header fields land at their offsets in network order and nothing else is written |
| `Ip.BuildPacket` | net/ip.c:93-115 | header, payload and header checksum of the packet |
| `Ip.SendSlice` | net/ip.c:43-83 | one round of the fragment loop for a slice of at least a header: its header and the bytes it copies |
| `Ip.CurrentSize` | net/ip.c:43-50 | the bytes one round accounts for: at most 1480, and a multiple of 8 unless they are the last |
| `Ip.SendFragments` | net/ip.c:37-90 | the loop terminates with exactly the specified packets, or with a copy length that wrapped below zero |
| `Ip.IpSend` | net/ip.c:12-119 | broadcast rewriting, unknown destinations, the whole packet or the fragments |
| `Fragmentation.SlicesTile` | net/ip.c:41-87 | the slices tile [0, size), offsets fit 13 bits, all but the last are multiples of 8 and flagged more-fragments |
| `Fragmentation.AccountingReassembles` | net/ip.c:43-50 | with payload-sized accounting reassembly by offset (section 3.2 of RFC 791) gives the payload back |
| `Fragmentation.HeaderVerifies` | net/ip.c:78-78 | every header built passes the receiver's check |
| `Fragmentation.SendAddresses` | net/ip.c:19-34 | ip_send refuses exactly an unknown destination other than 0; every packet it sends names the sender, protocol, identification and TTL, and the destination or 255.255.255.255 in place of 0; a whole packet forbids fragmenting |
| `Fragmentation.FragmentsFollowSlices` | net/ip.c:52-87 | packet i states slice i's offset, length and flag but carries 20 bytes less, from a data pointer 20 bytes per packet behind |
| `Fragmentation.WildCopyWhen` | net/ip.c:52-53 | the payload length wraps below zero if and only if the size modulo 1480 is between 1 and 19 |
| `Fragmentation.FragmentsLeaveHole` | net/ip.c:52-87 | payload byte 1460 of a fragmented datagram travels in no fragment |
| `Fragmentation.SendDelivers` | net/ip.c:36-119 | ip_send delivers the datagram if and only if it has at most 1480 bytes |
| `Fragmentation.FirstFailures` | net/ip.c:36-90 | concrete sizes that are lost and that copy from a wrapped length |
| `Udp.UdpSend` | net/udp.c:9-27 | the segment handed to ip_send has the specified bytes, checksum over pseudo-header included; a buffer above a page panics, for every 32-bit length |
| `Udp.BuildSegment` | net/udp.c:11-22 | pseudo-header, header and data in the buffer, and the stored checksum |
| `Udp.FakePacket` | net/udp.c:35-40 | the buffer udp_rcv checks |
| `Udp.UdpRcv` | net/udp.c:29-55 | equal to its specification for every 32-bit length: panic, overrun, read past the packet, drop or answer |
| `Udp.IpRcv` | net/ip.c:121-148 | drops a packet whose header does not verify, and passes UDP on with total length less header length on 32 bits |
| `Udp.LongLengths` | net/udp.c:35-36 | the allocator panics if and only if the length is from 4085 to 2^32 - 13; the twelve lengths above wrap |
| `Udp.EchoedWhen` | net/udp.c:41-51 | a datagram whose checksum verifies is echoed if and only if its length is from 8 to 4084; below 8 the answer copies a wrapped length |
| `Udp.EmptyDatagramOverruns` | net/udp.c:41-51 | a packet of a bare IP header from 255.238.0.0 verifies, has UDP length 0 and overruns |
| `UdpDrops.EchoesWhatAddsUp` | net/udp.c:41-44 | udp_rcv answers exactly the datagrams of 8 to 4084 bytes within their packet whose words, with the pseudo-header's, sum to a multiple of 0xFFFF; one whose words do not is dropped |
| `UdpDrops.EchoAnswers` | net/udp.c:47-51 | the answer goes to the source address with the ports exchanged and the data bytes as they came, behind any header length |
| `UdpDrops.CorruptedWordDropped` | net/udp.c:41-44 | a datagram that adds up, with one 16-bit word changed, is dropped if and only if the change is not from 0 to 0xFFFF or back |
| `UdpDrops.CorruptedLastByteDropped` | net/udp.c:41-44 | with its odd last byte changed it is dropped always |
| `UdpDrops.PacketAnswered` | net/ip.c:121-148 | ip_rcv comes to an answer exactly for packets whose header words sum to a multiple of 0xFFFF, that are UDP, and whose stated length holds a datagram of 8 to 4084 bytes that adds up |
| `UdpDrops.CorruptedHeaderDropped` | net/ip.c:126-128 | a packet whose header verifies, with one header word changed other than between 0 and 0xFFFF, is dropped |
| `UdpDrops.CorruptedPacketDropped` | net/udp.c:41-44 | and so is an answered packet with such a word changed in its segment |
| `UdpDrops.SendLengths` | net/udp.c:11-12 | udp_send panics exactly for 4077 bytes or more, up to where 20 more wrap 32 bits |
| `Udp.BroadcastVerifies` | net/ip.c:19-24 | a segment that verifies with destination 0 verifies with 255.255.255.255 |
| `Udp.SegmentVerifies` | net/udp.c:14-24 | the stored checksum verifies, also after the broadcast rewriting |
| `Udp.RoundTrip` | net/udp.c:9-52 | every datagram that fits one packet is accepted and yields the sender, both ports and the exact bytes, odd lengths and broadcast included |
| `Udp.ZeroIsTransmitted` | net/udp.c:22-22 | the checksum field sent is 0 (which RFC 768 reserves for no checksum) if and only if the words sum to a multiple of 0xFFFF |
| `Udp.ZeroSentForFFDA` | net/udp.c:22-22 | between zero addresses and ports the data FF DA is sent with checksum 0 |
| `Numerals.DigitsValue` | lib/stdio.c:53-57 | the digits are the numeral of the value, without a leading zero |
| `Numerals.FormattedLength` | lib/stdio.c:43-80 | the length is exactly max(width, sign + prefix + max(precision, digits)), with at most 32 digits |
| `Numerals.Number` | lib/stdio.c:32-82 | writes exactly the specified text for every value, base, width, precision and flag set, returning NULL exactly outside bases 2 to 36 |
| `NumberText.TextReadsBack` | lib/stdio.c:32-82 | for every value, base, width, precision and flag set an independent reader (spaces, sign, 0x in base 16, digits) gets the number back from the text: as it is with SIGN, modulo 2^32 without |
| `NumberText.TextLayout` | lib/stdio.c:44-80 | the reader takes the whole text apart: minus exactly before a negative signed number, plus exactly with PLUS before any other, the mark 0x or 0X by SMALL exactly with SPECIAL in base 16, letters by SMALL, spaces behind only with LEFT, none in front with LEFT or ZEROPAD except the one of SPACE, and as many digits as value or precision need, one more for SPECIAL in base 8, more only for ZEROPAD |
| `Numerals.CollectDigits` | lib/stdio.c:53-57 | the digit loop uses at most 32 entries of tmp |
| `Numerals.PlainForm` | lib/stdio.c:32-82 | without width, precision and flags the output is just the digits |
| `Numerals.ReadNumber` | lib/stdio.c:121-169 | _atob equals its specification, the two-halves form with a dot included |
| `Numerals.PrintedReadsBack` | lib/stdio.c:151-168 | _atob gives the printed value back if and only if no digit is past F |
| `Numerals.PrintedReadsBackTo16` | lib/stdio.c:151-168 | in bases 2 to 16 it always does |
| `NumberText.ReadsExactly` | lib/stdio.c:151-168 | without prefix or dot _atob accepts exactly the strings of hexadecimal digits below the base, with their value on 32 bits |
| `NumberText.PrefixReadsHex` | lib/stdio.c:127-130 | behind 0x or 0X a numeral is read in base 16 whatever base was asked for |
| `NumberText.HalvesRead` | lib/stdio.c:132-149 | in base 16 two numerals of 16 bits around a dot are the high and the low half |
| `InetAton.ReadPart` | net/ip.c:179-199 | reads one number in the base its prefix chooses |
| `InetAton.NextPart` | net/ip.c:173-217 | one pass of the loop and the check for trailing characters: the number read, whether the text goes on, ends or fails, and from where |
| `InetAton.Shift` | net/ip.c:222-245 | the range checks and the shifts by the number of parts |
| `InetAton.InetAton` | net/ip.c:167-247 | equals its specification on every string |
| `InetAton.CombineIsAddress` | net/ip.c:222-245 | for in-range parts the bitwise or of the shifted parts is the positional 32-bit value |
| `InetAton.OrDisjoint` | net/ip.c:231-243 | the bitwise or of a number below 2^k and a multiple of 2^k is their sum |
| `InetAton.AtonInvertsPrinting` | net/ip.c:167-247 | canonical decimal printing of the one-, two-, three- and four-part forms reads back as the positional value |
| `InetAton.DecimalAddresses` | net/ip.c:173-247 | decimal numbers with dots between them give an address exactly if there are at most four, all but the last are bytes and the last fits what is left, and 0 otherwise |
| `InetAton.OctalReadsBack` | net/ip.c:180-189 | behind a 0 a numeral is read in base 8 |
| `InetAton.HexReadsBack` | net/ip.c:183-199 | a hexadecimal numeral of any 32-bit value reads back if and only if it is in capitals or has no letter, and is otherwise 0 |
| `InetAton.LowerCaseHexFails` | include/ctype.h:7-7 | 0xa reads as 0 and 0xA as 10 |
| `Arp.PutMaps` | net/arp.c:43-70 | what hash_put does to the map for every nonzero address: an address already present gives its MAC to the bucket's head |
| `Arp.PutUpdates` | net/arp.c:43-70 | hash_put is a map update if and only if the address is new, heads its bucket, or both it and the head already have that MAC |
| `Arp.PutSound` | net/arp.c:43-70 | a nonzero put keeps buckets well formed and size equal to the number of addresses |
| `Arp.PutZeroMiscounts` | net/arp.c:46-51 | address 0 raises size without being mapped |
| `Arp.RemoveDeletes` | net/arp.c:89-123 | hash_remove is map deletion, head promotion included, and keeps size the cardinality |
| `Arp.GetLooksUp` | net/arp.c:72-87 | hash_get answers a present address with its MAC; for an absent one it returns 0 if and only if the bucket is empty, and otherwise reads through NULL |
| `Arp.MissBehindHead` | net/arp.c:79-82 | looking up an address where only another of its bucket is stored reads through NULL |
| `Arp.KeysAreMapped` | net/arp.c:27-41 | every stored address is found: each lives in the bucket of its remainder |
| `Arp.RunRefinesMap` | net/arp.c:43-123 | over any run the buckets stay in order and size counts the map; if every put was an update in the sense of hash_put's exact condition, the table is the finite map of the run |
| `Arp.SecondPutHitsHead` | net/arp.c:55-59 | for any two addresses of one bucket, storing the second again overwrites the MAC of the first |
| `ArpCache.Contains` | net/arp.c:54-61 | the search loop of hash_put over linked entries |
| `ArpCache.PutChain` | net/arp.c:46-69 | the linked chain after a put is the specified bucket, its head in place |
| `ArpCache.GetChain` | net/arp.c:75-86 | the loop of hash_get over linked entries |
| `ArpCache.Unlink` | net/arp.c:110-121 | the trailing-pointer loop unlinks exactly the entry found |
| `ArpCache.RemoveChain` | net/arp.c:91-122 | the chain after a remove is the specified bucket; a promoted successor leaves the chain |
| `ArpCache.HashMap.Put` | net/arp.c:43-70 | the whole table equals the specification; other buckets keep their entries and links |
| `ArpCache.HashMap.Get` | net/arp.c:72-87 | equals the specification |
| `ArpCache.HashMap.Remove` | net/arp.c:89-123 | the whole table equals the specification |
| `ArpCache.HashMap.constructor` | net/arp.c:131-137 | the empty table |
| `Tty.Followed` | kernel/tty.c:126-130 | the scrolling loop ends at the first window, going down, that ends after the cursor |
| `Tty.ScrollKeepsOk` | kernel/tty.c:161-173 | scrolling keeps the window on whole rows and its start inside its area, and start never wraps below zero; the end may pass the area by less than a row |
| `Tty.UpUndoesDown` | kernel/tty.c:161-173 | Down moves the window one row unless it met the end of the area, and Up takes it back exactly if it moved or the window is at the top |
| `Tty.OverhangsOnRow44` | kernel/tty.c:161-173 | with areas of 5461 cells the window shows cells behind its area if and only if it stands on row 44 |
| `Tty.ScrollOverhangs` | kernel/tty.c:161-173 | a key leaves it there if and only if it was Down from row 43, or from row 44 where Down does nothing |
| `Tty.OutputOverhangs` | kernel/tty.c:98-133 | a character leaves it there if and only if it was there, or the cursor comes to original + 5440 or beyond |
| `Tty.FortyFourDownKeys` | kernel/tty.c:161-173 | 44 Down keys on a new terminal show 59 cells behind its area, on the last terminal past video memory |
| `Tty.MovedKeepsOk` | kernel/tty.c:101-124 | no character moves the cursor out of its area |
| `Tty.Run` | kernel/tty.c:68-177 | every state reached by writes and scroll keys satisfies the console invariant |
| `Tty.RunIsolates` | kernel/tty.c:98-177 | a terminal's window, cursor and cells are what its own steps alone would give, however others interleave |
| `Tty.OutCharElsewhere` | kernel/tty.c:98-133 | a character writes no cell of another terminal |
| `Tty.WriteStores` | kernel/tty.c:68-86 | plain text lands in consecutive cells from the cursor, cut before the last cell of the area, and nothing else changes |
| `Tty.BackspaceUndoes` | kernel/tty.c:110-115 | a backspace after a printed character restores the cursor and leaves a blank |
| `Tty.LineFeedStartsRow` | kernel/tty.c:102-108 | a line feed goes to the start of the next row, and is ignored exactly where less than a row remains |
| `Tty.CharShown` | kernel/tty.c:126-130 | after a character the cursor is visible if and only if it is not above the window's previous top |
| `Tty.DownThenTyping` | kernel/tty.c:98-133 | after a Down key on an empty terminal the next character lands above the window |
| `Tty.OutputStealsDisplay` | kernel/tty.c:126-139 | after a character on terminal id the display shows the current terminal if and only if that is id |
| `Tty.ScrollShows` | kernel/tty.c:161-177 | a scroll key displays its terminal, moves that window and changes nothing else |
| `Tty.CursorShown` | kernel/tty.c:126-130 | after output the cursor is before the window's end, and the window only moved down |
| `Tty.CreatedIsGood` | kernel/tty.c:40-66 | the three terminals start in order, in disjoint areas |
| `TtyConsole.Console.constructor` | kernel/tty.c:55-63 | tty_create's console |
| `TtyConsole.Terminals.PutChar` | kernel/tty.c:100-124 | cursor and video memory after the switch |
| `TtyConsole.Terminals.ScrollScreen` | kernel/tty.c:161-177 | one scrolling step in place, and what is displayed |
| `TtyConsole.Terminals.Follow` | kernel/tty.c:126-139 | the scrolling loop terminates with the specified window |
| `TtyConsole.Terminals.OutChar` | kernel/tty.c:98-133 | one character on one terminal, the others untouched |
| `TtyConsole.Terminals.TtyWrite` | kernel/tty.c:68-86 | a whole buffer on one terminal |
| `TtyConsole.Terminals.ScrollKey` | kernel/tty.c:161-177 | a scroll key on one terminal |
| `Threads.Splice` | kernel/thread.c:74-77 | the four pointer writes put the new thread between the last and the first of the ring |
| `Threads.Scheduler.ThreadCreate` | kernel/thread.c:24-81 | the ring grows by the new thread at its end, next and prev stay inverse, it becomes current and gets the next pid (32-bit wrap) |
| `Threads.Scheduler.ThreadInit` | kernel/thread.c:19-22 | the oldest thread becomes current |
| `Threads.Scheduler.Schedule` | kernel/schedule.c:50-73 | the successor in creation order becomes current, or nothing without a current thread |
| `Threads.Inverse` | kernel/thread.c:74-77 | next and prev undo each other |
| `Threads.TurnsFollowRing` | kernel/schedule.c:72-72 | consecutive schedule steps go round the ring in creation order |
| `Threads.RoundRobin` | kernel/schedule.c:50-73 | any n consecutive steps run each of n threads exactly once and end on the one that was current |
| `Threads.NewThreadRestarts` | kernel/thread.c:79-79 | after a new thread the oldest one is next |
| `Dentries.Follow` | fs/file_op.c:539-542 | the mount-crossing loop terminates at an entry that is not mounted over |
| `Dentries.YoungestWins` | include/system/list.h:64-77 | of several children of one name the most recent is found |
| `Dentries.AddChildOk` | fs/file_op.c:386-401 | a new directory keeps the tree well formed |
| `Dentries.AddMountOk` | fs/file_op.c:454-460 | a mount keeps it well formed: the new root is fresh, so mount chains stay acyclic |
| `Dentries.ApplySound` | fs/file_op.c:332-463 | every mkdir, mount, chdir and chroot keeps the tree well formed, with at most one entry more |
| `Dentries.Run` | fs/file_op.c:332-463 | so does every run |
| `Dentries.MountedRootOk` | fs/rootfs/super.c:44-69 | the first root file system is well formed |
| `PathWalk.SplitJoin` | fs/file_op.c:487-504 | splitting at slashes distributes over joining paths with a slash |
| `PathWalk.FoldJoin` | fs/file_op.c:487-504 | walking a joined path is walking its parts in turn |
| `PathWalk.DotAfter` | fs/file_op.c:514-528 | an empty or "." component after another one never changes the result |
| `PathWalk.DotBefore` | fs/file_op.c:468-503 | in front of the first component it changes the result if and only if that component, not the last, is missed by a root's callback: without the dot the walk reads through an uninitialised pointer, with it the name is passed over |
| `PathWalk.ExtraSlashes` | fs/file_op.c:487-504 | as strings: after a non-empty path "//" and "/./" mean "/" |
| `PathWalk.ExistingPathsResolve` | fs/file_op.c:465-596 | a path all of whose components exist resolves to what a strict lookup gives |
| `PathWalk.MissIsSkipped` | fs/rootfs/super.c:86-89 | a component that a root's callback misses, between others, is passed over as if it were not there |
| `PathWalk.MissingNames` | fs/rootfs/super.c:86-89 | with only a root, the name x resolves to NULL, x/. follows an uninitialised pointer and ./x/. resolves to the root |
| `PathWalk.LookupAfterMkdir` | fs/file_op.c:391-401 | after mkdir the name finds the new entry in its directory; every other lookup is as before |
| `PathWalk.MkdirResolves` | fs/file_op.c:332-404 | a path resolves to the new entry if and only if the walk to its last component, in the old tree with the extra entry, still arrives in its directory |
| `PathWalk.MkdirDone` | fs/file_op.c:375-403 | sys_mkdir succeeds exactly if its walk arrives in a directory and the name has at most 255 bytes; then one youngest child is there and nothing else changed, and otherwise nothing changed |
| `PathWalk.MkdirThenNamei` | fs/file_op.c:332-404 | after a successful sys_mkdir the path resolves to the new entry if and only if the walk of namei, in the old tree with the extra entry, arrives in the directory mkdir walked to; an absolute path, or a thread whose working directory is its root, gives that (shadowing included) unless the way uses the new name in that directory |
| `PathWalk.RelativeMkdirElsewhere` | fs/file_op.c:465-485 | in a thread whose working directory is not its root, mkdir of one ordinary component succeeds and the same path never resolves to the entry it made |
| `PathWalk.OwnNameOnTheWay` | fs/file_op.c:332-404 | why: mkdir name/n/../../name succeeds, and the path then reads through NULL |
| `PathWalk.OtherPathsKept` | fs/file_op.c:391-401 | paths that do not look up the new name in its directory resolve as before |
| `PathWalk.MountDiverts` | fs/file_op.c:454-460 | a mount diverts exactly the name lookups that led to the covered directory |
| `MountWalk.MountDone` | fs/file_op.c:422-452 | sys_mount succeeds exactly for a known file system, a device path to a directory or block device, and a path to a directory that nothing covers, which an ordinary last component always gives |
| `MountWalk.MountLeaves` | fs/file_op.c:454-460 | the directory is then covered by one new root, and nothing else changed; without success nothing changed |
| `MountWalk.MountResolves` | fs/file_op.c:454-460 | a path resolves to a root just mounted exactly when the walk to its last component, in the tree with that root, arrives where the component led to the covered directory |
| `MountWalk.MountThenNamei` | fs/file_op.c:406-463 | after sys_mount on a path with an ordinary last component the path resolves to the new root exactly under that condition, which holds whenever the way does not enter the covered directory |
| `MountWalk.OtherPathsAfterMount` | fs/file_op.c:454-460 | paths none of whose ordinary components led to the covered directory resolve as before |
| `MountWalk.OwnMountOnTheWay` | fs/file_op.c:514-518 | why: after a mount on name/../name that path resolves to nothing |
| `MountWalk.LookupInMount` | fs/rootfs/super.c:59-67 | in a fresh root the names "", "." and ".." stay and every other name is missed |
| `MountWalk.ChdirThenRelative` | fs/file_op.c:689-700 | sys_chdir succeeds exactly for a path to a directory; then "." is that directory and ./q is what path/q was |
| `MountWalk.ChrootThenAbsolute` | fs/file_op.c:676-687 | after sys_chroot "/" is that directory and /./q is what path/q was |
| `Vfs.FileSystem.FollowMounts` | fs/file_op.c:539-542 | the loop over mount pointers |
| `Vfs.FileSystem.FindChild` | fs/file_op.c:530-546 | the first child of the name in list order, or none |
| `Vfs.FileSystem.LookUp` | fs/file_op.c:512-548 | lookup on linked entries, a miss left to the callback |
| `Vfs.FileSystem.NextName` | fs/file_op.c:489-497 | the scanning loop for one component |
| `Vfs.FileSystem.Advance` | fs/file_op.c:499-503 | one lookup of the walk, with the result variable uninitialised at first |
| `Vfs.FileSystem.Component` | fs/file_op.c:487-504 | one round of the loop takes one component off the path |
| `Vfs.FileSystem.WalkOn` | fs/file_op.c:487-509 | the loop is the left fold over the components |
| `Vfs.FileSystem.GetParentDirEntry` | fs/file_op.c:465-510 | the start, the fold and the last component |
| `Vfs.FileSystem.NameI` | fs/file_op.c:569-596 | path resolution as specified |
| `Vfs.FileSystem.MakeChild` | fs/file_op.c:386-401 | the new entry stands first among the children, and no other entry changes |
| `Vfs.FileSystem.SysMkdir` | fs/file_op.c:332-404 | sys_mkdir in place, every outcome included |
| `Vfs.FileSystem.Attach` | fs/file_op.c:454-460 | the directory gets a fresh root on top, and no other entry changes |
| `Vfs.FileSystem.SysMount` | fs/file_op.c:406-463 | sys_mount in place, equal to its specification, every outcome included |
| `Vfs.FileSystem.SysChdir` | fs/file_op.c:689-700 | the working directory becomes the directory resolved |
| `Vfs.FileSystem.SysChroot` | fs/file_op.c:676-687 | the root becomes the directory resolved |
| `FileTable.OpenBalances` | fs/file_op.c:21-91 | sys_open fails exactly when a table is full; it succeeds exactly when otherwise the path leads to the root of a file system, since only a mount gives an inode its operations, and then keeps the counts in balance and takes the lowest free number and a descriptor never used before, at position 0 of the inode found; a missing file is a read through NULL that changes nothing, a directory made by sys_mkdir one that leaves the counts out of balance |
| `FileTable.MadeDirectoryStops` | fs/file_op.c:56-65 | from boot / can be opened; after mkdir /a opening /a reads through NULL and leaves the counts out of balance |
| `FileTable.DupBalances` | fs/file_op.c:653-674 | sys_dup keeps the balance, points the lowest free number at the same descriptor, and reads through NULL exactly for a closed number |
| `FileTable.CloseBalances` | fs/file_op.c:93-100 | sys_close keeps the balance and reads through NULL exactly for a closed number |
| `FileTable.RunBalances` | fs/file_op.c:21-100 | over any run the counts of descriptors and inodes equal their references, and each successful open uses up one descriptor for good |
| `FileTable.BootBalanced` | fs/file_op.c:21-67 | with nothing open all counts are in balance and no descriptor is used up |
| `FileTable.DescriptorsRunOut` | fs/file_op.c:37-46 | from boot at most 2048 opens ever succeed, whatever is closed in between, and after that every open of any path fails |
| `FileTable.PairsUseUp` | fs/file_op.c:21-100 | opening and closing one file n times uses up n descriptors and leaves the file table as it was, for every n up to the descriptors left |
| `FileTable.PairsRunOut` | fs/file_op.c:37-46 | so 2048 such pairs from boot leave every further open failing with an empty file table |
| `FileTable.AllClosed` | fs/file_op.c:93-100 | with every file closed all counts are zero |
| `FileTable.CloseUndoesDup` | fs/file_op.c:653-674 | closing a duplicate restores the state exactly |
| `FileTable.Files.FreeFile` | fs/file_op.c:25-30 | the scan for the lowest free number |
| `FileTable.Files.FreeDesc` | fs/file_op.c:37-41 | the scan for the first descriptor without inode |
| `FileTable.Files.SysOpen` | fs/file_op.c:21-91 | sys_open on the three tables in place, the path resolved by namei in the directory tree |
| `FileTable.Files.GetInodeByFilename` | fs/file_op.c:82-91 | the entry namei finds, and whether its inode has file operations |
| `FileTable.Files.Install` | fs/file_op.c:56-66 | the assignments once all is found, up to the read through NULL when the inode has no file operations |
| `FileTable.Files.SysDup` | fs/file_op.c:653-674 | sys_dup in place |
| `FileTable.Files.SysClose` | fs/file_op.c:93-100 | sys_close in place |

## Left out

- Inline assembly, interrupt masking, TLB and CR3 loads, port output to the CRT controller: hardware effects; allocator calls are atomic.
- `sys_fork` (kernel/thread.c:86-120): the struct copy after `thread_create` copies the new thread onto itself, and the arguments of `copy_page` stand in the order new directory, old thread; `copy_page` is modelled from source to destination.
- Page-table entry bits other than present, writable, user and the frame number; the accessed and dirty bits the processor sets.
- Descriptors of the bucket allocator are typed records at their addresses instead of raw words of their page; free blocks are raw words in RAM.
- Kmalloc.Allocator.Kfree: freeing an address that is not a live block is outside its precondition, as the source checks nothing there either.
- AddressSpaces.PageTables.DoWpPage: a write fault is on a present user page, which is when the processor raises it.
- CowRuns.StepRefines: a returned frame has no paging role left; nothing in the source returns page tables or directories.
- KernelMemory.StepKeepsOk: a frame written by the kernel outside the allocator's blocks has no paging role, and the size hint of kfree is at most the block's size.
- KernelMemory.Memory.CreateDir, CopyPage, DoWpPage and DoNoPage say nothing about the memory after the panic of an allocation that found no frame.
- BootPaging.ResetPaging: the table count must be at most 224, the exact bound of `BootPaging.PageTableCountBounded`; beyond it the loops run over mem_map. mem_map is an array of its own here, so the writes to the frames from 768 on that hold its bytes are not in RAM; that these frames hold no page table is `BootPaging.ReservedFramesMarked`.
- Field widths of counters that cannot reach their limit in the proved runs (refcnt, used_count, the ARP size) are unbounded integers; frame counts, thread identifiers, checksums and parsed numbers wrap at their width.
- `dev_hard_header`, `dev->send` and the Ethernet header: the device is taken to accept every packet.
- `arp_send`, `arp_rcv`, `arp_find`, `hash_clear`: packet layout around the table; ip_send takes whether the destination is known as a parameter.
- ArpCache.HashMap.Get: returns the MAC and not a pointer to it, so a later change through that pointer is not modelled; freed entries are forgotten, not given to kfree.
- Udp.IpRcv: ICMP and TCP dispatch count as dropped, and a packet has at least the 20 bytes of an IP header; the source checks no length.
- Udp.UdpRcv: a panic, a read past the packet and a copy past its buffer are outcomes, with no word on what memory holds afterwards.
- `vsprintf`, `vsscanf`, `printk`: variadic formatting around `number`; only `number` and `_atob` are modelled.
- Numerals.Number: the output buffer must have room for the text, as the source assumes.
- `clear_screen`, the keyboard buffer of a terminal, and scroll directions other than up and down.
- `switch_to` and the register contents of a thread; the kernel stack a thread is given.
- `lookup_fs` and `register_filesystem`: whether the file system type is known is a parameter of `SysMount`.
- File systems other than rootfs: their lookup and mount callbacks; every mount attaches a fresh root as rootfs does.
- Dentries.Mkdir: a last component above 255 bytes overruns the name field; the model names that outcome and leaves the tree alone.
- The limits of `inode_table` and of memory in `get_inode` and `get_dir`, which the source does not check.
- FileTable.Files.SysOpen: every entry of the directory tree has the inode of its own number, as `Vfs` makes them; the current directory of the thread comes with the tree.
- FileTable.RunBalances: one thread; forked threads share descriptors, and their counts are raised in `sys_fork`. File numbers outside the table stop the run, since the source indexes with them unchecked.
- The `open` callback of an inode, read, write, seek and readdir.
- PCI, timer, VGA, NIC and keyboard drivers, `net/skbuffer.c`, `net/icmp.c`, `lib/string.c`, descriptor packing in `arch/i386/desc.c`: ports and tables, or easy members.
