# Verified models of the micro-os kernel

micro-os is a small x86-64 kernel. This project models the parts of it whose
correctness rests on invariants over many calls, and proves them.

- **Physical pages** (`Bits`, `Pmm`): the bitmap allocator with its word-at-a-time
  range operations, the branch-free population count and the boot-time scan.
- **Kernel heap** (`FreeList`, `HeapState`, `HeapRuns`, `HeapMemory`, `Kheap`): the
  sorted, coalescing free list on three levels. `FreeList` and `HeapState` treat it
  as a sequence of blocks, `HeapMemory` and `Kheap` as words and pointers in the
  memory it manages, and `HeapRuns` as a state machine of threads that allocate,
  free and grow the heap with its lock dropped.
- **Virtual memory** (`Paging`, `Vmm`): 4-level page tables as a map from frames to
  tables, the processor's translation (section 4.5 of the Intel SDM, volume 3A), and
  the manager that edits the tables in place.
- **Program loading** (`Elf`, `ElfFormat`): header checks, the page-by-page copy and the
  stack, composed with the page tables and the page allocator; `ElfFormat` ties what the
  loader reads to the bytes of the System V gABI.
- **Ramfs** (`Paths`, `Tree`, `Ramfs`, `RamfsRuns`): the two path resolvers, the vnode
  table as a tree of names, the file operations with their descriptors, and runs of them.
- **Scheduler** (`Sched`, `SchedRuns`, `Scheduler`): task records, sleeping, waiting,
  reaping, slot reuse and signals; `Sched` is the state machine of calls, `SchedRuns` what
  sleepers, signals and exits come to over its runs, `Scheduler` the code that updates
  the table in place.
- **xHCI rings** (`XhciRing`, `XhciEvents`): the command and transfer rings with the
  driver as producer, and the event ring with the driver as consumer, store by store
  against a controller that acts at any time (section 4.9 of the xHCI specification).
- **FAT32** (`FatNames`, `FatImage`, `Fat32`, `FatDisk`, `FatFiles`): the image writer's
  tables and directory entries, long-name assembly, directory iteration and file reading
  over cluster chains, the reader run over the image that the writer made, and over any
  image with any cluster size.
- **Internet checksum** (`Checksum`): the checksum and the IPv4 and ICMP echo packets
  it protects (section 1 of RFC 1071, section 3.1 of RFC 791).

`Machine` holds what the others share: bytes, words, pages and division.

Classes have the fields that the kernel updates in place; each of their methods is
proved against a function of the old state, and the lemmas are about those
functions. 64-bit words are natural numbers, with wrap-around written out where the
code can reach it.

Results that differ from what the code or its comments suggest. For each of them
there is a condition that decides when the code does what is meant:

- A request above 2^64 - 32 bytes is served with a 16-byte block
  (`HeapState.NeededHoldsIff`), and the page count of a growth wraps for the last 4095
  values (`HeapRuns.SecondAttemptIff`).
- A heap that found fewer than 64 adjacent pages at boot ignores every free until it
  grows, and from then on exactly the frees of blocks above the highest region it has
  grown by (`HeapRuns.ShortBootFreeIff`).
- A memory map whose last, partial page receives the bitmap can make the boot scan write
  past the bitmap (`Pmm.BootMapIff`, `Pmm.PartialPageOverruns`).
- The comment in `vmm_init` says the upper entries get the user bit; the code does not
  set it, so `vmm_mark_huge_user` alone opens nothing (`Vmm.Vmm.MarkHugeUser`).
- Mapping below 4 GiB is always skipped (`Vmm.LowCovered`), so loading moves nothing
  there and ring 3 does not see an ELF segment linked there unless the leaf already had
  the user right (`Elf.LowByteClosed`). But a user mapping that is skipped has widened
  the upper entries first: a 2 MiB page that was marked for user code and still closed
  to it is open afterwards (`Vmm.RefusedMapOpens`). `Vmm.Vmm.MapPageIn` and
  `Elf.Loader.Load` say exactly which addresses that concerns, and
  `Elf.HighFileKeepsLow` when there are none.
- An ELF segment or program header table whose end wraps around passes the bounds
  tests (`Elf.AcceptedIff`, `Elf.TableInsideIff`, `Elf.WrappedAccepted`).
- Renaming a directory into itself detaches it (`Tree.RenameAttachedIff`,
  `Ramfs.RenameIntoSelf`). Creating in a full directory makes a vnode that no path
  reaches (`RamfsRuns.FullDirectoryLoses`), and names above 63 characters are stored cut (`Ramfs.CreateFoundIff`), which
  can give two siblings one name (`Tree.RenamedUniqueIff`,
  `Ramfs.LongRenameDuplicates`). Under the conditions of `Ramfs.FittingIsTidy` on
  the path strings alone the tree stays whole (`Ramfs.TreeRunInv`).
- A failed task creation on a reused slot leaves a ready task without a stack
  (`Sched.FailedCreateIff`); an address space stays with the slot and passes to the next
  task there (`Sched.CreatedCleanIff`, `Sched.InheritingRun`); the idle task's wait
  returns early exactly if a decision finds no ready task (`Sched.IdleResumedIff`) and a
  wait for it never returns (`Sched.WaitZeroForever`); a yield can hand over to a worse
  priority (`Sched.PickKeepsBestIff`, `Sched.YieldRunsWorse`); a task that kills itself by
  a signal and then sleeps or waits lives on (`SchedRuns.SelfSignalIff`).
- A producer ring filled to its last slot can stall the controller
  (`XhciRing.PollSucceedsIff`), and a push into a full ring loses a TRB
  (`XhciRing.FullPushLoses`).
- Long names above 247 characters come back cut (`FatNames.NamesIntactIff`), and a
  short cluster chain still returns the full size (`Fat32.WholeFileIff`).

## Model

| member | source | states |
|---|---|---|
| Bits.PopCountExact | kernel/mm/pmm.c:46-53 | the branch-free count equals the number of set bits of every 64-bit word |
| Pmm.SetRange | kernel/mm/pmm.c:55-76 | after the word-at-a-time loop the free set is the old one plus exactly the pages of the range, and the result counts those that were not free |
| Pmm.ClearRange | kernel/mm/pmm.c:78-97 | the same for marking used: exactly the pages of the range leave the free set, and the result counts those that were free |
| Pmm.BitmapPlaced | kernel/mm/pmm.c:119-164 | the bitmap goes to a page-aligned place above 1 MiB, clear of the kernel and inside one usable entry |
| Pmm.BootMapIff | kernel/mm/pmm.c:101-201 | exactly which non-wrapping maps let the boot scan stay inside its bitmap: nothing can hold the bitmap, or the low 1 MiB and the kernel have bits and the bitmap does not end in a partial last page whose bit would start a new word |
| Pmm.PartialPageOverruns | kernel/mm/pmm.c:196-200 | a concrete map with such a partial page: reserving the bitmap's own page writes bit 320 of a bitmap of five words |
| Pmm.Allocator.Init | kernel/mm/pmm.c:101-201 | after boot a page is free if and only if some usable entry contains all its bytes, it does not begin below 1 MiB, and it overlaps neither the kernel image nor the bitmap, for overlapping entries too; page 0 is not free; it succeeds if and only if some usable entry has a page-aligned place for the bitmap above 1 MiB and clear of the kernel |
| Pmm.BootFreeIff | kernel/mm/pmm.c:171-200 | what boot leaves free, in bytes: the pages usable as a whole, not below 1 MiB, that overlap neither the kernel image nor the bitmap |
| Pmm.PlacementIff | kernel/mm/pmm.c:130-164 | the place chosen for the bitmap in an entry is the lowest that has room for it, and none is chosen exactly if there is none |
| Pmm.NoPlaceIff | kernel/mm/pmm.c:130-164 | no place is found exactly if no usable entry has room |
| Pmm.Allocator.FreePages | kernel/mm/pmm.c:252-256 | the cached counter is the cardinality of the free set in every valid state |
| Pmm.Allocator.AllocPage | kernel/mm/pmm.c:208-236 | returns the lowest free page below 4 GiB and takes exactly it out of the free set; the result is 0 exactly if there is none or page 0 is free, which it is not after boot |
| Pmm.Allocator.FreePage | kernel/mm/pmm.c:238-250 | adds exactly that page; a page past the map or already free changes nothing |
| Pmm.NoPageTwice | kernel/mm/pmm.c:208-250 | in every run of allocations and returns no page is handed out twice without a return in between |
| FreeList.TakeSorted | kernel/mm/heap.c:83-107 | taking the first fit leaves the list address-sorted with gaps and all blocks well-formed; the block handed out has the needed size and less than 32 bytes more |
| FreeList.TakeCovers | kernel/mm/heap.c:83-107 | the bytes of the list split exactly into the block handed out and what stays free |
| FreeList.CanTakeIff | kernel/mm/heap.c:83-107 | an attempt succeeds if and only if some block is large enough, and takes the first such block |
| FreeList.InsertSorted | kernel/mm/heap.c:206-237 | inserting and coalescing keeps the list sorted and leaves no two neighbours adjacent |
| FreeList.InsertCovers | kernel/mm/heap.c:206-237 | insertion adds exactly the bytes of the block |
| HeapState.NeededHoldsIff | kernel/mm/heap.c:69-82 | the block size computed in 64 bits holds the request if and only if the request is at most 2^64 - 32 |
| HeapState.MallocInv | kernel/mm/heap.c:83-107 | allocation keeps the heap invariant: sorted and coalesced list, 16-aligned blocks of the minimum size, no byte in two blocks, free and live blocks tile the heap's pages |
| HeapState.ReleaseInv | kernel/mm/heap.c:206-237 | freeing a live block keeps the heap invariant |
| HeapState.GrowInv | kernel/mm/heap.c:135-165 | growing by pages the heap does not have keeps the heap invariant |
| HeapState.BoundedFrees | kernel/mm/heap.c:196-204 | when the recorded bounds cover the heap no free of a live block is dropped |
| HeapState.FreeEffectIff | kernel/mm/heap.c:196-204 | the free of a live block takes effect if and only if the block lies inside the recorded bounds |
| HeapState.GrowSuffices | kernel/mm/heap.c:135-165 | after growth by a region of the needed size the next attempt succeeds |
| HeapState.WantedLeast | kernel/mm/heap.c:111-117 | the number of pages asked for is the least one, from four on, that holds the request |
| HeapRuns.StepInv | kernel/mm/heap.c:69-170 | one step of any thread, allocation, growth window or free, interleaved with page-allocator calls of others, keeps the heap, the page ownership and every open window consistent |
| HeapRuns.RunInv | kernel/mm/heap.c:69-170 | in every state of every run of any number of threads the heap invariant holds, growth with the lock dropped included |
| HeapRuns.BootedInv | kernel/mm/heap.c:36-65 | the heap and page allocator after boot, short of pages or not, are a state from which such runs start |
| HeapRuns.SecondAttemptIff | kernel/mm/heap.c:111-166 | a thread that obtained all the pages it asked for is served by its second attempt, if and only if its page count did not wrap around |
| HeapRuns.FairIff | kernel/mm/heap.c:69-82 | which requests keep the minimum block size: all for 16 bytes, exactly the non-wrapping ones for 32 |
| HeapRuns.StepBounded | kernel/mm/heap.c:135-165 | every step keeps recorded bounds that cover the heap |
| HeapState.InitialBoundedIff | kernel/mm/heap.c:46-65 | before the heap grows the recorded bounds cover it if and only if all 64 pages were adjacent at boot |
| HeapState.ShortInitDropsFree | kernel/mm/heap.c:46-53 | with fewer pages and before any growth the free of a block of that heap does nothing |
| HeapState.ShortGrowBoundedIff | kernel/mm/heap.c:135-165 | one growth repairs a short boot if and only if the new region ends at or above the end of the first pages |
| HeapRuns.ShortBootBounds | kernel/mm/heap.c:46-165 | in every run from a short boot the lower bound stays 0 and the upper one is the end of the highest region that growth has added |
| HeapRuns.ShortBootFreeIff | kernel/mm/heap.c:46-204 | in every run from a short boot a free takes effect if and only if the block ends at or below that highest end; otherwise nothing changes and the block stays live |
| HeapRuns.FullBootBounded | kernel/mm/heap.c:55-204 | in every run from a boot with all 64 pages every free takes effect |
| HeapMemory.TakeList | kernel/mm/heap.c:86-107 | after the stores of an allocation the words in memory are again the linked list of the new free list |
| HeapMemory.InsertList | kernel/mm/heap.c:206-237 | after the stores of an insertion with both merges the words in memory are the linked list of the new free list |
| Kheap.TakeRepresents | kernel/mm/heap.c:83-107 | the stores of an allocation turn a memory that represents the heap into one that represents the heap after the allocation, live headers included |
| Kheap.ReleaseRepresents | kernel/mm/heap.c:190-237 | the same for a free |
| Kheap.GrowRepresents | kernel/mm/heap.c:135-165 | the same for growth |
| Kheap.FreedCanary | kernel/mm/heap.c:195-204 | after a free the word where the inverted size was is a pointer or an end mark and never equals the inverted size, so a second free is ignored |
| Kheap.PayloadApart | kernel/mm/heap.c:99-103 | a store into the payload of a live block touches no header and no list word |
| Kheap.Kheap.Init | kernel/mm/heap.c:36-65 | takes adjacent pages until it has 64, the next one is not adjacent or none is left, and makes them one free block; the bounds are recorded only when all 64 were obtained; nothing happens exactly if no page is left |
| Kheap.Kheap.Kmalloc | kernel/mm/heap.c:69-170 | succeeds if the list has a fitting block, and otherwise if and only if the list grown by the pages obtained has one; the result is the payload of a new live block, disjoint from every other; failure leaves the live blocks alone and means that no page was left, the next page was not adjacent, or the page count wrapped |
| Kheap.HoldsRequestIff | kernel/mm/heap.c:69-82 | the block handed out holds the request if and only if the size does not wrap around |
| Kheap.Kheap.KmallocAligned | kernel/mm/heap.c:174-186 | for a positive size, a power of two as alignment and a padded size that does not wrap, succeeds if and only if the list, or the list grown by the pages obtained, has a block for the padded size; failure means the pages were asked for in vain; a zero size or another alignment gives 0 and changes nothing; the result is aligned, and it and the stored back pointer lie inside the raw block's payload |
| Kheap.AlignedInsideIff | kernel/mm/heap.c:174-186 | aligned address and space lie inside the raw block if and only if the padded size does not wrap in the inner allocation |
| Kheap.Kheap.Kfree | kernel/mm/heap.c:190-237 | null, a header whose canary does not match and a block outside the bounds change nothing; a live block returns to the list; afterwards its header no longer passes, so a second free is a no-op |
| Kheap.Kheap.GrowHeap | kernel/mm/heap.c:111-165 | fails exactly if no page is left, changing nothing; otherwise adds the region obtained, which is smaller than wanted only if the page after it is not the next one to be had, and keeps the whole invariant |
| Paging.WalkUnique | kernel/mm/vmm.c:246-289 | two walks that end in the same page table took the same indices, and from private slots the same root |
| Paging.LeafLimits | kernel/mm/vmm.c:57-95 | in every valid tree the write right of an address is that of its leaf, and the user right needs the leaf's |
| Paging.LeafVm | kernel/mm/vmm.c:291-297 | the leaf store gives the whole page the new leaf with exactly its rights, moves no other address in any root and, in slots 1 to 255, nothing at all in other roots; the page-table invariant is kept |
| Paging.WidenVm | kernel/mm/vmm.c:57-59 | widening an intermediate entry moves no translation of any root, takes no right away and changes no write right; a page gains the user right only if the widening was for user code and its leaf has that right; private pages keep the rights of their leaves |
| Paging.LinkVm | kernel/mm/vmm.c:60-95 | hanging a zeroed table into an empty entry leaves every translation of every root as it was, rights included |
| Paging.BootVm | kernel/mm/vmm.c:104-135 | the boot tables form a tree and map each address below 4 GiB to itself |
| Paging.NewRootVm | kernel/mm/vmm.c:219-237 | adding a root with the shared slots copied keeps the invariant and every translation of every other root |
| Paging.HugeVm | kernel/mm/vmm.c:188-191 | a 2 MiB identity leaf changes exactly its region and keeps the invariant |
| Vmm.Vmm.constructor | kernel/mm/vmm.c:104-135 | the boot tables are built entry by entry; every address below 4 GiB translates to itself |
| Vmm.Vmm.WalkIn | kernel/mm/vmm.c:246-289 | the creating walk succeeds if and only if no 2 MiB leaf covers the address and as many frames are left as tables are missing on the way, and then leaves a path with the rights asked for; in no address space does it move an address or take a right away; whether it succeeds or not, exactly the two upper entries on its way gain the user right if it was for user code, so that in that gibibyte the leaf alone decides whether user code reaches a covered address |
| Vmm.Vmm.MapPageIn | kernel/mm/vmm.c:291-297 | succeeds under exactly that condition; then each byte of the page translates to its byte of the given frame with exactly the given rights; every other address of every root keeps target and write right, private slots keep all rights, and elsewhere the user right is gained only by a user mapping and under leaves that have it; on failure nothing moves, even if tables were created, but the upper entries are open to user code just as after success |
| Vmm.RefusedMapOpens | kernel/mm/vmm.c:263-277 | on the boot tables a page marked for user code is closed to it, and a user mapping of that page, which is refused, opens it |
| Vmm.LowCovered | kernel/mm/vmm.c:276-277 | every address below 4 GiB is covered by a 2 MiB leaf in every address space, so a mapping there is always skipped |
| Vmm.Vmm.UnmapPage | kernel/mm/vmm.c:147-155 | a page mapped by a page table faults afterwards and nothing else moves; under a 2 MiB leaf or a hole nothing changes |
| Vmm.Vmm.CreateAddressSpace | kernel/mm/vmm.c:219-237 | the new root sees what the kernel's root sees in slot 0 and the upper half, with the same rights in the upper entries below 4 GiB, and faults in slots 1 to 255; no other root changes |
| Vmm.Vmm.MapMmio | kernel/mm/vmm.c:157-195 | unless memory runs out, every byte of the device range reaches itself, can be written by the kernel and not by user code, and is mapped uncached and write-through; up to where memory runs out this holds region by region; no address 2 MiB or more away from the range changes target or rights in any root |
| Vmm.Vmm.MarkHugeUser | kernel/mm/vmm.c:197-211 | only the leaf gains the user right: the page becomes reachable from ring 3 if and only if both entries above already allow it |
| Vmm.MarkedStillClosed | kernel/mm/vmm.c:113-126 | on the boot tables neither entry above any leaf allows it, so marking does not open the page |
| Elf.AcceptedIff | kernel/elf.c:118-124 | an accepted segment lies inside the file and below the end of the user half if and only if its ends do not wrap around 64 bits |
| Elf.TableInsideIff | kernel/elf.c:104-111 | a program header table that passes the bounds test lies inside the file if and only if its end does not wrap around |
| Elf.WrappedAccepted | kernel/elf.c:118-124 | a concrete wrapping segment that is accepted for a file of any size |
| Elf.AcceptedPlain | kernel/elf.c:118-124 | a segment whose sums do not wrap is accepted if and only if its bytes lie in the file, it asks for at most 16 MiB and ends in the user half |
| ElfFormat.HeaderRoundTrip | kernel/elf.c:82-112 | for every ELF64 header written field by field in little-endian order, the header is accepted if and only if its magic, class, byte order, type and machine are the required ones, and the offset and count read from it are those written |
| ElfFormat.EntryRoundTrip | kernel/elf.c:114-116 | for every program header entry written field by field at its place in the table, the segment read there has exactly its fields, and is loaded if and only if its type is PT_LOAD |
| ElfFormat.LoadedEntry | kernel/elf.c:114-155 | from the entry as written to what user code finds: the file's bytes from its offset on, then zeros up to its memory size, at its address, writable if and only if PF_W is set |
| Elf.Loader.FillPage | kernel/elf.c:139-151 | byte by byte the page holds the file byte of its address, or zero outside the file part; the copy stays inside file and page |
| Elf.Loader.LoadPage | kernel/elf.c:134-153 | fails exactly when no page is left; on a free user page the segment's bytes are then visible there if and only if frames for the missing tables were left too, and otherwise nothing moved and memory is exhausted; no other private address of any root changes; below 4 GiB nothing moves, and in the gibibyte of the page user code reaches a covered address if and only if its leaf has the user right |
| Elf.Loader.LoadSegment | kernel/elf.c:126-154 | all pages of the segment are visible, or all but the last one and memory is exhausted, which the stack then runs into; below 4 GiB nothing moves in any root, and an upper entry of this one gains the user right if and only if a page of the segment lies under it |
| Elf.Loader.LoadStack | kernel/elf.c:159-169 | all four stack pages are mapped, zero and writable whenever it succeeds; it fails only with memory exhausted |
| Elf.Loader.Load | kernel/elf.c:82-169 | rejects only for a bad header, table or segment, gives up on memory only when no page is left, and otherwise, for page-disjoint segments in slots 1 to 255, every byte of every segment and of the stack is in place and no other address space changed there; below 4 GiB every address reaches what it reached in the kernel's address space before the call, and user code reaches it if and only if its leaf has the user right and each of the two entries above had it before or has a page of the file under it; in other address spaces nothing moves there and only leaves with the user right can have become reachable |
| Elf.HighFileKeepsLow | kernel/elf.c:113-155 | after loading a file with all segments above slot 0 every address below 4 GiB translates, rights included, as in the kernel's address space before |
| Elf.LoadedImage | kernel/elf.c:113-155 | in a loaded segment address vaddr + k reads the file byte for k below filesz and zero up to memsz, with the segment's write right |
| Elf.LowByteClosed | kernel/elf.c:153 | after such a load no byte of a segment below 4 GiB is there for ring 3 unless the kernel's leaf had the user bit before the call |
| Paths.ParseGood | kernel/fs/vfs.c:49-98 | every component the resolver reads has 1 to 63 characters and no slash |
| Paths.ParseAppend | kernel/fs/vfs.c:49-98 | reading a path distributes over a slash |
| Paths.ParseParent | kernel/fs/vfs.c:103-142 | every absolute path reads as the components before its last slash followed by the pieces of its base name, and the parent resolver sees those components if the parent has at most 255 characters |
| Paths.AgreesIff | kernel/fs/vfs.c:103-142 | the two resolvers agree on a path if and only if its base name has 1 to 63 characters and its parent reads the same when cut to 255 |
| Tree.UniquePath | kernel/fs/vfs.c:49-98 | in a well-formed table a vnode has at most one path |
| Tree.RenamedLinked | kernel/fs/vfs.c:385-408 | rename keeps parent and child links in agreement whatever the destination |
| Tree.RenameReroots | kernel/fs/vfs.c:365-408 | for a destination outside the moved subtree every path under the new name resolves as it did under the old one, the old paths are gone and no other path changes |
| Tree.RenameAttachedIff | kernel/fs/vfs.c:365-408 | the tree stays in one piece if and only if the destination directory is not the moved vnode or below it |
| Tree.RenamedUniqueIff | kernel/fs/vfs.c:385-408 | rename keeps sibling names unique if and only if the stored name is free in the new directory or is the vnode's own there |
| Tree.RenameTidyIff | kernel/fs/vfs.c:365-408 | a rename leaves a well-formed tree in one piece if and only if the vnode stays where it is or goes to a free name outside its own subtree |
| Ramfs.RenameIntoSelf | kernel/fs/vfs.c:365-408 | the filesystem after mkdir of /a lets it be renamed to /a/b, and then no path reaches it |
| Tree.CreatedUniqueIff | kernel/fs/vfs.c:176-190 | sibling names stay unique if and only if the stored name was free or the directory is full |
| Tree.CreateAddsPath | kernel/fs/vfs.c:176-190 | creation under a free name adds exactly one path, and none when the directory is full |
| Tree.CreateKeepsPaths | kernel/fs/vfs.c:176-190 | creation under a taken name or in a full directory changes no path |
| Tree.CreateTidyIff | kernel/fs/vfs.c:176-190 | a creation leaves a well-formed tree in one piece if and only if the stored name is free or the directory full |
| Tree.UnlinkRemovesPath | kernel/fs/vfs.c:333-363 | unlinking removes exactly one path |
| Ramfs.UnlinkedOk | kernel/fs/vfs.c:350-363 | after an unlink with its descriptors closed every open descriptor refers to a live file with offset <= size <= capacity |
| Ramfs.RenamePaths | kernel/fs/vfs.c:365-408 | rename on path strings of any length: if the stored place is free and outside the moved subtree, every path is re-rooted there or unchanged |
| Ramfs.RenameKeepsTreeIff | kernel/fs/vfs.c:365-408 | a permitted rename leaves a well-formed tree in one piece if and only if its stored place is free and not at or below the old path, or is the vnode's own place |
| Ramfs.LongRenameDuplicates | kernel/fs/vfs.c:365-408 | renaming to a 64-character name whose first 63 name another file in the root is permitted and gives two entries of one name |
| Ramfs.CreateFoundIff | kernel/fs/vfs.c:159-201 | a created path resolves to the new vnode if and only if the two resolvers agree on it and the directory had room; no other path changes |
| Ramfs.CreateSlotIff | kernel/fs/vfs.c:164-173 | a create goes ahead if and only if the path has a last component in an existing directory and a vnode is free; it takes the lowest free one |
| Ramfs.RenameAllowedIff | kernel/fs/vfs.c:365-385 | a rename goes ahead if and only if the old path leads to a vnode other than the root, the new path to nothing, the text before its last slash to a directory, and that directory holds the vnode already or has fewer than 32 entries |
| Ramfs.UnlinkAllowedIff | kernel/fs/vfs.c:321-332 | an unlink goes ahead if and only if the path leads to a vnode other than the root and no path below it leads anywhere |
| Ramfs.ApplyTidyIff | kernel/fs/vfs.c:159-408 | each create, mkdir, unlink, rename and write keeps a well-formed tree in one piece if and only if the condition on its paths holds |
| Ramfs.TreeRunInv | kernel/fs/vfs.c:159-408 | in every run of such calls from the empty filesystem links agree, sibling names are unique and every vnode in a directory is reached from the root |
| Tree.CreateReachedIff | kernel/fs/vfs.c:176-190 | a creation leaves every vnode within reach of the root if and only if the stored name is free and the directory has room |
| RamfsRuns.ApplyReachedIff | kernel/fs/vfs.c:159-408 | each call leaves every vnode of a well-formed tree within reach if and only if the condition on its paths holds and a create finds room |
| RamfsRuns.NoVnodeLost | kernel/fs/vfs.c:159-408 | in every run of such calls from the empty filesystem every vnode in use is reached from the root by exactly one path |
| RamfsRuns.FullDirectoryLoses | kernel/fs/vfs.c:176-190 | a concrete run: after 32 directories in the root the next one takes a vnode that no path reaches |
| Ramfs.Vfs.ResolvePath | kernel/fs/vfs.c:49-98 | the character loop computes the lookup of the path's components |
| Ramfs.Vfs.ResolveParent | kernel/fs/vfs.c:103-142 | the directory and the stored name of a path, with the 255- and 63-character cuts |
| Ramfs.Vfs.Open | kernel/fs/vfs.c:159-201 | a descriptor at offset 0, the lowest free one, on the resolved or newly created file; it is given if and only if a descriptor is free and the path leads to a file, or leads to nothing and can be created; the table is otherwise as before |
| Ramfs.Vfs.Close | kernel/fs/vfs.c:203-210 | frees exactly that descriptor |
| Ramfs.Vfs.Read | kernel/fs/vfs.c:212-229 | returns the bytes of the file's contents from the offset, as many as asked for and present, and moves the offset past them |
| Ramfs.Vfs.Write | kernel/fs/vfs.c:231-256 | the contents become the old contents overwritten at the offset, cut to 16 KiB; other files are untouched |
| Ramfs.WriteThenRead | kernel/fs/vfs.c:212-256 | the bytes written at an offset are the bytes read back from it, and all other bytes are as before |
| Ramfs.Vfs.Mkdir | kernel/fs/vfs.c:271-296 | creates the directory in the lowest free slot if and only if the path is free, its parent is a directory and a vnode is free; otherwise changes nothing |
| Ramfs.Vfs.Unlink | kernel/fs/vfs.c:321-363 | returns 0 if and only if the path leads to a vnode other than the root with nothing below it; then removes the vnode and closes exactly its descriptors; otherwise changes nothing |
| Ramfs.Vfs.Rename | kernel/fs/vfs.c:365-408 | returns 0 if and only if the old path leads to a vnode other than the root, the new path to nothing, its parent to a directory, and that directory holds the vnode already or has fewer than 32 entries; then makes exactly the table change of the rename, and otherwise none |
| Sched.PickBest | kernel/sched/task.c:178-202 | the pick is a ready task of the best priority among the ready ones, or 0 if there is none |
| Sched.PickCloser | kernel/sched/task.c:178-202 | a pick at a ready task's priority is that task or strictly nearer to it in cyclic distance |
| Sched.PickKeepsBestIff | kernel/sched/task.c:193-201 | the pick has the best priority of all that could run, the running task included, if and only if the running task is not better than every ready one, or than the idle task if none is ready |
| Sched.YieldRunsWorse | kernel/sched/task.c:204-239 | a state in which a running task of priority 0 yields and a task of priority 2 runs |
| Sched.PickedWithin | kernel/sched/task.c:178-239 | in every run, decisions that pass over a ready task at its own priority are fewer than the slots, so it is picked or a better priority is ready |
| Sched.CleanupSlot | kernel/sched/task.c:141-174 | slot by slot what the nested reaping loops do: each waiter is told by its own target, each dead slot other than the current one loses its stack, nothing else changes |
| Sched.FreedOnce | kernel/sched/task.c:141-174 | a pass frees only stacks that are live and never the current task's |
| Sched.FailedCreateIff | kernel/sched/task.c:57-90 | a failed stack allocation keeps the invariant if and only if no dead slot was about to be reused; otherwise a ready task without a stack remains |
| Sched.NeverAdoptedIff | kernel/elf.c:184-189 | in every run a slot runs in the kernel's address space if and only if no task that was ever in it, dead ones included, was given another one |
| Sched.CreatedCleanIff | kernel/sched/task.c:57-90 | in every run a created task starts in the kernel's address space if and only if no earlier task of its slot was given another one |
| Sched.InheritingRun | kernel/sched/task.c:57-90 | a concrete run of six calls in which a kernel task starts with the address space of the dead user task whose slot it took |
| Sched.StepInv | kernel/sched/task.c:57-373 | every call keeps the invariant: unique ids, one owner per stack, no waiter without its target |
| Sched.RunInv | kernel/sched/task.c:57-373 | the invariant holds in every state of every run of calls |
| Sched.WaiterHasTarget | kernel/sched/task.c:261-278 | in every state of every run the slot a blocked task waits for is still there and unreaped; for the idle task, throughout a wait that began so |
| Sched.WaitReturns | kernel/sched/task.c:261-278 | in every run a waiter that is not killed next runs only after its target was reaped, holding the target's exit code; for the idle task, if every decision during the wait finds a ready task |
| Sched.WaitCallReturns | kernel/sched/task.c:261-278 | the same from the wait call on, whoever calls it: the target is reaped between the call and the caller's next turn |
| Sched.WaitZeroForever | kernel/sched/task.c:141-278 | in every run a caller that waits for the idle task stays blocked until it is killed |
| Sched.IdleResumedIff | kernel/sched/task.c:178-202 | a wait of the idle task ends without its target having exited if and only if a decision finds no ready task |
| Sched.IdleWaitReturnsEarly | kernel/sched/task.c:261-278 | a state in which that happens at once |
| Scheduler.Scheduler.CleanupDeadTasks | kernel/sched/task.c:141-174 | the in-place loops compute the cleanup pass |
| Scheduler.Scheduler.PickNext | kernel/sched/task.c:178-202 | the in-place passes wake, reap and choose as in the state machine, whose runs `SchedRuns.SleeperWakes`, `Sched.WaitReturns` and `Sched.PickBest` describe |
| Scheduler.Scheduler.Yield | kernel/sched/task.c:204-239 | the new table and current task are those of a yield |
| Scheduler.Scheduler.SleepFor | kernel/sched/task.c:247-253 | the step of the state machine for a sleep, whose end `SchedRuns.SleeperWakes` describes over runs |
| Scheduler.Scheduler.WaitFor | kernel/sched/task.c:261-278 | returns at once for an unknown or dead task with its code, otherwise blocks on it and yields |
| Scheduler.Scheduler.ExitWith | kernel/sched/task.c:280-287 | the step of the state machine for an exit, whose lasting effect `SchedRuns.EndedStays` and `SchedRuns.WaiterGetsCode` describe over runs |
| Scheduler.Scheduler.SendSignal | kernel/sched/task.c:330-373 | the step of the state machine for a signal (`SchedRuns.EndsIff`); -1 for an unknown signal or task, -2 for a dead one, 0 otherwise |
| Scheduler.Scheduler.CreateTask | kernel/sched/task.c:57-123 | the new table is that of a creation, the zeroed slot of a refused one included, and the state is valid exactly when that did not happen |
| Scheduler.Scheduler.Adopt | kernel/elf.c:185-189 | the loader's stores into a created task, as a step of the state machine |
| SchedRuns.SleeperWakes | kernel/sched/task.c:178-253 | in every run a task that sleeps and is neither killed nor stopped is asleep exactly as long as every decision since then came before now + ticks, and from the first later one on it is ready until it is picked |
| SchedRuns.EndsIff | kernel/sched/task.c:280-373 | one call makes a live task dead if and only if it is the task's own exit, or a signal from 1 to 19 other than 17 and 19 for it; the code is the argument of the exit, or 128 plus the signal |
| SchedRuns.SelfSignalIff | kernel/sched/task.c:330-373 | a task that has signalled itself to death runs on to its next decision: a yield or an exit makes its end final, a sleep or a wait revokes it |
| SchedRuns.StopIsForever | kernel/sched/task.c:330-373 | in every run a task that another one stops while it was not waiting stays blocked until it is killed |
| SchedRuns.IdHome | kernel/sched/task.c:57-135 | in every run a task id that was in one slot is never found in another |
| SchedRuns.EndedStays | kernel/sched/task.c:141-174 | in every run a task that has ended stays dead with its code until its slot is reused |
| SchedRuns.WaiterGetsCode | kernel/sched/task.c:261-373 | in every run, if a task that another waits for exits or is ended by a signal, the waiter's next turn begins with exactly that exit code |
| SchedRuns.CreatedTask | kernel/sched/task.c:57-135 | a creation with a stack succeeds if and only if fewer than 64 slots are in use or one holds a dead task whose stack was freed; the new task is ready, with a fresh id, its parent, a clamped priority and nothing to wait for, and no other slot changes |
| XhciRing.StepInv | kernel/drivers/xhci.c:143-161 | each single store of a push and each single read of the controller keeps the ring invariant |
| XhciRing.ConsumedInOrder | kernel/drivers/xhci.c:127-161 | for every interleaving, any number of wraps and at most n - 1 outstanding, what the controller has read is a prefix of what was pushed, each TRB complete and once |
| XhciRing.PollSucceedsIff | kernel/drivers/xhci.c:143-161 | with TRBs outstanding a poll succeeds except exactly when the ring is full and the controller stands at the link TRB |
| XhciRing.NeverStalls | kernel/drivers/xhci.c:143-161 | with one more slot kept free no poll ever stalls |
| XhciRing.FullPushLoses | kernel/drivers/xhci.c:143-161 | a push into a full ring, wherever the controller stands, replaces the oldest unread TRB, and afterwards no number of controller reads consumes anything |
| XhciRing.Ring.constructor | kernel/drivers/xhci.c:127-141 | a zeroed ring with the link TRB back to its start |
| XhciRing.Ring.Push | kernel/drivers/xhci.c:143-161 | the ring, position and cycle bit after a push |
| XhciRing.PushIsSteps | kernel/drivers/xhci.c:225-241 | the stores of a push one after the other are that push |
| XhciEvents.StepInv | kernel/drivers/xhci.c:184-206 | each store of the controller and each poll of the driver keeps the event-ring invariant |
| XhciEvents.PolledInOrder | kernel/drivers/xhci.c:184-206 | in every run a poll succeeds if and only if an event is there, and it points at the next event in order |
| XhciEvents.HandedOutStays | kernel/drivers/xhci.c:184-206 | the slot a poll handed out keeps its event until the next successful poll, although the dequeue pointer was moved past it at once |
| XhciEvents.EventRing.PollOnce | kernel/drivers/xhci.c:188-204 | the driver's position and cycle bit follow the poll step |
| FatNames.PlaceEffect | kernel/fs/fat32.c:146-172 | what placing 13 characters does to every buffer position and to the length, which runs over padding but never past 247 |
| FatNames.FileRoundTrip | kernel/fs/fat32.c:146-172 | the entries written for a file, scanned, report its name up to 247 characters and leave the assembly state empty |
| FatNames.DirectoryRoundTrip | kernel/fs/fat32.c:201-265 | any list of files written one after the other and scanned is reported in order, once each, whatever was found before |
| FatNames.ListingFiles | kernel/fs/fat32.c:201-265 | entry i of that report has the name of file i and its own 8.3 entry |
| FatNames.ListDirectory | kernel/fs/fat32.c:201-265 | a written directory, whatever label or short-only entries it begins with, lists those and then exactly its files and ends at the free entry |
| FatNames.DotsFirst | tools/mkfat32.py:182-188 | the . and .. entries of a subdirectory are such a beginning and are listed by those names |
| FatNames.ShortNameIs | kernel/fs/fat32.c:176-195 | the name of an entry without a long name is its base and, if it has one, a dot and its extension, without padding and in lower case |
| FatNames.NamesIntactIff | kernel/fs/fat32.c:146-265 | the scan of a written directory gives every file its whole name if and only if no name is longer than 247 characters |
| FatImage.Image.WriteLfnEntry | tools/mkfat32.py:98-120 | the 32 bytes decode to the order byte, the attribute and the 13 characters, with the type and checksum bytes in place; nothing outside them changes |
| FatImage.Image.WriteShortEntry | tools/mkfat32.py:86-96 | the 32 bytes decode to the 8.3 name, attribute, cluster and size; nothing outside them changes |
| FatImage.Image.WriteFileEntry | tools/mkfat32.py:128-150 | the slots hold the chunks of the name, last first, then the 8.3 entry; nothing else changes; the next slot is returned |
| FatImage.Image.WriteFiles | tools/mkfat32.py:161-180 | any list of files written one after the other occupies consecutive slots that decode to them; nothing else changes |
| FatImage.Image.WriteFatEntry | tools/mkfat32.py:64-67 | the entry holds the value in both copies of the table, and no other byte changes |
| FatImage.DirectoryGrows | tools/mkfat32.py:128-150 | writing one more file after a written directory gives the written directory of the longer list |
| Fat32.Reader.LfnAppend | kernel/fs/fat32.c:146-172 | the static buffer, length and flag follow the assembly step, for any entry on disk within bounds |
| Fat32.Reader.ReadCluster | kernel/fs/fat32.c:215-222 | succeeds exactly if all sectors can be read, with 32-bit sector arithmetic, and gives their bytes in order |
| Fat32.Reader.Iterate | kernel/fs/fat32.c:201-265 | terminates on every table, cyclic ones included; reports the scan of the clusters visited; 0 exactly at the end of directory or chain, -1 only for an unreadable cluster or at the bound |
| Fat32.IterateLists | kernel/fs/fat32.c:201-265 | a completed iteration of a directory whose clusters hold such entries, over any cluster chain, reports exactly them |
| FatDisk.EntriesOnDisk | tools/mkfat32.py:83-84 | the reader finds a directory cluster of the image where the writer put it: its entries are the entries written |
| FatDisk.TableOnDisk | tools/mkfat32.py:64-67 | the reader's next cluster is the value the writer stored |
| FatDisk.ClusterPlace | kernel/fs/fat32.c:126-130 | for every image, number of sectors per cluster and start of the data, cluster c is the run of bytes (c - 2) clusters after that start |
| FatDisk.EntryPlace | kernel/fs/fat32.c:111-124 | for every image and start of the table, the next cluster is the low 28 bits of the four bytes at four times the cluster number |
| FatDisk.WrittenIsListed | kernel/fs/fat32.c:201-265 | a directory written into the image, on the disk cut from it, is listed exactly |
| FatDisk.ListImage | kernel/fs/fat32.c:201-265 | the reader run over the image returns 0 and reports what comes first and then exactly the files, in order |
| FatDisk.MakeRoot | tools/mkfat32.py:61-180 | the tables and the root directory with its volume label, for any files that fit the cluster, are such a directory |
| FatDisk.ContentsOnDisk | tools/mkfat32.py:161-165 | the bytes stored for a file in one cluster are what reading it delivers |
| FatFiles.WithinBound | kernel/fs/fat32.c:487-493 | the bound on a walk never cuts a chain without a loop, on any disk |
| FatFiles.FileDelivered | kernel/fs/fat32.c:465-512 | on every image, for every cluster size and every loop-free chain long enough for the file, reading succeeds and delivers the bytes of its clusters in the order of the chain |
| FatFiles.ReadImage | kernel/fs/fat32.c:465-512 | the reader run on such a file: the buffer holds those bytes and is otherwise untouched |
| FatFiles.ListChain | kernel/fs/fat32.c:201-265 | the reader run on a directory with a loop-free chain that ends, of any length and cluster size, returns 0 and reports the scan of its clusters' bytes |
| Fat32.Reader.ReadFile | kernel/fs/fat32.c:465-512 | returns min(file size, buffer) and the buffer holds the chain's bytes, the rest untouched; -1 exactly if the walk meets an unreadable cluster or exceeds the bound |
| Fat32.WholeFileIff | kernel/fs/fat32.c:511 | the bytes delivered are as many as the return value says if and only if the chain is long enough |
| Fat32.NoClusterNoBytes | kernel/fs/fat32.c:511 | a file entry without a cluster delivers nothing, whatever size is returned |
| Checksum.FoldMod | kernel/net/net.c:77-79 | folding is reduction modulo 65535 that keeps zero apart from non-zero |
| Checksum.ZeroIff | kernel/net/net.c:239-240 | the receiver's comparison with zero accepts exactly the buffers whose non-zero sum is a multiple of 65535 |
| Checksum.FilledChecks | kernel/net/net.c:66-80 | filling the zeroed field at any even offset of any buffer, odd lengths included, makes the checksum of the whole zero |
| Checksum.OtherValueIff | kernel/net/net.c:66-80 | with another value in one word a buffer still checks if and only if the two are 0 and 0xFFFF |
| Checksum.ByteChangeSeen | kernel/net/net.c:66-80 | no change to a single byte of a buffer that checks goes unnoticed, the last odd byte included |
| Checksum.AddWords | kernel/net/net.c:69-76 | for up to 65535 bytes the 32-bit accumulator is the exact sum |
| Checksum.IpChecksum | kernel/net/net.c:66-80 | the loops compute the complement of the folded sum |
| Checksum.SendIpv4 | kernel/net/net.c:192-217 | the packet built in place is the header with its checksum filled in, then the payload |
| Checksum.SentHeader | kernel/net/net.c:200-214 | a sent header checks and carries length, protocol, addresses and payload |
| Checksum.HandleIcmp | kernel/net/net.c:230-258 | the handler's in-place reply and its tests give the action that `Checksum.AnsweredIff` and `Checksum.WaitEndsIff` characterise |
| Checksum.HandleIpv4 | kernel/net/net.c:260-280 | the same for a whole packet |
| Checksum.AnsweredIff | kernel/net/net.c:230-280 | a packet is answered if and only if it is addressed to this host or to everyone, its header and its message both check, it is ICMP, holds at least 8 bytes of message, is an echo request of code 0 and its reply fits a frame; the reply goes to the sender, checks, and differs in type and checksum alone |
| Checksum.WaitEndsIff | kernel/net/net.c:230-280 | a packet ends a wait if and only if it is accepted in the same sense, is an echo reply with the expected number and a ping is pending |
| Checksum.EchoRoundTrip | kernel/net/net.c:230-258 | every echo request of 8 to 1480 bytes that checks is answered with its own identifier, number and data, and the answer passes the sender's checks |
| Checksum.PingAnswered | kernel/net/net.c:313-332 | a ping between any two addresses, with any sequence number, ends its wait |

## Left out

- Pmm.Allocator.Init: requires that no 64-bit sum over the memory map wraps and that the reserved ranges have bits in the bitmap, because otherwise the code writes past the bitmap; `Pmm.BootMapIff` says exactly when, and `Pmm.PartialPageOverruns` is such a map.
- Kheap.Kheap.KmallocAligned: excludes padded sizes on the last 31 values of the 64-bit range, for which the inner allocation wraps and the result is outside its block (`Kheap.AlignedInsideIff`).
- Kheap.Kheap.Kfree: requires that a header which passes the canary test belongs to a live block; the code cannot tell a forged header from a real one.
- Kheap.Kheap.Kmalloc: is sequential; interleaving of threads in the growth window is in `HeapRuns`.
- Elf.Loader.Load: requires that the sums over the program header table and over each PT_LOAD segment do not wrap, because a wrapped offset reads outside the file buffer; the state of pages shared by two segments is not described.
- Vmm.Vmm.MapMmio: for ranges that end below 2^48 without wrap-around.
- Vmm.Vmm.MarkHugeUser: for addresses below 4 GiB, the range its comment names; elsewhere the code follows entries without looking at their present bit.
- Sched.WaitReturns: for targets other than task 0, which is `Sched.WaitZeroForever`, and for waiters that no signal kills; for the idle task in slot 0 as long as decisions find a ready task, which `Sched.IdleResumedIff` shows to be needed.
- Sched.WaiterHasTarget: for the idle task only throughout one wait, because its record keeps a target after an early return and a stop signal can block it again.
- TLB contents, `invlpg`, CR3 loads and caching behaviour of mappings.
- Reading the ELF file through the VFS, the table of pending launches, the trampoline into ring 3, and the entry point, which is read after its buffer was freed.
- `vfs_stat` and `vfs_readdir`; the heap's answer to a request for file contents is a parameter.
- Context switching, saved registers, kernel stack setup, timer-driven preemption and custom signal handlers; each call up to its yield is one step, and time is a parameter.
- Doorbells, time-outs, slot addressing and device enumeration of the xHCI driver; the event poll is one pass of its loop.
- FAT32 mounting and path resolution; the volume's geometry, the sector reads, the resolved entry and the heap's answer for the cluster buffer (taken to succeed) are given. The boot sector of the image is not modelled.
- FatDisk.MakeRoot: the root directory only; /docs with its `.` and `..` entries is covered by `FatNames.DotsFirst` and `FatDisk.ListImage` without a method that writes it.
- The checksum byte of long-name entries is written but the reader never looks at it.
- ARP, frame transmission and the ping's timing; the ping state is a parameter of the handlers.
- Console, shell, syscall table, HAL dispatch, other drivers, string routines and the boot loader.
