# Verified model of a small x86 kernel

A Dafny 4.11 model of the parts of the kernel that manage shared, counted or recycled resources,
with proofs that they do what the rest of the system relies on.  `dafny verify dfyconfig.toml`
checks everything.

* **Copy-on-write memory** (`VmState`, `VmLemmas`, `VmSteps`, `VmClone`, `VmScarce`, `VmSpec`,
  `VmView`, `VmMachine`, `VmKernel`, `VmRun`).  A frame allocator with reference counts, two-level page
  tables, the two-phase clone of fork, the fault handler, kernel copies to user memory and brk.
  References to frames are named by where they are kept, and the central invariant equates each
  counter with the number of references.  The main result is that lazy sharing cannot be told
  from eager copying, over every run and whatever allocation fails, and that an operation fails
  for memory exactly when frames or counters are short.
* **SimpleFS under the VFS** (`FsCodec`, `FsState`, `FsLemmas`, `SimpleFs`, `Vfs`, `VfsRun`).
  The on-disk directory, the sector bitmap, relocation on growth and shared offsets refine a map
  from names to byte strings; the bitmap always equals what a mount would rebuild.
* **Processes, descriptors and pipes** (`Pipes`, `Descriptors`, `Lifecycle`, `ProcessFacts`,
  `ProcessRuns`, `Processes`).  The ring buffer refines a bounded queue.  The process table keeps a
  ghost history of births, endings, signals, waits and reports.  Over every run of interrupts each
  exit status reaches the program that forked the child, at most once, and is the code of the exit
  or fault, or the signal, with which the child ended at one step of the run; what readers get from
  a pipe is a prefix of what writers gave it; counts of open files and pipe ends are exact, signal
  delivery terminates, and at an end of a pipe that is not crowded nobody is left blocked who could
  go on.
* **Scheduler** (`Scheduler`).  The linked ready queue with priority aging and the bound on waiting,
  for every run of calls.
* **Kernel heap** (`Heap`).  Headers with both links in memory, splitting and coalescing; the used
  blocks determine the layout.
* **Exec** (`ExecStack`, `Elf`, `Exec`).  Argument vectors, the ELF loader with its rollback, and
  the whole system call over the heap, the file system and the memory of the other modules: a
  failed call is invisible.

Where the kernel changes things in place the model is a class with methods, and each method is
proved against a specification on values.  Which ready process the scheduler prefers, the bytes a
user program wrote meanwhile, and whether an allocation or a copy to user memory fails are left
open, so that the results hold for all of them.

Some promises turn out to hold only under a condition, which is then proved to be the exact one:
the heap's rounding covers a request exactly up to 2^32-16 bytes (`Heap.AlignUpCovers`), and the
sector count covers a size exactly up to 2^32-512 bytes (`SimpleFs.SectorsCover`).  That a program
never runs with a signal pending is true after system calls and timer ticks, and false after a page
fault that ends a process: `ProcessFacts.FaultLeavesSignal` gives the state, and
`ProcessFacts.FaultUnsettled` says exactly when it happens.

## Model

| member | source | states |
|---|---|---|
| VmRun.Run | kernel/paging.c:377-526 | over every run of process creation, fork, user loads and stores through the fault handler, kernel copies, brk, image installation and teardown, whatever allocation fails, every process sees exactly the memory of a specification in which fork copies at once and heap pages exist as zeros; every denial is one the specification allows, and memory runs out only where it is scarce: too few low frames, a full counter, no scratch table or an injected failure; who does not act is not touched; a run that ends without processes has given back every frame |
| VmRun.Perform | kernel/vm.c:62-93 | the same for one event: the reply is allowed, the images are the specification's next state, running out of memory means scarcity, and the tables of every other process are unchanged |
| VmRun.Access | kernel/uaccess.c:70-126 | a user load, a user store or a kernel copy reads or writes exactly the bytes of the process's own image, is denied only where the specification denies it (a copy to addressable memory only if the process may not write all of it), and fails for memory only where frames are scarce |
| VmRun.Lifecycle | kernel/process.c:378-452 | creating, forking and ending a process add a fresh image, a copy of an image, or remove one, and touch no other |
| VmRun.Install | kernel/syscall.c:283-297 | installing a page of an image adds exactly that page, and is denied exactly for a page that is taken or is not one of the program or its stack |
| VmRun.Resize | kernel/syscall.c:1030-1069 | brk succeeds exactly for an end inside the heap range and then gives the image the specification's heap |
| VmRun.NotActing | kernel/paging.c:475-526 | through a whole run a process that does not act keeps its page tables and its memory, whatever the others do |
| VmRun.PrepareThenCopy | kernel/process.c:742-753 | once the range of a status pointer was made writable at the call, the copy when the caller is resumed cannot fail, whatever other processes do in between and however short memory is by then; so EFAULT is never reported for a status that was asked for at an address the process may write |
| VmLemmas.CountsDetermined | kernel/frame.c:148-225 | two states with the same spaces, tables and kernel references have the same reference counts, the same bitmap and the same used count; hence every failed operation that restores the tables restores the counters |
| VmLemmas.HeldIsCounted | kernel/frame.c:184-225 | a frame that any table entry, directory slot or kernel reference designates has a positive count, so no frame in use is ever free |
| VmLemmas.InvDelta | kernel/frame.c:184-225 | a change that adds or removes one reference and moves the counter of that frame by one keeps the count of every frame equal to the number of its references |
| VmLemmas.TakeFrame | kernel/frame.c:148-178 | taking an unreferenced frame keeps every invariant and changes no space |
| VmLemmas.WriteLeaf | kernel/paging.c:96-145 | writing one word of a table that belongs to one space changes one entry of that space and nothing else |
| VmSteps.AttachLeaf | kernel/paging.c:96-126 | moving a held frame into an empty entry keeps the counts exact |
| VmSteps.DropLeaf | kernel/paging.c:298-329 | clearing an entry and releasing its frame keeps the counts exact |
| VmSteps.ShareLeaf | kernel/paging.c:421-444 | a second entry for a frame that is retained keeps the counts exact |
| VmSteps.DropTable | kernel/paging.c:298-329 | giving up a table without user entries keeps the counts exact and changes no other space |
| VmSteps.DropDir | kernel/paging.c:298-329 | giving up a directory without owned tables keeps the counts exact and changes no other space |
| VmSteps.TakeOver | kernel/paging.c:502-508 | the only holder of a copy-on-write frame may make its entry writable in place |
| VmSteps.SplitPage | kernel/paging.c:510-525 | a shared copy-on-write page becomes a private copy with the same bytes, one reference moves from the old frame to the new, and no other space changes |
| VmSteps.WritableMeansOne | kernel/paging.c:446-467 | a frame mapped by a writable user entry has count 1, so no two spaces share a writable frame |
| VmSteps.IdleUsed | kernel/frame.c:270-280 | without address spaces the used count is the number of pinned frames |
| VmSteps.Booted | kernel/frame.c:92-146 | the allocator as frame_init leaves it satisfies the invariants |
| VmClone.Finish | kernel/paging.c:446-473 | after the three passes the clone maps every frame the source maps, writable entries of both have become copy-on-write, and nobody else changed |
| VmClone.ClonedMeans | kernel/paging.c:390-473 | entry by entry: what the source had writable or copy-on-write, source and clone both map copy-on-write and not writable afterwards; other user pages both map as they were; nothing else is mapped for users in the clone; the supervisor slots are the source's |
| VmClone.ClonedUnshared | kernel/paging.c:446-473 | after a clone every writable entry still has its frame to itself |
| VmClone.Abandoned | kernel/paging.c:331-375 | when the half-built clone is taken away, whichever pass failed, memory is the same as before |
| VmClone.Phase1Step | kernel/paging.c:390-419 | one table allocated for the clone keeps what is known of the first pass |
| VmClone.Phase2Step | kernel/paging.c:421-444 | one entry shared keeps what is known of the retaining pass |
| VmClone.Phase3Step | kernel/paging.c:446-467 | one source entry made copy-on-write keeps what is known of the committing pass |
| VmScarce.FrameThenTable | kernel/vm.c:18-33 | the frame of a page comes first and is the lowest free one, so with a missing table both come from the low frames: the table fails exactly if fewer than two were free |
| VmScarce.ShortMeans | kernel/frame.c:148-178 | page tables are short exactly if a failure is injected before the last of them or fewer frames between 3 and 4 MiB are free |
| VmScarce.CloneRefused | kernel/paging.c:390-419 | a table that cannot be had in the first pass shows that too few low frames were free for all tables of the source, an entry that cannot be retained that its counter is full |
| VmScarce.FullWhileSharing | kernel/paging.c:421-444 | a full counter in the retaining pass shows that one more reference from every entry of the source would overflow it, also if the source maps a frame twice |
| VmScarce.RoomForAll | kernel/paging.c:421-467 | a finished clone has counted every entry of the source twice, so there was room in every counter |
| VmScarce.SplitBudget | kernel/paging.c:510-525 | a private copy takes at most one low frame, also when it gives one back |
| VmView.CloneView | kernel/paging.c:377-473 | no process sees a difference after a clone, and the clone's image is the source's |
| VmView.Undisturbed | kernel/paging.c:475-526 | a process whose tables are unchanged sees no difference when only unreferenced frames were written |
| VmView.SoleWriter | kernel/paging.c:475-526 | if two entries map a frame and one is writable, they are the same entry |
| VmView.StoreView | kernel/paging.c:475-526 | a store through a writable entry changes one byte of one image |
| VmView.AddressSplit | kernel/paging.c:99-100 | an address is ten bits of directory index, ten of table index and twelve of offset |
| VmMachine.Machine.constructor | kernel/frame.c:92-146 | the frame allocator and the kernel's paging after boot: counts exact, no address space |
| VmMachine.Machine.MarkFree | kernel/frame.c:57-71 | exactly the frames of the range become free, and bitmap, counters and used count agree |
| VmMachine.Machine.MarkAllocated | kernel/frame.c:41-55 | exactly the frames of the range become allocated, and bitmap, counters and used count agree |
| VmMachine.Machine.InitPaging | kernel/paging.c:70-89 | the kernel directory with its identity map satisfies the invariants |
| VmMachine.Machine.FrameAllocBelow | kernel/frame.c:148-178 | returns the lowest free frame below the limit and outside the reserved low memory with count 1, and 0 exactly if there is none or a failure is injected, changing nothing then |
| VmMachine.Machine.FrameAlloc | kernel/frame.c:180-182 | the same without a limit |
| VmMachine.Machine.FrameRetain | kernel/frame.c:184-197 | adds one reference exactly if the frame is allocated and its count is below the maximum |
| VmMachine.Machine.FrameRelease | kernel/frame.c:199-225 | removes one reference, frees the frame with the last one, and never frees a reserved low frame |
| VmMachine.Machine.AllocTable | kernel/paging.c:39-47 | a fresh blank table from the low frames; 0 exactly if a failure is injected or no low frame is free, and then nothing changed |
| VmMachine.Machine.CreateAddressSpace | kernel/paging.c:270-296 | fails exactly if two low frames cannot be had, and takes two; a new space maps the low 4 MiB one to one for the supervisor, shares exactly the supervisor slots of the active directory, has no user mappings, and no other space changed; a failure leaves memory, counters and used count as before |
| VmMachine.Machine.FillSpace | kernel/paging.c:280-293 | the identity table in slot 0, the supervisor slots of the active directory in the others and nothing else |
| VmMachine.Machine.ShareSupervisorSlots | kernel/paging.c:286-293 | exactly the present slots without the user bit are shared |
| VmMachine.Machine.DestroyAddressSpace | kernel/paging.c:298-329 | the space is gone, every other space is unchanged and the counts stay exact; the active and the kernel directory are refused |
| VmMachine.Machine.EnsureTable | kernel/paging.c:107-116 | the slot has a table of its own afterwards and no translation changed; fails exactly if it had none and no low frame can be had, and then nothing changed at all |
| VmMachine.Machine.MapPage | kernel/paging.c:96-126 | exactly one page of one space maps the frame; fails exactly if a table is missing and cannot be had, and then nothing changed |
| VmMachine.Machine.RefCount | kernel/frame.c:256-264 | the count of an allocated frame and 0 otherwise |
| VmMachine.Machine.ResolveCow | kernel/paging.c:475-526 | succeeds exactly if the entry is copy-on-write and, when its frame is shared, a frame can be had; then the page is writable and private with the same bytes; a failure changes nothing |
| VmMachine.Machine.SplitCow | kernel/paging.c:510-525 | the copying branch: succeeds exactly if a frame can be had, and a failure changes nothing |
| VmMachine.Machine.DestroySkeleton | kernel/paging.c:331-348 | removes a clone that holds no user pages, and no other space changes |
| VmMachine.Machine.DestroyCloneWithRefs | kernel/paging.c:350-375 | removes a clone with the references it has retained so far, and no other space changes |
| VmMachine.Machine.ClonePhase1 | kernel/paging.c:390-419 | every user table of the source has a table in the clone, which takes as many low frames as the source owns tables; otherwise memory is as before, and too few frames were free or a counter has no room for another reference |
| VmMachine.Machine.ClonePhase2 | kernel/paging.c:421-444 | every user entry is shared and its frame retained; if a retain fails midway, some counter had no room for one more reference from every entry, and memory is as before |
| VmMachine.Machine.ClonePhase3 | kernel/paging.c:446-467 | every writable entry of the source has become copy-on-write |
| VmMachine.Machine.CloneDirectory | kernel/paging.c:377-473 | succeeds exactly if the scratch table exists, low frames suffice for the directory and one table per owned table, and no counter would overflow; then the clone translates as the source with writable entries of both turned copy-on-write; if it fails at any point every table, counter, bitmap bit and the used count are as before |
| VmKernel.DemandInvisible | kernel/vm.c:18-33 | demand-mapping a heap page below brk is seen by no process |
| VmKernel.CowInvisible | kernel/paging.c:475-526 | resolving a copy-on-write page is seen by no process |
| VmKernel.KeptCounts | kernel/paging.c:298-329 | an address space that came and went leaves every counter, the bitmap and the used count as they were |
| VmKernel.LoadDecided | kernel/vm.c:62-93 | the fault handler gives up on exactly the loads that the image denies or that lie past brk in an untouched page |
| VmKernel.StoreDecided | kernel/vm.c:62-93 | the fault handler gives up on a store exactly if the image denies it or it lies past brk in an untouched page, unless it reports out of memory |
| VmKernel.PrepareStarved | kernel/uaccess.c:84-99 | if a page of a range cannot be made writable for want of memory, there were not two low frames for every page of the range |
| VmKernel.MappedShown | kernel/uaccess.c:40-67 | what the kernel can read of a process is what the process sees; of what it sees the kernel cannot read exactly the heap pages below brk that were never touched |
| VmKernel.GuardNeverGranted | kernel/vm.c:13-16 | the guard is exactly the page below the stack page, and no process is ever granted it, so nothing that a process may write is refused for it |
| VmKernel.OutOfReachMeans | kernel/vm.c:62-93 | the only granted bytes that cannot be reached are heap addresses at or past brk in a page that is not mapped yet |
| VmKernel.Kernel.DemandMapHeapPage | kernel/vm.c:18-33 | maps one frame of zeros at one page; fails exactly if the frame, or the frame and a missing table, cannot be had, and then changes nothing |
| VmKernel.Kernel.PrepareUserWritePage | kernel/vm.c:35-60 | afterwards the page is writable and private; refuses exactly pages outside user space and pages the image does not grant, and runs out of memory exactly if the needed frames cannot be had; whatever it does is invisible and leaves every other space alone; a page that is writable already is left as it is |
| VmKernel.Kernel.HandlePageFault | kernel/vm.c:62-93 | a handled fault is invisible to every process and makes the access possible; an unhandled one changes nothing and says why; out of memory exactly if the needed frames cannot be had |
| VmKernel.Kernel.UserLoad | kernel/vm.c:62-93 | a load returns the byte of the process's image, through the fault handler if need be; it is denied exactly where the image denies it or past brk in a page that was never touched, and runs out of memory exactly if a page cannot be had |
| VmKernel.Kernel.UserStore | kernel/vm.c:62-93 | a store changes one byte of the process's own image and nothing else, through the fault handler if need be; it succeeds exactly if the image grants it, the byte is in reach and the needed frames can be had |
| VmKernel.Kernel.PrepareWrite | kernel/uaccess.c:70-100 | all pages of the range are writable afterwards, or the process may not write all of the range, or memory ran out, which shows that there were not two low frames for every page; invisible in every case; a range that is ready stays as it is and succeeds |
| VmKernel.Kernel.CopyToUser | kernel/uaccess.c:112-126 | the bytes appear at the address in the process's own image and nowhere else; a copy to pages that are ready cannot fail; EFAULT only for a range that is not in user space or that the process may not write |
| VmKernel.RangeValidIff | kernel/uaccess.c:12-27 | the range check is exact although 32-bit addition wraps |
| VmKernel.Kernel.IsReadable | kernel/uaccess.c:40-67 | a range is readable exactly if every byte of it lies on a mapped user page, although 32-bit addition wraps |
| VmKernel.Kernel.CopyFromUser | kernel/uaccess.c:102-110 | a read is refused exactly if the range touches an unmapped page, and otherwise gives the bytes that the process sees |
| VmKernel.Kernel.DropPage | kernel/paging.c:128-145 | exactly one page of one space is unmapped and its frame released |
| VmKernel.Kernel.DropHeapPages | kernel/syscall.c:1052-1064 | exactly the pages of the range are unmapped |
| VmKernel.Kernel.Brk | kernel/syscall.c:1030-1069 | the heap of the image ends at the requested address, pages dropped and reached again read as zeros; an illegal request changes nothing |
| VmKernel.Kernel.Fork | kernel/process.c:408-413 | succeeds exactly if the directory can be cloned; the child's image is a copy of the parent's and no third space changes; a failed fork leaves images, counters, bitmap and used count as they were |
| VmKernel.Kernel.Spawn | kernel/paging.c:270-296 | succeeds exactly if two low frames can be had and takes at most those; a new process has the empty image and no other space changed; a failure leaves all counters as they were |
| VmKernel.Kernel.InstallPage | kernel/elf.c:198-233 | a page of a program or its stack that was not mapped holds the bytes with the protection, only in this process, at the cost of at most two low frames; refused exactly if it was mapped or the frame or its table cannot be had; a failure leaves the whole memory state as it was |
| VmKernel.Kernel.TakePage | kernel/elf.c:198-218 | an unreferenced frame is mapped at one page of one space; fails exactly if the frame, or the frame and a missing table, cannot be had, and then the whole memory state is as before |
| VmKernel.Kernel.AddPage | kernel/elf.c:198-233 | the same with the bytes and the protection of the segment |
| VmKernel.Kernel.RemovePage | kernel/elf.c:205-218 | the page is gone from this process and nothing else changed |
| VmKernel.Kernel.SetProtection | kernel/paging.c:222-247 | only the writable bit of one page changes |
| VmKernel.Kernel.Teardown | kernel/process.c:454-461 | the image of the process is gone and every other is unchanged |
| VmSpec.RemoveUndoesInstall | kernel/elf.c:205-218 | removing an installed page restores the image |
| FsCodec.EntryRoundTrip | kernel/simplefs.c:195-234 | decoding an encoded directory entry gives the entry back |
| FsCodec.EntryStored | kernel/simplefs.c:213-234 | writing directory entry i makes reading i return it and leaves every other entry alone |
| FsCodec.SuperRoundTrip | kernel/simplefs.c:183-193 | a superblock that was written reads back the same |
| FsCodec.WordRoundTrip | kernel/simplefs.c:7-37 | a little-endian word reads back the same |
| FsCodec.WordLayout | kernel/simplefs.c:7-27 | the lowest byte of a word comes first on the disk |
| FsCodec.EntryLayout | kernel/simplefs.c:19-27 | the fields of a directory entry lie one after the other in the order of the structure |
| FsCodec.EntryPlace | kernel/simplefs.c:195-211 | entries of 64 bytes lie one after the other from sector 1 on |
| FsCodec.SuperLayout | kernel/simplefs.c:7-17 | the words of the superblock lie one after the other in the order of the structure, with zeros behind them |
| FsState.PadRoundTrip | kernel/simplefs.c:381-389 | a name stored in its zero-padded field reads back the same |
| FsState.ContentMeans | kernel/simplefs.c:550-572 | byte p of a file is byte p mod 512 of sector p / 512 of its extent |
| FsState.BitmapMeans | kernel/simplefs.c:111-144 | a sector is taken exactly if it is one of the first five or lies in the extent of a file |
| FsState.ValidNameMeans | kernel/simplefs.c:146-181 | a name has 1 to 31 bytes without slash and NUL and is neither . nor .. |
| FsState.GoodSuperMeans | kernel/simplefs.c:445-457 | a superblock is good exactly if it names this format, this layout and this device size |
| FsLemmas.FilesReplaced | kernel/simplefs.c:213-234 | replacing one directory entry changes the file map at one name only |
| FsLemmas.BitmapReplaced | kernel/simplefs.c:351-379 | after an entry is replaced, the bitmap that drops its old extent and adds the new one is exact again |
| FsLemmas.FreeSectorsChange | kernel/simplefs.c:321-349 | writing sectors outside every extent changes no file |
| SimpleFs.FileSystem.MarkRunUsed | kernel/simplefs.c:78-96 | succeeds exactly if the run is in range and wholly free, and then marks exactly it |
| SimpleFs.FileSystem.MarkRunFree | kernel/simplefs.c:98-109 | clears exactly the run |
| SimpleFs.FileSystem.AllocateSectors | kernel/simplefs.c:280-319 | the search that skips past the blocking sector returns the lowest start of a free run of the length, and ENOSPC exactly if there is none |
| SimpleFs.RunsMean | kernel/simplefs.c:78-109 | a free run is a stretch of the bitmap in which nothing is taken, and marking it changes exactly this stretch |
| SimpleFs.FileSystem.RebuildAllocationMap | kernel/simplefs.c:111-144 | succeeds exactly if all extents are in range and pairwise disjoint, and then the bitmap is the metadata plus the union of the extents |
| SimpleFs.FileSystem.Format | kernel/simplefs.c:391-432 | succeeds exactly on a device of legal size and leaves an empty, consistent file system |
| SimpleFs.FileSystem.Mount | kernel/simplefs.c:434-468 | succeeds exactly for a good superblock and sound extents; mounting a consistent disk again reproduces bitmap and files |
| SimpleFs.FileSystem.FindEntry | kernel/simplefs.c:236-257 | finds a live entry of the name exactly if there is one |
| SimpleFs.FileSystem.FindFreeEntry | kernel/simplefs.c:259-278 | finds a free directory slot exactly if there is one |
| SimpleFs.FileSystem.Open | kernel/simplefs.c:470-525 | opens, creates or truncates exactly as the flags and the file map say; names stay unique and the cache agrees with the disk; a failure changes nothing |
| SimpleFs.FileSystem.Read | kernel/simplefs.c:527-573 | out[i] is byte offset + i of the file, and there are as many as were asked for or as the file has past the offset; fails exactly without a mounted device, for a bad path or a missing file |
| SimpleFs.SliceMeans | kernel/simplefs.c:543-572 | the length and every byte of what a read returns, for all offsets and counts |
| SimpleFs.FileSystem.Stat | kernel/simplefs.c:661-689 | the size of the file, for exactly the names that exist |
| SimpleFs.FileSystem.EnsureCapacity | kernel/simplefs.c:351-379 | the extent holds the required sectors with the old contents and zeros after them; ENOSPC exactly if no free run is long enough, and then nothing changed |
| SimpleFs.FileSystem.Write | kernel/simplefs.c:575-659 | changes exactly the bytes of its own file, fills a gap with zeros, keeps bitmap, extents and zero tails in order; ENOSPC exactly if there is no room, EIO exactly if the sector count wraps, because the device then refuses the sectors, and in both cases nothing changed |
| SimpleFs.FileSystem.WriteBytes | kernel/simplefs.c:627-646 | exactly the bytes of the range in the extent change, whole sectors and parts of sectors alike; it fails exactly if the first sector lies past the end of the device, and then nothing changed |
| SimpleFs.SectorsCover | kernel/simplefs.c:43-48 | the sector count covers the bytes exactly up to 2^32-512; past that the 32-bit addition wraps |
| SimpleFs.SectorsWrap | kernel/simplefs.c:43-48 | a size of 2^32-1 bytes is given no sector, so the limit above is needed |
| SimpleFs.WrapsIff | kernel/simplefs.c:616-637 | the sectors asked for do not cover the data exactly if the write ends in the last 511 bytes below 2^32; then none is asked for and the first sector to write lies past the end of the device |
| SimpleFs.NoRoomMeans | kernel/simplefs.c:351-379 | there is no room for a write exactly if it ends past the extent of the file and nowhere in the data area are enough sectors free in a row |
| SimpleFs.NormalizePath | kernel/simplefs.c:146-181 | accepts exactly a slash followed by a valid name |
| SimpleFs.Relocated | kernel/simplefs.c:335-349 | moving an extent keeps its contents and leaves zeros after them |
| Vfs.OpenFiles.FormatRoot | kernel/vfs.c:88-96 | no open files and an empty file system |
| Vfs.OpenFiles.MountRoot | kernel/vfs.c:98-113 | files and open files are as before |
| Vfs.OpenFiles.AllocFd | kernel/vfs.c:60-67 | the lowest closed slot |
| Vfs.OpenFiles.Open | kernel/vfs.c:115-150 | the lowest free slot, offset zero; a refusal has one of the stated reasons and changes nothing |
| Vfs.FlagsMean | kernel/vfs.c:18-38 | open accepts exactly the known bits, with some access, and with truncating or creating only for writing |
| Vfs.OpenMeans | kernel/vfs.c:115-150 | the lowest closed slot gets one holder at offset 0; a missing file is there empty, a truncated one is empty, and every other file and slot is as it was |
| Vfs.OpenFiles.Read | kernel/vfs.c:152-173 | the bytes of the file from the shared offset on, which moves past them; EBADF exactly if the descriptor is not open for reading |
| Vfs.OpenFiles.Write | kernel/vfs.c:175-196 | the bytes go to the shared offset, which moves past them; ENOSPC exactly if the file would have to grow and no free run is long enough; a refusal changes nothing |
| Vfs.OpenFiles.Close | kernel/vfs.c:198-210 | one holder fewer, and the slot is recycled with the last one |
| Vfs.OpenFiles.Retain | kernel/vfs.c:212-219 | one holder more, unless the count is saturated |
| Vfs.OpenFiles.Stat | kernel/vfs.c:225-245 | the size of the file the path names |
| VfsRun.Run | kernel/vfs.c:115-219 | over every sequence of open, read, write, close, retain and remount the open files and the files behave as a map from names to byte strings with shared offsets; a write is refused for space exactly if no free run of sectors is long enough, and a retain exactly if the slot is closed or its count saturated |
| VfsRun.Perform | kernel/vfs.c:115-219 | one call of such a sequence: the answer and the next state are those of the map of names |
| VfsRun.ReadsJoin | kernel/vfs.c:152-173 | over any run in which nobody changes the file or writes through the descriptor, its successive reads join to one contiguous stretch of the file, nothing skipped, repeated or invented, whatever other calls come between |
| VfsRun.WrittenIsRead | kernel/vfs.c:152-196 | what was written at an offset is read back at that offset, through whichever descriptor |
| VfsRun.HoldersCounted | kernel/vfs.c:198-219 | over any run the holders of an open descriptor are those it had, one more for every retain and one fewer for every close |
| VfsRun.HoldersMove | kernel/vfs.c:198-219 | a close by the last holder, and nothing else, closes a descriptor |
| Scheduler.ReadyQueue.constructor | kernel/scheduler.c:115-121 | an empty queue in which all bounds hold |
| Scheduler.ReadyQueue.Enqueue | kernel/scheduler.c:35-49 | the process joins at the tail with its dynamic priority, and the links stay a list |
| Scheduler.ReadyQueue.FindBest | kernel/scheduler.c:51-63 | the first process of the largest dynamic priority |
| Scheduler.BestUnique | kernel/scheduler.c:51-63 | there is only one such process |
| Scheduler.ReadyQueue.DequeueBest | kernel/scheduler.c:65-83 | that process leaves and the order of the others stays |
| Scheduler.ReadyQueue.Age | kernel/scheduler.c:85-93 | every queued process has gained one, up to 16, and keeps its place |
| Scheduler.ReadyQueue.ScheduleLocked | kernel/scheduler.c:95-113 | one dispatch: the best leaves and runs with its own priority again, the running process joins at the end, the rest age by one |
| Scheduler.ReadyQueue.Preempt | kernel/scheduler.c:141-173 | it switches exactly if it is enabled, somebody is queued, the current process if any has an interrupt frame and so has the best; then it is one dispatch, otherwise the queue is as before |
| Scheduler.ReadyQueue.StopCurrent | kernel/scheduler.c:175-209 | the running process stops and the best takes over exactly if that one can be resumed; otherwise it goes to the end of the queue |
| Scheduler.ReadyQueue.Wake | kernel/scheduler.c:290-302 | exactly a blocked process joins the queue |
| Scheduler.ReadyQueue.Remove | kernel/scheduler.c:264-288 | exactly this process leaves the queue |
| Scheduler.ReadyQueue.Admit | kernel/scheduler.c:123-128 | a new process joins at the tail with a priority of at most 16 |
| Scheduler.ReadyQueue.SetPriority | kernel/scheduler.c:235-244 | the priority is clamped to 1..16 and takes effect in place, wherever the process is |
| Scheduler.StepKeepsOk | kernel/scheduler.c:35-113 | every step keeps queued processes distinct and priorities at most 16 |
| Scheduler.PassedOver | kernel/scheduler.c:85-113 | the measure (16-d)+k of a waiting process strictly decreases whenever it is passed over, and nothing others do increases it |
| Scheduler.BoundedWaiting | kernel/scheduler.c:85-113 | a process left alone is passed over at most (16-d)+k times |
| Scheduler.RunsInTime | kernel/scheduler.c:85-113 | among (16-d)+k+1 dispatches one runs the process, whatever wakes, joins and leaves meanwhile |
| Scheduler.AgedMeans | kernel/scheduler.c:85-93 | aging raises a priority below 16 by exactly one and leaves one of 16, and moves nobody |
| Scheduler.AgedByRun | kernel/scheduler.c:85-113 | a process that n dispatches of a run pass over has exactly min(16, d + n) |
| Scheduler.OrderKept | kernel/scheduler.c:65-113 | two waiting processes keep their order in the queue |
| Scheduler.NotOvertaken | kernel/scheduler.c:51-113 | over any run a process that waits ahead of another with at least its priority, or with a larger one that the other does not reach by aging up to the limit, runs before it |
| Scheduler.PrioritiesMean | kernel/scheduler.c:35-39 | who joins keeps the priority gathered so far or gets its own, 1 if none is set; a requested priority is brought into 1..16 |
| Scheduler.RunCalls | kernel/scheduler.c:35-302 | every run of timer ticks, blocking, exits, new processes, wakes, removals and priority changes on the linked queue is a run of the abstract queue, in which each call does exactly what queue, current process and process states call for: a tick dispatches exactly if it may, a wake queues exactly a blocked process, a removal takes out exactly a queued one; the schedule count counts its dispatches and no priority exceeds 16; so a process left alone at position k with priority d has run once the count has grown by more than (16-d)+k |
| Scheduler.ShotBest | kernel/scheduler.c:51-63 | what a call finds in the queue decides its effect: whether the first of the largest dynamic priority was interrupted or can be resumed, and who is queued |
| Heap.AlignUpCovers | kernel/allocator.c:20-22 | the rounded size covers the request exactly if the request is at most 2^32-16; a larger one rounds to 0 |
| Heap.WrappedRequest | kernel/allocator.c:53-72 | a request of 2^32-15 bytes on an empty heap succeeds with a block of 0 bytes, so the limit above is needed |
| Heap.Canonical | kernel/allocator.c:33-109 | the used blocks determine the whole block list: the layout does not depend on the history |
| Heap.AllFreeIsWhole | kernel/allocator.c:74-109 | a heap in which nothing is used is one free block |
| Heap.Conserved | kernel/allocator.c:111-127 | used bytes, free bytes and headers add up to the heap |
| Heap.RefusedIffNoRoom | kernel/allocator.c:53-72 | a request is refused exactly if no stretch of addresses outside the used blocks has room for it and its header |
| Heap.FreeUndoesMalloc | kernel/allocator.c:53-109 | giving back what was just taken restores the block list |
| Heap.PayloadWrite | kernel/allocator.c:53-72 | a client's write inside its own payload changes no header |
| Heap.TakenGood | kernel/allocator.c:33-72 | taking a block keeps a tiling without free neighbours and adds one used block |
| Heap.FreedFits | kernel/allocator.c:92-109 | marking a block free removes one used block, leaving only its neighbours to merge |
| Heap.MergeNextFits | kernel/allocator.c:74-81 | merging with the next block changes nothing that is in use |
| Heap.MergePrevFits | kernel/allocator.c:83-90 | merging with the previous block restores a tiling without free neighbours |
| Heap.KernelHeap.constructor | kernel/allocator.c:24-31 | one free block |
| Heap.KernelHeap.SplitBlock | kernel/allocator.c:33-51 | the headers and both links describe the split list |
| Heap.KernelHeap.Coalesce | kernel/allocator.c:74-90 | the headers and both links describe the merged list |
| Heap.KernelHeap.Kmalloc | kernel/allocator.c:53-72 | NULL exactly for size 0 or if no free block is large enough; otherwise the first fit, a new used block beside the others |
| Heap.FirstFitMeans | kernel/allocator.c:53-72 | the block taken is the lowest of those that are free and large enough; without one the request is refused |
| Heap.PartsMean | kernel/allocator.c:33-51 | a block is split exactly if more than 48 bytes would be left over; then the request gets what it asked for, the rest is a free block behind a header of 16 bytes, and otherwise it gets the whole block |
| Heap.KernelHeap.Kfree | kernel/allocator.c:92-109 | exactly this block is no longer used; freeing NULL or a free block changes nothing; the used count never underflows |
| Heap.KernelHeap.FreeBytes | kernel/allocator.c:111-123 | the free bytes, which with the used bytes and the headers make up the heap |
| Heap.Run | kernel/allocator.c:53-109 | over every sequence of requests and releases of what is held, the used blocks are exactly those held, aligned and disjoint, and once all are released the heap is one block again |
| ExecStack.VectorUnique | kernel/syscall.c:85-138 | a vector pointer denotes at most one list of strings |
| ExecStack.ReadStringIff | kernel/syscall.c:113-130 | a string is accepted exactly if it is readable, terminated within 256 bytes and fits the space left |
| ExecStack.ReadVectorIff | kernel/syscall.c:85-138 | a vector is accepted exactly if it is readable, terminated and within the limits |
| ExecStack.FitsMeans | kernel/syscall.c:85-138 | the limits are a number of strings, 255 bytes for each, and room for all of them with their terminators |
| ExecStack.WordsMean | kernel/syscall.c:98-112 | words lie with the lowest byte first and the pointers of a vector four bytes apart |
| ExecStack.AcceptedIff | kernel/syscall.c:85-138 | the copy yields a list exactly if the pointer denotes that list and it is within the limits |
| ExecStack.Vectors.CopyString | kernel/syscall.c:113-133 | the string lies in the buffer with its terminator, or the outcome is the error of the first failing check |
| ExecStack.Vectors.CopyStrings | kernel/syscall.c:98-137 | all strings lie in the buffer at their offsets, or the outcome is the error of the first failing check |
| ExecStack.Vectors.CopyVector | kernel/syscall.c:85-138 | succeeds exactly for an acceptable vector, whose strings the buffer then holds, and leaves what was copied before |
| ExecStack.Vectors.PushStrings | kernel/syscall.c:160-186 | the strings lie on the stack in order, apart from each other, and it fails exactly if they do not fit |
| ExecStack.Vectors.BuildUserStack | kernel/syscall.c:140-214 | within the limits of the copy none of the space checks can fail: it succeeds exactly if the page is writable, and the page is then a 16-byte aligned pointer table with the strings above it |
| ExecStack.Vectors.BuildTable | kernel/syscall.c:188-209 | the table fits, is aligned and lies below the strings |
| ExecStack.StackDecodes | kernel/syscall.c:200-211 | in every address space that shows the page, the stack pointer leads to the argument count, the argument vector and the environment vector |
| ExecStack.PassArguments | kernel/syscall.c:85-214 | what the new program reads at its stack pointer are the strings the old one passed, and the transfer is refused exactly if one of the vectors is unacceptable |
| Pipes.Pipe.Claim | kernel/pipe.c:38-43 | an empty pipe with one reader and one writer |
| Pipes.Pipe.Read | kernel/pipe.c:52-76 | takes the oldest bytes out of the ring, in order; a read of some bytes ends with 0 exactly if the ring is empty and no writer is left, blocks exactly if it is empty and a writer is left, and otherwise gets the smaller of what it asked for and what there is |
| Pipes.ReadMeans | kernel/pipe.c:52-76 | the same of the specification: when a read is at the end of the file, when it blocks, and how much it gets |
| Pipes.Pipe.Write | kernel/pipe.c:78-107 | appends what fits, across the end of the ring |
| Pipes.WriteMeans | kernel/pipe.c:78-107 | a write fails exactly without readers; one of at most 512 bytes goes in whole or blocks for space; a longer one blocks exactly at a full pipe and otherwise goes in as far as it fits |
| Pipes.Pipe.Close | kernel/pipe.c:109-138 | one end fewer; the pipe is freed with the last of both, and the other side is woken with the last of one |
| Pipes.CloseMeans | kernel/pipe.c:109-138 | one end fewer of this kind, the bytes kept until nobody is left at either end |
| Pipes.Pipe.Retain | kernel/pipe.c:140-160 | one end more, unless the count is saturated |
| Pipes.Run | kernel/pipe.c:52-160 | over every run the bytes read are a prefix of the bytes written and the ring holds exactly the rest; every call ends as the calls before it say: a read returns 0 exactly if all that was written has been read and the last writer has closed, blocks exactly if a writer is left, and else returns the smaller of the count and what is left; a write fails exactly if the last reader has closed, one of at most 512 bytes is whole or absent, and no other puts in more than fits; the pipe is freed exactly when the last of both has closed |
| Pipes.Perform | kernel/pipe.c:52-160 | one call of such a run: its answer and what it takes out and lets in |
| Pipes.FlowMade | kernel/pipe.c:38-43 | a pipe that is claimed anew starts with nothing written and nothing read |
| Pipes.FlowTook | kernel/pipe.c:52-76 | a read keeps the bytes read since the pipe was made a prefix of those written, the pipe holding the rest |
| Pipes.FlowGave | kernel/pipe.c:78-107 | so does a write |
| Descriptors.FdEmptied | kernel/process.c:111-120 | emptying a descriptor leaves its handle with the kernel and the counts exact |
| Descriptors.FdFilled | kernel/process.c:69-84 | filling a descriptor takes a handle over from the kernel and the counts are exact |
| Descriptors.CountsDetermined | kernel/process.c:150-170 | exact counts are determined by the descriptors |
| Descriptors.NamedIsCounted | kernel/process.c:90-103 | a handle that a descriptor names has a positive count |
| Descriptors.HeldIff | kernel/process.c:90-103 | the count of a handle is positive exactly if some process has it open |
| Descriptors.InUseIff | kernel/pipe.c:134-136 | a pipe or open file is in use exactly as long as some descriptor names it |
| Descriptors.NeverSaturated | kernel/process.c:150-170 | there are too few descriptors to bring a count near its maximum, so inheriting never fails |
| Lifecycle.ExitSound | kernel/process.c:636-689 | exit keeps every invariant: children are orphaned, a waiting parent receives the status, otherwise it stays in the table |
| Lifecycle.BornSound | kernel/process.c:422-447 | a new child keeps every invariant |
| Lifecycle.SentSound | kernel/process.c:792-800 | a signal sent to an active process keeps every invariant, among them that a KILL or TERM is pending exactly for active processes to which it was sent |
| Lifecycle.ReceivedSound | kernel/syscall.c:971-981 | a status that is asked for and returned at once keeps every invariant and is recorded once |
| Lifecycle.HandedSound | kernel/process.c:742-753 | handing a woken parent what it carries, or refusing it, keeps every invariant |
| Lifecycle.DestroyedSound | kernel/process.c:454-503 | removing a zombie whose status was received or that nobody can ask for loses nothing |
| Lifecycle.WaitingSound | kernel/process.c:579-591 | a process that blocks in wait has no matching zombie and some child to wait for, and what it asked for is recorded |
| Lifecycle.NeverLost | kernel/process.c:636-689 | while its parent has not ended, the status of an ended child is in exactly one place: with the zombie, which the active parent can ask for; with the parent, woken and not yet run, which carries the pid and the status as the child left it; handed to the parent's program; or refused by its memory |
| Lifecycle.StatusMeans | include/syscall.h:40-44 | from a status of waitpid the low seven bits are the signal, or if they are zero the second byte is the low byte of the exit code; a status of wait is the code; so code and signal can be recovered |
| Lifecycle.MatchesMeans | kernel/process.c:528-549 | a target of -1 is any child, every other target that child |
| Lifecycle.ReceivedOnce | kernel/process.c:675-688 | there is at most one report about a child |
| Processes.ProcessTable.constructor | kernel/process.c:202-207 | an empty table but for the first process |
| Processes.ProcessTable.WakePipeWaiter | kernel/process.c:617-634 | only processes blocked on a pipe are woken, and with one waiter per end none is left at this end |
| Processes.ProcessTable.PipeClose | kernel/pipe.c:109-138 | one end fewer with counts exact; whoever stays blocked is still rightly blocked |
| Processes.ProcessTable.PipeRetain | kernel/pipe.c:140-160 | one end more with counts exact |
| Processes.ProcessTable.VfsRetain | kernel/vfs.c:212-219 | one holder more with counts exact |
| Processes.ProcessTable.VfsClose | kernel/vfs.c:198-210 | one holder fewer with counts exact |
| Processes.ProcessTable.FdInstall | kernel/process.c:69-84 | the lowest free descriptor, or none is free |
| Processes.ProcessTable.FdClose | kernel/process.c:111-125 | exactly this descriptor is closed and the counts are exact |
| Processes.ProcessTable.CloseSome | kernel/process.c:127-148 | exactly the descriptors of the process, or those flagged close-on-exec, are closed and the counts are exact; nobody is woken if every handle is held elsewhere |
| Processes.ProcessTable.Inherit | kernel/process.c:150-170 | the child gets all of the parent's descriptors, or, whichever retain fails, every descriptor, count and pipe is as it was and nobody was woken; a failure means that a count is near its maximum |
| Processes.ProcessTable.SysOpen | kernel/syscall.c:348-391 | succeeds exactly if somebody runs, the file system opens the file, and an open file and a descriptor are free; then the lowest free descriptor names a new open file; otherwise every descriptor and count is as it was |
| Processes.ProcessTable.SysPipe | kernel/syscall.c:1155-1204 | succeeds exactly if somebody runs, a pipe is unused, two descriptors are free and the numbers reach the caller; then the two lowest name the ends of a new pipe; otherwise every descriptor, count and pipe is as it was; nobody is woken either way |
| Processes.ProcessTable.PipeReadAt | kernel/pipe.c:52-76 | the read of the bounded queue gives its oldest bytes, which are recorded as moved; whoever stays blocked is still rightly blocked |
| Processes.ProcessTable.PipeWriteAt | kernel/pipe.c:78-107 | the write of the bounded queue, the bytes that went in recorded as moved; whoever stays blocked is still rightly blocked |
| Processes.ProcessTable.StopCurrent | kernel/scheduler.c:175-209 | the running process stops and some ready process runs; it resumes, or nobody runs, only if no other process is ready or the preferred one has no frame |
| Processes.ProcessTable.BlockOnPipe | kernel/process.c:606-615 | a process blocks only on a call that would block; its end becomes crowded exactly if another waits there already, and is orderly again if it waits alone |
| Processes.ProcessTable.SysRead | kernel/syscall.c:393-437 | answers exactly as buffer, descriptor and pipe say: EFAULT, EBADF, the file system's turn, or the oldest bytes of the pipe; a read that would block does unless nobody else can run; an end gets crowded only if another waits there |
| Processes.ProcessTable.SysWrite | kernel/syscall.c:439-485 | answers exactly as buffer, descriptor and pipe say: EFAULT, EBADF, the file system's turn, EPIPE, or the bytes that fit; a write that would block does unless nobody else can run; an end gets crowded only if another waits there |
| Processes.ProcessTable.ServePipe | kernel/syscall.c:393-485 | a read returns as many of the bytes that were written and not read as it asked for; if there are none it blocks as long as some process has the pipe open to write, and returns 0 exactly otherwise; a write fails exactly if no process has the pipe open to read, and goes in whole up to 512 bytes, else as far as it fits, or blocks; what a call returns is what moves through the pipe behind the descriptor, and nothing moves if it fails or blocks |
| Processes.ProcessTable.MarkExit | kernel/process.c:636-689 | the process is a zombie with that exit code and signal, without descriptors, and the record says that it ended so; one active process fewer, SIGCHLD pending for its parent and no other new signal, every invariant kept |
| Processes.ProcessTable.ExitAndSwitch | kernel/syscall.c:936-955 | the running process has ended with that code and signal in the record, with the report made if its parent waits for it, and another process runs with its saved frame and the signals it had; nobody runs only if nobody can |
| Processes.ProcessTable.KillCurrent | kernel/process.c:691-698 | the process has ended with code 0 by a signal that was sent to it, KILL before TERM, in the record |
| Processes.ProcessTable.EndCurrent | kernel/syscall.c:936-955 | exit ends the running process, and the record has its code, cut to a byte unless the top bit is set |
| Processes.ProcessTable.BuryAndNotify | kernel/process.c:652-688 | exactly the specified exit of the process, with the recorded history |
| Processes.ProcessTable.NotifyParent | kernel/process.c:673-688 | the parent gets SIGCHLD and, if it waits for this child, the status |
| Processes.ProcessTable.DeliverSignals | kernel/process.c:802-834 | terminates, and on return nobody runs, the frame is not a user frame, or the running process has no KILL, TERM or CHLD pending; the record has gained only endings by a KILL or TERM that was sent to the process, and their reports |
| Processes.ProcessTable.SysKill | kernel/syscall.c:1206-1228 | succeeds exactly for one of the three signals to an active process, which then has it pending, and is recorded exactly then |
| Processes.ProcessTable.Destroy | kernel/process.c:454-503 | the slot is free and no descriptor is lost |
| Processes.ProcessTable.FindExited | kernel/process.c:528-549 | an unreported zombie child that matches, exactly if there is one |
| Processes.ProcessTable.FindChild | kernel/process.c:551-569 | a child that matches, exactly if there is one |
| Processes.ProcessTable.BlockOnWait | kernel/syscall.c:991-1001 | the caller blocks in wait with what it asked for recorded, or runs on with the wait cancelled |
| Processes.ProcessTable.SysWait | kernel/syscall.c:957-1002 | EFAULT exactly for a pointer that cannot be written; a child that has exited, if there is one, is returned with the code it left, recorded as handed over; ECHILD exactly without children; otherwise the caller blocks and what it asked for is recorded, or nobody else can run |
| Processes.ProcessTable.SysWaitpid | kernel/syscall.c:1071-1153 | a matching child that has exited, if there is one, is returned with a status from which code and signal can be read; ECHILD exactly if no child matches the target; 0 exactly if the caller does not want to wait; otherwise it blocks, or nobody else can run; a failed copy of the status leaves the child to be asked for again |
| Processes.ProcessTable.CompletePipeIo | kernel/process.c:700-737 | the blocked call is made once more: exactly the bytes of the bounded queue move and are recorded as moved, and eax is their number or the error; a read gets nothing exactly at the end of the file; the process is no longer marked as waiting for a pipe |
| Processes.ProcessTable.CompleteContextSwitch | kernel/process.c:739-771 | the report that is due to the running program is handed over: the pid of the child in eax and, if it asked, the status as the child left it; EFAULT exactly if it asked and its memory refuses; a blocked read or write is made once more; no reported or orphaned zombie is left |
| Processes.ProcessTable.HandStatus | kernel/process.c:742-753 | the running process gets the pid in eax and the status it wanted, or EFAULT, and the record says which |
| Processes.ProcessTable.Retry | kernel/process.c:705-722 | the read or write is made exactly as it blocked, on the descriptor it blocked on |
| Processes.ProcessTable.PageFault | kernel/idt.c:121-143 | a handled fault changes nothing here; a fatal one ends the process with the code of the fault in the record and dispatches another without looking at signals: its pending signals are those it had, and SIGCHLD if its child died |
| Processes.ProcessTable.SysFork | kernel/process.c:378-452 | a child with a new pid and the parent's descriptors, recorded as born to the caller; it fails only if nobody runs in user mode, memory fails, the table is full or a count is near its maximum, which never happens; wherever it fails, table, descriptors, counts, pipes and the record are as they were |
| Processes.ProcessTable.Tick | kernel/scheduler.c:141-173 | either nothing changes, or the current process, if it runs, becomes ready with its frame saved, a ready process with a frame runs, also when nobody ran, and no other process changes |
| Processes.ProcessTable.Interrupt | kernel/syscall.c:1261-1293 | every invariant holds again; the record gains exactly what the call calls for (an exit or fatal fault the ending of the caller with its code, a fork the birth of the new pid to the caller, a kill the signal, a wait the report or the wish), then endings by signals that were sent, then what is handed to the program that runs; waits, reads and writes are answered as the children, the pipes and the descriptors say; the bytes of the call and of a blocked call that is completed move through the pipes; the machine halts only if nobody can run or the kernel itself faults; if the processor returns, no dead process is left and what was due to the program has been handed over; no signal is pending unless the interrupt was a fault; after a fatal fault one is pending exactly if the process that runs next had one or is the parent of the one that died |
| Processes.Run | kernel/syscall.c:1261-1293 | over every run of interrupts, whatever the scheduler chooses and whatever fails: every status is with the zombie, with its woken parent, or handed to the parent's program, never twice; every report tells the code or the signal with which the child exited, faulted or was killed at one step, and goes to the process that forked it; waits, reads and writes are answered as children, pipes and descriptors say, a read returning nothing exactly when all that was written is read and nobody has the pipe open to write; nothing recorded is undone or replaced; a signal is recorded only for a kill; a status is refused only by memory that cannot be written; the machine halts only if nobody can run or the kernel faults; nobody waits in vain, every descriptor count is exact; the bytes read from a pipe since it was made are a prefix of those written and the pipe holds the rest; an end of a pipe at which nobody reads or writes while another waits there is never crowded, so whoever waits there waits rightly |
| ProcessRuns.ChainMeans | kernel/syscall.c:1261-1293 | in every run nothing recorded is undone or replaced, no status is refused while memory accepts all, and an end of a pipe becomes crowded only through a call made there while another waits |
| ProcessRuns.ReportsTold | kernel/process.c:636-689 | every report of a run is about a child that ended at a step of the run, or had ended before it, goes to the process that forked the child, and its status tells how the child ended: for waitpid the signal in the low seven bits, or zero there and the low byte of the exit code in the second byte; for wait the code |
| ProcessRuns.SignalsTold | kernel/syscall.c:1206-1228 | every signal recorded in a run was sent by a kill of the run |
| ProcessRuns.EmptyReads | kernel/pipe.c:65-67 | in a run a read that asks for some bytes and gets none has read everything that was written to the pipe, and no process has it open to write |
| ProcessRuns.PipeKnown | kernel/pipe.c:52-107 | what a pipe holds and which of its ends are open is what the bytes moved and the descriptors say |
| ProcessRuns.ChainEnded | kernel/process.c:636-698 | whoever ended in a run did so at one step: it ran and exited or faulted with the code recorded, or a KILL or TERM had been sent to it |
| ProcessRuns.ChainBorn | kernel/process.c:378-452 | whoever was born in a run was forked at one step by the process that ran then and is recorded as its parent |
| ProcessRuns.ChainSent | kernel/syscall.c:1206-1228 | a signal recorded in a run was sent by a kill of the run |
| ProcessRuns.NextMeans | kernel/syscall.c:1261-1293 | one interrupt keeps what is recorded, and what it adds has its ground in this interrupt; it refuses no status if memory accepts it, crowds no end but the one it calls at, and keeps the bytes moved so far |
| ProcessRuns.ExitDied | kernel/process.c:652-688 | the exit as the table carries it out records one ending of one process, and a report only if its parent waits for it |
| ProcessRuns.PendingSent | kernel/process.c:802-834 | a KILL or TERM that is pending was sent to that process |
| ProcessFacts.HandedDelivered | kernel/process.c:742-753 | what a woken process carries is the one report that is due to it, and its wish for the status is the one it had when it blocked |
| ProcessFacts.BlockedMeans | kernel/pipe.c:52-107 | whoever is blocked at an end that is not crowded is alone there: a reader has an empty pipe with writers, a writer a pipe with readers and without the space its write needs |
| ProcessFacts.ExitTold | kernel/process.c:636-656 | what wait and waitpid tell of an exit with any code |
| ProcessFacts.ChildMeans | kernel/process.c:422-447 | the child of a fork has its own pid, sees 0 as the result, is ready, waits for nothing and has no signal pending |
| ProcessFacts.UnblockedMeans | kernel/process.c:724-737 | a blocked call that is completed returns the number of bytes, or the error the call itself would have returned |
| ProcessFacts.ShutMeans | kernel/process.c:127-148 | exactly the open descriptors are closed, or exactly those flagged close-on-exec |
| ProcessFacts.FaultUnsettled | kernel/idt.c:121-139 | after a fatal fault no signal is pending exactly if the process that runs next had none and is not the parent of the one that died |
| ProcessFacts.FaultLeavesSignal | kernel/idt.c:121-139 | a child that faults while its parent sleeps in wait: the parent returns to its program with SIGCHLD pending |
| ProcessFacts.ParentWaitsSound | kernel/process.c:579-591 | that state satisfies every invariant and has no signal pending |
| ProcessFacts.CloseOrderly | kernel/pipe.c:117-133 | closing an end leaves everyone rightly blocked whom the last close does not wake |
| Elf.RangeChecks | kernel/elf.c:58-84 | the range checks are exact although 32-bit addition wraps |
| Elf.ValidIsPlaceable | kernel/elf.c:161-185 | a valid segment lies in the file and in the load range |
| Elf.HeaderMeans | kernel/elf.c:128-159 | a header is valid exactly if it is that of a 32-bit little-endian executable for the 80386 with one to eight program headers in the file, its fields in the order of the structure |
| Elf.SegmentMeans | kernel/elf.c:37-46 | the fields of a program header lie one after the other in the order of the structure |
| Elf.SegmentValidIff | kernel/elf.c:161-185 | a segment is valid exactly if it is not to be loaded, or lies in the file and the load range with a legal size and alignment |
| Elf.PagesOfSegment | kernel/elf.c:191-197 | a segment of at most 64 KiB touches at most 17 pages, aligned or not, all below the heap |
| Elf.PagesMean | kernel/elf.c:191-197 | the pages of a segment are exactly those with a byte of it |
| Elf.OverlapMeans | kernel/elf.c:187-189 | segments overlap exactly if some page has bytes of both |
| Elf.Plan | kernel/elf.c:279-324 | accepts exactly the loadable files: valid header and segments, page ranges disjoint, at most 64 KiB in all, entry inside |
| Elf.LoadableIff | kernel/elf.c:279-324 | accepted are exactly the files with valid header and segments, no page shared by two segments, at most 64 KiB in all and the entry point inside |
| Elf.LoadsMean | kernel/elf.c:284-315 | exactly the program headers of kind PT_LOAD are loaded |
| Elf.MemoryMeans | kernel/elf.c:306-315 | the memory of the segments of a file is the sum of their sizes |
| Elf.LoadSegment | kernel/elf.c:191-254 | all pages of the segment are in place at a cost of at most two low frames each; otherwise fewer low frames were free than that, and the image is as before, whichever page could not be had |
| Elf.TakeOut | kernel/elf.c:205-218 | the rollback restores the image and stays within its array of 17 entries |
| Elf.LoadImage | kernel/elf.c:326-346 | all segments are in place and every other page is as before, at a cost of at most two low frames for every page; it fails only if fewer were free |
| Elf.NextSegment | kernel/elf.c:326-346 | a later segment disturbs no earlier one |
| Elf.ImageRight | kernel/elf.c:334-345 | every byte of a segment is its byte of the file or zero past filesz, and it can be written exactly if the segment has PF_W |
| Exec.ReadFile | kernel/elf.c:86-126 | the whole file, with the open-file table as it was; it fails exactly if the path is bad, the file is missing, empty or too large, or no open file is left |
| Exec.FileStatusMeans | kernel/elf.c:86-126 | exactly when a file is missing, is of an unacceptable size, or can be read |
| Exec.CopyPath | kernel/uaccess.c:128-143 | the path is taken exactly if a string of less than 64 bytes lies there |
| Exec.CallerSees | kernel/uaccess.c:102-110 | what exec reads of the caller's memory is what the caller sees there |
| Exec.Populate | kernel/syscall.c:267-303 | the new space holds the segments and the stack, and no other space is touched; it fails exactly if the file cannot be read or is not loadable, or for memory, and for memory only if fewer low frames were free than two for every page of the segments and of the stack |
| Exec.Place | kernel/syscall.c:273-303 | segments and stack page are in place in the new space and no other is touched; a failure shows that fewer low frames were free than two for every page |
| Exec.StackStaysFree | kernel/elf.c:161-185 | no segment reaches the stack page, so the stack is never refused as mapped |
| Exec.Abandon | kernel/syscall.c:273-303 | nothing is left of an abandoned space: processes, images, counters, bitmap and used count are as they were |
| Exec.Adopt | kernel/syscall.c:310-321 | the process has the new space, the old one is gone, and no other image changed |
| Exec.SysExec | kernel/syscall.c:216-346 | a failure at any point leaves every process and image, every frame count, the heap's blocks and the open files as they were; a success gives the caller the memory that the file and the vectors describe and changes nobody else; it fails exactly if the path or a vector cannot be read from the caller's mapped pages within the limits, the file cannot be read, it is not loadable, or for memory; for memory only if the heap has no block for the argument buffer or fewer low frames were free than two for the space and two for every page of the segments and the stack |
| Exec.ProgramThere | kernel/elf.c:334-345 | after a successful exec the program finds the bytes of its segments with their protection |
| Exec.ArgumentsThere | kernel/syscall.c:200-211 | after a successful exec the stack pointer leads to the strings the caller passed |

## Left out

- Boot code, descriptor tables, interrupt stubs and context-switch assembly; a context switch is a change of the current process.
- TLB invalidation, CR3 loads and the scratch mapping of copy_physical_page: a page copy is one step.
- Serial, VGA, keyboard, timer, shell, memory detection and the self tests, which have no state worth an invariant.
- Interrupts inside kernel code: every operation runs to its end, as it does with interrupts disabled.
- The device below SimpleFS is an array of sectors whose in-range accesses succeed; I/O errors of a failing device are not modelled.
- Checks of null pointer arguments inside the kernel, which no caller of the modelled functions fails.
- Frame addresses are frame numbers, page-table words are records of a frame and four bits, bitmaps are sequences of booleans; fixed-size tables that methods update are sequences kept in fields.
- User mappings lie between USER_SPACE_START and USER_SPACE_END, directory slots of that range are never shared with the supervisor, and the directory of a faulting process is the active one, as everywhere in the kernel.
- Kernel stacks, CPU registers other than eax, heap bounds and test markers of the process record of `Processes`; address spaces of processes are the subject of the `Vm` modules and `Exec`, where a process is its directory and its heap.
- The choice among ready processes in `Processes`: any may run next, and `Scheduler` proves which one does.
- The test_fail_after counter of the frame allocator is kept as the way an allocation can fail early; pids do not wrap.
- process_create for kernel threads: its slot and pid are those of fork with no parent.
- Cooperative yield and the stack layout of context_switch.
- Liveness with several processes blocked on one pipe end: the code wakes one of them only; the model records that this has happened at this end and then claims nothing about who is blocked there until a process waits there alone.
- The counter process_count: process creation and fork refuse when it has reached the size of the table, which is when no slot is free; the model looks for a free slot.
- Page faults of kernel code, which halt the machine.
- Bytes of ELF pages outside a segment's memory range keep what the frame held before, and the model says nothing about them.
- The meaning of p_align as congruence: the check is modelled on the machine's bits, and nothing later depends on it.
- Processes.ProcessTable.SysRead: the bytes copied to user memory are the queue's by `Pipes.Pipe.Read`; their way into the address space is not part of this step.
- Processes.ProcessTable.SysWrite: takes the bytes as an argument, for the same reason.
- Exec.SysExec: a shortage of memory is bounded one way: two low frames for the space and for every page always suffice, and fewer may. Reports ENOMEM wherever the stack page cannot be had, also where the kernel reports EIO because no page table was left; close-on-exec is `Processes.ProcessTable.CloseSome`.
- Exec.Populate: the shortage is bounded one way, as for `Exec.SysExec`; how many frames are needed depends on which of them share a table.
- Elf.LoadSegment: the shortage is bounded one way, by two low frames for every page; `VmKernel.Kernel.InstallPage` is exact for one page.
- Elf.LoadImage: the same for all segments.
- VmKernel.Kernel.PrepareWrite: ENOMEM is bounded one way, by two low frames for every page of the range; `VmKernel.Kernel.PrepareUserWritePage` is exact for one page.
- VmKernel.Kernel.CopyToUser: ENOMEM is bounded in the same way.
- Scheduler.ReadyQueue.Enqueue: asks that the process is not queued already, which the callers ensure and the code does not check.
- Heap.KernelHeap.Kfree: asks for NULL or the payload of a block of the list; for any other pointer the code reads a header that is not there.
- SimpleFs.FileSystem.Write: takes offsets and counts below 2^32, as the machine's words are, and for a write that ends in the last 511 bytes below 2^32 an offset of at least 2 MiB: a smaller one needs a buffer of almost 4 GiB.
