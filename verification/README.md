# CastorOS in Dafny

A model of the parts of the CastorOS kernel (i686) that keep linked, counted or mapped state
over long runs, with proofs about every run of them.

| file | what it models |
|---|---|
| `Common.dfy` | sizes, bytes, optional values, searching, a counting lemma, memcpy |
| `Frames.dfy` | the physical frame allocator: bitmap, reference counts, counters, search hint, protected frames |
| `Cow.dfy` | page directories, page tables and frames as values: the invariant and each step on it |
| `Vmm.dfy` | copy-on-write fork, fault handling, mapping and freeing, as a class over the allocator |
| `Processes.dfy` | runs of fork, exit, map, unmap and write, against one private memory per process |
| `Chains.dfy` | FAT cluster chains as values: the invariant and each step on it |
| `Fat32.dfy` | the FAT32 volume as a class: allocation, chains, reading, writing, truncating |
| `Files.dfy` | runs of file operations, against one byte sequence per file |
| `Names.dfy`, `Directory.dfy` | 8.3 names; directory entries and runs of operations on them |
| `Tcp.dfy`, `Rtt.dfy` | the TCP receive side with out-of-order segments; the round-trip estimator |
| `Reassembly.dfy` | IP fragment reassembly |
| `Dns.dfy` | domain names on the wire, with compression |
| `Checksum.dfy` | the Internet checksum |
| `Pipe.dfy`, `Ring.dfy` | pipes under every interleaving of readers and writers; their circular buffer |
| `Semaphores.dfy` | semaphores over a wake-up that does not know what a task waits for |
| `Tasks.dfy`, `Scheduler.dfy` | task states and scheduling as values; the same as arrays and a linked ready queue |
| `Blocks.dfy` | the kernel heap |
| `Elf.dfy` | loading program segments |

Where the code works in place, the model is a class with fields, arrays and loops, and each
method is proved against a function or relation on values; the long-run properties are then
lemmas about those values. Where a promise of the code turned out not to hold, the model
keeps the code as it is and states exactly when it does hold:

- Mapping a page over one that is mapped already, as brk can and as program segments that
  share a page do, keeps the old frame's reference without an entry for it. Every count is
  the number of its entries exactly if no page was ever mapped over (`Cow.ExactIff`,
  `Cow.MapHeldExact`), and a run from no process back to none returns every frame exactly
  if it did so nowhere (`Processes.Run`, `Processes.MapTwiceLoses`). Isolation does not
  depend on it. A fork of a page
  whose count stands at 65535 breaks the accounting (`Cow.ShareFullBreaks`), and runs stop
  before one.
- The kernel heap hands out overlapping memory after six ordinary calls, because splitting
  the last block does not move `last_block` (`Blocks.OverlapAfterSix`). The heap stays in
  order after a call of `kmalloc` exactly if the call did not grow the heap while
  `last_block` was not the tail, or by a sum that wraps in 32 bits (`Blocks.MallocKeeps`,
  `Blocks.GrowsByNothing`). The block returned has room exactly if neither the rounding nor,
  when the heap grows, the sum wraps (`Blocks.MallocSafe`, `Blocks.RoundsToNothing`).
- `semaphore_signal` wakes the first blocked task in the pool, whatever it waits for. From a
  state in which no task is blocked on the semaphore with units unclaimed, the signal keeps
  it so exactly if that task waits for this semaphore or none does, the count is full, or
  tasks on their way into the wait will claim the new unit (`Semaphores.AimedExact`,
  `Semaphores.WakeupLost`); with one semaphore in use none is lost
  (`Semaphores.OneSemaphoreSuffices`). The pipe results below take semaphores whose waiters
  do wake.
- Closing one end of a pipe sends ten signals. All readers or writers blocked on the other
  end are released if there are at most ten more of them than tokens. If there are more,
  some stay blocked for ever, unless bytes in the buffer or calls in progress on the other
  side bring further tokens (`Pipe.EndOfFile`, `Pipe.BrokenPipe`).
- `fat32_file_read` returns bytes beyond the end of a file exactly if `offset + size` wraps
  in 32 bits to a value inside the file and the chain is longer than the file
  (`Fat32.ReadExact`, `Fat32.ReadPastTheEnd`). The cluster count of
  `fat32_ensure_file_size` is too small exactly if its rounding wraps
  (`Fat32.RequiredExact`).
- A write or an extension for which the free clusters do not suffice takes all of them into
  the file's chain and returns before the directory entry is written. Removal goes by the
  entry, so for a file that had no cluster before it frees nothing. Every used cluster stays
  in some file's chain over every run without a lack of space (`Files.RunStaysClean`), and a
  removal loses clusters exactly if the entry names none of a chain that is not empty
  (`Fat32.Volume.Remove`, `Files.FailedWriteLeaks`).
- A file name ending in a dot can be created beside the same name without it; names stay
  unique exactly if the name without its last dot is not there (`Directory.CreateUnique`,
  `Directory.DotMakesTwins`). Without such names they stay unique over every run
  (`Directory.Run`).
- TCP acknowledges in-order data even when the receive buffer has no room for it. An arrival
  loses nothing exactly if the buffer has room for all the bytes by which it moves rcv_nxt
  (`Tcp.Receiver.ProcessData`), and the bytes delivered are the stream exactly if every
  arrival found that room (`Tcp.Run`), as it always does in a buffer as large as the stream
  (`Tcp.LargeBuffer`).
- A reassembled IP packet goes into a network buffer of 1920 bytes. A longer one is copied
  through the null pointer that `netbuf_put` returns (`Reassembly.Reassemble`,
  `Reassembly.TooLongAt1921`).
- The 16-bit running offset of IP reassembly wraps; a list of fragments that passes the
  test tiles the packet exactly if no fragment ends beyond 65535
  (`Reassembly.WholeMeansTiled`), and is copied beyond the buffer if one does
  (`Reassembly.PassesByWrapping`). A duplicate that comes after the packet opens a new entry
  (`Reassembly.LateDuplicate`).
- A domain name that does not fit the buffer is refused, unless some of its labels fill the
  buffer exactly; then these come back as the name (`Dns.DecodeFull`, `Dns.CutShort`).
- A task that kills itself goes on running. An ended task becomes ready, running or blocked
  again exactly if it is the current one and blocks or sleeps (`Tasks.AliveAgain`,
  `Tasks.KillSelfRevives`); one that has left the processor never runs again
  (`Tasks.NeverAgain`). If it then kills its parent it frees its own slot while it runs, and
  that is the one call that breaks the task states (`Tasks.KillKeepsIff`).
- Killing a ready or blocked task without a parent leaves its page directory behind
  (`Tasks.KillLeaks`).
- `pmm_frame_ref_inc` counts references to free frames (`Frames.Allocator.RefInc`), and
  `pmm_free_huge_page` frees protected frames (`Frames.Allocator.FreeHuge`).
- The ELF loader compares only the start of a segment with the kernel's base. A loaded
  program stays below the kernel exactly if every segment with pages also ends there
  (`Elf.BelowKernelExact`, `Elf.ReachesTheKernel`). Its sums are 32 bits wide: a file part
  that wraps passes the test and is copied from outside the file (`Elf.Load`,
  `Elf.CopiesOutside`), and the pages hold a segment's memory exactly if its end does not
  wrap (`Elf.MemoryCovered`, `Elf.OnePageOfMany`).
- `kmalloc_aligned` adds to the size without looking; its memory lies in the block exactly if
  no sum wraps (`Blocks.AlignedInBlock`).

## Model

| member | source | states |
|---|---|---|
| Frames.Allocator.constructor | src/mm/pmm.c:245-425 | every frame in use has count 1 and every other count 0; the counters match the bitmap; the hint is 0 |
| Frames.Allocator.FindFree | src/mm/pmm.c:104-138 | the hinted, word-wise search returns the lowest free frame of all, and none only if no frame is free |
| Frames.Allocator.Alloc | src/mm/pmm.c:627-718 | succeeds exactly if the free count is not 0; the lowest free frame becomes used with count 1 and nothing else changes; the free and used counters, the hint and "used exactly if counted" stay right |
| Frames.Allocator.Free | src/mm/pmm.c:941-1004 | a shared frame only loses a reference, the last reference frees the frame, counters and hint stay right, and frame 0, frames out of range, free frames and protected frames are left alone |
| Frames.Allocator.RefInc | src/mm/pmm.c:1295-1330 | exactly one count grows by one, up to saturation at 65535; "a free frame has no references" is kept if and only if the frame is in use, frame 0 or out of range |
| Frames.Allocator.RefDec | src/mm/pmm.c:1337-1371 | exactly one count shrinks by one, not below 0 |
| Frames.Allocator.Protect | src/mm/pmm.c:143-180 | the protection of one frame is counted up, all others are kept, and a free frame is taken with one reference |
| Frames.Allocator.Unprotect | src/mm/pmm.c:185-219 | counts the protection of one frame down and drops it at zero; an unprotected frame is left alone |
| Frames.Allocator.AllocRun | src/mm/pmm.c:794-933 | the first free run of the wanted length in the range is taken, each frame with one reference, and nothing else changes; failure means there is none |
| Frames.Allocator.AllocHuge | src/mm/pmm.c:1092-1157 | the first aligned free run of 512 frames in the range is taken, each with one reference, and nothing else changes; failure means there is none |
| Frames.Allocator.FreeHuge | src/mm/pmm.c:1221-1277 | each of the 512 frames loses a reference and is free with the last one, counters and hint stay right, and an unaligned block, one out of range and address 0 are left alone; "protected frames are in use" is kept if and only if no protected frame of the block loses its last reference |
| Frames.CountFreeUpdate | src/mm/pmm.c:57-78 | setting or clearing one bit changes the number of free frames by exactly that bit |
| Frames.MarkUsedCount | src/mm/pmm.c:794-933 | marking a free run used marks exactly its frames and takes its length off the free count |
| Frames.GuardExact | src/mm/pmm.c:143-219 | protecting a frame and unprotecting it changes nothing, and neither touches another frame |
| Cow.RefFormula | src/mm/vmm.c:884-987 | in every state the model reaches, the count of a frame is 1 for a directory or table and otherwise the number of present entries over all directories that map it, plus the references lost with entries that were mapped over |
| Cow.ExactIff | src/mm/vmm.c:884-987 | every page is counted exactly by its entries if and only if no reference was lost |
| Cow.MapHeldExact | src/arch/i686/mm/paging.c:575-626 | mapping a page keeps the counts exact if and only if the address was not mapped |
| Cow.MapHeldSpaces | src/arch/i686/mm/paging.c:575-626 | either way one process sees a new page there, which is zeros by Cow.ZeroPageIs, and no other sees a change |
| Cow.ZeroPageIs | src/mm/vmm.c:1215-1240 | the page that is mapped is 4096 zero bytes |
| Cow.RefsBounded | src/mm/pmm.c:1310-1325 | a page is referenced at most once per live directory, plus what was lost |
| Cow.RoomyBelow | src/mm/pmm.c:1310-1325 | so below 65535 directories and lost references together no count is full, and every fork finds room |
| Cow.ShareFullBreaks | src/mm/pmm.c:1315-1325 | sharing a page whose count stays at 65535 breaks the invariant in every state |
| Cow.NothingLeaks | src/mm/vmm.c:1029-1163 | with no directory left, only the frames reserved at boot and the lost references remain |
| Cow.EmptyRefs | src/mm/vmm.c:1029-1163 | between two states without processes the counts agree if and only if nothing was lost in between |
| Cow.RefsDetermined | src/mm/vmm.c:884-987 | the counts are a function of the directories, the entries and the lost references |
| Cow.ForkUndone | src/mm/vmm.c:884-987 | undoing a half-made clone restores every reference count, although the parent's entries stay copy-on-write |
| Cow.ShareKeeps | src/mm/vmm.c:913-943 | sharing one entry with the child keeps the whole invariant, counts included |
| Cow.ShareSpaces | src/mm/vmm.c:913-943 | and changes nothing any process can see |
| Cow.UnshareKeeps | src/mm/vmm.c:530-564 | giving a process its own copy of a shared page keeps the invariant |
| Cow.UnshareSpaces | src/mm/vmm.c:530-564 | and changes nothing any process can see |
| Cow.StoreSpaces | src/mm/vmm.c:463-564 | a store through a writable entry is seen by its own process at that byte, and by no other process |
| Cow.DropKeeps | src/mm/vmm.c:1106-1125 | dropping one entry keeps the invariant: the frame is freed exactly with its last reference |
| Cow.DropSpaces | src/mm/vmm.c:1106-1125 | and takes away one page of one process only |
| Vmm.AddressSpaces.constructor | src/mm/vmm.c:227-400 | at boot there is no user address space; the boot directory is registered and protected, and nothing is lost |
| Vmm.AddressSpaces.Create | src/mm/vmm.c:779-800 | a new, empty address space beside unchanged ones, exactly if a frame is free; otherwise nothing changes |
| Vmm.AddressSpaces.Clone | src/mm/vmm.c:814-994 | for a directory none of whose pages has a full count: succeeds exactly if there are free frames for a directory and for each table of the parent, and uses just those; the child then shows exactly the parent's memory and no process sees a change; when memory runs out half-way all reference counts, the bitmap and the free count are as before |
| Vmm.AddressSpaces.HandleFault | src/mm/vmm.c:463-564 | a fault is handled exactly on a write to a present copy-on-write page that is unshared or for whose copy a frame is free; no process sees a change, and the page is then writable; the branch for a count of 0 is never taken |
| Vmm.AddressSpaces.CopyPage | src/mm/vmm.c:530-564 | the copy fails only if no frame is free, and then nothing has changed |
| Vmm.AddressSpaces.Write | src/mm/vmm.c:463-564 | a user store, through the fault handler if need be, changes one byte of the current process and nothing else, exactly if the page allows it and a frame is free if it must be copied; otherwise nothing changes |
| Vmm.AddressSpaces.FreeDirectory | src/mm/vmm.c:1029-1163 | exactly that address space goes, with its tables and its references, and frames come free; a directory in use is left alone |
| Vmm.AddressSpaces.MapPage | src/mm/vmm.c:1215-1240 | a zeroed page (Cow.ZeroPageIs) appears at one address of one process, in place of what was there, exactly if there are frames for it and for a missing table; otherwise no process sees a change; one reference is lost exactly if a page was there |
| Vmm.AddressSpaces.UnmapPage | src/mm/vmm.c:1242-1271 | one page of one process goes, with its reference; it fails exactly if there was none |
| Vmm.AddressSpaces.Register | src/mm/vmm.c:171-186 | a directory is active, and protected, exactly once |
| Vmm.AddressSpaces.Unregister | src/mm/vmm.c:192-206 | the inverse of Register: the directory and its protection go; an unknown directory is ignored |
| Processes.Do | src/mm/vmm.c:463-1271 | every call has exactly its own event, and one only if the directory lives, the address is the user's, the pool is not full and the frames suffice; the event is one step of private memories: fork copies, exit removes, a write changes one byte of one process, a mapping adds or replaces a page; and it takes exactly the frames, tables and references it should |
| Processes.Run | src/mm/vmm.c:463-1271 | every run of calls is such a sequence of states and events, up to the first fork of a page with a full count, of which there is none while directories, lost references and calls stay below 65535; a run from no process back to none returns every frame and every reference if and only if no page was replaced |
| Processes.ViewsTrace | src/mm/vmm.c:463-1271 | what the processes see over such a run is a trace of private memories |
| Processes.RunReturns | src/mm/vmm.c:1029-1163 | over every run from no process to none the counts are as before if and only if no page was replaced |
| Processes.MapTwiceLoses | src/arch/i686/mm/paging.c:575-626 | with four free frames, making a process, mapping one address twice and freeing the process succeeds at every step and leaves a reference behind |
| Processes.Isolation | src/mm/vmm.c:836-994 | in every trace a process's memory changes only by its own actions |
| Processes.IsolationOfCalls | src/mm/vmm.c:463-1271 | in every run the memory of a process is unchanged by all calls but its own writes and the mappings, unmappings and freeing of its own directory, whether they succeed or not |
| Processes.ForkSnapshot | src/mm/vmm.c:836-994 | from the moment of fork on, parent and child each keep the parent's memory of that moment until they change it themselves |
| Processes.WriteChangesOneByte | src/mm/vmm.c:463-564 | after a write every address of every process reads as before, but for that byte of that process |
| Processes.MapReadsZero | src/mm/vmm.c:1215-1240 | after a page is mapped, over another or not, all of it reads as zero and can be written exactly if the call said so; every other address of every process is as before |
| Processes.UnmapReadsNothing | src/mm/vmm.c:1242-1271 | after a page is unmapped none of it can be read, and every other address of every process reads as before |
| Chains.GrowKeeps | src/fs/fat32.c:747-803 | linking a free cluster to a file's chain keeps all chains linked, EOF-terminated and disjoint, and every used cluster in a chain or an orphan |
| Chains.CutKeeps | src/fs/fat32.c:902-941 | cutting a chain and freeing its tail does too |
| Chains.CutFree | src/fs/fat32.c:902-941 | cutting a chain frees exactly the clusters behind the kept ones |
| Chains.PokeBytes | src/fs/fat32.c:1561-1592 | replacing one cluster replaces just that part of one file's bytes |
| Chains.AddKeeps | src/fs/fat32.c:1154-1229 | a new file is empty and changes no other |
| Chains.ForgetKeeps | src/fs/fat32.c:1264-1309 | removing a file changes no other; clusters it still has become orphans |
| Fat32.SetLowBits | src/fs/fat32.c:186-233 | writing an entry sets its low 28 bits and keeps the high 4 |
| Fat32.Volume.WriteEntry | src/fs/fat32.c:186-233 | all FAT copies get the entry and go on agreeing in the low 28 bits |
| Fat32.Volume.Allocate | src/fs/fat32.c:299-368 | whatever the hint, a free cluster is taken, marked as end and zeroed; 0 means that no cluster is free |
| Fat32.Volume.Walk | src/fs/fat32.c:753-770 | the unbounded walk ends, at the last cluster, after the length of the chain |
| Fat32.ChainShort | src/fs/fat32.c:243-272 | no chain is longer than the volume has clusters, so the cut-off of the walks is never reached |
| Fat32.Volume.ClusterAt | src/fs/fat32.c:725-743 | the cluster at an index of a chain, found exactly if the chain is that long |
| Fat32.Volume.Extend | src/fs/fat32.c:776-800 | one more zeroed cluster at the end of a chain, taken from the free ones, no file's content changed; fails exactly if no cluster is free |
| Fat32.Volume.EnsureSize | src/fs/fat32.c:747-803 | contents stay and the chain only grows, by zeros; success exactly if the chain and the free clusters suffice, to the required length; otherwise the chain has taken all free clusters |
| Fat32.RequiredExact | src/fs/fat32.c:749-751 | the 32-bit rounding gives enough clusters if and only if it does not wrap |
| Fat32.Volume.ZeroRange | src/fs/fat32.c:808-853 | exactly the range is zeroed, exactly if the chain covers it |
| Fat32.Volume.Read | src/fs/fat32.c:1413-1483 | the loop over clusters returns what the 32-bit bounds of the call select from the chain's bytes |
| Fat32.ReadExact | src/fs/fat32.c:1424-1430 | that is the slice of the file if and only if the bounds do not wrap into the file (or the chain ends with it) |
| Fat32.ReadPastTheEnd | src/fs/fat32.c:1424-1430 | for every cluster size, a read that returns the bytes behind the end of the file |
| Fat32.Volume.Write | src/fs/fat32.c:1500-1611 | exactly if the clusters suffice, the file becomes the splice of old content and buffer, with zeros in a gap, and its directory entry is written; otherwise no content changes, the chain has taken all free clusters and the entry is as before; other files are untouched |
| Fat32.ClippedExact | src/fs/fat32.c:1514-1523 | a write goes as far as it wants, or to the last offset there is |
| Fat32.Volume.CutChain | src/fs/fat32.c:902-941 | exactly the clusters behind the kept ones are freed, and the last kept one ends the chain |
| Fat32.Volume.Truncate | src/fs/fat32.c:949-1019 | the file is cut, always, or filled with zeros to the new size, exactly if the clusters suffice; cutting gives back the clusters beyond the required ones; the bytes are Files.TruncateBack |
| Fat32.Volume.NewFile | src/fs/fat32.c:1154-1229 | an empty file is added |
| Fat32.Volume.NewDirectory | src/fs/fat32.c:1192-1212 | a directory with one cluster, which its entry names, is added exactly if a cluster is free; otherwise nothing changes |
| Fat32.Volume.Remove | src/fs/fat32.c:1264-1309 | a file goes, the others are untouched, and its clusters are free again if and only if its directory entry names them; otherwise they are lost |
| Files.Do | src/fs/fat32.c:949-1611 | every operation, creating files and directories included, is one step of the plain store of byte sequences; it reports a lack of space exactly if the file's and the free clusters do not suffice, and takes, gives back or loses exactly the clusters it should |
| Files.Run | src/fs/fat32.c:949-1611 | so is every run, step by step, with all chains linked, ended and disjoint throughout |
| Files.StoresTrace | src/fs/fat32.c:949-1611 | the contents over such a run are a run of the plain store |
| Files.RunStaysClean | src/fs/fat32.c:1264-1309 | in every run without a lack of space every used cluster stays in a file's chain and every file with clusters can be reached by its directory entry |
| Files.CleanOwned | src/fs/fat32.c:243-272 | then a cluster is used exactly if it is in some file's chain |
| Files.FailedWriteLeaks | src/fs/fat32.c:1523-1541 | creating a file, a write for which the space does not suffice, and removing the file change no content and lose every free cluster |
| Files.OthersKept | src/fs/fat32.c:1500-1611 | in every run a file changes only by operations on itself |
| Files.ReadBack | src/fs/fat32.c:1500-1611 | after a write, reading the range gives the buffer, the gap zeros, and the rest what was there |
| Files.TruncateBack | src/fs/fat32.c:949-1019 | after a truncation the file has the new size, its old bytes, and zeros behind them; no other file changes |
| Files.ReadExactly | src/fs/fat32.c:1413-1483 | a read yields the bytes of the file from the offset on, as many as wanted or as there are, and changes nothing |
| Names.MakeShort | src/fs/fat32.c:373-445 | succeeds exactly on one to eight allowed characters with up to three more behind a dot; the eleven bytes are both parts in upper case, padded |
| Names.ShortBytes | src/fs/fat32.c:373-445 | of the eleven bytes none is a small letter; those of the main part stand from byte 0, those behind the dot from byte 8, and the rest are blanks |
| Names.FormatName | src/fs/fat32.c:1038-1063 | the shown name: both parts up to the first blank, joined by a dot, in lower case |
| Names.ShownIsName | src/fs/fat32.c:373-445 | showing the short form of any accepted name gives the name in lower case, without a dot at its end |
| Directory.Dir.constructor | src/fs/fat32.c:593-632 | a new directory shows exactly "." and "..", with nothing behind a blank slot, and no name twice |
| Directory.Dir.Find | src/fs/fat32.c:1089-1152 | the first entry shown as the name, ignoring case, found exactly if there is one |
| Directory.Dir.FindFree | src/fs/fat32.c:450-544 | the first blank or deleted slot |
| Directory.FreeExact | src/fs/fat32.c:450-544 | a slot is free exactly if it holds no entry |
| Directory.Dir.Create | src/fs/fat32.c:1154-1229 | succeeds exactly on an accepted name that is not listed, with a slot or a cluster to be had; no entry ever follows a blank slot |
| Directory.PlacedLists | src/fs/fat32.c:1154-1229 | creation adds exactly the new name |
| Directory.CreateUnique | src/fs/fat32.c:1154-1229 | names stay unique if and only if the name without its last dot was not listed |
| Directory.DotMakesTwins | src/fs/fat32.c:1164-1175 | creating a listed name with a dot added makes a twin |
| Directory.Dir.IsEmpty | src/fs/fat32.c:634-698 | stopping at the first blank slot gives the same answer as looking at all slots |
| Directory.OnlyDotsAreLeft | src/fs/fat32.c:634-698 | every entry that can be created counts against emptiness, and the two dot entries do not |
| Directory.Dir.Remove | src/fs/fat32.c:1264-1309 | the first entry of that name goes exactly if it is not a directory or a removable one; where names are unique, exactly that name goes, and they stay so |
| Directory.Dir.Rename | src/fs/fat32.c:1330-1404 | succeeds exactly if the old name is listed and the new one is accepted and not listed (or both are the same but for case); the entry keeps its slot; where names are unique, exactly the old name goes and the new one comes |
| Directory.RenameUnique | src/fs/fat32.c:1330-1404 | names stay unique if and only if no other entry is shown as the new name |
| Directory.Run | src/fs/fat32.c:1154-1404 | in every run of creations, removals and renamings each succeeds exactly under its own conditions on the slots before it; names stay unique and exactly the right ones are shown, up to the first operation that would make twins; without a dot at the end of a new name there is none |
| Tcp.Compare | src/include/net/tcp.h:61-65 | less than 2^31 apart, wrapped sequence numbers compare like the stream positions they stand for |
| Tcp.CompareLimit | src/include/net/tcp.h:61-65 | at a distance of 2^31 each of two numbers is before the other |
| Tcp.Between | src/include/net/tcp.h:65-65 | the window test on wrapped numbers is the window test on positions |
| Tcp.Receiver.Enqueue | src/net/tcp.c:242-289 | the segment goes to its place in the queue, which stays sorted, without duplicates, beyond rcv_nxt and within the window; refusal exactly if it is full or the segment is outside the window |
| Tcp.Receiver.Merge | src/net/tcp.c:292-325 | every queued segment that continues the stream is accepted, up to the first gap, and exactly the segments beyond the new rcv_nxt are left, each with its data |
| Tcp.MergeIs | src/net/tcp.c:292-325 | the merge ends at a position to which queued segments lead, each starting where the one before ends; exactly the segments beyond it are kept |
| Tcp.LeadsOnce | src/net/tcp.c:292-325 | there is only one such position without a segment of its own |
| Tcp.ReachExact | src/net/tcp.c:292-365 | along a merge every byte is stored if and only if all of them fit |
| Tcp.Receiver.ProcessData | src/net/tcp.c:345-365 | any segment of the stream, early, late or repeated, leaves the receive state right; rcv_nxt moves along queued segments that join end to start, up to the first gap, and exactly the segments beyond it stay queued, with their data; nothing is dropped if and only if the buffer has room for all the bytes it moves over |
| Tcp.Receiver.Read | src/net/tcp.c:1091-1119 | hands out the oldest unread bytes and keeps the rest |
| Tcp.Receiver.InOrder | src/net/tcp.c:345-365 | bytes handed out and bytes unread are the stream up to rcv_nxt if and only if none was dropped |
| Tcp.Run | src/net/tcp.c:242-365 | every run of arrivals, in any order, with duplicates and overlaps, and reads is the sequence of states that follow one from the other; bytes handed out and unread are the stream up to rcv_nxt if and only if in every step the buffer had room for all the bytes by which rcv_nxt moved |
| Tcp.StaysQueued | src/net/tcp.c:242-365 | in every run a queued segment stays queued, with its data, until rcv_nxt reaches it |
| Tcp.LargeBuffer | src/net/tcp.c:242-365 | a receiver that starts empty with a buffer as large as the stream always has that room |
| Rtt.Estimator.Update | src/net/tcp.c:69-86 | with samples below 2^28 no signed operation overflows, and the result is the estimate over the integers |
| Rtt.Estimator.CalcRto | src/net/tcp.c:56-65 | the timeout is between 200 ms and 120 s |
| Rtt.ClampExact | src/net/tcp.c:56-65 | the timeout is the estimate where that is within the limits, and otherwise the nearer limit |
| Rtt.Bounded | src/net/tcp.c:69-86 | srtt stays in 1..8M and rttvar in 1..4M for samples up to M |
| Rtt.FirstSample | src/net/tcp.c:70-73 | the first sample is the mean and half of it the deviation, as in section 2.2 of RFC 6298 |
| Rtt.LaterSample | src/net/tcp.c:74-83 | a later one moves them as section 2.3 of RFC 6298 says, with weights 1/8 and 1/4, rounded up by less than one unit of the fixed point |
| Rtt.Feed | src/net/tcp.c:69-86 | over every list of samples srtt and rttvar are the estimates over the integers, at least 1 from the first sample other than 0 on, with the timeout within its limits |
| Rtt.BoundSharp | src/net/tcp.c:76-77 | a first sample of 2^28 makes the next update overflow |
| Reassembly.Entry.Add | src/net/ip.c:117-156 | the fragment goes to its place in the list by offset; an exact duplicate is dropped |
| Reassembly.Entry.Whole | src/net/ip.c:161-176 | the scan for holes with its 16-bit running offset |
| Reassembly.Entry.Complete | src/net/ip.c:161-196 | waits, fails or delivers as the scan and the size of a network buffer say, and delivers only lists without gap or overlap |
| Reassembly.Entry.Assemble | src/net/ip.c:178-186 | copying each fragment to its offset gives the fragments joined |
| Reassembly.RoomExact | src/include/net/netbuf.h:22-23 | the buffer holds the packet if and only if it has at most 1920 bytes |
| Reassembly.TooLongAt1921 | src/net/ip.c:178-186 | two fragments of a packet of 1921 bytes are copied through a null pointer |
| Reassembly.ScanExact | src/net/ip.c:165-176 | with every end in range the scan succeeds exactly on lists without gap or overlap |
| Reassembly.WholeMeansTiled | src/net/ip.c:161-176 | a list that passes tiles the packet if and only if every fragment ends in range |
| Reassembly.PassesByWrapping | src/net/ip.c:161-176 | 45 fragments of at most 1480 bytes that end at 65544 pass as a packet of 8 bytes and are copied beyond its buffer |
| Reassembly.InsertPiece | src/net/ip.c:136-151 | pieces of a payload may arrive in any order and more than once |
| Reassembly.Reassemble | src/net/ip.c:117-196 | for a payload cut anywhere, in any order and with duplicates, every arrival yields nothing while a piece is missing since the last packet, and with the last one the payload if and only if that has at most 1920 bytes, and otherwise a copy through a null pointer |
| Reassembly.PendingFirst | src/net/ip.c:117-156 | up to the first packet the entry holds all that has arrived |
| Reassembly.LateDuplicate | src/net/ip.c:193-196 | a duplicate that comes after the packet waits in a new entry |
| Dns.Encode | src/net/dns.c:51-86 | succeeds exactly if every label has 1 to 63 bytes and the result fits; each label follows its length, a zero ends |
| Dns.WireBytes | src/net/dns.c:51-86 | in an encoded name each label stands behind its length, right after the label before, and the last byte is zero |
| Dns.DottedSplit | src/net/dns.c:51-86 | joining the labels of a name with dots gives the name without a dot at its end |
| Dns.Decode | src/net/dns.c:91-147 | the loop ends on every packet, with the result of its steps |
| Dns.DecodeExact | src/net/dns.c:91-147 | a name held by the packet, compressed or not, that is shorter than the buffer decodes to its labels and uses the bytes to its end or first pointer, if and only if at most ten pointers lead through it |
| Dns.ExtentExact | src/net/dns.c:91-147 | the bytes a name uses where it stands end with its zero, or with its first pointer behind its own labels |
| Dns.TargetExact | src/net/dns.c:105-109 | a pointer names the place given by its low 14 bits |
| Dns.DecodeFull | src/net/dns.c:91-147 | a longer one decodes if and only if some of its first labels, dotted, fill the buffer exactly within ten pointers; then to those, with the bytes read up to there |
| Dns.CutShort | src/net/dns.c:103-146 | abc.d in a buffer of four bytes decodes to abc |
| Dns.DecodedIsHeld | src/net/dns.c:91-147 | whatever decodes without filling the buffer is a name the packet holds; a result that fills it is a list of labels read from the packet, through at most ten pointers |
| Dns.RoundTrip | src/net/dns.c:51-147 | an encoded name anywhere in a packet decodes to the name without its last dot and uses exactly the encoded bytes |
| Checksum.Partial | src/net/checksum.c:11-34 | the 32-bit sum of the words, an odd byte padded with zero |
| Checksum.SumByPlace | src/net/checksum.c:11-34 | each byte counts once at an even place and 256 times at an odd one, the last byte of odd data included |
| Checksum.Fold | src/net/checksum.c:36-44 | folding gives the remainder by 65535, with 0 only for 0 |
| Checksum.FoldedExact | src/net/checksum.c:36-44 | for every sum the folded value has the same remainder by 65535, fits 16 bits, and is 0 only for 0 |
| Checksum.Compute | src/net/checksum.c:46-49 | the complement of the folded sum; up to 131074 bytes the 32-bit accumulator does not overflow |
| Checksum.Verify | src/net/checksum.c:51-61 | true exactly if the sum is a positive multiple of 65535, up to 131074 bytes |
| Checksum.SumAppend | src/net/checksum.c:11-34 | summing an even piece and then the rest is summing the whole |
| Checksum.NoOverflow | src/net/checksum.c:11-34 | the sum is at most 65535 per word |
| Checksum.StoredVerifies | src/net/checksum.c:46-61 | storing the checksum in a zeroed, aligned field makes the data verify |
| Checksum.ChangeNoticed | src/net/checksum.c:51-61 | changing one word is noticed if and only if its one's complement value changes |
| Checksum.WithPseudoHeader | src/net/tcp.c:1186-1203 | summing pseudo-header and segment one after the other is the checksum of both |
| Pipe.RunKeeps | src/fs/pipe.c:175-393 | every interleaving keeps the invariant, token counts included |
| Pipe.FirstInFirstOut | src/fs/pipe.c:175-330 | in every run the bytes read, followed by the buffer, are the bytes written in entry order, and the buffer never exceeds 4096 |
| Pipe.ReadAnswer | src/fs/pipe.c:190-240 | a read returns the first bytes there are, as many as wanted; it returns nothing exactly if it wants nothing or the buffer is empty and the write end closed, and waits exactly if the buffer is empty and the write end open |
| Pipe.EndMeansAllRead | src/fs/pipe.c:190-216 | in every run a read that wants bytes returns nothing if and only if the write end is closed and all that was ever written has been read |
| Pipe.StartAnswer | src/fs/pipe.c:253-275 | a write to a closed read end sends nothing |
| Pipe.WriteAnswer | src/fs/pipe.c:275-330 | a write puts as many of its next bytes as fit behind those there are, waits exactly if it has bytes left, the buffer is full and the read end open, and ends short only if the read end is closed |
| Pipe.WaitAnswer | src/fs/pipe.c:190-305 | a wait that ends takes one token and changes nothing else |
| Pipe.EndsAnswer | src/fs/pipe.c:339-393 | only the last close of an end marks it closed, with ten tokens for the other side; the other openings and closings only count |
| Pipe.TakenIsReturned | src/fs/pipe.c:175-246 | bytes leave the pipe only as the result of a read that returns |
| Pipe.WrittenIsSent | src/fs/pipe.c:253-330 | bytes enter the pipe only as the next bytes of a write, which counts them |
| Pipe.NoLostWakeup | src/fs/pipe.c:190-326 | in every run: with bytes in the buffer a waiting reader means that a reader can move, with room and a read end a waiting writer means that a writer can, and readers and writers never wait for each other for ever |
| Pipe.StepsEnd | src/fs/pipe.c:175-330 | without new calls every run of threads ends, after at most as many steps as the state has effort |
| Pipe.ComesToRest | src/fs/pipe.c:175-330 | and from every state there is a run to one in which no thread can move |
| Pipe.EndOfFile | src/fs/pipe.c:354-379 | after the last close of the write end every blocked reader is released, once no thread can move, if at most ten more wait than there are tokens; otherwise, with the buffer empty and no write in progress, some reader stays blocked |
| Pipe.BrokenPipe | src/fs/pipe.c:367-379 | the mirror image: after the last close of the read end every blocked writer is released if at most ten more wait than there are tokens; otherwise, with no read in progress, some writer stays blocked |
| Ring.Buffer.constructor | src/fs/pipe.c:62-87 | an empty buffer with 0 read and 4096 write tokens |
| Ring.Buffer.Take | src/fs/pipe.c:218-232 | the oldest bytes leave in order, around the end of the array, one write token each |
| Ring.Buffer.Put | src/fs/pipe.c:306-321 | as many bytes as fit are appended, one read token each |
| Ring.ReadLoop | src/fs/pipe.c:218-234 | the copy loop is the reader's critical section of the pipe's state machine |
| Ring.WriteLoop | src/fs/pipe.c:306-323 | the copy loop is the writer's critical section |
| Semaphores.NextKeeps | src/kernel/sync/semaphore.c:23-94 | a step keeps "no task is blocked while a unit is unclaimed", if its signal reaches a waiter of its own semaphore |
| Semaphores.UnitsExact | src/kernel/sync/semaphore.c:23-94 | a task passes exactly if there is a unit, and takes it; a signal brings one, up to the limit; nothing else changes a count |
| Semaphores.UnitsConserved | src/kernel/sync/semaphore.c:23-94 | over every run the units there were and those brought are the waits that ended and the units left |
| Semaphores.AimedSignalsSuffice | src/kernel/sync/semaphore.c:23-94 | over every run of such steps no wake-up is lost |
| Semaphores.AimedExact | src/kernel/task.c:1322-1349 | from any state without a stranded task, a signal strands nobody if and only if it reaches a waiter of its own semaphore, there is none, the count is full, or the tasks on their way in are at least as many as the units |
| Semaphores.OneSemaphoreSuffices | src/kernel/sync/semaphore.c:23-94 | where all tasks wait for one semaphore, no wake-up is lost in any run |
| Semaphores.WakeupLost | src/kernel/task.c:1322-1349 | two semaphores and two tasks, and a wake-up that is lost |
| Tasks.AlwaysConsistent | src/kernel/task.c:70-155 | in every run, calls of a task that has killed itself included, the ready queue holds exactly the ready tasks, each once; only the current task runs; the active count is the number of used slots |
| Tasks.ScheduleRuns | src/kernel/task.c:931-1107 | the oldest ready task runs next, the caller goes to the back, and the idle task runs exactly if nothing else can |
| Tasks.SwitchExact | src/kernel/task.c:931-1107 | slot by slot: the terminated task of the last switch is freed, a caller that still runs becomes ready, one that is terminated is remembered, and no other slot changes but the one that runs next |
| Tasks.NoStarvation | src/kernel/task.c:931-1107 | the task at place k of the queue runs within k + 1 calls of the scheduler, whatever else happens, unless it is killed |
| Tasks.NeverAgain | src/kernel/task.c:1180-1262 | an ended task that has left the processor stays as it is until its slot is freed |
| Tasks.BootedOk | src/kernel/task.c:1378-1410 | at boot the idle task alone is there, and the invariant holds |
| Tasks.TimerExact | src/kernel/task.c:1114-1172 | a tick wakes exactly the blocked tasks whose time has come, in slot order behind the ready ones; every other slot, and every sleeper that is not due, stays as it is |
| Tasks.ForkExact | src/kernel/syscalls/process.c:190-345 | the lowest unused slot becomes a ready child of the caller, last in the queue, and no other slot changes; it fails exactly if there is none |
| Tasks.SignalExact | src/kernel/task.c:1322-1349 | exactly the first blocked task that does not sleep becomes ready, last in the queue; without one nothing changes |
| Tasks.BlockExact | src/kernel/task.c:1274-1290 | the caller alone is blocked, with its time of waking if it sleeps, and gives up the processor |
| Tasks.WaitExact | src/kernel/syscalls/process.c:934-995 | waiting frees the slot of an ended child of the caller and nothing else; for any other slot nothing changes |
| Tasks.ExitExact | src/kernel/task.c:1180-1262 | the caller waits for its parent or is terminated; its ended children are freed, its others orphaned, and no other slot changes |
| Tasks.KillExact | src/kernel/syscalls/process.c:824-907 | the same for the victim, with the children that the scan reaches; a ready victim leaves the queue, which keeps its order, and one that has ended is left alone |
| Tasks.AliveAgain | src/kernel/task.c:1274-1290 | an ended task becomes ready, running or blocked by a step if and only if it is the current one and the step blocks it or puts it to sleep |
| Tasks.KillSelfRevives | src/kernel/syscalls/process.c:862-907 | a run in which a task kills itself, sleeps, and is in the ready queue after the next tick |
| Tasks.KillKeepsIff | src/kernel/syscalls/process.c:824-907 | killing any task in any state keeps the invariant, unless the caller has ended and is a child of the victim that the scan reaches; then, and only then, the caller's own slot is freed while it runs |
| Tasks.KillLeaks | src/mm/vmm.c:1003-1069 | a task without parent that another one kills is freed while the scan for users of its page directory still finds it, so the directory stays although no task has it |
| Tasks.EndedReleases | src/kernel/task.c:190-233 | for a task that has ended the scan finds the directory in use exactly if another living task has it |
| Scheduler.Pool.constructor | src/kernel/task.c:1378-1410 | the state after boot |
| Scheduler.Pool.QueueAdd | src/kernel/task.c:70-100 | the links spell the queue with the task at its end |
| Scheduler.Pool.QueueRemove | src/kernel/task.c:105-130 | the links spell the queue without the task |
| Scheduler.Pool.QueuePop | src/kernel/task.c:136-155 | the head leaves and the links spell the rest |
| Scheduler.Pool.Alloc | src/kernel/task.c:164-185 | the lowest unused slot is taken and cleared, if there is one |
| Scheduler.Pool.Create | src/kernel/syscalls/process.c:190-345 | a new task is ready and last in the queue |
| Scheduler.Pool.Reschedule | src/kernel/task.c:931-1107 | is the scheduling step of the task states |
| Scheduler.Pool.Wait | src/kernel/sync/semaphore.c:44-52 | is the blocking step |
| Scheduler.Pool.SleepUntil | src/kernel/task.c:1274-1290 | is the sleeping step |
| Scheduler.Pool.WakeFirst | src/kernel/task.c:1322-1349 | wakes the first blocked task that does not sleep |
| Scheduler.Pool.TimerTick | src/kernel/task.c:1114-1172 | is the timer step of the task states, which is Tasks.TimerExact |
| Scheduler.Pool.Leave | src/kernel/task.c:1180-1262 | ended children are freed, others orphaned, and the task waits for its parent or is terminated |
| Scheduler.Pool.KillTask | src/kernel/syscalls/process.c:824-907 | is the killing step; the state stays valid if and only if the caller does not free itself |
| Scheduler.Pool.Collect | src/kernel/syscalls/process.c:934-995 | frees an ended child that matches; tells a caller without such children from one whose children have not ended |
| Blocks.MallocKeeps | src/mm/heap.c:245-317 | after a call the blocks tile the heap, with no two free ones side by side, unless the heap grew while last_block was not the tail or by a sum that wraps; then no list describes it |
| Blocks.MallocLast | src/mm/heap.c:186-205 | last_block stops being the tail exactly when the tail block is split |
| Blocks.MallocSafe | src/mm/heap.c:245-317 | the block returned has room for the request, overlaps no block in use, and those keep place and size, if and only if neither the rounding of the size nor the growth wraps in 32 bits; failure exactly if none fits and the heap cannot grow |
| Blocks.FirstFit | src/mm/heap.c:245-317 | a request that some free block can serve gets the one at the lowest address, cut to the rounded size exactly if the rest makes a block, which is then free |
| Blocks.MallocExact | src/mm/heap.c:245-317 | after a call exactly the blocks that were in use are, and the one returned |
| Blocks.StraightExact | src/mm/heap.c:34-36 | the appended block ends where the heap does if and only if the growth does not wrap and is not empty |
| Blocks.RoundsToNothing | src/mm/heap.c:245-276 | a request of 2^32 - 3 bytes rounds to none and gets a block without room |
| Blocks.GrowsByNothing | src/mm/heap.c:34-36 | a request of 2^32 - 20 bytes grows the heap by no page and gets a block behind its end |
| Blocks.FreeKeeps | src/mm/heap.c:325-343 | kfree keeps the tiling, leaves no two free blocks side by side, and keeps last_block the tail |
| Blocks.FreeExact | src/mm/heap.c:325-343 | exactly the other blocks in use stay in use, unchanged |
| Blocks.Covered | src/mm/heap.c:140-177 | every address of the heap lies in exactly one block |
| Blocks.RunKeeps | src/mm/heap.c:245-343 | over every run in which the heap grows only while last_block is the tail and without wrapping, no two blocks in use overlap |
| Blocks.OverlapAfterSix | src/mm/heap.c:186-205 | six calls after which two blocks in use overlap |
| Blocks.InitialReady | src/mm/heap.c:212-236 | after initialisation the heap is in order, one free block that covers its first page |
| Blocks.Kernel.Allocate | src/mm/heap.c:245-317 | the search, split and append on the headers: null exactly if nothing fits and the heap cannot grow; otherwise the block has room and lies apart from all others if and only if the sums do not wrap; the heap stays in order if and only if the call is not one of those that break it |
| Blocks.Kernel.Release | src/mm/heap.c:325-343 | after the merging on the headers exactly the other blocks are in use, each at its place and with its size, and the heap is in order; a null pointer or an address without a header is ignored |
| Blocks.AlignedInBlock | src/mm/heap.c:413-464 | the aligned address, the pointer stored before it and the wanted bytes lie in a block in use, in the heap and apart from all others, if and only if neither the enlarged size nor a sum of kmalloc wraps |
| Elf.FillPage | src/kernel/elf.c:286-306 | each byte of a page is the file's where the segment's file part covers it, and zero elsewhere; the copy stays in the file exactly if the part does |
| Elf.Load | src/kernel/elf.c:259-314 | loads the program exactly if every segment passes the 32-bit test of its file part, starts below the kernel and is copied from inside the file, and the pages suffice; then every page holds what its segment wants and the end is the largest rounded end |
| Elf.SegmentInPlace | src/kernel/elf.c:286-306 | for page-disjoint segments whose end does not wrap every byte of a segment is the file's up to p_filesz and zero up to p_memsz |
| Elf.RestIsZero | src/kernel/elf.c:286-306 | all bytes of the mapped pages outside the file parts of the segments are zero |
| Elf.HighestExact | src/kernel/elf.c:282-311 | the reported end is the largest rounded end of the segments, or 0 without one |
| Elf.EndExact | src/kernel/elf.c:282-311 | where no end wraps it is a page boundary behind the memory of every segment, and less than a page behind that of one |
| Elf.InsideStraight | src/kernel/elf.c:271-274 | an accepted segment whose file part does not wrap is copied from inside the file |
| Elf.CopiesOutside | src/kernel/elf.c:271-274 | two bytes at offset 0xFFFFFFFF pass the test of every file and are copied from outside it |
| Elf.MemoryCovered | src/kernel/elf.c:282-285 | the pages of a segment that fits hold all of its memory if and only if its end does not wrap |
| Elf.OnePageOfMany | src/kernel/elf.c:282-285 | a segment of almost 4 GiB is accepted and given one page |
| Elf.BelowKernelExact | src/kernel/elf.c:273-283 | all pages of a loaded program lie below the kernel if and only if every segment that has pages ends there |
| Elf.ReachesTheKernel | src/kernel/elf.c:273-283 | a segment of two pages that starts one page below the kernel is accepted, and the second page is the kernel's |

## Left out

- Hardware and what surrounds it: TLB, PAT, MMIO, context switching, the x86_64 and arm64 paths, drivers and the framebuffer.
- Locks: a locked region is one step; interrupts are steps of their own only in the scheduler.
- Kernel half of page directories, and the protection counts of kernel page tables.
- MAP_SHARED and shared memory mappings, which fork also makes copy-on-write.
- Vmm.AddressSpaces.Clone: for a directory without a full count; what a fork of one does is Cow.ShareFullBreaks.
- Vmm.AddressSpaces.FreeDirectory: whether a task still uses the directory is a parameter; the scan is Tasks.InUse.
- Vmm.AddressSpaces.HandleFault: for user addresses.
- Vmm.AddressSpaces.Write: the user bit of an entry is not looked at.
- Frames.Allocator.constructor: takes the bitmap that parsing the boot memory map yields.
- Zones by name, and the checks of address alignment; frames are page frame numbers, and the table of protected frames does not reach its limit of 65536.
- Disk I/O errors, the FSInfo sector, time stamps, attributes, and more than one handle to an open file.
- Directory slots as the bytes of their clusters, and long names.
- Fat32.Volume.Write: when the 32-bit rounding of the size wraps, only that the file keeps its content or a prefix of the buffer is spliced in.
- Files.Run: for offsets and sizes whose 32-bit sums and roundings do not wrap; what happens otherwise is stated for the single calls.
- Directory.Dir.Remove: whether a directory to be removed is empty is a parameter; Directory.Dir.IsEmpty is the test.
- TCP connections, retransmission, congestion and options; urgent data and FIN.
- Tcp.Receiver.ProcessData: for segments of the stream that start less than 2^31 from rcv_nxt, of less than 65536 bytes.
- Rtt.Estimator.Update: for samples of which eight stay below 2^31.
- The table of reassembly entries, its timeouts, and running out of memory for a fragment or a buffer.
- Route lookup, ARP, DHCP, ICMP, UDP, sockets.
- The DNS cache and resolver.
- The end of a pipe's life: where the last close of both ends frees it, it stays closed.
- Process numbers: slots stand for them, and the kill scan for children reaches an arbitrary set of slots.
- Freeing a terminated task: task_exit clears the current task first, so that its slot is never freed; the model does the same.
- Scheduler.Pool.QueueRemove: for a queued task, which every ready task is; of another one the code would take the missing links for both ends of the queue.
- Tasks.AlwaysConsistent: the idle task only yields, and the call that frees its own caller ends a run.
- Scheduler.Pool.Leave: frees ended children while scanning, where the code collects them first.
- Blocks.Kernel.Release: block headers that are overwritten, and a header that belongs to no block in use.
- krealloc and kcalloc, which only combine kmalloc, kfree and a copy.
- Elf.Load: page numbers do not wrap, as with at most the 2^19 frames that the kernel's half can address; header validation and the mapping flags. A copy from outside the file ends the model's run.
- The shell, system call plumbing, VFS, ramfs, devfs, procfs, logging.
