# Nachos and course programs, verified in Dafny

A model of the algorithms in this repository of operating-system course work,
with proofs of what they promise. Most of it is the Nachos kernel
(`cs4411/nachosC`): demand paging with swap, the file system on a sector disk,
and the run-time core of the simulated machine. Beside it stand two concurrent
programs (Santa with his reindeer and elves, a systolic matrix product) and
four small algorithms (DNS names, bit-field packing, heapsort, bit-serial
multiplication).

`dafny verify dfyconfig.toml` checks everything.

## Structure

Every component has the same two layers. The state is a value, and each
operation is a function on it; the theorems are lemmas about these functions
and about runs of them. Code that changes things in place is a class or a method
with loops, and its contract says that the new state is the function of the old
one. Concurrent programs are state machines over single statements, and their
theorems hold for every schedule.

| files | component |
|---|---|
| `Basics`, `Machine` | options; bytes, 32-bit words, little-endian layout |
| `PagingModel`, `PagingProofs`, `PagingRuns`, `PagingTheorems`, `PagingLoads`, `Paging` | page faults, eviction, swapping, loading on demand, translation; the flat machine they are compared with; what the loads of a run return; the kernel's classes |
| `FsModel`, `FsCodec`, `FsLayout`, `FsVolume`, `FsRuns`, `FsReads`, `FsRoom`, `FsMeta`, `FileSystem` | what a disk says and what each call does to it; bytes on disk; the partition of the sectors; runs against a map from names to bytes, what their reads return and when their creates succeed; the kernel's classes |
| `Santa`, `SantaProofs`, `SantaProgress`, `SantaElves`, `SantaTurns` | the semaphore protocol of Santa, r reindeer and any number of elves |
| `Systolic`, `SystolicProofs` | the grid of processors on synchronous channels |
| `Mips` | the 32-step multiplication |
| `Lists`, `Scheduling` | the linked list with its sorted insertion, and the ready queue |
| `Interrupts`, `InterruptOrder`, `InterruptLog`, `InterruptSim` | simulated time and pending interrupts; in which order they fire; what events and handlers ask for; the objects |
| `Semaphores` | semaphores and locks under every schedule |
| `Ports`, `PortProofs`, `PortProgress`, `PortOrder` | the rendezvous port behind `Join` |
| `DnsNames` | names in DNS messages (RFC 1035, sections 3.1 and 4.1.4) |
| `BitFields` | packing and unpacking of bit fields |
| `Heapsort` | heapsort in place |

## Where the code and its documentation differ

The model follows the code.

- The list `lru` of the core map is touched only when a page is loaded, so the
  victim is the page loaded longest ago, not the one used longest ago
  (`EvictsOldestLoad`).
- `max_delivery` is compared with `<=`, so Santa makes one more delivery than he
  is asked for (`RetiresAfterOneMore`).
- Elves who have called Santa may wait for ever, because he retires. It is so
  exactly when all deliveries are made, or when the last is bound to come before
  he looks for elves again (`AnsweredIff`).
- The systolic program is described as computing A times B and as not working.
  For square grids without an entry of -1 it computes B times A, and it ends
  exactly then (`EndsWithProduct`, `FinishesIffNoMarker`); that is A times B only
  when the two are equal (`OtherProductIff`, `NotTheOtherProduct`).
- File names are said to have at most nine characters; longer ones are accepted
  and told apart by their first nine (`NamesCompared`, `NameReadBack`).
- Pending interrupts for the same time are not first in, first out: each tick that
  looks at them too early puts the first behind the others, so g of them keep
  their order exactly after a multiple of g such ticks (`SameTimeOrder`,
  `SameTimeSwaps`).
- A port with at least two senders and two receivers, and no other, can get
  stuck, because a receive signals no waiting sender (`WedgesIff`).
- A host name with an empty label does not survive the DNS encoding
  (`RoundTripIff`), and a field that straddles two words comes back wrong when
  its leading bit is set or when the word boundary is where it begins
  (`FieldComesBackIff`, `UnpackUndoesPackIff`).

## Model

| member | source | states |
|---|---|---|
| PagingTheorems.PagingInvisible | cs4411/nachosC/machine/translate.cc:87-255 | Over any interleaving of exec, exit, loads and stores by any number of programs, with any faults and evictions in between: as long as the paged machine has not stopped, every load returned what one flat private memory per program returns, and the memories agree at the end |
| PagingTheorems.PagingNeverStops | cs4411/nachosC/vm/mmu.cc:4-36 | If every executable holds its segments, the paged machine stops on a sequence of events exactly when the flat machine does (a misaligned or out-of-range address), never for lack of a frame or a swapped page |
| PagingTheorems.MemoryHoldsLastStore | cs4411/nachosC/machine/translate.cc:137-169 | After any run of the paged machine the memory of a live program holds at each address the last byte which that program stored there, or else its initial byte |
| PagingLoads.LoadReturns | cs4411/nachosC/machine/translate.cc:87-169 | Over every run a load returns the number made of the bytes last stored at its addresses, by stores of whatever sizes, or else of those that were there: a byte is signed, a half word is not, a word is two's complement, the low byte first |
| PagingLoads.LoadInsideStore | cs4411/nachosC/machine/translate.cc:101-166 | In every run a load inside what the last store there wrote, whatever happens in between, sees the bytes of that value, the low byte at the lowest address |
| PagingLoads.LoadAfterStore | cs4411/nachosC/machine/translate.cc:101-166 | In every run a load of what a store of the same size wrote at the same address returns the value itself for a 32-bit word, the value modulo 65536 for a half word, and the signed low byte for a byte |
| PagingLoads.LoadByteOfStore | cs4411/nachosC/machine/translate.cc:101-166 | In every run a load of one byte at offset k of a stored value returns byte k of it, signed, byte 0 being the low one |
| PagingLoads.RunStopsIff | cs4411/nachosC/machine/translate.cc:187-255 | If every executable holds its segments, a run stops if and only if it comes to a load or store of a live program at an address that is no multiple of the size or lies beyond the program's pages |
| PagingTheorems.LowBytes | cs4411/nachosC/machine/translate.cc:150-166 | The bytes written for a value are its two's complement bytes, the low one first |
| PagingTheorems.EvictsOldestLoad | cs4411/nachosC/vm/mmu.cc:43-65 | After any run since boot, when all frames are used the victim is the frame whose page was loaded longest ago; uses after the load do not count, although the list is called lru |
| PagingTheorems.StepOk | cs4411/nachosC/machine/translate.cc:87-169 | One event of the paged machine keeps the paging invariant and is one event of the flat machine, with the same answer |
| PagingTheorems.ExecOk | cs4411/nachosC/userprog/addrspace.cc:65-120 | A new address space starts with its flat image (segments at their addresses, zero elsewhere), keeps the invariant and changes no other program's memory |
| PagingModel.NumPages | cs4411/nachosC/userprog/addrspace.cc:86-96 | A program gets the least number of pages that holds its segments, the stack, the arguments and four bytes |
| PagingTheorems.ReleaseOk | cs4411/nachosC/userprog/addrspace.cc:253-269 | Destroying an address space keeps the invariant and changes no other program's memory |
| PagingTheorems.ReleaseFramesExact | cs4411/nachosC/userprog/addrspace.cc:253-269 | The destructor's loop frees exactly the frames that a valid entry of the dying page table maps, and takes exactly those off the eviction list |
| PagingTheorems.BootOk | cs4411/nachosC/userprog/coremap.h:10-33 | The machine starts in the invariant, with no memory visible |
| PagingRuns.AccessOk | cs4411/nachosC/userprog/exception.cc:221-246 | One user access, with a fault and restart where needed, does what the flat machine does; inside the address space it fails only when its page cannot be loaded, outside it always fails |
| PagingRuns.TryOutside | cs4411/nachosC/machine/translate.cc:187-255 | Translation answers with an address error exactly for a misaligned or out-of-range access |
| PagingRuns.TranslatePresent | cs4411/nachosC/machine/translate.cc:187-255 | For a page in memory translation gives its frame plus the offset, sets the use bit, and sets the dirty bit exactly when writing |
| PagingRuns.TryPresent | cs4411/nachosC/machine/translate.cc:87-169 | An access to a page in memory does what the flat machine does and keeps the invariant |
| PagingProofs.FaultOk | cs4411/nachosC/vm/mmu.cc:4-36 | A page fault that ends well makes the page present, keeps the invariant and changes no byte of any program's memory |
| PagingProofs.FaultFailsIff | cs4411/nachosC/vm/mmu.cc:16-28 | A fault ends in a failed ASSERT exactly when the page is absent, was never swapped out, and the executable is too short for it |
| PagingProofs.FreeFrameOk | cs4411/nachosC/vm/mmu.cc:43-65 | frameFreeIndex always finds a frame: the failure branch of swapOut is never reached, nobody's memory changes, and the frame goes to the end of the list |
| PagingProofs.NoEvictionWhileFree | cs4411/nachosC/vm/mmu.cc:43-49 | While some frame is not in use, the one chosen is not, and no page table, swap file or memory changes |
| PagingProofs.SwapOutOk | cs4411/nachosC/userprog/swap.cc:50-83 | swapOut of a used frame, run on its owner, always finds the page, leaves the frame mapped by nobody and loses no byte, whether or not the page had to be written |
| PagingProofs.FillOk | cs4411/nachosC/vm/mmu.cc:16-33 | Loading or swapping in the page keeps the invariant and shows the faulting program the bytes it had before |
| PagingProofs.FrameOwnership | cs4411/nachosC/userprog/coremap.h:21-31 | A frame is marked used if and only if exactly one valid page-table entry of all live spaces maps it, and that entry belongs to the frame's owner |
| PagingProofs.LoadPageExact | cs4411/nachosC/userprog/addrspace.cc:122-210 | A page loads if and only if the executable holds what its segments need, and then the frame is that page's slice of the flat image, zero where no segment lies |
| PagingProofs.OverlayExact | cs4411/nachosC/userprog/addrspace.cc:137-167 | One segment's copy puts exactly the bytes of the file that fall on the page at their virtual addresses and leaves the other bytes |
| PagingProofs.WithoutTakesOut | cs4411/nachosC/userprog/coremap.h:29-30 | Removing a frame from a list without repetitions leaves the other frames, each once, in their order |
| Paging.CoreMap.SetUsed | cs4411/nachosC/userprog/coremap.h:29 | The frame stands last in the eviction list and nowhere else, and the other frames keep their order |
| Paging.CoreMap.SetUnused | cs4411/nachosC/userprog/coremap.h:30 | The frame is not in the eviction list any more, and the other frames keep their order |
| Paging.Swap.constructor | cs4411/nachosC/userprog/swap.cc:6-17 | A new swap holds no page |
| Paging.AddrSpace.constructor | cs4411/nachosC/userprog/addrspace.cc:65-120 | A new space has all pages invalid, none swapped, and as many as the program needs |
| Paging.AddrSpace.SavePageTableEntry | cs4411/nachosC/userprog/addrspace.h:46-49 | Replaces one entry and no other |
| Paging.AddrSpace.SetValidity | cs4411/nachosC/userprog/addrspace.h:51-54 | Changes the valid bit of one entry only |
| Paging.AddrSpace.SetDirty | cs4411/nachosC/userprog/addrspace.h:56-59 | Changes the dirty bit of one entry only |
| Paging.AddrSpace.GetPageNumber | cs4411/nachosC/userprog/addrspace.h:64-71 | The first page that is valid and in this frame, or -1 |
| Paging.Kernel.SwapOut | cs4411/nachosC/userprog/swap.cc:50-83 | Refines the model's swapOut: memory to swap file if dirty or never swapped, entry invalid, map updated; fails exactly when the owner does not map the frame |
| Paging.Kernel.SwapIn | cs4411/nachosC/userprog/swap.cc:25-46 | Refines the model: the frame holds the page's part of the swap file and is claimed for the thread |
| Paging.Kernel.SegmentChunk | cs4411/nachosC/userprog/addrspace.cc:142-157 | The chunk begins at the later of the two beginnings of page and segment, in both of their offsets, and ends at the earlier of their two ends |
| Paging.Kernel.LoadChunk | cs4411/nachosC/userprog/addrspace.cc:159-166 | The bytes of the file go to their place in the frame and nowhere else; a short read is reported |
| Paging.Kernel.LoadSegment | cs4411/nachosC/userprog/addrspace.cc:137-167 | One segment read into the frame, or a failure when the file is too short |
| Paging.Kernel.LoadBytes | cs4411/nachosC/userprog/addrspace.cc:126-198 | The frame is cleared and then holds the page of the flat image; fails exactly when the model fails |
| Paging.Kernel.LoadPageOnDemand | cs4411/nachosC/userprog/addrspace.cc:122-210 | Refines the model's load, frame bookkeeping included |
| Paging.Kernel.Claim | cs4411/nachosC/userprog/addrspace.cc:201-205 | Frame used, owned by the thread, entry valid and clean; nothing else changes |
| Paging.Kernel.FrameFreeIndex | cs4411/nachosC/vm/mmu.cc:43-65 | Refines the model's choice of a frame, eviction included, for every state in the invariant |
| Paging.Kernel.BringIn | cs4411/nachosC/vm/mmu.cc:16-33 | The loading half of a fault is the model's, whichever of the two sources the page comes from |
| Paging.Kernel.PageFaultHandler | cs4411/nachosC/vm/mmu.cc:4-36 | Refines the model's fault; fails exactly when the model does; keeps the invariant |
| Paging.Kernel.Translate | cs4411/nachosC/machine/translate.cc:187-255 | Refines the model's translation, use and dirty bits included; on an exception the page table is unchanged |
| Paging.Kernel.ReadMem | cs4411/nachosC/machine/translate.cc:87-122 | Refines the model's read of 1, 2 or 4 bytes, whose value `PagingLoads.LoadAfterStore` and `LoadByteOfStore` tell from the stores; a failed attempt changes nothing |
| Paging.Kernel.WriteMem | cs4411/nachosC/machine/translate.cc:137-169 | Refines the model: the low bytes of the value, little-endian, at the translated address and nowhere else |
| Paging.Kernel.HandleFault | cs4411/nachosC/userprog/exception.cc:230-232 | After a page fault has been handled the same access succeeds |
| Paging.Kernel.UserAccess | cs4411/nachosC/machine/mipssim.cc:31-45 | Attempt, fault, restart: the whole is one access of the model, and it fails exactly when the model does |
| Paging.Kernel.Exec | cs4411/nachosC/userprog/addrspace.cc:65-120 | Adds one space and leaves the others' objects and contents alone |
| Paging.Kernel.FreeFrames | cs4411/nachosC/userprog/addrspace.cc:253-269 | The destructor's loop over the page table is the model's ReleaseFrames |
| Paging.Kernel.Exit | cs4411/nachosC/userprog/addrspace.cc:253-269 | The space is gone, its frames are free, and the invariant holds |
| FsRuns.RunRefines | cs4411/nachosC/filesys/filesys.cc:175-288 | In every run of creates, removes, writes and reads, marked sectors stay the exact disjoint union of what the two meta files and the listed files own, and every file is what a plain map from names to bytes would hold |
| FsRuns.RunAnswers | cs4411/nachosC/filesys/openfile.cc:117-186 | Every call in such a run returns what that map says: counts, bytes read, success of removes and opens, and no create of a name that is there (`FsRoom.RunCreates` says exactly when one succeeds) |
| FsReads.ReadReturnsLastWrite | cs4411/nachosC/filesys/openfile.cc:117-186 | In every run a read returns at each byte what the last write there put, until the file is removed or made anew, whatever calls for other files or other bytes come in between |
| FsReads.LengthAsCreated | cs4411/nachosC/filesys/openfile.cc:117-160 | In every run, until a file is removed it has the length it was created with: reads and writes succeed, are cut off at that length and only there, and the name cannot be created again |
| FsReads.GoneOnceRemoved | cs4411/nachosC/filesys/filesys.cc:258-288 | In every run, once removed a file can be neither opened nor removed until it is created again |
| FsRoom.RunCreates | cs4411/nachosC/filesys/filesys.cc:175-215 | In every run a Create succeeds if and only if the map has no file of that name, has fewer than ten files, and the 1024 sectors less five for the meta files, less one header and the least number of sectors for each file of the map, leave one for the header and enough for the bytes |
| FsRoom.FreeIsTheRest | cs4411/nachosC/filesys/filehdr.cc:42-68 | On every disk in the invariant the free sectors are what the two meta files and the listed files leave of the disk |
| FsRuns.StepRefines | cs4411/nachosC/filesys/filesys.cc:175-288 | One operation on the sectors is one operation on the map from names to bytes, and its answer is the map's |
| FsRuns.StepKeepsLayout | cs4411/nachosC/filesys/filesys.cc:175-288 | Every operation keeps the partition of the sectors |
| FsRuns.HandleStays | cs4411/nachosC/filesys/openfile.cc:30-35 | Until a file is removed, an open handle and the disk agree on where its bytes are, whatever else is created, removed or written |
| FsRuns.HeaderStays | cs4411/nachosC/filesys/openfile.cc:30-35 | The same for one call |
| FsRuns.FormatOk | cs4411/nachosC/filesys/filesys.cc:83-126 | A formatted disk satisfies the partition invariant and holds no file |
| FsRuns.DataOnly | cs4411/nachosC/filesys/openfile.cc:147-186 | A write into a file's data sectors leaves bitmap, directory and every header as they were |
| FsRuns.OthersKeep | cs4411/nachosC/filesys/openfile.cc:147-186 | A change outside a file's sectors changes none of its bytes |
| FsRuns.WriteKeepsOther | cs4411/nachosC/filesys/openfile.cc:147-186 | A write to one file changes no byte of a file with another name |
| FsRuns.StoredFile | cs4411/nachosC/filesys/openfile.cc:180-183 | Writing back a buffer that holds the new bytes gives the file exactly the new contents |
| FsRuns.LoadedRange | cs4411/nachosC/filesys/openfile.cc:130-141 | The bytes between the offsets in the loaded sectors are the file's bytes from that position on |
| FsRuns.BufferFilled | cs4411/nachosC/filesys/openfile.cc:165-178 | Old bytes of the first and last sector around the new bytes: the buffer is the sectors of the file after the write |
| FsRuns.FileByte | cs4411/nachosC/filesys/filehdr.cc:107-110 | Byte q of a file is byte q mod 128 of its sector number q / 128 |
| FsVolume.CreateSucceedsIff | cs4411/nachosC/filesys/filesys.cc:175-215 | Create succeeds if and only if no listed file has the same first nine characters, a directory entry is free, and the free sectors without one for the header hold that many bytes |
| FsVolume.CreateKeeps | cs4411/nachosC/filesys/filesys.cc:175-215 | A successful Create keeps the partition |
| FsVolume.RemoveKeeps | cs4411/nachosC/filesys/filesys.cc:258-288 | A successful Remove keeps the partition: exactly the file's header and data sectors become free |
| FsVolume.CreateThenRemove | cs4411/nachosC/filesys/filesys.cc:175-288 | Removing the file just created restores bitmap and directory |
| FsVolume.SectorsConserved | cs4411/nachosC/filesys/filehdr.cc:42-52 | A created file's extent has one header sector and the least number of data sectors that holds its bytes, all free before; exactly these are free no longer |
| FsVolume.CountsFree | cs4411/nachosC/userprog/bitmap.cc:112-119 | The count of clear bits is the number of free sectors |
| FsModel.SectorsFor | cs4411/nachosC/filesys/filehdr.cc:45 | The least number of 128-byte sectors that holds n bytes |
| FsModel.Clamp | cs4411/nachosC/filesys/openfile.cc:123-126 | A request moves the bytes asked for, as far as the file goes, and none from its end on |
| FsVolume.TakeExact | cs4411/nachosC/filesys/filehdr.cc:42-52 | The allocation loop takes distinct sectors that were free, as many as asked for, and marks exactly those |
| FsVolume.GiveExact | cs4411/nachosC/filesys/filehdr.cc:62-68 | Deallocation frees exactly the listed sectors |
| FsVolume.FormatAllots | cs4411/nachosC/filesys/filesys.cc:91-100 | Formatting marks exactly the two headers' sectors and the data sectors of the two files, all distinct |
| FsCodec.HeaderReadBack | cs4411/nachosC/filesys/filehdr.cc:78-94 | A stored header reads back with its length and its sectors, whatever the unused places hold |
| FsCodec.TableReadBack | cs4411/nachosC/filesys/directory.cc:64-80 | A stored directory table reads back entry by entry |
| FsCodec.BitmapReadBack | cs4411/nachosC/userprog/bitmap.cc:149-165 | The bitmap file says what the bitmap said |
| FsLayout.HeaderLayout | cs4411/nachosC/filesys/filehdr.h:60-62 | The header of a file is, in four bytes each, the low one first: its length, the number of its sectors, and their numbers |
| FsLayout.EntryLayout | cs4411/nachosC/filesys/directory.h:32-39 | A directory entry is 20 bytes: the first says whether it is in use, bytes 4 to 7 are the header's sector in two's complement, bytes 8 to 17 the name |
| FsLayout.BitmapLayout | cs4411/nachosC/userprog/bitmap.cc:47-51 | Sector i is marked if and only if bit i mod 8 of byte i / 8 of the bitmap file is set |
| FsCodec.NamesCompared | cs4411/nachosC/filesys/directory.cc:91-97 | The directory's comparison accepts exactly the names that agree in the first nine characters |
| FsCodec.NameReadBack | cs4411/nachosC/filesys/directory.cc:138 | A stored name reads back as its first nine characters |
| FsCodec.SetInBits | cs4411/nachosC/userprog/bitmap.cc:47-51 | Or-ing the mask into the word sets that bit and no other |
| FsCodec.ClearInBits | cs4411/nachosC/userprog/bitmap.cc:61-65 | Masking the word clears that bit and no other |
| FsMeta.CreateOnDisk | cs4411/nachosC/filesys/filesys.cc:203-207 | Header, directory and bitmap written in the source's order make the disk read as the created volume, all other files untouched |
| FsMeta.RemoveOnDisk | cs4411/nachosC/filesys/filesys.cc:278-283 | Bitmap and directory written back make the disk read as the volume without the file |
| FsMeta.FormatOnDisk | cs4411/nachosC/filesys/filesys.cc:108-126 | The written headers, bitmap and empty directory make the disk read as a formatted one |
| FsMeta.HeaderApart | cs4411/nachosC/filesys/filesys.cc:228-241 | The header sector of a listed file is marked and is no sector of the meta files |
| FileSystem.Bcopy | cs4411/nachosC/filesys/openfile.cc:141 | Copies n bytes and changes nothing else in the target |
| FileSystem.SynchDisk.ReadSector | cs4411/nachosC/filesys/synchdisk.cc:73-79 | The buffer holds the sector; the disk is unchanged |
| FileSystem.SynchDisk.WriteSector | cs4411/nachosC/filesys/synchdisk.cc:91-97 | That sector holds the buffer; no other changes |
| FileSystem.BitMap.constructor | cs4411/nachosC/userprog/bitmap.cc:20-27 | All bits clear, although the words are not initialised |
| FileSystem.BitMap.Mark | cs4411/nachosC/userprog/bitmap.cc:47-51 | Sets one bit |
| FileSystem.BitMap.Clear | cs4411/nachosC/userprog/bitmap.cc:61-65 | Clears one bit |
| FileSystem.BitMap.Test | cs4411/nachosC/userprog/bitmap.cc:75-83 | Reads one bit |
| FileSystem.BitMap.Find | cs4411/nachosC/userprog/bitmap.cc:95-103 | Marks and returns the first clear bit; -1 and no change exactly when there is none |
| FileSystem.BitMap.NumClear | cs4411/nachosC/userprog/bitmap.cc:112-119 | The number of clear bits |
| FileSystem.BitMap.FetchFrom | cs4411/nachosC/userprog/bitmap.cc:149-152 | The bits are those of the file |
| FileSystem.BitMap.WriteBack | cs4411/nachosC/userprog/bitmap.cc:162-165 | The file holds the words; nothing else on disk changes |
| FileSystem.FileHeader.Allocate | cs4411/nachosC/filesys/filehdr.cc:42-52 | All data sectors or none: fails without touching the bitmap exactly when too few are free, else takes the first free ones in order, the least number that holds the bytes |
| FileSystem.FileHeader.TakeSectors | cs4411/nachosC/filesys/filehdr.cc:49-50 | The loop takes the first clear bits in order |
| FileSystem.FileHeader.Deallocate | cs4411/nachosC/filesys/filehdr.cc:62-68 | Frees the file's sectors; the source's assertion that each is marked holds |
| FileSystem.FileHeader.FetchFrom | cs4411/nachosC/filesys/filehdr.cc:78-81 | The header is what the sector says |
| FileSystem.FileHeader.WriteBack | cs4411/nachosC/filesys/filehdr.cc:91-94 | The sector reads back as this header; no other sector changes |
| FileSystem.FileHeader.ByteToSector | cs4411/nachosC/filesys/filehdr.cc:107-110 | The sector of the byte at this offset |
| FileSystem.OpenFile.constructor | cs4411/nachosC/filesys/openfile.cc:30-35 | A handle on the header in that sector, at position 0 |
| FileSystem.OpenFile.ReadAt | cs4411/nachosC/filesys/openfile.cc:117-144 | For every position and length: the count is clamped at the end of the file, and exactly these bytes of the file are put into the target |
| FileSystem.OpenFile.WriteAt | cs4411/nachosC/filesys/openfile.cc:147-186 | For every position and length: exactly the clamped range of the file is replaced, its other bytes stay, and only the file's sectors change |
| FileSystem.OpenFile.LoadSectors | cs4411/nachosC/filesys/openfile.cc:134-138 | The buffer holds the sectors of the file from first to last |
| FileSystem.OpenFile.StoreSectors | cs4411/nachosC/filesys/openfile.cc:180-183 | These sectors of the file hold the buffer, nothing else changes |
| FileSystem.OpenFile.StoreSector | cs4411/nachosC/filesys/openfile.cc:180-183 | One sector of the file holds its part of the buffer, nothing else changes |
| FileSystem.OpenFile.ReadPartial | cs4411/nachosC/filesys/openfile.cc:165-175 | The first and the last sector are read in exactly when the write changes them only in part |
| FileSystem.OpenFile.FillBuffer | cs4411/nachosC/filesys/openfile.cc:165-178 | The buffer holds the file's sectors as they will be after the write |
| FileSystem.OpenFile.Seek | cs4411/nachosC/filesys/openfile.cc:56-59 | Sets the position |
| FileSystem.OpenFile.Read | cs4411/nachosC/filesys/openfile.cc:75-80 | Reads at the position and moves it on by the count |
| FileSystem.OpenFile.Write | cs4411/nachosC/filesys/openfile.cc:83-88 | Writes at the position and moves it on by the count |
| FileSystem.Directory.constructor | cs4411/nachosC/filesys/directory.cc:38-44 | No entry is in use |
| FileSystem.Directory.FindIndex | cs4411/nachosC/filesys/directory.cc:91-97 | The first entry in use with the same first nine characters, or -1 |
| FileSystem.Directory.Find | cs4411/nachosC/filesys/directory.cc:109-116 | Its header sector, or -1 |
| FileSystem.Directory.Add | cs4411/nachosC/filesys/directory.cc:130-143 | Fails without change exactly when the name is there or no entry is free; else the first free entry names the file |
| FileSystem.Directory.Remove | cs4411/nachosC/filesys/directory.cc:154-162 | Fails without change exactly when the name is not there; else that entry is out of use and all else stays |
| FileSystem.Directory.FetchFrom | cs4411/nachosC/filesys/directory.cc:64-67 | The table is the one in the file |
| FileSystem.Directory.WriteBack | cs4411/nachosC/filesys/directory.cc:77-80 | The file holds the table |
| FileSystem.FileSystem.constructor | cs4411/nachosC/filesys/filesys.cc:137-142 | On a disk in the invariant the two open files are the meta files |
| FileSystem.FileSystem.Format | cs4411/nachosC/filesys/filesys.cc:83-136 | Any disk becomes a formatted one |
| FileSystem.FileSystem.Create | cs4411/nachosC/filesys/filesys.cc:175-215 | One Create step of the disk; a false result leaves every sector as it was |
| FileSystem.FileSystem.Open | cs4411/nachosC/filesys/filesys.cc:228-241 | A handle on exactly the file of that name at position 0, or null exactly when there is none |
| FileSystem.FileSystem.Remove | cs4411/nachosC/filesys/filesys.cc:258-288 | One Remove step of the disk; a false result leaves every sector as it was |
| FileSystem.FileSystem.StaysValid | cs4411/nachosC/filesys/filesys.cc:175-288 | Whatever operation took the disk from one state to the next, the two meta files left open are still those that the disk names |
| FileSystem.FileSystem.Settle | cs4411/nachosC/filesys/filesys.cc:188-201 | All that Create decides in memory, in the source's order of checks |
| FileSystem.FileSystem.Release | cs4411/nachosC/filesys/filesys.cc:278-279 | The file's data sectors and its header sector become free |
| SantaProofs.RunKeeps | cs3331/prog4/thread.cpp:43-155 | The protocol invariant holds after every schedule, for any number of elves and any r >= 1 reindeer |
| SantaProofs.ReachableInv | cs3331/prog4/thread-main.cpp:60-77 | The initial semaphores and counters satisfy the invariant, so every reachable state does |
| SantaProofs.WakeUpsConserved | cs3331/prog4/thread.cpp:115-150 | Sleeping tokens plus a Santa who has woken but not chosen are always exactly the full batches waiting, at most two |
| SantaProofs.AnswersExactlyThree | cs3331/prog4/thread.cpp:141-150 | When Santa turns to the elves exactly three wait with a question, and waiting_elves names these three and no others |
| SantaProofs.AtMostThreeElves | cs3331/prog4/thread-support.cpp:49-80 | Elf_Count never exceeds 3, and nobody joins a batch that is full |
| SantaProofs.DeliveryComplete | cs3331/prog4/thread.cpp:122-140 | The sleigh leaves only when all r reindeer are hitched and none has been let go; Reindeer_Count is reset only when all are back on vacation |
| SantaProofs.HitchedOncePerDelivery | cs3331/prog4/thread-support.cpp:132-145 | Over every run each reindeer hitches exactly once in each delivery, before the sleigh leaves |
| SantaProofs.RetiresAfterOneMore | cs3331/prog4/thread.cpp:118-131 | Asked for max deliveries Santa makes exactly max + 1 before he retires |
| SantaProofs.NeverStuck | cs3331/prog4/thread.cpp:86-155 | Until Santa retires no reachable state is stuck; when he is blocked some reindeer can step, whatever the elves do |
| SantaProgress.Retires | cs3331/prog4/thread.cpp:86-155 | From every reachable state Santa and the reindeer alone can carry on until he retires, after max + 1 deliveries |
| SantaProgress.NoDetours | cs3331/prog4/thread.cpp:86-155 | Every step of Santa or of a reindeer lowers a lexicographic distance to the end, so whatever order they act in they get there |
| SantaElves.ElvesWaitForOthers | cs3331/prog4/thread-support.cpp:49-80 | In a reachable state in which no elf can move, Santa is answering, or three elves wait for an answer and have woken him, or there are fewer than three elves and all wait |
| SantaElves.BatchGoesHome | cs3331/prog4/thread.cpp:43-53 | Once Santa has turned to the elves, he and they alone can carry on until all three are answered and home, no token is left over, and three may ask again |
| SantaElves.ElvesAsk | cs3331/prog4/thread-support.cpp:49-80 | With three elves or more, from every reachable state they, and Santa if he is answering, can carry on until a full batch waits and has woken him |
| SantaTurns.AnsweredIff | cs3331/prog4/thread.cpp:115-150 | A full batch that has called Santa can still be answered if and only if a delivery is left beyond the present one, or the last is not yet bound to come before he looks for elves: not when it is decided, nor when all reindeer are counted or the last of them is in the critical section and about to be |
| SantaProofs.SantaKeeps | cs3331/prog4/thread.cpp:115-155 | Every step of Santa keeps the invariant |
| SantaProofs.DeerKeeps | cs3331/prog4/thread.cpp:86-99 | Every step of a reindeer keeps the invariant |
| SantaProofs.ElfKeeps | cs3331/prog4/thread.cpp:43-53 | Every step of an elf keeps the invariant |
| SystolicProofs.PartialSums | cs3331/prog6/thread.cpp:250-297 | Under every schedule, after k pairs processor (i, j) holds the sum over m < k of B[i][m] * A[m][j] |
| SystolicProofs.OutputIsProduct | cs3331/prog6/thread.cpp:274-286 | A processor has written its output exactly when it is done, and what it wrote is its entry of B times A |
| SystolicProofs.NeverStuck | cs3331/prog6/thread.cpp:179-297 | Without a -1 among the entries, the rendezvous network cannot deadlock before all threads have finished |
| SystolicProofs.Completes | cs3331/prog6/thread.cpp:179-297 | Without a -1, every run can be carried on until all threads have finished |
| SystolicProofs.RunsAreShort | cs3331/prog6/thread.cpp:179-297 | No run has more than n * n * (5q + 5) steps, whatever the entries |
| SystolicProofs.FinishedMeansNoMarker | cs3331/prog6/thread.cpp:179-228 | If all threads finish, no entry was -1 |
| SystolicProofs.FinishesIffNoMarker | cs3331/prog6/thread.cpp:179-297 | The program can run to its end if and only if no entry is -1 |
| SystolicProofs.EndsWithProduct | cs3331/prog6/thread-main.cpp:119-182 | A run that cannot be carried on has written all of B times A |
| SystolicProofs.OtherProductIff | cs3331/prog6/thread.cpp:250-297 | For square matrices a finished run has written A times B if and only if the two products are equal |
| SystolicProofs.NotTheOtherProduct | cs3331/prog6/thread.cpp:250-297 | A finished run of the program on two matrices of which it has not written A times B |
| SystolicProofs.NextInv | cs3331/prog6/thread-main.cpp:119-182 | Every step keeps the counts of what passed each channel and what each processor holds in agreement with its neighbours |
| Mips.Mult | cs4411/nachosC/machine/mipssim.cc:635-692 | For all 32-bit a and b: hi and lo together are the exact signed product, or the exact product of the unsigned readings |
| Mips.Magnitude | cs4411/nachosC/machine/mipssim.cc:659-678 | The shift-and-add loop gives the exact 64-bit product of the unsigned readings, early exit and arithmetic shift included |
| Mips.AddWide | cs4411/nachosC/machine/mipssim.cc:665-668 | Two-word addition: the carry test is exact |
| Mips.DoubleWide | cs4411/nachosC/machine/mipssim.cc:672-676 | Two-word doubling |
| Mips.WithSign | cs4411/nachosC/machine/mipssim.cc:682-688 | Two-word negation |
| Mips.Positive | cs4411/nachosC/machine/mipssim.cc:645-655 | Magnitudes and sign of the result, the most negative number included |
| Lists.InsertSorted | cs4411/nachosC/threads/list.cc:180-203 | Inserting keeps the keys sorted |
| Lists.InsertStable | cs4411/nachosC/threads/list.cc:180-203 | Inserting is stable: for every key the items stand in the order of insertion |
| Lists.List.constructor | cs4411/nachosC/threads/list.cc:44-47 | The empty list |
| Lists.List.Append | cs4411/nachosC/threads/list.cc:78-89 | The new element is last; last stays the final node, no cycle |
| Lists.List.Prepend | cs4411/nachosC/threads/list.cc:104-115 | The new element is first |
| Lists.List.IsEmpty | cs4411/nachosC/threads/list.cc:156-162 | True exactly for the empty list |
| Lists.List.SortedInsert | cs4411/nachosC/threads/list.cc:180-203 | The new element goes behind every element whose key is not larger, for every list, sorted or not |
| Lists.List.SortedRemove | cs4411/nachosC/threads/list.cc:220-239 | Takes the first element off; none exactly when the list is empty |
| Scheduling.Scheduler.ReadyToRun | cs4411/nachosC/threads/scheduler.cc:55-61 | The thread is ready and stands in the ready list at its priority's place |
| Scheduling.Scheduler.FindNextToRun | cs4411/nachosC/threads/scheduler.cc:72-81 | Takes the first thread of the ready list, or none |
| Scheduling.DispatchesFirstOfSmallest | cs4411/nachosC/threads/scheduler.cc:55-81 | In every run the thread dispatched has the smallest stored priority key of all that wait, and among equals became ready first |
| Scheduling.DispatchesBest | cs4411/nachosC/threads/scheduler.cc:55-81 | After any run a dispatch takes, of the threads that became ready and were not dispatched, one whose priority number when it became ready is smallest, and of those the first; none is taken only if there is none |
| Scheduling.DispatchTakesOne | cs4411/nachosC/threads/scheduler.cc:55-81 | Over every run the threads dispatched and those that wait are all that became ready, each exactly once: nobody is lost or dispatched twice |
| Interrupts.FiredOnTime | cs4411/nachosC/machine/interrupt.cc:291-336 | Over every run interrupts fire in nondecreasing time, never before their time and at most one system tick after it, given that handlers schedule only into the future |
| Interrupts.FiredOnce | cs4411/nachosC/machine/interrupt.cc:265-336 | Each interrupt scheduled is pending or has fired, never both and never twice; and totalTicks = idleTicks + systemTicks + userTicks always |
| Interrupts.TickLeavesNothingDue | cs4411/nachosC/machine/interrupt.cc:151-179 | OneTick leaves nothing due unfired |
| Interrupts.FiringUsesUp | cs4411/nachosC/machine/interrupt.cc:169-170 | Each firing leaves fewer interrupts that are due: the loop in OneTick ends |
| Interrupts.CheckKeepsSorted | cs4411/nachosC/machine/interrupt.cc:291-336 | CheckIfDue keeps the pending list sorted and the level |
| InterruptOrder.FiredInOrder | cs4411/nachosC/machine/interrupt.cc:265-336 | Over every run interrupts fire in the order of the times they are for, and nothing pending is for an earlier time than what has fired |
| InterruptOrder.SameTimeOrder | cs4411/nachosC/machine/interrupt.cc:291-336 | g interrupts for the same time that are looked at too early by k ticks fire in their order turned k times; being different, they fire in list order if and only if k is a multiple of g |
| InterruptOrder.EarlyLookIff | cs4411/nachosC/machine/interrupt.cc:300-312 | A look before the time leaves the list as it was if and only if all that have the first time are the same, in particular when there is one |
| InterruptOrder.EarlyTicks | cs4411/nachosC/machine/interrupt.cc:151-179 | k ticks before its time turn the first group k times, fire nothing, and leave the rest of the list alone |
| InterruptOrder.DueFires | cs4411/nachosC/machine/interrupt.cc:169-170 | All that is due fires in the order of the list, before anything its handlers ask for |
| InterruptOrder.SameTimeSwaps | cs4411/nachosC/machine/interrupt.cc:300-312 | A run from the start in which the second of two requests for the same time fires first, whatever the handlers do |
| InterruptLog.ScheduledIsAsked | cs4411/nachosC/machine/interrupt.cc:265-336 | After any run exactly these have been scheduled, in this order: what the events asked for, and, as each interrupt fired, what its handler asked for, each for the time of asking plus the time it gave, with its handler, argument and kind |
| InterruptLog.EventDoes | cs4411/nachosC/machine/interrupt.cc:115-234 | In every run: a tick moves the clock by 10 in system mode and by 1 in user mode, in that mode's part, turns interrupts on, and ends in a switch of contexts if and only if a handler that fired in it asked for one; idling halts if and only if nothing or a lone timer is pending, and else moves the idle clock to the first interrupt, which fires; any other event leaves the clock |
| InterruptSim.Interrupt.Schedule | cs4411/nachosC/machine/interrupt.cc:265-275 | The linked list gets the new interrupt at its place, and the state is that of the model's Schedule |
| InterruptSim.Interrupt.Handle | cs4411/nachosC/machine/interrupt.cc:327-335 | Running the handler with everything it asks for is the model's Handle, of which `InterruptLog.ScheduledIsAsked` says that each request is scheduled; mode and flags are restored |
| InterruptSim.Interrupt.CheckIfDue | cs4411/nachosC/machine/interrupt.cc:291-336 | Refines the model on the linked list: nothing pending, put back, advance the clock, or fire the handler with interrupts off |
| InterruptSim.Interrupt.FireDue | cs4411/nachosC/machine/interrupt.cc:169-170 | The loop is the model's, and it ends |
| InterruptSim.Interrupt.OneTick | cs4411/nachosC/machine/interrupt.cc:151-179 | Refines the model's tick: the clock of the present mode, then everything due |
| InterruptSim.Interrupt.Switched | cs4411/nachosC/machine/interrupt.cc:172-178 | At the end of a tick the current thread yields exactly when a handler asked for it, and the flag is cleared |
| InterruptSim.Interrupt.SetLevel | cs4411/nachosC/machine/interrupt.cc:115-127 | Returns the old level; enabling interrupts takes a tick |
| InterruptSim.Interrupt.Idle | cs4411/nachosC/machine/interrupt.cc:211-234 | Fires the next interrupt with the clock advanced to it, or halts when nothing but a timer is left |
| InterruptSim.Interrupt.GoOn | cs4411/nachosC/machine/interrupt.cc:216-222 | What else is due fires, a yield asked for is dropped, and the machine goes on in system mode |
| Semaphores.Accounted | cs4411/nachosC/threads/synch.cc:65-99 | Over every run value = initial + completed V - completed P, so never negative |
| Semaphores.NoLostWakeUp | cs4411/nachosC/threads/synch.cc:65-99 | While a thread sleeps the value is at most the number of woken threads yet to run; if it is positive one of these is there and its look succeeds |
| Semaphores.WokenInOrder | cs4411/nachosC/threads/synch.cc:65-99 | Over every run sleepers are woken in the order in which they went to sleep, one by each V as long as one sleeps |
| Semaphores.MutualExclusion | cs4411/nachosC/threads/synch.cc:104-131 | At most one thread is between P in Acquire and V in Release, even if others call Release without owning the lock |
| Semaphores.FreeWhenEmpty | cs4411/nachosC/threads/synch.cc:104-131 | With nobody inside the lock has value 1 and no owner, and a sleeping thread then has a woken one before it |
| Semaphores.CanBeReleased | cs4411/nachosC/threads/synch.cc:114-131 | From every state of every run the thread inside can, alone, go on until nobody is inside, the lock has no owner and value 1, and then any thread that is awake gets in when it looks |
| Semaphores.EveryoneCanGetIn | cs4411/nachosC/threads/synch.cc:114-131 | From every state of every run, whoever is inside and whoever sleeps, the run can go on so that a given thread gets in |
| Semaphores.Semaphore.Attempt | cs4411/nachosC/threads/synch.cc:65-78 | One turn of P's loop: sleep at the end of the queue while the value is 0, else take one |
| Semaphores.Semaphore.V | cs4411/nachosC/threads/synch.cc:89-99 | The value grows by one and the first sleeper, if any, is made ready |
| PortProgress.NothingLost | cs4411/nachosC/threads/synch.cc:191-227 | For any number of senders and receivers the k-th message taken is the k-th placed; each message is placed once and goes to one receiver; at most one is in flight; a full buffer has a receiver to come for it |
| PortOrder.SendersInOrder | cs4411/nachosC/threads/synch.cc:149-165 | As long as a sender waits on the condition without a signal, so does every sender that began to wait after it |
| PortOrder.ReceiversInOrder | cs4411/nachosC/threads/synch.cc:149-165 | The same for receivers |
| PortProgress.WedgesIff | cs4411/nachosC/threads/synch.cc:191-227 | A port can come to a state where no thread can step while a sender and a receiver sleep if and only if there are at least two senders and two receivers |
| PortProgress.JoinReturnsStatus | cs4411/nachosC/threads/thread.cc:185-235 | One sender and one receiver, as in Join: never stuck, and when both are through the parent has the child's status |
| PortProgress.ThenWedges | cs4411/nachosC/threads/synch.cc:209-227 | For any such numbers, a run after which one message has been passed and every other thread sleeps: a receive signals no waiting sender |
| PortProgress.ReachableInv | cs4411/nachosC/threads/synch.cc:146-227 | Every reachable state of a port satisfies its invariant |
| PortProofs.SStepKeeps | cs4411/nachosC/threads/synch.cc:191-207 | Every step of a sender keeps the invariant |
| PortProofs.RStepKeeps | cs4411/nachosC/threads/synch.cc:209-227 | Every step of a receiver keeps the invariant |
| DnsNames.SetDomain | cs4461/prog5/dnsquery.c:201-221 | Writes exactly the encoded labels of the host and the end mark, and nothing behind them |
| DnsNames.PutLabels | cs4461/prog5/dnsquery.c:208-219 | The loop: every label with its length in front |
| DnsNames.PutLabel | cs4461/prog5/dnsquery.c:212-216 | One label with its length in front |
| DnsNames.ReadName | cs4461/prog5/dnsquery.c:143-197 | Whatever the pointers, if each points before the run of labels it ends: terminates, gives the text of the name denoted, and count is the number of bytes the name takes where it stands |
| DnsNames.ReadRaw | cs4461/prog5/dnsquery.c:155-182 | The first loop copies the labels across pointers and counts up to the first pointer or the end mark |
| DnsNames.LengthsToDots | cs4461/prog5/dnsquery.c:185-194 | The second loop turns every length into a dot behind its label |
| DnsNames.TurnLabel | cs4461/prog5/dnsquery.c:187-193 | One round of that loop: the text done grows by the label and its dot |
| DnsNames.ToDots | cs4461/prog5/dnsquery.c:185-195 | And the last dot becomes the end |
| DnsNames.ShiftLabel | cs4461/prog5/dnsquery.c:187-193 | One label moves one place down, over its length, with a dot behind it |
| DnsNames.RoundTrip | cs4461/prog5/dnsquery.c:143-221 | A host of nonempty labels, written by set_domain anywhere in a message, is what read_name reads there, with count the encoded length |
| DnsNames.RoundTripIff | cs4461/prog5/dnsquery.c:143-221 | For a host of letters that are no length or pointer to read_name, the round trip works if and only if no label is empty |
| DnsNames.WireForm | cs4461/prog5/dnsquery.c:201-221 | The bytes of a host on the wire: two more than its characters, the last 0; where a label begins its length, up to the next dot or the end, and behind each length byte the characters |
| DnsNames.EncodedDenotes | cs4461/prog5/dnsquery.c:201-221 | What set_domain writes denotes the labels it was given |
| DnsNames.EmptyLabelEnds | cs4461/prog5/dnsquery.c:155-182 | The first empty label ends the name, and what is behind it is lost |
| DnsNames.PointerDenotes | cs4461/prog5/dnsquery.c:155-182 | Labels followed by the two bytes 192 + t / 256 and t mod 256, for an earlier offset t, denote these labels in front of the name at t, and take their own bytes and two more |
| DnsNames.CompressedRoundTrip | cs4461/prog5/dnsquery.c:143-221 | Labels and a pointer, given by its two bytes, to a host that set_domain wrote earlier in the message read back as the text of the labels, a dot and that host |
| DnsNames.HostJoined | cs4461/prog5/dnsquery.c:185-195 | The text of two runs of labels is their texts with a dot between them |
| DnsNames.HostOfLabels | cs4461/prog5/dnsquery.c:205-206 | Splitting a host at its dots loses nothing |
| BitFields.Pack | cs3411/prog1/pack.c:35-94 | The words are the fields' binary forms concatenated and zero-padded, in ceil(total bits / 32) words |
| BitFields.PackFields | cs3411/prog1/pack.c:53-87 | The main loop: what is in the words so far is the fields so far |
| BitFields.PackField | cs3411/prog1/pack.c:53-87 | One round: the bits written grow by the field's, wherever the word boundary falls |
| BitFields.FirstField | cs3411/prog1/pack.c:56-58 | The first field needs no shift |
| BitFields.AddField | cs3411/prog1/pack.c:60-62 | A field that fits is appended to the word's bits, modulo 2^32 |
| BitFields.FirstShare | cs3411/prog1/pack.c:66-79 | The high bits of a field that straddles complete its word |
| BitFields.SecondShare | cs3411/prog1/pack.c:75-82 | Its low bits begin the next word, whatever the signed shifts leave in front of them |
| BitFields.FillUp | cs3411/prog1/pack.c:89-91 | The last shift puts zeros behind the bits in use |
| BitFields.Unpack | cs3411/prog1/unpack.c:33-80 | Every field is read from its place in the bits of the words: its number, or with the first bit as a sign when it straddles; each open shift may leave a value of its own |
| BitFields.UnpackField | cs3411/prog1/unpack.c:44-77 | One round, for any position of the word boundary |
| BitFields.ReadWithin | cs3411/prog1/unpack.c:71-74 | The three shifts cut the field out of its word |
| BitFields.ReadAcross | cs3411/prog1/unpack.c:53-66 | A straddling field is read as two's complement; with no bit in the earlier word the result hangs on a shift by 32 |
| BitFields.FieldComesBackIff | cs3411/prog1/unpack.c:44-77 | Whatever the machine does with a shift by 32, a packed field comes back if and only if it lies in one word, or has a bit in the earlier word and a zero leading bit |
| BitFields.AllComeBack | cs3411/prog1/unpack.c:33-80 | If that holds of every field, unpack gives back all values |
| BitFields.UnpackUndoesPackIff | cs3411/prog1/unpack.c:33-80 | Whatever the machine does with the open shifts, unpack gives back all values if and only if that condition holds of every field |
| BitFields.SignExtended | cs3411/prog1/unpack.c:59-60 | Shifting up and back down is sign extension |
| Heapsort.HeapSort | cs3331/prog1/prog1.c:318-333 | For every size the first size elements end sorted and are a permutation of the input; the others are untouched |
| Heapsort.HeapDown | cs3331/prog1/prog1.c:345-366 | If all is a heap but for start, it is a heap from start on afterwards, with the same elements; the loop ends |
| Heapsort.BuildHeap | cs3331/prog1/prog1.c:320-324 | The first loop makes a heap |
| Heapsort.SortOne | cs3331/prog1/prog1.c:326-331 | One round of the second loop: the greatest goes to its place and the rest is a heap again |
| Heapsort.TopIsGreatest | cs3331/prog1/prog1.c:345-366 | The first element of a heap is its greatest |
| Heapsort.SinkOne | cs3331/prog1/prog1.c:357-360 | One swap moves the only misplaced parent one level down |

## Left out

Paging

- The kernel's own writes to user memory (`userprog/exception.cc:445`) translate without the write flag and so do not set the dirty bit; the theorems are about loads and stores of user programs, and `copyArguments`, which writes through that path, is not modelled.
- The software TLB variant of translation; the machine is the one with a page table.
- Swap file and executable are byte strings of fixed length whose reads and writes never fail or block; a fault is one step.
- Executables are well-formed headers with segments placed by the header; negative or overflowing header fields and address spaces of 2 GiB and more are not modelled.
- Processes that share an executable see the same bytes; writing to an open executable is not modelled.

File system

- FileSystem.FileSystem.Create: requires 0 <= initialSize <= MaxFileSize, which the source does not check.
- FileSystem.OpenFile.WriteAt: speaks of handles whose header the disk still holds, so writes through a handle after Remove are not modelled; positions are not negative, and position + numBytes does not overflow.
- FileSystem.BitMap.NumClear: the count is unbounded; the number of bits always fits an int.
- FileSystem.FileHeader.FetchFrom: says nothing of sectors whose second word is no sector count, which no header in the invariant has.
- The waiting of SynchDisk for the disk interrupt, and its lock: a sector is read or written in one step.
- FsLayout.HeaderLayout: the source stores its structures as they lie in memory; the layout is that of a little-endian host with ints of four bytes, like the simulated machine.
- Listing and printing of directories and bitmaps.

Concurrent programs

- Printing with its lock, and random delays; the wiring of threads and channels by pointers is the shape of the model's state.
- Integer overflow in the systolic sums; the grid is n by n, with inner length at least n.
- SantaProgress.Retires: that the elves are served in the meantime is not claimed; a schedule may leave them out, and `SantaTurns.AnsweredIff` says when none can serve them.

Run-time core

- InterruptSim.Interrupt.Handle: handlers are a function that says what they schedule; what else they do is not modelled.
- InterruptSim.Interrupt.OneTick: that a switch of contexts comes at its end is recorded, not what runs meanwhile; the 64-bit overflow of the clock is not modelled.
- Context switching, stacks, and the thread states Finish and Yield pass through; a thread is a number or a program counter.
- Priority donation in Lock, and Condition.Broadcast.
- PortProgress.NothingLost: the lock of the port is a mutex, and Wait queues the thread and releases the lock in one step.
- Integer-width limits of semaphore values.

Small algorithms

- DnsNames.SetDomain: the host has at most 30 characters, because the source copies it and a dot into 32 bytes; longer hosts overrun that buffer.
- DnsNames.ReadName: requires raw names of fewer than 256 bytes, the source's buffer, and a name with at least one label: for the root name the source writes in front of its buffer. Pointers that do not go backwards, for which the source may never end, and label bytes of 192 and more, which it takes for pointers, are not modelled.
- BitFields.Pack: requires at least one field, as the driver does, and words enough for one word per field; the source reserves floor(total / 32) words, at least one, and clears one word per field.
- BitFields.Unpack: the value of a word after shifts by 32, which C leaves undefined, is a parameter, one for each field; shifts of signed ints into or out of the sign bit wrap as two's complement.
- The other instructions of the MIPS simulator, the other exercises of the courses, and all plumbing to the host (network, console, host files, command lines).
