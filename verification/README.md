# A verified model of the Pintos kernel's core data structures

Pintos is a small teaching kernel for 32-bit x86. This project models, in Dafny, the parts of it
that hold its hardest invariants, and proves them. There are two trees in the repository: `pintos`
(threads, libraries, file system) and `pintos2` (user programs); where both have a file it is the
same in what is modelled here.

| files | what they model |
|---|---|
| `Arithmetic.dfy` | 64-bit division built from the 64-by-32-bit divide instruction |
| `Sort.dfy` | the generic heapsort and binary search, on arrays of bytes |
| `Bytes.dfy`, `Bitmap.dfy` | bytes, words and the kernel's bitmap |
| `Inode.dfy`, `Layout.dfy`, `Directory.dfy`, `FileSystem.dfy` | the storage stack: byte-granular I/O on extents, extents on the disk, directories, and files with reference-counted inodes and deferred deletion |
| `Palloc.dfy`, `Malloc.dfy` | the page allocator and the kernel heap |
| `Pte.dfy`, `PageTable.dfy`, `Mmu.dfy`, `Loader.dfy` | x86 page tables with a TLB, directory creation, copying and destruction, and the ELF segment loader |
| `Threads.dfy`, `Synch.dfy`, `Calls.dfy` | the round-robin scheduler, semaphores, locks and condition variables, and what their operations do for the callers |
| `Stdio.dfy`, `Reading.dfy`, `Ustar.dfy` | formatted output, what it says to a reader, and the ustar archive header |

`dafny verify dfyconfig.toml` checks everything.

## How it is built

State that the C code changes in place is the state of a class, and each method is proved against
functions of the old state; the invariants behind them are predicates on plain values (sequences,
maps and sets), so that each step of an operation is one small lemma about values. Three of them
carry most of the weight:

* `FileSystem.FileSystem.Inv`: the live inodes (the two system inodes, the named and the open ones) have
  sound headers and pairwise disjoint extents that are all marked used; the free map on disk is the one
  in memory; the root directory is a map from names to distinct inodes; references are counted
  right. Every operation keeps it, so it holds over every run from `Format` or `Mount`. What users see is
  `Tree` (names and contents) and `Handles` (open files and contents), and the contracts are
  written in these terms.
* `Malloc.Core`: every block of an arena is live or on its size class's free list, once, and
  each arena counts its free blocks; with `PagesOk` and `NoneEmpty`, arenas own disjoint pages in use, and none is
  kept without a live block.
* `PageTable.TablesOk` gives every directory, table and mapped frame a single owner. With `TlbOk` and `Marks` it is
  what makes the TLB invisible (`Mmu.Mmu.Access`) and the dirty flag exact.

`Synch` is a machine whose steps are the sections that run with interrupts off and the plain
assignments between them; any thread may be preempted between two steps, and interrupt handlers may call
`sema_up` and `sema_try_down` at any point. `Synch.RunInv` carries its invariant over every
run, and the laws after it are stated of every reachable state. `Calls` says of the same runs what each
operation has done by the time it returns to its caller.

Memory that may run out is a flag of the operations of the file system: with it set, no
allocation fails, and then success is determined; without it any allocation may fail.

Findings, each with a lemma that says exactly when the code does what it promises:

* `malloc` answers requests above 2^32-12 bytes with a single page, because adding the header wraps around
  (`BigPagesHold`, `HugeRequest`, and the equivalence in the contract of `Malloc`). `realloc` then copies past the
  end of it if the old block holds more than 4084 bytes (`MallocFor`, with the run `ReallocOverruns`).
* `filesys_create` that fails in `dir_add` leaves the new file's data sectors marked used (contract of `Create`,
  with the run `CreateTwice`).
* `umod64` and `smod64` return 32 bits (`UmodExactIff`, `SmodExactIff`).
* `invalidate_pagedir` does nothing for an inactive directory; when a dirty or accessed flag of one of the kernel's
  shared entries is cleared that way, the TLB may keep a translation that lets later writes or accesses
  go unseen (contracts of `MarkDirty` and `MarkAccessed`, `CleanKernelPage`, `UntouchKernelPage`, with the runs
  `MissedWrite` and `MissedAccess`).
* `pagedir_duplicate` ignores that `pagedir_set_page` failed and does not check the page it copies to: with too few
  free pages it returns an incomplete copy or panics instead of returning null (contract of `Duplicate`, with the run
  `LosesCopy`).
* A negative field width argument together with the flag 0, without the flag - and without a precision that is
  not negative, pads twice (`BothFlags`, `FormattedLaw`, `PaddedTwice`).
* `pagedir_destroy` of the active directory leaves the CPU with a freed one, and `pagedir_set_page` of a mapped frame
  gives it two owners (contracts of `Destroy` and `SetPage`).
* A negative offset makes `inode_read_at` and `inode_write_at` start outside the file (`FirstAccess`).
* `ustar_make_header` accepts a negative size, which its parser refuses (`RoundTrip`).

## Model

| member | source | states |
|---|---|---|
| Arithmetic.Nlz | pintos/src/lib/arithmetic.c:39-73 | the returned count is the only one for which shifting the nonzero word left by it brings its top bit to the front |
| Arithmetic.NlzUnique | pintos/src/lib/arithmetic.c:39-73 | no two shift counts normalise the same word |
| Arithmetic.ShortDivisor | pintos/src/lib/arithmetic.c:80-112 | for a 32-bit divisor the divide instruction does not trap, and its quotient plus the high part is floor(n/d) |
| Arithmetic.NoTrap | pintos/src/lib/arithmetic.c:121-123 | for a longer divisor the dividend is half of n and the divisor normalised, so the quotient fits 32 bits |
| Arithmetic.EstimateBound | pintos/src/lib/arithmetic.c:115-124 | the estimated quotient is floor(n/d) or one more |
| Arithmetic.LongEstimate | pintos/src/lib/arithmetic.c:119-125 | the shifted quotient of the divide instruction is at least 1 and at most one above floor(n/d), so (q-1)*d is at most n and nothing wraps |
| Arithmetic.ShortUdiv | pintos/src/lib/arithmetic.c:80-112 | floor(n/d) when the divisor has 32 bits |
| Arithmetic.LongUdiv | pintos/src/lib/arithmetic.c:113-126 | floor(n/d) when the divisor is longer |
| Arithmetic.Udiv64 | pintos/src/lib/arithmetic.c:75-127 | floor(n/d) for every n and every nonzero d below 2^64 |
| Arithmetic.Umod64 | pintos/src/lib/arithmetic.c:129-135 | the remainder modulo 2^32 |
| Arithmetic.UmodExactIff | pintos/src/lib/arithmetic.c:129-135 | the 32-bit result is the remainder for all n exactly when d is at most 2^32 |
| Arithmetic.TruncLaw | pintos/src/lib/arithmetic.c:137-154 | quotient and remainder rounded toward zero satisfy n = q*d + m with abs(m) < abs(d), m of the sign of n |
| Arithmetic.Sdiv64 | pintos/src/lib/arithmetic.c:137-146 | the quotient rounded toward zero, except that INT64_MIN / -1 gives INT64_MIN |
| Arithmetic.WhereItOverflows | pintos/src/lib/arithmetic.c:145 | the pair whose quotient the source negates out of range is INT64_MIN / 1, the one whose quotient is out of range INT64_MIN / -1 |
| Arithmetic.Smod64 | pintos/src/lib/arithmetic.c:148-154 | the remainder, truncated to a signed 32-bit word |
| Arithmetic.SmodExactIff | pintos/src/lib/arithmetic.c:148-154 | that word is the remainder for all n exactly when abs(d) is at most 2^31 |
| Sort.DoSwap | pintos/src/lib/stdlib.c:64-79 | on the elements the byte loop is an exchange of two of them; no other byte changes |
| Sort.SwapIsElementwise | pintos/src/lib/stdlib.c:64-79 | bytes exchanged position by position exchange the elements they belong to |
| Sort.Heapify | pintos/src/lib/stdlib.c:93-123 | restores the heap from index i on when only i was out of place; permutes only the first cnt elements and leaves those before i alone |
| Sort.MoveHole | pintos/src/lib/stdlib.c:117-122 | swapping a node with its largest child leaves at most that child out of place |
| Sort.RootIsLargest | pintos/src/lib/stdlib.c:125-152 | no element of a heap exceeds its root |
| Sort.Sort | pintos/src/lib/stdlib.c:125-152 | for every total preorder the array ends ordered and is a permutation of what it was |
| Sort.LargestLast | pintos/src/lib/stdlib.c:146-151 | moving the root behind the heap extends the ordered tail and disturbs only the root |
| Sort.BinarySearch | pintos/src/lib/stdlib.c:184-207 | in an ordered array an element equal to the key is found if and only if there is one, and the result is its byte offset |
| Bitmap.Bitmap.SetMultiple | pintos/src/lib/kernel/bitmap.c:216-228 | exactly the given run of bits is set |
| Bitmap.Bitmap.Scan | pintos/src/lib/kernel/bitmap.c:291-310 | the first run of cnt equal bits at or after start, or none if there is none |
| Bitmap.Bitmap.ScanAndFlip | pintos/src/lib/kernel/bitmap.c:312-326 | that run is flipped; without one nothing changes |
| Bitmap.UnpackPack | pintos/src/lib/kernel/bitmap.c:332-364 | what is written to a file reads back as the same bits |
| Bitmap.WholeWords | pintos/src/lib/kernel/bitmap.c:332-337 | the file has whole words, and no more than needed |
| Bytes.WordRoundTrip | pintos/src/filesys/inode.c:15-21 | a 32-bit word stored little-endian reads back |
| Bytes.LittleEndian | pintos/src/filesys/inode.c:15-21 | the order of the bytes |
| Inode.Inode.ReadAt | pintos/src/filesys/inode.c:197-250 | returns exactly the bytes of the requested range that lie in the file |
| Inode.Inode.WriteAt | pintos/src/filesys/inode.c:252-318 | writes exactly those bytes, or none while writes are denied; every other byte of the disk is kept |
| Inode.FirstAccess | pintos/src/filesys/inode.c:207-218 | the first access of a transfer is inside a sector of the file exactly when the offset is not negative |
| Inode.SpliceIsUpdate | pintos/src/filesys/inode.c:46-54 | on the extent as a flat byte array the write is an update of exactly the written range |
| Inode.SpliceOutside | pintos/src/filesys/inode.c:252-318 | sectors outside the written part of the extent keep all their bytes |
| Inode.RangeMore | pintos/src/filesys/inode.c:207-246 | a chunk inside one sector continues the range that has been read |
| Inode.ClipIsMost | pintos/src/filesys/inode.c:213-222 | an access touches the most bytes, no more than asked for, that lie in the file |
| Inode.SectorsNeeded | pintos/src/filesys/inode.c:23-29 | a file has just as many sectors as its bytes need |
| Inode.Inode.DenyWrite | pintos/src/filesys/inode.c:320-327 | one more denial, never more than openers |
| Inode.Inode.AllowWrite | pintos/src/filesys/inode.c:329-338 | one denial less |
| Layout.HeaderRoundTrip | pintos/src/filesys/inode.c:15-21 | an on-disk inode reads back as the start and length it was written with |
| Layout.WriteInFile | pintos/src/filesys/inode.c:252-318 | a write inside a live file updates that file, keeps every other live file and inode, and keeps extents disjoint |
| Layout.LocalChange | pintos/src/filesys/inode.c:252-318 | a change of sectors that belong to one live inode or to none keeps all the others |
| Layout.NewInode | pintos/src/filesys/inode.c:72-106 | a header in a used sector of nobody and zeros in used sectors of nobody make one more live inode, disjoint from all others |
| Layout.MarkUsed | pintos/src/filesys/free-map.c:22-41 | sectors that were free belong to no live inode; marking them used keeps the extents disjoint and marked |
| Layout.MarkFree | pintos/src/filesys/free-map.c:43-50 | so does releasing sectors that belong to no live inode |
| Layout.ExtentOf | pintos/src/filesys/inode.c:160-186 | the sectors of a live inode are marked used and nobody else's |
| Directory.FillSlot | pintos/src/filesys/directory.c:171-175 | filling a free record with a new name adds exactly that name to the map of the directory |
| Directory.ClearSlot | pintos/src/filesys/directory.c:204-207 | clearing the in-use flag removes exactly that name |
| Directory.TailIgnored | pintos/src/filesys/directory.c:159-175 | a short write behind the last whole record changes no name |
| Directory.MapHas | pintos/src/filesys/directory.c:91-112 | a record in use means its name is in the map with its sector; such names have 1 to 14 bytes |
| Directory.MapLacks | pintos/src/filesys/directory.c:91-112 | a name is in the map exactly when some record holds it |
| Directory.Lookup | pintos/src/filesys/directory.c:86-112 | finds a name exactly when the map has it, and its record |
| Directory.NewRecordReads | pintos/src/filesys/directory.c:171-174 | a composed record is in use and reads back as the name and sector |
| Directory.Add | pintos/src/filesys/directory.c:135-179 | succeeds exactly when the name is valid and new and a record is free; then the first free one holds it and the map has it, else the map is unchanged; the disk changes only inside the directory file |
| Directory.Erase | pintos/src/filesys/directory.c:204-207 | removes exactly the entry that was found |
| Directory.Dir.Readdir | pintos/src/filesys/directory.c:218-236 | yields the next name in record order, or reports that none is left |
| Directory.ListAll | pintos/src/filesys/directory.c:218-236 | reading an unchanged directory to its end yields all its names in record order |
| Directory.ListsMap | pintos/src/filesys/directory.c:218-236 | such a listing has exactly the names of the map, each once |
| FileSystem.BytesToSectors | pintos/src/filesys/inode.c:23-29 | the number of sectors; for the 511 largest lengths the signed sum wraps and more sectors are asked for than a device has |
| FileSystem.FileSystem.FreeMapAllocate | pintos/src/filesys/free-map.c:22-41 | marks the first run of cnt free sectors, which belonged to no live inode, in memory and on disk; fails exactly when there is none and then changes nothing |
| FileSystem.FileSystem.FreeMapRelease | pintos/src/filesys/free-map.c:43-50 | clears the run in memory and on disk; every live inode is kept |
| FileSystem.FileSystem.WriteFreeMap | pintos/src/filesys/free-map.c:31-33 | writing the free map to its file never falls short |
| FileSystem.FileSystem.InodeCreate | pintos/src/filesys/inode.c:67-106 | on success a zeroed file in fresh sectors; on failure nothing changes; succeeds when memory and a run of sectors are available |
| FileSystem.FileSystem.OpenInode | pintos/src/filesys/inode.c:108-151 | the in-memory inode of the sector, the existing one if there is one, with one more reference |
| FileSystem.FileSystem.CloseInode | pintos/src/filesys/inode.c:160-186 | one reference less; with the last one the inode leaves memory and, only if removed, exactly its sectors are released |
| FileSystem.FileSystem.ReleaseInode | pintos/src/filesys/inode.c:176-182 | both assertions of free_map_release hold; exactly the header and data sectors become free |
| FileSystem.ReleasedExactly | pintos/src/filesys/inode.c:176-182 | exactly the sectors of the inode, all of them in use before, become free |
| FileSystem.FileSystem.Create | pintos/src/filesys/filesys.c:41-59 | exactly when it succeeds and what then is created; handles and other files unchanged; a failed one changes the free map, with memory, exactly when there was room, the name could not be added and the file has data sectors, which then stay marked used |
| FileSystem.FileSystem.CreateEntry | pintos/src/filesys/filesys.c:50-55 | inode_create and dir_add together, with what a failure of the second leaves behind |
| FileSystem.FileSystem.AddEntry | pintos/src/filesys/directory.c:135-179 | naming a new inode in the root directory keeps every live inode and the whole invariant |
| FileSystem.FileSystem.Open | pintos/src/filesys/filesys.c:61-77 | a new handle on the named file's contents; without the name none; disk and free map unchanged |
| FileSystem.FileSystem.Reopen | pintos/src/filesys/file.c:36-42 | a second handle on the same file |
| FileSystem.FileSystem.Close | pintos/src/filesys/file.c:44-54 | the handle goes; sectors are freed exactly when it was the last handle on a file without a name, and names, other handles and contents stay |
| FileSystem.FileSystem.Remove | pintos/src/filesys/filesys.c:79-91 | exactly that name goes; open handles keep their contents; the sectors are freed now exactly when the file is not open |
| FileSystem.FileSystem.EraseEntry | pintos/src/filesys/directory.c:204-211 | erasing the entry and marking the inode removed keeps the invariant |
| FileSystem.FileSystem.ReadAt | pintos/src/filesys/file.c:76-85 | the bytes of the requested range that the file has |
| FileSystem.FileSystem.Read | pintos/src/filesys/file.c:63-74 | the same from the current position, which advances by their number |
| FileSystem.FileSystem.WriteAt | pintos/src/filesys/file.c:102-114 | the bytes are replaced for every handle and name of that file and no other, unless some handle denies writes |
| FileSystem.FileSystem.Write | pintos/src/filesys/file.c:87-100 | the same at the current position, which advances |
| FileSystem.FileSystem.Seek | pintos/src/filesys/file.c:151-159 | sets the position |
| FileSystem.FileSystem.DenyWrite | pintos/src/filesys/file.c:116-127 | the handle denies writes; the inode's count goes up unless it did already |
| FileSystem.FileSystem.AllowWrite | pintos/src/filesys/file.c:129-141 | the opposite |
| FileSystem.FileSystem.Format | pintos/src/filesys/filesys.c:93-103 | a disk of enough sectors becomes a file system without files in which just the system's sectors are used |
| FileSystem.CreateTwice | pintos/src/filesys/filesys.c:45-59 | on a new disk of 16 sectors a second creation of the same file of 512 bytes fails and leaves one more sector marked used |
| FileSystem.FileSystem.Mount | pintos/src/filesys/free-map.c:52-61 | a disk left by any run is a valid file system again, with the free map it had |
| FileSystem.FileSystem.CanRemount | pintos/src/filesys/free-map.c:52-61 | after any operations the disk alone determines names, contents and free map |
| FileSystem.FileSystem.Accounting | pintos/src/filesys/inode.c:111-194 | one in-memory inode per sector; its open count is the number of handles, its deny count the number of handles that deny, hence at most that; it is marked removed exactly when nothing names it |
| FileSystem.DenierCount | pintos/src/filesys/inode.c:320-338 | the assertions of inode_deny_write and inode_allow_write hold |
| FileSystem.EmptyDirectory | pintos/src/filesys/directory.c:24-30 | a zeroed directory has no names |
| Palloc.InitPool | pintos/src/threads/palloc.c:151-170 | panics exactly when the bitmap does not fit; else the bitmap lies before the pool's pages, all of them free |
| Palloc.ShareIsMost | pintos/src/threads/palloc.c:51-56 | the user pool gets the most pages that are neither more than half nor above the limit |
| Palloc.BitmapFits | pintos/src/threads/palloc.c:156-161 | a bitmap takes no more pages than it needs, and fits any pool with a page |
| Palloc.Init | pintos/src/threads/palloc.c:43-62 | the two pools and their bitmaps divide the free memory without overlap, the user pool taking half of it but no more than its limit; panics exactly when a pool would have no page |
| Palloc.PageAllocator.GetMultiple | pintos/src/threads/palloc.c:64-101 | the first run of free pages, zeroed if asked for; null exactly for no pages or when there is no such run, and then a panic exactly with PAL_ASSERT and at least one page asked for |
| Palloc.PageAllocator.FreeMultiple | pintos/src/threads/palloc.c:116-142 | pages go back to the pool they are from; the other pool is unchanged |
| Malloc.InitDescs | pintos/src/threads/malloc.c:70-85 | size classes 16, 32, ..., 1024, with as many blocks as fit after the header |
| Malloc.BigPagesHold | pintos/src/threads/malloc.c:105-112 | the page count holds header and request exactly when the sum does not wrap; in between it is 0, at the end 1 |
| Malloc.HugeRequest | pintos/src/threads/malloc.c:105-119 | a request of 2^32-1 bytes is answered with one page |
| Malloc.TakeCore | pintos/src/threads/malloc.c:148-151 | taking the first free block keeps: every block is live or on its list, once, and arenas count their free blocks |
| Malloc.GiveCore | pintos/src/threads/malloc.c:238-242 | so does giving a block back |
| Malloc.AddArena | pintos/src/threads/malloc.c:137-146 | so does carving a new arena |
| Malloc.AddBig | pintos/src/threads/malloc.c:114-119 | so does a big block |
| Malloc.DropArena | pintos/src/threads/malloc.c:246-262 | so does returning an arena without live blocks |
| Malloc.LiveApart | pintos/src/threads/malloc.c:50-60 | two live blocks share no byte |
| Malloc.FreeApart | pintos/src/threads/malloc.c:57-61 | a live block shares no byte with a free one |
| Malloc.InArena | pintos/src/threads/malloc.c:266-294 | a live block lies in its arena after the header; the alignment assertions of block_to_arena hold |
| Malloc.Heap.Malloc | pintos/src/threads/malloc.c:87-154 | a new block of the smallest class, others' contents unchanged; big enough if and only if the request is at most 2^32-12 bytes; refused exactly when no block and no pages are free; the first block on the list is taken if there is one; memory changes only in the pages of arenas |
| Malloc.Heap.WriteMeta | pintos/src/threads/malloc.c:114-146 | storing headers and list links, whatever the bytes, changes no live block |
| Malloc.MetaApart | pintos/src/threads/malloc.c:50-60 | headers and the links of free blocks share no byte with a live block |
| Malloc.Heap.BigBlock | pintos/src/threads/malloc.c:105-120 | the same for whole pages |
| Malloc.Heap.NewArena | pintos/src/threads/malloc.c:124-146 | a fresh page becomes an arena of free blocks; fails exactly when no page is free |
| Malloc.Heap.Free | pintos/src/threads/malloc.c:216-264 | the block goes, all other blocks keep their contents; the pages go back exactly when it was the arena's last live block |
| Malloc.Heap.Realloc | pintos/src/threads/malloc.c:188-214 | the new block starts with the old bytes, as many as fit; a failure changes nothing; all other blocks keep their contents |
| Malloc.Heap.MallocFor | pintos/src/threads/malloc.c:200-207 | the new block is smaller than what will be copied to it exactly when the new size is above 2^32-12, the old block holds more than 4084 bytes and malloc does not refuse |
| Malloc.ReallocOverruns | pintos/src/threads/malloc.c:200-207 | a run in which 8180 bytes are to be copied to a block of 4084 |
| Malloc.AtMostAll | pintos/src/threads/malloc.c:241-247 | the free count reaches the number of blocks exactly when all of them are free |
| Malloc.Remove | pintos/src/threads/malloc.c:247-251 | list_remove takes exactly one block off a list |
| Pte.PdeCreated | pintos2/src/threads/pte.h:70-81 | a directory entry points back to its table and is present, writable and for users |
| Pte.PteCreated | pintos2/src/threads/pte.h:83-104 | a page table entry gives back its page and rights and is neither accessed nor dirty |
| Pte.SetDirtyLaw | pintos2/src/userprog/pagedir.c:231-232 | setting the dirty flag changes nothing else |
| Pte.ClearDirtyLaw | pintos2/src/userprog/pagedir.c:235 | nor does clearing it |
| Pte.SetAccessedLaw | pintos2/src/userprog/pagedir.c:260-261 | nor does setting the accessed flag |
| Pte.ClearAccessedLaw | pintos2/src/userprog/pagedir.c:264 | nor does clearing that |
| Pte.ClearPresentLaw | pintos2/src/userprog/pagedir.c:207 | clearing the present flag keeps address, dirty and accessed flags |
| Pte.ExampleEntries | pintos2/src/threads/pte.h:41-104 | the words that these functions give for one page, with the processor's bits |
| PageTable.LookupInjective | pintos2/src/threads/pte.h:30-39 | different user pages, of one directory or of two, have different entries |
| PageTable.SpaceWritten | pintos2/src/userprog/pagedir.c:161-166 | writing one entry is an update or removal at one page of one address space |
| PageTable.EntryWritten | pintos2/src/userprog/pagedir.c:161-169 | and keeps every table and mapped frame with one owner |
| PageTable.TlbWritten | pintos2/src/userprog/pagedir.c:299-316 | the TLB stays right if nothing in it comes from the entry, or nothing is weakened |
| PageTable.TableAdded | pintos2/src/userprog/pagedir.c:117-138 | a new empty table changes no entry of any page |
| PageTable.DirAdded | pintos2/src/userprog/pagedir.c:17-24 | a copy of the kernel's directory is a directory with an empty user half |
| PageTable.DirDropped | pintos2/src/userprog/pagedir.c:28-49 | freeing a directory's pages and tables leaves all other directories as they are |
| Mmu.Mmu.Access | pintos2/src/userprog/pagedir.c:299-316 | a CPU access gives what a walk of the tables gives, whatever the TLB holds; user code gets the frame that the address space maps the page to exactly when it does and, to write, the page is writable; the entry is marked accessed and, for a write, dirty |
| Mmu.Mmu.CpuStep | pintos2/src/userprog/pagedir.c:299-316 | one access in any state of TLB and tables |
| Mmu.Mmu.LookupPage | pintos2/src/userprog/pagedir.c:102-138 | the place of the entry, made if asked for, which fails exactly when the table is missing and no kernel page is free; no address space changes |
| Mmu.Mmu.SetPage | pintos2/src/userprog/pagedir.c:140-172 | adds exactly that mapping, clean and open to user code; fails exactly when there is no table for the page and no free kernel page, and then changes nothing; all is well after it exactly when the frame was in no other address space |
| Mmu.Mmu.SharedFrame | pintos2/src/userprog/pagedir.c:140-172 | with a frame mapped twice no assignment of one owner to each frame is left |
| Mmu.Mmu.GetUserPage | pintos2/src/userprog/pagedir.c:174-190 | the frame that the address space maps the page to, or none |
| Mmu.Mmu.ClearPage | pintos2/src/userprog/pagedir.c:192-210 | removes exactly that page; the TLB stays right |
| Mmu.Mmu.IsDirty | pintos2/src/userprog/pagedir.c:212-221 | true exactly when the page was written or marked dirty since it was installed or last cleaned |
| Mmu.Mmu.MarkDirty | pintos2/src/userprog/pagedir.c:223-239 | marks or cleans exactly that page; the TLB is right after it exactly unless it cleans through an inactive directory while the TLB holds a dirty translation from the entry, which an entry that is not present, accessed and dirty, or of a user page, excludes |
| Mmu.Mmu.IsAccessed | pintos2/src/userprog/pagedir.c:241-250 | the same for accesses |
| Mmu.Mmu.MarkAccessed | pintos2/src/userprog/pagedir.c:252-268 | the same for accesses, where any translation from the entry is wrong |
| Mmu.CleanKernelPage | pintos2/src/userprog/pagedir.c:304-316 | for an entry shared with the active directory, leaving out the flush when the dirty flag is cleared is right for every TLB exactly when the entry is not present, accessed and dirty; the comment in the source overlooks such entries |
| Mmu.UntouchKernelPage | pintos2/src/userprog/pagedir.c:304-316 | when the accessed flag is cleared, exactly when it is not present and accessed |
| Mmu.Mmu.MissedWrite | pintos2/src/userprog/pagedir.c:223-239 | a run in which a page is written after it was cleaned and pagedir_is_dirty says it was not |
| Mmu.Mmu.MissedAccess | pintos2/src/userprog/pagedir.c:252-268 | the same for an access and pagedir_is_accessed |
| Mmu.Mmu.Activate | pintos2/src/userprog/pagedir.c:270-284 | the directory is active and the TLB empty |
| Mmu.Mmu.Create | pintos2/src/userprog/pagedir.c:13-24 | a directory with the kernel's entries and no user pages |
| Mmu.Mmu.Duplicate | pintos2/src/userprog/forkutils.c:73-96 | a complete copy, with the same user pages and rights, equal contents and disjoint frames, exactly when the kernel pool has a free page for the directory and one for each page table and the user pool one for each page; it panics exactly when a page, or a directory, to copy to is missing, and otherwise loses copies exactly when tables are, each lost copy leaving a page allocated that is mapped nowhere; source, other directories and all pages in use unchanged |
| Mmu.Mmu.CopyOne | pintos2/src/userprog/forkutils.c:86-91 | one page: the kernel panics exactly without a page or directory to copy to; else its copy is lost exactly when the copy has no table for it and there is no page for one |
| Mmu.Mmu.LosesCopy | pintos2/src/userprog/forkutils.c:86-91 | a run that loses the only copy, with one free page in each pool |
| Mmu.BudgetMapped | pintos2/src/userprog/forkutils.c:86-91 | each page copied takes a user page, and a kernel page exactly when it is the first in its table |
| Mmu.BudgetEnds | pintos2/src/userprog/forkutils.c:73-96 | nothing is lost exactly when there were kernel pages for all tables, and as many tables are made as there were pages for |
| Mmu.Mmu.Destroy | pintos2/src/userprog/pagedir.c:26-49 | frees each user page, each user page table and the directory, once each, and nothing else; all is well after it exactly when the directory was not active |
| Mmu.KindsApart | pintos2/src/userprog/pagedir.c:37-48 | these pages are all different |
| Mmu.Mmu.ProcessExit | pintos/src/userprog/process.c:94-117 | activating the kernel's directory first makes the destruction safe |
| Loader.PlanFits | pintos/src/userprog/process.c:271-293 | for a valid segment no counter wraps, load_segment's assertions hold, and the pages are user pages other than page 0 that cover the segment |
| Loader.ValidExactly | pintos/src/userprog/process.c:325-366 | validate_segment accepts exactly the segments that, over the integers, begin inside the file with the same page offset, are not empty nor larger in the file than in memory, and lie in user space beyond page 0 |
| Loader.InstallPage | pintos/src/userprog/process.c:447-465 | maps the page exactly when it was not mapped and had a table or a kernel page was free |
| Loader.LoadPage | pintos/src/userprog/process.c:391-418 | a page gets the next bytes of the file and zeros and is mapped, exactly when the file has the bytes, the page was not mapped and there are free pages; a failure maps nothing |
| Loader.LoadSegment | pintos/src/userprog/process.c:368-425 | on success exactly the segment's pages are added with its bytes, zeros and rights; it succeeds exactly when the file is long enough, none of the pages was mapped and there are enough free pages for them and for the missing tables; a failure leaves a front part of them |
| Loader.LoadPhdr | pintos/src/userprog/process.c:271-300 | succeeds exactly when the segment is such a one, the file has its bytes, none of its pages was mapped and there are enough free pages; each address of the segment then holds the file's byte, or zero past filesz, in a page with the rights asked for; no page outside the segment's is added |
| Loader.ByteLoaded | pintos/src/userprog/process.c:391-423 | byte t of a loaded segment is at address t of it |
| Threads.Scheduler.ThreadBlock | pintos2/src/threads/thread.c:241-249 | the current thread blocks and the next one runs; the scheduler's invariant is kept |
| Threads.Scheduler.ThreadUnblock | pintos2/src/threads/thread.c:259-277 | the thread joins the end of the ready list |
| Threads.Scheduler.ThreadYield | pintos2/src/threads/thread.c:340-355 | the current thread goes to the end of the ready list, the idle thread to nowhere, and the first one runs |
| Threads.Scheduler.ThreadExit | pintos2/src/threads/thread.c:319-336 | another thread runs and the exiting one is destroyed, unless it is the initial one |
| Threads.Scheduler.ThreadTick | pintos2/src/threads/thread.c:140-162 | a yield at the end of the time slice, a tick before |
| Threads.Scheduler.ScheduleNext | pintos2/src/threads/thread.c:578-654 | the first ready thread, or the idle one, runs |
| Threads.ScheduleOk | pintos2/src/threads/thread.c:633-654 | exactly one thread runs; the ready list has each ready thread but the idle one, once |
| Threads.ExitOk | pintos2/src/threads/thread.c:621-630 | the thread that is destroyed is not the one that runs |
| Threads.PositionFalls | pintos2/src/threads/thread.c:573-585 | no step moves a ready thread back; a call of schedule moves it forward or runs it |
| Threads.BoundedWaiting | pintos2/src/threads/thread.c:573-585 | a thread at position k of the ready list runs within k+1 calls of schedule |
| Threads.RoutineEffects | pintos2/src/threads/thread.c:241-355 | what becomes of the thread that blocks, yields, exits or is unblocked, and that nothing becomes of the others |
| Threads.SliceStarts | pintos2/src/threads/thread.c:610-614 | whoever runs next starts a slice of no ticks |
| Threads.SliceLength | pintos2/src/threads/thread.c:140-162 | a thread that does not give up the processor runs for exactly TIME_SLICE ticks and then goes to the end of the ready list |
| Synch.SchedStep | pintos2/src/threads/synch.c:60-121 | every step keeps: waiters are blocked, on one list, once, and blocked threads are waiters |
| Synch.WakeStep | pintos2/src/threads/synch.c:60-121 | every step keeps: with waiters present, the value is at most the number of woken threads that have not rechecked it |
| Synch.BalanceStep | pintos2/src/threads/synch.c:60-121 | every step keeps: value plus completed downs is initial value plus ups |
| Synch.LockStep | pintos2/src/threads/synch.c:207-251 | every step keeps: at most one thread between sema_down and sema_up on a lock, and the value is 1 exactly when there is none |
| Synch.CondStep | pintos2/src/threads/synch.c:316-367 | every step keeps: each private semaphore is listed, on its way to be upped, or upped once |
| Synch.RunInv | pintos2/src/threads/synch.c:60-367 | all of this holds in every state of every run |
| Synch.NoLostWakeup | pintos2/src/threads/synch.c:60-121 | while threads wait on a semaphore of positive value, a thread that is awake is about to take it |
| Synch.Conservation | pintos2/src/threads/synch.c:60-121 | value plus completed downs is initial value plus ups |
| Synch.OneList | pintos2/src/threads/thread.h:111-116 | a waiting thread is on one wait list and not on the ready list |
| Synch.MutualExclusion | pintos2/src/threads/synch.c:207-251 | at most one thread is inside a lock; it is free exactly when none is; assertions about the holder hold, in cond_wait and cond_broadcast as well as in the lock_acquire that ends cond_wait |
| Synch.SignalNotLost | pintos2/src/threads/synch.c:316-351 | a waiter that has been signalled finds its semaphore at 1, even if the signal came between lock_release and sema_down |
| Synch.UppedAtMostOnce | pintos2/src/threads/synch.c:340-351 | a waiter's semaphore is upped at most once |
| Synch.LongestWaiting | pintos2/src/threads/synch.c:348-350 | the waiter that cond_signal and cond_broadcast take is the one with the least number |
| Synch.ReadyThreadsRun | pintos2/src/threads/thread.c:573-585 | bounded waiting in every run of the whole machine |
| Calls.OwnStep | pintos2/src/threads/synch.c:60-367 | each step of an operation does what synch.c does at that place and leads to the next one |
| Calls.Stays | pintos2/src/threads/synch.c:60-367 | all other steps leave a thread where it is in its operation |
| Calls.SignalBegins | pintos2/src/threads/synch.c:340-351 | cond_signal takes exactly the first waiter off the list, the one that has waited longest; without one it does nothing |
| Calls.SignalDelivers | pintos2/src/threads/synch.c:340-351 | over runs: by the time cond_signal returns, that waiter's semaphore has been upped, for the first time |
| Calls.BroadcastWakesAll | pintos2/src/threads/synch.c:359-367 | over runs: cond_broadcast returns only when the list is empty and every waiter that was listed when it began has been upped |
| Calls.WaitBegins | pintos2/src/threads/synch.c:316-327 | cond_wait puts the caller behind all other waiters |
| Calls.WaitReturns | pintos2/src/threads/synch.c:316-331 | over runs: cond_wait returns only with the lock held again and after it has been signalled |
| Calls.AcquireReturns | pintos2/src/threads/synch.c:207-236 | over runs: lock_acquire and a successful lock_try_acquire return only with the lock held |
| Calls.ReleaseReturns | pintos2/src/threads/synch.c:243-251 | over runs: lock_release returns after it has upped the semaphore |
| Calls.DownReturns | pintos2/src/threads/synch.c:60-75 | over runs: sema_down returns only after it has decremented the value |
| Calls.DownSleeps | pintos2/src/threads/synch.c:68-72 | a thread that finds 0 blocks at the end of the waiters |
| Calls.UpWakesFirst | pintos2/src/threads/synch.c:108-121 | sema_up raises the value and makes the first waiter ready, at the end of the ready list |
| Calls.TryDownNow | pintos2/src/threads/synch.c:83-102 | sema_try_down never waits, and decrements exactly a positive value |
| Calls.TryAcquireNow | pintos2/src/threads/synch.c:224-236 | so does lock_try_acquire, which then holds the semaphore |
| Calls.ListSteps | pintos2/src/threads/synch.c:316-367 | the list of a condition grows at the end by cond_wait and shrinks at the front by cond_signal and cond_broadcast alone |
| Synch.Semaphore.DownTurn | pintos2/src/threads/synch.c:68-74 | one turn of the loop of sema_down on the semaphore and the scheduler |
| Synch.Semaphore.TryDown | pintos2/src/threads/synch.c:83-102 | decrements exactly when the value is positive |
| Synch.Semaphore.Up | pintos2/src/threads/synch.c:108-121 | raises the value and unblocks the first waiter |
| Synch.WaitersAsleep | pintos2/src/threads/synch.c:116-118 | the thread that sema_up unblocks is blocked |
| Stdio.Sink.Put | pintos/src/lib/stdio.c:44-52 | a character is stored while there is room and counted in any case |
| Stdio.Vsnprintf | pintos/src/lib/stdio.c:18-42 | the buffer gets a null-terminated front of the full output and no other byte changes; the full length is returned |
| Stdio.Vprintf | pintos/src/lib/stdio.c:156-333 | the output is that of the format's literals and conversions in order |
| Stdio.ParseConversion | pintos/src/lib/stdio.c:335-460 | the conversion, the position after it and the arguments left |
| Stdio.ParsedLaw | pintos/src/lib/stdio.c:339-460 | never + with space or 0 with a precision |
| Stdio.BothFlags | pintos/src/lib/stdio.c:339-394 | - and 0 together exactly when 0 is among the flags and - is not, the width is a negative argument and there is no precision or a negative one |
| Stdio.FillDigits | pintos/src/lib/stdio.c:501-524 | the digits and the zeros of the precision fit the buffer of 64 characters |
| Stdio.FormatInteger | pintos/src/lib/stdio.c:462-547 | prints sign, prefix, padding and digits in order |
| Stdio.FormattedLaw | pintos/src/lib/stdio.c:462-547 | the digits evaluate to the value; the text is at least the width, and exactly max(width, needed) unless - and 0 are both set |
| Stdio.PaddedTwice | pintos/src/lib/stdio.c:378-394 | an example of the latter: "%0*d" with -5 and 7 prints 9 characters |
| Stdio.DigitsFit | pintos/src/lib/stdio.c:504-513 | a 64-bit value has at most 22 digits and as many commas |
| Stdio.DigitsEval | pintos/src/lib/stdio.c:504-513 | with commas skipped the digits evaluate to the value |
| Reading.ReadsBack | pintos/src/lib/stdio.c:462-547 | for a reader who skips spaces and takes an optional sign, an optional 0x, digits and commas and spaces again, the text of an integer is the value in its base; with a minus exactly for a negative signed one, a plus exactly for another signed one with the + flag, and a prefix exactly for one that is not 0 in base 16 with # |
| Reading.Layout | pintos/src/lib/stdio.c:530-546 | padding is spaces in front, or behind with -, or with 0 zeros after sign and prefix |
| Reading.Precision | pintos/src/lib/stdio.c:513-524 | zeros only up to the precision, and one to begin an octal number with # |
| Reading.NoLeadingZero | pintos/src/lib/stdio.c:501-512 | the digits begin with neither a zero nor a comma |
| Reading.Commas | pintos/src/lib/stdio.c:504-513 | with the quote flag a comma to the left of each third digit, or fourth in base 16, that has another to its left |
| Reading.SignedReads | pintos/src/lib/stdio.c:185-226 | %d and %i: the argument, cut to its size, as a signed number in base 10 |
| Reading.UnsignedReads | pintos/src/lib/stdio.c:228-281 | %o, %u, %x and %X: as an unsigned one in base 8, 10 or 16 |
| Reading.PointerReads | pintos/src/lib/stdio.c:305-315 | %p: a word in base 16, with a prefix unless it is null |
| Reading.TextReads | pintos/src/lib/stdio.c:283-303 | %c and %s: the character, or the string up to its precision, and spaces on one side up to the width |
| Reading.ArgumentsCut | pintos/src/lib/stdio.c:185-281 | an argument is cut to the values that its size has |
| Reading.AllFlagsSeen | pintos/src/lib/stdio.c:343-376 | each flag is on exactly when its character is among the flags |
| Reading.WidthReads | pintos/src/lib/stdio.c:378-394 | the width is a number in base 10, or taken from the arguments |
| Reading.PrecisionReads | pintos/src/lib/stdio.c:396-414 | so is the precision, behind a point; a negative one counts as none |
| Reading.SizeLetters | pintos/src/lib/stdio.c:418-457 | the letters for the sizes |
| Reading.LiteralText | pintos/src/lib/stdio.c:160-172 | text without a percent sign is printed as it is |
| Ustar.StripPrefixes | pintos/src/lib/ustar.c:56-73 | the stripped name |
| Ustar.StripIdempotent | pintos/src/lib/ustar.c:56-73 | stripping leaves no dangerous prefix and no empty name, and twice is once |
| Ustar.StripsOnly | pintos/src/lib/ustar.c:65-73 | only a sequence of /, ./ and ../ is stripped, and no more than needed |
| Ustar.OctalFormatted | pintos/src/lib/ustar.c:102-107 | a zero-padded octal conversion prints exactly the octal digits |
| Ustar.ParseOctalField | pintos/src/lib/ustar.c:120-162 | the value of the field, or failure |
| Ustar.FieldReads | pintos/src/lib/ustar.c:120-162 | octal digits and a null byte read as the number they were printed from |
| Ustar.FieldIs | pintos/src/lib/ustar.c:120-162 | a field reads as a number exactly when it has at least one octal digit, then a space or null byte inside the field, and the digits are worth that number |
| Ustar.CalculateChksum | pintos/src/lib/ustar.c:35-54 | the sum with spaces for the checksum field; it does not wrap |
| Ustar.ChksumIgnoresItself | pintos/src/lib/ustar.c:46-51 | the checksum does not depend on its own field |
| Ustar.ChksumIsSum | pintos/src/lib/ustar.c:35-54 | it is the sum of the bytes of the header with spaces in the field |
| Ustar.MakeHeader | pintos/src/lib/ustar.c:75-118 | fails exactly for stripped names of more than 99 bytes; else all 512 bytes of the header |
| Ustar.ParseHeader | pintos/src/lib/ustar.c:175-227 | the entry, the end of the archive or the error |
| Ustar.RoundTrip | pintos/src/lib/ustar.c:82-227 | a header that has been made parses to the stripped name, the type and the size (0 for a directory); a negative size of a regular file is refused |
| Ustar.AcceptedExactly | pintos/src/lib/ustar.c:181-227 | accepted are exactly the headers with the right magic number, version and checksum, a name that ends in its field, no prefix, and the type of a directory or of a file with a size that is an int; and what they give |
| Ustar.DamageFound | pintos/src/lib/ustar.c:206-207 | an accepted header with one byte changed outside the checksum field is refused |
| Ustar.SampleNotUstar | pintos/src/lib/ustar.c:200-201 | a header that is refused for its magic number |
| Ustar.SampleBadVersion | pintos/src/lib/ustar.c:202-203 | one for its version |
| Ustar.SampleCorruptChksum | pintos/src/lib/ustar.c:204-205 | one for its checksum field |
| Ustar.SampleChksumMismatch | pintos/src/lib/ustar.c:206-207 | one, with a changed letter, for its checksum |
| Ustar.SampleNameTooLong | pintos/src/lib/ustar.c:208-209 | one for its prefix |
| Ustar.SampleUnknownType | pintos/src/lib/ustar.c:210-211 | one for its type |
| Ustar.SampleCorruptSize | pintos/src/lib/ustar.c:214-215 | one for its size field |
| Ustar.SampleTooLarge | pintos/src/lib/ustar.c:216-217 | one for its size |
| Ustar.MadeSays | pintos/src/lib/ustar.c:97-107 | mode 644 or 755, user and group 0, the size and the time, read back from their fields |
| Ustar.MadeNames | pintos/src/lib/ustar.c:97-112 | user and group root, and null bytes everywhere else |
| Ustar.AcceptedNames | pintos/src/lib/ustar.c:204-226 | whatever header is accepted, its name is stripped and its size an int |

## Left out

- FileSystem.FileSystem.Create: lengths beyond 2^31-512 wrap in bytes_to_sectors, which is modelled as two's complement; the device is assumed to have at most 2^31 sectors.
- FileSystem.FileSystem.WriteFreeMap: the recovery after a failed write of the free map is dead code under the invariant and is not modelled.
- FileSystem.FileSystem.ReadAt: negative offsets are excluded, as in Inode.Inode.ReadAt; bounce buffers are assumed to be available, in reads and in writes.
- FileSystem.FileSystem.Format: panics are the result false; free_map_close leaves its pointer to the closed file, which is not used before the next open.
- Layout.Sound: the magic number is written but, as in the source, never checked when an inode is opened.
- Inode.Inode.ReadAt: negative offsets, which file_read_at passes on, are excluded: with them the source copies from before its bounce buffer or reads a sector outside the file (FirstAccess).
- Inode.Inode.WriteAt: the same for writes.
- FileSystem.FileSystem.WriteAt: the same for file_write_at.
- Arithmetic.Sdiv64: the negation that INT64_MIN / 1 needs is undefined in C, and the conversion in INT64_MIN / -1 is left to the implementation; the model gives the two's complement results.
- Sort.BinarySearch: elements have at least one byte, as sort itself asserts.
- Palloc.Init: physical memory of 1 GB or more, whose end would wrap around in the kernel's address space, is excluded; a panic is a result.
- Malloc.Heap.Malloc: the values of headers and list links are kept as typed fields, and their bytes in memory are arbitrary; the magic number is not modelled, and calloc is left out.
- Malloc.Heap.Realloc: excludes just the calls that copy past the end of the new block, as MallocFor tells them apart; what memory holds after such a copy is not modelled.
- Mmu.Mmu.Duplicate: copying to a null page or into a null directory is a panic. frame_set_user_page has no effect here: vm/frame.c is not part of this model.
- Mmu.Mmu.SetPage: the frame is a page in no other use or a mapped one, not a free page or a page table; nothing is said of what follows once a frame is shared.
- Mmu.Mmu.Access: a page holds either table entries or data; data reads and writes, large pages, global pages and faults beyond their occurrence are not modelled.
- Loader.LoadSegment: the file is its contents and a position; reading the ELF header, the stack and the remaining program header types are left out.
- Threads.Scheduler.ThreadTick: statistics, names, priorities and stacks are left out; creation is the two steps of initialising a blocked thread and unblocking it; idle_thread is set from the start.
- Synch.Semaphore.Up: the semaphore operations run with interrupts off and are methods; locks and condition variables, which can be preempted in the middle, are steps of the machine only, so the lock and condition objects themselves are values in its state.
- Synch.Step: a thread is not given the identity of one that exited holding a lock; sema_down is preemptible between waking and rechecking, which allows more runs than the code has.
- Stdio.ParseConversion: widths and precisions are unbounded integers; signed overflow while reading them is undefined in C.
- Stdio.Vprintf: a format that ends inside a conversion, or an argument that is missing or of another kind, is undefined in C; the model ends the output, or takes 0 or "(null)". Printing INT64_MIN negates it, which is undefined in C as well; the model prints its absolute value.
- Stdio.Vsnprintf: the full length and the buffer size fit an int.
- Ustar.MakeHeader: the message for names that are too long is not printed.
- Priority donation and priority scheduling of the `pintos` threads tree: only the round-robin versions of `pintos2` are modelled.
- Device drivers, interrupt descriptors, context-switch assembly, console and keyboard.
- Partition tables, the real-time clock, fsutil, example programs and host utilities.
- The virtual memory code (frames, supplementary page table, swap) and system calls.
- Subdirectories and file growth, which the file system does not have.
