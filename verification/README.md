# A model of the Pintos kernel

This project models the parts of the Pintos teaching kernel in which many operations have to work
together, and proves what they promise for every input and every run.

- **File system** (`Sectors`, `CacheSpec`, `CacheLru`, `Cache`, `InodeLayout`, `InodeSpec`, `Inode`,
  `FileSpec`, `OpenInodes`, `FileSystem`, `OpenFiles`, `CStrings`, `DirSpec`, `Directory`). A write-back
  cache of 32 sectors in front of the device; inodes with 124 direct sectors and one indirect block; open
  inodes with their openers, removal marks and write denials, which are exactly those of the open files that
  deny; directories of 32-byte slots. The cache looks like the
  device it speeds up, and evicts exactly the least recently used sector, although `cache_write` caches a
  sector twice when it fills the last slot. Files behave as byte sequences, directories as finite maps,
  and no sector is ever owned twice, leaked or released twice.
- **Allocators** (`Bits`, `Bitmap`, `Palloc`, `MallocSpec`, `Malloc`). Packed bitmaps with first-fit
  search, two page pools on top of them, and `malloc` on top of the pages.
- **Containers** (`Sequences`, `SortSpec`, `Lists`, `ListFamily`, `HashSpec`, `HashTable`, `HeapSort`).
  Intrusive linked lists with an in-place natural merge sort, elements that move between disjoint lists,
  hash tables whose buckets are such lists and that rehash by relinking, heap sort and binary search.
- **Threads** (`SchedSpec`, `SynchSpec`, `SynchInv`, `SynchRuns`, `SynchCalls`, `ThreadQueues`, `Kernel`). A state machine
  whose steps are the kernel's interrupts-off regions and the assignments between them. The running thread
  takes its next step, a timer tick may preempt it wherever interrupts are on, and interrupt handlers may up
  and try semaphores. The theorems hold in every state reachable by any interleaving, and say what each call
  has done when it returns, whatever happened in between. Every run is also
  carried out on the kernel's own data: the ready list and all wait lists are linked through one list
  element per thread, and the state machine's invariant is what makes that element free whenever it is
  linked again.
- **Arithmetic and formats** (`Arithmetic`, `UstarSpec`, `Ustar`, `Vaddr`, `PageTable`, `PageDir`). 64-bit division
  from a 64-by-32-bit instruction, ustar archive headers (the "ustar Interchange Format" of the pax
  utility in POSIX.1-2001), and two-level IA-32 page tables (section 3.7.6 of the IA-32 manual, volume 3A).

Code that changes fields or arrays is written as classes and methods whose postconditions tie the new
state to functions of the old one; what those functions mean is proved in the modules named `...Spec`.
Machine integers are written out where their width matters (`Word`, `Uint64`, `Int64`, explicit `%`).

Where the code falls short of what its comments promise, the model follows the code and the exact
condition is proved:

- `inode_close` of a removed file with an indirect block passes the address of a pointer field as a
  sector number, and the device check panics: `FileSystems.FileSystem.Close` panics exactly then, and
  `FileSystems.FileSystem.CreateRemoveClose` reaches it exactly for files of more than 124 sectors.
- `inode_read_at` past the end of a file copies its zeros from an array of 512 bytes: the request is sure to
  be zeroed exactly when it is not longer than that (`FileSpec.ZeroFilledWhole`).
- `dir_remove` drops the file although another name of the directory may stand for it: the remaining names
  stand for existing files exactly if the file stays open or had no other name (`Directories.RemoveEntry`;
  `Directories.DanglingName` leads to a name that stands for no file).
- `malloc` rounds its size up in 32-bit arithmetic: a block it gives is large enough exactly for sizes up to
  2^32 - 12 (`Malloc.Heap.Malloc`, `Malloc.WrappedRequest`).
- `umod64` and `smod64` return 32 bits. They are exact for every dividend exactly when the divisor is at
  most 2^32, or has magnitude at most 2^31 (`Arithmetic.ExactModulus`, `Arithmetic.ExactSignedModulus`);
  `sdiv64` cannot represent one quotient (`Arithmetic.Sdiv64`).
- A regular file of negative size makes a header that does not parse (`UstarSpec.ParseMade`).
- `inode_write_at` is documented not to grow files, but it does (`Inodes.Volume.WriteAt`).

## Model

| member | source | states |
|---|---|---|
| `CacheSpec.WriteRefines` | pintos/src/filesys/inode.c:146-218 | A write changes the view of exactly the written sector, and keeps the invariant that a sector cached twice (slot 31 and a lower slot) has equal counts, so the lower copy is always the one evicted |
| `CacheSpec.ReadRefines` | pintos/src/filesys/inode.c:85-126 | A read returns the view of its sector and changes no view, on a hit and on a miss |
| `CacheSpec.SyncRefines` | pintos/src/filesys/inode.c:244-255 | Sync makes the device equal to the view, whichever copy of a sector is written last |
| `CacheSpec.RunRefinesRaw` | pintos/src/filesys/inode.c:84-255 | After every sequence of reads, writes and syncs the cached disk looks exactly like a device with no cache |
| `CacheSpec.EveryReadAndSyncIsExact` | pintos/src/filesys/inode.c:84-255 | Along every run, each read returns what the uncached device would, and after each sync the device itself holds it |
| `CacheLru.WriteKeepsLru` | pintos/src/filesys/inode.c:154-215 | A write keeps the counts equal to the ages, and only the least recently accessed sector is ever missing |
| `CacheLru.ReadKeepsLru` | pintos/src/filesys/inode.c:85-126 | The same for a read, whose miss first takes its own ageing back |
| `CacheLru.RunIsLru` | pintos/src/filesys/inode.c:92-215 | In every reachable state each live entry's reference count is the number of accesses since its sector was last accessed |
| `CacheLru.CacheHoldsMostRecent` | pintos/src/filesys/inode.c:92-215 | In every reachable state the cached sectors are exactly the k most recently accessed ones, with k the number of slots in use or one less, and all of them while the cache is not full |
| `Cache.BlockCache.Read` | pintos/src/filesys/inode.c:85-126 | The loops on the entry array compute the specified read; the returned data is the view of the sector |
| `Cache.BlockCache.Probe` | pintos/src/filesys/inode.c:92-108 | The first loop ages every entry and copies out the last match |
| `Cache.BlockCache.Unage` | pintos/src/filesys/inode.c:113-120 | After a miss the second loop restores the counts exactly |
| `Cache.BlockCache.Write` | pintos/src/filesys/inode.c:146-218 | The loop and the three branches compute the specified write; the view changes at the written sector only |
| `Cache.BlockCache.Scan` | pintos/src/filesys/inode.c:154-175 | The scan finds the highest slot of the sector, or else the lowest slot among those with the largest count |
| `Cache.BlockCache.Install` | pintos/src/filesys/inode.c:176-218 | Replacement in place, filling a free slot, and eviction with write-back, including the fall-through after the last slot is filled |
| `Cache.BlockCache.Sync` | pintos/src/filesys/inode.c:244-255 | The loop writes every entry back in slot order and leaves the device equal to the view |
| `Cache.BlockCache.ReadBytes` | pintos/src/filesys/inode.c:129-143 | Returns the asked slice of the sector as seen |
| `Cache.BlockCache.WriteBytes` | pintos/src/filesys/inode.c:221-241 | A partial sector is read, patched and written: only the patched bytes of that sector change |
| `InodeLayout.EncodeLayout` | pintos/src/filesys/inode.c:18-26 | The fields lie in the sector in the order of the structure, as little-endian words |
| `InodeSpec.SectorsHold` | pintos/src/filesys/inode.c:29-35 | The number of sectors of a file is the least that holds its bytes |
| `InodeLayout.DecodeEncode` | pintos/src/filesys/inode.c:18-26 | Unpacking the sector image of an on-disk inode gives the inode back |
| `InodeSpec.GrownInode` | pintos/src/filesys/inode.c:677-811 | A grown inode is well formed, owns its old sectors, the added ones and a new indirect block if there is one, and its bytes are the old ones followed by zeros |
| `FileSpec.GrownFile` | pintos/src/filesys/inode.c:819-833 | Writing the grown header back keeps all files well formed and disjoint, and changes no other file |
| `FileSpec.StoredOnly` | pintos/src/filesys/inode.c:835-864 | Storing a piece of the buffer in the block `byte_to_sector` names overwrites those bytes of the file and nothing else, and leaves the slack after the end zero |
| `Inodes.Volume.Allocate` | pintos/src/filesys/free-map.c:28-41 | Takes the lowest free sector, or fails exactly when none is free |
| `Inodes.Volume.Release` | pintos/src/filesys/free-map.c:45-50 | Frees exactly the given sector, which must be in use |
| `Inodes.Volume.AllocateZeroed` | pintos/src/filesys/inode.c:370-377 | A block newly taken was free, is marked used and reads as zeros |
| `Inodes.Volume.FillPointers` | pintos/src/filesys/inode.c:370-377 | The block loops fill exactly the wanted slots with fresh zeroed sectors and touch nothing else |
| `Inodes.Volume.Grow` | pintos/src/filesys/inode.c:677-811 | `add_inode` up to 252 sectors: a no-op when the file is long enough, otherwise the file grows to the new length with fresh zeroed sectors, direct and indirect |
| `Inodes.Volume.GrowIndirect` | pintos/src/filesys/inode.c:721-752 | The indirect part of growth, whether the indirect block is new or already there |
| `Inodes.Volume.ByteToSector` | pintos/src/filesys/inode.c:263-324 | The sector of a byte position, through the direct or the indirect pointers, or none at and beyond the end |
| `Inodes.Volume.Length` | pintos/src/filesys/inode.c:892-897 | The length field is the number of bytes of the file |
| `Inodes.Volume.ReadChunk` | pintos/src/filesys/inode.c:636-669 | One turn of the read loop copies a piece of the file within one sector, and ends exactly at the end of the file |
| `Inodes.Volume.ReadAt` | pintos/src/filesys/inode.c:616-672 | The bytes read are the slice of the file at the offset, as many as there are; past the end none are read and the first 512 bytes of the request are zeroed; inodes beyond the sector limit give -1 |
| `FileSpec.ZeroFilledWhole` | pintos/src/filesys/inode.c:628-633 | A request past the end is sure to be zeroed as a whole exactly when it is not longer than a sector |
| `Inodes.Volume.CreateFile` | pintos/src/filesys/inode.c:344-452 | Creates a file of the given length filled with zeros; every other file keeps its bytes and sectors |
| `Inodes.Volume.Extend` | pintos/src/filesys/inode.c:828-833 | The first half of a write extends the file with zeros to offset plus size |
| `Inodes.Volume.WriteChunk` | pintos/src/filesys/inode.c:835-864 | One turn of the write loop overwrites a piece of the file within one sector |
| `Inodes.Volume.WriteAt` | pintos/src/filesys/inode.c:819-868 | The file becomes its zero-extension to offset plus size, overwritten with the buffer at the offset; all bytes are written and no other file changes |
| `Inodes.Volume.Deallocate` | pintos/src/filesys/inode.c:539-601 | Releases exactly the data sectors of a file of at most 124 sectors, and panics exactly for larger ones |
| `Inodes.Volume.DeleteFile` | pintos/src/filesys/inode.c:523-529 | Releases exactly the sectors the file owns, header included, or panics exactly when it has an indirect block |
| `FileSpec.DeletedFile` | pintos/src/filesys/inode.c:511-536 | After the release every remaining file is well formed and disjoint and every used sector is still accounted for |
| `FileSpec.OnlyFileAccounted` | pintos/src/filesys/inode.c:344-452 | Creating or growing a file leaks no sector: every used sector belongs to exactly one file or is reserved for a header |
| `FileSpec.CreateThenDelete` | pintos/src/filesys/inode.c:343-561 | Creating a file and deleting it again restores the free map, header sector included |
| `OpenInodes.OpenThenClose` | pintos/src/filesys/inode.c:460-536 | A close undoes an open |
| `OpenInodes.OthersUntouched` | pintos/src/filesys/inode.c:460-536 | Opening or closing one inode leaves every other one open and unchanged |
| `OpenInodes.OpenMarkClose` | pintos/src/filesys/inode.c:460-610 | Opening, removing and closing is a last close exactly when nobody else has the inode open; otherwise it leaves only the removal mark |
| `OpenInodes.OpenTable.Open` | pintos/src/filesys/inode.c:460-498 | One record per sector: an open inode gets one more opener, otherwise a new record goes to the front |
| `OpenInodes.OpenTable.Close` | pintos/src/filesys/inode.c:511-520 | One opener less; the record goes when the last opener closes |
| `OpenInodes.OpenTable.Remove` | pintos/src/filesys/inode.c:606-610 | Marks the inode as removed and changes nothing else |
| `OpenInodes.OpenTable.DenyWrite` | pintos/src/filesys/inode.c:873-877 | One denial more, never more denials than openers |
| `OpenInodes.OpenTable.AllowWrite` | pintos/src/filesys/inode.c:883-888 | One denial less, never below zero |
| `FileSystems.FileSystem.AllocateHeader` | pintos/src/filesys/free-map.c:28-41 | Reserves a free sector for a header, or fails exactly when none is free; no file changes |
| `FileSystems.FileSystem.Create` | pintos/src/filesys/inode.c:344-452 | A new file of zeros at a reserved sector; no sector is owned twice, every owned sector is used and every used one is owned or reserved |
| `FileSystems.FileSystem.Write` | pintos/src/filesys/inode.c:819-868 | Writing nothing while writes are denied, whatever room there is; otherwise the byte-sequence write on exactly that file, keeping all disk and open-table invariants |
| `FileSystems.FileSystem.Read` | pintos/src/filesys/inode.c:616-672 | Reading an open file returns its slice and changes nothing that can be seen |
| `FileSystems.FileSystem.Open` | pintos/src/filesys/inode.c:460-489 | Opening keeps the invariant that only existing files are open |
| `FileSystems.FileSystem.Remove` | pintos/src/filesys/inode.c:606-610 | A removed file stays whole until it is closed |
| `FileSystems.FileSystem.Close` | pintos/src/filesys/inode.c:511-536 | Exactly the last close of a removed file releases its sectors, once; any other close releases nothing; the kernel panics exactly at the last close of a removed file of more than 124 sectors |
| `FileSystems.FileSystem.CreateRemoveClose` | pintos/src/filesys/inode.c:343-561 | Creating, opening, removing and closing a file panics exactly when it has more than 124 sectors, and otherwise restores the free map, the set of files and the open table |
| `FileSystems.FileSystem.Delete` | pintos/src/filesys/inode.c:523-529 | Exactly the sectors of the file become free |
| `OpenFiles.NotAllDeny` | pintos/src/filesys/file.c:46-54 | While some handle of an inode does not deny writes, the inode has fewer denials than openers |
| `OpenFiles.OpenCounted` | pintos/src/filesys/file.c:18-34 | A new handle keeps every inode's denials equal to the number of its handles that deny, and its openers at least the number of its handles |
| `OpenFiles.DenyCounted` | pintos/src/filesys/file.c:119-140 | So does a handle that starts or stops denying |
| `OpenFiles.CloseCounted` | pintos/src/filesys/file.c:46-54 | So does closing a handle that does not deny |
| `OpenFiles.FileTable.Open` | pintos/src/filesys/file.c:18-34 | A new handle at position 0 that denies nothing, or, without memory for it, the open undone |
| `OpenFiles.FileTable.Reopen` | pintos/src/filesys/file.c:39-42 | The same for the inode of an open handle |
| `OpenFiles.FileTable.DenyWrite` | pintos/src/filesys/file.c:119-127 | One denial more exactly if the handle did not deny before, and the assertion of `inode_deny_write` holds |
| `OpenFiles.FileTable.AllowWrite` | pintos/src/filesys/file.c:133-141 | One denial less exactly if the handle did deny, and the assertions of `inode_allow_write` hold |
| `OpenFiles.FileTable.Close` | pintos/src/filesys/file.c:46-54 | Any handle can be closed: it allows writes first, so no denial of a closed handle is ever left; the file goes with the last close of a removed inode |
| `OpenFiles.FileTable.Read` | pintos/src/filesys/file.c:69-74 | The bytes at the handle's position, which moves behind them |
| `OpenFiles.FileTable.Write` | pintos/src/filesys/file.c:95-100 | Nothing while some handle of the inode denies writes; otherwise the buffer is written at the position, which moves behind it |
| `DirSpec.EntryLayout` | pintos/src/filesys/directory.h:31-38 | The entry lies in its slot as the structure does, little-endian: sector, name, type and flag at their offsets; the padding keeps what it held |
| `DirSpec.MadeEntry` | pintos/src/filesys/directory.c:257-261 | The entry filled in over an old buffer reads back as in use with the given name, sector and type |
| `DirSpec.ZerosAreEmptyDir` | pintos/src/filesys/directory.c:39-43 | A file of zeros is a directory without entries |
| `DirSpec.FreeSlotExists` | pintos/src/filesys/directory.c:252-255 | The first free slot comes no later than after as many slots as there are entries |
| `DirSpec.RemovedNamesExist` | pintos/src/filesys/directory.c:272-325 | When a name goes, the other names still stand for existing files exactly if the file stays or had no other name |
| `DirSpec.LookupIsMap` | pintos/src/filesys/directory.c:105-125 | The first slot in use under a name decides membership in the map and gives its value |
| `DirSpec.AddedToMap` | pintos/src/filesys/directory.c:228-266 | Storing an entry under a new name in a free slot, or behind the last one, adds it to the map and changes nothing else |
| `DirSpec.RemovedFromMap` | pintos/src/filesys/directory.c:313-316 | Clearing a slot removes its name, and only that, from the map |
| `DirSpec.EmptyIsUnlisted` | pintos/src/filesys/directory.c:286-296 | `dir_readdir` finds nothing exactly when the map holds no name but "." and ".." |
| `Directories.Lookup` | pintos/src/filesys/directory.c:105-125 | Returns the entry and offset of a name exactly when the map has it |
| `Directories.FindSlot` | pintos/src/filesys/directory.c:252-255 | Stops at the first free slot, or at the end of the file |
| `Directories.CreateDir` | pintos/src/filesys/directory.c:39-43 | A new directory is well formed and empty, has the asked number of slots, and every other file is unchanged |
| `Directories.AddSelf` | pintos/src/filesys/filesys.c:105-108 | An empty directory with two free slots comes to map exactly "." and ".." to itself |
| `Directories.MakeRoot` | pintos/src/filesys/filesys.c:98-113 | The root directory of a new file system maps exactly "." and ".." to itself, and both names stand for an existing file |
| `Directories.Add` | pintos/src/filesys/directory.c:228-266 | Succeeds exactly for a valid name that is absent while writes are allowed; the map gains that entry, in the first free slot or at the end; names go on standing for existing files exactly if the new one does; other files are unchanged; on failure nothing changes |
| `Directories.ReadDir` | pintos/src/filesys/directory.c:331-347 | Returns the next slot in use that is neither "." nor "..", and moves just past it |
| `Directories.IsEmpty` | pintos/src/filesys/directory.c:287-304 | The emptiness test of a directory, which leaves the open table and the disk as they were |
| `Directories.Unlink` | pintos/src/filesys/directory.c:308-324 | Erasing the slot and dropping the file: the file disappears exactly when nobody else has it open |
| `Directories.RemoveEntry` | pintos/src/filesys/directory.c:272-325 | Succeeds exactly when the name is present, is not a non-empty directory and writes are allowed; the map loses exactly that name; every remaining name stands for an existing file exactly if the file is still open or had no other name here; other files are unchanged; on failure nothing changes |
| `Directories.AddThenRemove` | pintos/src/filesys/directory.c:228-325 | Removing a file right after adding it under a new name gives the old map back |
| `Directories.DanglingName` | pintos/src/filesys/directory.c:228-325 | Of two names for a small file that nobody has open, removing one leaves the other standing for no file |
| `Bitmaps.ChangedBit` | pintos/src/lib/kernel/bitmap.c:157-179 | Marking or resetting a bit of a packed word changes that bit and no other |
| `Bitmaps.SetRunUndo` | pintos/src/lib/kernel/bitmap.c:320-326 | Clearing a run that was taken from clear bits restores the bits |
| `Bitmaps.Bitmap.Set` | pintos/src/lib/kernel/bitmap.c:145-179 | The packed word update is an update of one bit of the boolean sequence |
| `Bitmaps.Bitmap.TestBit` | pintos/src/lib/kernel/bitmap.c:198-203 | The masked test reads that bit of the sequence |
| `Bitmaps.Bitmap.SetMultiple` | pintos/src/lib/kernel/bitmap.c:218-228 | Sets exactly the given run |
| `Bitmaps.Bitmap.Contains` | pintos/src/lib/kernel/bitmap.c:251-263 | True exactly when some bit of the run has the value |
| `Bitmaps.Bitmap.Scan` | pintos/src/lib/kernel/bitmap.c:296-310 | The leftmost run of the wanted length and value, or an error exactly when there is none |
| `Bitmaps.Bitmap.ScanAndFlip` | pintos/src/lib/kernel/bitmap.c:320-326 | Takes the leftmost fitting run and flips exactly it |
| `Palloc.TakeRun` | pintos/src/threads/palloc.c:80-87 | Pages taken from free ones form a run disjoint from all outstanding runs, and the used pages are exactly those of the runs |
| `Palloc.FreeRun` | pintos/src/threads/palloc.c:118-142 | Freeing a run frees its pages and no others; all of them were in use |
| `Palloc.BitmapPagesHold` | pintos/src/threads/palloc.c:158-160 | The pages set aside for a bitmap hold its 8-byte header and its 32-bit words, and one page less would not |
| `Palloc.InitPool` | pintos/src/threads/palloc.c:154-170 | The bitmap of all pages of the pool ends before its first page, which is the next one after the bitmap, and the rest starts out free; panics exactly when the bitmap does not fit |
| `Palloc.PallocInit` | pintos/src/threads/palloc.c:46-62 | The memory above the first megabyte is the kernel's bitmap, the kernel's pages, the user bitmap and the user pages, in this order and without gaps; the user part is half of it or the limit; panics exactly when one is too small for its bitmap |
| `Palloc.PageAllocator.GetMultiple` | pintos/src/threads/palloc.c:71-101 | The first fit in the chosen pool; nothing, and nothing changed, exactly when no pages are asked for or no run fits; the other pool is untouched |
| `Palloc.PageAllocator.FindPool` | pintos/src/threads/palloc.c:127-132 | A page is in exactly one pool, and the right one is found |
| `Palloc.PageAllocator.FreeMultiple` | pintos/src/threads/palloc.c:118-142 | Freeing an outstanding run clears exactly its bits; a null address or no pages change nothing |
| `Palloc.PageAllocator.AllDisjoint` | pintos/src/threads/palloc.c:71-142 | All outstanding runs, of one pool or of both, are pairwise disjoint |
| `MallocSpec.DescriptorsFit` | pintos/src/threads/malloc.c:72-85 | Block sizes double from 16 to the last below half a page, and an arena has as many blocks as fit behind its 12-byte header |
| `Malloc.MallocInit` | pintos/src/threads/malloc.c:72-85 | The seven descriptors: block sizes 16 to 1024 and the blocks that fit behind a header in a page |
| `MallocSpec.ReturnThenGrab` | pintos/src/threads/malloc.c:149-240 | Freed blocks are reused last in, first out: taking a block right after returning one of the same size gives it back and restores the whole heap |
| `Malloc.Heap.FindDesc` | pintos/src/threads/malloc.c:102-104 | The smallest descriptor whose blocks are large enough, or none exactly for sizes above 1024 |
| `Malloc.Heap.Malloc` | pintos/src/threads/malloc.c:90-154 | Null exactly for size 0, for a small size whose list is empty while no page is free, and for a big size that asks for no pages or more than any free run, and then nothing has changed; otherwise a block that was not allocated, large enough exactly for sizes up to 2 to the 32 minus 12 |
| `Malloc.Heap.MallocBig` | pintos/src/threads/malloc.c:105-120 | Requests too big for a descriptor get whole pages, or null with nothing changed exactly when the pages come to 0 or no free run is long enough; large enough exactly up to the same bound |
| `Malloc.BigPagesHold` | pintos/src/threads/malloc.c:109-109 | The page count computed in 32-bit arithmetic holds the block, with less than a page to spare, exactly when the size plus the header does not wrap; it is 0 exactly for the 4096 sizes up to 2 to the 32 minus 12, and 1 above them |
| `Malloc.WrappedRequest` | pintos/src/threads/malloc.c:109-109 | A request of 2 to the 32 minus 1 bytes gets a single page |
| `Malloc.Heap.NewArena` | pintos/src/threads/malloc.c:124-147 | Fails, with nothing changed, exactly when no page is free; otherwise a new arena's blocks all go on the free list, and the heap invariants hold but for the one fully free arena |
| `Malloc.Heap.Take` | pintos/src/threads/malloc.c:149-153 | The front of the free list becomes allocated; every small arena again has an allocated block |
| `Malloc.Heap.Free` | pintos/src/threads/malloc.c:219-264 | Exactly the freed block stops being allocated; a null pointer changes nothing |
| `Malloc.Heap.Retire` | pintos/src/threads/malloc.c:242-253 | An arena with no allocated block has all its blocks on the free list; they leave it and the page goes back to the allocator |
| `Malloc.Heap.FreeBig` | pintos/src/threads/malloc.c:257-262 | A big block gives exactly its pages back |
| `MallocSpec.LiveDisjoint` | pintos/src/threads/malloc.c:90-294 | Two allocated blocks never overlap, in one arena or in different ones |
| `MallocSpec.BlockBounds` | pintos/src/threads/malloc.c:268-294 | A block lies behind the header and inside the pages of its arena, and rounding its address down gives the arena |
| `MallocSpec.HeadersApart` | pintos/src/threads/malloc.c:268-294 | No allocated block overlaps the header of any arena, its own or another |
| `MallocSpec.FreeCountIs` | pintos/src/threads/malloc.c:218-255 | An arena's free count is the number of its blocks on the free list |
| `MallocSpec.GrabGood` | pintos/src/threads/malloc.c:149-153 | Taking a block keeps the heap invariants, and leaves no small arena without an allocated block |
| `MallocSpec.ReturnGood` | pintos/src/threads/malloc.c:238-242 | Returning a block keeps them, except that its arena may now be entirely free |
| `MallocSpec.RetireGood` | pintos/src/threads/malloc.c:242-253 | Giving that arena back restores them |
| `Lists.List.Insert` | pintos/src/lib/kernel/list.c:170-179 | The element stands in front of the given one, and the links are well formed both ways |
| `Lists.List.Remove` | pintos/src/lib/kernel/list.c:250-256 | Exactly the element is gone, and its successor is returned |
| `Lists.List.Splice` | pintos/src/lib/kernel/list.c:185-205 | A range moves in front of any element outside it; the links are well formed both ways |
| `Lists.List.SpliceFrom` | pintos/src/lib/kernel/list.c:185-205 | A range moves into another list; both lists are well formed and have no element in common |
| `Lists.List.Reverse` | pintos/src/lib/kernel/list.c:326-338 | The interior of the list is reversed in place, by a cursor that follows the links it has just swapped, and the links are well formed both ways |
| `Lists.MirroredTwice` | pintos/src/lib/kernel/list.c:326-338 | Reversing twice gives the list back |
| `Lists.List.FindEndOfRun` | pintos/src/lib/kernel/list.c:359-373 | The end of the first nondecreasing run |
| `Lists.List.InplaceMerge` | pintos/src/lib/kernel/list.c:381-400 | The two adjacent ranges are replaced by their merge, and the rest of the list is unchanged |
| `Lists.List.SortPass` | pintos/src/lib/kernel/list.c:421-437 | One pass merges adjacent runs in pairs and counts the runs it output |
| `Lists.List.Sort` | pintos/src/lib/kernel/list.c:406-441 | For every strict weak order the list ends well formed, sorted, and a stable permutation of what it was |
| `SortSpec.MergeSorted` | pintos/src/lib/kernel/list.c:381-400 | Merging two sorted sequences gives a sorted one |
| `SortSpec.MergeStable` | pintos/src/lib/kernel/list.c:381-400 | Merging keeps equivalent elements in order, those of the first run first |
| `SortSpec.OutputRunsHalve` | pintos/src/lib/kernel/list.c:421-437 | A pass outputs half of the runs, rounded up |
| `SortSpec.PassShrinks` | pintos/src/lib/kernel/list.c:415-438 | Unless a pass output a single run, the number of maximal runs is at least halved, so the outer loop ends |
| `SortSpec.PassIsStable` | pintos/src/lib/kernel/list.c:421-437 | A pass is a stable permutation |
| `SortSpec.LastPassSorts` | pintos/src/lib/kernel/list.c:415-438 | A pass that outputs one run leaves the sequence sorted |
| `SortSpec.SortIsStableSort` | pintos/src/lib/kernel/list.c:406-441 | Repeating passes gives a sorted, stable permutation of any input |
| `ListFamilies.Insert` | pintos/src/lib/kernel/list.c:170-179 | Linking an element that is on none of several disjoint lists into one of them leaves all of them well formed and disjoint, and the others unchanged |
| `ListFamilies.Remove` | pintos/src/lib/kernel/list.c:250-256 | Unlinking an element keeps all lists well formed and disjoint, and leaves the element on none |
| `ListFamilies.MoveFirst` | pintos/src/lib/kernel/hash.c:403-407 | The successor is read, the first element unlinked and pushed on the front of another list: the elements linked stay the same, and the cursor is the first element of what is left |
| `ListFamilies.ContainedIs` | pintos/src/lib/kernel/list.c:73-77 | What several disjoint lists link apart from their headers is what they contain |
| `HashSpec.OneEqual` | pintos/src/lib/kernel/hash.c:315-326 | No two elements of a table are equal, across all buckets |
| `HashSpec.AbsentIs` | pintos/src/lib/kernel/hash.c:132-135 | Looking in the one bucket of an element is looking in the whole table |
| `HashSpec.LeadingOne` | pintos/src/lib/kernel/hash.c:330-340 | Turning off the lowest bit spares the leading one, which alone is a power of two |
| `HashSpec.StepAgrees` | pintos/src/lib/kernel/hash.c:99-154 | Insert, replace, delete and find act on a set without equal members as on a map over equivalence classes of keys |
| `HashSpec.AnswerIs` | pintos/src/lib/kernel/hash.c:315-326 | An element found equal to a key is the one the map holds for it |
| `HashTables.HashTable.Execute` | pintos/src/lib/kernel/hash.c:98-154 | After any sequence of calls on the linked buckets, with any failures of memory for rehashing, the table stands for the map those calls build, and every call has returned what the map held; without failures it keeps fewer than four elements per bucket |
| `HashTables.HashInit` | pintos/src/lib/kernel/hash.c:25-42 | An empty table of four buckets, or failure exactly when there is no memory for them |
| `HashTables.HashTable.FindElem` | pintos/src/lib/kernel/hash.c:315-326 | Walking the links gives an equal element of the bucket, or none exactly when there is none |
| `HashSpec.IndexIsRemainder` | pintos/src/lib/kernel/hash.c:306-310 | The mask in `find_bucket` takes the hash value modulo the bucket count, for every power of two |
| `HashTables.HashTable.Find` | pintos/src/lib/kernel/hash.c:132-135 | The answer of the map, as an element that is linked in the table |
| `HashTables.HashTable.Insert` | pintos/src/lib/kernel/hash.c:99-110 | The old equal element, or the new one linked; exactly the old elements and perhaps the new one are linked afterwards, with or without memory for rehashing |
| `HashTables.HashTable.Replace` | pintos/src/lib/kernel/hash.c:115-127 | The new element takes the place of any equal one, which is unlinked and returned, even when it is the same element |
| `HashTables.HashTable.Delete` | pintos/src/lib/kernel/hash.c:145-154 | The equal element, if any, is unlinked and returned |
| `HashTables.HashTable.Push` | pintos/src/lib/kernel/hash.c:416-421 | An element without an equal is linked at the front of its bucket |
| `HashTables.HashTable.RemoveAt` | pintos/src/lib/kernel/hash.c:424-429 | Exactly the element is unlinked |
| `HashTables.HashTable.Rehash` | pintos/src/lib/kernel/hash.c:352-413 | The same element structures are linked and the same keys found whether or not memory is available; with it the table has fewer than four elements per bucket, and the bucket count stays a power of two |
| `HashTables.HashTable.Resize` | pintos/src/lib/kernel/hash.c:383-413 | The new buckets contain exactly what the old ones contained |
| `HashTables.HashTable.MoveBucket` | pintos/src/lib/kernel/hash.c:400-409 | The loop that unlinks under its own cursor moves every element of an old bucket to the front of its new one, and empties the old one |
| `HashTables.HashTable.MoveAll` | pintos/src/lib/kernel/hash.c:394-410 | All old buckets end empty, every element is in its bucket of the new table, and none is lost or doubled: the links of all lists stay well formed and disjoint |
| `HashTables.HashTable.Relink` | pintos/src/lib/kernel/hash.c:403-408 | One turn of that loop moves one element to the front of one new bucket, and gives the next element of the old one |
| `HashTables.IdealCount` | pintos/src/lib/kernel/hash.c:368-372 | The largest power of two not above half the element count, and at least four |
| `HashTables.HashIterator.Next` | pintos/src/lib/kernel/hash.c:219-235 | Following the links returns the element after the last one returned in bucket order, and null exactly after all of them |
| `HashTables.Visit` | pintos/src/lib/kernel/hash.c:182-235 | The iteration idiom returns every element exactly once |
| `SchedSpec.RunKeeps` | pintos/src/threads/thread.c:222-577 | Over every run of the scheduler exactly one thread runs, and the ready list is duplicate-free and equal to the ready threads other than idle |
| `SchedSpec.WaitsItsTurn` | pintos/src/threads/thread.c:502-577 | After n calls to `schedule` a thread at ready position k >= n waits at position k - n |
| `SchedSpec.RunsInTurn` | pintos/src/threads/thread.c:502-577 | A thread at ready position k runs at exactly the (k+1)st call to `schedule`, and not before |
| `SchedSpec.WholeSlice` | pintos/src/threads/thread.c:527-556 | Every switch starts a whole time slice: the thread switched to keeps the processor for three ticks, and the fourth gives it to the front of the ready list |
| `SchedSpec.OnlyExitFrees` | pintos/src/threads/thread.c:544-554 | A thread goes away exactly when it exits and is not the initial thread |
| `SchedSpec.RunsInTime` | pintos/src/threads/thread.c:129-146 | A thread at ready position k runs within 4(k+1) timer ticks |
| `ThreadQueues.Queues.LinkedIsQueued` | pintos/src/threads/thread.h:80-85 | A thread whose `elem` is linked is on the ready list or on a wait list, so a thread on no list has its `elem` free |
| `ThreadQueues.Queues.PushReady` | pintos/src/threads/thread.c:248-248 | Linking a thread on no list into the ready list puts it at the back, and leaves every wait list as it was although all share the threads' `elem`s |
| `ThreadQueues.Queues.PopReady` | pintos/src/threads/thread.c:502-508 | The front thread leaves the ready list, and no wait list changes |
| `Kernels.Kernel.NextThreadToRun` | pintos/src/threads/thread.c:502-508 | The front of the linked ready list, which it leaves, or the idle thread exactly when the list is empty; no wait list changes |
| `Kernels.Kernel.Schedule` | pintos/src/threads/thread.c:527-577 | The switch on the kernel's data is the switch of the state machine, which `WholeSlice` and `OnlyExitFrees` are about: the next thread runs with a new time slice, and a dying thread other than the initial one is freed; no wait list changes |
| `Kernels.Kernel.ThreadBlock` | pintos/src/threads/thread.c:223-230 | Blocking on the kernel's data is the block of the state machine |
| `Kernels.Kernel.ThreadUnblock` | pintos/src/threads/thread.c:241-252 | A thread on no list becomes ready at the back of the linked list |
| `Kernels.Kernel.ThreadYield` | pintos/src/threads/thread.c:311-324 | The running thread, whose `elem` is free, goes to the back of the ready list unless it is the idle thread |
| `Kernels.Kernel.ThreadExit` | pintos/src/threads/thread.c:290-306 | The running thread dies and another runs |
| `Kernels.Kernel.ThreadTick` | pintos/src/threads/thread.c:129-146 | The slice counter, with the yield when it is used up |
| `Kernels.Kernel.ThreadCreate` | pintos/src/threads/thread.c:171-215 | A new thread's `elem` is linked at the back of the ready list |
| `SynchInv.DownKeeps` | pintos/src/threads/synch.c:61-76 | One test of `sema_down`, sleeping or taking the semaphore, keeps the whole invariant |
| `SynchInv.UpPlainKeeps` | pintos/src/threads/synch.c:109-121 | `sema_up` by a thread or an interrupt handler keeps it |
| `SynchInv.UnlockKeeps` | pintos/src/threads/synch.c:230-238 | The up that ends `lock_release`, on its own or inside `cond_wait`, keeps it |
| `SynchInv.HolderKeeps` | pintos/src/threads/synch.c:193-238 | Setting the holder after the down, and clearing it before the up, keeps it |
| `SynchInv.EnqueueKeeps` | pintos/src/threads/synch.c:299-301 | Queueing in `cond_wait` with a fresh zero semaphore keeps it |
| `SynchInv.PopKeeps` | pintos/src/threads/synch.c:321-323 | Popping a waiter in `cond_signal` or `cond_broadcast` keeps it |
| `SynchInv.DeliverKeeps` | pintos/src/threads/synch.c:321-323 | The up of the popped waiter's semaphore keeps it |
| `SynchInv.ContinueAllowed` | pintos/src/threads/synch.c:289-304 | No assertion inside `sema_down`, `lock_acquire` or `cond_wait` fails |
| `SynchRuns.StepKeeps` | pintos/src/threads/synch.c:60-341 | Every step any thread or interrupt may take keeps the invariant |
| `SynchRuns.RunKeeps` | pintos/src/threads/synch.c:60-341 | So does every run, in every interleaving |
| `SynchRuns.OneListEach` | pintos/src/threads/thread.h:80-85 | In every reachable state one thread runs, and no thread is on two lists or on a list that does not go with its status |
| `SynchRuns.SemaphoreLaw` | pintos/src/threads/synch.c:60-121 | In every reachable state the recorded ups and downs account for a semaphore's value (that they are the ones made is `SynchCalls.ValueLaw`); if a thread waits, the value is at most the number of woken threads that have not tested again, and all of those are running or ready |
| `SynchRuns.MutualExclusion` | pintos/src/threads/synch.c:193-238 | At most one thread is past a lock's down and before its up, and acquiring never overwrites a holder |
| `SynchRuns.FreeWhenUnused` | pintos/src/threads/synch.c:193-238 | A lock's semaphore is 0 exactly while some thread is in it, and 1 otherwise |
| `SynchRuns.NoLostSignal` | pintos/src/threads/synch.c:289-341 | A thread in `cond_wait` is queued once with a zero semaphore, or popped by exactly one signal in flight, or signalled and not asleep |
| `SynchCalls.SemaStep` | pintos/src/threads/synch.c:61-121 | Each step raises a value by one exactly if it ups the semaphore and lowers it by one exactly if it completes a down; an up takes the front waiter off, and a failed test adds the running thread at the back |
| `SynchCalls.ValueLaw` | pintos/src/threads/synch.c:61-121 | Over every run, in every interleaving, the value of a semaphore or of a lock's semaphore changes by the ups made less the downs completed |
| `SynchCalls.PlainValueLaw` | pintos/src/threads/synch.c:109-121 | For a semaphore of its own the ups are the calls to `sema_up` by threads and interrupt handlers, counted in the run itself: none is dropped |
| `SynchCalls.WaitsInOrder` | pintos/src/threads/synch.c:61-121 | After j ups a thread at place k of a wait list waits at place k - j |
| `SynchCalls.WokenInTurn` | pintos/src/threads/synch.c:109-121 | It sleeps until the (k+1)st up, which puts it at the back of the ready list |
| `SynchCalls.DownReturns` | pintos/src/threads/synch.c:61-76 | A thread returns from `sema_down` having completed exactly one down, and is asleep in it without one before that |
| `SynchCalls.AcquireReturns` | pintos/src/threads/synch.c:193-200 | Whatever the others do meanwhile, a thread returns from `lock_acquire` only as the holder |
| `SynchCalls.TryAcquireReturns` | pintos/src/threads/synch.c:211-222 | `lock_try_acquire` changes nothing when some thread is in the lock, and otherwise returns as the holder |
| `SynchCalls.ReleaseReturns` | pintos/src/threads/synch.c:230-238 | A thread returns from `lock_release` out of the lock, whose semaphore is then 1 unless another thread is in it |
| `SynchCalls.SignalledInOrder` | pintos/src/threads/synch.c:290-323 | After j signals that found a waiter, the thread at place k of a condition's queue is at place k - j |
| `SynchCalls.WaitReturns` | pintos/src/threads/synch.c:290-304 | `cond_wait` queues the thread at the back and returns as the holder of the lock after exactly one signal to it |
| `SynchCalls.SignalReturns` | pintos/src/threads/synch.c:314-324 | `cond_signal` takes the front waiter off the queue and has signalled it exactly once when it returns, whatever other threads do meanwhile; the caller still holds the lock |
| `SynchCalls.SignalWakes` | pintos/src/threads/synch.c:314-324 | Undisturbed, it leaves the rest of the queue, the front waiter awake and the waiter's semaphore at 1 |
| `SynchCalls.BroadcastReturns` | pintos/src/threads/synch.c:334-341 | When `cond_broadcast` returns the queue is empty and every thread that was on it has been signalled |
| `SynchRuns.OnlyHolderQueues` | pintos/src/threads/synch.c:289-341 | Every step that changes a condition's queue is one the source asserts the lock to be held for |
| `SynchRuns.OnlyHolderReleases` | pintos/src/threads/synch.c:193-238 | A lock that has a holder changes hands only in a step of that holder |
| `SynchRuns.QueueUndisturbed` | pintos/src/threads/synch.c:289-341 | While a thread holds the lock, no run of other threads and interrupts between two of its steps changes the queue or takes the lock, so waits and signals are atomic |
| `SynchRuns.StepIsSchedulerStep` | pintos/src/threads/synch.c:60-121 | Every step is at most one scheduler operation, taken where the scheduler allows it |
| `SynchRuns.RunIsSchedulerRun` | pintos/src/threads/thread.c:222-577 | Every interleaving of threads that synchronise is a run of the scheduler, so its turn-taking holds there |
| `SynchRuns.ReadyRunsInTime` | pintos/src/threads/thread.c:129-146 | Whatever the threads do, a thread at ready position k runs before 4(k+1) timer ticks have passed |
| `ThreadQueues.Queues.PushWaiter` | pintos/src/threads/synch.c:70-70 | Linking a thread on no list into a wait list puts it at its back, and changes no other list |
| `ThreadQueues.Queues.PopWaiter` | pintos/src/threads/synch.c:116-117 | The front thread leaves the wait list, and no other list changes |
| `ThreadQueues.Queues.InitWaiters` | pintos/src/threads/synch.c:44-51 | A new empty wait list for a semaphore nobody waits on; the other lists stay |
| `Kernels.Kernel.CurrentFree` | pintos/src/threads/thread.h:80-85 | The running thread is on no list |
| `Kernels.WokenNowhere` | pintos/src/threads/thread.h:80-85 | The thread taken off the front of a wait list is then on no list at all |
| `Kernels.Kernel.SemaDown` | pintos/src/threads/synch.c:61-76 | One turn of the loop of `sema_down` on values and linked lists is the step of the state machine, sleeping or taking |
| `Kernels.Kernel.SemaSleep` | pintos/src/threads/synch.c:68-72 | The `elem` of the running thread, which is free, goes to the back of the wait list before the thread blocks |
| `Kernels.Kernel.SemaInit` | pintos/src/threads/synch.c:44-51 | A semaphore used for the first time has its initial value and an empty wait list |
| `Kernels.Kernel.SemaUp` | pintos/src/threads/synch.c:109-121 | `sema_up` on values and linked lists is the step of the state machine: the `elem` of the woken thread moves from the wait list to the ready list |
| `Kernels.Kernel.SemaTryDown` | pintos/src/threads/synch.c:84-103 | `sema_try_down` takes the semaphore exactly when its value is positive |
| `Kernels.Kernel.SemaDrain` | pintos/src/threads/synch.c:84-103 | The same in an interrupt handler, which is no step of the running thread |
| `Kernels.Kernel.UpGuard` | pintos/src/threads/synch.c:236-237 | The up of the lock's semaphore in `lock_release` |
| `Kernels.Kernel.StartWait` | pintos/src/threads/synch.c:299-300 | A fresh zero semaphore with an empty wait list, and a place at the back of the queue |
| `Kernels.Kernel.DeliverSignal` | pintos/src/threads/synch.c:321-323 | The up of the popped waiter's semaphore |
| `Kernels.Kernel.Continue` | pintos/src/threads/synch.c:60-341 | Wherever the running thread stands, its next step on the kernel's data is the next step of the state machine |
| `Kernels.Kernel.Step` | pintos/src/threads/synch.c:60-341 | Every step of a thread or an interrupt on statuses, values and linked lists is the step of the state machine |
| `Kernels.Kernel.Execute` | pintos/src/threads/synch.c:60-341 | Every run of the state machine, in every interleaving, is carried out on the linked ready and wait lists, which stay well formed and disjoint with one `elem` per thread |
| `Arithmetic.Divl` | pintos/src/lib/arithmetic.c:26-37 | The divide instruction where it does not trap |
| `Arithmetic.Nlz` | pintos/src/lib/arithmetic.c:42-73 | The shift that brings the leading one of a nonzero word to the top |
| `Arithmetic.Udiv64` | pintos/src/lib/arithmetic.c:78-127 | The exact floor quotient of any two 64-bit numbers, the divisor nonzero; the divide instruction never traps |
| `Arithmetic.DivideNarrow` | pintos/src/lib/arithmetic.c:106-111 | The branch for a divisor of 32 bits |
| `Arithmetic.Estimate` | pintos/src/lib/arithmetic.c:121-123 | The normalised estimate is the quotient or one more |
| `Arithmetic.Correct` | pintos/src/lib/arithmetic.c:124-124 | The correction gives the quotient, and nothing in it wraps around |
| `Arithmetic.Umod64` | pintos/src/lib/arithmetic.c:132-135 | The low 32 bits of the remainder, and so the remainder for divisors up to 2 to the 32 or dividends below it |
| `Arithmetic.ExactModulus` | pintos/src/lib/arithmetic.c:132-135 | `umod64` is exact for every dividend if and only if the divisor is at most 2 to the 32; above that it loses 2 to the 32 |
| `Arithmetic.Sdiv64` | pintos/src/lib/arithmetic.c:140-146 | Truncates toward zero if and only if it is not the smallest number divided by -1 |
| `Arithmetic.LostQuotient` | pintos/src/lib/arithmetic.c:140-146 | What that one division gives |
| `Arithmetic.Smod64` | pintos/src/lib/arithmetic.c:151-154 | The low 32 bits of the remainder with their sign, and so the remainder for divisors of magnitude up to 2 to the 31 or dividends that fit 32 bits |
| `Arithmetic.ExactSignedModulus` | pintos/src/lib/arithmetic.c:151-154 | `smod64` is exact for every dividend if and only if the divisor has magnitude at most 2 to the 31 |
| `Arithmetic.LostSignedRemainder` | pintos/src/lib/arithmetic.c:151-154 | For any larger divisor the remainder of 2 to the 31 comes out negative |
| `HeapSort.Sink` | pintos/src/lib/stdlib.c:101-122 | A step down moves the one place where the heap property may fail to a child |
| `HeapSort.RootIsGreatest` | pintos/src/lib/stdlib.c:147-151 | The root of a heap is its greatest element |
| `HeapSort.Heapify` | pintos/src/lib/stdlib.c:97-123 | Extends the heap by one element, rearranging only the first `cnt` |
| `HeapSort.BuildHeap` | pintos/src/lib/stdlib.c:143-144 | The first loop makes a heap of any array |
| `HeapSort.Sort` | pintos/src/lib/stdlib.c:132-152 | A sorted permutation of any array, for every total preorder |
| `HeapSort.BinarySearch` | pintos/src/lib/stdlib.c:185-207 | On a sorted array finds a matching element exactly when there is one |
| `UstarSpec.StripIsSafe` | pintos/src/lib/ustar.c:66-73 | A stripped name is a suffix of the name or ".", starts with none of the three prefixes, is neither empty nor "..", and stripping it again changes nothing |
| `UstarSpec.StripDropsPieces` | pintos/src/lib/ustar.c:66-73 | If the name is any number of pieces "/", "./" and "../" before a rest that starts with none of them, the stripped name is that rest, or "." if it is empty or ".." |
| `UstarSpec.HasPieces` | pintos/src/lib/ustar.c:66-73 | Every name is such pieces before such a rest, so the stripped name is always known exactly |
| `UstarSpec.OctalRoundTrip` | pintos/src/lib/ustar.c:130-162 | Octal printing and parsing are inverse within the field width |
| `UstarSpec.ParsesOctal` | pintos/src/lib/ustar.c:130-162 | A field of octal digits that ends in a null byte or a blank has their value, or none exactly if there are no digits or the value does not fit 32 bits |
| `UstarSpec.ParsesOnlyOctal` | pintos/src/lib/ustar.c:130-162 | No other field has a value |
| `UstarSpec.SumIgnoresField` | pintos/src/lib/ustar.c:37-54 | The checksum does not depend on its own field |
| `UstarSpec.ParseMade` | pintos/src/lib/ustar.c:83-227 | Parsing a made header gives the stripped name and the type, size 0 for a directory, and the size of a regular file if and only if it is not negative; otherwise the file is too large |
| `UstarSpec.MadeLayout` | pintos/src/lib/ustar.c:83-118 | Where every byte of a header is: name, mode, owner, size, time, checksum, type, magic, version and names at their offsets, and zeros everywhere else |
| `UstarSpec.ChecksumIsTotal` | pintos/src/lib/ustar.c:37-54 | The checksum is the sum of all bytes with its own field taken to be eight blanks |
| `UstarSpec.Accepted` | pintos/src/lib/ustar.c:182-227 | A header is accepted exactly if it has the magic, version 00, the right checksum, a name that ends in its field and has no prefix, and the type of a directory, or of a file whose size is an octal `int` |
| `UstarSpec.OneByteChanged` | pintos/src/lib/ustar.c:182-227 | Changing any one byte of an accepted header outside the checksum makes it refused |
| `UstarSpec.ParsedAgain` | pintos/src/lib/ustar.c:83-227 | Whatever is parsed makes a header again that parses to the same name, type and size |
| `Ustar.StripAntisocialPrefixes` | pintos/src/lib/ustar.c:66-73 | The pointer loop computes the stripped name, which `StripDropsPieces` determines |
| `Ustar.CalculateChksum` | pintos/src/lib/ustar.c:37-54 | The loop computes the checksum |
| `Ustar.FormatOctal` | pintos/src/lib/stdio.c:470-547 | Zero-padded octal digits of a value |
| `Ustar.MakeHeader` | pintos/src/lib/ustar.c:83-118 | Fills the buffer with the header, or leaves it alone exactly when the stripped name is too long |
| `Ustar.ParseOctalField` | pintos/src/lib/ustar.c:130-162 | The loop computes the value or refuses the field |
| `Ustar.ParseHeaderBytes` | pintos/src/lib/ustar.c:182-227 | The checks in order, with the error each one gives |
| `PageTables.SplitAddress` | pintos/src/threads/pte.h:32-39 | Directory index, table index and offset determine an address, and user addresses are those with a directory index below 768 |
| `PageTables.EntryRoundTrip` | pintos/src/threads/pte.h:71-104 | Entries are present and give back the page they were made from |
| `PageDirs.StoreEntry` | pintos/src/userprog/pagedir.c:99-119 | Storing an entry changes the entry of that page and of no other address |
| `PageDirs.NewTable` | pintos/src/userprog/pagedir.c:69-81 | A new zeroed table changes no entry |
| `PageDirs.PagedirCreate` | pintos/src/userprog/pagedir.c:17-23 | A new directory maps no user page and has the kernel's entries; fails exactly when there is no page for it |
| `PageDirs.PageDir.LookupPage` | pintos/src/userprog/pagedir.c:57-86 | Finds the table through a present directory entry, or creates it when asked and given memory; no entry changes |
| `PageDirs.PageDir.SetPage` | pintos/src/userprog/pagedir.c:99-119 | The map from user pages to frames gains exactly this page, with the asked permission; the entry of every other address stays as it was; nothing changes exactly when a new table is needed and there is no page for it |
| `PageDirs.PageDir.GetPageAt` | pintos/src/userprog/pagedir.c:126-137 | The mapped frame plus the offset, or null exactly when the page is unmapped |
| `PageDirs.PageDir.ClearPage` | pintos/src/userprog/pagedir.c:144-157 | The map loses exactly this page; the other bits of its entry and all other entries stay |

## Left out

- Doubly indirect files: `byte_to_sector` and `add_inode` compute different inner indices there, so files are limited to 124 + 128 sectors.
- Allocation failure in `inode_create` and `add_inode`, which go on with unset pointers: enough free sectors are required.
- Concurrency inside one cache or file-system call: each call is one step, because `cache_write` drops its lock between scanning and replacing.
- The free map's own file, path lookup, working directories, `file_seek` and its like, and the system calls.
- `list_unique`, `list_insert_ordered`, `hash_apply`, `hash_clear`, `realloc` and `calloc`: they would add easier members.
- Processes, priorities and the advanced scheduler (stubs in this kernel), device drivers, the console, ELF loading, tests and host utilities.
- `thread_create` is one step: the lock around the thread identifier counter and the page allocation are not part of it, and a thread is named by its page, so a page that is used again names a new thread.
- Time spent with interrupts off by a caller of `sema_down`, and calls to `thread_block` outside the semaphores and the idle thread (the interrupt queues of the drivers).
- CacheSpec.WriteRefines: reference counts are unbounded integers, so it says nothing about 2^31 accesses without one to a cached sector.
- Cache.BlockCache.ReadBytes: memory for the bounce buffer is assumed; without it the source returns silently.
- Cache.BlockCache.WriteBytes: memory for the bounce buffer is assumed; without it the source returns false.
- Inodes.Volume.AllocateZeroed: requires a free sector.
- Inodes.Volume.FillPointers: requires as many free sectors as slots to fill.
- Inodes.Volume.Grow: covers files of up to 252 sectors with enough free sectors for the growth.
- Inodes.Volume.GrowIndirect: the same limits as `Grow`.
- Inodes.Volume.ByteToSector: covers files of up to 252 sectors.
- Inodes.Volume.Extend: the same limits as `Grow`.
- Inodes.Volume.WriteAt: the same limits as `Grow`.
- Inodes.Volume.CreateFile: the same limits, and the header sector must be marked used and belong to no file.
- FileSystems.FileSystem.Create: files of up to 252 sectors, with enough free sectors.
- FileSystems.FileSystem.Write: the same limits, where the write is not denied.
- FileSystems.FileSystem.CreateRemoveClose: the same limits as `Create`.
- FileSystems.FileSystem.Close: requires that a closer who denied writes has allowed them again, as the source asks; `OpenFiles.FileTable.Close` always does.
- OpenInodes.OpenTable.Close: the same.
- OpenFiles.FileTable.Write: the same limits as `Write` of the file system, where no handle denies.
- OpenInodes.OpenTable.Open: an open inode is a record found by its sector, not an object with identity on a linked list, and memory for the record is assumed.
- Directories.CreateDir: the same limits as `Create`.
- Directories.Add: where the entry will be written, requires room for it in the directory file and in the free map.
- Directories.RemoveEntry: requires that every entry names an existing file, which creation, `Add` of an existing file and removal of a name that is the only one keep.
- Directories.AddThenRemove: the same limits as `Add`, and the file added is not a directory.
- Directories.MakeRoot: `do_format` also creates the free map's own file, which is not modelled.
- Palloc.PageAllocator.GetMultiple: page contents are not modelled, so neither is the zeroing that PAL_ZERO asks for; the panic that PAL_ASSERT asks for is the case of no pages.
- Palloc.PageAllocator.FreeMultiple: frees whole outstanding runs; freeing part of a run is not covered, nor is filling pages with 0 or 0xcc.
- Malloc.Heap.Malloc: blocks are named by page and index, free lists are sequences, and block contents and the header's magic number are not modelled; `LiveDisjoint`, `BlockBounds` and `HeadersApart` are about the addresses.
- HashTables.HashTable.Execute: elements must not be list headers of the table, and the key of an element must not change while it is linked.
- SynchRuns.SemaphoreLaw: the value does not wrap around at 2^32.
- SynchCalls.BroadcastReturns: the caller holds the lock, as the source asks of it; without the lock other threads may be signalling.
- Kernels.Kernel.Schedule: the stack switch and the activation of page tables are not part of it.
- Kernels.Kernel.StartWait: the queues of condition variables, whose elements are on the waiters' stacks, are sequences of threads; the ready list and the wait lists are linked.
- Kernels.Kernel.ThreadCreate: the page of the new thread, and with it its `elem`, is given; without a page the source returns an error and changes nothing.
- Kernels.Kernel.SemaInit: a semaphore that is in no initial state starts at 0, and a lock's at 1; other initial values come with the initial state.
- HeapSort.Sort: elements are values, so the byte loop of `do_swap` and index overflow are not covered.
- Ustar.FormatOctal: the zero-padded octal conversion only, not the other flags and bases of `format_integer`.
- PageDirs.PageDir.SetPage: the allocated page is a parameter, and the TLB and the accessed and dirty bits are not modelled.
- Arithmetic.Divl: the trap of the instruction is a precondition, proved at every use.
