/** Files from creation to the release of their sectors. */
module FileSystems {
  import opened Options
  import opened Sectors
  import opened Bits
  import opened Bitmaps
  import opened Cache
  import opened InodeLayout
  import opened InodeSpec
  import opened FileSpec
  import opened Inodes
  import opened OpenInodes

  /** Disks of 1 GB and more are not used (devices/ide.c), so every sector number is below this:
      far below the addresses of kernel memory, and below LAST_INODE_SECTOR. */
  const MAX_DEVICE: nat := 0x20_0000

  class FileSystem {
    const vol: Volume
    const table: OpenTable
    /** The header sectors of the files that exist, and the sectors set aside for headers. */
    ghost var files: set<nat>
    ghost var reserved: set<nat>

    ghost predicate DiskOk()
      reads this, vol, vol.cache, vol.cache.entries, vol.freeMap.words
    {
      && vol.Valid() && |vol.Seen()| <= MAX_DEVICE
      && FsInv(vol.Seen(), vol.Used(), files)
      && Accounted(vol.Seen(), vol.Used(), files, reserved)
    }

    /** Only existing files are open. */
    ghost predicate OpenOk()
      reads this, table
    {
      table.Valid() && forall i :: 0 <= i < |table.inodes| ==> table.inodes[i].sector in files
    }

    lemma OpenListOk()
      requires OpenOk()
      ensures ListOk(table.inodes)
    {
    }

    constructor (device: Disk)
      requires 2 <= |device| <= MAX_DEVICE
      ensures DiskOk() && OpenOk() && table.inodes == []
      ensures files == {} && reserved == {FREE_MAP_SECTOR, ROOT_DIR_SECTOR}
      ensures fresh(vol) && fresh(vol.cache) && fresh(vol.cache.entries) && fresh(vol.freeMap.words) && fresh(table)
    {
      hide BlockCache.Valid, BlockCache.Seen, FileOwned, FileOk;
      vol := new Volume(device);
      table := new OpenTable();
      files, reserved := {}, {FREE_MAP_SECTOR, ROOT_DIR_SECTOR};
    }

    /** `free_map_allocate` for the header of a new file. */
    method AllocateHeader() returns (r: Option<nat>)
      requires DiskOk() && OpenOk()
      modifies this, vol.freeMap.words
      ensures DiskOk() && OpenOk() && vol.Seen() == old(vol.Seen())
      ensures files == old(files)
      ensures r.None? ==> FreeCount(old(vol.Used())) == 0 && vol.Used() == old(vol.Used()) && reserved == old(reserved)
      ensures r.Some? ==> r.value < |old(vol.Used())| && !old(vol.Used())[r.value]
      ensures r.Some? ==> vol.Used() == old(vol.Used())[r.value := true]
      ensures r.Some? ==> reserved == old(reserved) + {r.value}
    {
      hide Volume.Valid, FsInv, Accounted, FreeCount;
      r := vol.Allocate();
      if r.Some? {
        ReservedOneMore(vol.Seen(), old(vol.Used()), files, reserved, r.value);
        reserved := reserved + {r.value};
      }
    }

    /** Record that file `s` has been created. */
    ghost method Commit(v: Disk, u: seq<bool>, s: nat, c: seq<byte>)
      requires vol.Valid() && OpenOk() && |v| <= MAX_DEVICE
      requires FsInv(v, u, files) && Accounted(v, u, files, reserved) && s in reserved && s !in files
      requires OnlyFile(v, u, vol.Seen(), vol.Used(), files + {s}, s, {s}, c)
      modifies this
      ensures DiskOk() && OpenOk()
      ensures files == old(files) + {s} && reserved == old(reserved) - {s}
      ensures vol.Seen() == old(vol.Seen()) && vol.Used() == old(vol.Used())
    {
      hide Volume.Valid, FsInv, Accounted, OnlyFile, FileOwned, FileOk;
      OnlyFileAccounted(v, u, vol.Seen(), vol.Used(), files, files + {s}, reserved, s, {s}, c);
      OnlyFileInv(v, u, vol.Seen(), vol.Used(), files + {s}, s, {s}, c);
      files, reserved := files + {s}, reserved - {s};
    }

    /** `inode_create` */
    method Create(s: nat, length: Word) returns (success: bool)
      requires DiskOk() && OpenOk() && s in reserved && length <= MAX_LENGTH
      requires FreeCount(vol.Used()) >= SectorsNeeded(0, length)
      modifies this, vol.cache, vol.cache.entries, vol.freeMap.words
      ensures DiskOk() && OpenOk() && success
      ensures files == old(files) + {s} && reserved == old(reserved) - {s}
      ensures OnlyFile(old(vol.Seen()), old(vol.Used()), vol.Seen(), vol.Used(), files, s, {s}, ZeroExtend([], length))
    {
      ghost var v, u := vol.Seen(), vol.Used();
      ReservedApart(v, u, files, reserved, s);
      hide Volume.Valid, FsInv, Accounted, OnlyFile, FreeCount, FileOwned, FileOk, SectorsNeeded;
      vol.CreateFile(s, length, files);
      Commit(v, u, s, ZeroExtend([], length));
      success := true;
    }

    /** `inode_write_at` */
    method Write(s: nat, buffer: seq<byte>, offset: nat) returns (n: nat)
      requires DiskOk() && OpenOk() && IsOpen(table.inodes, s)
      requires Get(table.inodes, s).denyWriteCnt == 0 ==>
                 && offset + |buffer| <= MAX_LENGTH
                 && FreeCount(vol.Used()) >= SectorsNeeded(|FileBytes(vol.Seen(), s)|, offset + |buffer|)
      modifies vol.cache, vol.cache.entries, vol.freeMap.words
      ensures DiskOk() && OpenOk()
      ensures Get(table.inodes, s).denyWriteCnt != 0 ==>
                n == 0 && vol.Seen() == old(vol.Seen()) && vol.Used() == old(vol.Used())
      ensures Get(table.inodes, s).denyWriteCnt == 0 ==>
                && n == |buffer|
                && OnlyFile(old(vol.Seen()), old(vol.Used()), vol.Seen(), vol.Used(), files, s,
                            FileOwned(old(vol.Seen()), s),
                            Overwrite(ZeroExtend(FileBytes(old(vol.Seen()), s), offset + |buffer|), buffer, offset))
    {
      assert s in files;
      hide *;
      if Get(table.inodes, s).denyWriteCnt != 0 {
        return 0;
      }
      n := WriteFile(s, buffer, offset);
    }

    method WriteFile(s: nat, buffer: seq<byte>, offset: nat) returns (n: nat)
      requires DiskOk() && OpenOk() && s in files && offset + |buffer| <= MAX_LENGTH
      requires FreeCount(vol.Used()) >= SectorsNeeded(|FileBytes(vol.Seen(), s)|, offset + |buffer|)
      modifies vol.cache, vol.cache.entries, vol.freeMap.words
      ensures DiskOk() && OpenOk()
      ensures n == |buffer|
      ensures OnlyFile(old(vol.Seen()), old(vol.Used()), vol.Seen(), vol.Used(), files, s,
                       FileOwned(old(vol.Seen()), s),
                       Overwrite(ZeroExtend(FileBytes(old(vol.Seen()), s), offset + |buffer|), buffer, offset))
    {
      hide Volume.Valid, FsInv, Accounted, OnlyFile, FreeCount, FileOwned, FileOk, SectorsNeeded, FileBytes, Overwrite;
      ghost var v, u := vol.Seen(), vol.Used();
      FileInFs(v, u, files, s);
      n := vol.WriteAt(s, buffer, offset, files);
      WrittenAccounted(v, u, vol.Seen(), vol.Used(), files, reserved, s,
                       Overwrite(ZeroExtend(FileBytes(v, s), offset + |buffer|), buffer, offset));
    }

    /** `inode_read_at` */
    method Read(s: nat, buffer: seq<byte>, size: nat, offset: nat) returns (n: int, out: seq<byte>)
      requires DiskOk() && OpenOk() && IsOpen(table.inodes, s) && size <= |buffer|
      modifies vol.cache, vol.cache.entries
      ensures DiskOk() && OpenOk() && vol.Seen() == old(vol.Seen()) && |out| == |buffer|
      ensures IsRead(FileBytes(vol.Seen(), s), buffer, size, offset, n, out)
    {
      assert FileOk(vol.Seen(), s);
      hide Volume.Valid, FsInv, Accounted, FileOk, FileBytes, IsRead;
      n, out := vol.ReadAt(s, buffer, size, offset);
    }

    /** `inode_open` */
    method Open(s: nat)
      requires DiskOk() && OpenOk() && s in files
      modifies table
      ensures DiskOk() && OpenOk() && table.inodes == Opened(old(table.inodes), s)
    {
      hide Volume.Valid, FsInv, Accounted;
      table.Open(s);
    }

    /** `inode_remove` */
    method Remove(s: nat)
      requires DiskOk() && OpenOk() && IsOpen(table.inodes, s)
      modifies table
      ensures DiskOk() && OpenOk() && table.inodes == Marked(old(table.inodes), s)
    {
      hide Volume.Valid, FsInv, Accounted;
      table.Remove(s);
    }

    /** `inode_close`: the last close of a removed inode releases its sectors. That ends in a kernel
        panic for a file with an indirect block, because `deallocate_inode` takes the address of
        the pointer for a sector number. */
    method Close(s: nat) returns (panic: bool)
      requires DiskOk() && OpenOk() && IsOpen(table.inodes, s)
      requires Get(table.inodes, s).denyWriteCnt < Get(table.inodes, s).openCnt
      modifies this, table, vol.cache, vol.cache.entries, vol.freeMap.words
      ensures panic <==> IsLastClose(old(table.inodes), s) && IsLarge(old(vol.Seen()), s)
      ensures table.inodes == Closed(old(table.inodes), s) && reserved == old(reserved)
      ensures !panic ==> DiskOk() && OpenOk() && vol.Seen() == old(vol.Seen())
      ensures !panic ==>
                if IsLastClose(old(table.inodes), s) then
                  files == old(files) - {s} && vol.Used() == Released(old(vol.Used()), FileOwned(old(vol.Seen()), s))
                else
                  files == old(files) && vol.Used() == old(vol.Used())
    {
      ClosedInFiles(table.inodes, s, files);
      hide Volume.Valid, FsInv, Accounted, FileOk, FileOwned, InodeAt, Closed, Find;
      panic := false;
      var removed := Get(table.inodes, s).removed;
      var last := table.Close(s);
      if last && removed {
        panic := Delete(s);
      }
    }

    /** Closing an inode right after opening it undoes the open. */
    method CloseAgain(s: nat, ghost t: OpenList)
      requires DiskOk() && OpenOk() && ListOk(t) && table.inodes == Opened(t, s)
      modifies this, table, vol.cache, vol.cache.entries, vol.freeMap.words
      ensures DiskOk() && OpenOk() && table.inodes == t && files == old(files) && reserved == old(reserved)
      ensures vol.Seen() == old(vol.Seen()) && vol.Used() == old(vol.Used())
    {
      OpenedOk(t, s);
      OpenThenClose(t, s);
      NotLastClose(t, s);
      hide *;
      var _ := Close(s);
    }

    /** Removing an inode right after opening it, and closing it: its file goes now if nobody else
        has it open, and is marked otherwise. */
    method RemoveAndClose(s: nat, ghost t: OpenList) returns (panic: bool)
      requires DiskOk() && OpenOk() && ListOk(t) && table.inodes == Opened(t, s)
      modifies this, table, vol.cache, vol.cache.entries, vol.freeMap.words
      ensures table.inodes == if IsOpen(t, s) then Marked(t, s) else t
      ensures panic <==> !IsOpen(t, s) && IsLarge(old(vol.Seen()), s)
      ensures !panic ==> DiskOk() && OpenOk() && vol.Seen() == old(vol.Seen())
      ensures !panic ==> files == if IsOpen(t, s) then old(files) else old(files) - {s}
    {
      hide Volume.Valid, FsInv, Accounted, FileOwned, Opened, Closed, Marked, Find, ListOk, IsLarge, Released;
      OpenedOk(t, s);
      OpenMarkClose(t, s);
      Remove(s);
      panic := Close(s);
    }

    /**
     * The whole life of a file: it is created, opened, removed and closed. If it has at most 124
     * sectors, every sector it took is free again; a longer one ends in the kernel panic.
     */
    method CreateRemoveClose(length: Word) returns (panic: bool)
      requires DiskOk() && OpenOk() && length <= MAX_LENGTH
      requires FreeCount(vol.Used()) >= 1 + SectorsNeeded(0, length)
      modifies this, table, vol.cache, vol.cache.entries, vol.freeMap.words
      ensures panic <==> length > DIRECT_CNT * SECTOR_SIZE
      ensures table.inodes == old(table.inodes) && reserved == old(reserved)
      ensures !panic ==> DiskOk() && OpenOk() && files == old(files) && vol.Used() == old(vol.Used())
    {
      hide Volume.Valid, FsInv, Accounted, FreeCount, FileOwned, FileOk, SectorsNeeded, FileBytes, OnlyFile, Opened;
      hide Find, ListOk, IsLarge, Released, ZeroExtend;
      hide Closed, Marked;
      ghost var u, t, kept := vol.Used(), table.inodes, reserved;
      var r := AllocateHeader();
      var s := r.value;
      FreeCountTake(u, s);
      FreeNotReserved(vol.Seen(), u, files, kept, s);
      ghost var v1, u1 := vol.Seen(), vol.Used();
      NotOpenYet(t, files, v1, u1, reserved, s);
      var success := Create(s, length);
      LargeFile(v1, u1, vol.Seen(), vol.Used(), files, s, length);
      CreateThenDelete(v1, u1, vol.Seen(), vol.Used(), files, s, ZeroExtend([], length));
      Open(s);
      OpenedOk(t, s);
      OpenMarkClose(t, s);
      Remove(s);
      panic := Close(s);
      assert u[s := true][s := false] == u;
    }

    /** Release the sectors of a removed file that nobody has open. */
    method Delete(s: nat) returns (panic: bool)
      requires DiskOk() && OpenOk() && s in files && !IsOpen(table.inodes, s)
      modifies this, vol.cache, vol.cache.entries, vol.freeMap.words
      ensures panic <==> IsLarge(old(vol.Seen()), s)
      ensures reserved == old(reserved) && (panic ==> files == old(files))
      ensures !panic ==> DiskOk() && OpenOk() && vol.Seen() == old(vol.Seen()) && files == old(files) - {s}
      ensures !panic ==> vol.Used() == Released(old(vol.Used()), FileOwned(vol.Seen(), s))
    {
      DeletedFile(vol.Seen(), vol.Used(), files, reserved, s);
      hide Volume.Valid, FsInv, Accounted, FileOwned, FileOk;
      panic := vol.DeleteFile(s, files);
      if !panic {
        Forget(s);
      }
    }

    /** Record that file `s` no longer exists. */
    ghost method Forget(s: nat)
      requires vol.Valid() && |vol.Seen()| <= MAX_DEVICE && OpenOk() && !IsOpen(table.inodes, s)
      requires FsInv(vol.Seen(), vol.Used(), files - {s})
      requires Accounted(vol.Seen(), vol.Used(), files - {s}, reserved)
      modifies this
      ensures DiskOk() && OpenOk() && files == old(files) - {s} && reserved == old(reserved)
      ensures vol.Seen() == old(vol.Seen()) && vol.Used() == old(vol.Used())
    {
      hide Volume.Valid, FsInv, Accounted;
      files := files - {s};
    }
  }

  /** A close by the only opener of a removed inode. */
  predicate IsLastClose(t: OpenList, s: nat)
    requires IsOpen(t, s)
  {
    Get(t, s).openCnt == 1 && Get(t, s).removed
  }

  /** Closing what has just been opened is never the last close of a removed inode. */
  lemma NotLastClose(t: OpenList, s: nat)
    requires ListOk(t)
    ensures IsOpen(Opened(t, s), s) && !IsLastClose(Opened(t, s), s)
  {
    OpenedOk(t, s);
  }

  lemma ClosedInFiles(t: OpenList, s: nat, files: set<nat>)
    requires ListOk(t) && IsOpen(t, s) && forall i :: 0 <= i < |t| ==> t[i].sector in files
    requires Get(t, s).denyWriteCnt < Get(t, s).openCnt
    ensures s in files && forall i :: 0 <= i < |Closed(t, s)| ==> Closed(t, s)[i].sector in files
    ensures Get(t, s).openCnt == 1 ==> !IsOpen(Closed(t, s), s)
  {
    ClosedOk(t, s);
  }

  lemma ReservedOneMore(v: Disk, u: seq<bool>, files: set<nat>, reserved: set<nat>, b: nat)
    requires FsInv(v, u, files) && Accounted(v, u, files, reserved) && b < |u| && !u[b]
    ensures FsInv(v, u[b := true], files) && Accounted(v, u[b := true], files, reserved + {b})
  {
    assert forall t, x :: t in files && x in FileOwned(v, t) ==> x < |u|;
    hide FileOwned, FileOk;
  }

  lemma FreeNotReserved(v: Disk, u: seq<bool>, files: set<nat>, reserved: set<nat>, s: nat)
    requires FsInv(v, u, files) && Accounted(v, u, files, reserved) && s < |u| && !u[s]
    ensures s !in reserved
  {
  }

  /** A sector set aside for a header is not open, and the file made of it is new. */
  lemma NotOpenYet(t: OpenList, files: set<nat>, v: Disk, u: seq<bool>, reserved: set<nat>, s: nat)
    requires FsInv(v, u, files) && Accounted(v, u, files, reserved) && s in reserved
    requires forall i :: 0 <= i < |t| ==> t[i].sector in files
    ensures s < |u| && u[s] && s !in files && !IsOpen(t, s)
  {
    ReservedApart(v, u, files, reserved, s);
  }

  /** A file of at most 124 sectors has no indirect block. */
  lemma LargeFile(v: Disk, u: seq<bool>, w: Disk, u': seq<bool>, files: set<nat>, s: nat, length: nat)
    requires OnlyFile(v, u, w, u', files, s, {s}, ZeroExtend([], length))
    ensures IsLarge(w, s) <==> length > DIRECT_CNT * SECTOR_SIZE
  {
  }

  lemma ReservedApart(v: Disk, u: seq<bool>, files: set<nat>, reserved: set<nat>, s: nat)
    requires FsInv(v, u, files) && Accounted(v, u, files, reserved) && s in reserved
    ensures s < |v| && u[s] && s !in files && forall t :: t in files ==> s !in FileOwned(v, t)
  {
    assert forall t :: t in files ==> t in FileOwned(v, t);
  }

  lemma OnlyFileInv(v: Disk, u: seq<bool>, w: Disk, u': seq<bool>, files: set<nat>, s: nat, was: set<nat>, c: seq<byte>)
    requires OnlyFile(v, u, w, u', files, s, was, c)
    ensures FsInv(w, u', files) && |w| == |v|
  {
  }
}
