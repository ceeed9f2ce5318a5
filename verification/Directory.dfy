/** Directory operations on top of the file system. */
module Directories {
  import opened Options
  import opened CStrings
  import opened Sectors
  import opened Bits
  import opened Bitmaps
  import opened InodeSpec
  import opened FileSpec
  import opened Inodes
  import opened OpenInodes
  import opened FileSystems
  import opened DirSpec

  /** The inode of sector `d` is open in a consistent file system. */
  ghost predicate Ready(fs: FileSystem, d: nat)
    reads fs, fs.table, fs.vol, fs.vol.cache, fs.vol.cache.entries, fs.vol.freeMap.words
  {
    fs.DiskOk() && fs.OpenOk() && IsOpen(fs.table.inodes, d)
  }

  /** The bytes of an open file. */
  ghost function Bytes(fs: FileSystem, d: nat): seq<byte>
    reads fs, fs.table, fs.vol, fs.vol.cache, fs.vol.cache.entries, fs.vol.freeMap.words
    requires Ready(fs, d)
  {
    FileBytes(fs.vol.Seen(), d)
  }

  /** `dir_create`: a file of zeros, which is a directory without entries. */
  method CreateDir(fs: FileSystem, s: nat, entryCnt: nat) returns (success: bool)
    requires fs.DiskOk() && fs.OpenOk() && s in fs.reserved && entryCnt * ENTRY_SIZE <= MAX_LENGTH
    requires FreeCount(fs.vol.Used()) >= SectorsNeeded(0, entryCnt * ENTRY_SIZE)
    modifies fs, fs.vol.cache, fs.vol.cache.entries, fs.vol.freeMap.words
    ensures fs.DiskOk() && fs.OpenOk() && success
    ensures fs.files == old(fs.files) + {s} && fs.reserved == old(fs.reserved) - {s}
    ensures SameFiles(old(fs.vol.Seen()), fs.vol.Seen(), fs.files - {s})
    ensures FileOk(fs.vol.Seen(), s)
    ensures var c := FileBytes(fs.vol.Seen(), s); Slots(c) == entryCnt && DirOk(c) && Entries(c) == map[]
  {
    hide Volume.Valid, FsInv, Accounted, FreeCount, SectorsNeeded, FileOwned, FileOk, FileBytes, SameFiles, DirOk;
    hide OnlyFile;
    ghost var v, u := fs.vol.Seen(), fs.vol.Used();
    success := fs.Create(s, entryCnt * ENTRY_SIZE);
    var zeros := ZeroExtend([], entryCnt * ENTRY_SIZE);
    OnlyFileHas(v, u, fs.vol.Seen(), fs.vol.Used(), fs.files, s, {s}, zeros);
    ZerosAreEmptyDir(zeros);
  }

  lemma OnlyFileHas(v: Disk, u: seq<bool>, w: Disk, u': seq<bool>, files: set<nat>, s: nat, was: set<nat>,
                    c: seq<byte>)
    requires OnlyFile(v, u, w, u', files, s, was, c)
    ensures FileOk(w, s) && FileBytes(w, s) == c && SameFiles(v, w, files - {s})
  {
  }

  /** While there are fewer entries than slots, adding one needs no sector. */
  lemma RoomLeft(c: seq<byte>)
    requires DirOk(c) && |Entries(c)| < Slots(c)
    ensures var end := (FirstFree(c, 0) + 1) * ENTRY_SIZE; end <= |c| && SectorsNeeded(|c|, end) == 0
  {
    hide DirOk, Entries, FirstFree, Slot, Names;
    FreeSlotExists(c);
    assert |c| >= Slots(c) * ENTRY_SIZE;
    NothingNeeded(|c|, (FirstFree(c, 0) + 1) * ENTRY_SIZE);
  }

  lemma NothingNeeded(length: nat, end: nat)
    requires end <= length
    ensures SectorsNeeded(length, end) == 0
  {
  }

  lemma SlotsKept(c: seq<byte>, c': seq<byte>)
    requires DirOk(c) && FirstFree(c, 0) < Slots(c) && exists e :: c' == Stored(c, FirstFree(c, 0), e)
    ensures |c'| == |c|
  {
  }

  lemma FirstOpenAllows(t: OpenList, s: nat)
    requires ListOk(t) && !IsOpen(t, s)
    ensures IsOpen(Opened(t, s), s) && Get(Opened(t, s), s).denyWriteCnt == 0
  {
    FindIs(Opened(t, s), s, 0);
  }

  /** An empty directory with room gets its two names for itself. */
  method AddSelf(fs: FileSystem, d: Word)
    requires Ready(fs, d) && DirOk(Bytes(fs, d)) && Entries(Bytes(fs, d)) == map[] && Slots(Bytes(fs, d)) >= 2
    requires |Bytes(fs, d)| <= MAX_LENGTH && Get(fs.table.inodes, d).denyWriteCnt == 0 && d in fs.files
    modifies fs.vol.cache, fs.vol.cache.entries, fs.vol.freeMap.words
    ensures Ready(fs, d) && DirOk(Bytes(fs, d))
    ensures Entries(Bytes(fs, d)) == map[DOT := (d, IS_DIR), DOT_DOT := (d, IS_DIR)]
    ensures NamesExist(Entries(Bytes(fs, d)), fs.files)
  {
    hide Volume.Valid, FsInv, Accounted, FreeCount, SectorsNeeded, FileOk, FileBytes, SameFiles, DirOk, Entries;
    hide Find, ListOk, FirstFree, Stored, FileOwned, Names, Slot;
    ghost var c := Bytes(fs, d);
    RoomLeft(c);
    var ok := Add(fs, d, DOT, d, IS_DIR);
    SlotsKept(c, Bytes(fs, d));
    RoomLeft(Bytes(fs, d));
    ok := Add(fs, d, DOT_DOT, d, IS_DIR);
  }

  /** The root directory that `do_format` makes: it names itself twice. */
  method MakeRoot(fs: FileSystem)
    requires fs.DiskOk() && fs.OpenOk() && ROOT_DIR_SECTOR in fs.reserved && FreeCount(fs.vol.Used()) >= 1
    requires !IsOpen(fs.table.inodes, ROOT_DIR_SECTOR)
    modifies fs, fs.table, fs.vol.cache, fs.vol.cache.entries, fs.vol.freeMap.words
    ensures fs.DiskOk() && fs.OpenOk() && fs.table.inodes == old(fs.table.inodes)
    ensures fs.files == old(fs.files) + {ROOT_DIR_SECTOR}
    ensures FileOk(fs.vol.Seen(), ROOT_DIR_SECTOR)
    ensures var c := FileBytes(fs.vol.Seen(), ROOT_DIR_SECTOR); var self := (ROOT_DIR_SECTOR, IS_DIR);
            DirOk(c) && Entries(c) == map[DOT := self, DOT_DOT := self] && NamesExist(Entries(c), fs.files)
  {
    hide Volume.Valid, FsInv, Accounted, FreeCount, FileOwned, FileOk, FileBytes, SameFiles, DirOk, Entries;
    hide Opened, Closed, Find, ListOk, FirstFree, Names;
    ghost var t := fs.table.inodes;
    var _ := CreateDir(fs, ROOT_DIR_SECTOR, 16);
    OpenedOk(t, ROOT_DIR_SECTOR);
    FirstOpenAllows(t, ROOT_DIR_SECTOR);
    fs.Open(ROOT_DIR_SECTOR);
    AddSelf(fs, ROOT_DIR_SECTOR);
    FileInFs(fs.vol.Seen(), fs.vol.Used(), fs.files, ROOT_DIR_SECTOR);
    fs.CloseAgain(ROOT_DIR_SECTOR, t);
  }

  /** Reading one slot; a short read means the end of the directory. */
  method ReadEntry(fs: FileSystem, d: nat, ofs: nat) returns (ok: bool, e: Entry)
    requires Ready(fs, d)
    modifies fs.vol.cache, fs.vol.cache.entries
    ensures Ready(fs, d) && fs.vol.Seen() == old(fs.vol.Seen())
    ensures ok <==> ofs + ENTRY_SIZE <= |Bytes(fs, d)|
    ensures ok ==> e == Bytes(fs, d)[ofs..ofs + ENTRY_SIZE]
  {
    hide Volume.Valid, FsInv, Accounted, FileBytes;
    var junk: Entry := seq(ENTRY_SIZE, i => 0);
    var n, out := fs.Read(d, junk, ENTRY_SIZE, ofs);
    ok, e := n == ENTRY_SIZE, out;
  }

  /** `lookup`: the entry in use under `name` and its offset. */
  method Lookup(fs: FileSystem, d: nat, name: Name) returns (r: Option<(Entry, nat)>)
    requires Ready(fs, d) && DirOk(Bytes(fs, d))
    modifies fs.vol.cache, fs.vol.cache.entries
    ensures Ready(fs, d) && fs.vol.Seen() == old(fs.vol.Seen())
    ensures var c := Bytes(fs, d); var k := FirstNamed(c, name, 0);
            r == if k < Slots(c) then Some((Slot(c, k), k * ENTRY_SIZE)) else None
    ensures r.Some? <==> name in Entries(Bytes(fs, d))
    ensures r.Some? ==> Entries(Bytes(fs, d))[name] == Value(r.value.0)
  {
    LookupIsMap(Bytes(fs, d), name);
    hide *;
    r := FindNamed(fs, d, name);
  }

  method FindNamed(fs: FileSystem, d: nat, name: Name) returns (r: Option<(Entry, nat)>)
    requires Ready(fs, d)
    modifies fs.vol.cache, fs.vol.cache.entries
    ensures Ready(fs, d) && fs.vol.Seen() == old(fs.vol.Seen())
    ensures var c := Bytes(fs, d); var k := FirstNamed(c, name, 0);
            r == if k < Slots(c) then Some((Slot(c, k), k * ENTRY_SIZE)) else None
  {
    hide Volume.Valid, FsInv, Accounted, FileBytes;
    ghost var c := Bytes(fs, d);
    var ofs := 0;
    ghost var i := 0;
    while true
      invariant Ready(fs, d) && fs.vol.Seen() == old(fs.vol.Seen()) && Bytes(fs, d) == c
      invariant ofs == i * ENTRY_SIZE && i <= Slots(c) && FirstNamed(c, name, i) == FirstNamed(c, name, 0)
      decreases Slots(c) - i
    {
      var ok, e := ReadEntry(fs, d, ofs);
      if !ok {
        return None;
      }
      assert e == Slot(c, i);
      if InUse(e) && EntryName(e) == name {
        return Some((e, ofs));
      }
      ofs, i := ofs + ENTRY_SIZE, i + 1;
    }
  }

  /** The loop of `dir_add` that looks for a slot to fill. */
  method FindSlot(fs: FileSystem, d: nat) returns (ofs: nat, e: Entry)
    requires Ready(fs, d) && DirOk(Bytes(fs, d))
    modifies fs.vol.cache, fs.vol.cache.entries
    ensures Ready(fs, d) && fs.vol.Seen() == old(fs.vol.Seen())
    ensures ofs == FirstFree(Bytes(fs, d), 0) * ENTRY_SIZE
  {
    hide Volume.Valid, FsInv, Accounted, FileBytes, DirOk;
    ghost var c := Bytes(fs, d);
    ofs := 0;
    ghost var i := 0;
    while true
      invariant Ready(fs, d) && fs.vol.Seen() == old(fs.vol.Seen()) && Bytes(fs, d) == c
      invariant ofs == i * ENTRY_SIZE && i <= Slots(c) && FirstFree(c, i) == FirstFree(c, 0)
      decreases Slots(c) - i
    {
      var ok;
      ok, e := ReadEntry(fs, d, ofs);
      if !ok {
        return;
      }
      assert e == Slot(c, i);
      if !InUse(e) {
        return;
      }
      ofs, i := ofs + ENTRY_SIZE, i + 1;
    }
  }

  /** `dir_add` */
  method Add(fs: FileSystem, d: nat, name: Name, sector: Word, kind: Word) returns (success: bool)
    requires Ready(fs, d) && DirOk(Bytes(fs, d)) && 0 !in name
    requires var c := Bytes(fs, d); var end := (FirstFree(c, 0) + 1) * ENTRY_SIZE;
             1 <= |name| <= NAME_MAX && name !in Entries(c) && Get(fs.table.inodes, d).denyWriteCnt == 0 ==>
               end <= MAX_LENGTH && FreeCount(fs.vol.Used()) >= SectorsNeeded(|c|, end)
    modifies fs.vol.cache, fs.vol.cache.entries, fs.vol.freeMap.words
    ensures Ready(fs, d) && DirOk(Bytes(fs, d))
    ensures success <==>
              && 1 <= |name| <= NAME_MAX && name !in Entries(old(Bytes(fs, d)))
              && Get(fs.table.inodes, d).denyWriteCnt == 0
    ensures success ==> Entries(Bytes(fs, d)) == Entries(old(Bytes(fs, d)))[name := (sector, kind)]
    ensures success && NamesExist(old(Entries(Bytes(fs, d))), fs.files) ==>
              (NamesExist(Entries(Bytes(fs, d)), fs.files) <==> sector in fs.files)
    ensures success ==> exists e ::
              Bytes(fs, d) == Stored(old(Bytes(fs, d)), FirstFree(old(Bytes(fs, d)), 0), e)
    ensures success ==> SameFiles(old(fs.vol.Seen()), fs.vol.Seen(), fs.files - {d})
    ensures !success ==> fs.vol.Seen() == old(fs.vol.Seen()) && fs.vol.Used() == old(fs.vol.Used())
  {
    hide Volume.Valid, FsInv, Accounted, FileBytes, DirOk, FreeCount, SectorsNeeded, FirstNamed;
    hide Entries, Names, Stored, MakeEntry, Slot, SameFiles, FirstFree, EntryName, EntrySector, EntryType, FileOwned;
    hide NamesExist;
    if name == [] || |name| > NAME_MAX {
      return false;
    }
    ghost var c := Bytes(fs, d);
    var found := Lookup(fs, d, name);
    if found.Some? {
      return false;
    }
    var ofs, junk := FindSlot(fs, d);
    var e := MakeEntry(junk, sector, name, kind);
    MadeEntry(junk, sector, name, kind);
    success := Store(fs, d, c, FirstFree(c, 0), e, ofs);
    if success {
      AddedToMap(c, FirstFree(c, 0), e);
      if NamesExist(Entries(c), fs.files) {
        AddedNamesExist(Entries(c), fs.files, name, (sector, kind));
      }
    }
  }

  /** Writing slot `k`. */
  method Store(fs: FileSystem, d: nat, ghost c: seq<byte>, ghost k: nat, e: Entry, ofs: nat) returns (success: bool)
    requires Ready(fs, d) && c == Bytes(fs, d) && DirOk(c) && k <= Slots(c) && ofs == k * ENTRY_SIZE
    requires Get(fs.table.inodes, d).denyWriteCnt == 0 ==>
               ofs + ENTRY_SIZE <= MAX_LENGTH && FreeCount(fs.vol.Used()) >= SectorsNeeded(|c|, ofs + ENTRY_SIZE)
    modifies fs.vol.cache, fs.vol.cache.entries, fs.vol.freeMap.words
    ensures Ready(fs, d) && (success <==> Get(fs.table.inodes, d).denyWriteCnt == 0)
    ensures success ==> Bytes(fs, d) == Stored(c, k, e)
    ensures success ==> SameFiles(old(fs.vol.Seen()), fs.vol.Seen(), fs.files - {d})
    ensures !success ==> fs.vol.Seen() == old(fs.vol.Seen()) && fs.vol.Used() == old(fs.vol.Used())
  {
    hide Volume.Valid, FsInv, Accounted, FileBytes, FreeCount, SectorsNeeded, SameFiles, FileOwned;
    var n := fs.Write(d, e, ofs);
    success := n == ENTRY_SIZE;
  }

  /** An open directory and the position of its next `dir_readdir`. */
  class Dir {
    const d: nat
    var pos: nat

    constructor (d: nat)
      ensures this.d == d && pos == 0
    {
      this.d := d;
      pos := 0;
    }
  }

  /** `dir_readdir` */
  method ReadDir(fs: FileSystem, dir: Dir) returns (name: Option<Name>)
    requires Ready(fs, dir.d) && dir.pos % ENTRY_SIZE == 0
    requires dir.pos / ENTRY_SIZE <= Slots(Bytes(fs, dir.d))
    modifies dir, fs.vol.cache, fs.vol.cache.entries
    ensures Ready(fs, dir.d) && fs.vol.Seen() == old(fs.vol.Seen())
    ensures var c := Bytes(fs, dir.d); var k := NextListed(c, old(dir.pos) / ENTRY_SIZE);
            if k < Slots(c) then name == Some(EntryName(Slot(c, k))) && dir.pos == (k + 1) * ENTRY_SIZE
            else name == None && dir.pos == k * ENTRY_SIZE
  {
    hide Volume.Valid, FsInv, Accounted, FileBytes;
    ghost var c := Bytes(fs, dir.d);
    ghost var i := dir.pos / ENTRY_SIZE;
    while true
      invariant Ready(fs, dir.d) && fs.vol.Seen() == old(fs.vol.Seen()) && Bytes(fs, dir.d) == c
      invariant dir.pos == i * ENTRY_SIZE && i <= Slots(c)
      invariant NextListed(c, i) == NextListed(c, old(dir.pos) / ENTRY_SIZE)
      decreases Slots(c) - i
    {
      var ok, e := ReadEntry(fs, dir.d, dir.pos);
      if !ok {
        return None;
      }
      assert e == Slot(c, i);
      dir.pos := dir.pos + ENTRY_SIZE;
      i := i + 1;
      if EntryName(e) == DOT || EntryName(e) == DOT_DOT {
        continue;
      }
      if InUse(e) {
        return Some(EntryName(e));
      }
    }
  }

  /** The emptiness test of `dir_remove`: open the directory, ask for an entry, close it again. */
  method IsEmpty(fs: FileSystem, d: nat) returns (empty: bool)
    requires fs.DiskOk() && fs.OpenOk() && d in fs.files
    modifies fs, fs.table, fs.vol.cache, fs.vol.cache.entries, fs.vol.freeMap.words
    ensures fs.DiskOk() && fs.OpenOk() && fs.table.inodes == old(fs.table.inodes)
    ensures fs.vol.Seen() == old(fs.vol.Seen()) && fs.vol.Used() == old(fs.vol.Used())
    ensures fs.files == old(fs.files) && fs.reserved == old(fs.reserved)
    ensures FileOk(fs.vol.Seen(), d)
    ensures var c := FileBytes(fs.vol.Seen(), d); empty <==> NextListed(c, 0) == Slots(c)
  {
    assert FileOk(fs.vol.Seen(), d);
    hide Volume.Valid, FsInv, Accounted, FileBytes, FileOk, NextListed, FileOwned, InodeAt, Opened, Closed, Find;
    hide ListOk, IsLarge, Released, IsLastClose, Slot, EntryName;
    ghost var t := fs.table.inodes;
    OpenedOk(t, d);
    fs.Open(d);
    empty := HasNoEntry(fs, d);
    fs.CloseAgain(d, t);
  }

  method HasNoEntry(fs: FileSystem, d: nat) returns (empty: bool)
    requires Ready(fs, d)
    modifies fs.vol.cache, fs.vol.cache.entries
    ensures Ready(fs, d) && fs.vol.Seen() == old(fs.vol.Seen())
    ensures empty <==> NextListed(Bytes(fs, d), 0) == Slots(Bytes(fs, d))
  {
    hide Volume.Valid, FsInv, Accounted, FileBytes, NextListed, EntryName;
    var dying := new Dir(d);
    var name := ReadDir(fs, dying);
    empty := name == None;
  }

  /** The end of `dir_remove`: erase slot `k` and drop the file it named. */
  method Unlink(fs: FileSystem, d: nat, child: nat, ghost c: seq<byte>, ghost k: nat, e: Entry, ofs: nat)
    returns (success: bool, panic: bool)
    requires Ready(fs, d) && c == Bytes(fs, d) && DirOk(c) && k < Slots(c) && ofs == k * ENTRY_SIZE
    requires child in fs.files
    modifies fs, fs.table, fs.vol.cache, fs.vol.cache.entries, fs.vol.freeMap.words
    ensures success <==> Get(old(fs.table.inodes), d).denyWriteCnt == 0
    ensures var t := old(fs.table.inodes);
            fs.table.inodes == if success && IsOpen(t, child) then Marked(t, child) else t
    ensures panic <==> success && !IsOpen(old(fs.table.inodes), child) && IsLarge(old(fs.vol.Seen()), child)
    ensures !success ==> fs.DiskOk() && fs.OpenOk() && fs.vol.Seen() == old(fs.vol.Seen())
                         && fs.vol.Used() == old(fs.vol.Used()) && fs.files == old(fs.files)
    ensures success && !panic ==> Ready(fs, d) && Bytes(fs, d) == Stored(c, k, e)
    ensures success && !panic ==> SameFiles(old(fs.vol.Seen()), fs.vol.Seen(), old(fs.files) - {d})
    ensures success && !panic ==>
              fs.files == if IsOpen(old(fs.table.inodes), child) then old(fs.files) else old(fs.files) - {child}
  {
    ghost var t, v := fs.table.inodes, fs.vol.Seen();
    StaysOpen(t, child, d);
    hide Volume.Valid, FsInv, Accounted, FileBytes, FileOk, FileOwned, Opened, Closed, Marked, Find, ListOk, IsLarge;
    hide SameFiles, Stored, DirOk;
    success := Erase(fs, d, child, c, k, e, ofs);
    if !success {
      panic := false;
      fs.CloseAgain(child, t);
      return;
    }
    if child != d {
      LargeStays(v, fs.vol.Seen(), fs.files, d, child);
    }
    panic := fs.RemoveAndClose(child, t);
  }

  /** Open the file to be dropped and erase its slot. */
  method Erase(fs: FileSystem, d: nat, child: nat, ghost c: seq<byte>, ghost k: nat, e: Entry, ofs: nat)
    returns (success: bool)
    requires Ready(fs, d) && c == Bytes(fs, d) && DirOk(c) && k < Slots(c) && ofs == k * ENTRY_SIZE
    requires child in fs.files
    modifies fs.table, fs.vol.cache, fs.vol.cache.entries, fs.vol.freeMap.words
    ensures Ready(fs, d) && fs.table.inodes == Opened(old(fs.table.inodes), child)
    ensures success <==> Get(old(fs.table.inodes), d).denyWriteCnt == 0
    ensures success ==> Bytes(fs, d) == Stored(c, k, e)
    ensures success ==> SameFiles(old(fs.vol.Seen()), fs.vol.Seen(), fs.files - {d})
    ensures !success ==> fs.vol.Seen() == old(fs.vol.Seen()) && fs.vol.Used() == old(fs.vol.Used())
  {
    hide Volume.Valid, FsInv, Accounted, FileBytes, Opened, Find, ListOk, FileOk, FileOwned, Slot;
    hide FreeCount, SectorsNeeded, SameFiles, Stored, DirOk;
    SlotFits(fs, d, k);
    fs.OpenListOk();
    StaysOpen(fs.table.inodes, child, d);
    fs.Open(child);
    success := Store(fs, d, c, k, e, ofs);
  }

  lemma SlotFits(fs: FileSystem, d: nat, k: nat)
    requires Ready(fs, d) && k < Slots(Bytes(fs, d))
    ensures var c := Bytes(fs, d);
            (k + 1) * ENTRY_SIZE <= |c| <= MAX_LENGTH && SectorsNeeded(|c|, (k + 1) * ENTRY_SIZE) == 0
  {
  }

  lemma StaysOpen(t: OpenList, child: nat, d: nat)
    requires ListOk(t) && IsOpen(t, d)
    ensures IsOpen(Opened(t, child), d) && Get(Opened(t, child), d).denyWriteCnt == Get(t, d).denyWriteCnt
    ensures IsOpen(t, child) ==> IsOpen(Marked(t, child), d)
  {
    if child != d {
      OthersUntouched(t, child, d);
    } else {
      FindIs(Opened(t, d), d, Find(t, d));
    }
    if IsOpen(t, child) {
      MarkedKeeps(t, child, d);
    }
  }

  /** A write to the directory does not change the size of another file. */
  lemma LargeStays(v: Disk, w: Disk, files: set<nat>, d: nat, child: nat)
    requires SameFiles(v, w, files - {d}) && child in files && child != d
    ensures child < |v| && child < |w| && IsLarge(w, child) == IsLarge(v, child)
  {
    assert |FileBytes(v, child)| == |FileBytes(w, child)|;
  }

  /** Whether `dir_remove` takes entry `e` out of a directory that can be written: files go, and
      directories go when they are empty. */
  ghost predicate Removable(v: Disk, e: (Word, Word)) {
    && FileOk(v, e.0)
    && (e.1 == IS_DIR ==> var c := FileBytes(v, e.0); NextListed(c, 0) == Slots(c))
  }

  /** `dir_remove`. On success the name, and nothing else, has left the map; the file it named is
      gone too unless somebody has it open. The release of a large file panics (see Close). */
  method RemoveEntry(fs: FileSystem, d: nat, name: Name) returns (success: bool, panic: bool)
    requires Ready(fs, d) && DirOk(Bytes(fs, d))
    requires NamesExist(Entries(Bytes(fs, d)), fs.files)
    modifies fs, fs.table, fs.vol.cache, fs.vol.cache.entries, fs.vol.freeMap.words
    ensures var m := old(Entries(Bytes(fs, d))); var v := old(fs.vol.Seen()); var t := old(fs.table.inodes);
            && (success <==> name in m && Removable(v, m[name]) && Get(t, d).denyWriteCnt == 0)
            && (panic <==> success && !IsOpen(t, m[name].0) && IsLarge(v, m[name].0))
    ensures !success ==> Ready(fs, d) && fs.vol.Seen() == old(fs.vol.Seen()) && fs.vol.Used() == old(fs.vol.Used())
    ensures !success ==> fs.files == old(fs.files) && fs.table.inodes == old(fs.table.inodes)
    ensures success && !panic ==> Ready(fs, d) && DirOk(Bytes(fs, d))
    ensures success && !panic ==> Entries(Bytes(fs, d)) == old(Entries(Bytes(fs, d))) - {name}
    ensures success && !panic ==> SameFiles(old(fs.vol.Seen()), fs.vol.Seen(), old(fs.files) - {d})
    ensures success && !panic ==>
              var child := old(Entries(Bytes(fs, d)))[name].0;
              fs.files == if IsOpen(old(fs.table.inodes), child) then old(fs.files) else old(fs.files) - {child}
    ensures success && !panic ==>
              var m := old(Entries(Bytes(fs, d)));
              (NamesExist(Entries(Bytes(fs, d)), fs.files) <==>
                IsOpen(old(fs.table.inodes), m[name].0) || OnlyName(m, name))
  {
    hide Volume.Valid, FsInv, Accounted, FileBytes, FileOk, FileOwned, Removable, Find, IsLarge, NamesExist, OnlyName;
    hide SameFiles, Stored, Entries, Names, DirOk, Slot, FirstNamed, Cleared, InUse, EntryName, EntrySector, EntryType;
    ghost var c, t, files := Bytes(fs, d), fs.table.inodes, fs.files;
    ghost var k := FirstNamed(c, name, 0);
    RemovedNamed(c, name);
    success, panic := false, false;
    var r := Lookup(fs, d, name);
    if r.Some? {
      NamedExists(Entries(c), files, name);
      success, panic := RemoveFound(fs, d, c, k, r.value.0, r.value.1);
      if success && !panic {
        RemovedNamesExist(Entries(c), files, name, fs.files, IsOpen(t, Entries(c)[name].0));
      }
    }
  }

  lemma NamedExists(m: map<Name, (Word, Word)>, files: set<nat>, name: Name)
    requires NamesExist(m, files) && name in m
    ensures m[name].0 in files
  {
  }

  /** Clearing the entry of a name. */
  lemma RemovedNamed(c: seq<byte>, name: Name)
    requires DirOk(c)
    ensures var k := FirstNamed(c, name, 0);
            k < Slots(c) ==>
              && DirOk(Stored(c, k, Cleared(Slot(c, k))))
              && Entries(Stored(c, k, Cleared(Slot(c, k)))) == Entries(c) - {name}
  {
    var k := FirstNamed(c, name, 0);
    if k < Slots(c) {
      RemovedFromMap(c, k, Cleared(Slot(c, k)));
    }
  }

  /** `dir_remove` once the entry has been found. */
  method RemoveFound(fs: FileSystem, d: nat, ghost c: seq<byte>, ghost k: nat, e: Entry, ofs: nat)
    returns (success: bool, panic: bool)
    requires Ready(fs, d) && c == Bytes(fs, d) && DirOk(c) && k < Slots(c) && ofs == k * ENTRY_SIZE
    requires EntrySector(e) in fs.files
    modifies fs, fs.table, fs.vol.cache, fs.vol.cache.entries, fs.vol.freeMap.words
    ensures success <==> Removable(old(fs.vol.Seen()), Value(e)) && Get(old(fs.table.inodes), d).denyWriteCnt == 0
    ensures panic <==>
              success && !IsOpen(old(fs.table.inodes), EntrySector(e)) && IsLarge(old(fs.vol.Seen()), EntrySector(e))
    ensures !success ==> Ready(fs, d) && fs.vol.Seen() == old(fs.vol.Seen()) && fs.vol.Used() == old(fs.vol.Used())
    ensures !success ==> fs.files == old(fs.files) && fs.table.inodes == old(fs.table.inodes)
    ensures success && !panic ==> Ready(fs, d) && Bytes(fs, d) == Stored(c, k, Cleared(e))
    ensures success && !panic ==> SameFiles(old(fs.vol.Seen()), fs.vol.Seen(), old(fs.files) - {d})
    ensures success && !panic ==>
              fs.files == if IsOpen(old(fs.table.inodes), EntrySector(e)) then old(fs.files)
                          else old(fs.files) - {EntrySector(e) as nat}
  {
    assert FileOk(fs.vol.Seen(), EntrySector(e));
    hide Volume.Valid, FsInv, Accounted, FileBytes, FileOk, FileOwned, Marked, Find, ListOk, IsLarge;
    hide SameFiles, Stored, DirOk, NextListed, Cleared, EntrySector, EntryType;
    success, panic := false, false;
    if EntryType(e) == IS_DIR {
      var empty := IsEmpty(fs, EntrySector(e));
      if !empty {
        return;
      }
    }
    success, panic := Unlink(fs, d, EntrySector(e), c, k, Cleared(e), ofs);
  }

  /** Removing a file right after adding it under a new name gives the old map back; the file goes with it,
      unless somebody has it open, and the kernel panics exactly when it would go and is large. */
  method AddThenRemove(fs: FileSystem, d: nat, name: Name, sector: Word, kind: Word) returns (panic: bool)
    requires Ready(fs, d) && DirOk(Bytes(fs, d)) && NamesExist(Entries(Bytes(fs, d)), fs.files)
    requires 1 <= |name| <= NAME_MAX && 0 !in name && name !in Entries(Bytes(fs, d))
    requires sector in fs.files && sector != d && kind != IS_DIR && Get(fs.table.inodes, d).denyWriteCnt == 0
    requires var c := Bytes(fs, d); var end := (FirstFree(c, 0) + 1) * ENTRY_SIZE;
             end <= MAX_LENGTH && FreeCount(fs.vol.Used()) >= SectorsNeeded(|c|, end)
    modifies fs, fs.table, fs.vol.cache, fs.vol.cache.entries, fs.vol.freeMap.words
    ensures panic <==> !IsOpen(old(fs.table.inodes), sector) && IsLarge(old(fs.vol.Seen()), sector)
    ensures !panic ==> Ready(fs, d) && DirOk(Bytes(fs, d)) && Entries(Bytes(fs, d)) == old(Entries(Bytes(fs, d)))
    ensures !panic ==>
              fs.files == if IsOpen(old(fs.table.inodes), sector) then old(fs.files)
                          else old(fs.files) - {sector as nat}
  {
    hide Volume.Valid, FsInv, Accounted, FileBytes, FileOk, FileOwned, Find, IsLarge, NamesExist, OnlyName;
    hide SameFiles, Stored, Entries, Names, DirOk, FreeCount, SectorsNeeded, FirstFree, ListOk;
    ghost var m, v := Entries(Bytes(fs, d)), fs.vol.Seen();
    FileInFs(fs.vol.Seen(), fs.vol.Used(), fs.files, sector);
    var success := Add(fs, d, name, sector, kind);
    LargeStays(v, fs.vol.Seen(), fs.files, d, sector);
    FileInFs(fs.vol.Seen(), fs.vol.Used(), fs.files, sector);
    assert m[name := (sector, kind)] - {name} == m;
    success, panic := RemoveEntry(fs, d, name);
  }

  /** A directory that `dir_remove` leaves with a name that stands for no file: of two names for a small file
      that nobody has open, one is removed. */
  method DanglingName(fs: FileSystem, d: nat, a: Name, b: Name, sector: Word, kind: Word)
    requires Ready(fs, d) && DirOk(Bytes(fs, d)) && NamesExist(Entries(Bytes(fs, d)), fs.files)
    requires |Entries(Bytes(fs, d))| + 2 <= Slots(Bytes(fs, d)) && Get(fs.table.inodes, d).denyWriteCnt == 0
    requires 1 <= |a| <= NAME_MAX && 0 !in a && 1 <= |b| <= NAME_MAX && 0 !in b && a != b
    requires a !in Entries(Bytes(fs, d)) && b !in Entries(Bytes(fs, d))
    requires sector in fs.files && sector != d && kind != IS_DIR
    requires !IsOpen(fs.table.inodes, sector) && !IsLarge(fs.vol.Seen(), sector)
    modifies fs, fs.table, fs.vol.cache, fs.vol.cache.entries, fs.vol.freeMap.words
    ensures Ready(fs, d) && DirOk(Bytes(fs, d)) && !NamesExist(Entries(Bytes(fs, d)), fs.files)
    ensures b in Entries(Bytes(fs, d)) && Entries(Bytes(fs, d))[b] == (sector, kind) && sector !in fs.files
  {
    hide Volume.Valid, FsInv, Accounted, FileBytes, FileOk, FileOwned, Find, IsLarge, NamesExist, OnlyName;
    hide SameFiles, Stored, Entries, Names, DirOk, FreeCount, SectorsNeeded, FirstFree, ListOk;
    AddInRoom(fs, d, a, sector, kind);
    AddInRoom(fs, d, b, sector, kind);
    FileInFs(fs.vol.Seen(), fs.vol.Used(), fs.files, sector);
    TwoNames(Entries(Bytes(fs, d)), a, b);
    var success, panic := RemoveEntry(fs, d, a);
  }

  /** Adding to a directory that has fewer entries than slots, in particular a second name for a file. */
  method AddInRoom(fs: FileSystem, d: nat, name: Name, sector: Word, kind: Word)
    requires Ready(fs, d) && DirOk(Bytes(fs, d)) && NamesExist(Entries(Bytes(fs, d)), fs.files)
    requires |Entries(Bytes(fs, d))| < Slots(Bytes(fs, d)) && Get(fs.table.inodes, d).denyWriteCnt == 0
    requires 1 <= |name| <= NAME_MAX && 0 !in name && name !in Entries(Bytes(fs, d))
    requires sector in fs.files && sector != d
    modifies fs.vol.cache, fs.vol.cache.entries, fs.vol.freeMap.words
    ensures Ready(fs, d) && DirOk(Bytes(fs, d)) && NamesExist(Entries(Bytes(fs, d)), fs.files)
    ensures Entries(Bytes(fs, d)) == old(Entries(Bytes(fs, d)))[name := (sector, kind)]
    ensures Slots(Bytes(fs, d)) == old(Slots(Bytes(fs, d)))
    ensures IsLarge(fs.vol.Seen(), sector) == old(IsLarge(fs.vol.Seen(), sector))
  {
    hide Volume.Valid, FsInv, Accounted, FileBytes, FileOk, FileOwned, Find, IsLarge, NamesExist;
    hide SameFiles, Stored, Entries, Names, DirOk, FreeCount, SectorsNeeded, FirstFree, ListOk;
    ghost var c, v := Bytes(fs, d), fs.vol.Seen();
    RoomLeft(c);
    FileSize(fs, d);
    var _ := Add(fs, d, name, sector, kind);
    SlotsKept(c, Bytes(fs, d));
    LargeStays(v, fs.vol.Seen(), fs.files, d, sector);
  }

  lemma FileSize(fs: FileSystem, d: nat)
    requires Ready(fs, d)
    ensures |Bytes(fs, d)| <= MAX_LENGTH
  {
  }

  lemma TwoNames(m: map<Name, (Word, Word)>, a: Name, b: Name)
    requires a in m && b in m && a != b && m[a].0 == m[b].0
    ensures !OnlyName(m, a)
  {
  }
}
