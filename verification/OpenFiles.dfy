/** Open files: handles with a position on open inodes, which may deny writes to them. */
module OpenFiles {
  import opened Options
  import opened Sectors
  import opened Bitmaps
  import opened InodeSpec
  import opened FileSpec
  import opened Inodes
  import opened OpenInodes
  import opened FileSystems

  /** `struct file` */
  class File {
    const s: nat
    var pos: nat
    var denyWrite: bool

    constructor (s: nat)
      ensures this.s == s && pos == 0 && !denyWrite
    {
      this.s, pos, denyWrite := s, 0, false;
    }
  }

  // ----- Handles and the counts of their inodes -----

  /** The inode of each handle, and whether the handle denies writes. */
  type Handles = map<File, (nat, bool)>

  ghost function Openers(m: Handles, s: nat): set<File> {
    set h | h in m && m[h].0 == s
  }

  ghost function Deniers(m: Handles, s: nat): set<File> {
    set h | h in m && m[h].0 == s && m[h].1
  }

  /** Every handle is an opener of its inode, and the denials are those of the handles. */
  ghost predicate Counted(t: OpenList, m: Handles) {
    && (forall h :: h in m ==> IsOpen(t, m[h].0))
    && (forall s :: IsOpen(t, s) ==>
          |Openers(m, s)| <= Get(t, s).openCnt && Get(t, s).denyWriteCnt == |Deniers(m, s)|)
  }

  lemma Fewer(s: set<File>, t: set<File>)
    requires s <= t
    ensures |s| <= |t|
  {
    assert t == s + (t - s);
  }

  /** A handle that does not deny leaves room for one more denial, or one opener less. */
  lemma NotAllDeny(t: OpenList, m: Handles, h: File)
    requires Counted(t, m) && h in m && !m[h].1
    ensures IsOpen(t, m[h].0) && Get(t, m[h].0).denyWriteCnt < Get(t, m[h].0).openCnt
  {
    var s := m[h].0;
    Fewer(Deniers(m, s) + {h}, Openers(m, s));
  }

  lemma SomeoneDenies(t: OpenList, m: Handles, h: File)
    requires Counted(t, m) && h in m && m[h].1
    ensures IsOpen(t, m[h].0) && Get(t, m[h].0).denyWriteCnt > 0
  {
    assert h in Deniers(m, m[h].0);
  }

  /** Only the inode of sector `s` may differ. */
  ghost predicate OnlyInode(t: OpenList, t': OpenList, s: nat) {
    forall x :: x != s ==> Alike(t, t', x)
  }

  predicate Alike(t: OpenList, t': OpenList, x: nat) {
    IsOpen(t', x) == IsOpen(t, x) && (IsOpen(t, x) ==> Get(t', x) == Get(t, x))
  }

  /** Only the handle `h`, of sector `s`, may differ. */
  ghost predicate OnlyHandle(m: Handles, m': Handles, h: File, s: nat) {
    && (h in m ==> m[h].0 == s) && (h in m' ==> m'[h].0 == s)
    && forall k :: k in m.Keys + m'.Keys && k != h ==> k in m && k in m' && m'[k] == m[k]
  }

  lemma OthersCounted(m: Handles, m': Handles, h: File, s: nat, x: nat)
    requires OnlyHandle(m, m', h, s) && x != s
    ensures Openers(m', x) == Openers(m, x) && Deniers(m', x) == Deniers(m, x)
  {
  }

  /** A step on one handle and its inode. */
  lemma StepCounted(t: OpenList, m: Handles, t': OpenList, m': Handles, h: File, s: nat)
    requires Counted(t, m) && OnlyInode(t, t', s) && OnlyHandle(m, m', h, s)
    requires if IsOpen(t', s) then
               |Openers(m', s)| <= Get(t', s).openCnt && Get(t', s).denyWriteCnt == |Deniers(m', s)|
             else Openers(m', s) == {}
    ensures Counted(t', m')
  {
    hide Find, Get, Openers, Deniers;
    forall k | k in m' ensures IsOpen(t', m'[k].0) {
      if m'[k].0 == s {
        OpenerIs(m', k);
      } else {
        assert Alike(t, t', m'[k].0);
      }
    }
    forall x | IsOpen(t', x)
      ensures |Openers(m', x)| <= Get(t', x).openCnt && Get(t', x).denyWriteCnt == |Deniers(m', x)|
    {
      if x != s {
        OthersCounted(m, m', h, s, x);
        assert Alike(t, t', x);
      }
    }
  }

  lemma OpenerIs(m: Handles, h: File)
    requires h in m
    ensures h in Openers(m, m[h].0)
  {
  }

  lemma HandleOpen(t: OpenList, m: Handles, h: File)
    requires Counted(t, m) && h in m
    ensures IsOpen(t, m[h].0)
  {
  }

  lemma CountsAt(t: OpenList, m: Handles, s: nat)
    requires Counted(t, m)
    ensures if IsOpen(t, s) then
              |Openers(m, s)| <= Get(t, s).openCnt && Get(t, s).denyWriteCnt == |Deniers(m, s)|
            else |Openers(m, s)| == |Deniers(m, s)| == 0
  {
    if !IsOpen(t, s) {
      assert Openers(m, s) == {} && Deniers(m, s) == {};
    }
  }

  lemma OneMore(m: Handles, h: File, s: nat)
    requires h !in m
    ensures var m' := m[h := (s, false)];
            && OnlyHandle(m, m', h, s)
            && |Openers(m', s)| == |Openers(m, s)| + 1 && |Deniers(m', s)| == |Deniers(m, s)|
  {
    var m' := m[h := (s, false)];
    assert Openers(m', s) == Openers(m, s) + {h} && h !in Openers(m, s) && Deniers(m', s) == Deniers(m, s);
  }

  lemma OneLess(m: Handles, h: File)
    requires h in m && !m[h].1
    ensures var s := m[h].0; var m' := m - {h};
            && OnlyHandle(m, m', h, s)
            && |Openers(m', s)| == |Openers(m, s)| - 1 && |Deniers(m', s)| == |Deniers(m, s)|
            && (|Openers(m', s)| == 0 ==> Openers(m', s) == {})
  {
    var s, m' := m[h].0, m - {h};
    assert Openers(m', s) == Openers(m, s) - {h} && h in Openers(m, s) && Deniers(m', s) == Deniers(m, s);
  }

  lemma OtherMind(m: Handles, h: File, deny: bool)
    requires h in m && m[h].1 != deny
    ensures var s := m[h].0; var m' := m[h := (s, deny)];
            && OnlyHandle(m, m', h, s)
            && |Openers(m', s)| == |Openers(m, s)|
            && |Deniers(m', s)| == |Deniers(m, s)| + if deny then 1 else -1
  {
    var s := m[h].0;
    var m' := m[h := (s, deny)];
    assert OnlyHandle(m, m', h, s);
    hide OnlyHandle;
    assert Openers(m', s) == Openers(m, s);
    hide Openers;
    var more, less := Deniers(if deny then m' else m, s), Deniers(if deny then m else m', s);
    assert h in more && h !in less && forall k :: k in more && k != h <==> k in less;
    assert more == less + {h};
  }

  lemma OpenCounted(t: OpenList, m: Handles, s: nat, h: File)
    requires ListOk(t) && Counted(t, m) && h !in m
    ensures Counted(Opened(t, s), m[h := (s, false)])
  {
    hide Find, Get, Opened, ListOk, OnlyInode, OnlyHandle, IsOpen, Openers, Deniers, Counted;
    var t', m' := Opened(t, s), m[h := (s, false)];
    OpenedGet(t, s);
    OneMore(m, h, s);
    CountsAt(t, m, s);
    StepCounted(t, m, t', m', h, s);
  }

  lemma CloseCounted(t: OpenList, m: Handles, h: File)
    requires ListOk(t) && Counted(t, m) && h in m && !m[h].1
    ensures IsOpen(t, m[h].0) && Counted(Closed(t, m[h].0), m - {h})
  {
    hide Find, Get, Closed, ListOk, OnlyInode, OnlyHandle, IsOpen, Openers, Deniers, Counted;
    var s := m[h].0;
    NotAllDeny(t, m, h);
    OneLess(m, h);
    CountsAt(t, m, s);
    ClosedGet(t, s);
    var t', m' := Closed(t, s), m - {h};
    StepCounted(t, m, t', m', h, s);
  }

  lemma ClosedGet(t: OpenList, s: nat)
    requires ListOk(t) && IsOpen(t, s)
    ensures OnlyInode(t, Closed(t, s), s) && (IsOpen(Closed(t, s), s) <==> Get(t, s).openCnt > 1)
    ensures Get(t, s).openCnt > 1 ==> Get(Closed(t, s), s) == Get(t, s).(openCnt := Get(t, s).openCnt - 1)
  {
    if Get(t, s).openCnt > 1 {
      FindIs(Closed(t, s), s, Find(t, s));
    } else {
      FindIsNot(Closed(t, s), s);
    }
    forall x | x != s ensures Alike(t, Closed(t, s), x) {
      OthersUntouched(t, s, x);
    }
  }

  /** The list with the inode of sector `s` changed to `i`. */
  function WithInode(t: OpenList, s: nat, i: Inode): OpenList
    requires IsOpen(t, s) && i.sector == s
  {
    t[Find(t, s) := i]
  }

  lemma WithInodeIs(t: OpenList, s: nat, i: Inode)
    requires IsOpen(t, s) && i.sector == s
    ensures IsOpen(WithInode(t, s, i), s) && Get(WithInode(t, s, i), s) == i && OnlyInode(t, WithInode(t, s, i), s)
  {
    var t' := WithInode(t, s, i);
    FindIs(t', s, Find(t, s));
    forall x | x != s ensures Alike(t, t', x) {
      if IsOpen(t, x) {
        FindIs(t', x, Find(t, x));
      } else {
        FindIsNot(t', x);
      }
    }
  }

  /** The list with `n` denials more on sector `s`. */
  function Denied(t: OpenList, s: nat, n: int): OpenList {
    if IsOpen(t, s) then WithInode(t, s, Get(t, s).(denyWriteCnt := Get(t, s).denyWriteCnt + n)) else t
  }

  lemma NobodyCounted(t: OpenList, m: Handles)
    requires ListOk(t) && m == map[] && forall i :: 0 <= i < |t| ==> t[i].denyWriteCnt == 0
    ensures Counted(t, m)
  {
    forall s ensures Openers(m, s) == {} && Deniers(m, s) == {} {
    }
  }

  lemma SectorIs(t: OpenList, s: nat)
    requires IsOpen(t, s)
    ensures Get(t, s).sector == s
  {
  }

  /** One denial more or less, by a handle that changes its mind. */
  lemma DenyCounted(t: OpenList, m: Handles, h: File, deny: bool)
    requires Counted(t, m) && h in m && m[h].1 != deny
    ensures var s := m[h].0;
            && IsOpen(t, s)
            && Counted(Denied(t, s, if deny then 1 else -1), m[h := (s, deny)])
  {
    hide Find, Get, WithInode, OnlyInode, OnlyHandle, IsOpen, Openers, Deniers, Counted;
    var s := m[h].0;
    HandleOpen(t, m, h);
    SectorIs(t, s);
    CountsAt(t, m, s);
    OtherMind(m, h, deny);
    var i := Get(t, s).(denyWriteCnt := Get(t, s).denyWriteCnt + if deny then 1 else -1);
    var t', m' := WithInode(t, s, i), m[h := (s, deny)];
    WithInodeIs(t, s, i);
    StepCounted(t, m, t', m', h, s);
  }

  lemma OpenedGet(t: OpenList, s: nat)
    requires ListOk(t)
    ensures IsOpen(Opened(t, s), s) && OnlyInode(t, Opened(t, s), s)
    ensures Get(Opened(t, s), s) ==
              if IsOpen(t, s) then Get(t, s).(openCnt := Get(t, s).openCnt + 1) else Inode(s, 1, false, 0)
  {
    FindIs(Opened(t, s), s, if IsOpen(t, s) then Find(t, s) else 0);
    forall x | x != s ensures Alike(t, Opened(t, s), x) {
      OthersUntouched(t, s, x);
    }
  }

  // ----- The calls -----

  class FileTable {
    const fs: FileSystem
    /** The handles that have been opened and not closed. */
    ghost var handles: set<File>

    ghost function View(): Handles
      reads this, handles
    {
      map h | h in handles :: (h.s, h.denyWrite)
    }

    ghost predicate Valid()
      reads this, handles, fs, fs.table, fs.vol, fs.vol.cache, fs.vol.cache.entries, fs.vol.freeMap.words
    {
      fs.DiskOk() && fs.OpenOk() && Counted(fs.table.inodes, View())
    }

    /** The contents of the file behind a handle. */
    ghost function Bytes(f: File): seq<byte>
      requires Valid() && f in handles
      reads this, handles, fs, fs.table, fs.vol, fs.vol.cache, fs.vol.cache.entries, fs.vol.freeMap.words
    {
      hide Volume.Valid, FsInv, Accounted, Counted, FileOk;
      HandleIsFile(f);
      FileBytes(fs.vol.Seen(), f.s)
    }

    constructor (fs: FileSystem)
      requires fs.DiskOk() && fs.OpenOk()
      requires forall i :: 0 <= i < |fs.table.inodes| ==> fs.table.inodes[i].denyWriteCnt == 0
      ensures Valid() && this.fs == fs && handles == {}
    {
      this.fs, handles := fs, {};
      new;
      hide Volume.Valid, FsInv, Accounted;
      NobodyCounted(fs.table.inodes, View());
    }

    /** `file_open` of `inode_open (s)`; `mem` tells whether the handle can be allocated. */
    method Open(s: nat, mem: bool) returns (f: Option<File>)
      requires Valid() && s in fs.files
      modifies this, fs, fs.table, fs.vol.cache, fs.vol.cache.entries, fs.vol.freeMap.words
      ensures Valid() && (f.Some? <==> mem)
      ensures fs.files == old(fs.files) && fs.vol.Seen() == old(fs.vol.Seen()) && fs.vol.Used() == old(fs.vol.Used())
      ensures match f
              case None => handles == old(handles) && fs.table.inodes == old(fs.table.inodes)
              case Some(h) =>
                && fresh(h) && h.s == s && h.pos == 0 && !h.denyWrite
                && handles == old(handles) + {h} && fs.table.inodes == Opened(old(fs.table.inodes), s)
    {
      hide Volume.Valid, FsInv, Accounted, Counted, Opened, Find, ListOk;
      ghost var t, m := fs.table.inodes, View();
      fs.OpenListOk();
      fs.Open(s);
      if !mem {
        fs.CloseAgain(s, t);
        return None;
      }
      var h := new File(s);
      OpenCounted(t, m, s, h);
      handles := handles + {h};
      assert View() == m[h := (s, false)];
      f := Some(h);
    }

    /** `file_deny_write` */
    method DenyWrite(f: File)
      requires Valid() && f in handles
      modifies f, fs.table
      ensures Valid() && f.denyWrite && f.pos == old(f.pos)
      ensures fs.table.inodes == if old(f.denyWrite) then old(fs.table.inodes) else Denied(old(fs.table.inodes), f.s, 1)
    {
      hide Volume.Valid, FsInv, Accounted, Counted, Find, ListOk;
      ghost var t, m := fs.table.inodes, View();
      if !f.denyWrite {
        NotAllDeny(t, m, f);
        DenyCounted(t, m, f, true);
        fs.OpenListOk();
        f.denyWrite := true;
        fs.table.DenyWrite(f.s);
        assert View() == m[f := (f.s, true)];
      }
    }

    /** `file_reopen` */
    method Reopen(f: File, mem: bool) returns (g: Option<File>)
      requires Valid() && f in handles
      modifies this, fs, fs.table, fs.vol.cache, fs.vol.cache.entries, fs.vol.freeMap.words
      ensures Valid() && (g.Some? <==> mem)
      ensures match g
              case None => handles == old(handles) && fs.table.inodes == old(fs.table.inodes)
              case Some(h) =>
                && fresh(h) && h.s == f.s && h.pos == 0 && !h.denyWrite
                && handles == old(handles) + {h} && fs.table.inodes == Opened(old(fs.table.inodes), f.s)
    {
      HandleIsFile(f);
      hide *;
      g := Open(f.s, mem);
    }

    lemma HandleIsFile(f: File)
      requires Valid() && f in handles
      ensures IsOpen(fs.table.inodes, f.s) && f.s in fs.files && FileOk(fs.vol.Seen(), f.s)
    {
      hide Volume.Valid, FsInv, Accounted, ListOk, FileOk;
      assert f in View();
      FileInFs(fs.vol.Seen(), fs.vol.Used(), fs.files, f.s);
    }

    /** `file_allow_write` */
    method AllowWrite(f: File)
      requires Valid() && f in handles
      modifies f, fs.table
      ensures Valid() && !f.denyWrite && f.pos == old(f.pos)
      ensures fs.table.inodes ==
                if old(f.denyWrite) then Denied(old(fs.table.inodes), f.s, -1) else old(fs.table.inodes)
    {
      hide Volume.Valid, FsInv, Accounted, Counted, Find, ListOk;
      ghost var t, m := fs.table.inodes, View();
      if f.denyWrite {
        SomeoneDenies(t, m, f);
        DenyCounted(t, m, f, false);
        fs.OpenListOk();
        f.denyWrite := false;
        fs.table.AllowWrite(f.s);
        assert View() == m[f := (f.s, false)];
      }
    }

    /** `file_close`: the handle allows writes again, so that its inode can always be closed. */
    method Close(f: File) returns (panic: bool)
      requires Valid() && f in handles
      modifies this, f, fs, fs.table, fs.vol.cache, fs.vol.cache.entries, fs.vol.freeMap.words
      ensures handles == old(handles) - {f}
      ensures !panic ==> Valid() && fs.vol.Seen() == old(fs.vol.Seen())
      ensures var t := if old(f.denyWrite) then Denied(old(fs.table.inodes), f.s, -1) else old(fs.table.inodes);
              && IsOpen(t, f.s)
              && (panic <==> IsLastClose(t, f.s) && IsLarge(old(fs.vol.Seen()), f.s))
              && fs.table.inodes == Closed(t, f.s)
              && (!panic ==> fs.files == if IsLastClose(t, f.s) then old(fs.files) - {f.s} else old(fs.files))
    {
      hide Volume.Valid, FsInv, Accounted, Counted, Find, ListOk, Closed, FileOwned, Released, IsLarge, Denied;
      AllowWrite(f);
      ghost var t, m := fs.table.inodes, View();
      NotAllDeny(t, m, f);
      fs.OpenListOk();
      CloseCounted(t, m, f);
      panic := fs.Close(f.s);
      handles := handles - {f};
      assert View() == m - {f};
    }

    /** `file_read`: the next bytes of the file, and the position moves behind them. */
    method Read(f: File, buffer: seq<byte>, size: nat) returns (n: int, out: seq<byte>)
      requires Valid() && f in handles && size <= |buffer|
      modifies f, fs.vol.cache, fs.vol.cache.entries
      ensures Valid() && fs.vol.Seen() == old(fs.vol.Seen()) && |out| == |buffer| && f.denyWrite == old(f.denyWrite)
      ensures IsRead(Bytes(f), buffer, size, old(f.pos), n, out) && f.pos == old(f.pos) + n
    {
      hide Volume.Valid, FsInv, Accounted, FileOk, FileBytes, Counted;
      HandleIsFile(f);
      ghost var m := View();
      n, out := fs.Read(f.s, buffer, size, f.pos);
      f.pos := f.pos + n;
      assert View() == m;
    }

    /** `file_write`: refused while any handle of the inode denies writes, and the position moves behind the
        bytes written otherwise. */
    method Write(f: File, buffer: seq<byte>) returns (n: nat)
      requires Valid() && f in handles
      requires Deniers(View(), f.s) == {} ==>
                 && f.pos + |buffer| <= MAX_LENGTH
                 && FreeCount(fs.vol.Used()) >= SectorsNeeded(|Bytes(f)|, f.pos + |buffer|)
      modifies f, fs.vol.cache, fs.vol.cache.entries, fs.vol.freeMap.words
      ensures Valid() && f.denyWrite == old(f.denyWrite) && f.pos == old(f.pos) + n
      ensures if Deniers(old(View()), f.s) != {} then n == 0 && fs.vol.Seen() == old(fs.vol.Seen())
              else
                && n == |buffer|
                && Bytes(f) == Overwrite(ZeroExtend(old(Bytes(f)), old(f.pos) + |buffer|), buffer, old(f.pos))
                && SameFiles(old(fs.vol.Seen()), fs.vol.Seen(), fs.files - {f.s})
    {
      hide Volume.Valid, FsInv, Accounted, FileOk, FileBytes, FileOwned, Counted, Find, FreeCount, SectorsNeeded;
      hide Deniers, Overwrite, SameFiles;
      HandleIsFile(f);
      DenialsAre(f.s);
      ghost var m := View();
      n := fs.Write(f.s, buffer, f.pos);
      f.pos := f.pos + n;
      assert View() == m;
    }

    lemma DenialsAre(s: nat)
      requires Valid() && IsOpen(fs.table.inodes, s)
      ensures Get(fs.table.inodes, s).denyWriteCnt == 0 <==> Deniers(View(), s) == {}
    {
      hide Volume.Valid, FsInv, Accounted, ListOk;
    }
  }
}
