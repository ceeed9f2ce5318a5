/** What the file operations do to the file system as a whole. */
module FileSpec {
  import opened Sectors
  import opened InodeLayout
  import opened InodeSpec

  /** `c` with `b` written over it at `offset`. */
  function Overwrite(c: seq<byte>, b: seq<byte>, offset: nat): (r: seq<byte>)
    requires offset + |b| <= |c|
    ensures |r| == |c|
    ensures forall i :: 0 <= i < |c| ==> r[i] == if offset <= i < offset + |b| then b[i - offset] else c[i]
  {
    c[..offset] + b + c[offset + |b|..]
  }

  /** Overwriting with the next piece of a buffer. */
  lemma WroteMore(c: seq<byte>, buffer: seq<byte>, offset: nat, n: nat, chunk: nat)
    requires offset + |buffer| <= |c| && n + chunk <= |buffer|
    ensures Overwrite(Overwrite(c, buffer[..n], offset), buffer[n..][..chunk], offset + n)
            == Overwrite(c, buffer[..n + chunk], offset)
  {
  }

  /** An inode at `s`, of a file already there or of one about to be created, that shares
      nothing with the other files. */
  ghost predicate Apart(di: InodeDisk, v: Disk, u: seq<bool>, others: set<nat>, s: nat) {
    && FsInv(v, u, others) && s !in others
    && InodeOk(di, v, s)
    && (forall x :: x in Owned(di, v, s) ==> u[x])
    && (forall t :: t in others ==> FileOwned(v, t) !! Owned(di, v, s))
  }

  lemma FileApart(v: Disk, u: seq<bool>, files: set<nat>, s: nat)
    requires FsInv(v, u, files) && s in files
    ensures Apart(InodeAt(v, s), v, u, files - {s}, s)
  {
    hide InodeOk, Owned;
  }

  /** Growing an inode and writing back its header extends its file with zeros, takes exactly the
      new sectors, and leaves every other file alone. */
  lemma GrownFile(di: InodeDisk, v: Disk, u: seq<bool>, others: set<nat>, s: nat,
                  di': InodeDisk, v': Disk, u': seq<bool>, add: seq<nat>)
    requires Apart(di, v, u, others, s)
    requires Grown(di, v, u, di', v', u', add)
    ensures |v'| == |v|
    ensures var w := v'[s := Encode(di')];
            && FsInv(w, u', others + {s})
            && InodeAt(w, s) == di'
            && FileBytes(w, s) == ZeroExtend(Contents(di, v), di'.length)
            && FileOwned(w, s) == Owned(di, v, s) + (set x | x in add) + NewIndirect(di, di')
            && SameFiles(v, w, others)
  {
    GrownInode(di, v, u, di', v', u', add, s);
    var w := v'[s := Encode(di')];
    DecodeEncode(di');
    SameInode(di', v', w, s);
    assert s in Owned(di, v, s);
    assert OldIndirect(di) <= Owned(di, v, s);
    FileReplaced(v, u, w, u', others, Owned(di, v, s), s);
  }

  /** Overwriting a block of a file changes that block's bytes and no other file. */
  lemma BlockStored(v: Disk, u: seq<bool>, files: set<nat>, s: nat, k: nat, d: Data)
    requires FsInv(v, u, files) && s in files && k < Count(InodeAt(v, s))
    requires forall i :: 0 <= i < SECTOR_SIZE && InodeAt(v, s).length <= k * SECTOR_SIZE + i ==> d[i] == 0
    ensures Ptr(InodeAt(v, s), v, k) < |v|
    ensures var w := v[Ptr(InodeAt(v, s), v, k) := d];
            && FsInv(w, u, files)
            && w[s] == v[s]
            && FileOwned(w, s) == FileOwned(v, s)
            && (forall p :: 0 <= p < InodeAt(v, s).length ==>
                  FileBytes(w, s)[p] == if p / SECTOR_SIZE == k then d[p % SECTOR_SIZE] else FileBytes(v, s)[p])
            && SameFiles(v, w, files - {s})
  {
    var di := InodeAt(v, s);
    var b := Ptr(di, v, k);
    BlockWritten(di, v, s, k, d);
    FileApart(v, u, files, s);
    assert b in FileOwned(v, s);
    FileReplaced(v, u, v[b := d], u, files - {s}, FileOwned(v, s), s);
    assert files - {s} + {s} == files;
  }

  lemma SameFilesTrans(v: Disk, v1: Disk, v2: Disk, files: set<nat>)
    requires SameFiles(v, v1, files) && SameFiles(v1, v2, files)
    ensures SameFiles(v, v2, files)
  {
  }

  /** A piece of one block is a piece of the file. */
  lemma ChunkOf(v: Disk, s: nat, pos: nat, chunk: nat)
    requires FileOk(v, s) && 0 < chunk && pos + chunk <= InodeAt(v, s).length
    requires pos % SECTOR_SIZE + chunk <= SECTOR_SIZE
    ensures Ptr(InodeAt(v, s), v, pos / SECTOR_SIZE) < |v|
    ensures var b := v[Ptr(InodeAt(v, s), v, pos / SECTOR_SIZE)];
            b[pos % SECTOR_SIZE..pos % SECTOR_SIZE + chunk] == FileBytes(v, s)[pos..pos + chunk]
  {
    var di, k, ofs := InodeAt(v, s), pos / SECTOR_SIZE, pos % SECTOR_SIZE;
    assert k < Count(di);
    var piece := v[Ptr(di, v, k)][ofs..ofs + chunk];
    var slice := FileBytes(v, s)[pos..pos + chunk];
    forall i | 0 <= i < chunk ensures piece[i] == slice[i] {
      assert (pos + i) / SECTOR_SIZE == k && (pos + i) % SECTOR_SIZE == ofs + i;
    }
  }

  // ----- Reading -----

  /** How many bytes a read of `size` bytes at `offset` returns from a file of `length` bytes. */
  function ReadCount(length: nat, size: nat, offset: nat): (n: nat)
    ensures n <= size && (offset >= length ==> n == 0)
    ensures offset < length ==> offset + n <= length && (n == size || offset + n == length)
  {
    if offset >= length then 0 else if size <= length - offset then size else length - offset
  }

  /** A buffer that has received `n` bytes of `c` from `offset` on. */
  ghost predicate Received(c: seq<byte>, buffer: seq<byte>, offset: nat, n: nat, out: seq<byte>) {
    offset + n <= |c| && n <= |buffer| && out == c[offset..offset + n] + buffer[n..]
  }

  lemma ReceiveNothing(c: seq<byte>, buffer: seq<byte>, offset: nat)
    requires offset <= |c|
    ensures Received(c, buffer, offset, 0, buffer)
  {
  }

  /** A read beyond the end of the file zeroes the first sector's worth of the request. */
  ghost predicate IsZeroFilled(buffer: seq<byte>, size: nat, out: seq<byte>) {
    && size <= |out| == |buffer|
    && out[size..] == buffer[size..]
    && forall i :: 0 <= i < size && i < SECTOR_SIZE ==> out[i] == 0
  }

  ghost predicate AllZero(out: seq<byte>, size: nat) {
    size <= |out| && forall i :: 0 <= i < size ==> out[i] == 0
  }

  /** So the whole request is sure to be zeroed exactly when it is not longer than a sector. */
  lemma ZeroFilledWhole(buffer: seq<byte>, size: nat)
    requires size <= |buffer|
    ensures (forall out :: IsZeroFilled(buffer, size, out) ==> AllZero(out, size)) <==> size <= SECTOR_SIZE
  {
    if size > SECTOR_SIZE {
      var out := seq(size, i => if i < SECTOR_SIZE then 0 else 1) + buffer[size..];
      assert IsZeroFilled(buffer, size, out) && out[SECTOR_SIZE] == 1;
    }
  }

  /** The outcome of reading up to `size` bytes at `offset` from a file with contents `c`. */
  ghost predicate IsRead(c: seq<byte>, buffer: seq<byte>, size: nat, offset: nat, n: int, out: seq<byte>) {
    && n == ReadCount(|c|, size, offset)
    && (offset < |c| ==> Received(c, buffer, offset, n, out))
    && (offset >= |c| ==> IsZeroFilled(buffer, size, out))
  }

  lemma ReceiveMore(c: seq<byte>, buffer: seq<byte>, offset: nat, n: nat, out: seq<byte>, chunk: nat)
    requires Received(c, buffer, offset, n, out) && offset + n + chunk <= |c| && n + chunk <= |buffer|
    ensures Received(c, buffer, offset, n + chunk, out[..n] + c[offset + n..offset + n + chunk] + out[n + chunk..])
  {
  }

  // ----- Writing -----

  /** The state (w, u') of a file system in which only file `s` differs from (v, u): its contents
      are now `c`, it still owns the sectors `was`, and the sectors in use are those in use
      before and those of `s`. */
  ghost predicate OnlyFile(v: Disk, u: seq<bool>, w: Disk, u': seq<bool>, files: set<nat>, s: nat, was: set<nat>,
                           c: seq<byte>)
  {
    && FsInv(w, u', files) && s in files && |w| == |v| == |u|
    && FileBytes(w, s) == c
    && SameFiles(v, w, files - {s})
    && was <= FileOwned(w, s)
    && (forall x :: x in FileOwned(w, s) && x !in was ==> !u[x])
    && forall x :: 0 <= x < |u| ==> (u'[x] <==> u[x] || x in FileOwned(w, s))
  }

  /** Writing back a grown inode. */
  lemma GrownOnly(di: InodeDisk, v: Disk, u: seq<bool>, others: set<nat>, s: nat,
                  di': InodeDisk, v': Disk, u': seq<bool>, add: seq<nat>)
    requires Apart(di, v, u, others, s)
    requires Grown(di, v, u, di', v', u', add)
    ensures |v'| == |v|
    ensures OnlyFile(v, u, v'[s := Encode(di')], u', others + {s}, s, Owned(di, v, s),
                     ZeroExtend(Contents(di, v), di'.length))
  {
    GrownFile(di, v, u, others, s, di', v', u', add);
    assert others + {s} - {s} == others;
  }

  /** Writing back an inode that did not have to grow. */
  lemma RewrittenOnly(v: Disk, u: seq<bool>, files: set<nat>, s: nat, newLength: nat)
    requires FsInv(v, u, files) && s in files && newLength <= InodeAt(v, s).length
    ensures var w := v[s := Encode(InodeAt(v, s))];
            OnlyFile(v, u, w, u, files, s, FileOwned(v, s), ZeroExtend(FileBytes(v, s), newLength))
  {
    var di := InodeAt(v, s);
    var w := v[s := Encode(di)];
    DecodeEncode(di);
    FileApart(v, u, files, s);
    SameInode(di, v, w, s);
    assert s in Owned(di, v, s);
    FileReplaced(v, u, w, u, files - {s}, Owned(di, v, s), s);
    assert files - {s} + {s} == files;
  }

  /** The outcome of `add_inode` on the header of file `s`, written back. */
  lemma ExtendedOnly(v: Disk, u: seq<bool>, files: set<nat>, s: nat, newLength: nat,
                     di: InodeDisk, v': Disk, u': seq<bool>, add: seq<nat>)
    requires FsInv(v, u, files) && s in files
    requires newLength <= InodeAt(v, s).length ==> di == InodeAt(v, s) && v' == v && u' == u
    requires newLength > InodeAt(v, s).length ==> di.length == newLength && Grown(InodeAt(v, s), v, u, di, v', u', add)
    ensures |v'| == |v|
    ensures OnlyFile(v, u, v'[s := Encode(di)], u', files, s, FileOwned(v, s), ZeroExtend(FileBytes(v, s), newLength))
  {
    if newLength > InodeAt(v, s).length {
      FileApart(v, u, files, s);
      GrownOnly(InodeAt(v, s), v, u, files - {s}, s, di, v', u', add);
      assert files - {s} + {s} == files;
    } else {
      RewrittenOnly(v, u, files, s, newLength);
    }
  }

  /** What the caller of `add_inode` knows about the inode it has read. */
  lemma FileHeader(v: Disk, u: seq<bool>, files: set<nat>, s: nat)
    requires FsInv(v, u, files) && s in files
    ensures FileOk(v, s) && |FileBytes(v, s)| == InodeAt(v, s).length <= MAX_LENGTH
    ensures var di := InodeAt(v, s); Count(di) > DIRECT_CNT ==> di.indirect < |v| == |u| && u[di.indirect]
  {
    var di := InodeAt(v, s);
    assert Count(di) > DIRECT_CNT ==> di.indirect as nat in FileOwned(v, s);
  }

  /** Storing a piece of the buffer into a block. */
  lemma StoredOnly(v: Disk, u: seq<bool>, w: Disk, u': seq<bool>, files: set<nat>, s: nat, was: set<nat>, c: seq<byte>,
                   pos: nat, data: seq<byte>, b: nat)
    requires OnlyFile(v, u, w, u', files, s, was, c)
    requires data != [] && pos + |data| <= |c| && pos % SECTOR_SIZE + |data| <= SECTOR_SIZE
    requires b == Ptr(InodeAt(w, s), w, pos / SECTOR_SIZE) < |w|
    ensures var w' := w[b := Patch(w[b], data, pos % SECTOR_SIZE)];
            OnlyFile(v, u, w', u', files, s, was, Overwrite(c, data, pos)) && w'[s] == w[s]
  {
    hide OnlyFile, FsInv, FileOk, FileOwned, FileBytes, Ptr, InodeAt, SameFiles, Patch, Overwrite;
    OnlyFileFits(v, u, w, u', files, s, was, c);
    var k, d := pos / SECTOR_SIZE, Patch(w[b], data, pos % SECTOR_SIZE);
    var w' := w[b := d];
    SlackStays(w, s, pos, data, d);
    BlockStored(w, u', files, s, k, d);
    SameLength(w', u', files, s, w);
    BlockBytes(w, s, k);
    PatchedBytes(c, FileBytes(w', s), w[b], pos, data);
    OnlyFileAgain(v, u, w, u', files, s, was, c, w');
  }

  lemma OnlyFileFits(v: Disk, u: seq<bool>, w: Disk, u': seq<bool>, files: set<nat>, s: nat, was: set<nat>,
                     c: seq<byte>)
    requires OnlyFile(v, u, w, u', files, s, was, c)
    ensures FsInv(w, u', files) && s in files && FileOk(w, s) && FileBytes(w, s) == c && InodeAt(w, s).length == |c|
  {
  }

  lemma SameLength(w: Disk, u: seq<bool>, files: set<nat>, s: nat, v: Disk)
    requires FsInv(w, u, files) && s in files && FileOk(v, s) && s < |w| && w[s] == v[s]
    ensures FileOk(w, s) && |FileBytes(w, s)| == |FileBytes(v, s)|
  {
  }

  /** The bytes of a block are the block's. */
  lemma BlockBytes(w: Disk, s: nat, k: nat)
    requires FileOk(w, s) && k < Count(InodeAt(w, s)) && Ptr(InodeAt(w, s), w, k) < |w|
    ensures forall p :: 0 <= p < |FileBytes(w, s)| && p / SECTOR_SIZE == k ==>
              FileBytes(w, s)[p] == w[Ptr(InodeAt(w, s), w, k)][p % SECTOR_SIZE]
  {
  }

  /** Patching one block of `c` overwrites a piece of `c`. */
  lemma PatchedBytes(c: seq<byte>, c': seq<byte>, block: Data, pos: nat, data: seq<byte>)
    requires |c'| == |c| && pos + |data| <= |c| && pos % SECTOR_SIZE + |data| <= SECTOR_SIZE
    requires forall p :: 0 <= p < |c| && p / SECTOR_SIZE == pos / SECTOR_SIZE ==> c[p] == block[p % SECTOR_SIZE]
    requires forall p :: 0 <= p < |c| ==>
               c'[p] == if p / SECTOR_SIZE == pos / SECTOR_SIZE
                        then Patch(block, data, pos % SECTOR_SIZE)[p % SECTOR_SIZE] else c[p]
    ensures c' == Overwrite(c, data, pos)
  {
    hide Patch, Overwrite;
    forall p | 0 <= p < |c| ensures c'[p] == Overwrite(c, data, pos)[p] {
      SameBlock(pos, |data|, p);
    }
  }

  lemma SameBlock(pos: nat, n: nat, p: nat)
    requires pos % SECTOR_SIZE + n <= SECTOR_SIZE
    ensures pos <= p < pos + n ==> p / SECTOR_SIZE == pos / SECTOR_SIZE
    ensures p / SECTOR_SIZE == pos / SECTOR_SIZE ==> p - pos == p % SECTOR_SIZE - pos % SECTOR_SIZE
  {
  }

  /** Another store into the same file. */
  lemma OnlyFileAgain(v: Disk, u: seq<bool>, w: Disk, u': seq<bool>, files: set<nat>, s: nat, was: set<nat>,
                      c: seq<byte>, w': Disk)
    requires OnlyFile(v, u, w, u', files, s, was, c) && |w'| == |w|
    requires FsInv(w', u', files) && FileOwned(w', s) == FileOwned(w, s) && SameFiles(w, w', files - {s})
    ensures FileOk(w', s) && OnlyFile(v, u, w', u', files, s, was, FileBytes(w', s))
  {
    SameFilesTrans(v, w, w', files - {s});
    hide FileBytes, SameFiles, FileOwned;
  }

  /** A store within the file leaves zeros beyond its end. */
  lemma SlackStays(w: Disk, s: nat, pos: nat, data: seq<byte>, d: Data)
    requires FileOk(w, s)
    requires data != [] && pos + |data| <= InodeAt(w, s).length && pos % SECTOR_SIZE + |data| <= SECTOR_SIZE
    requires Ptr(InodeAt(w, s), w, pos / SECTOR_SIZE) < |w|
    requires forall i :: 0 <= i < SECTOR_SIZE ==>
               d[i] == if pos % SECTOR_SIZE <= i < pos % SECTOR_SIZE + |data| then data[i - pos % SECTOR_SIZE]
                       else w[Ptr(InodeAt(w, s), w, pos / SECTOR_SIZE)][i]
    ensures pos / SECTOR_SIZE < Count(InodeAt(w, s))
    ensures forall i :: 0 <= i < SECTOR_SIZE && InodeAt(w, s).length <= pos / SECTOR_SIZE * SECTOR_SIZE + i ==>
              d[i] == 0
  {
    var di, k := InodeAt(w, s), pos / SECTOR_SIZE;
    assert k < Count(di);
    forall i | 0 <= i < SECTOR_SIZE && di.length <= k * SECTOR_SIZE + i ensures d[i] == 0 {
      var p := k * SECTOR_SIZE + i;
      assert p / SECTOR_SIZE == k && p % SECTOR_SIZE == i && p < Count(di) * SECTOR_SIZE;
      assert ByteAt(di, w, p) == 0;
    }
  }

  // ----- Creating and deleting -----

  /** Creating a file of `length` zeros at a header sector that belongs to no file. */
  lemma CreatedOnly(v: Disk, u: seq<bool>, files: set<nat>, s: nat, length: nat,
                    di: InodeDisk, v': Disk, u': seq<bool>, add: seq<nat>)
    requires FsInv(v, u, files) && s < |v| && u[s] && s !in files
    requires forall t :: t in files ==> s !in FileOwned(v, t)
    requires length == 0 ==> di == EMPTY && v' == v && u' == u
    requires length > 0 ==> di.length == length && Grown(EMPTY, v, u, di, v', u', add)
    ensures |v'| == |v|
    ensures OnlyFile(v, u, v'[s := Encode(di)], u', files + {s}, s, {s}, ZeroExtend([], length))
  {
    EmptyInode(v, s);
    if length > 0 {
      hide InodeOk, FileOwned, FileOk, Grown;
      GrownOnly(EMPTY, v, u, files, s, di, v', u', add);
    } else {
      CreatedEmpty(v, u, files, s);
    }
  }

  lemma CreatedEmpty(v: Disk, u: seq<bool>, files: set<nat>, s: nat)
    requires FsInv(v, u, files) && s < |v| && u[s] && s !in files
    requires forall t :: t in files ==> s !in FileOwned(v, t)
    ensures OnlyFile(v, u, v[s := Encode(EMPTY)], u, files + {s}, s, {s}, [])
  {
    var w := v[s := Encode(EMPTY)];
    DecodeEncode(EMPTY);
    EmptyInode(w, s);
    hide InodeOk, Owned, Contents, Encode, Decode;
    FileReplaced(v, u, w, u, files, {s}, s);
    assert files + {s} - {s} == files;
  }

  lemma EmptyInode(v: Disk, s: nat)
    requires s < |v|
    ensures InodeOk(EMPTY, v, s) && Owned(EMPTY, v, s) == {s} && Contents(EMPTY, v) == []
  {
  }

  /** `u` with the sectors `xs` freed. */
  function Released(u: seq<bool>, xs: set<nat>): (r: seq<bool>)
    ensures |r| == |u|
    ensures forall x :: 0 <= x < |u| ==> r[x] == (u[x] && x !in xs)
  {
    seq(|u|, x requires 0 <= x < |u| => u[x] && x !in xs)
  }

  /** Every sector in use is part of a file, or reserved for the header of a file to come. */
  ghost predicate Accounted(v: Disk, u: seq<bool>, files: set<nat>, reserved: set<nat>)
    requires FsInv(v, u, files)
  {
    && (forall x :: x in reserved ==> x < |u| && u[x])
    && (forall s :: s in files ==> FileOwned(v, s) !! reserved)
    && (forall x :: 0 <= x < |u| && u[x] && x !in reserved ==> exists s :: s in files && x in FileOwned(v, s))
  }

  /** Growing or creating file `s` loses no sector and leaks none. */
  lemma OnlyFileAccounted(v: Disk, u: seq<bool>, w: Disk, u': seq<bool>, before: set<nat>, files: set<nat>,
                          reserved: set<nat>, s: nat, was: set<nat>, c: seq<byte>)
    requires FsInv(v, u, before) && Accounted(v, u, before, reserved)
    requires OnlyFile(v, u, w, u', files, s, was, c)
    requires files == before + {s}
    requires if s in before then was == FileOwned(v, s) else was == {s} && s in reserved
    ensures Accounted(w, u', files, reserved - {s})
  {
    assert s in FileOwned(w, s);
    hide FileOwned, FileOk, FileBytes;
    forall t | t in files ensures FileOwned(w, t) !! (reserved - {s}) {
      if t == s {
        forall x | x in FileOwned(w, s) && x in reserved ensures x == s {
          assert u[x] && x in was;
        }
      }
    }
    forall x | 0 <= x < |u'| && u'[x] && x !in reserved - {s} ensures exists t :: t in files && x in FileOwned(w, t) {
      StillOwned(v, u, w, u', before, files, reserved, s, was, c, x);
    }
  }

  lemma StillOwned(v: Disk, u: seq<bool>, w: Disk, u': seq<bool>, before: set<nat>, files: set<nat>,
                   reserved: set<nat>, s: nat, was: set<nat>, c: seq<byte>, x: nat)
    requires FsInv(v, u, before) && Accounted(v, u, before, reserved)
    requires OnlyFile(v, u, w, u', files, s, was, c)
    requires files == before + {s} && s in FileOwned(w, s)
    requires s in before ==> was == FileOwned(v, s)
    requires x < |u'| && u'[x] && x !in reserved - {s}
    ensures exists t :: t in files && x in FileOwned(w, t)
  {
    hide FileOwned, FileOk, FileBytes;
    if x !in FileOwned(w, s) {
      assert u[x] && x != s;
      var t :| t in before && x in FileOwned(v, t);
      assert t != s && x in FileOwned(w, t);
    }
  }

  /** The same for a write, which leaves the set of files as it is. */
  lemma WrittenAccounted(v: Disk, u: seq<bool>, w: Disk, u': seq<bool>, files: set<nat>, reserved: set<nat>,
                         s: nat, c: seq<byte>)
    requires FsInv(v, u, files) && Accounted(v, u, files, reserved) && s in files
    requires OnlyFile(v, u, w, u', files, s, FileOwned(v, s), c)
    ensures FsInv(w, u', files) && Accounted(w, u', files, reserved) && |w| == |v|
  {
    assert files == files + {s};
    assert s in FileOwned(v, s);
    assert reserved - {s} == reserved;
    OnlyFileAccounted(v, u, w, u', files, files, reserved, s, FileOwned(v, s), c);
  }

  /** Deleting a file frees exactly its sectors. */
  lemma DeletedFile(v: Disk, u: seq<bool>, files: set<nat>, reserved: set<nat>, s: nat)
    requires FsInv(v, u, files) && Accounted(v, u, files, reserved) && s in files
    ensures FsInv(v, Released(u, FileOwned(v, s)), files - {s})
    ensures Accounted(v, Released(u, FileOwned(v, s)), files - {s}, reserved)
  {
    assert forall t, x :: t in files && x in FileOwned(v, t) ==> x < |u|;
    hide FileOwned, FileOk;
    var u' := Released(u, FileOwned(v, s));
    forall x | 0 <= x < |u'| && u'[x] && x !in reserved
      ensures exists t :: t in files - {s} && x in FileOwned(v, t)
    {
      var t :| t in files && x in FileOwned(v, t);
      assert t in files - {s};
    }
  }

  /** Creating a file and deleting it again restores the free map, header included. */
  lemma CreateThenDelete(v: Disk, u: seq<bool>, w: Disk, u': seq<bool>, files: set<nat>, s: nat, c: seq<byte>)
    requires s < |u| && u[s] && OnlyFile(v, u, w, u', files, s, {s}, c)
    ensures Released(u', FileOwned(w, s)) == u[s := false]
  {
    assert s in FileOwned(w, s);
  }
}
