/** Indexed inodes on top of the sector cache and the free map. */
module Inodes {
  import opened Options
  import opened Sectors
  import opened Bits
  import opened Bitmaps
  import CacheSpec
  import opened Cache
  import opened InodeLayout
  import opened InodeSpec
  import opened FileSpec

  /** `inode_read_at` refuses inodes beyond this sector. */
  const LAST_INODE_SECTOR: nat := 20000000

  const FREE_MAP_SECTOR: nat := 0
  const ROOT_DIR_SECTOR: nat := 1

  /** `add` was taken from the free sectors of (v, u) and zeroed; nothing else changed. */
  ghost predicate Took(v: Disk, u: seq<bool>, v': Disk, u': seq<bool>, add: seq<nat>) {
    TookSectors(v, u, v', u', add, {}, {})
  }

  lemma TookNone(v: Disk, u: seq<bool>)
    requires |v| == |u|
    ensures Took(v, u, v, u, [])
  {
  }

  lemma TookGrows(v: Disk, u: seq<bool>, v': Disk, u': seq<bool>, add: seq<nat>)
    requires Took(v, u, v', u', add)
    ensures |v'| == |v| == |u| == |u'|
    ensures forall x :: 0 <= x < |v| && u[x] ==> u'[x] && v'[x] == v[x]
  {
  }

  lemma TookGrowsSize(v: Disk, u: seq<bool>, v': Disk, u': seq<bool>, add: seq<nat>)
    requires Took(v, u, v', u', add)
    ensures |v'| == |v| == |u| == |u'|
  {
  }

  lemma TookOneMore(v: Disk, u: seq<bool>, v': Disk, u': seq<bool>, add: seq<nat>, b: nat)
    requires Took(v, u, v', u', add) && b < |v| && !u'[b]
    ensures Took(v, u, v'[b := ZEROS], u'[b := true], add + [b])
  {
  }

  lemma FilledOneMore(ptrs: seq<Word>, from: nat, add: seq<Word>, b: Word)
    requires from + |add| < |ptrs|
    ensures var j := from + |add|;
            (ptrs[..from] + add + ptrs[j..])[j := b] == ptrs[..from] + (add + [b]) + ptrs[j + 1..]
  {
  }

  // ----- Growth, case by case -----

  /** Growing within the direct blocks. */
  lemma GrownDirectly(di: InodeDisk, v: Disk, u: seq<bool>, v': Disk, u': seq<bool>, add: seq<Word>, di': InodeDisk)
    requires di.length <= di'.length && Count(di') <= DIRECT_CNT
    requires Took(v, u, v', u', add) && |add| == Count(di') - Count(di)
    requires di'.direct == di.direct[..Count(di)] + add + di.direct[Count(di')..]
    ensures Grown(di, v, u, di', v', u', add)
  {
  }

  /** Growing within the last block. */
  lemma GrownInPlace(di: InodeDisk, v: Disk, u: seq<bool>, newLength: Word)
    requires di.length <= newLength <= MAX_LENGTH && SectorCount(newLength) == Count(di) && |u| == |v|
    ensures Grown(di, v, u, di.(length := newLength), v, u, [])
  {
  }

  /** The pointers of an indirect block whose slots `from..` have been filled. */
  lemma IndirectPtr(blocks: WordBlock, was: WordBlock, from: nat, add: seq<Word>, j: nat)
    requires from + |add| <= WORDS && blocks == was[..from] + add + was[from + |add|..]
    requires j < from + |add|
    ensures WordAt(Pack(blocks), j) == if j < from then was[j] else add[j - from]
  {
    PackAt(blocks, j);
  }

  /** The direct pointers of `di`, completed with `add1`: the inode now has `current` sectors. */
  ghost predicate DirectFilled(di: InodeDisk, direct: seq<Word>, add1: seq<Word>, current: nat) {
    && |direct| == DIRECT_CNT
    && if Count(di) < DIRECT_CNT then current == DIRECT_CNT && direct == di.direct[..Count(di)] + add1
       else current == Count(di) && direct == di.direct && add1 == []
  }

  /** The slots of the indirect block filled with `add2`, up to `total` sectors. */
  ghost predicate IndirectFilled(before: WordBlock, blocks: WordBlock, add2: seq<Word>, current: nat, total: nat) {
    && DIRECT_CNT <= current < total <= MAX_SECTORS
    && |add2| == total - current
    && blocks == before[..current - DIRECT_CNT] + add2 + before[total - DIRECT_CNT..]
  }

  lemma PointersAre(di: InodeDisk, v: Disk, before: WordBlock, blocks: WordBlock, current: nat,
                    add1: seq<Word>, add2: seq<Word>, di': InodeDisk, v': Disk, k: nat)
    requires DirectFilled(di, di'.direct, add1, current) && IndirectFilled(before, blocks, add2, current, Count(di'))
    requires di'.indirect < |v'| && v'[di'.indirect] == Pack(blocks)
    requires current > DIRECT_CNT ==> di.indirect < |v| && before == Unpack(v[di.indirect])
    requires k < Count(di')
    ensures Ptr(di', v', k) == if k < Count(di) then Ptr(di, v, k) else (add1 + add2)[k - Count(di)]
  {
    hide Pack, Unpack;
    if k >= DIRECT_CNT {
      IndirectPtr(blocks, before, current - DIRECT_CNT, add2, k - DIRECT_CNT);
    }
  }

  /** Growing beyond the direct blocks: after the blocks `add1` that complete the direct part
      come the indirect block `di'.indirect`, if it is new, and the blocks `add2` it points to. */
  lemma ExtendsIndirectly(di: InodeDisk, v: Disk, before: WordBlock, blocks: WordBlock, current: nat,
                          add1: seq<Word>, add2: seq<Word>, di': InodeDisk, v': Disk)
    requires di.length <= di'.length <= MAX_LENGTH
    requires DirectFilled(di, di'.direct, add1, current) && IndirectFilled(before, blocks, add2, current, Count(di'))
    requires di'.indirect < |v'| && v'[di'.indirect] == Pack(blocks)
    requires current > DIRECT_CNT ==>
               di.indirect == di'.indirect && di.indirect < |v| && before == Unpack(v[di.indirect])
    ensures Extends(di, v, di', v', add1 + add2)
  {
    forall k | 0 <= k < Count(di')
      ensures Ptr(di', v', k) == if k < Count(di) then Ptr(di, v, k) else (add1 + add2)[k - Count(di)]
    {
      PointersAre(di, v, before, blocks, current, add1, add2, di', v', k);
    }
    hide Ptr;
  }

  lemma GrownIndirectly(di: InodeDisk, v: Disk, u: seq<bool>, di': InodeDisk, v': Disk, u': seq<bool>,
                        add1: seq<Word>, add: seq<Word>, current: nat)
    requires DirectFilled(di, di'.direct, add1, current) && DIRECT_CNT <= current < Count(di')
    requires Extends(di, v, di', v', add)
    requires TookSectors(v, u, v', u', add, if current == DIRECT_CNT then {di'.indirect as nat} else {},
                         if current == DIRECT_CNT then {} else {di'.indirect as nat})
    ensures Grown(di, v, u, di', v', u', add)
  {
  }

  /** Two rounds of allocation with sector `i` taken in between, or in use all along, and
      rewritten in the end. */
  lemma TookTwice(v: Disk, u: seq<bool>, v1: Disk, u1: seq<bool>, u1': seq<bool>, v2: Disk, u2: seq<bool>,
                  add1: seq<Word>, add2: seq<Word>, i: Word, isNew: bool, d: Data)
    requires Took(v, u, v1, u1, add1) && |u1'| == |u1| && Took(v1, u1', v2, u2, add2) && i < |v|
    requires u1' == u1[i := true] && if isNew then !u1[i] else u[i]
    ensures TookSectors(v, u, v2[i := d], u2, add1 + add2,
                        if isNew then {i as nat} else {}, if isNew then {} else {i as nat})
  {
    var add := add1 + add2;
    forall j | 0 <= j < |add| ensures !u[add[j]] && add[j] != i && IsZero(v2[add[j]]) {
    }
  }

  /** The file system's persistent state: the cached device and the free-sector map. */
  class Volume {
    const cache: BlockCache
    const freeMap: Bitmap

    ghost predicate Valid()
      reads this, cache, cache.entries
    {
      && cache.Valid() && freeMap.Valid()
      && freeMap.bitCnt == |cache.device| < 0x1_0000_0000
    }

    ghost function Seen(): Disk
      reads this, cache, cache.entries
      requires Valid()
    {
      cache.Seen()
    }

    ghost function Used(): seq<bool>
      reads this, cache, cache.entries, freeMap.words
      requires Valid()
    {
      freeMap.Bits()
    }

    /** `cache_init` and `free_map_init`: an empty cache, and a free map with only the headers
        of the free-map file and of the root directory taken. */
    constructor (device: Disk)
      requires 2 <= |device| < 0x1_0000_0000
      ensures Valid() && fresh(cache) && fresh(cache.entries) && fresh(freeMap) && fresh(freeMap.words)
      ensures Seen() == device
      ensures |Used()| == |device| && forall i :: 0 <= i < |device| ==> (Used()[i] <==> i < 2)
    {
      cache := new BlockCache(device);
      freeMap := new Bitmap(|device|);
      new;
      freeMap.Set(FREE_MAP_SECTOR, true);
      freeMap.Set(ROOT_DIR_SECTOR, true);
    }

    /** `free_map_allocate` of one sector: the lowest free one. */
    method Allocate() returns (r: Option<nat>)
      requires Valid()
      modifies freeMap.words
      ensures Valid() && Seen() == old(Seen())
      ensures r.None? ==> FreeCount(old(Used())) == 0 && Used() == old(Used())
      ensures r.Some? ==> r.value < |Used()| && !old(Used())[r.value] && Used() == old(Used())[r.value := true]
      ensures r.Some? ==> AllAre(old(Used()), 0, r.value, true)
    {
      r := freeMap.ScanAndFlip(0, 1, false);
      if r.Some? {
        assert Used() == old(Used())[r.value := true];
        forall j | 0 <= j < r.value ensures old(Used())[j] {
          assert !AllAre(old(Used()), j, 1, false);
        }
      } else {
        forall j | 0 <= j < |Used()| ensures Used()[j] {
          assert !AllAre(Used(), j, 1, false);
        }
        assert AllAre(Used(), 0, |Used()|, true);
      }
    }

    /** Allocation of a data block, as every loop of `inode_create` and `add_inode` does it. */
    method AllocateZeroed() returns (b: Word)
      requires Valid() && FreeCount(Used()) > 0
      modifies cache, cache.entries, freeMap.words
      ensures Valid()
      ensures b < |old(Seen())| && !old(Used())[b]
      ensures Used() == old(Used())[b := true] && FreeCount(Used()) == FreeCount(old(Used())) - 1
      ensures Seen() == old(Seen())[b := ZEROS]
    {
      var r := Allocate();
      b := r.value;
      FreeCountTake(old(Used()), b);
      cache.Write(b, ZEROS);
    }

    /** One turn of the block loops. */
    method TakeBlock(ghost v: Disk, ghost u: seq<bool>, ghost add: seq<Word>) returns (b: Word)
      requires Valid() && FreeCount(Used()) > 0 && Took(v, u, Seen(), Used(), add)
      modifies cache, cache.entries, freeMap.words
      ensures Valid() && FreeCount(Used()) == FreeCount(old(Used())) - 1
      ensures Took(v, u, Seen(), Used(), add + [b])
    {
      b := AllocateZeroed();
      TookOneMore(v, u, old(Seen()), old(Used()), add, b);
    }

    /** The block loops of `inode_create` and `add_inode`: fill `ptrs[from..to]`, a part of the
        direct or of the indirect pointers, with fresh zeroed blocks. */
    method FillPointers(ptrs: seq<Word>, from: nat, to: nat) returns (ptrs': seq<Word>, ghost add: seq<Word>)
      requires Valid() && from <= to <= |ptrs| && FreeCount(Used()) >= to - from
      modifies cache, cache.entries, freeMap.words
      ensures Valid() && FreeCount(Used()) == FreeCount(old(Used())) - (to - from)
      ensures Took(old(Seen()), old(Used()), Seen(), Used(), add) && |add| == to - from
      ensures ptrs' == ptrs[..from] + add + ptrs[to..]
    {
      hide CacheSpec.Inv, CacheSpec.View, Took, FreeCount;
      ghost var v, u := Seen(), Used();
      ptrs', add := ptrs, [];
      assert ptrs == ptrs[..from] + [] + ptrs[from..];
      TookNone(v, u);
      for j := from to to
        invariant Valid() && FreeCount(Used()) == FreeCount(u) - (j - from)
        invariant Took(v, u, Seen(), Used(), add) && |add| == j - from
        invariant ptrs' == ptrs[..from] + add + ptrs[j..]
      {
        var b := TakeBlock(v, u, add);
        FilledOneMore(ptrs, from, add, b);
        ptrs' := ptrs'[j := b];
        add := add + [b];
      }
    }

    /** `add_inode`: extend the in-memory inode `di` to `newLength` bytes. */
    method Grow(di: InodeDisk, newLength: Word) returns (di': InodeDisk, ghost add: seq<Word>)
      requires Valid() && di.length <= MAX_LENGTH && newLength <= MAX_LENGTH
      requires Count(di) > DIRECT_CNT ==> di.indirect < |Seen()| && Used()[di.indirect]
      requires FreeCount(Used()) >= SectorsNeeded(di.length, newLength)
      modifies cache, cache.entries, freeMap.words
      ensures Valid()
      ensures newLength <= di.length ==> di' == di && Seen() == old(Seen()) && Used() == old(Used())
      ensures newLength > di.length ==> di'.length == newLength
      ensures newLength > di.length ==> Grown(di, old(Seen()), old(Used()), di', Seen(), Used(), add)
    {
      hide CacheSpec.Inv, CacheSpec.View, Took, FreeCount, Grown;
      ghost var v, u := Seen(), Used();
      TookNone(v, u);
      add := [];
      var total := newLength / SECTOR_SIZE;
      if total * SECTOR_SIZE < newLength {
        total := total + 1;
      }
      var current := di.length / SECTOR_SIZE;
      if current * SECTOR_SIZE < di.length {
        current := current + 1;
      }
      assert total == SectorCount(newLength) && current == Count(di);
      var newSectors := total - current;
      if newSectors <= 0 {
        di' := if newLength > di.length then di.(length := newLength) else di;
        if newLength > di.length {
          GrownInPlace(di, v, u, newLength);
        }
        return;
      }
      var direct := di.direct;
      if current < DIRECT_CNT {
        newSectors := if total > DIRECT_CNT then newSectors - (DIRECT_CNT - current) else 0;
        var stop := if total < DIRECT_CNT then total else DIRECT_CNT;
        direct, add := FillPointers(di.direct, current, stop);
        current := stop;
      }
      if newSectors > 0 && current < MAX_SECTORS {
        di', add := GrowIndirect(di, v, u, direct, add, current, newLength);
      } else {
        di' := di.(direct := direct, length := newLength);
        GrownDirectly(di, v, u, Seen(), Used(), add, di');
      }
    }

    /** The part of `add_inode` that fills the indirect block. */
    method GrowIndirect(di: InodeDisk, ghost v: Disk, ghost u: seq<bool>, direct: seq<Word>, ghost add1: seq<Word>,
                        current: nat, newLength: Word)
      returns (di': InodeDisk, ghost add: seq<Word>)
      requires Valid() && di.length <= newLength <= MAX_LENGTH && |direct| == DIRECT_CNT
      requires DIRECT_CNT <= current < SectorCount(newLength)
      requires DirectFilled(di, direct, add1, current) && Took(v, u, Seen(), Used(), add1)
      requires current > DIRECT_CNT ==> di.indirect < |v| && u[di.indirect]
      requires FreeCount(Used()) >= SectorCount(newLength) - current + if current == DIRECT_CNT then 1 else 0
      modifies cache, cache.entries, freeMap.words
      ensures Valid() && di'.length == newLength
      ensures Grown(di, v, u, di', Seen(), Used(), add)
    {
      TookGrows(v, u, Seen(), Used(), add1);
      hide CacheSpec.Inv, CacheSpec.View, FreeCount, TookSectors, Extends, Pack, Unpack;
      hide IndirectFilled, DirectFilled, Grown;
      ghost var v1, u1 := Seen(), Used();
      var isNew := current == DIRECT_CNT;
      var indirect, blocks, before, add2, u1' := FillIndirect(di.indirect, isNew, current, SectorCount(newLength));
      ghost var v2, u2 := Seen(), Used();
      cache.Write(indirect, Pack(blocks));
      di' := di.(direct := direct, indirect := indirect, length := newLength);
      add := add1 + add2;
      TookTwice(v, u, v1, u1, u1', v2, u2, add1, add2, indirect, isNew, Pack(blocks));
      ExtendsIndirectly(di, v, before, blocks, current, add1, add2, di', Seen());
      GrownIndirectly(di, v, u, di', Seen(), Used(), add1, add, current);
    }

    /** Get the indirect block and extend its pointers from `current` to `total` sectors. */
    method FillIndirect(indirect: Word, isNew: bool, current: nat, total: nat)
      returns (i: Word, blocks: WordBlock, ghost before: WordBlock, ghost add2: seq<Word>, ghost u': seq<bool>)
      requires Valid() && DIRECT_CNT <= current < total <= MAX_SECTORS
      requires FreeCount(Used()) >= total - current + if isNew then 1 else 0
      requires !isNew ==> indirect < |Seen()| && Used()[indirect]
      modifies cache, cache.entries, freeMap.words
      ensures Valid() && i < |Seen()| == |old(Seen())|
      ensures u' == old(Used())[i := true]
      ensures if isNew then !old(Used())[i] else i == indirect && before == Unpack(old(Seen())[i])
      ensures Took(old(Seen()), u', Seen(), Used(), add2)
      ensures IndirectFilled(before, blocks, add2, current, total)
    {
      hide CacheSpec.Inv, CacheSpec.View, FreeCount, TookSectors, Unpack;
      i, blocks := OpenIndirect(indirect, isNew);
      before, u' := blocks, Used();
      assert u' == old(Used())[i := true];
      blocks, add2 := FillPointers(blocks, current - DIRECT_CNT, total - DIRECT_CNT);
      TookGrowsSize(old(Seen()), u', Seen(), Used(), add2);
    }

    /** The indirect block: a new one, its contents an uninitialised array, or the one that is there. */
    method OpenIndirect(indirect: Word, isNew: bool) returns (i: Word, blocks: WordBlock)
      requires Valid() && (if isNew then FreeCount(Used()) > 0 else indirect < |Seen()|)
      modifies cache, cache.entries, freeMap.words
      ensures Valid() && Seen() == old(Seen()) && i < |Seen()|
      ensures isNew ==> !old(Used())[i] && Used() == old(Used())[i := true]
      ensures isNew ==> FreeCount(Used()) == FreeCount(old(Used())) - 1
      ensures !isNew ==> i == indirect && Used() == old(Used()) && blocks == Unpack(Seen()[i])
    {
      hide CacheSpec.Inv, CacheSpec.View, FreeCount;
      assert |Unpack(ZEROS)| == WORDS;
      blocks :| |blocks| == WORDS;
      i := indirect;
      if isNew {
        var r := Allocate();
        assert r.Some?;
        i := r.value;
        FreeCountTake(old(Used()), i);
      } else {
        var _, d := cache.Read(indirect);
        blocks := Unpack(d);
      }
    }

    // ----- Files -----

    /** `byte_to_sector` */
    method ByteToSector(s: nat, pos: nat) returns (r: Option<nat>)
      requires Valid() && FileOk(Seen(), s)
      modifies cache, cache.entries
      ensures Valid() && Seen() == old(Seen())
      ensures var di := InodeAt(Seen(), s);
              r == if pos < di.length then Some(Ptr(di, Seen(), pos / SECTOR_SIZE)) else None
    {
      hide BlockCache.Valid, BlockCache.Seen;
      var _, d := cache.Read(s);
      var di := Decode(d);
      if pos < di.length {
        if pos < DIRECT_CNT * SECTOR_SIZE {
          r := Some(di.direct[pos / SECTOR_SIZE]);
        } else {
          // read_sector
          var _, ptrs := cache.Read(di.indirect);
          r := Some(WordAt(ptrs, pos / SECTOR_SIZE - DIRECT_CNT));
        }
      } else {
        r := None;
      }
    }

    /** `inode_length` */
    method Length(s: nat) returns (n: nat)
      requires Valid() && FileOk(Seen(), s)
      modifies cache, cache.entries
      ensures Valid() && Seen() == old(Seen())
      ensures n == |FileBytes(Seen(), s)|
    {
      hide BlockCache.Valid, BlockCache.Seen;
      var _, d := cache.Read(s);
      n := Decode(d).length;
    }

    /** `inode_read_at`: `n` bytes of the file arrive at the front of `out`. */
    method ReadAt(s: nat, buffer: seq<byte>, size: nat, offset: nat) returns (n: int, out: seq<byte>)
      requires Valid() && FileOk(Seen(), s) && size <= |buffer|
      modifies cache, cache.entries
      ensures Valid() && Seen() == old(Seen()) && |out| == |buffer|
      ensures s > LAST_INODE_SECTOR ==> n == -1 && out == buffer
      ensures s <= LAST_INODE_SECTOR ==> IsRead(FileBytes(Seen(), s), buffer, size, offset, n, out)
    {
      hide *;
      if s > LAST_INODE_SECTOR {
        return -1, buffer;
      }
      n, out := ReadLoop(s, buffer, size, offset);
    }

    method ReadLoop(s: nat, buffer: seq<byte>, size: nat, offset: nat) returns (n: nat, out: seq<byte>)
      requires Valid() && FileOk(Seen(), s) && size <= |buffer|
      modifies cache, cache.entries
      ensures Valid() && Seen() == old(Seen()) && |out| == |buffer|
      ensures IsRead(FileBytes(Seen(), s), buffer, size, offset, n, out)
    {
      hide Valid, FileOk, Received, FileBytes, IsZeroFilled;
      ghost var v := Seen();
      ghost var c := FileBytes(v, s);
      out := buffer;
      var len := Length(s);
      if offset >= len {
        out := ZeroFill(buffer, size);
      } else {
        ReceiveNothing(c, buffer, offset);
      }
      n := 0;
      while n < size
        invariant n <= size && Valid() && Seen() == v && |out| == |buffer|
        invariant offset >= |c| ==> n == 0 && IsZeroFilled(buffer, size, out)
        invariant offset < |c| ==> offset + n <= |c| && Received(c, buffer, offset, n, out)
      {
        var chunk, data := ReadChunk(s, offset + n, size - n);
        if chunk <= 0 {
          break;
        }
        ReceiveMore(c, buffer, offset, n, out, chunk);
        out := out[..n] + data + out[n + chunk..];
        n := n + chunk;
      }
    }

    /** One turn of the loop of `inode_read_at`. */
    method ReadChunk(s: nat, pos: nat, left: nat) returns (chunk: int, data: seq<byte>)
      requires Valid() && FileOk(Seen(), s) && left > 0
      modifies cache, cache.entries
      ensures Valid() && Seen() == old(Seen())
      ensures chunk <= 0 <==> pos >= |FileBytes(Seen(), s)|
      ensures chunk > 0 ==> chunk <= left && pos + chunk <= |FileBytes(Seen(), s)|
      ensures chunk > 0 ==> data == FileBytes(Seen(), s)[pos..pos + chunk]
    {
      hide BlockCache.Valid, BlockCache.Seen, FileOk;
      var sector := ByteToSector(s, pos);
      var ofs := pos % SECTOR_SIZE;
      var len := Length(s);
      var inodeLeft, sectorLeft := len - pos, SECTOR_SIZE - ofs;
      var minLeft := if inodeLeft < sectorLeft then inodeLeft else sectorLeft;
      chunk := if left < minLeft then left else minLeft;
      data := [];
      if chunk <= 0 {
        return;
      }
      ChunkOf(Seen(), s, pos, chunk);
      if ofs == 0 && chunk == SECTOR_SIZE {
        var _, d := cache.Read(sector.value);
        data := d;
      } else {
        data := cache.ReadBytes(sector.value, ofs, chunk);
      }
    }

    /** `inode_create`: its loops are those of `add_inode`, starting from an empty inode. */
    method CreateFile(s: nat, length: Word, ghost files: set<nat>)
      requires Valid() && FsInv(Seen(), Used(), files) && length <= MAX_LENGTH
      requires s < |Seen()| && Used()[s] && s !in files && forall t :: t in files ==> s !in FileOwned(Seen(), t)
      requires FreeCount(Used()) >= SectorsNeeded(0, length)
      modifies cache, cache.entries, freeMap.words
      ensures Valid()
      ensures OnlyFile(old(Seen()), old(Used()), Seen(), Used(), files + {s}, s, {s}, ZeroExtend([], length))
    {
      hide BlockCache.Valid, BlockCache.Seen, FsInv, OnlyFile, Grown, FreeCount, Encode, SectorsNeeded, FileOwned;
      var di, add := Grow(EMPTY, length);
      CreatedOnly(old(Seen()), old(Used()), files, s, length, di, Seen(), Used(), add);
      cache.Write(s, Encode(di));
    }

    /** The first half of `inode_write_at`: extend the file to at least `newLength` bytes. */
    method Extend(s: nat, newLength: Word, ghost files: set<nat>) returns (di: InodeDisk)
      requires Valid() && FsInv(Seen(), Used(), files) && s in files && newLength <= MAX_LENGTH
      requires FreeCount(Used()) >= SectorsNeeded(|FileBytes(Seen(), s)|, newLength)
      modifies cache, cache.entries, freeMap.words
      ensures Valid() && s < |Seen()| && Seen()[s] == Encode(di)
      ensures OnlyFile(old(Seen()), old(Used()), Seen(), Used(), files, s, FileOwned(old(Seen()), s),
                       ZeroExtend(FileBytes(old(Seen()), s), newLength))
    {
      FileHeader(Seen(), Used(), files, s);
      hide BlockCache.Valid, BlockCache.Seen, FsInv, FreeCount, Grown, FileOk, Decode, Encode, FileBytes;
      hide OnlyFile, SectorsNeeded;
      var _, d := cache.Read(s);
      ghost var add: seq<Word>;
      di, add := Grow(Decode(d), newLength);
      ExtendedOnly(old(Seen()), old(Used()), files, s, newLength, di, Seen(), Used(), add);
      cache.Write(s, Encode(di));
    }

    /** One turn of the loop of `inode_write_at`. */
    method WriteChunk(s: nat, pos: nat, rest: seq<byte>, ghost v: Disk, ghost u: seq<bool>, ghost files: set<nat>,
                      ghost was: set<nat>, ghost c: seq<byte>)
      returns (chunk: nat)
      requires Valid() && OnlyFile(v, u, Seen(), Used(), files, s, was, c)
      requires rest != [] && pos + |rest| <= |c|
      modifies cache, cache.entries
      ensures Valid() && 0 < chunk <= |rest|
      ensures OnlyFile(v, u, Seen(), Used(), files, s, was, Overwrite(c, rest[..chunk], pos))
      ensures s < |Seen()| == |old(Seen())| && Seen()[s] == old(Seen())[s]
    {
      ChunkOf(Seen(), s, pos, 1);
      hide BlockCache.Valid, BlockCache.Seen, OnlyFile, InodeOk, Patch, FsInv, SameFiles, Overwrite;
      var sector := ByteToSector(s, pos);
      var ofs := pos % SECTOR_SIZE;
      var len := Length(s);
      var inodeLeft, sectorLeft := len - pos, SECTOR_SIZE - ofs;
      var minLeft := if inodeLeft < sectorLeft then inodeLeft else sectorLeft;
      chunk := if |rest| < minLeft then |rest| else minLeft;
      StoredOnly(v, u, Seen(), Used(), files, s, was, c, pos, rest[..chunk], sector.value);
      if ofs == 0 && chunk == SECTOR_SIZE {
        PatchWhole(Seen()[sector.value], rest[..chunk]);
        cache.Write(sector.value, rest[..chunk]);
      } else {
        cache.WriteBytes(sector.value, rest[..chunk], ofs);
      }
    }

    /** `inode_write_at`, for an inode that does not deny writes: the file is extended with zeros as
        far as the write reaches, and then `buffer` is written over it. */
    method WriteAt(s: nat, buffer: seq<byte>, offset: nat, ghost files: set<nat>) returns (n: nat)
      requires Valid() && FsInv(Seen(), Used(), files) && s in files && offset + |buffer| <= MAX_LENGTH
      requires FreeCount(Used()) >= SectorsNeeded(|FileBytes(Seen(), s)|, offset + |buffer|)
      modifies cache, cache.entries, freeMap.words
      ensures Valid() && n == |buffer|
      ensures OnlyFile(old(Seen()), old(Used()), Seen(), Used(), files, s, FileOwned(old(Seen()), s),
                       Overwrite(ZeroExtend(FileBytes(old(Seen()), s), offset + |buffer|), buffer, offset))
    {
      hide BlockCache.Valid, BlockCache.Seen, OnlyFile, Encode, FileBytes, FreeCount, SectorsNeeded, InodeOk;
      hide FileOwned, SameFiles;
      ghost var v, u := Seen(), Used();
      ghost var c := ZeroExtend(FileBytes(v, s), offset + |buffer|);
      var di := Extend(s, offset + |buffer|, files);
      n := WriteLoop(s, buffer, offset, v, u, files, FileOwned(v, s), c);
      assert Seen()[s := Encode(di)] == Seen();
      cache.Write(s, Encode(di));
    }

    method WriteLoop(s: nat, buffer: seq<byte>, offset: nat, ghost v: Disk, ghost u: seq<bool>, ghost files: set<nat>,
                     ghost was: set<nat>, ghost c: seq<byte>)
      returns (n: nat)
      requires Valid() && s < |Seen()| && OnlyFile(v, u, Seen(), Used(), files, s, was, c) && offset + |buffer| <= |c|
      modifies cache, cache.entries
      ensures Valid() && n == |buffer|
      ensures OnlyFile(v, u, Seen(), Used(), files, s, was, Overwrite(c, buffer, offset))
      ensures s < |Seen()| == |old(Seen())| && Seen()[s] == old(Seen())[s]
    {
      hide Valid, OnlyFile;
      ghost var now := c;
      assert Overwrite(c, buffer[..0], offset) == c;
      n := 0;
      while n < |buffer|
        invariant n <= |buffer| && Valid() && s < |Seen()| == |old(Seen())| && Seen()[s] == old(Seen())[s]
        invariant now == Overwrite(c, buffer[..n], offset)
        invariant OnlyFile(v, u, Seen(), Used(), files, s, was, now)
      {
        var chunk := WriteChunk(s, offset + n, buffer[n..], v, u, files, was, now);
        WroteMore(c, buffer, offset, n, chunk);
        now := Overwrite(now, buffer[n..][..chunk], offset + n);
        n := n + chunk;
      }
      assert buffer[..n] == buffer;
    }

    // ----- Deletion -----

    /** `free_map_release` of one sector, which must be in use. */
    method Release(b: nat)
      requires Valid() && b < |Used()| && Used()[b]
      modifies freeMap.words
      ensures Valid() && Seen() == old(Seen()) && Used() == old(Used())[b := false]
    {
      hide BlockCache.Valid, BlockCache.Seen;
      freeMap.SetMultiple(b, 1, false);
      assert Used() == old(Used())[b := false];
    }

    /** `deallocate_inode`. Beyond the direct blocks it reads "sector" `&disk_inode->indirect`, an
        address above every sector number, and the block layer panics. */
    method Deallocate(di: InodeDisk, ghost s: nat) returns (panic: bool)
      requires Valid() && InodeOk(di, Seen(), s) && forall x :: x in Owned(di, Seen(), s) ==> Used()[x]
      modifies freeMap.words
      ensures panic <==> Count(di) > DIRECT_CNT
      ensures !panic ==> Valid() && Seen() == old(Seen()) && Used() == Released(old(Used()), Blocks(di, Seen()))
    {
      ghost var v, u := Seen(), Used();
      var total := di.length / SECTOR_SIZE;
      if total * SECTOR_SIZE < di.length {
        total := total + 1;
      }
      assert total == Count(di);
      var remaining := total;
      var j := 0;
      while j < total && j < DIRECT_CNT
        invariant 0 <= j <= total && j <= DIRECT_CNT && remaining == total - j
        invariant Valid() && Seen() == v && Used() == Released(u, FirstBlocks(di, v, j))
      {
        NextBlock(di, v, u, s, j);
        Release(di.direct[j]);
        remaining := remaining - 1;
        j := j + 1;
      }
      panic := remaining > 0;
      if !panic {
        assert FirstBlocks(di, v, j) == Blocks(di, v);
      }
    }

    /** The last close of a removed inode: release the blocks, then the header. */
    method DeleteFile(s: nat, ghost files: set<nat>) returns (panic: bool)
      requires Valid() && FsInv(Seen(), Used(), files) && s in files
      modifies cache, cache.entries, freeMap.words
      ensures panic <==> IsLarge(old(Seen()), s)
      ensures !panic ==> Valid() && Seen() == old(Seen()) && Used() == Released(old(Used()), FileOwned(old(Seen()), s))
    {
      hide BlockCache.Valid, BlockCache.Seen;
      FileApart(Seen(), Used(), files, s);
      var _, d := cache.Read(s);
      panic := Deallocate(Decode(d), s);
      if !panic {
        HeaderLast(Decode(d), Seen(), old(Used()), s);
        Release(s);
      }
    }
  }

  ghost function FirstBlocks(di: InodeDisk, v: Disk, j: nat): set<nat>
    requires j <= MAX_SECTORS
  {
    set k | 0 <= k < j :: Ptr(di, v, k)
  }

  lemma NextBlock(di: InodeDisk, v: Disk, u: seq<bool>, s: nat, j: nat)
    requires InodeOk(di, v, s) && |u| == |v| && j < Count(di)
    requires forall x :: x in Owned(di, v, s) ==> u[x]
    ensures var b := Ptr(di, v, j);
            && b < |u| && Released(u, FirstBlocks(di, v, j))[b]
            && Released(u, FirstBlocks(di, v, j + 1)) == Released(u, FirstBlocks(di, v, j))[b := false]
  {
    var b := Ptr(di, v, j);
    assert b in Blocks(di, v) && b in Owned(di, v, s);
    assert FirstBlocks(di, v, j + 1) == FirstBlocks(di, v, j) + {b};
  }

  lemma HeaderLast(di: InodeDisk, v: Disk, u: seq<bool>, s: nat)
    requires InodeOk(di, v, s) && |u| == |v| && Count(di) <= DIRECT_CNT
    requires forall x :: x in Owned(di, v, s) ==> u[x]
    ensures Released(u, Blocks(di, v))[s]
    ensures Released(u, Owned(di, v, s)) == Released(u, Blocks(di, v))[s := false]
  {
    assert s in Owned(di, v, s);
    assert s !in Blocks(di, v);
  }

  /** How many free sectors growth takes: the new blocks, and the indirect block if it is new. */
  function SectorsNeeded(length: nat, newLength: nat): nat {
    var n, n' := SectorCount(length), SectorCount(newLength);
    if n' <= n then 0 else n' - n + if n <= DIRECT_CNT < n' then 1 else 0
  }

  /** The buffer that a read beyond the end of the file leaves: zeros, copied from an array of
      one sector, and whatever lies behind that array for requests longer than a sector. */
  method ZeroFill(buffer: seq<byte>, size: nat) returns (out: seq<byte>)
    requires size <= |buffer|
    ensures IsZeroFilled(buffer, size, out)
  {
    if size <= SECTOR_SIZE {
      out := seq(size, i => 0) + buffer[size..];
    } else {
      var junk: seq<byte> :| |junk| == size - SECTOR_SIZE by {
        assert |seq<byte>(size - SECTOR_SIZE, i => 0)| == size - SECTOR_SIZE;
      }
      out := ZEROS + junk + buffer[size..];
    }
  }
}
