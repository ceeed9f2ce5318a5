/** What an inode means: a file of up to 124 + 128 sectors is a byte sequence, and the files
    of a file system own disjoint sets of sectors. */
module InodeSpec {
  import opened Sectors
  import opened InodeLayout

  const MAX_SECTORS: nat := DIRECT_CNT + WORDS
  const MAX_LENGTH: nat := MAX_SECTORS * SECTOR_SIZE

  /** `bytes_to_sectors` */
  function SectorCount(length: nat): nat {
    (length + SECTOR_SIZE - 1) / SECTOR_SIZE
  }

  /** The sectors hold the bytes, and one less would not. */
  lemma SectorsHold(length: nat)
    ensures 512 * SectorCount(length) - 512 < length <= 512 * SectorCount(length) || length == SectorCount(length) == 0
  {
  }

  function Count(di: InodeDisk): nat {
    SectorCount(di.length)
  }

  /** The sector of block `k`: direct below 124, through the indirect block from there on. */
  function Ptr(di: InodeDisk, v: Disk, k: nat): nat
    requires k < MAX_SECTORS
  {
    if k < DIRECT_CNT then di.direct[k]
    else if di.indirect < |v| then WordAt(v[di.indirect], k - DIRECT_CNT)
    else 0
  }

  function ByteAt(di: InodeDisk, v: Disk, p: nat): byte
    requires p < MAX_LENGTH
  {
    var b := Ptr(di, v, p / SECTOR_SIZE);
    if b < |v| then v[b][p % SECTOR_SIZE] else 0
  }

  /** The bytes of the file. */
  function Contents(di: InodeDisk, v: Disk): (c: seq<byte>)
    requires di.length <= MAX_LENGTH
    ensures |c| == di.length
    ensures forall p :: 0 <= p < |c| ==> c[p] == ByteAt(di, v, p)
  {
    seq(di.length, p requires 0 <= p < di.length => ByteAt(di, v, p))
  }

  // ----- Ownership -----

  /** The header sector and, if the file has one, the indirect block. */
  ghost function Meta(di: InodeDisk, s: nat): set<nat> {
    {s} + if Count(di) > DIRECT_CNT then {di.indirect as nat} else {}
  }

  ghost function Blocks(di: InodeDisk, v: Disk): set<nat>
    requires di.length <= MAX_LENGTH
  {
    set k | 0 <= k < Count(di) :: Ptr(di, v, k)
  }

  ghost function Owned(di: InodeDisk, v: Disk, s: nat): set<nat>
    requires di.length <= MAX_LENGTH
  {
    Meta(di, s) + Blocks(di, v)
  }

  /** Inode `di`, kept in sector `s`: no sector is used twice, and the bytes of the last
      sector beyond the end of the file are zero. */
  ghost predicate InodeOk(di: InodeDisk, v: Disk, s: nat) {
    && di.length <= MAX_LENGTH
    && s < |v|
    && (Count(di) > DIRECT_CNT ==> di.indirect < |v| && di.indirect != s)
    && (forall k :: 0 <= k < Count(di) ==> Ptr(di, v, k) < |v| && Ptr(di, v, k) !in Meta(di, s))
    && (forall j, k :: 0 <= j < k < Count(di) ==> Ptr(di, v, j) != Ptr(di, v, k))
    && (forall p :: di.length <= p < Count(di) * SECTOR_SIZE ==> ByteAt(di, v, p) == 0)
  }

  // ----- Changes to the disk that leave an inode alone -----

  lemma SameInode(di: InodeDisk, v: Disk, v': Disk, s: nat)
    requires InodeOk(di, v, s) && |v'| == |v|
    requires forall x :: x in Owned(di, v, s) && x != s ==> v'[x] == v[x]
    ensures forall k :: 0 <= k < Count(di) ==> Ptr(di, v', k) == Ptr(di, v, k)
    ensures InodeOk(di, v', s)
    ensures Contents(di, v') == Contents(di, v)
    ensures Owned(di, v', s) == Owned(di, v, s)
  {
    forall k | 0 <= k < Count(di)
      ensures Ptr(di, v', k) == Ptr(di, v, k) && v'[Ptr(di, v, k)] == v[Ptr(di, v, k)]
    {
      assert Ptr(di, v, k) in Blocks(di, v);
      assert k >= DIRECT_CNT ==> di.indirect as nat in Owned(di, v, s);
    }
    assert Blocks(di, v') == Blocks(di, v);
    forall p | 0 <= p < Count(di) * SECTOR_SIZE ensures ByteAt(di, v', p) == ByteAt(di, v, p) {
      assert p / SECTOR_SIZE < Count(di);
    }
  }

  // ----- Overwriting one block of a file -----

  lemma BlockWritten(di: InodeDisk, v: Disk, s: nat, k: nat, d: Data)
    requires InodeOk(di, v, s) && k < Count(di)
    requires forall i :: 0 <= i < SECTOR_SIZE && di.length <= k * SECTOR_SIZE + i ==> d[i] == 0
    ensures var v' := v[Ptr(di, v, k) := d];
            && (forall j :: 0 <= j < Count(di) ==> Ptr(di, v', j) == Ptr(di, v, j))
            && InodeOk(di, v', s)
            && Owned(di, v', s) == Owned(di, v, s)
            && (forall p :: 0 <= p < di.length ==>
                  Contents(di, v')[p] == if p / SECTOR_SIZE == k then d[p % SECTOR_SIZE] else Contents(di, v)[p])
  {
    var v' := v[Ptr(di, v, k) := d];
    forall j | 0 <= j < Count(di) ensures Ptr(di, v', j) == Ptr(di, v, j) {
      PtrStays(di, v, s, k, d, j);
    }
    hide Ptr, Count;
    assert Blocks(di, v') == Blocks(di, v);
    forall p | 0 <= p < Count(di) * SECTOR_SIZE
      ensures ByteAt(di, v', p) == if p / SECTOR_SIZE == k then d[p % SECTOR_SIZE] else ByteAt(di, v, p)
    {
      assert p / SECTOR_SIZE < Count(di);
    }
  }

  lemma PtrStays(di: InodeDisk, v: Disk, s: nat, k: nat, d: Data, j: nat)
    requires InodeOk(di, v, s) && k < Count(di) && j < Count(di)
    ensures Ptr(di, v[Ptr(di, v, k) := d], j) == Ptr(di, v, j)
  {
    assert j >= DIRECT_CNT ==> Ptr(di, v, k) != di.indirect;
  }

  // ----- Growing -----

  /** The sectors `add` and `ind` were free, the former are now zero, and nothing else changed
      but the contents of `ind` and of `keep`. */
  ghost predicate TookSectors(v: Disk, u: seq<bool>, v': Disk, u': seq<bool>, add: seq<nat>, ind: set<nat>,
                              keep: set<nat>)
  {
    && |v'| == |v| == |u| == |u'|
    && (forall x :: x in ind ==> x < |v| && !u[x])
    && (forall i :: 0 <= i < |add| ==> add[i] < |v| && !u[add[i]] && add[i] !in ind && IsZero(v'[add[i]]))
    && (forall i, j :: 0 <= i < j < |add| ==> add[i] != add[j])
    && (forall x :: 0 <= x < |u| ==> (u'[x] <==> u[x] || x in add || x in ind))
    && (forall x :: 0 <= x < |v| && x !in add && x !in ind && x !in keep ==> v'[x] == v[x])
  }

  /** The pointers of `di` are kept and followed by `add`. */
  ghost predicate Extends(di: InodeDisk, v: Disk, di': InodeDisk, v': Disk, add: seq<nat>) {
    && di.length <= di'.length <= MAX_LENGTH
    && |add| == Count(di') - Count(di)
    && (Count(di) > DIRECT_CNT ==> di'.indirect == di.indirect)
    && (forall k :: 0 <= k < Count(di) ==> Ptr(di', v', k) == Ptr(di, v, k))
    && (forall k :: Count(di) <= k < Count(di') ==> Ptr(di', v', k) == add[k - Count(di)])
  }

  ghost function NewIndirect(di: InodeDisk, di': InodeDisk): set<nat> {
    if Count(di) <= DIRECT_CNT < Count(di') then {di'.indirect as nat} else {}
  }

  ghost function OldIndirect(di: InodeDisk): set<nat> {
    if Count(di) > DIRECT_CNT then {di.indirect as nat} else {}
  }

  /** What `add_inode` and `inode_create` leave behind: `di'` extends `di` with the blocks `add`
      and, when the file first needs one, an indirect block; all were free and the blocks are zero. */
  ghost predicate Grown(di: InodeDisk, v: Disk, u: seq<bool>, di': InodeDisk, v': Disk, u': seq<bool>, add: seq<nat>) {
    && Extends(di, v, di', v', add)
    && TookSectors(v, u, v', u', add, NewIndirect(di, di'), OldIndirect(di))
  }

  function ZeroExtend(c: seq<byte>, n: nat): (r: seq<byte>)
    ensures |r| == if n > |c| then n else |c|
    ensures forall i :: 0 <= i < |r| ==> r[i] == if i < |c| then c[i] else 0
  {
    if n > |c| then c + seq(n - |c|, i => 0) else c
  }

  /** A grown inode is well formed again, and its file has been extended with zeros. */
  lemma GrownInode(di: InodeDisk, v: Disk, u: seq<bool>, di': InodeDisk, v': Disk, u': seq<bool>, add: seq<nat>, s: nat)
    requires InodeOk(di, v, s) && |u| == |v|
    requires forall x :: x in Owned(di, v, s) ==> u[x]
    requires Grown(di, v, u, di', v', u', add)
    ensures InodeOk(di', v', s)
    ensures Owned(di', v', s) == Owned(di, v, s) + (set x | x in add) + NewIndirect(di, di')
    ensures Contents(di', v') == ZeroExtend(Contents(di, v), di'.length)
  {
    GrownOwned(di, v, u, di', v', u', add, s);
    forall k | 0 <= k < Count(di') ensures Ptr(di', v', k) < |v| && Ptr(di', v', k) !in Meta(di', s) {
      GrownPtr(di, v, u, di', v', u', add, s, k);
    }
    forall j, k | 0 <= j < k < Count(di') ensures Ptr(di', v', j) != Ptr(di', v', k) {
      GrownPtr(di, v, u, di', v', u', add, s, j);
      GrownPtr(di, v, u, di', v', u', add, s, k);
    }
    forall p | 0 <= p < Count(di') * SECTOR_SIZE
      ensures ByteAt(di', v', p) == if p < di.length then ByteAt(di, v, p) else 0
    {
      GrownByte(di, v, u, di', v', u', add, s, p);
    }
    assert di'.length <= Count(di') * SECTOR_SIZE;
  }

  /** Block `k` of a grown inode is an old one, in use and unchanged, or a new one, free before and zero. */
  lemma GrownPtr(di: InodeDisk, v: Disk, u: seq<bool>, di': InodeDisk, v': Disk, u': seq<bool>, add: seq<nat>, s: nat,
                 k: nat)
    requires InodeOk(di, v, s) && |u| == |v|
    requires forall x :: x in Owned(di, v, s) ==> u[x]
    requires Grown(di, v, u, di', v', u', add)
    requires k < Count(di')
    ensures var b := Ptr(di', v', k);
            && b < |v| == |v'| && b !in Meta(di', s)
            && (k < Count(di) ==> b == Ptr(di, v, k) && u[b] && v'[b] == v[b])
            && (k >= Count(di) ==> b == add[k - Count(di)] && !u[b] && IsZero(v'[b]))
  {
    var b := Ptr(di', v', k);
    if k < Count(di) {
      assert b in Blocks(di, v) && b in Owned(di, v, s);
      assert forall i :: 0 <= i < |add| ==> !u[add[i]];
    } else {
      assert s in Owned(di, v, s);
      assert Count(di) > DIRECT_CNT ==> di.indirect as nat in Owned(di, v, s);
    }
  }

  lemma GrownByte(di: InodeDisk, v: Disk, u: seq<bool>, di': InodeDisk, v': Disk, u': seq<bool>, add: seq<nat>, s: nat,
                  p: nat)
    requires InodeOk(di, v, s) && |u| == |v|
    requires forall x :: x in Owned(di, v, s) ==> u[x]
    requires Grown(di, v, u, di', v', u', add)
    requires p < Count(di') * SECTOR_SIZE
    ensures ByteAt(di', v', p) == if p < di.length then ByteAt(di, v, p) else 0
  {
    hide Ptr, Count, InodeOk, Grown, Owned, Meta;
    InSector(Count(di'), p);
    InSector(Count(di), p);
    GrownPtr(di, v, u, di', v', u', add, s, p / SECTOR_SIZE);
    SlackIsZero(di, v, s, p);
  }

  lemma InSector(n: nat, p: nat)
    ensures p / SECTOR_SIZE < n <==> p < n * SECTOR_SIZE
  {
  }

  lemma SlackIsZero(di: InodeDisk, v: Disk, s: nat, p: nat)
    requires InodeOk(di, v, s)
    ensures di.length <= Count(di) * SECTOR_SIZE
    ensures di.length <= p < Count(di) * SECTOR_SIZE ==> p < MAX_LENGTH && ByteAt(di, v, p) == 0
  {
    hide Ptr;
  }

  lemma GrownOwned(di: InodeDisk, v: Disk, u: seq<bool>, di': InodeDisk, v': Disk, u': seq<bool>, add: seq<nat>, s: nat)
    requires di.length <= MAX_LENGTH
    requires Grown(di, v, u, di', v', u', add)
    ensures Owned(di', v', s) == Owned(di, v, s) + (set x | x in add) + NewIndirect(di, di')
  {
    var n := Count(di);
    assert Meta(di', s) == Meta(di, s) + NewIndirect(di, di');
    forall x | x in Blocks(di, v) || x in add ensures x in Blocks(di', v') {
      if x in Blocks(di, v) {
        var k :| 0 <= k < n && Ptr(di, v, k) == x;
        assert Ptr(di', v', k) == x;
      } else {
        var i :| 0 <= i < |add| && add[i] == x;
        assert Ptr(di', v', n + i) == x;
      }
    }
  }

  // ----- A file system of many files -----

  ghost function InodeAt(v: Disk, s: nat): InodeDisk
    requires s < |v|
  {
    Decode(v[s])
  }

  ghost predicate FileOk(v: Disk, s: nat) {
    s < |v| && InodeOk(InodeAt(v, s), v, s)
  }

  ghost function FileOwned(v: Disk, s: nat): set<nat>
    requires FileOk(v, s)
  {
    Owned(InodeAt(v, s), v, s)
  }

  ghost function FileBytes(v: Disk, s: nat): seq<byte>
    requires FileOk(v, s)
  {
    Contents(InodeAt(v, s), v)
  }

  /** The file has an indirect block. */
  ghost predicate IsLarge(v: Disk, s: nat) {
    s < |v| && Count(InodeAt(v, s)) > DIRECT_CNT
  }

  /** Every file is well formed, owns only sectors marked used, and shares none of them. */
  ghost predicate FsInv(v: Disk, u: seq<bool>, files: set<nat>) {
    && |u| == |v|
    && (forall s :: s in files ==> FileOk(v, s))
    && (forall s, x :: s in files && x in FileOwned(v, s) ==> u[x])
    && (forall s, t :: s in files && t in files && s != t ==> FileOwned(v, s) !! FileOwned(v, t))
  }

  lemma FileInFs(v: Disk, u: seq<bool>, files: set<nat>, s: nat)
    requires FsInv(v, u, files) && s in files
    ensures FileOk(v, s)
  {
  }

  /** A change outside a file's sectors does not touch that file. */
  lemma SameFile(v: Disk, v': Disk, s: nat)
    requires FileOk(v, s) && |v'| == |v|
    requires forall x :: x in FileOwned(v, s) ==> v'[x] == v[x]
    ensures FileOk(v', s)
    ensures FileOwned(v', s) == FileOwned(v, s) && FileBytes(v', s) == FileBytes(v, s)
    ensures InodeAt(v', s) == InodeAt(v, s)
  {
    assert s in FileOwned(v, s);
    SameInode(InodeAt(v, s), v, v', s);
  }

  ghost predicate SameFiles(v: Disk, v': Disk, files: set<nat>) {
    forall t :: t in files ==>
      FileOk(v, t) && FileOk(v', t) && FileOwned(v', t) == FileOwned(v, t) && FileBytes(v', t) == FileBytes(v, t)
  }

  /** Replacing one file: if nothing outside its old and new sectors changed, and its new
      sectors were its own or free, the other files are as they were. */
  lemma FileReplaced(v: Disk, u: seq<bool>, v': Disk, u': seq<bool>, others: set<nat>, was: set<nat>, s: nat)
    requires FsInv(v, u, others) && s !in others && |v'| == |v| == |u'|
    requires FileOk(v', s)
    requires forall t :: t in others ==> FileOwned(v, t) !! was
    requires forall x :: x in FileOwned(v', s) ==> u'[x] && (x in was || !u[x])
    requires forall x :: 0 <= x < |v| && x !in was && x !in FileOwned(v', s) ==> v'[x] == v[x]
    requires forall x :: 0 <= x < |v| && u[x] && x !in was ==> u'[x]
    ensures FsInv(v', u', others + {s})
    ensures SameFiles(v, v', others)
  {
    assert forall t, x :: t in others && x in FileOwned(v, t) ==> x < |v|;
    assert forall x :: x in FileOwned(v', s) ==> x < |v|;
    hide InodeOk, Owned;
    forall t | t in others
      ensures FileOk(v', t) && FileOwned(v', t) == FileOwned(v, t) && FileBytes(v', t) == FileBytes(v, t)
      ensures FileOwned(v', t) !! FileOwned(v', s)
    {
      forall x | x in FileOwned(v, t) ensures v'[x] == v[x] && x !in FileOwned(v', s) {
        assert u[x] && x !in was;
      }
      SameFile(v, v', t);
    }
  }
}
