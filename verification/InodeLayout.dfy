/** Inodes as they lie on disk: 124 direct pointers, one indirect block, the length. */
module InodeLayout {
  import opened Sectors
  import opened Bits

  const WORDS: nat := 128
  const DIRECT_CNT: nat := 124
  const INODE_MAGIC: Word := 0x494e4f44

  // ----- Words in a sector -----

  function Join(b0: byte, b1: byte, b2: byte, b3: byte): Word {
    var lo: int := b0 + 0x100 * (b1 as int);
    var hi: int := b2 + 0x100 * (b3 as int);
    lo + 0x1_0000 * hi
  }

  function ByteOf(w: Word, k: nat): byte
    requires k < 4
  {
    if k == 0 then w % 0x100
    else if k == 1 then w / 0x100 % 0x100
    else if k == 2 then w / 0x1_0000 % 0x100
    else w / 0x100_0000
  }

  lemma JoinBytes(w: Word)
    ensures Join(ByteOf(w, 0), ByteOf(w, 1), ByteOf(w, 2), ByteOf(w, 3)) == w
  {
    var q, h := w / 0x100, w / 0x1_0000;
    assert h == q / 0x100 && w / 0x100_0000 == h / 0x100;
    assert w == ByteOf(w, 0) + 0x100 * q;
    assert q == ByteOf(w, 1) + 0x100 * h;
    assert h == ByteOf(w, 2) + 0x100 * (ByteOf(w, 3) as int);
  }

  predicate LittleEndian(bs: seq<byte>, w: Word) {
    |bs| == 4 && w == bs[0] + 0x100 * (bs[1] + 0x100 * (bs[2] + 0x100 * (bs[3] as int)))
  }

  lemma JoinIsLittleEndian(bs: seq<byte>)
    requires |bs| == 4
    ensures LittleEndian(bs, Join(bs[0], bs[1], bs[2], bs[3]))
  {
  }

  /** The `i`th little-endian word of a sector. */
  function WordAt(d: Data, i: nat): Word
    requires i < WORDS
  {
    Join(d[4 * i], d[4 * i + 1], d[4 * i + 2], d[4 * i + 3])
  }

  type WordBlock = ws: seq<Word> | |ws| == WORDS witness seq(WORDS, i => 0)

  function Pack(ws: WordBlock): (d: Data) {
    seq(SECTOR_SIZE, i requires 0 <= i < SECTOR_SIZE => ByteOf(ws[i / 4], i % 4))
  }

  lemma PackAt(ws: WordBlock, i: nat)
    requires i < WORDS
    ensures WordAt(Pack(ws), i) == ws[i]
  {
    JoinBytes(ws[i]);
  }

  function Unpack(d: Data): (ws: WordBlock)
    ensures forall i :: 0 <= i < WORDS ==> ws[i] == WordAt(d, i)
  {
    seq(WORDS, i requires 0 <= i < WORDS => WordAt(d, i))
  }

  // ----- The inode sector -----

  datatype RawInode = RawInode(direct: seq<Word>, indirect: Word, doublyIndirect: Word, length: Word, magic: Word)

  type InodeDisk = r: RawInode | |r.direct| == DIRECT_CNT
    witness RawInode(seq(DIRECT_CNT, i => 0), 0, 0, 0, 0)

  /** The inode that `calloc` hands to `inode_create`, with its magic number. */
  const EMPTY: InodeDisk := RawInode(seq(DIRECT_CNT, i => 0), 0, 0, 0, INODE_MAGIC)

  function Encode(di: InodeDisk): Data {
    Pack(di.direct + [di.indirect, di.doublyIndirect, di.length, di.magic])
  }

  function Decode(d: Data): InodeDisk {
    RawInode(Unpack(d)[..DIRECT_CNT], WordAt(d, 124), WordAt(d, 125), WordAt(d, 126), WordAt(d, 127))
  }

  lemma DecodeEncode(di: InodeDisk)
    ensures Decode(Encode(di)) == di
  {
    var ws := di.direct + [di.indirect, di.doublyIndirect, di.length, di.magic];
    forall i | 0 <= i < WORDS ensures WordAt(Encode(di), i) == ws[i] {
      PackAt(ws, i);
    }
    assert Unpack(Encode(di)) == ws;
    assert ws[..DIRECT_CNT] == di.direct;
  }

  /** The fields lie in the sector in the order of `struct inode_disk`, little-endian. */
  lemma EncodeLayout(di: InodeDisk, k: nat)
    requires k < 128
    ensures LittleEndian(Encode(di)[4 * k..4 * k + 4],
                         if k < 124 then di.direct[k]
                         else if k == 124 then di.indirect
                         else if k == 125 then di.doublyIndirect
                         else if k == 126 then di.length
                         else di.magic)
  {
    hide ByteOf, Join, LittleEndian;
    var ws := di.direct + [di.indirect, di.doublyIndirect, di.length, di.magic];
    PackAt(ws, k);
    JoinIsLittleEndian(Encode(di)[4 * k..4 * k + 4]);
  }
}
