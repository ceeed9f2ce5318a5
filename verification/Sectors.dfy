/** Sectors of the file-system device: 512 bytes each (BLOCK_SECTOR_SIZE). */
module Sectors {

  const SECTOR_SIZE: nat := 512

  type byte = x: int | 0 <= x < 256

  /** The contents of one sector. */
  type Data = d: seq<byte> | |d| == SECTOR_SIZE witness seq(SECTOR_SIZE, i => 0)

  const ZEROS: Data := seq(SECTOR_SIZE, i => 0)

  predicate IsZero(d: Data) {
    forall i :: 0 <= i < SECTOR_SIZE ==> d[i] == 0
  }

  /** The contents of a whole device, indexed by sector number. */
  type Disk = seq<Data>

  /** `d` with `bytes` copied in at `offset`. */
  function Patch(d: Data, bytes: seq<byte>, offset: nat): (p: Data)
    requires offset + |bytes| <= SECTOR_SIZE
    ensures forall i :: 0 <= i < SECTOR_SIZE ==>
              p[i] == if offset <= i < offset + |bytes| then bytes[i - offset] else d[i]
  {
    d[..offset] + bytes + d[offset + |bytes|..]
  }

  lemma PatchWhole(d: Data, bytes: seq<byte>)
    requires |bytes| == SECTOR_SIZE
    ensures Patch(d, bytes, 0) == bytes
  {
  }
}
