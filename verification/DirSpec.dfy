/** Directories: files of 32-byte slots that represent a finite map from names to inodes. */
module DirSpec {
  import opened CStrings
  import opened Sectors
  import opened Bits
  import opened InodeLayout
  import opened InodeSpec
  import opened FileSpec

  const ENTRY_SIZE: nat := 32
  const NAME_MAX: nat := 14
  const IS_DIR: Word := 1

  const DOT: Name := [46]
  const DOT_DOT: Name := [46, 46]

  /** A `struct dir_entry`: inode sector, 15 bytes of name, an unused pointer, type, in-use flag. */
  type Entry = e: seq<byte> | |e| == ENTRY_SIZE witness seq(ENTRY_SIZE, i => 0)

  function EntrySector(e: Entry): Word { Join(e[0], e[1], e[2], e[3]) }

  function EntryName(e: Entry): Name { CStr(e[4..19]) }

  function EntryType(e: Entry): Word { Join(e[24], e[25], e[26], e[27]) }

  predicate InUse(e: Entry) { e[28] != 0 }

  function WordBytes(w: Word): (b: seq<byte>)
    ensures |b| == 4 && Join(b[0], b[1], b[2], b[3]) == w
  {
    JoinBytes(w);
    [ByteOf(w, 0), ByteOf(w, 1), ByteOf(w, 2), ByteOf(w, 3)]
  }

  /** The entry that `dir_add` fills in over whatever its buffer held before. */
  function MakeEntry(junk: Entry, sector: Word, name: Name, kind: Word): Entry
    requires |name| <= NAME_MAX
  {
    WordBytes(sector) + (name + [0] + junk[5 + |name|..24]) + WordBytes(kind) + [1] + junk[29..]
  }

  lemma MadeEntry(junk: Entry, sector: Word, name: Name, kind: Word)
    requires |name| <= NAME_MAX && 0 !in name
    ensures var e := MakeEntry(junk, sector, name, kind);
            InUse(e) && EntryName(e) == name && EntrySector(e) == sector && EntryType(e) == kind
  {
    var e := MakeEntry(junk, sector, name, kind);
    var field := name + [0] + junk[5 + |name|..24];
    assert e[4..19] == field[..15] == name + [0] + junk[5 + |name|..19];
    CStrOf(name, junk[5 + |name|..19]);
    assert e[0..4] == WordBytes(sector);
    assert e[24..28] == WordBytes(kind);
  }

  /** The entry lies in the slot as `struct dir_entry` does, little-endian; padding keeps what it held. */
  lemma EntryLayout(junk: Entry, sector: Word, name: Name, kind: Word)
    requires |name| <= 14
    ensures var e := MakeEntry(junk, sector, name, kind);
            && LittleEndian(e[0..4], sector) && e[4..4 + |name|] == name && e[4 + |name|] == 0
            && LittleEndian(e[24..28], kind) && e[28] == 1
            && forall i :: 5 + |name| <= i < 24 || 29 <= i < 32 ==> e[i] == junk[i]
  {
    hide ByteOf, Join;
    var e := MakeEntry(junk, sector, name, kind);
    assert e[0..4] == WordBytes(sector) && e[24..28] == WordBytes(kind);
    JoinIsLittleEndian(WordBytes(sector));
    JoinIsLittleEndian(WordBytes(kind));
  }

  // ----- Slots -----

  function Slots(c: seq<byte>): nat { |c| / ENTRY_SIZE }

  function Slot(c: seq<byte>, i: nat): Entry
    requires i < Slots(c)
  {
    c[i * ENTRY_SIZE..(i + 1) * ENTRY_SIZE]
  }

  predicate Holds(e: Entry, name: Name) { InUse(e) && EntryName(e) == name }

  /** The first slot from `i` on that is in use under `name`, or the number of slots. */
  function FirstNamed(c: seq<byte>, name: Name, i: nat): (k: nat)
    requires i <= Slots(c)
    ensures i <= k <= Slots(c)
    ensures k < Slots(c) ==> Holds(Slot(c, k), name)
    ensures forall j :: i <= j < k ==> !Holds(Slot(c, j), name)
    decreases Slots(c) - i
  {
    if i == Slots(c) || Holds(Slot(c, i), name) then i else FirstNamed(c, name, i + 1)
  }

  /** The first slot from `i` on that is not in use, or the number of slots. */
  function FirstFree(c: seq<byte>, i: nat): (k: nat)
    requires i <= Slots(c)
    ensures i <= k <= Slots(c)
    ensures k < Slots(c) ==> !InUse(Slot(c, k))
    ensures forall j :: i <= j < k ==> InUse(Slot(c, j))
    decreases Slots(c) - i
  {
    if i == Slots(c) || !InUse(Slot(c, i)) then i else FirstFree(c, i + 1)
  }

  // ----- The map -----

  /** A directory file holds whole slots, and no name is in use twice. */
  ghost predicate DirOk(c: seq<byte>) {
    && |c| % ENTRY_SIZE == 0
    && forall i, j :: 0 <= i < j < Slots(c) && InUse(Slot(c, i)) && InUse(Slot(c, j)) ==>
         EntryName(Slot(c, i)) != EntryName(Slot(c, j))
  }

  ghost function Names(c: seq<byte>): set<Name> {
    set i | 0 <= i < Slots(c) && InUse(Slot(c, i)) :: EntryName(Slot(c, i))
  }

  ghost function Value(e: Entry): (Word, Word) { (EntrySector(e), EntryType(e)) }

  /** The directory as a map from names to inode sectors and types. */
  ghost function Entries(c: seq<byte>): (m: map<Name, (Word, Word)>)
    requires DirOk(c)
    ensures m.Keys == Names(c)
    ensures forall i :: 0 <= i < Slots(c) && InUse(Slot(c, i)) ==> m[EntryName(Slot(c, i))] == Value(Slot(c, i))
  {
    hide DirOk, ValueOf;
    map n | n in Names(c) :: ValueOf(c, n)
  }

  ghost function ValueOf(c: seq<byte>, name: Name): (v: (Word, Word))
    requires DirOk(c) && name in Names(c)
    ensures forall i :: 0 <= i < Slots(c) && Holds(Slot(c, i), name) ==> v == Value(Slot(c, i))
  {
    hide Slot, EntryName, InUse, Value;
    Value(Slot(c, IndexOf(c, name)))
  }

  ghost function IndexOf(c: seq<byte>, name: Name): (i: nat)
    requires name in Names(c)
    ensures i < Slots(c) && Holds(Slot(c, i), name)
  {
    var i :| 0 <= i < Slots(c) && Holds(Slot(c, i), name);
    i
  }

  /** A file of zeros is a directory without entries. */
  lemma ZerosAreEmptyDir(c: seq<byte>)
    requires |c| % ENTRY_SIZE == 0 && forall i :: 0 <= i < |c| ==> c[i] == 0
    ensures DirOk(c) && Entries(c) == map[]
  {
    forall i | 0 <= i < Slots(c) ensures !InUse(Slot(c, i)) {
      assert Slot(c, i)[28] == c[i * ENTRY_SIZE + 28];
    }
  }

  /** Every entry names an existing file. */
  ghost predicate NamesExist(m: map<Name, (Word, Word)>, files: set<nat>) {
    forall n :: n in m ==> m[n].0 in files
  }

  /** No other entry of the directory names the same file. */
  ghost predicate OnlyName(m: map<Name, (Word, Word)>, name: Name) {
    name in m && forall n :: n in m && n != name ==> m[n].0 != m[name].0
  }

  /** When a name goes, the others still name existing files exactly if the file stays or had no other name. */
  lemma RemovedNamesExist(m: map<Name, (Word, Word)>, files: set<nat>, name: Name, files': set<nat>, stays: bool)
    requires NamesExist(m, files) && name in m && files' == if stays then files else files - {m[name].0 as nat}
    ensures NamesExist(m - {name}, files') <==> stays || OnlyName(m, name)
  {
    if !stays && !OnlyName(m, name) {
      var n :| n in m && n != name && m[n].0 == m[name].0;
      assert n in m - {name} && (m - {name})[n].0 !in files';
    }
  }

  lemma AddedNamesExist(m: map<Name, (Word, Word)>, files: set<nat>, name: Name, value: (Word, Word))
    requires NamesExist(m, files) && name !in m
    ensures NamesExist(m[name := value], files) <==> value.0 in files
  {
    assert m[name := value][name] == value;
  }

  /** `lookup` decides membership and finds the value. */
  lemma LookupIsMap(c: seq<byte>, name: Name)
    requires DirOk(c)
    ensures name in Entries(c) <==> FirstNamed(c, name, 0) < Slots(c)
    ensures name in Entries(c) ==> Entries(c)[name] == Value(Slot(c, FirstNamed(c, name, 0)))
  {
    var k := FirstNamed(c, name, 0);
    if name in Names(c) {
      var i := IndexOf(c, name);
      assert Holds(Slot(c, i), name);
    }
    if k < Slots(c) {
      assert EntryName(Slot(c, k)) in Names(c);
    }
  }

  /** A directory with fewer entries than slots has a free slot among the first ones. */
  lemma FreeSlotExists(c: seq<byte>)
    requires DirOk(c)
    ensures FirstFree(c, 0) <= |Entries(c)|
  {
    DistinctNames(c, FirstFree(c, 0));
  }

  lemma {:induction false} DistinctNames(c: seq<byte>, k: nat)
    requires DirOk(c) && k <= Slots(c) && forall j :: 0 <= j < k ==> InUse(Slot(c, j))
    ensures k <= |Names(c)|
  {
    hide Slot, EntryName, InUse;
    var first := set j | 0 <= j < k :: EntryName(Slot(c, j));
    NamesUpTo(c, k);
    assert first <= Names(c);
    Fewer(first, Names(c));
  }

  lemma {:induction false} NamesUpTo(c: seq<byte>, k: nat)
    requires DirOk(c) && k <= Slots(c) && forall j :: 0 <= j < k ==> InUse(Slot(c, j))
    ensures |set j | 0 <= j < k :: EntryName(Slot(c, j))| == k
  {
    hide Slot, EntryName, InUse, DirOk;
    var all := set j | 0 <= j < k :: EntryName(Slot(c, j));
    if k > 0 {
      NamesUpTo(c, k - 1);
      var rest := set j | 0 <= j < k - 1 :: EntryName(Slot(c, j));
      assert all == rest + {EntryName(Slot(c, k - 1))};
      NewName(c, k - 1);
    }
  }

  lemma NewName(c: seq<byte>, k: nat)
    requires DirOk(c) && k < Slots(c) && forall j :: 0 <= j <= k ==> InUse(Slot(c, j))
    ensures forall j :: 0 <= j < k ==> EntryName(Slot(c, j)) != EntryName(Slot(c, k))
  {
    hide Slot, EntryName, InUse;
  }

  lemma Fewer(s: set<Name>, t: set<Name>)
    requires s <= t
    ensures |s| <= |t|
  {
    assert t == s + (t - s);
  }

  // ----- Changing a slot -----

  /** The file after `e` has been written into slot `k`, at most one past the end. */
  function Stored(c: seq<byte>, k: nat, e: Entry): (r: seq<byte>)
    requires k <= Slots(c) && |c| % ENTRY_SIZE == 0
  {
    Overwrite(ZeroExtend(c, (k + 1) * ENTRY_SIZE), e, k * ENTRY_SIZE)
  }

  lemma StoredSlots(c: seq<byte>, k: nat, e: Entry)
    requires k <= Slots(c) && |c| % ENTRY_SIZE == 0
    ensures |Stored(c, k, e)| % ENTRY_SIZE == 0
    ensures Slots(Stored(c, k, e)) == if k == Slots(c) then k + 1 else Slots(c)
    ensures forall i :: 0 <= i < Slots(Stored(c, k, e)) ==>
              Slot(Stored(c, k, e), i) == if i == k then e else Slot(c, i)
  {
    var r := Stored(c, k, e);
    assert |c| == Slots(c) * ENTRY_SIZE;
    assert |r| == if k == Slots(c) then (k + 1) * ENTRY_SIZE else |c|;
    forall i | 0 <= i < Slots(r) ensures Slot(r, i) == if i == k then e else Slot(c, i) {
      assert i < k ==> (i + 1) * ENTRY_SIZE <= k * ENTRY_SIZE;
      assert i > k ==> (k + 1) * ENTRY_SIZE <= i * ENTRY_SIZE;
    }
  }

  /** Storing an entry under a new name into a free slot, or behind the last one, adds it to the map. */
  lemma AddedToMap(c: seq<byte>, k: nat, e: Entry)
    requires DirOk(c) && k <= Slots(c) && (k < Slots(c) ==> !InUse(Slot(c, k)))
    requires InUse(e) && EntryName(e) !in Names(c)
    ensures DirOk(Stored(c, k, e))
    ensures Entries(Stored(c, k, e)) == Entries(c)[EntryName(e) := Value(e)]
  {
    hide Stored, Slot, EntryName, InUse, Value, Names, DirOk;
    assert |c| % ENTRY_SIZE == 0 by { DirWhole(c); }
    AddedNames(c, k, e);
    forall n | n in Names(c) ensures Entries(Stored(c, k, e))[n] == Entries(c)[n] {
      AddedKeeps(c, k, e, n);
    }
    AddedValue(c, k, e);
    hide *;
  }

  lemma DirWhole(c: seq<byte>)
    requires DirOk(c)
    ensures |c| % ENTRY_SIZE == 0
  {
  }

  lemma AddedKeeps(c: seq<byte>, k: nat, e: Entry, n: Name)
    requires DirOk(c) && k <= Slots(c) && (k < Slots(c) ==> !InUse(Slot(c, k)))
    requires DirOk(Stored(c, k, e)) && n in Names(c) && n in Names(Stored(c, k, e))
    ensures Entries(Stored(c, k, e))[n] == Entries(c)[n]
  {
    StoredSlots(c, k, e);
    hide Stored, Slot, EntryName, InUse, Value, Names;
    var i := IndexOf(c, n);
    assert Slot(Stored(c, k, e), i) == Slot(c, i);
  }

  lemma AddedValue(c: seq<byte>, k: nat, e: Entry)
    requires k <= Slots(c) && |c| % ENTRY_SIZE == 0 && InUse(e) && DirOk(Stored(c, k, e))
    ensures EntryName(e) in Names(Stored(c, k, e)) && Entries(Stored(c, k, e))[EntryName(e)] == Value(e)
  {
    StoredSlots(c, k, e);
    assert Slot(Stored(c, k, e), k) == e;
  }

  lemma AddedNames(c: seq<byte>, k: nat, e: Entry)
    requires DirOk(c) && k <= Slots(c) && (k < Slots(c) ==> !InUse(Slot(c, k)))
    requires InUse(e) && EntryName(e) !in Names(c)
    ensures DirOk(Stored(c, k, e))
    ensures Names(Stored(c, k, e)) == Names(c) + {EntryName(e)}
  {
    StoredSlots(c, k, e);
    var r := Stored(c, k, e);
    hide Stored, Slot, EntryName, InUse;
    forall i | 0 <= i < Slots(c) && InUse(Slot(c, i)) ensures EntryName(Slot(c, i)) in Names(c) {
    }
    forall n | n in Names(r) ensures n == EntryName(e) || n in Names(c) {
      var i := IndexOf(r, n);
      assert i != k ==> InUse(Slot(c, i)) && EntryName(Slot(c, i)) == n;
    }
    forall n | n in Names(c) ensures n in Names(r) {
      var i := IndexOf(c, n);
      assert i != k && Slot(r, i) == Slot(c, i);
    }
    assert Slot(r, k) == e && EntryName(e) in Names(r);
  }

  /** Clearing the in-use flag of a slot removes its name, and only that, from the map. */
  lemma RemovedFromMap(c: seq<byte>, k: nat, e: Entry)
    requires DirOk(c) && k < Slots(c) && InUse(Slot(c, k)) && !InUse(e)
    ensures DirOk(Stored(c, k, e))
    ensures Entries(Stored(c, k, e)) == Entries(c) - {EntryName(Slot(c, k))}
  {
    StoredSlots(c, k, e);
    var r, name := Stored(c, k, e), EntryName(Slot(c, k));
    hide Stored, Slot, EntryName, InUse, Value;
    assert DirOk(r);
    forall n | n in Names(r) ensures n in Names(c) && n != name && Entries(r)[n] == Entries(c)[n] {
      var i := IndexOf(r, n);
      assert i != k && Slot(r, i) == Slot(c, i);
    }
    forall n | n in Names(c) && n != name ensures n in Names(r) {
      var i := IndexOf(c, n);
      assert i != k && Slot(r, i) == Slot(c, i);
    }
  }

  // ----- Listing -----

  /** The entries that `dir_readdir` reports: all in use but "." and "..". */
  predicate Listed(e: Entry) {
    InUse(e) && EntryName(e) != DOT && EntryName(e) != DOT_DOT
  }

  function NextListed(c: seq<byte>, i: nat): (k: nat)
    requires i <= Slots(c)
    ensures i <= k <= Slots(c)
    ensures k < Slots(c) ==> Listed(Slot(c, k))
    ensures forall j :: i <= j < k ==> !Listed(Slot(c, j))
    decreases Slots(c) - i
  {
    if i == Slots(c) || Listed(Slot(c, i)) then i else NextListed(c, i + 1)
  }

  /** A directory is empty when its map has no name but "." and "..". */
  lemma EmptyIsUnlisted(c: seq<byte>)
    requires DirOk(c)
    ensures NextListed(c, 0) == Slots(c) <==> Entries(c).Keys <= {DOT, DOT_DOT}
  {
    var k := NextListed(c, 0);
    if k < Slots(c) {
      assert EntryName(Slot(c, k)) in Names(c);
    } else {
      forall n | n in Names(c) ensures n in {DOT, DOT_DOT} {
        assert !Listed(Slot(c, IndexOf(c, n)));
      }
    }
  }

  /** The entry that `dir_remove` writes back. */
  function Cleared(e: Entry): (r: Entry)
    ensures !InUse(r) && forall i :: 0 <= i < 32 && i != 28 ==> r[i] == e[i]
  {
    e[28 := 0]
  }
}
