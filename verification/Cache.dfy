/** The write-back sector cache in front of the file-system device. */
module Cache {
  import opened Sectors
  import opened CacheSpec

  /** The sector number that `cache_init` puts in an empty slot. */
  const NO_SECTOR: nat := 0xFFFF_FFFF

  class BlockCache {
    const entries: array<Entry>
    var entryNum: nat
    var device: Disk

    ghost function Abs(): State
      reads this, entries
      requires entryNum <= entries.Length
    {
      State(entries[..entryNum], device)
    }

    ghost predicate Valid()
      reads this, entries
    {
      && entries.Length == CACHE_SIZE
      && entryNum <= CACHE_SIZE
      && Inv(Abs())
    }

    /** The disk as the rest of the file system sees it. */
    ghost function Seen(): (v: Disk)
      reads this, entries
      requires Valid()
      ensures |v| == |device|
    {
      View(Abs())
    }

    constructor (device: Disk)
      ensures Valid() && fresh(entries)
      ensures Abs() == State([], device)
      ensures Seen() == device
    {
      this.device := device;
      entryNum := 0;
      entries := new Entry[CACHE_SIZE](i => Entry(NO_SECTOR, 0, false, ZEROS));
      new;
      assert entries[..0] == [];
    }

    /** `cache_read` */
    method Read(s: nat) returns (hit: bool, data: Data)
      requires Valid() && s < |device|
      modifies this, entries
      ensures Valid()
      ensures (Abs(), data) == CacheSpec.Read(old(Abs()), s)
      ensures hit <==> Find(old(Abs()).live, s) >= 0
      ensures Seen() == old(Seen()) && data == Seen()[s]
    {
      ghost var st := Abs();
      ReadRefines(st, s);
      hit, data := Probe(s);
      if !hit {
        Unage(s, st.live);
        assert Abs() == st;
        data := device[s];
        Write(s, data);
      }
    }

    /** The first loop of `cache_read`: age the entries and copy out the last match. */
    method Probe(s: nat) returns (hit: bool, data: Data)
      requires entryNum <= entries.Length
      modifies entries
      ensures entries[..entryNum] == Touched(old(Abs()).live, s)
      ensures hit <==> Find(old(Abs()).live, s) >= 0
      ensures hit ==> data == old(Abs()).live[Find(old(Abs()).live, s)].data
    {
      hide Find, Touched;
      ghost var live := Abs().live;
      hit, data := false, ZEROS;
      FindIs(live[..0], s, -1);
      for i := 0 to entryNum
        invariant forall j :: 0 <= j < i ==> entries[j] == Touch(live[j], s)
        invariant forall j :: i <= j < entryNum ==> entries[j] == live[j]
        invariant hit <==> Find(live[..i], s) >= 0
        invariant hit ==> data == live[Find(live[..i], s)].data
      {
        FindSnoc(live, i, s);
        if entries[i].sector == s {
          data := entries[i].data;
          entries[i] := entries[i].(refCount := 0);
          hit := true;
        } else {
          entries[i] := entries[i].(refCount := entries[i].refCount + 1);
        }
      }
      assert live[..entryNum] == live;
    }

    /** The second loop of `cache_read`, after a miss: take back what the first one added. */
    method Unage(s: nat, ghost live: seq<Entry>)
      requires entryNum <= entries.Length
      requires entries[..entryNum] == Touched(live, s) && Find(live, s) < 0
      modifies entries
      ensures entries[..entryNum] == live
    {
      assert forall j :: 0 <= j < entryNum ==> entries[j] == entries[..entryNum][j];
      for i := 0 to entryNum
        invariant forall j :: 0 <= j < i ==> entries[j] == live[j]
        invariant forall j :: i <= j < entryNum ==> entries[j] == Touch(live[j], s)
      {
        entries[i] := entries[i].(refCount := entries[i].refCount - 1);
      }
    }

    /** `cache_write` */
    method Write(s: nat, data: Data)
      requires Valid() && s < |device|
      modifies this, entries
      ensures Valid()
      ensures Abs() == CacheSpec.Write(old(Abs()), s, data)
      ensures Seen() == old(Seen())[s := data]
    {
      ghost var st := Abs();
      WriteRefines(st, s, data);
      assert forall i :: 0 <= i < entryNum ==> entries[i] == st.live[i];
      var replace, maxIndex, found := Scan(s);
      TouchedInRange(st, s);
      hide Inv, View, CacheSpec.Write;
      Install(s, data, replace, maxIndex, found, st);
    }

    /** The rest of `cache_write`, after its scan. */
    method Install(s: nat, data: Data, replace: nat, maxIndex: nat, found: bool, ghost st: State)
      requires entryNum <= CACHE_SIZE == entries.Length
      requires device == st.device && entries[..entryNum] == Touched(st.live, s)
      requires forall i :: 0 <= i < |st.live| ==> Touched(st.live, s)[i].sector < |device|
      requires found <==> Find(Touched(st.live, s), s) >= 0
      requires found ==> replace == Find(Touched(st.live, s), s)
      requires !found && entryNum > 0 ==> maxIndex == Victim(Touched(st.live, s))
      modifies this, entries
      ensures entryNum <= CACHE_SIZE && Abs() == CacheSpec.Write(st, s, data)
    {
      hide Find, Victim, Touched;
      ghost var t := Touched(st.live, s);
      assert forall i :: 0 <= i < entryNum ==> entries[i] == t[i];
      var e := Entry(s, 0, true, data);
      if found {
        entries[replace] := e;
        assert entries[..entryNum] == t[replace := e];
        return;
      }
      if entryNum < CACHE_SIZE {
        entries[entryNum] := e;
        entryNum := entryNum + 1;
        assert entries[..entryNum] == t + [e];
      }
      if entryNum < CACHE_SIZE {
        return;
      }
      if entries[maxIndex].dirty {
        device := device[entries[maxIndex].sector := entries[maxIndex].data];
      }
      ghost var full := entries[..entryNum];
      entries[maxIndex] := e;
      assert entries[..entryNum] == full[maxIndex := e];
    }

    /** The first loop of `cache_write`: age the entries, find the sector, pick a victim. */
    method Scan(s: nat) returns (replace: nat, maxIndex: nat, found: bool)
      requires entryNum <= entries.Length
      requires forall i :: 0 <= i < entryNum ==> entries[i].refCount >= 0
      modifies entries
      ensures entries[..entryNum] == Touched(old(Abs()).live, s)
      ensures found <==> Find(entries[..entryNum], s) >= 0
      ensures found ==> replace == Find(entries[..entryNum], s)
      ensures !found && entryNum > 0 ==> maxIndex == Victim(entries[..entryNum])
    {
      hide Find, Victim, Touched;
      ghost var live := Abs().live;
      ghost var t := Touched(live, s);
      var max := 0;
      replace, maxIndex, found := 0, 0, false;
      for i := 0 to entryNum
        invariant forall j :: 0 <= j < i ==> entries[j] == t[j]
        invariant forall j :: i <= j < entryNum ==> entries[j] == live[j]
        invariant found ==> replace < i && t[replace].sector == s
        invariant forall j :: (if found then replace + 1 else 0) <= j < i ==> t[j].sector != s
        invariant i == 0 ==> maxIndex == max == 0
        invariant i > 0 && !found ==> maxIndex < i && max == t[maxIndex].refCount
        invariant !found ==> forall j :: 0 <= j < i ==> t[j].refCount <= max
        invariant !found ==> forall j :: 0 <= j < maxIndex ==> t[j].refCount < max
      {
        if entries[i].sector == s {
          entries[i] := entries[i].(refCount := 0);
          found := true;
          replace := i;
        } else {
          entries[i] := entries[i].(refCount := entries[i].refCount + 1);
          if entries[i].refCount > max {
            max := entries[i].refCount;
            maxIndex := i;
          }
        }
      }
      FindIs(t, s, if found then replace else -1);
      if !found && entryNum > 0 {
        VictimIs(t, maxIndex);
      }
      assert entries[..entryNum] == t;
    }

    /** `cache_sync` */
    method Sync()
      requires Valid()
      modifies this`device
      ensures Valid()
      ensures Abs() == CacheSpec.Sync(old(Abs()))
      ensures Seen() == old(Seen()) && device == Seen()
    {
      hide Find, View, Inv, Synced;
      ghost var st := Abs();
      SyncRefines(st);
      OnDevice(st);
      SyncedNext(st, 0);
      var i := 0;
      while i < entryNum
        invariant 0 <= i <= entryNum
        invariant device == Synced(st, i)
      {
        SyncedNext(st, i);
        device := device[entries[i].sector := entries[i].data];
        i := i + 1;
      }
    }

    /** `cache_read_bytes` */
    method ReadBytes(s: nat, offset: nat, size: nat) returns (bytes: seq<byte>)
      requires Valid() && s < |device| && offset + size <= SECTOR_SIZE
      modifies this, entries
      ensures Valid() && Seen() == old(Seen())
      ensures bytes == Seen()[s][offset..offset + size]
    {
      var _, bounce := Read(s);
      bytes := bounce[offset..offset + size];
    }

    /** `cache_write_bytes`: a partial sector is read, patched and written back. */
    method WriteBytes(s: nat, bytes: seq<byte>, offset: nat)
      requires Valid() && s < |device| && offset + |bytes| <= SECTOR_SIZE
      modifies this, entries
      ensures Valid()
      ensures Seen() == old(Seen())[s := Patch(old(Seen())[s], bytes, offset)]
    {
      var bounce: Data;
      if offset > 0 || |bytes| < SECTOR_SIZE - offset {
        var _, d := Read(s);
        bounce := d;
      } else {
        bounce := ZEROS;
      }
      assert Patch(bounce, bytes, offset) == Patch(old(Seen())[s], bytes, offset);
      Write(s, Patch(bounce, bytes, offset));
    }
  }

  lemma OnDevice(st: State)
    requires Inv(st)
    ensures forall i :: 0 <= i < |st.live| ==> st.live[i].sector < |st.device|
  {
  }

  lemma SyncedNext(st: State, i: nat)
    requires i <= |st.live| && forall k :: 0 <= k < |st.live| ==> st.live[k].sector < |st.device|
    ensures i == 0 ==> Synced(st, i) == st.device
    ensures i < |st.live| ==> Synced(st, i + 1) == Synced(st, i)[st.live[i].sector := st.live[i].data]
  {
  }

  lemma TouchedInRange(st: State, s: nat)
    requires Inv(st)
    ensures forall i :: 0 <= i < |st.live| ==> Touched(st.live, s)[i].sector < |st.device|
  {
  }

  lemma FindSnoc(live: seq<Entry>, i: nat, s: nat)
    requires i < |live|
    ensures Find(live[..i + 1], s) == if live[i].sector == s then i else Find(live[..i], s)
  {
    assert live[..i + 1][..i] == live[..i];
  }

  lemma VictimIs(live: seq<Entry>, m: nat)
    requires m < |live|
    requires forall j :: 0 <= j < |live| ==> live[j].refCount <= live[m].refCount
    requires forall j :: 0 <= j < m ==> live[j].refCount < live[m].refCount
    ensures Victim(live) == m
  {
  }
}
