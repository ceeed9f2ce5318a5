/** What each call on the write-back sector cache does to its state, and what that
    means: the cache refines the raw device, and it is an exact LRU cache. */
module CacheSpec {
  import opened Sectors

  const CACHE_SIZE: nat := 32

  datatype Entry = Entry(sector: nat, refCount: int, dirty: bool, data: Data)

  /** The live entries (slots below `entry_num`) and the device behind them. */
  datatype State = State(live: seq<Entry>, device: Disk)

  // ----- The calls -----

  function Touch(e: Entry, s: nat): Entry {
    if e.sector == s then e.(refCount := 0) else e.(refCount := e.refCount + 1)
  }

  /** The scan that starts every call: the accessed sector's entries become fresh, all others age. */
  function Touched(live: seq<Entry>, s: nat): (t: seq<Entry>)
    ensures |t| == |live|
    ensures forall i :: 0 <= i < |t| ==> t[i] == Touch(live[i], s)
  {
    seq(|live|, i requires 0 <= i < |live| => Touch(live[i], s))
  }

  /** The highest slot that holds sector `s`, or -1. */
  function Find(live: seq<Entry>, s: nat): (r: int)
    ensures -1 <= r < |live|
    ensures r >= 0 ==> live[r].sector == s
    ensures forall j :: r < j < |live| ==> live[j].sector != s
  {
    if live == [] then -1
    else if live[|live| - 1].sector == s then |live| - 1
    else Find(live[..|live| - 1], s)
  }

  /** The lowest slot among those with the largest reference count. */
  function Victim(live: seq<Entry>): (m: nat)
    requires live != []
    ensures m < |live|
    ensures forall j :: 0 <= j < |live| ==> live[j].refCount <= live[m].refCount
    ensures forall j :: 0 <= j < m ==> live[j].refCount < live[m].refCount
  {
    var n := |live| - 1;
    if n == 0 then 0
    else
      var m := Victim(live[..n]);
      if live[n].refCount > live[m].refCount then n else m
  }

  /** Writing an entry back to the device on eviction. */
  function Flush(device: Disk, e: Entry): (d: Disk)
    ensures |d| == |device|
  {
    if e.dirty && e.sector < |device| then device[e.sector := e.data] else device
  }

  function Write(st: State, s: nat, d: Data): State {
    var t := Touched(st.live, s);
    var e := Entry(s, 0, true, d);
    var r := Find(t, s);
    if r >= 0 then st.(live := t[r := e])
    else if |t| + 1 < CACHE_SIZE then st.(live := t + [e])
    else
      // The call that fills the last slot goes on to evict as well, so it installs `e` twice.
      var full := if |t| < CACHE_SIZE then t + [e] else t;
      var m := Victim(t);
      State(full[m := e], Flush(st.device, full[m]))
  }

  function Read(st: State, s: nat): (State, Data)
    requires s < |st.device|
  {
    var r := Find(st.live, s);
    if r >= 0 then (st.(live := Touched(st.live, s)), st.live[r].data)
    else (Write(st, s, st.device[s]), st.device[s])
  }

  /** The device after the first `k` entries have been written back, in slot order. */
  function Synced(st: State, k: nat): (d: Disk)
    requires k <= |st.live|
    requires forall i :: 0 <= i < |st.live| ==> st.live[i].sector < |st.device|
    ensures |d| == |st.device|
  {
    if k == 0 then st.device
    else Synced(st, k - 1)[st.live[k - 1].sector := st.live[k - 1].data]
  }

  function Sync(st: State): State
    requires forall i :: 0 <= i < |st.live| ==> st.live[i].sector < |st.device|
  {
    st.(device := Synced(st, |st.live|))
  }

  // ----- The invariant -----

  /** A sector may be cached twice, but only with the upper copy in the last slot, and
      then the two copies always age together. */
  ghost predicate Inv(st: State) {
    && |st.live| <= CACHE_SIZE
    && (forall i :: 0 <= i < |st.live| ==>
          st.live[i].sector < |st.device| && st.live[i].refCount >= 0 && st.live[i].dirty)
    && (forall i, j :: 0 <= i < j < |st.live| && st.live[i].sector == st.live[j].sector ==>
          j == CACHE_SIZE - 1 && st.live[i].refCount == st.live[j].refCount)
  }

  /** The disk as callers see it: the highest live copy of a sector, else the device. */
  function ViewAt(st: State, s: nat): Data
    requires s < |st.device|
  {
    var r := Find(st.live, s);
    if r >= 0 then st.live[r].data else st.device[s]
  }

  function View(st: State): (v: Disk)
    ensures |v| == |st.device|
    ensures forall s :: 0 <= s < |v| ==> v[s] == ViewAt(st, s)
  {
    seq(|st.device|, s requires 0 <= s < |st.device| => ViewAt(st, s))
  }

  // ----- Each call refines the same call on the raw device -----

  /** `Find` is determined by its contract. */
  lemma FindIs(live: seq<Entry>, s: nat, r: int)
    requires -1 <= r < |live|
    requires r >= 0 ==> live[r].sector == s
    requires forall j :: r < j < |live| ==> live[j].sector != s
    ensures Find(live, s) == r
  {
  }

  lemma TouchedView(st: State, s: nat)
    requires Inv(st)
    ensures Inv(st.(live := Touched(st.live, s)))
    ensures View(st.(live := Touched(st.live, s))) == View(st)
  {
    var st' := st.(live := Touched(st.live, s));
    forall x | 0 <= x < |st.device|
      ensures ViewAt(st', x) == ViewAt(st, x)
    {
      FindIs(st'.live, x, Find(st.live, x));
    }
  }

  lemma WriteRefines(st: State, s: nat, d: Data)
    requires Inv(st) && s < |st.device|
    ensures Inv(Write(st, s, d))
    ensures View(Write(st, s, d)) == View(st)[s := d]
  {
    hide Inv, Touched, Find, Victim, Flush;
    var t := Touched(st.live, s);
    WriteKeepsInv(st, s, d);
    TouchedView(st, s);
    forall x | 0 <= x < |st.device|
      ensures ViewAt(Write(st, s, d), x) == View(st)[s := d][x]
    {
      assert ViewAt(st, x) == View(st)[x] == View(st.(live := t))[x];
      hide ViewAt;
      if Find(t, s) >= 0 {
        ReplaceView(st.(live := t), s, d, x);
      } else if |t| + 1 < CACHE_SIZE {
        AppendView(st.(live := t), s, d, x);
      } else {
        EvictView(st.(live := t), s, d, x);
      }
    }
  }

  lemma WriteKeepsInv(st: State, s: nat, d: Data)
    requires Inv(st) && s < |st.device|
    ensures Inv(Write(st, s, d))
  {
    hide Inv, Fresh, Touched, Find, Victim, Flush;
    var t := Touched(st.live, s);
    TouchedKeepsInv(st, s);
    if Find(t, s) >= 0 {
      ReplaceKeepsInv(st.(live := t), s, d);
    } else if |t| + 1 < CACHE_SIZE {
      AppendKeepsInv(st.(live := t), s, d);
    } else {
      EvictKeepsInv(st.(live := t), s, d);
    }
  }

  lemma TouchedKeepsInv(st: State, s: nat)
    requires Inv(st)
    ensures Inv(st.(live := Touched(st.live, s))) && Fresh(Touched(st.live, s), s)
  {
  }

  /** The copies of the accessed sector have count 0. */
  ghost predicate Fresh(t: seq<Entry>, s: nat) {
    forall i :: 0 <= i < |t| && t[i].sector == s ==> t[i].refCount == 0
  }

  /** The three branches of a write on the aged entries: over the copy found, ... */
  lemma ReplaceKeepsInv(st: State, s: nat, d: Data)
    requires Inv(st) && Fresh(st.live, s) && s < |st.device| && Find(st.live, s) >= 0
    ensures Inv(st.(live := st.live[Find(st.live, s) := Entry(s, 0, true, d)]))
  {
  }

  /** ... into a free slot, ... */
  lemma AppendKeepsInv(st: State, s: nat, d: Data)
    requires Inv(st) && s < |st.device| && Find(st.live, s) < 0 && |st.live| + 1 < CACHE_SIZE
    ensures Inv(st.(live := st.live + [Entry(s, 0, true, d)]))
  {
  }

  /** ... and in the victim's place, after the last slot if that was free. */
  lemma EvictKeepsInv(st: State, s: nat, d: Data)
    requires Inv(st) && s < |st.device| && Find(st.live, s) < 0 && |st.live| + 1 >= CACHE_SIZE
    ensures var e := Entry(s, 0, true, d);
            var full := if |st.live| < CACHE_SIZE then st.live + [e] else st.live;
            var m := Victim(st.live);
            Inv(State(full[m := e], Flush(st.device, full[m])))
  {
  }

  /** The three branches change the view of the written sector alone. */
  lemma ReplaceView(st: State, s: nat, d: Data, x: nat)
    requires Find(st.live, s) >= 0 && x < |st.device|
    ensures var st' := st.(live := st.live[Find(st.live, s) := Entry(s, 0, true, d)]);
            ViewAt(st', x) == if x == s then d else ViewAt(st, x)
  {
    var live' := st.live[Find(st.live, s) := Entry(s, 0, true, d)];
    FindIs(live', x, Find(st.live, x));
    hide Find;
  }

  lemma AppendView(st: State, s: nat, d: Data, x: nat)
    requires Find(st.live, s) < 0 && x < |st.device|
    ensures ViewAt(st.(live := st.live + [Entry(s, 0, true, d)]), x) == if x == s then d else ViewAt(st, x)
  {
    FindIs(st.live + [Entry(s, 0, true, d)], x, if x == s then |st.live| else Find(st.live, x));
    hide Find;
  }

  /** The victim is never the upper of two copies. */
  lemma EvictView(st: State, s: nat, d: Data, x: nat)
    requires Inv(st) && Find(st.live, s) < 0 && |st.live| + 1 >= CACHE_SIZE && x < |st.device|
    ensures var e := Entry(s, 0, true, d);
            var full := if |st.live| < CACHE_SIZE then st.live + [e] else st.live;
            var m := Victim(st.live);
            ViewAt(State(full[m := e], Flush(st.device, full[m])), x) == if x == s then d else ViewAt(st, x)
  {
    hide Find;
    var t, e := st.live, Entry(s, 0, true, d);
    var m, r := Victim(t), Find(t, x);
    var live' := (if |t| < CACHE_SIZE then t + [e] else t)[m := e];
    hide Victim;
    if x == s {
      FindIs(live', x, if |t| < CACHE_SIZE then |t| else m);
    } else {
      FindIs(live', x, if r == m then -1 else r);
    }
  }

  lemma ReadRefines(st: State, s: nat)
    requires Inv(st) && s < |st.device|
    ensures Inv(Read(st, s).0)
    ensures View(Read(st, s).0) == View(st)
    ensures Read(st, s).1 == View(st)[s]
  {
    TouchedView(st, s);
    if Find(st.live, s) < 0 {
      WriteRefines(st, s, st.device[s]);
      assert View(st)[s := st.device[s]] == View(st);
    }
  }

  lemma {:induction false} SyncedAt(st: State, k: nat, s: nat)
    requires Inv(st) && k <= |st.live| && s < |st.device|
    ensures Synced(st, k)[s] == ViewAt(State(st.live[..k], st.device), s)
  {
    if k > 0 {
      SyncedAt(st, k - 1, s);
      assert st.live[..k][..k - 1] == st.live[..k - 1];
    }
  }

  lemma SyncRefines(st: State)
    requires Inv(st)
    ensures Inv(Sync(st))
    ensures Sync(st).device == View(st)
    ensures View(Sync(st)) == View(st)
  {
    assert st.live[..|st.live|] == st.live;
    forall s | 0 <= s < |st.device|
      ensures Sync(st).device[s] == ViewAt(st, s)
      ensures ViewAt(Sync(st), s) == ViewAt(st, s)
    {
      SyncedAt(st, |st.live|, s);
    }
  }

  // ----- Whole runs -----

  datatype Op = ReadOp(s: nat) | WriteOp(s: nat, d: Data) | SyncOp

  ghost predicate InRange(ops: seq<Op>, size: nat) {
    forall i :: 0 <= i < |ops| && !ops[i].SyncOp? ==> ops[i].s < size
  }

  /** One call, on the cache and on a device with no cache. */
  ghost function Step(st: State, op: Op): (st': State)
    requires Inv(st) && (!op.SyncOp? ==> op.s < |st.device|)
    ensures Inv(st') && |st'.device| == |st.device|
    ensures View(st') == RawStep(View(st), op)
  {
    match op
    case ReadOp(s) => ReadRefines(st, s); Read(st, s).0
    case WriteOp(s, d) => WriteRefines(st, s, d); Write(st, s, d)
    case SyncOp => SyncRefines(st); Sync(st)
  }

  ghost function RawStep(disk: Disk, op: Op): (disk': Disk)
    requires !op.SyncOp? ==> op.s < |disk|
    ensures |disk'| == |disk|
  {
    if op.WriteOp? then disk[op.s := op.d] else disk
  }

  /** The cache state after a run. */
  ghost function Run(st: State, ops: seq<Op>): (st': State)
    requires Inv(st) && InRange(ops, |st.device|)
    ensures Inv(st') && |st'.device| == |st.device|
  {
    if ops == [] then st else Step(Run(st, ops[..|ops| - 1]), ops[|ops| - 1])
  }

  /** The same run against a device with no cache. */
  ghost function RunRaw(disk: Disk, ops: seq<Op>): (disk': Disk)
    requires InRange(ops, |disk|)
    ensures |disk'| == |disk|
  {
    if ops == [] then disk else RawStep(RunRaw(disk, ops[..|ops| - 1]), ops[|ops| - 1])
  }

  /** After every run the cached disk looks exactly like the uncached one ... */
  lemma {:induction false} RunRefinesRaw(st: State, ops: seq<Op>)
    requires Inv(st) && InRange(ops, |st.device|)
    ensures View(Run(st, ops)) == RunRaw(View(st), ops)
  {
    if ops != [] {
      RunRefinesRaw(st, ops[..|ops| - 1]);
    }
  }

  /** ... so every read in a run returns what the uncached device would return, and after
      every sync the physical device itself equals the uncached one. */
  lemma EveryReadAndSyncIsExact(st: State, ops: seq<Op>, i: nat)
    requires Inv(st) && InRange(ops, |st.device|) && i < |ops|
    ensures ops[i].ReadOp? ==>
              Read(Run(st, ops[..i]), ops[i].s).1 == RunRaw(View(st), ops[..i])[ops[i].s]
    ensures ops[i].SyncOp? ==>
              Run(st, ops[..i + 1]).device == RunRaw(View(st), ops[..i + 1])
  {
    RunRefinesRaw(st, ops[..i]);
    var before := Run(st, ops[..i]);
    assert ops[..i + 1][..i] == ops[..i];
    if ops[i].ReadOp? {
      ReadRefines(before, ops[i].s);
    } else if ops[i].SyncOp? {
      SyncRefines(before);
    }
  }
}
