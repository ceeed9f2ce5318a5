/** The reference counts make the sector cache an exact least-recently-used cache. */
module CacheLru {
  import opened Sectors
  import opened CacheSpec

  // ----- What LRU means, without mentioning the cache -----

  /** How many accesses of a history came after the last access to `s`. */
  ghost function Age(h: seq<nat>, s: nat): (a: nat)
    ensures s in h ==> a < |h| && h[|h| - 1 - a] == s
    ensures s !in h ==> a == |h|
  {
    if h == [] then 0
    else if h[|h| - 1] == s then 0
    else 1 + Age(h[..|h| - 1], s)
  }

  ghost function Without(q: seq<nat>, s: nat): (r: seq<nat>)
    ensures forall x :: x in r <==> x in q && x != s
  {
    if q == [] then [] else (if q[0] == s then [] else [q[0]]) + Without(q[1..], s)
  }

  /** The distinct sectors of a history, most recently accessed first. */
  ghost function Recent(h: seq<nat>): (r: seq<nat>)
    ensures forall x :: x in r <==> x in h
  {
    if h == [] then []
    else
      var s := h[|h| - 1];
      var r := [s] + Without(Recent(h[..|h| - 1]), s);
      assert h == h[..|h| - 1] + [s];
      assert forall x :: x in r <==> x == s || x in Without(Recent(h[..|h| - 1]), s);
      r
  }

  ghost function Elements(q: seq<nat>): set<nat> {
    set x | x in q
  }

  ghost predicate SortedByAge(q: seq<nat>, h: seq<nat>) {
    forall i, j :: 0 <= i < j < |q| ==> Age(h, q[i]) < Age(h, q[j])
  }

  lemma AgeStep(h: seq<nat>, s: nat, x: nat)
    ensures Age(h + [s], x) == if x == s then 0 else Age(h, x) + 1
  {
    assert (h + [s])[..|h|] == h;
  }

  lemma {:induction false} WithoutSorted(q: seq<nat>, s: nat, h: seq<nat>)
    requires SortedByAge(q, h)
    ensures SortedByAge(Without(q, s), h)
  {
    if q != [] {
      WithoutSorted(q[1..], s, h);
      var r := Without(q, s);
      forall i, j | 0 <= i < j < |r|
        ensures Age(h, r[i]) < Age(h, r[j])
      {
        var rest := Without(q[1..], s);
        if q[0] != s && i == 0 {
          assert r[j] == rest[j - 1] && rest[j - 1] in q[1..];
        } else if q[0] != s {
          assert r[i] == rest[i - 1] && r[j] == rest[j - 1];
        } else {
          assert r == rest;
        }
      }
    }
  }

  lemma {:induction false} RecentSorted(h: seq<nat>)
    ensures SortedByAge(Recent(h), h)
  {
    if h != [] {
      var n := |h| - 1;
      var s := h[n];
      var older := Without(Recent(h[..n]), s);
      RecentSorted(h[..n]);
      WithoutSorted(Recent(h[..n]), s, h[..n]);
      assert h == h[..n] + [s];
      hide SortedByAge, Age;
      SortedWithNew(older, s, h[..n]);
    }
  }

  lemma SortedWithNew(older: seq<nat>, s: nat, h: seq<nat>)
    requires SortedByAge(older, h) && s !in older
    ensures SortedByAge([s] + older, h + [s])
  {
    hide Age;
    var q := [s] + older;
    forall i, j | 0 <= i < j < |q| ensures Age(h + [s], q[i]) < Age(h + [s], q[j]) {
      AgeStep(h, s, q[i]);
      AgeStep(h, s, q[j]);
      assert q[j] == older[j - 1] && older[j - 1] in older;
      assert i > 0 ==> q[i] == older[i - 1] && older[i - 1] in older;
    }
  }

  // ----- The invariant -----

  ghost predicate Cached(st: State, s: nat) {
    Find(st.live, s) >= 0
  }

  /** Every live entry's count is the age of its sector, and only a full cache has forgotten
      any sector, always one that is older than everything it still holds. */
  ghost predicate LruInv(st: State, h: seq<nat>) {
    && (forall i :: 0 <= i < |st.live| ==>
          st.live[i].sector in h && st.live[i].refCount == Age(h, st.live[i].sector))
    && (forall s :: s in h && !Cached(st, s) ==> |st.live| == CACHE_SIZE && Outlived(st.live, Age(h, s)))
  }

  ghost predicate Outlived(live: seq<Entry>, age: int) {
    forall i :: 0 <= i < |live| ==> live[i].refCount < age
  }

  lemma TouchedLru(st: State, s: nat, h: seq<nat>)
    requires Inv(st) && LruInv(st, h)
    ensures forall i :: 0 <= i < |st.live| ==>
              var e := Touched(st.live, s)[i];
              e.sector in h && e.refCount == Age(h + [s], e.sector)
    ensures forall x :: Find(Touched(st.live, s), x) == Find(st.live, x)
    ensures forall x :: x in h && x != s && !Cached(st, x) ==>
              |st.live| == CACHE_SIZE && Outlived(Touched(st.live, s), Age(h + [s], x))
  {
    hide Age, Find, Inv;
    forall x
      ensures Age(h + [s], x) == if x == s then 0 else Age(h, x) + 1
      ensures Find(Touched(st.live, s), x) == Find(st.live, x)
    {
      AgeStep(h, s, x);
      FindIs(Touched(st.live, s), x, Find(st.live, x));
    }
  }

  /** The counts stay exact. */
  lemma WriteKeepsAges(st: State, s: nat, d: Data, h: seq<nat>, i: nat)
    requires Inv(st) && LruInv(st, h) && s < |st.device| && i < |Write(st, s, d).live|
    ensures var e := Write(st, s, d).live[i];
            e.sector in h + [s] && e.refCount == Age(h + [s], e.sector)
  {
    var e := Write(st, s, d).live[i];
    assert e == Entry(s, 0, true, d) || (i < |st.live| && e == Touched(st.live, s)[i]);
    AgeStep(h, s, e.sector);
    hide Write, Age;
    if i < |st.live| && e == Touched(st.live, s)[i] {
      TouchedLru(st, s, h);
    }
  }

  /** Without an eviction nothing is forgotten. */
  lemma FitForgetsNothing(st: State, s: nat, d: Data, x: nat)
    requires Find(Touched(st.live, s), s) >= 0 || |st.live| + 1 < CACHE_SIZE
    requires Cached(st, x) || x == s
    ensures Cached(Write(st, s, d), x)
  {
    var t := Touched(st.live, s);
    FindIs(t, x, Find(st.live, x));
    var i := if Find(t, x) >= 0 then Find(t, x) else |t|;
    assert Write(st, s, d).live[i].sector == x;
  }

  /** An eviction forgets nothing but the sector of the victim, and that one only if the
      victim is its sole copy. */
  lemma EvictForgetsVictim(st: State, s: nat, d: Data, x: nat)
    requires Find(Touched(st.live, s), s) < 0 && |st.live| + 1 >= CACHE_SIZE
    requires !Cached(Write(st, s, d), x)
    ensures x != s
    ensures Cached(st, x) ==> Touched(st.live, s)[Victim(Touched(st.live, s))].sector == x
    ensures forall j :: 0 <= j < |st.live| && j != Victim(Touched(st.live, s)) ==> st.live[j].sector != x
  {
    var t := Touched(st.live, s);
    var m := Victim(t);
    var live' := Write(st, s, d).live;
    assert live'[m].sector == s;
    forall j | 0 <= j < |t| && j != m ensures t[j].sector != x {
      assert live'[j].sector == t[j].sector;
    }
    FindIs(t, x, Find(st.live, x));
  }

  lemma AgesDiffer(h: seq<nat>, x: nat, y: nat)
    requires x in h && x != y
    ensures Age(h, x) != Age(h, y)
  {
  }

  /** The victim is older than every other entry of another sector. */
  lemma VictimIsOldest(st: State, s: nat, h: seq<nat>, j: nat)
    requires Inv(st) && LruInv(st, h) && st.live != [] && Find(st.live, s) < 0 && j < |st.live|
    requires st.live[j].sector != st.live[Victim(Touched(st.live, s))].sector
    ensures var t := Touched(st.live, s);
            t[j].refCount < Age(h + [s], t[Victim(t)].sector)
  {
    var t := Touched(st.live, s);
    var m := Victim(t);
    AgeStep(h, s, t[j].sector);
    AgeStep(h, s, t[m].sector);
    AgesDiffer(h, t[j].sector, t[m].sector);
    assert t[j].refCount <= t[m].refCount;
  }

  lemma FitForgetsNoMore(st: State, s: nat, d: Data, h: seq<nat>, x: nat)
    requires Inv(st) && LruInv(st, h) && s < |st.device|
    requires Find(Touched(st.live, s), s) >= 0 || |st.live| + 1 < CACHE_SIZE
    requires x in h + [s] && !Cached(Write(st, s, d), x)
    ensures |Write(st, s, d).live| == CACHE_SIZE
    ensures Outlived(Write(st, s, d).live, Age(h + [s], x))
  {
    if Cached(st, x) || x == s {
      FitForgetsNothing(st, s, d, x);
      assert false;
    }
    TouchedLru(st, s, h);
    assert |st.live| == CACHE_SIZE;
    assert Write(st, s, d).live == Touched(st.live, s)[Find(Touched(st.live, s), s) := Entry(s, 0, true, d)];
  }

  lemma EvictOutlived(st: State, s: nat, d: Data, age: int)
    requires |st.live| <= CACHE_SIZE && Find(Touched(st.live, s), s) < 0 && |st.live| + 1 >= CACHE_SIZE
    requires age > 0
    requires var t := Touched(st.live, s);
             forall j :: 0 <= j < |t| && j != Victim(t) ==> t[j].refCount < age
    ensures |Write(st, s, d).live| == CACHE_SIZE
    ensures Outlived(Write(st, s, d).live, age)
  {
  }

  /** A sector missing after a write was already missing, or is the oldest one. */
  lemma WriteForgetsOldest(st: State, s: nat, d: Data, h: seq<nat>, x: nat)
    requires Inv(st) && LruInv(st, h) && s < |st.device|
    requires x in h + [s] && !Cached(Write(st, s, d), x)
    ensures |Write(st, s, d).live| == CACHE_SIZE
    ensures Outlived(Write(st, s, d).live, Age(h + [s], x))
  {
    hide Write, Age, LruInv, Find, Victim;
    var t := Touched(st.live, s);
    FindIs(t, s, Find(st.live, s));
    if Find(t, s) >= 0 || |t| + 1 < CACHE_SIZE {
      FitForgetsNoMore(st, s, d, h, x);
    } else {
      EvictForgetsVictim(st, s, d, x);
      AgeStep(h, s, x);
      assert Outlived(t, Age(h + [s], x)) || Cached(st, x) by {
        TouchedLru(st, s, h);
      }
      forall j | 0 <= j < |t| && j != Victim(t) ensures t[j].refCount < Age(h + [s], x) {
        if Cached(st, x) {
          VictimIsOldest(st, s, h, j);
        }
      }
      EvictOutlived(st, s, d, Age(h + [s], x));
    }
  }

  lemma WriteKeepsLru(st: State, s: nat, d: Data, h: seq<nat>)
    requires Inv(st) && LruInv(st, h) && s < |st.device|
    ensures LruInv(Write(st, s, d), h + [s])
  {
    var st' := Write(st, s, d);
    forall i | 0 <= i < |st'.live|
      ensures st'.live[i].sector in h + [s] && st'.live[i].refCount == Age(h + [s], st'.live[i].sector)
    {
      WriteKeepsAges(st, s, d, h, i);
    }
    forall x | x in h + [s] && !Cached(st', x)
      ensures |st'.live| == CACHE_SIZE && Outlived(st'.live, Age(h + [s], x))
    {
      WriteForgetsOldest(st, s, d, h, x);
    }
  }

  lemma ReadKeepsLru(st: State, s: nat, h: seq<nat>)
    requires Inv(st) && LruInv(st, h) && s < |st.device|
    ensures LruInv(Read(st, s).0, h + [s])
  {
    TouchedLru(st, s, h);
    if Find(st.live, s) < 0 {
      WriteKeepsLru(st, s, st.device[s], h);
    }
  }

  // ----- Whole runs -----

  /** The sectors a run reads and writes, in order. */
  ghost function History(ops: seq<Op>): seq<nat> {
    if ops == [] then []
    else
      var n := |ops| - 1;
      History(ops[..n]) + if ops[n].SyncOp? then [] else [ops[n].s]
  }

  lemma StepKeepsLru(st: State, op: Op, h: seq<nat>)
    requires Inv(st) && LruInv(st, h) && (!op.SyncOp? ==> op.s < |st.device|)
    ensures LruInv(Step(st, op), h + if op.SyncOp? then [] else [op.s])
  {
    match op
    case ReadOp(s) => ReadKeepsLru(st, s, h);
    case WriteOp(s, d) => WriteKeepsLru(st, s, d, h);
    case SyncOp =>
      assert h + [] == h;
      assert Step(st, op).live == st.live;
      assert forall x :: Cached(Step(st, op), x) == Cached(st, x);
  }

  /** In every reachable state the counts are exactly the ages. */
  lemma {:induction false} RunIsLru(device: Disk, ops: seq<Op>)
    requires InRange(ops, |device|)
    ensures LruInv(Run(State([], device), ops), History(ops))
  {
    if ops != [] {
      var n := |ops| - 1;
      RunIsLru(device, ops[..n]);
      StepKeepsLru(Run(State([], device), ops[..n]), ops[n], History(ops[..n]));
    }
  }

  ghost function CachedSet(live: seq<Entry>): set<nat> {
    set i | 0 <= i < |live| :: live[i].sector
  }

  lemma {:induction false} DistinctSize(q: seq<nat>)
    requires forall i, j :: 0 <= i < j < |q| ==> q[i] != q[j]
    ensures |Elements(q)| == |q|
  {
    if q != [] {
      DistinctSize(q[1..]);
      assert q[0] !in q[1..];
      assert Elements(q) == {q[0]} + Elements(q[1..]);
    }
  }

  lemma CachedSetSize(st: State)
    requires Inv(st)
    ensures |st.live| - 1 <= |CachedSet(st.live)| <= |st.live|
    ensures |st.live| < CACHE_SIZE ==> |CachedSet(st.live)| == |st.live|
  {
    var n := if |st.live| == CACHE_SIZE then CACHE_SIZE - 1 else |st.live|;
    var q := seq(n, i requires 0 <= i < n => st.live[i].sector);
    DistinctSize(q);
    assert forall i :: 0 <= i < n ==> q[i] == st.live[i].sector;
    if n == |st.live| {
      assert Elements(q) == CachedSet(st.live);
    } else {
      assert forall i :: 0 <= i < n ==> q[i] in Elements(q);
      assert CachedSet(st.live) == Elements(q) + {st.live[n].sector};
    }
  }

  /** A cache that holds everything younger than anything it holds, holds a prefix of the
      list of recent sectors. */
  lemma HoldsPrefix(st: State, h: seq<nat>) returns (k: nat)
    requires LruInv(st, h)
    ensures k <= |Recent(h)| && forall i :: 0 <= i < |Recent(h)| ==> (Cached(st, Recent(h)[i]) <==> i < k)
  {
    RecentSorted(h);
    var q := Recent(h);
    k := 0;
    while k < |q| && Cached(st, q[k])
      invariant k <= |q| && forall i :: 0 <= i < k ==> Cached(st, q[i])
    {
      k := k + 1;
    }
    forall i | k < i < |q| ensures !Cached(st, q[i]) {
      assert q[k] in h && Age(h, q[k]) < Age(h, q[i]);
    }
  }

  /** After every run the cache holds exactly the k most recently accessed sectors, where k is
      the number of filled slots, less one while a sector is cached twice. */
  lemma CacheHoldsMostRecent(device: Disk, ops: seq<Op>) returns (k: nat)
    requires InRange(ops, |device|)
    ensures k <= |Recent(History(ops))|
    ensures CachedSet(Run(State([], device), ops).live) == Elements(Recent(History(ops))[..k])
    ensures var slots := |Run(State([], device), ops).live|;
            && slots - 1 <= k <= slots <= 32
            && (slots < 32 ==> k == slots == |Recent(History(ops))|)
  {
    var st := Run(State([], device), ops);
    var q := Recent(History(ops));
    RunIsLru(device, ops);
    k := HoldsPrefix(st, History(ops));
    PrefixIsCachedSet(st, History(ops), k);
    RecentSorted(History(ops));
    DistinctSize(q[..k]);
    CachedSetSize(st);
    assert k < |q| ==> q[k] in History(ops) && !Cached(st, q[k]);
  }

  lemma PrefixIsCachedSet(st: State, h: seq<nat>, k: nat)
    requires LruInv(st, h)
    requires k <= |Recent(h)| && forall i :: 0 <= i < |Recent(h)| ==> (Cached(st, Recent(h)[i]) <==> i < k)
    ensures CachedSet(st.live) == Elements(Recent(h)[..k])
  {
    var q := Recent(h);
    forall x | x in CachedSet(st.live) ensures x in q[..k] {
      var i :| 0 <= i < |st.live| && st.live[i].sector == x;
      assert x in q && Cached(st, x);
      var j :| 0 <= j < |q| && q[j] == x;
      assert q[..k][j] == x;
    }
    forall x | x in q[..k] ensures x in CachedSet(st.live) {
      var j :| 0 <= j < k && q[j] == x;
      assert st.live[Find(st.live, x)].sector == x;
    }
  }
}
