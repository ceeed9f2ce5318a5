/** The page allocator: two pools of pages, each with a bitmap of its used pages. */
module Palloc {
  import opened Options
  import opened Vaddr
  import opened Bitmaps

  /** Where physical memory starts in the kernel's address space, in pages. */
  const PHYS_BASE_PAGE := PHYS_BASE / PGSIZE
  /** Free memory starts at 1 MB. */
  const FIRST_FREE_PAGE := 256

  /** Outstanding runs of pages: first page to number of pages. */
  type Runs = map<nat, nat>

  ghost predicate Covered(runs: Runs, k: nat) {
    exists p :: p in runs && p <= k < p + runs[p]
  }

  /** The runs are disjoint, and a page is used exactly when a run covers it. */
  ghost predicate RunsOk(runs: Runs, bits: seq<bool>) {
    && (forall p :: p in runs ==> 0 < runs[p] && p + runs[p] <= |bits|)
    && (forall p, q :: p in runs && q in runs && p < q ==> p + runs[p] <= q)
    && (forall k :: 0 <= k < |bits| ==> (bits[k] <==> Covered(runs, k)))
  }

  /** No `cnt` pages next to each other are free; nobody gets 0 pages. */
  ghost predicate NoRun(bits: seq<bool>, cnt: nat) {
    cnt == 0 || IsFirstFit(bits, 0, cnt, false, None)
  }

  lemma FirstFitOrNone(bits: seq<bool>, cnt: nat, r: Option<nat>)
    requires cnt > 0 && IsFirstFit(bits, 0, cnt, false, r)
    ensures r == None <==> NoRun(bits, cnt)
  {
  }

  /** Taking free pages makes a new run, disjoint from the others. */
  lemma TakeRun(runs: Runs, bits: seq<bool>, i: nat, cnt: nat)
    requires RunsOk(runs, bits) && 0 < cnt && i + cnt <= |bits| && AllAre(bits, i, cnt, false)
    ensures i !in runs && RunsOk(runs[i := cnt], SetRun(bits, i, cnt, true))
  {
    var runs' := runs[i := cnt];
    forall p | p in runs ensures p != i && (p + runs[p] <= i || i + cnt <= p) {
      RunElsewhere(runs, bits, i, cnt, p);
    }
    forall k | 0 <= k < |bits| ensures Covered(runs', k) <==> (i <= k < i + cnt || Covered(runs, k)) {
      CoveredMore(runs, i, cnt, k);
    }
    hide Covered, AllAre;
  }

  lemma RunElsewhere(runs: Runs, bits: seq<bool>, i: nat, cnt: nat, p: nat)
    requires RunsOk(runs, bits) && 0 < cnt && i + cnt <= |bits| && AllAre(bits, i, cnt, false) && p in runs
    ensures p != i && (p + runs[p] <= i || i + cnt <= p)
  {
    assert Covered(runs, p);
    assert p <= i < p + runs[p] ==> Covered(runs, i);
  }

  lemma CoveredMore(runs: Runs, i: nat, cnt: nat, k: nat)
    requires i !in runs
    ensures Covered(runs[i := cnt], k) <==> (i <= k < i + cnt || Covered(runs, k))
  {
    var runs' := runs[i := cnt];
    if i <= k < i + cnt {
      assert i in runs';
    } else if Covered(runs, k) {
      var p :| p in runs && p <= k < p + runs[p];
      assert p in runs';
    }
  }

  /** Freeing a run frees its pages and no others. */
  lemma FreeRun(runs: Runs, bits: seq<bool>, i: nat)
    requires RunsOk(runs, bits) && i in runs
    ensures AllAre(bits, i, runs[i], true) && RunsOk(runs - {i}, SetRun(bits, i, runs[i], false))
  {
    var runs' := runs - {i};
    forall k | 0 <= k < |bits| ensures Covered(runs, k) <==> (i <= k < i + runs[i] || Covered(runs', k)) {
      if Covered(runs', k) {
        var p :| p in runs' && p <= k < p + runs'[p];
        assert p in runs;
      }
      if Covered(runs, k) && !(i <= k < i + runs[i]) {
        var p :| p in runs && p <= k < p + runs[p];
        assert p in runs';
      }
    }
    forall k | i <= k < i + runs[i] ensures !Covered(runs', k) {
    }
    hide Covered;
  }

  class Pool {
    const usedMap: Bitmap
    /** The first page of the pool. */
    const base: nat
    ghost var runs: Runs

    ghost predicate Valid()
      reads this, usedMap.words
    {
      usedMap.Valid() && RunsOk(runs, usedMap.Bits())
    }

    /** The bitmap goes into the first pages of the pool. */
    constructor (start: nat, pageCnt: nat)
      requires BitmapPages(pageCnt) <= pageCnt
      ensures Valid() && fresh(usedMap.words) && runs == map[]
      ensures base == start + BitmapPages(pageCnt) && base + usedMap.bitCnt == start + pageCnt
    {
      var bmPages := BitmapPages(pageCnt);
      var m := new Bitmap(pageCnt - bmPages);
      usedMap, base, runs := m, start + bmPages, map[];
    }

    /** `page_from_pool` */
    predicate Has(page: nat) {
      base <= page < base + usedMap.bitCnt
    }

    lemma RunFits(i: nat)
      requires Valid() && i in runs
      ensures 0 < runs[i] && i + runs[i] <= usedMap.bitCnt
    {
    }

    /** Takes the leftmost run of `pageCnt` free pages. */
    method Take(pageCnt: nat) returns (r: Option<nat>)
      requires Valid() && pageCnt > 0
      modifies this, usedMap.words
      ensures Valid() && IsFirstFit(old(usedMap.Bits()), 0, pageCnt, false, r)
      ensures match r
              case Some(i) =>
                && i !in old(runs) && runs == old(runs)[i := pageCnt]
                && usedMap.Bits() == SetRun(old(usedMap.Bits()), i, pageCnt, true)
              case None => runs == old(runs) && usedMap.Bits() == old(usedMap.Bits())
    {
      ghost var bits := usedMap.Bits();
      r := usedMap.ScanAndFlip(0, pageCnt, false);
      if r.Some? {
        TakeRun(runs, bits, r.value, pageCnt);
        hide RunsOk;
        runs := runs[r.value := pageCnt];
      }
    }

    /** Frees the run at `i`. */
    method Release(i: nat, pageCnt: nat)
      requires Valid() && i in runs && runs[i] == pageCnt
      modifies this, usedMap.words
      ensures Valid() && runs == old(runs) - {i}
      ensures usedMap.Bits() == SetRun(old(usedMap.Bits()), i, pageCnt, false)
    {
      FreeRun(runs, usedMap.Bits(), i);
      assert i + pageCnt <= |usedMap.Bits()|;
      hide RunsOk;
      usedMap.SetMultiple(i, pageCnt, false);
      runs := runs - {i};
    }
  }

  /** The pages a bitmap for `pageCnt` pages takes: an 8-byte header, and words of 4 bytes. */
  function BitmapPages(pageCnt: nat): nat {
    (8 + 4 * ((pageCnt + ELEM_BITS - 1) / ELEM_BITS) + PGSIZE - 1) / PGSIZE
  }

  /** The least number of 32-bit words that holds `n` bits. */
  predicate WordsFor(n: nat, words: nat) {
    n <= 32 * words < n + 32
  }

  /** The pages hold the bitmap's header and words, and one page less would not. */
  lemma BitmapPagesHold(n: nat, words: nat)
    requires WordsFor(n, words)
    ensures 8 + 4 * words <= 4096 * BitmapPages(n) < 8 + 4 * words + 4096
  {
    WordsAre(n, words);
    RoundUp(8 + 4 * words);
  }

  lemma WordsAre(n: nat, words: nat)
    requires WordsFor(n, words)
    ensures words == (n + ELEM_BITS - 1) / ELEM_BITS
  {
  }

  lemma RoundUp(size: nat)
    ensures size <= 4096 * ((size + PGSIZE - 1) / PGSIZE) < size + 4096
  {
  }

  /** Pages `p` to `p + n` and `q` to `q + m` do not meet. */
  predicate Disjoint(p: nat, n: nat, q: nat, m: nat) {
    p + n <= q || q + m <= p
  }

  lemma BitmapNotEmpty()
    ensures forall n: nat :: BitmapPages(n) > 0
  {
  }

  /** `init_pool`: panics exactly when the bitmap does not fit in the pool. */
  method InitPool(start: nat, pageCnt: nat) returns (r: Option<Pool>)
    ensures r.None? <==> BitmapPages(pageCnt) > pageCnt
    ensures r.Some? ==>
              && r.value.Valid() && fresh(r.value) && fresh(r.value.usedMap.words) && r.value.runs == map[]
              && r.value.base == start + BitmapPages(pageCnt)
              && r.value.base + r.value.usedMap.bitCnt == start + pageCnt
    ensures r.Some? ==> forall words: nat :: WordsFor(pageCnt, words) ==>
              4096 * start + 8 + 4 * words <= 4096 * r.value.base
    ensures r.None? ==> forall words: nat :: WordsFor(pageCnt, words) ==> 4096 * pageCnt < 8 + 4 * words
  {
    forall words: nat | WordsFor(pageCnt, words)
      ensures 8 + 4 * words <= 4096 * BitmapPages(pageCnt) < 8 + 4 * words + 4096
    {
      BitmapPagesHold(pageCnt, words);
    }
    hide BitmapPages;
    if BitmapPages(pageCnt) > pageCnt {
      return None;
    }
    var pool := new Pool(start, pageCnt);
    r := Some(pool);
  }

  /** `palloc_init`: panics exactly when a pool is too small for its bitmap. */
  method PallocInit(ramPages: nat, userPageLimit: nat) returns (r: Option<PageAllocator>)
    requires ramPages >= FIRST_FREE_PAGE
    ensures var userPages := UserPages(ramPages - FIRST_FREE_PAGE, userPageLimit);
            var kernelPages := ramPages - FIRST_FREE_PAGE - userPages;
            r.None? <==> BitmapPages(kernelPages) > kernelPages || BitmapPages(userPages) > userPages
    ensures r.Some? ==>
              && r.value.Valid() && r.value.kernelPool.runs == map[] && r.value.userPool.runs == map[]
              && r.value.kernelPool.base > 0xC_0100
              && r.value.userPool.base + r.value.userPool.usedMap.bitCnt == 0xC_0000 + ramPages
    ensures r.Some? ==>
              var userPages := UserPages(ramPages - FIRST_FREE_PAGE, userPageLimit);
              var kernelPages := ramPages - 256 - userPages;
              && r.value.kernelPool.base == 0xC_0100 + BitmapPages(kernelPages)
              && r.value.kernelPool.base + r.value.kernelPool.usedMap.bitCnt == 0xC_0100 + kernelPages
              && r.value.userPool.base == 0xC_0100 + kernelPages + BitmapPages(userPages)
  {
    BitmapNotEmpty();
    hide BitmapPages, UserPages, RunsOk, Pool.Valid;
    var start, freePages := PHYS_BASE_PAGE + FIRST_FREE_PAGE, ramPages - FIRST_FREE_PAGE;
    var userPages := UserPages(freePages, userPageLimit);
    var kernelPages := freePages - userPages;
    var kernel := InitPool(start, kernelPages);
    if kernel.None? {
      return None;
    }
    var user := InitPool(start + kernelPages, userPages);
    if user.None? {
      return None;
    }
    var allocator := new PageAllocator(kernel.value, user.value);
    r := Some(allocator);
  }

  class PageAllocator {
    const kernelPool: Pool
    const userPool: Pool

    ghost predicate Valid()
      reads kernelPool, kernelPool.usedMap.words, userPool, userPool.usedMap.words
    {
      && kernelPool != userPool && kernelPool.usedMap.words != userPool.usedMap.words
      && kernelPool.Valid() && userPool.Valid()
      && 0 < kernelPool.base && kernelPool.base + kernelPool.usedMap.bitCnt <= userPool.base
    }

    constructor (kernelPool: Pool, userPool: Pool)
      ensures this.kernelPool == kernelPool && this.userPool == userPool
    {
      this.kernelPool, this.userPool := kernelPool, userPool;
    }

    function PoolFor(user: bool): Pool {
      if user then userPool else kernelPool
    }

    /** `palloc_get_multiple`, giving the address of the pages: the leftmost run that is free. */
    method GetMultiple(user: bool, pageCnt: nat) returns (r: Option<nat>, ghost i: nat)
      requires Valid()
      modifies PoolFor(user), PoolFor(user).usedMap.words
      ensures Valid() && (r == None <==> NoRun(old(PoolFor(user).usedMap.Bits()), pageCnt))
      ensures var pool := PoolFor(user);
              var bits := old(pool.usedMap.Bits());
              match r
              case Some(addr) =>
                && addr == PGSIZE * (pool.base + i) && addr != 0 && pageCnt > 0
                && IsFirstFit(bits, 0, pageCnt, false, Some(i))
                && pool.usedMap.Bits() == SetRun(bits, i, pageCnt, true)
                && i !in old(pool.runs) && pool.runs == old(pool.runs)[i := pageCnt]
              case None => pool.usedMap.Bits() == bits && pool.runs == old(pool.runs)
    {
      if pageCnt == 0 {
        return None, 0;
      }
      hide RunsOk, SetRun, IsFirstFit, NoRun;
      var pool := PoolFor(user);
      ghost var bits := pool.usedMap.Bits();
      var idx := pool.Take(pageCnt);
      FirstFitOrNone(bits, pageCnt, idx);
      match idx
      case None => r, i := None, 0;
      case Some(k) => r, i := Some(PGSIZE * (pool.base + k)), k;
    }

    /** `page_from_pool` on both pools. */
    method FindPool(page: nat) returns (user: bool)
      requires Valid() && (kernelPool.Has(page) || userPool.Has(page))
      ensures PoolFor(user).Has(page) && !PoolFor(!user).Has(page)
    {
      user := !kernelPool.Has(page);
    }

    /** `palloc_free_multiple` of the whole outstanding run at `i`, or of nothing. */
    method FreeMultiple(addr: nat, pageCnt: nat, ghost user: bool, ghost i: nat)
      requires Valid() && addr % PGSIZE == 0
      requires addr != 0 && pageCnt != 0 ==>
                 && addr == PGSIZE * (PoolFor(user).base + i)
                 && i in PoolFor(user).runs && PoolFor(user).runs[i] == pageCnt
      modifies PoolFor(user), PoolFor(user).usedMap.words
      ensures Valid()
      ensures var pool := PoolFor(user);
              if addr == 0 || pageCnt == 0 then
                pool.usedMap.Bits() == old(pool.usedMap.Bits()) && pool.runs == old(pool.runs)
              else
                && i + pageCnt <= pool.usedMap.bitCnt
                && pool.usedMap.Bits() == SetRun(old(pool.usedMap.Bits()), i, pageCnt, false)
                && pool.runs == old(pool.runs) - {i}
    {
      if addr == 0 || pageCnt == 0 {
        return;
      }
      PoolFor(user).RunFits(i);
      hide RunsOk, SetRun;
      var page := addr / PGSIZE;
      var u := FindPool(page);
      PoolFor(u).Release(page - PoolFor(u).base, pageCnt);
    }

    /** All outstanding runs, of one pool or of both, are pairwise disjoint. */
    lemma AllDisjoint(user: bool, p: nat, user': bool, q: nat)
      requires Valid() && p in PoolFor(user).runs && q in PoolFor(user').runs && (user != user' || p != q)
      ensures Disjoint(PoolFor(user).base + p, PoolFor(user).runs[p], PoolFor(user').base + q, PoolFor(user').runs[q])
    {
    }
  }

  /** The user pool gets half of the free pages, up to the limit. */
  function UserPages(freePages: nat, limit: nat): (n: nat)
    ensures n <= limit && 2 * n <= freePages && (n == limit || freePages <= 2 * n + 1)
  {
    if freePages / 2 > limit then limit else freePages / 2
  }
}
