/** `malloc` and `free` on top of the page allocator. */
module Malloc {
  import opened Options
  import opened Sequences
  import opened Vaddr
  import opened Bits
  import opened Palloc
  import opened MallocSpec

  /** The pages hold the block exactly when adding the header does not wrap around. */
  lemma BigPagesHold(size: Word)
    ensures BigPages(size) > 0 ==> (size <= PGSIZE * BigPages(size) - HEADER <==> size <= MAX_REQUEST)
    ensures BigPages(size) == 0 <==> 0x1_0000_0000 - 12 - 4095 <= size <= 0x1_0000_0000 - 12
    ensures BigPages(size) > 0 && size <= MAX_REQUEST ==> size + 12 <= 4096 * BigPages(size) < size + 12 + 4096
    ensures size > MAX_REQUEST ==> BigPages(size) == 1
  {
  }

  /** A request that gets a block that is too small. */
  lemma WrappedRequest()
    ensures BigPages(0xFFFF_FFFF) == 1 && PGSIZE * BigPages(0xFFFF_FFFF) - HEADER < 0xFFFF_FFFF
  {
  }

  /** `malloc_init`: the block size and the blocks per arena of every descriptor. */
  method MallocInit() returns (descs: seq<(nat, nat)>)
    ensures |descs| == DESC_CNT
    ensures forall d :: 0 <= d < DESC_CNT ==> descs[d] == (BlockSize(d), PerArena(d))
  {
    descs := [];
    var size := 16;
    while size < PGSIZE / 2
      invariant |descs| <= DESC_CNT && size == if |descs| < DESC_CNT then BlockSize(|descs|) else 2048
      invariant forall d :: 0 <= d < |descs| ==> descs[d] == (BlockSize(d), PerArena(d))
      decreases 2048 - size
    {
      descs := descs + [(size, (PGSIZE - HEADER) / size)];
      size := size * 2;
    }
  }

  class Heap {
    const pages: PageAllocator
    var arenas: map<nat, Arena>
    var freeLists: seq<seq<Block>>
    ghost var live: Live

    ghost function Now(): State
      reads this
    {
      State(arenas, freeLists, live)
    }

    ghost predicate Structured()
      reads this, pages.kernelPool, pages.kernelPool.usedMap.words, pages.userPool, pages.userPool.usedMap.words
    {
      pages.Valid() && Good(Now(), pages.kernelPool.base, pages.kernelPool.runs)
    }

    ghost predicate Valid()
      reads this, pages.kernelPool, pages.kernelPool.usedMap.words, pages.userPool, pages.userPool.usedMap.words
    {
      Structured() && Busy(Now())
    }

    constructor (pages: PageAllocator)
      requires pages.Valid()
      ensures Valid() && this.pages == pages && live == map[]
    {
      this.pages, arenas, live := pages, map[], map[];
      freeLists := seq(DESC_CNT, i => []);
    }

    /** Which pages of the kernel pool are used. */
    ghost function Used(): seq<bool>
      reads this, pages.kernelPool, pages.kernelPool.usedMap.words, pages.userPool, pages.userPool.usedMap.words
      requires pages.Valid()
    {
      pages.kernelPool.usedMap.Bits()
    }

    /** The smallest descriptor whose blocks are large enough, or none. */
    method FindDesc(size: nat) returns (d: nat)
      ensures d == DESC_CNT || (d < DESC_CNT && Serves(d, size))
      ensures d == DESC_CNT <==> size > BlockSize(DESC_CNT - 1)
    {
      d := 0;
      while d < DESC_CNT && BlockSize(d) < size
        invariant d <= DESC_CNT && forall k :: 0 <= k < d ==> BlockSize(k) < size
      {
        d := d + 1;
      }
    }

    /** `malloc` */
    method Malloc(size: Word) returns (r: Option<Block>)
      requires Valid()
      modifies this, pages.kernelPool, pages.kernelPool.usedMap.words
      ensures Valid()
      ensures r == None <==> Refused(old(Now()), old(Used()), size)
      ensures match r
              case None =>
                && Now() == old(Now()) && Used() == old(Used())
                && pages.kernelPool.runs == old(pages.kernelPool.runs)
              case Some(b) =>
                && b !in old(live) && live == old(live)[b := size] && b.page in arenas
                && (size <= Capacity(arenas[b.page]) <==> size <= MAX_REQUEST)
    {
      hide Good, Busy, BusyBut, PageAllocator.Valid, NoRun, BigPages, Serves, Refused;
      FreeListsOf(Now(), pages.kernelPool.base, pages.kernelPool.runs);
      ghost var st, used := Now(), Used();
      if size == 0 {
        RefusedZero(st, used);
        return None;
      }
      var d := FindDesc(size);
      if d == DESC_CNT {
        RefusedBig(st, used, size);
        r := MallocBig(size);
        return;
      }
      RefusedSmall(st, used, size, d);
      ServesFits(d, size);
      if freeLists[d] == [] {
        var ok := NewArena(d);
        if !ok {
          return None;
        }
      } else {
        BusyAnyway(st, freeLists[d][0].page);
      }
      var b := Take(d, size);
      return Some(b);
    }

    /** The path of `malloc` for requests too big for any descriptor. */
    method MallocBig(size: Word) returns (r: Option<Block>)
      requires Valid() && size > 1024
      modifies this, pages.kernelPool, pages.kernelPool.usedMap.words
      ensures Valid()
      ensures r == None <==> NoRun(old(Used()), BigPages(size))
      ensures match r
              case None =>
                && Now() == old(Now()) && Used() == old(Used())
                && pages.kernelPool.runs == old(pages.kernelPool.runs)
              case Some(b) =>
                && b !in old(live) && live == old(live)[b := size] && b.page in arenas
                && (size <= Capacity(arenas[b.page]) <==> size <= MAX_REQUEST)
    {
      hide Good, Busy, BigPages, PerArena, BlockSize, PageAllocator.Valid;
      var pageCnt := BigPages(size);
      ghost var st, runs := Now(), pages.kernelPool.runs;
      var page, i := GetPages(pageCnt);
      if page.None? {
        return None;
      }
      var p := page.value;
      BigPagesHold(size);
      AddBigGood(st, pages.kernelPool.base, runs, i, pageCnt, size);
      arenas := arenas[p := Big(pageCnt)];
      live := live[Block(p, 0) := size];
      r := Some(Block(p, 0));
    }

    /** Pages of the kernel pool. */
    method GetPages(pageCnt: nat) returns (p: Option<nat>, ghost i: nat)
      requires pages.Valid()
      modifies pages.kernelPool, pages.kernelPool.usedMap.words
      ensures pages.Valid()
      ensures var pool := pages.kernelPool;
              match p
              case None => NoRun(old(Used()), pageCnt) && pool.runs == old(pool.runs) && Used() == old(Used())
              case Some(q) =>
                && !NoRun(old(Used()), pageCnt) && pageCnt > 0 && q == pool.base + i
                && i !in old(pool.runs) && pool.runs == old(pool.runs)[i := pageCnt]
    {
      var addr;
      addr, i := pages.GetMultiple(false, pageCnt);
      hide *;
      p := if addr.None? then None else Some(addr.value / PGSIZE);
    }

    method PutPages(p: nat, pageCnt: nat)
      requires pages.Valid() && p >= pages.kernelPool.base && p - pages.kernelPool.base in pages.kernelPool.runs
      requires pages.kernelPool.runs[p - pages.kernelPool.base] == pageCnt && pageCnt > 0 && p > 0
      modifies pages.kernelPool, pages.kernelPool.usedMap.words
      ensures pages.Valid() && pages.kernelPool.runs == old(pages.kernelPool.runs) - {p - pages.kernelPool.base}
    {
      pages.FreeMultiple(PGSIZE * p, pageCnt, false, p - pages.kernelPool.base);
    }

    /** The middle of `malloc`: a new arena, its blocks added to the free list. */
    method NewArena(d: nat) returns (ok: bool)
      requires Valid() && d < DESC_CNT && freeLists[d] == []
      modifies this, pages.kernelPool, pages.kernelPool.usedMap.words
      ensures Structured() && live == old(live)
      ensures !ok <==> NoRun(old(Used()), 1)
      ensures !ok ==> Valid() && Now() == old(Now()) && Used() == old(Used())
      ensures !ok ==> pages.kernelPool.runs == old(pages.kernelPool.runs)
      ensures ok ==> freeLists[d] != [] && BusyBut(Now(), freeLists[d][0].page)
    {
      hide Good, Busy, BusyBut, PerArena, BlockSize, PageAllocator.Valid, Distinct, NewBlocks;
      ghost var st, runs := Now(), pages.kernelPool.runs;
      FreeListsOf(st, pages.kernelPool.base, runs);
      var page, i := GetPages(1);
      if page.None? {
        return false;
      }
      var p := page.value;
      var fl := PushBlocks(freeLists[d], p, PerArena(d));
      CarveGood(st, pages.kernelPool.base, runs, i, d);
      arenas := arenas[p := Small(d, PerArena(d))];
      freeLists := freeLists[d := fl];
      ok := true;
    }

    /** The end of `malloc`: a block from the free list. */
    method Take(d: nat, size: nat) returns (b: Block)
      requires Structured() && d < DESC_CNT && size <= BlockSize(d)
      requires freeLists[d] != [] && BusyBut(Now(), freeLists[d][0].page)
      modifies this
      ensures Valid()
      ensures b !in old(live) && live == old(live)[b := size] && b.page in arenas
      ensures size <= Capacity(arenas[b.page])
    {
      hide Good, Busy, BusyBut, PageAllocator.Valid, PerArena, BlockSize, Distinct;
      ghost var st := Now();
      FreeListsOf(st, pages.kernelPool.base, pages.kernelPool.runs);
      GrabGood(st, pages.kernelPool.base, pages.kernelPool.runs, d, size);
      b := freeLists[d][0];
      freeLists := freeLists[d := freeLists[d][1..]];
      var a := arenas[b.page];
      arenas := arenas[b.page := a.(freeCnt := a.freeCnt - 1)];
      live := live[b := size];
    }

    lemma LiveArena(b: Block)
      requires Structured() && b in live
      ensures b.page in arenas
    {
    }

    lemma AllUnused(p: nat)
      requires Structured() && p in arenas && arenas[p].Small? && arenas[p].freeCnt >= PerArena(arenas[p].desc)
      ensures forall i :: 0 <= i < PerArena(arenas[p].desc) ==> Block(p, i) in freeLists[arenas[p].desc]
    {
      AllFree(Now(), p);
    }

    lemma PoolStart()
      requires pages.Valid()
      ensures pages.kernelPool.base > 0
    {
    }

    /** `free` */
    method Free(r: Option<Block>)
      requires Valid() && (r.Some? ==> r.value in live)
      modifies this, pages.kernelPool, pages.kernelPool.usedMap.words
      ensures Valid()
      ensures live == if r.None? then old(live) else old(live) - {r.value}
    {
      if r.None? {
        return;
      }
      LiveArena(r.value);
      hide Valid;
      var b := r.value;
      match arenas[b.page]
      case Big(pageCnt) => FreeBig(b, pageCnt);
      case Small(_, _) => FreeSmall(b);
    }

    method FreeSmall(b: Block)
      requires Valid() && b in live && b.page in arenas && arenas[b.page].Small?
      modifies this, pages.kernelPool, pages.kernelPool.usedMap.words
      ensures Valid() && live == old(live) - {b}
    {
      hide Good, PerArena, BlockSize, PageAllocator.Valid;
      GiveBack(b);
      if arenas[b.page].freeCnt >= PerArena(arenas[b.page].desc) {
        Retire(b.page);
      }
    }

    /** The block goes to the front of its free list. */
    method GiveBack(b: Block)
      requires Valid() && b in live && b.page in arenas && arenas[b.page].Small?
      modifies this
      ensures Structured() && BusyBut(Now(), b.page) && live == old(live) - {b}
      ensures b.page in arenas && arenas[b.page].Small? && arenas[b.page].desc < DESC_CNT
    {
      hide Good, Busy, BusyBut, PageAllocator.Valid, PerArena, BlockSize;
      ghost var st := Now();
      DescOf(st, pages.kernelPool.base, pages.kernelPool.runs, b.page);
      ReturnGood(st, pages.kernelPool.base, pages.kernelPool.runs, b);
      var a := arenas[b.page];
      freeLists := freeLists[a.desc := [b] + freeLists[a.desc]];
      arenas := arenas[b.page := a.(freeCnt := a.freeCnt + 1)];
      live := live - {b};
    }

    /** An arena that is entirely unused goes back to the page allocator. */
    method Retire(p: nat)
      requires Structured() && p in arenas && arenas[p].Small? && arenas[p].desc < DESC_CNT && BusyBut(Now(), p)
      requires arenas[p].freeCnt >= PerArena(arenas[p].desc)
      modifies this, pages.kernelPool, pages.kernelPool.usedMap.words
      ensures Valid() && live == old(live)
    {
      hide Good, Busy, BusyBut, PerArena, BlockSize, PageAllocator.Valid, Swept, Distinct;
      ghost var st, runs := Now(), pages.kernelPool.runs;
      var d := arenas[p].desc;
      FreeListsOf(st, pages.kernelPool.base, runs);
      PoolStart();
      AllUnused(p);
      var fl := Sweep(p, freeLists[d], PerArena(d));
      RetireGood(st, pages.kernelPool.base, runs, p, fl);
      RunOf(st, pages.kernelPool.base, runs, p);
      PutPages(p, 1);
      freeLists := freeLists[d := fl];
      arenas := arenas - {p};
    }

    /** `free` of a big block. */
    method FreeBig(b: Block, pageCnt: nat)
      requires Valid() && b in live && b.page in arenas && arenas[b.page] == Big(pageCnt)
      modifies this, pages.kernelPool, pages.kernelPool.usedMap.words
      ensures Valid() && live == old(live) - {b}
    {
      hide Good, Busy, PerArena, BlockSize, PageAllocator.Valid;
      ghost var st, runs, p := Now(), pages.kernelPool.runs, b.page;
      PoolStart();
      DropBigGood(st, pages.kernelPool.base, runs, p);
      BigBlock(st, pages.kernelPool.base, runs, b);
      RunOf(st, pages.kernelPool.base, runs, p);
      PutPages(b.page, pageCnt);
      arenas := arenas - {b.page};
      live := live - {b};
    }
  }

  /** The loop of `malloc` that adds a new arena's blocks to the free list. */
  method PushBlocks(fl: seq<Block>, p: nat, n: nat) returns (r: seq<Block>)
    ensures r == fl + NewBlocks(p, n)
  {
    r := fl;
    var k := 0;
    while k < n
      invariant k <= n && r == fl + NewBlocks(p, k)
    {
      r := r + [Block(p, k)];
      k := k + 1;
    }
  }

  /** `list_remove`, of a block that is on the list */
  function RemoveBlock(fl: seq<Block>, b: Block): seq<Block>
    requires b in fl
  {
    if fl[0] == b then fl[1..] else [fl[0]] + RemoveBlock(fl[1..], b)
  }

  lemma {:induction false} RemoveBlockIs(fl: seq<Block>, b: Block)
    requires Distinct(fl) && b in fl
    ensures Distinct(RemoveBlock(fl, b)) && forall x :: x in RemoveBlock(fl, b) <==> x in fl && x != b
  {
    TailOf(fl);
    if fl[0] != b {
      RemoveBlockIs(fl[1..], b);
      JoinLists([fl[0]], RemoveBlock(fl[1..], b));
    }
  }

  /** The loop of `free` that takes the arena's blocks off the free list. */
  method Sweep(p: nat, was: seq<Block>, n: nat) returns (fl: seq<Block>)
    requires Distinct(was) && forall i :: 0 <= i < n ==> Block(p, i) in was
    ensures Swept(fl, was, p, n)
  {
    fl := was;
    var i := 0;
    while i < n
      invariant i <= n && Swept(fl, was, p, i)
    {
      RemoveBlockIs(fl, Block(p, i));
      fl := RemoveBlock(fl, Block(p, i));
      i := i + 1;
    }
  }
}
