/** Arenas, blocks and free lists of the subpage allocator. */
module MallocSpec {
  import opened Sequences
  import opened Vaddr
  import opened Bits
  import opened Palloc

  /** The size of an arena header. */
  const HEADER := 12
  const DESC_CNT := 7

  /** The descriptors' block sizes, and how many blocks go into an arena. */
  function BlockSize(d: nat): (n: nat)
    requires d < DESC_CNT
    ensures 16 <= n <= 1024
  {
    [16, 32, 64, 128, 256, 512, 1024][d]
  }

  function PerArena(d: nat): (n: nat)
    requires d < DESC_CNT
    ensures n > 0
  {
    (PGSIZE - HEADER) / BlockSize(d)
  }

  /** Block sizes double, from 16 bytes to below half a page; an arena is filled with as many blocks as fit
      behind its header. */
  lemma DescriptorsFit(d: nat)
    requires d < DESC_CNT
    ensures BlockSize(d) == if d == 0 then 16 else 2 * BlockSize(d - 1)
    ensures d == DESC_CNT - 1 <==> BlockSize(d) < 2048 <= 2 * BlockSize(d)
    ensures 12 + PerArena(d) * BlockSize(d) <= 4096 < 12 + (PerArena(d) + 1) * BlockSize(d)
  {
  }

  /** A page that holds blocks of descriptor `desc`, or the first of the pages of a big block. */
  datatype Arena = Small(desc: nat, freeCnt: nat) | Big(pages: nat)

  /** A block by its arena's page and its index. */
  datatype Block = Block(page: nat, idx: nat)

  /** Allocated blocks, with the sizes asked for. */
  type Live = map<Block, nat>

  datatype State = State(arenas: map<nat, Arena>, free: seq<seq<Block>>, live: Live)

  /** A block of small arena `a` of descriptor `d`. */
  predicate InArena(st: State, b: Block, d: nat) {
    && d < DESC_CNT && b.page in st.arenas && st.arenas[b.page].Small? && st.arenas[b.page].desc == d
    && b.idx < PerArena(d)
  }

  ghost function LiveIn(live: Live, p: nat, n: nat): (s: set<nat>)
    ensures |s| <= n
  {
    var s := set i | 0 <= i < n && Block(p, i) in live;
    AtMost(s, n);
    s
  }

  lemma {:induction false} AtMost(s: set<nat>, n: nat)
    requires forall i :: i in s ==> i < n
    ensures |s| <= n
  {
    if n == 0 {
      assert s == {};
    } else {
      AtMost(s - {n - 1}, n - 1);
    }
  }

  ghost predicate ArenaOk(st: State, p: nat)
    requires p in st.arenas && |st.free| == DESC_CNT
  {
    match st.arenas[p]
    case Small(d, freeCnt) =>
      && d < DESC_CNT && freeCnt + |LiveIn(st.live, p, PerArena(d))| == PerArena(d)
      && forall i :: 0 <= i < PerArena(d) ==> (Block(p, i) in st.live <==> Block(p, i) !in st.free[d])
    case Big(pages) => pages > 0 && Block(p, 0) in st.live
  }

  ghost predicate ListsOk(st: State)
    requires |st.free| == DESC_CNT
  {
    forall d :: 0 <= d < DESC_CNT ==> Distinct(st.free[d]) && forall b :: b in st.free[d] ==> InArena(st, b, d)
  }

  ghost predicate LiveOk(st: State) {
    forall b :: b in st.live ==>
      && b.page in st.arenas
      && match st.arenas[b.page]
         case Small(d, _) => d < DESC_CNT && b.idx < PerArena(d)
         case Big(_) => b.idx == 0
  }

  /** Free blocks are on their descriptor's list once; every block of an arena is free or allocated. */
  ghost predicate Ok(st: State) {
    && |st.free| == DESC_CNT && ListsOk(st) && LiveOk(st)
    && (forall p :: p in st.arenas ==> ArenaOk(st, p))
  }

  /** Every small arena has an allocated block. */
  ghost predicate Busy(st: State) {
    forall p :: p in st.arenas && st.arenas[p].Small? && st.arenas[p].desc < DESC_CNT ==>
      st.arenas[p].freeCnt < PerArena(st.arenas[p].desc)
  }

  /** The bytes a block has. */
  function Capacity(a: Arena): nat {
    match a
    case Small(d, _) => if d < DESC_CNT then BlockSize(d) else 0
    case Big(pages) => if pages > 0 then PGSIZE * pages - HEADER else 0
  }

  /** Requests above this size wrap around, when the header is added, to a size that fits in one page. The
      sum for this size itself wraps to 0, which asks for no pages and is refused. */
  const MAX_REQUEST := 0x1_0000_0000 - HEADER

  /** `d` is the smallest descriptor for requests of this size. */
  ghost predicate Serves(d: nat, size: nat) {
    d < DESC_CNT && size <= BlockSize(d) && forall k :: 0 <= k < d ==> BlockSize(k) < size
  }

  /** The pages for a big block, computed in 32-bit arithmetic. */
  function BigPages(size: Word): nat {
    ((size + HEADER) % 0x1_0000_0000 + PGSIZE - 1) % 0x1_0000_0000 / PGSIZE
  }

  /** `malloc` has nothing to give: its descriptor's list is empty and there is no page for a new arena, or
      there are not enough pages next to each other for a big block. */
  ghost predicate Refused(st: State, used: seq<bool>, size: Word)
    requires |st.free| == DESC_CNT
  {
    || size == 0
    || (size > BlockSize(DESC_CNT - 1) && NoRun(used, BigPages(size)))
    || exists d :: 0 <= d < DESC_CNT && Serves(d, size) && st.free[d] == [] && NoRun(used, 1)
  }

  /** Only one descriptor serves a size. */
  lemma RefusedSmall(st: State, used: seq<bool>, size: Word, d: nat)
    requires |st.free| == DESC_CNT && size > 0 && Serves(d, size)
    ensures d < DESC_CNT && (Refused(st, used, size) <==> st.free[d] == [] && NoRun(used, 1))
  {
    hide NoRun;
    assert size <= BlockSize(DESC_CNT - 1);
  }

  lemma RefusedZero(st: State, used: seq<bool>)
    requires |st.free| == DESC_CNT
    ensures Refused(st, used, 0)
  {
  }

  lemma ServesFits(d: nat, size: nat)
    requires Serves(d, size)
    ensures d < DESC_CNT && size <= BlockSize(d) && size <= MAX_REQUEST
  {
  }

  lemma BusyAnyway(st: State, x: nat)
    requires Busy(st)
    ensures BusyBut(st, x)
  {
  }

  lemma RefusedBig(st: State, used: seq<bool>, size: Word)
    requires |st.free| == DESC_CNT && size > BlockSize(DESC_CNT - 1)
    ensures Refused(st, used, size) <==> NoRun(used, BigPages(size))
  {
    hide NoRun, BigPages;
  }

  ghost predicate Fits(st: State) {
    forall b :: b in st.live && b.page in st.arenas && st.live[b] <= MAX_REQUEST ==>
      st.live[b] <= Capacity(st.arenas[b.page])
  }

  // ----- Steps -----

  /** A new arena's blocks, in order. */
  function NewBlocks(p: nat, n: nat): (s: seq<Block>)
    ensures |s| == n && forall i :: 0 <= i < n ==> s[i] == Block(p, i)
  {
    seq(n, i requires 0 <= i < n => Block(p, i))
  }

  function Carve(st: State, p: nat, d: nat): State
    requires d < DESC_CNT && |st.free| == DESC_CNT
  {
    st.(arenas := st.arenas[p := Small(d, PerArena(d))], free := st.free[d := st.free[d] + NewBlocks(p, PerArena(d))])
  }

  function Grab(st: State, d: nat, size: nat): State
    requires d < |st.free| && st.free[d] != [] && st.free[d][0].page in st.arenas
    requires var a := st.arenas[st.free[d][0].page]; a.Small? && a.freeCnt > 0
  {
    var b := st.free[d][0];
    var a := st.arenas[b.page];
    State(st.arenas[b.page := a.(freeCnt := a.freeCnt - 1)], st.free[d := st.free[d][1..]], st.live[b := size])
  }

  function Return(st: State, b: Block): State
    requires b.page in st.arenas && st.arenas[b.page].Small? && st.arenas[b.page].desc < |st.free|
  {
    var a := st.arenas[b.page];
    State(st.arenas[b.page := a.(freeCnt := a.freeCnt + 1)], st.free[a.desc := [b] + st.free[a.desc]], st.live - {b})
  }

  /** A freed block is the first to be given again: taking a block of the same size undoes the return. */
  lemma ReturnThenGrab(st: State, b: Block)
    requires Ok(st) && b in st.live && st.arenas[b.page].Small?
    ensures var d, st' := st.arenas[b.page].desc, Return(st, b);
            st'.free[d][0] == b && Grab(st', d, st.live[b]) == st
  {
    var d, st' := st.arenas[b.page].desc, Return(st, b);
    assert st'.free[d][1..] == st.free[d];
    hide BlockSize, PerArena, ListsOk, ArenaOk, LiveIn;
    assert Grab(st', d, st.live[b]).arenas == st.arenas && Grab(st', d, st.live[b]).live == st.live;
  }

  /** `fl` holds the blocks of `st`'s list other than those of arena `p`. */
  ghost predicate Swept(fl: seq<Block>, was: seq<Block>, p: nat, n: nat) {
    Distinct(fl) && forall b :: b in fl <==> b in was && !(b.page == p && b.idx < n)
  }

  function AddBig(st: State, p: nat, pages: nat, size: nat): State {
    st.(arenas := st.arenas[p := Big(pages)], live := st.live[Block(p, 0) := size])
  }

  function DropBig(st: State, p: nat): State {
    st.(arenas := st.arenas - {p}, live := st.live - {Block(p, 0)})
  }

  /** Steps in one arena leave the others alone. */
  lemma OtherArena(st: State, st': State, p: nat, q: nat)
    requires |st.free| == |st'.free| == DESC_CNT && q in st.arenas && ArenaOk(st, q) && q != p
    requires q in st'.arenas && st'.arenas[q] == st.arenas[q]
    requires forall b: Block :: b.page != p ==> (b in st'.live <==> b in st.live)
    requires forall d, b: Block :: 0 <= d < DESC_CNT && b.page != p ==> (b in st'.free[d] <==> b in st.free[d])
    ensures ArenaOk(st', q)
  {
    hide PerArena, BlockSize;
    if st.arenas[q].Small? {
      SameLive(st.live, st'.live, q, PerArena(st.arenas[q].desc));
    }
  }

  lemma NewBlocksAre(p: nat, n: nat)
    ensures Distinct(NewBlocks(p, n)) && forall b :: b in NewBlocks(p, n) <==> b.page == p && b.idx < n
  {
    var nb := NewBlocks(p, n);
    forall i | 0 <= i < n ensures Block(p, i) in nb {
      assert nb[i] == Block(p, i);
    }
  }

  lemma JoinLists<T>(s: seq<T>, t: seq<T>)
    requires Distinct(s) && Distinct(t) && forall x :: x in s ==> x !in t
    ensures Distinct(s + t)
  {
    assert forall i :: 0 <= i < |s| ==> s[i] in s;
    assert forall i :: 0 <= i < |t| ==> t[i] in t;
  }

  lemma CarveOk(st: State, p: nat, d: nat)
    requires Ok(st) && p !in st.arenas && d < DESC_CNT
    ensures Ok(Carve(st, p, d))
  {
    var st', n, fl := Carve(st, p, d), PerArena(d), st.free[d];
    hide BlockSize, PerArena;
    NewBlocksAre(p, n);
    hide NewBlocks;
    assert ListsOk(st') by {
      JoinLists(fl, NewBlocks(p, n));
      hide Distinct;
    }
    assert LiveIn(st.live, p, n) == {};
    assert ArenaOk(st', p);
    hide LiveIn, ArenaOk, Distinct;
    forall q | q in st'.arenas ensures ArenaOk(st', q) {
      if q != p {
        OtherArena(st, st', p, q);
      }
    }
  }

  lemma GrabOk(st: State, d: nat, size: nat)
    requires Ok(st) && d < DESC_CNT && st.free[d] != []
    ensures var b := st.free[d][0];
            InArena(st, b, d) && b !in st.live && st.arenas[b.page].freeCnt > 0 && Ok(Grab(st, d, size))
  {
    GrabArena(st, d, size);
    var b, st' := st.free[d][0], Grab(st, d, size);
    TailOf(st.free[d]);
    hide BlockSize, PerArena, LiveIn, ArenaOk, Distinct;
    assert ListsOk(st');
    forall q | q in st'.arenas ensures ArenaOk(st', q) {
      if q != b.page {
        OtherArena(st, st', b.page, q);
      }
    }
  }

  lemma GrabArena(st: State, d: nat, size: nat)
    requires Ok(st) && d < DESC_CNT && st.free[d] != []
    ensures var b := st.free[d][0];
            && InArena(st, b, d) && b !in st.live && st.arenas[b.page].freeCnt > 0
            && ArenaOk(Grab(st, d, size), b.page)
  {
    var b := st.free[d][0];
    assert b in st.free[d];
    var n := PerArena(d);
    hide BlockSize, PerArena;
    TailOf(st.free[d]);
    hide Distinct;
    assert ArenaOk(st, b.page);
    OneMoreLive(st.live, b, n, size);
    hide LiveIn;
  }

  lemma OneMoreLive(live: Live, b: Block, n: nat, size: nat)
    requires b !in live && b.idx < n
    ensures |LiveIn(live[b := size], b.page, n)| == |LiveIn(live, b.page, n)| + 1
  {
    assert LiveIn(live[b := size], b.page, n) == LiveIn(live, b.page, n) + {b.idx};
  }

  lemma SameLive(live: Live, live': Live, p: nat, n: nat)
    requires forall i :: 0 <= i < n ==> (Block(p, i) in live' <==> Block(p, i) in live)
    ensures LiveIn(live', p, n) == LiveIn(live, p, n)
  {
  }

  lemma ReturnOk(st: State, b: Block)
    requires Ok(st) && b in st.live && st.arenas[b.page].Small?
    ensures Ok(Return(st, b)) && st.arenas[b.page].freeCnt < PerArena(st.arenas[b.page].desc)
  {
    ReturnArena(st, b);
    var d := st.arenas[b.page].desc;
    var st' := Return(st, b);
    assert b !in st.free[d];
    hide BlockSize, PerArena;
    assert ListsOk(st') by {
      JoinLists([b], st.free[d]);
      hide Distinct;
    }
    hide LiveIn, ArenaOk, Distinct;
    forall q | q in st'.arenas ensures ArenaOk(st', q) {
      if q != b.page {
        OtherArena(st, st', b.page, q);
      }
    }
  }

  lemma ReturnArena(st: State, b: Block)
    requires Ok(st) && b in st.live && st.arenas[b.page].Small?
    ensures ArenaOk(Return(st, b), b.page) && b !in st.free[st.arenas[b.page].desc]
    ensures st.arenas[b.page].freeCnt < PerArena(st.arenas[b.page].desc)
  {
    assert ArenaOk(st, b.page);
    var n := PerArena(st.arenas[b.page].desc);
    hide BlockSize, PerArena, Distinct;
    assert LiveIn(st.live - {b}, b.page, n) == LiveIn(st.live, b.page, n) - {b.idx};
    assert b.idx in LiveIn(st.live, b.page, n);
  }

  /** The blocks of an arena that is entirely unused are all on the free list. */
  lemma AllFree(st: State, p: nat)
    requires Ok(st) && p in st.arenas && st.arenas[p].Small?
    requires st.arenas[p].freeCnt >= PerArena(st.arenas[p].desc)
    ensures var d := st.arenas[p].desc;
            forall i :: 0 <= i < PerArena(d) ==> Block(p, i) in st.free[d] && Block(p, i) !in st.live
  {
    assert ArenaOk(st, p);
    var d := st.arenas[p].desc;
    var n := PerArena(d);
    hide BlockSize, PerArena;
    assert LiveIn(st.live, p, n) == {};
    forall i | 0 <= i < n ensures Block(p, i) !in st.live {
      assert i !in LiveIn(st.live, p, n);
    }
  }

  /** Giving back an arena whose blocks are all free. */
  lemma RetireOk(st: State, p: nat, fl: seq<Block>)
    requires Ok(st) && p in st.arenas && st.arenas[p].Small?
    requires st.arenas[p].freeCnt >= PerArena(st.arenas[p].desc)
    requires Swept(fl, st.free[st.arenas[p].desc], p, PerArena(st.arenas[p].desc))
    ensures Ok(State(st.arenas - {p}, st.free[st.arenas[p].desc := fl], st.live))
  {
    var d := st.arenas[p].desc;
    var n := PerArena(d);
    AllFree(st, p);
    var st' := State(st.arenas - {p}, st.free[d := fl], st.live);
    hide BlockSize, PerArena, LiveIn, ArenaOk, Distinct;
    forall q | q in st'.arenas ensures ArenaOk(st', q) {
      OtherArena(st, st', p, q);
    }
  }

  lemma AddBigOk(st: State, p: nat, pages: nat, size: nat)
    requires Ok(st) && p !in st.arenas && pages > 0
    ensures Ok(AddBig(st, p, pages, size)) && Block(p, 0) !in st.live
  {
    var st' := AddBig(st, p, pages, size);
    assert ArenaOk(st', p);
    hide BlockSize, PerArena, LiveIn, ArenaOk, Distinct;
    forall q | q in st'.arenas ensures ArenaOk(st', q) {
      if q != p {
        OtherArena(st, st', p, q);
      }
    }
  }

  lemma DropBigOk(st: State, p: nat)
    requires Ok(st) && p in st.arenas && st.arenas[p].Big?
    ensures Ok(DropBig(st, p))
  {
    var st' := DropBig(st, p);
    hide BlockSize, PerArena, LiveIn, ArenaOk, Distinct;
    forall q | q in st'.arenas ensures ArenaOk(st', q) {
      OtherArena(st, st', p, q);
    }
  }

  ghost function FreeIn(fl: seq<Block>, p: nat, n: nat): set<nat> {
    set i | 0 <= i < n && Block(p, i) in fl
  }

  // ----- The whole heap -----

  function PagesOf(a: Arena): nat {
    match a
    case Small(_, _) => 1
    case Big(pages) => pages
  }

  /** An arena's pages are an outstanding run of the pool that starts at page `base`. */
  ghost predicate Backed(st: State, base: nat, runs: Runs) {
    forall p :: p in st.arenas ==> p >= base && p - base in runs && runs[p - base] == PagesOf(st.arenas[p])
  }

  ghost predicate Good(st: State, base: nat, runs: Runs) {
    Ok(st) && Fits(st) && Backed(st, base, runs)
  }

  /** Every small arena except perhaps `x` has an allocated block. */
  ghost predicate BusyBut(st: State, x: nat) {
    forall p :: p in st.arenas && p != x && st.arenas[p].Small? && st.arenas[p].desc < DESC_CNT ==>
      st.arenas[p].freeCnt < PerArena(st.arenas[p].desc)
  }

  lemma CarveGood(st: State, base: nat, runs: Runs, i: nat, d: nat)
    requires Good(st, base, runs) && Busy(st) && i !in runs && d < DESC_CNT
    ensures var st' := Carve(st, base + i, d);
            Good(st', base, runs[i := 1]) && BusyBut(st', base + i)
  {
    hide Ok, PerArena, BlockSize, NewBlocks;
    CarveOk(st, base + i, d);
    LivePages(st);
  }

  lemma LivePages(st: State)
    requires Ok(st)
    ensures forall b :: b in st.live ==> b.page in st.arenas
  {
  }

  lemma RunOf(st: State, base: nat, runs: Runs, p: nat)
    requires Good(st, base, runs) && p in st.arenas
    ensures p >= base && p - base in runs && runs[p - base] == PagesOf(st.arenas[p])
  {
  }

  lemma DescOf(st: State, base: nat, runs: Runs, p: nat)
    requires Good(st, base, runs) && p in st.arenas && st.arenas[p].Small?
    ensures st.arenas[p].desc < DESC_CNT == |st.free|
  {
    assert ArenaOk(st, p);
  }

  lemma FreeListsOf(st: State, base: nat, runs: Runs)
    requires Good(st, base, runs)
    ensures |st.free| == DESC_CNT && forall d :: 0 <= d < DESC_CNT ==> Distinct(st.free[d])
  {
  }

  lemma BigBlock(st: State, base: nat, runs: Runs, b: Block)
    requires Good(st, base, runs) && b in st.live && b.page in st.arenas && st.arenas[b.page].Big?
    ensures b.idx == 0 && st.arenas[b.page].pages > 0
  {
    assert ArenaOk(st, b.page);
  }

  lemma AddBigGood(st: State, base: nat, runs: Runs, i: nat, pages: nat, size: nat)
    requires Good(st, base, runs) && Busy(st) && i !in runs && pages > 0
    requires size <= PGSIZE * pages - HEADER || size > MAX_REQUEST
    ensures var st' := AddBig(st, base + i, pages, size);
            Good(st', base, runs[i := pages]) && Busy(st') && Block(base + i, 0) !in st.live
  {
    hide Ok, PerArena, BlockSize;
    AddBigOk(st, base + i, pages, size);
    LivePages(st);
    var st' := AddBig(st, base + i, pages, size);
    assert Busy(st');
    hide Busy;
    assert Fits(st');
    hide Fits;
  }

  lemma GrabGood(st: State, base: nat, runs: Runs, d: nat, size: nat)
    requires Good(st, base, runs) && d < DESC_CNT && st.free[d] != [] && BusyBut(st, st.free[d][0].page)
    requires size <= BlockSize(d)
    ensures var b := st.free[d][0];
            && InArena(st, b, d) && b !in st.live && st.arenas[b.page].freeCnt > 0
            && Good(Grab(st, d, size), base, runs) && Busy(Grab(st, d, size))
  {
    hide Ok, PerArena, BlockSize, Fits, Busy, BusyBut, Distinct;
    FreeListsOf(st, base, runs);
    GrabOk(st, d, size);
    FreeAtMost(st, st.free[d][0].page);
    GrabBusy(st, d, size);
    GrabFits(st, d, size);
  }

  lemma FreeAtMost(st: State, p: nat)
    requires Ok(st) && p in st.arenas && st.arenas[p].Small?
    ensures st.arenas[p].desc < DESC_CNT && st.arenas[p].freeCnt <= PerArena(st.arenas[p].desc)
  {
    assert ArenaOk(st, p);
  }

  lemma GrabBusy(st: State, d: nat, size: nat)
    requires d < |st.free| == DESC_CNT && st.free[d] != [] && InArena(st, st.free[d][0], d)
    requires BusyBut(st, st.free[d][0].page) && 0 < st.arenas[st.free[d][0].page].freeCnt <= PerArena(d)
    ensures Busy(Grab(st, d, size))
  {
    hide PerArena, BlockSize;
  }

  lemma GrabFits(st: State, d: nat, size: nat)
    requires d < |st.free| == DESC_CNT && st.free[d] != [] && InArena(st, st.free[d][0], d)
    requires Fits(st) && st.arenas[st.free[d][0].page].freeCnt > 0 && size <= BlockSize(d)
    ensures Fits(Grab(st, d, size))
  {
    hide PerArena, BlockSize;
  }

  lemma ReturnGood(st: State, base: nat, runs: Runs, b: Block)
    requires Good(st, base, runs) && Busy(st) && b in st.live && st.arenas[b.page].Small?
    ensures Good(Return(st, b), base, runs) && BusyBut(Return(st, b), b.page)
    ensures st.arenas[b.page].freeCnt < PerArena(st.arenas[b.page].desc)
  {
    hide PerArena, BlockSize, Ok;
    LivePages(st);
    DescOf(st, base, runs, b.page);
    ReturnOk(st, b);
    var st' := Return(st, b);
    assert BusyBut(st', b.page);
    assert Fits(st');
  }

  lemma RetireGood(st: State, base: nat, runs: Runs, p: nat, fl: seq<Block>)
    requires Good(st, base, runs) && p in st.arenas && st.arenas[p].Small? && BusyBut(st, p)
    requires st.arenas[p].freeCnt >= PerArena(st.arenas[p].desc)
    requires Swept(fl, st.free[st.arenas[p].desc], p, PerArena(st.arenas[p].desc))
    ensures var st' := State(st.arenas - {p}, st.free[st.arenas[p].desc := fl], st.live);
            Good(st', base, runs - {p - base}) && Busy(st')
  {
    hide Ok, PerArena, BlockSize, Swept, Fits, Backed;
    HasList(st, p);
    RetireOk(st, p, fl);
    RetireBacked(st, base, runs, p, st.free[st.arenas[p].desc := fl]);
  }

  lemma HasList(st: State, p: nat)
    requires Ok(st) && p in st.arenas && st.arenas[p].Small?
    ensures st.arenas[p].desc < |st.free|
  {
    assert ArenaOk(st, p);
    hide ListsOk, LiveOk, PerArena, LiveIn;
  }

  /** An arena with no block allocated may go, and its run with it. */
  lemma RetireBacked(st: State, base: nat, runs: Runs, p: nat, free: seq<seq<Block>>)
    requires Good(st, base, runs) && p in st.arenas && st.arenas[p].Small?
    requires st.arenas[p].freeCnt >= PerArena(st.arenas[p].desc)
    requires Ok(State(st.arenas - {p}, free, st.live))
    ensures var st' := State(st.arenas - {p}, free, st.live); Fits(st') && Backed(st', base, runs - {p - base})
  {
    hide PerArena, BlockSize, ListsOk, ArenaOk, Swept;
  }

  lemma DropBigGood(st: State, base: nat, runs: Runs, p: nat)
    requires Good(st, base, runs) && Busy(st) && p in st.arenas && st.arenas[p].Big?
    ensures Good(DropBig(st, p), base, runs - {p - base}) && Busy(DropBig(st, p))
  {
    DropBigOk(st, p);
    hide Ok, PerArena, BlockSize;
  }

  // ----- Addresses -----

  /** `arena_to_block`, and the start of a big block. */
  function Address(a: Arena, b: Block): nat {
    PGSIZE * b.page + HEADER + match a
                               case Small(d, _) => if d < DESC_CNT then b.idx * BlockSize(d) else 0
                               case Big(_) => 0
  }

  /** The blocks of an arena fill it without overlapping. */
  lemma BlockPlace(d: nat, i: nat)
    requires d < DESC_CNT && i < PerArena(d)
    ensures HEADER + i * BlockSize(d) + BlockSize(d) <= PGSIZE
  {
    match d
    case 0 =>
    case 1 =>
    case 2 =>
    case 3 =>
    case 4 =>
    case 5 =>
    case _ =>
  }

  lemma Apart(d: nat, i: nat, j: nat)
    requires d < DESC_CNT && i < j
    ensures i * BlockSize(d) + BlockSize(d) <= j * BlockSize(d)
  {
    var n := BlockSize(d);
    hide BlockSize;
    assert (i + 1) * n <= j * n;
  }

  /** A block lies in the pages of its arena, behind the header; `block_to_arena` rounds down to it. */
  lemma BlockBounds(st: State, b: Block)
    requires Ok(st) && b in st.live
    ensures b.page in st.arenas
    ensures var a := st.arenas[b.page];
            && PGSIZE * b.page + HEADER <= Address(a, b)
            && Address(a, b) + Capacity(a) <= PGSIZE * (b.page + PagesOf(a))
            && Address(a, b) / PGSIZE == b.page
  {
    var a := st.arenas[b.page];
    assert ArenaOk(st, b.page);
    if a.Small? {
      BlockPlace(a.desc, b.idx);
      hide BlockSize, PerArena;
    }
  }

  /** Two allocated blocks do not overlap. */
  lemma LiveDisjoint(st: State, base: nat, runs: Runs, bits: seq<bool>, b: Block, c: Block)
    requires Good(st, base, runs) && RunsOk(runs, bits) && b in st.live && c in st.live && b != c
    ensures b.page in st.arenas && c.page in st.arenas
    ensures var x, y := st.arenas[b.page], st.arenas[c.page];
            Address(x, b) + Capacity(x) <= Address(y, c) || Address(y, c) + Capacity(y) <= Address(x, b)
  {
    BlockBounds(st, b);
    BlockBounds(st, c);
    if b.page == c.page {
      SamePage(st, b, c);
    } else {
      RunOf(st, base, runs, b.page);
      RunOf(st, base, runs, c.page);
      hide Good, Address, Capacity;
      assert b.page < c.page ==> b.page + PagesOf(st.arenas[b.page]) <= c.page;
      assert c.page < b.page ==> c.page + PagesOf(st.arenas[c.page]) <= b.page;
    }
  }

  /** An allocated block does not overlap the header of any arena, its own or another. */
  lemma HeadersApart(st: State, base: nat, runs: Runs, bits: seq<bool>, b: Block, p: nat)
    requires Good(st, base, runs) && RunsOk(runs, bits) && b in st.live && p in st.arenas
    ensures b.page in st.arenas
    ensures var a := st.arenas[b.page];
            Address(a, b) + Capacity(a) <= PGSIZE * p || PGSIZE * p + HEADER <= Address(a, b)
  {
    BlockBounds(st, b);
    RunOf(st, base, runs, b.page);
    RunOf(st, base, runs, p);
    PagesPositive(st, base, runs, p);
    hide Good, Address, Capacity, PagesOf;
    assert b.page < p ==> b.page + PagesOf(st.arenas[b.page]) <= p;
    assert p < b.page ==> p + PagesOf(st.arenas[p]) <= b.page;
  }

  lemma PagesPositive(st: State, base: nat, runs: Runs, p: nat)
    requires Good(st, base, runs) && p in st.arenas
    ensures PagesOf(st.arenas[p]) > 0
  {
    assert ArenaOk(st, p);
  }

  lemma SamePage(st: State, b: Block, c: Block)
    requires Ok(st) && b in st.live && c in st.live && b != c && b.page == c.page && b.page in st.arenas
    ensures var a := st.arenas[b.page];
            Address(a, b) + Capacity(a) <= Address(a, c) || Address(a, c) + Capacity(a) <= Address(a, b)
  {
    var d := st.arenas[b.page].desc;
    if b.idx < c.idx {
      Apart(d, b.idx, c.idx);
    } else {
      Apart(d, c.idx, b.idx);
    }
    hide BlockSize, PerArena;
  }

  /** `free_cnt` is the number of the arena's blocks on the free list. */
  lemma FreeCountIs(st: State, p: nat)
    requires Ok(st) && p in st.arenas && st.arenas[p].Small?
    ensures var d := st.arenas[p].desc;
            st.arenas[p].freeCnt == |FreeIn(st.free[d], p, PerArena(d))|
  {
    assert ArenaOk(st, p);
    var d := st.arenas[p].desc;
    var n := PerArena(d);
    Split(FreeIn(st.free[d], p, n), LiveIn(st.live, p, n), n);
  }

  lemma {:induction false} Split(s: set<nat>, t: set<nat>, n: nat)
    requires forall i :: i in s || i in t ==> i < n
    requires forall i :: 0 <= i < n ==> (i in s <==> i !in t)
    ensures |s| + |t| == n
  {
    if n == 0 {
      assert s == {} && t == {};
    } else if n - 1 in s {
      Split(s - {n - 1}, t, n - 1);
    } else {
      Split(s, t - {n - 1}, n - 1);
    }
  }
}
