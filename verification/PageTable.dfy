/** Two-level IA-32 page tables: index split and entry packing, and page directories as partial maps. */
module PageTables {
  import opened Vaddr
  import opened Bits
  import opened Arithmetic

  const TABLE_SIZE := 1024
  /** `pd_no (PHYS_BASE)`: the user part of a page directory. */
  const USER_PDES := 768

  const PGMASK: Word := 0xfff
  const PTMASK: Word := 0x3f_f000
  const PTE_ADDR: Word := 0xffff_f000
  const PTE_P: Word := 1
  const PTE_W: Word := 2
  const PTE_U: Word := 4

  // ----- Splitting addresses -----

  function PgOfs(va: Word): nat {
    And(va, PGMASK)
  }

  function PtNo(va: Word): nat {
    And(va, PTMASK) / 4096
  }

  function PdNo(va: Word): nat {
    va / 0x40_0000
  }

  /** The low `k` bits. */
  function Low(w: nat, k: nat): nat {
    if k == 0 then 0 else 2 * Low(w / 2, k - 1) + w % 2
  }

  /** Ones from bit `k` up to bit `n`. */
  function Mask(n: nat, k: nat): nat {
    if n == 0 then 0
    else 2 * Mask(n - 1, if k == 0 then 0 else k - 1) + if k == 0 then 1 else 0
  }

  lemma {:induction false} AndMask(w: nat, n: nat, k: nat)
    requires k <= n
    ensures And(w, Mask(n, k)) + Low(w, k) == Low(w, n)
    decreases n
  {
    if n > 0 {
      AndMask(w / 2, n - 1, if k == 0 then 0 else k - 1);
    }
    LowOfZero(n);
    LowOfZero(k);
  }

  lemma {:induction false} LowOfZero(k: nat)
    ensures Low(0, k) == 0
  {
    if k > 0 {
      LowOfZero(k - 1);
    }
  }

  /** One bit more. */
  lemma LowStep(w: nat, k: nat, p: nat)
    requires p > 0 && Low(w / 2, k) == Remainder(w / 2, p)
    ensures Low(w, k + 1) == Remainder(w, 2 * p)
  {
    hide Quotient, Remainder;
    Divides(w / 2, p);
    var q := Quotient(w / 2, p);
    assert q * (2 * p) == 2 * (q * p);
    QuotientIs(w, 2 * p, q);
    Divides(w, 2 * p);
  }

  lemma {:induction false} LowIs(w: nat, k: nat)
    ensures Low(w, k) == Remainder(w, Pow2(k))
  {
    if k > 0 {
      LowIs(w / 2, k - 1);
      LowStep(w, k - 1, Pow2(k - 1));
    }
  }

  lemma PowersUsed()
    ensures Pow2(12) == 0x1000 && Pow2(22) == 0x40_0000 && Pow2(32) == 0x1_0000_0000
  {
    SmallPowers();
    Pow2Sum(4, 8);
    Pow2Sum(2, 4);
    Pow2Sum(16, 6);
    Pow2Of32();
  }

  /** Masks are differences of powers. */
  lemma {:induction false} MaskIs(n: nat, k: nat)
    requires k <= n
    ensures Mask(n, k) == Pow2(n) - Pow2(k)
  {
    if n > 0 {
      MaskIs(n - 1, if k == 0 then 0 else k - 1);
    }
  }

  /** What the masks in use keep. */
  lemma MasksUsed(w: Word)
    ensures And(w, PGMASK) == w % 0x1000
    ensures And(w, PTMASK) == w % 0x40_0000 - w % 0x1000
    ensures And(w, PTE_ADDR) == w - w % 0x1000
  {
    hide Low, Mask, And, Pow2;
    PowersUsed();
    assert Pow2(0) == 1 by { SmallPowers(); }
    MaskIs(12, 0);
    MaskIs(22, 12);
    MaskIs(32, 12);
    AndMask(w, 12, 0);
    AndMask(w, 22, 12);
    AndMask(w, 32, 12);
    LowIs(w, 0);
    LowIs(w, 12);
    LowIs(w, 22);
    LowIs(w, 32);
  }

  /** An address is its directory index, its table index and its offset, each in range. */
  lemma SplitAddress(va: Word)
    ensures va == PdNo(va) * 0x40_0000 + PtNo(va) * 0x1000 + PgOfs(va)
    ensures PdNo(va) < TABLE_SIZE && PtNo(va) < TABLE_SIZE && PgOfs(va) < PGSIZE
    ensures PgOfs(va) == va % PGSIZE
    ensures PdNo(va) < USER_PDES <==> va < PHYS_BASE
  {
    MasksUsed(va);
    hide And;
  }

  // ----- Packing entries -----

  /** `ptov` and `vtop` */
  function Ptov(pa: nat): nat {
    pa + PHYS_BASE
  }

  function Vtop(va: nat): nat
    requires va >= PHYS_BASE
  {
    va - PHYS_BASE
  }

  /** Or-ing in bits that are clear adds them. */
  lemma {:induction false} OrClear(x: nat, f: nat)
    requires And(x, f) == 0
    ensures Or(x, f) == x + f
  {
    if x > 0 && f > 0 {
      OrClear(x / 2, f / 2);
    }
  }

  /** The flag bits. */
  lemma FlagBits(x: nat)
    ensures And(x, 0) == 0 && And(x, PTE_P) == x % 2
    ensures And(x, PTE_W) == 2 * (x / 2 % 2) && And(x, PTE_U) == 4 * (x / 4 % 2)
  {
    AndOne(x);
    AndOne(x / 2);
    AndOne(x / 2 / 2);
    AndDouble(x, 1);
    AndDouble(x, 2);
    AndDouble(x / 2, 1);
    hide And;
  }

  lemma AndOne(x: nat)
    ensures And(x, 1) == x % 2
  {
  }

  lemma AndDouble(x: nat, y: nat)
    ensures And(x, 2 * y) == 2 * And(x / 2, y)
  {
    var z := 2 * y;
    assert z / 2 == y && z % 2 == 0;
  }

  /** A kernel address of a page. */
  predicate IsFrame(page: int) {
    PHYS_BASE <= page < 0x1_0000_0000 && page % PGSIZE == 0
  }

  function PdeCreate(pt: nat): nat
    requires IsFrame(pt)
  {
    Or(Or(Or(Vtop(pt), PTE_U), PTE_P), PTE_W)
  }

  function PteCreateUser(page: nat, writable: bool): nat
    requires IsFrame(page)
  {
    Or(Or(Or(Vtop(page), PTE_P), if writable then PTE_W else 0), PTE_U)
  }

  /** `pde_get_pt` and `pte_get_page` */
  function GetPage(e: Word): nat {
    Ptov(And(e, PTE_ADDR))
  }

  predicate Present(e: Word) {
    And(e, PTE_P) != 0
  }

  lemma PresentIs(e: Word)
    ensures Present(e) <==> e % 2 == 1
  {
    FlagBits(e);
  }

  /** Entries give back the page they were made from. */
  lemma EntryRoundTrip(page: nat, writable: bool)
    requires IsFrame(page)
    ensures 0 < PdeCreate(page) < 0x1_0000_0000 && 0 < PteCreateUser(page, writable) < 0x1_0000_0000
    ensures Present(PdeCreate(page)) && GetPage(PdeCreate(page)) == page
    ensures Present(PteCreateUser(page, writable)) && GetPage(PteCreateUser(page, writable)) == page
  {
    hide And, Or, Present, GetPage, PdeCreate, PteCreateUser;
    Flags(page, writable);
    PackedPage(page, 7);
    PackedPage(page, 5);
  }

  /** Flags with the present bit come off again. */
  lemma PackedPage(page: nat, flags: nat)
    requires IsFrame(page) && flags < PGSIZE && flags % 2 == 1
    ensures 0 < Vtop(page) + flags < 0x1_0000_0000
    ensures Present(Vtop(page) + flags) && GetPage(Vtop(page) + flags) == page
  {
    hide And, Or, Present, IsFrame;
    OffsetComesOff(page, flags);
    PresentIs(Vtop(page) + flags);
    MasksUsed(Vtop(page) + flags);
  }

  lemma OffsetComesOff(page: nat, flags: nat)
    requires IsFrame(page) && flags < PGSIZE
    ensures PHYS_BASE <= page && page - PHYS_BASE + flags < 0x1_0000_0000
    ensures (page - PHYS_BASE + flags) % 0x1000 == flags && (page - PHYS_BASE + flags) % 2 == flags % 2
  {
    var k := page / PGSIZE - 0xC_0000;
    OffsetAt(k, flags);
    EvenOffset(0x800 * k, flags);
  }

  lemma OffsetAt(k: nat, flags: nat)
    requires flags < 0x1000
    ensures (0x1000 * k + flags) % 0x1000 == flags
  {
  }

  lemma EvenOffset(k: nat, flags: nat)
    ensures (2 * k + flags) % 2 == flags % 2
  {
  }

  lemma Flags(page: nat, writable: bool)
    requires IsFrame(page)
    ensures PdeCreate(page) == Vtop(page) + 7
    ensures PteCreateUser(page, writable) == Vtop(page) + if writable then 7 else 5
  {
    hide And, Or;
    var n := page / PGSIZE;
    assert page == PGSIZE * n && Vtop(page) == 8 * (512 * n - 0x1800_0000);
    FlagsAt(512 * n - 0x1800_0000);
  }

  lemma FlagsAt(k: nat)
    ensures Or(Or(Or(8 * k, PTE_U), PTE_P), PTE_W) == 8 * k + 7
    ensures Or(Or(Or(8 * k, PTE_P), PTE_W), PTE_U) == 8 * k + 7
    ensures Or(Or(Or(8 * k, PTE_P), 0), PTE_U) == 8 * k + 5
  {
    hide And, Or;
    AddFlag(k, 0, PTE_U);
    AddFlag(k, 4, PTE_P);
    AddFlag(k, 5, PTE_W);
    AddFlag(k, 0, PTE_P);
    AddFlag(k, 1, PTE_W);
    AddFlag(k, 1, 0);
    AddFlag(k, 3, PTE_U);
    AddFlag(k, 1, PTE_U);
  }

  /** Adding a flag that is not among the flags `low`. */
  lemma AddFlag(k: nat, low: nat, f: nat)
    requires low < 8
    requires f == 0 || (f == PTE_P && low % 2 == 0) || (f == PTE_W && low / 2 % 2 == 0) || (f == PTE_U && low / 4 == 0)
    ensures Or(8 * k + low, f) == 8 * k + low + f
  {
    hide And, Or;
    var x := 8 * k + low;
    assert x / 2 == 4 * k + low / 2 && x / 4 == 2 * k + low / 4;
    FlagBits(x);
    OrClear(x, f);
  }

  /** Clearing the present bit. */
  lemma ClearPresent(e: Word)
    ensures AndNot(e, PTE_P) == e - e % 2 && !Present(AndNot(e, PTE_P))
  {
    AndNotZero(e / 2);
    PresentIs(AndNot(e, PTE_P));
  }

  lemma {:induction false} AndNotZero(x: nat)
    ensures AndNot(x, 0) == x
  {
    if x > 0 {
      AndNotZero(x / 2);
    }
  }
}
