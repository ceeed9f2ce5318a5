/** Page directories changed in place, with page tables allocated on demand. */
module PageDirs {
  import opened Options
  import opened Vaddr
  import opened Bits
  import opened PageTables

  type Table = seq<Word>

  function Put(t: Table, i: nat, e: Word): Table
    requires i < |t|
  {
    t[i := e]
  }

  function Zeroed(): (t: Table)
    ensures |t| == TABLE_SIZE && forall i :: 0 <= i < |t| ==> t[i] == 0
  {
    seq(TABLE_SIZE, _ => 0)
  }

  /** The first address of user page `u`. */
  function UserPage(u: nat): nat {
    PGSIZE * u
  }

  const USER_PAGES := 0xc_0000

  /** The entry that governs address `va`, 0 where there is no table. */
  function EntryOf(pd: seq<Word>, tables: map<nat, Table>, va: Word): Word
    requires Tables(pd, tables)
  {
    SplitAddress(va);
    var pde := pd[PdNo(va)];
    if pde == 0 then 0 else tables[PdeGetPt(pde)][PtNo(va)]
  }

  /** `pde_get_pt` asserts that the directory entry is present. */
  function PdeGetPt(pde: Word): nat
    requires Present(pde)
  {
    GetPage(pde)
  }

  /** Directory entries that are set are present and point to tables, no two to the same one. */
  predicate Tables(pd: seq<Word>, tables: map<nat, Table>) {
    && |pd| == TABLE_SIZE
    && (forall t :: t in tables ==> |tables[t]| == TABLE_SIZE)
    && (forall i :: 0 <= i < TABLE_SIZE && pd[i] != 0 ==> Present(pd[i]) && PdeGetPt(pd[i]) in tables)
    && (forall i, j :: 0 <= i < j < TABLE_SIZE && pd[i] != 0 && pd[j] != 0 ==>
          PdeGetPt(pd[i]) != PdeGetPt(pd[j]))
  }

  /** Where address `va` leads: a frame and an offset in it. */
  function Translate(e: Word, va: Word): Option<nat> {
    if Present(e) then Some(GetPage(e) + PgOfs(va)) else None
  }

  /** Two addresses share an entry exactly when they are on one page. */
  lemma SamePage(va: Word, wa: Word)
    ensures PdNo(va) == PdNo(wa) && PtNo(va) == PtNo(wa) <==> va / PGSIZE == wa / PGSIZE
  {
    SplitAddress(va);
    SplitAddress(wa);
    hide PdNo, PtNo, PgOfs;
  }

  /** Storing into one entry changes that page's entry alone. */
  lemma StoreEntry(pd: seq<Word>, tables: map<nat, Table>, va: Word, e: Word, wa: Word)
    requires Tables(pd, tables) && PdNo(va) < TABLE_SIZE && PtNo(va) < TABLE_SIZE && pd[PdNo(va)] != 0
    ensures var t := PdeGetPt(pd[PdNo(va)]);
            var tables' := tables[t := Put(tables[t], PtNo(va), e)];
            && Tables(pd, tables')
            && EntryOf(pd, tables', wa) == if wa / PGSIZE == va / PGSIZE then e else EntryOf(pd, tables, wa)
  {
    SplitAddress(wa);
    SamePage(va, wa);
    hide PdNo, PtNo, GetPage;
  }

  /** A new, zeroed table changes no entry. */
  lemma NewTable(pd: seq<Word>, tables: map<nat, Table>, i: nat, pt: nat, wa: Word)
    requires Tables(pd, tables) && i < TABLE_SIZE && pd[i] == 0 && pt !in tables && IsFrame(pt)
    ensures var pde := PdeCreate(pt);
            var tables' := tables[pt := Zeroed()];
            && 0 < pde < 0x1_0000_0000 && Present(pde) && PdeGetPt(pde) == pt
            && Tables(pd[i := pde], tables') && EntryOf(pd[i := pde], tables', wa) == EntryOf(pd, tables, wa)
  {
    EntryRoundTrip(pt, true);
    SplitAddress(wa);
    hide PdNo, PtNo, GetPage, PdeCreate, Present;
  }

  /** The partial map from user pages to frames that a directory stands for. */
  ghost function MappingOf(pd: seq<Word>, tables: map<nat, Table>): map<nat, nat>
    requires Tables(pd, tables)
  {
    map u: nat | 0 <= u < USER_PAGES && Present(EntryOf(pd, tables, UserPage(u))) ::
      GetPage(EntryOf(pd, tables, UserPage(u)))
  }

  /** One page's entry changes to `e`. */
  lemma MappingChange(pd: seq<Word>, tables: map<nat, Table>, pd': seq<Word>, tables': map<nat, Table>, u: nat, e: Word)
    requires Tables(pd, tables) && Tables(pd', tables') && u < USER_PAGES
    requires forall wa: Word :: EntryOf(pd', tables', wa) == if wa / PGSIZE == u then e else EntryOf(pd, tables, wa)
    ensures MappingOf(pd', tables') == if Present(e) then MappingOf(pd, tables)[u := GetPage(e)]
                                       else MappingOf(pd, tables) - {u}
  {
    hide Tables, EntryOf, Present, GetPage;
    forall v: nat | v < USER_PAGES
      ensures EntryOf(pd', tables', UserPage(v)) == if v == u then e else EntryOf(pd, tables, UserPage(v))
    {
      assert UserPage(v) / PGSIZE == v;
    }
  }

  class PageDir {
    var pd: seq<Word>
    var tables: map<nat, Table>

    ghost predicate Valid()
      reads this
    {
      Tables(pd, tables)
    }

    ghost function Mapping(): map<nat, nat>
      requires Valid()
      reads this
    {
      MappingOf(pd, tables)
    }

    /** A copy of the kernel's own directory, which maps no user pages. */
    constructor (initPd: seq<Word>, kernelTables: map<nat, Table>)
      requires Tables(initPd, kernelTables) && forall i :: 0 <= i < USER_PDES ==> initPd[i] == 0
      ensures Valid() && Mapping() == map[]
      ensures forall wa: Word :: EntryOf(pd, tables, wa) == EntryOf(initPd, kernelTables, wa)
    {
      pd, tables := initPd, kernelTables;
      new;
      forall u: nat | u < USER_PAGES ensures !Present(EntryOf(pd, tables, UserPage(u))) {
        SplitAddress(UserPage(u));
        PresentIs(0);
      }
    }

    /** `lookup_page`: the table and the index of the entry; `pt` is the page the allocator gives, if any. */
    method LookupPage(va: Word, create: bool, pt: Option<nat>) returns (r: Option<nat>)
      requires Valid() && (create ==> va < PHYS_BASE)
      requires pt.Some? ==> IsFrame(pt.value) && pt.value !in tables
      modifies this
      ensures Valid() && forall wa: Word :: EntryOf(pd, tables, wa) == EntryOf(old(pd), old(tables), wa)
      ensures r.None? <==> old(pd)[PdNo(va)] == 0 && (!create || pt.None?)
      ensures r.None? ==> pd == old(pd) && tables == old(tables)
      ensures r.Some? ==> pd[PdNo(va)] != 0 && r.value == PdeGetPt(pd[PdNo(va)]) && PtNo(va) < TABLE_SIZE
    {
      SplitAddress(va);
      var i := PdNo(va);
      if pd[i] == 0 {
        if !create || pt.None? {
          return None;
        }
        NewTable(pd, tables, i, pt.value, 0);
        var pd' := pd[i := PdeCreate(pt.value)];
        var tables' := tables[pt.value := Zeroed()];
        forall wa: Word ensures EntryOf(pd', tables', wa) == EntryOf(pd, tables, wa) {
          NewTable(pd, tables, i, pt.value, wa);
        }
        pd, tables := pd', tables';
      }
      r := Some(PdeGetPt(pd[i]));
    }

    /** Stores an entry through the pointer `lookup_page` returned. */
    method StoreAt(va: Word, t: nat, e: Word)
      requires Valid() && PdNo(va) < TABLE_SIZE && PtNo(va) < TABLE_SIZE
      requires pd[PdNo(va)] != 0 && t == PdeGetPt(pd[PdNo(va)])
      modifies this
      ensures Valid()
      ensures forall wa: Word ::
                EntryOf(pd, tables, wa) == if wa / PGSIZE == va / PGSIZE then e else EntryOf(old(pd), old(tables), wa)
    {
      StoreEntry(pd, tables, va, e, 0);
      var tables' := tables[t := Put(tables[t], PtNo(va), e)];
      forall wa: Word
        ensures EntryOf(pd, tables', wa) == if wa / PGSIZE == va / PGSIZE then e else EntryOf(pd, tables, wa)
      {
        StoreEntry(pd, tables, va, e, wa);
      }
      tables := tables';
    }

    /** `pagedir_set_page` */
    method SetPage(upage: Word, kpage: nat, writable: bool, pt: Option<nat>) returns (ok: bool)
      requires Valid() && upage % PGSIZE == 0 && upage < PHYS_BASE && IsFrame(kpage)
      requires !Present(EntryOf(pd, tables, upage))
      requires pt.Some? ==> IsFrame(pt.value) && pt.value !in tables
      modifies this
      ensures Valid()
      ensures !ok <==> old(pd)[PdNo(upage)] == 0 && pt.None?
      ensures !ok ==> Mapping() == old(Mapping())
      ensures ok ==> Mapping() == old(Mapping())[upage / PGSIZE := kpage]
      ensures ok ==> EntryOf(pd, tables, upage) == Vtop(kpage) + if writable then 7 else 5
      ensures forall wa: Word :: !ok || wa / PGSIZE != upage / PGSIZE ==>
                EntryOf(pd, tables, wa) == EntryOf(old(pd), old(tables), wa)
    {
      hide Present, GetPage, PdNo, PtNo, PdeCreate, PteCreateUser, Tables, EntryOf, MappingOf;
      SplitAddress(upage);
      EntryRoundTrip(kpage, writable);
      Flags(kpage, writable);
      var t := LookupPage(upage, true, pt);
      if t.None? {
        return false;
      }
      StoreAt(upage, t.value, PteCreateUser(kpage, writable));
      MappingChange(old(pd), old(tables), pd, tables, upage / PGSIZE, PteCreateUser(kpage, writable));
      ok := true;
    }

    /** `pagedir_get_page` */
    method GetPageAt(va: Word) returns (r: Option<nat>)
      requires Valid() && va < PHYS_BASE
      ensures r == if va / PGSIZE in Mapping() then Some(Mapping()[va / PGSIZE] + va % PGSIZE) else None
    {
      hide Present, GetPage, PdNo, PtNo, Tables, EntryOf, PgOfs;
      SplitAddress(va);
      OnePage(pd, tables, va, UserPage(va / PGSIZE));
      var e := ReadEntry(va);
      r := Translate(e, va);
    }

    /** `pagedir_clear_page`: the other bits of the entry stay. */
    method ClearPage(upage: Word)
      requires Valid() && upage % PGSIZE == 0 && upage < PHYS_BASE
      modifies this
      ensures Valid() && Mapping() == old(Mapping()) - {upage / PGSIZE}
      ensures forall wa: Word ::
                var was := EntryOf(old(pd), old(tables), wa);
                EntryOf(pd, tables, wa) == if wa / PGSIZE == upage / PGSIZE then was - was % 2 else was
    {
      hide Present, GetPage, PdNo, PtNo, Tables, EntryOf, MappingOf, AndNot;
      SplitAddress(upage);
      ClearPresent(EntryOf(pd, tables, upage));
      PresentIs(EntryOf(pd, tables, upage));
      var e := ReadEntry(upage);
      if Present(e) {
        ReadTable(upage);
        StoreAt(upage, PdeGetPt(pd[PdNo(upage)]), AndNot(e, PTE_P));
      }
      forall wa: Word ensures wa / PGSIZE == upage / PGSIZE ==> EntryOf(old(pd), old(tables), wa) == e {
        OnePage(old(pd), old(tables), upage, wa);
      }
      MappingChange(old(pd), old(tables), pd, tables, upage / PGSIZE, e - e % 2);
    }

    /** `*lookup_page (pd, va, false)`, with 0 for a missing table. */
    method ReadEntry(va: Word) returns (e: Word)
      requires Valid()
      ensures e == EntryOf(pd, tables, va)
    {
      SplitAddress(va);
      var pde := pd[PdNo(va)];
      e := if pde == 0 then 0 else tables[PdeGetPt(pde)][PtNo(va)];
    }

    lemma ReadTable(va: Word)
      requires Valid() && Present(EntryOf(pd, tables, va))
      ensures PdNo(va) < |pd| && pd[PdNo(va)] != 0 && Present(pd[PdNo(va)])
    {
      SplitAddress(va);
      PresentIs(0);
    }
  }

  /** `pagedir_create`: fails exactly when the allocator has no page for the directory. */
  method PagedirCreate(initPd: seq<Word>, kernelTables: map<nat, Table>, page: Option<nat>) returns (r: Option<PageDir>)
    requires Tables(initPd, kernelTables) && forall i :: 0 <= i < USER_PDES ==> initPd[i] == 0
    ensures r.None? <==> page.None?
    ensures r.Some? ==> fresh(r.value) && r.value.Valid() && r.value.Mapping() == map[]
    ensures r.Some? ==> forall wa: Word ::
              EntryOf(r.value.pd, r.value.tables, wa) == EntryOf(initPd, kernelTables, wa)
  {
    if page.None? {
      return None;
    }
    var dir := new PageDir(initPd, kernelTables);
    r := Some(dir);
  }

  lemma OnePage(pd: seq<Word>, tables: map<nat, Table>, va: Word, wa: Word)
    requires Tables(pd, tables)
    ensures va / PGSIZE == wa / PGSIZE ==> EntryOf(pd, tables, va) == EntryOf(pd, tables, wa)
  {
    SamePage(va, wa);
  }
}
