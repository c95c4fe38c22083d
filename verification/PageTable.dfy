/** x86 two-level page tables as data, and the map from user pages to frames
    that they stand for. */
module PageTable {
  import opened Pte

  // ----- tables

  // A page directory or page table: 1024 entries.
  type Table = t: seq<bv32> | |t| == 1024 witness ZeroTable()

  function ZeroTable(): (t: seq<bv32>)
    ensures |t| == 1024 && forall k :: 0 <= k < 1024 ==> t[k] == 0
  {
    seq(1024, _ => 0)
  }

  /** Page directories and tables, by physical address. */
  type Tables = map<Page, Table>

  /** What a physical page is used for. Tab is the page table for entry i of a
      directory, KTab one that all directories share for the kernel's half,
      Frame a page mapped at user page vpn. */
  datatype Owner = Free | Other | Dir | Tab(pd: Page, i: nat) | KTab(i: nat) | Frame(pd: Page, vpn: nat)

  type Owners = map<Page, Owner>

  // Virtual page numbers: 2^20 in all, 768 * 1024 of them below PHYS_BASE.
  const USER_PAGES: nat := 0xc_0000
  const ALL_PAGES: nat := 0x10_0000

  /** A place in a page table. */
  datatype Slot = Missing | At(pt: Page, k: nat)

  /** pd_no and pt_no of a page. */
  function PdNo(vpn: nat): nat { vpn / 1024 }

  function PtNo(vpn: nat): nat { vpn % 1024 }

  function PdeOf(tables: Tables, pd: Page, vpn: nat): bv32 {
    if pd in tables && PdNo(vpn) < 1024 then tables[pd][PdNo(vpn)] else 0
  }

  /** lookup_page without creating anything. */
  function Lookup(tables: Tables, pd: Page, vpn: nat): Slot {
    var pde := PdeOf(tables, pd, vpn);
    if pde == 0 then Missing else At(PageIn(pde), PtNo(vpn))
  }

  function Entry(tables: Tables, s: Slot): bv32 {
    if s.At? && s.pt in tables && s.k < 1024 then tables[s.pt][s.k] else 0
  }

  function PteOf(tables: Tables, pd: Page, vpn: nat): bv32 {
    Entry(tables, Lookup(tables, pd, vpn))
  }

  function SetEntry(tables: Tables, s: Slot, e: bv32): Tables {
    if s.At? && s.pt in tables && s.k < 1024 then tables[s.pt := tables[s.pt][s.k := e]] else tables
  }

  datatype Mapping = Mapping(frame: Page, writable: bool)

  /** The user address space of a directory, as a partial map. */
  ghost function Space(tables: Tables, pd: Page): map<nat, Mapping> {
    map vpn | 0 <= vpn < USER_PAGES && Present(PteOf(tables, pd, vpn))
      :: Mapping(PageIn(PteOf(tables, pd, vpn)), Writable(PteOf(tables, pd, vpn)))
  }

  // ----- invariant

  ghost predicate IsTable(owner: Owners, pt: Page) {
    pt in owner && (owner[pt].Tab? || owner[pt].KTab?)
  }

  /** Entry i of a directory is empty or points to that directory's own table
      for i, or to the shared one in the kernel's half. */
  ghost predicate PdeOk(tables: Tables, owner: Owners, pd: Page, i: nat)
    requires pd in tables && i < 1024
  {
    var e := tables[pd][i];
    e != 0 ==>
      && Present(e) && Writable(e) && UserBit(e)
      && PageIn(e) in tables && PageIn(e) in owner
      && owner[PageIn(e)] == (if i < 768 then Tab(pd, i) else KTab(i))
  }

  ghost predicate DirOk(tables: Tables, owner: Owners, pd: Page) {
    && pd in tables && pd in owner && owner[pd] == Dir
    && forall i :: 0 <= i < 1024 ==> PdeOk(tables, owner, pd, i)
  }

  /** A mapped user page is open to user code and belongs to that mapping alone;
      the pages of the kernel's half are closed to user code. */
  ghost predicate FrameOk(tables: Tables, owner: Owners, pd: Page, vpn: nat) {
    var e := PteOf(tables, pd, vpn);
    Present(e) ==>
      if vpn < USER_PAGES
      then UserBit(e) && PageIn(e) in owner && owner[PageIn(e)] == Frame(pd, vpn) && Aligned(PageIn(e))
      else !UserBit(e)
  }

  /** A present entry for a page has the user flag that it must have, and its
      frame is there for it. */
  ghost predicate EntryFits(owner: Owners, pd: Page, vpn: nat, e: bv32) {
    if vpn < USER_PAGES then UserBit(e) && PageIn(e) in owner && owner[PageIn(e)] == Frame(pd, vpn) else !UserBit(e)
  }

  ghost predicate FramesOk(tables: Tables, owner: Owners, pd: Page) {
    forall vpn :: 0 <= vpn < ALL_PAGES ==> FrameOk(tables, owner, pd, vpn)
  }

  /** The invariant on a set of directories. */
  ghost predicate TablesOk(tables: Tables, owner: Owners, dirs: set<Page>) {
    && (forall pd :: pd in dirs ==> DirOk(tables, owner, pd))
    && (forall pd :: pd in dirs ==> FramesOk(tables, owner, pd))
    && (forall x :: x in owner && owner[x] == Dir ==> x in dirs)
  }

  lemma DirIn(tables: Tables, owner: Owners, dirs: set<Page>, pd: Page)
    requires TablesOk(tables, owner, dirs) && pd in dirs
    ensures DirOk(tables, owner, pd) && FramesOk(tables, owner, pd)
  {
  }

  /** The place that a lookup finds is in a table of that directory. */
  lemma LookupOwner(tables: Tables, owner: Owners, pd: Page, vpn: nat)
    requires DirOk(tables, owner, pd) && vpn < ALL_PAGES && Lookup(tables, pd, vpn).At?
    ensures var s := Lookup(tables, pd, vpn);
            && s.k == PtNo(vpn) < 1024 && s.pt in tables && s.pt in owner
            && owner[s.pt] == (if vpn < USER_PAGES then Tab(pd, PdNo(vpn)) else KTab(PdNo(vpn)))
            && Present(PdeOf(tables, pd, vpn)) && UserBit(PdeOf(tables, pd, vpn)) && Writable(PdeOf(tables, pd, vpn))
  {
    assert PdeOk(tables, owner, pd, PdNo(vpn));
  }

  /** Different user pages, of one directory or of two, have different entries. */
  lemma LookupInjective(tables: Tables, owner: Owners, pd: Page, vpn: nat, pd': Page, vpn': nat)
    requires DirOk(tables, owner, pd) && DirOk(tables, owner, pd') && vpn < USER_PAGES && vpn' < ALL_PAGES
    requires Lookup(tables, pd, vpn).At? && Lookup(tables, pd, vpn) == Lookup(tables, pd', vpn')
    ensures pd' == pd && vpn' == vpn
  {
    LookupOwner(tables, owner, pd, vpn);
    LookupOwner(tables, owner, pd', vpn');
    assert vpn == 1024 * PdNo(vpn) + PtNo(vpn);
    assert vpn' == 1024 * PdNo(vpn') + PtNo(vpn');
  }

  /** Writing an entry of a page table changes what that place holds and no
      other, and where lookups go. */
  lemma WriteEntry(tables: Tables, owner: Owners, pd: Page, s: Slot, e: bv32)
    requires DirOk(tables, owner, pd) && s.At? && s.pt in tables && s.k < 1024 && IsTable(owner, s.pt)
    ensures DirOk(SetEntry(tables, s, e), owner, pd)
    ensures forall vpn :: 0 <= vpn ==> Lookup(SetEntry(tables, s, e), pd, vpn) == Lookup(tables, pd, vpn)
    ensures forall vpn :: 0 <= vpn < ALL_PAGES && Lookup(tables, pd, vpn) != s ==>
              PteOf(SetEntry(tables, s, e), pd, vpn) == PteOf(tables, pd, vpn)
    ensures forall vpn :: 0 <= vpn && Lookup(tables, pd, vpn) == s ==> PteOf(SetEntry(tables, s, e), pd, vpn) == e
  {
    var tables' := SetEntry(tables, s, e);
    assert tables'[pd] == tables[pd];
    forall i | 0 <= i < 1024
      ensures PdeOk(tables', owner, pd, i)
    {
      assert PdeOk(tables, owner, pd, i);
    }
  }

  // ----- what writing one entry does to the whole

  ghost predicate Structural(o: Owner) { o.Dir? || o.Tab? || o.KTab? }

  /** Both give the same directories and tables. */
  ghost predicate SameStructure(owner: Owners, owner': Owners) {
    && (forall x :: x in owner && Structural(owner[x]) ==> x in owner' && owner'[x] == owner[x])
    && (forall x :: x in owner' && Structural(owner'[x]) ==> x in owner && owner[x] == owner'[x])
  }

  lemma SameDir(tables: Tables, owner: Owners, owner': Owners, pd: Page)
    requires DirOk(tables, owner, pd) && SameStructure(owner, owner')
    ensures DirOk(tables, owner', pd)
  {
    forall i | 0 <= i < 1024
      ensures PdeOk(tables, owner', pd, i)
    {
      assert PdeOk(tables, owner, pd, i);
    }
  }

  /** An entry of one user page, or of a page of the kernel's half, is written,
      and page ownership is adjusted to it. */
  lemma EntryWritten(tables: Tables, owner: Owners, owner': Owners, dirs: set<Page>, pd: Page, vpn: nat, e: bv32)
    requires TablesOk(tables, owner, dirs) && pd in dirs && vpn < ALL_PAGES && Lookup(tables, pd, vpn).At?
    requires SameStructure(owner, owner')
    requires Present(e) ==> EntryFits(owner', pd, vpn, e)
    requires forall x, pd', vpn' :: x in owner && owner[x] == Frame(pd', vpn') && !(pd' == pd && vpn' == vpn) ==>
               x in owner' && owner'[x] == owner[x]
    ensures TablesOk(SetEntry(tables, Lookup(tables, pd, vpn), e), owner', dirs)
  {
    hide FramesOk;
    var s := Lookup(tables, pd, vpn);
    var tables' := SetEntry(tables, s, e);
    DirIn(tables, owner, dirs, pd);
    LookupOwner(tables, owner, pd, vpn);
    forall q | q in dirs
      ensures DirOk(tables', owner', q) && FramesOk(tables', owner', q)
    {
      DirIn(tables, owner, dirs, q);
      WriteEntry(tables, owner, q, s, e);
      SameDir(tables', owner, owner', q);
      FramesWritten(tables, owner, owner', pd, vpn, e, q);
    }
  }

  lemma FramesWritten(tables: Tables, owner: Owners, owner': Owners, pd: Page, vpn: nat, e: bv32, q: Page)
    requires DirOk(tables, owner, pd) && DirOk(tables, owner, q) && FramesOk(tables, owner, q)
    requires vpn < ALL_PAGES && Lookup(tables, pd, vpn).At?
    requires Present(e) ==> EntryFits(owner', pd, vpn, e)
    requires forall x, pd', vpn' :: x in owner && owner[x] == Frame(pd', vpn') && !(pd' == pd && vpn' == vpn) ==>
               x in owner' && owner'[x] == owner[x]
    ensures FramesOk(SetEntry(tables, Lookup(tables, pd, vpn), e), owner', q)
  {
    hide DirOk, Aligned, Lookup, Entry, SetEntry, Present, PageIn;
    var tables' := SetEntry(tables, Lookup(tables, pd, vpn), e);
    forall v | 0 <= v < ALL_PAGES
      ensures FrameOk(tables', owner', q, v)
    {
      assert FrameOk(tables, owner, q, v);
      PteWritten(tables, owner, pd, vpn, e, q, v);
      EntryPage(e);
    }
  }

  /** A user entry is affected only when it is the one that is written. */
  lemma PteWritten(tables: Tables, owner: Owners, pd: Page, vpn: nat, e: bv32, q: Page, v: nat)
    requires DirOk(tables, owner, pd) && DirOk(tables, owner, q)
    requires vpn < ALL_PAGES && Lookup(tables, pd, vpn).At? && v < ALL_PAGES
    ensures var tables' := SetEntry(tables, Lookup(tables, pd, vpn), e);
            && Lookup(tables', q, v) == Lookup(tables, q, v)
            && (PteOf(tables', q, v) == if Lookup(tables, q, v) == Lookup(tables, pd, vpn) then e
                else PteOf(tables, q, v))
            && (v < USER_PAGES || vpn < USER_PAGES ==>
                  (Lookup(tables, q, v) == Lookup(tables, pd, vpn) <==> q == pd && v == vpn))
  {
    var s := Lookup(tables, pd, vpn);
    LookupOwner(tables, owner, pd, vpn);
    WriteEntry(tables, owner, q, s, e);
    if Lookup(tables, q, v) == s {
      if v < USER_PAGES {
        LookupInjective(tables, owner, q, v, pd, vpn);
      } else if vpn < USER_PAGES {
        LookupInjective(tables, owner, pd, vpn, q, v);
      }
    }
  }

  /** On the address spaces the write is an update or a removal at one page of
      one directory. */
  lemma SpaceWritten(tables: Tables, owner: Owners, pd: Page, vpn: nat, e: bv32, q: Page)
    requires DirOk(tables, owner, pd) && DirOk(tables, owner, q)
    requires vpn < ALL_PAGES && Lookup(tables, pd, vpn).At?
    ensures Space(SetEntry(tables, Lookup(tables, pd, vpn), e), q)
            == if q != pd || vpn >= USER_PAGES then Space(tables, q)
               else if Present(e) then Space(tables, q)[vpn := Mapping(PageIn(e), Writable(e))]
               else Space(tables, q) - {vpn}
  {
    hide DirOk, Lookup, Entry, SetEntry, Present, PageIn, Writable;
    forall v | 0 <= v < USER_PAGES
      ensures PteOf(SetEntry(tables, Lookup(tables, pd, vpn), e), q, v)
           == if q == pd && v == vpn then e else PteOf(tables, q, v)
    {
      PteWritten(tables, owner, pd, vpn, e, q, v);
    }
  }

  // ----- dirty and accessed marks

  /** The entry in a place has the flag exactly when the place is marked. */
  ghost predicate MarkOk(tables: Tables, s: Slot, dirtied: set<Slot>, accessed: set<Slot>) {
    (Dirty(Entry(tables, s)) <==> s in dirtied) && (Accessed(Entry(tables, s)) <==> s in accessed)
  }

  ghost predicate Marks(tables: Tables, owner: Owners, dirtied: set<Slot>, accessed: set<Slot>) {
    forall s: Slot :: s.At? && s.k < 1024 && IsTable(owner, s.pt) ==> MarkOk(tables, s, dirtied, accessed)
  }

  lemma MarksWritten(tables: Tables, owner: Owners, owner': Owners, dirtied: set<Slot>, accessed: set<Slot>, s: Slot,
                     e: bv32, dirtied': set<Slot>, accessed': set<Slot>)
    requires Marks(tables, owner, dirtied, accessed) && SameStructure(owner, owner')
    requires s.At? && s.k < 1024 && s.pt in tables
    requires (Dirty(e) <==> s in dirtied') && (Accessed(e) <==> s in accessed')
    requires forall t :: t != s ==> (t in dirtied' <==> t in dirtied) && (t in accessed' <==> t in accessed)
    ensures Marks(SetEntry(tables, s, e), owner', dirtied', accessed')
  {
    hide Dirty, Accessed;
    forall t: Slot | t.At? && t.k < 1024 && IsTable(owner', t.pt)
      ensures MarkOk(SetEntry(tables, s, e), t, dirtied', accessed')
    {
      assert MarkOk(tables, t, dirtied, accessed);
    }
  }

  // ----- the TLB

  datatype Cached = Cached(frame: Page, writable: bool, user: bool, dirty: bool)

  type Tlb = map<nat, Cached>

  /** A cached translation repeats a present and accessed entry of the active
      directory; when it says dirty, so does the entry. */
  ghost predicate CachedOk(c: Cached, e: bv32) {
    && Present(e) && Accessed(e)
    && c.frame == PageIn(e) && (c.writable <==> Writable(e)) && (c.user <==> UserBit(e))
    && (c.dirty ==> Dirty(e))
  }

  ghost predicate TlbOk(tables: Tables, cr3: Page, tlb: Tlb) {
    forall v :: v in tlb ==> v < ALL_PAGES && CachedOk(tlb[v], PteOf(tables, cr3, v))
  }

  /** The write keeps the TLB right if nothing cached comes from that entry, or
      if it weakens nothing. */
  lemma TlbWritten(tables: Tables, owner: Owners, cr3: Page, tlb: Tlb, pd: Page, vpn: nat, e: bv32)
    requires DirOk(tables, owner, pd) && DirOk(tables, owner, cr3) && TlbOk(tables, cr3, tlb)
    requires vpn < ALL_PAGES && Lookup(tables, pd, vpn).At?
    requires var was := PteOf(tables, pd, vpn);
             || !Present(was) || (cr3 != pd && vpn < USER_PAGES)
             || (SameRights(was, e) && (Accessed(was) ==> Accessed(e)) && (Dirty(was) ==> Dirty(e)))
    ensures TlbOk(SetEntry(tables, Lookup(tables, pd, vpn), e), cr3, tlb)
  {
    hide DirOk, Lookup, Entry, SetEntry, Present, PageIn, Writable, UserBit, Accessed, Dirty;
    forall v | v in tlb
      ensures CachedOk(tlb[v], PteOf(SetEntry(tables, Lookup(tables, pd, vpn), e), cr3, v))
    {
      PteWritten(tables, owner, pd, vpn, e, cr3, v);
      assert Lookup(tables, cr3, v) == Lookup(tables, pd, vpn) ==> PteOf(tables, cr3, v) == PteOf(tables, pd, vpn);
    }
  }

  // ----- new tables and directories

  function AddTable(tables: Tables, pd: Page, vpn: nat, pt: Page): Tables {
    if pd in tables && PdNo(vpn) < 1024 then
      tables[pt := ZeroTable()][pd := tables[pd][PdNo(vpn) := PdeCreate(pt)]]
    else tables
  }

  /** A directory without a table for a user page gets an empty one. */
  lemma TableAdded(tables: Tables, owner: Owners, dirs: set<Page>, pd: Page, vpn: nat, pt: Page)
    requires TablesOk(tables, owner, dirs) && pd in dirs && vpn < USER_PAGES && Lookup(tables, pd, vpn) == Missing
    requires pt in owner && owner[pt] == Other && pt !in tables && Aligned(pt)
    ensures TablesOk(AddTable(tables, pd, vpn, pt), owner[pt := Tab(pd, PdNo(vpn))], dirs)
    ensures forall q, v :: q in dirs && 0 <= v < ALL_PAGES ==>
              && PteOf(AddTable(tables, pd, vpn, pt), q, v) == PteOf(tables, q, v)
              && Lookup(AddTable(tables, pd, vpn, pt), q, v)
                 == if q == pd && PdNo(v) == PdNo(vpn) then At(pt, PtNo(v)) else Lookup(tables, q, v)
  {
    hide FramesOk, Aligned, Present, Writable, UserBit, PageIn, PdeCreate;
    var tables', owner' := AddTable(tables, pd, vpn, pt), owner[pt := Tab(pd, PdNo(vpn))];
    PdeCreated(pt);
    forall q | q in dirs
      ensures DirOk(tables', owner', q)
    {
      DirIn(tables, owner, dirs, q);
      forall i | 0 <= i < 1024
        ensures PdeOk(tables', owner', q, i)
      {
        assert PdeOk(tables, owner, q, i);
      }
    }
    forall q, v | q in dirs && 0 <= v < ALL_PAGES
      ensures PteOf(tables', q, v) == PteOf(tables, q, v)
      ensures Lookup(tables', q, v) == if q == pd && PdNo(v) == PdNo(vpn) then At(pt, PtNo(v)) else Lookup(tables, q, v)
    {
      DirIn(tables, owner, dirs, q);
      assert PdeOk(tables, owner, q, PdNo(v));
    }
    forall q | q in dirs
      ensures FramesOk(tables', owner', q)
    {
      DirIn(tables, owner, dirs, q);
      SameFrames(tables, tables', owner, owner', q);
    }
  }

  lemma SameFrames(tables: Tables, tables': Tables, owner: Owners, owner': Owners, q: Page)
    requires FramesOk(tables, owner, q)
    requires forall v :: 0 <= v < ALL_PAGES ==> PteOf(tables', q, v) == PteOf(tables, q, v)
    requires forall x, v :: x in owner && owner[x] == Frame(q, v) ==> x in owner' && owner'[x] == owner[x]
    ensures FramesOk(tables', owner', q) && Space(tables', q) == Space(tables, q)
  {
    hide PteOf, Present, PageIn, Aligned;
    forall v | 0 <= v < ALL_PAGES
      ensures FrameOk(tables', owner', q, v)
    {
      assert FrameOk(tables, owner, q, v);
    }
  }

  /** The user half of a directory is empty. */
  ghost predicate NoUserPages(tables: Tables, pd: Page) {
    pd in tables && forall i :: 0 <= i < 768 ==> tables[pd][i] == 0
  }

  lemma EmptySpace(tables: Tables, pd: Page)
    requires NoUserPages(tables, pd)
    ensures Space(tables, pd) == map[] && forall v :: 0 <= v < USER_PAGES ==>
              Lookup(tables, pd, v) == Missing && !Present(PteOf(tables, pd, v))
  {
    ZeroEntry();
  }

  /** A copy of a directory without user pages is a new directory. */
  lemma DirAdded(tables: Tables, owner: Owners, dirs: set<Page>, initPd: Page, pd: Page)
    requires TablesOk(tables, owner, dirs) && initPd in dirs && NoUserPages(tables, initPd)
    requires pd in owner && owner[pd] == Other && pd !in tables
    ensures var tables', owner' := tables[pd := tables[initPd]], owner[pd := Dir];
            && TablesOk(tables', owner', dirs + {pd}) && NoUserPages(tables', pd)
            && forall q, v :: q in dirs && 0 <= v < ALL_PAGES ==>
                 PteOf(tables', q, v) == PteOf(tables, q, v) && Lookup(tables', q, v) == Lookup(tables, q, v)
  {
    hide FramesOk, Aligned, Present, Writable, UserBit, PageIn;
    var tables', owner' := tables[pd := tables[initPd]], owner[pd := Dir];
    forall q | q in dirs + {pd}
      ensures DirOk(tables', owner', q)
    {
      var p := if q == pd then initPd else q;
      DirIn(tables, owner, dirs, p);
      forall i | 0 <= i < 1024
        ensures PdeOk(tables', owner', q, i)
      {
        assert PdeOk(tables, owner, p, i);
      }
    }
    forall q, v | q in dirs && 0 <= v < ALL_PAGES
      ensures PteOf(tables', q, v) == PteOf(tables, q, v) && Lookup(tables', q, v) == Lookup(tables, q, v)
    {
      DirIn(tables, owner, dirs, q);
      assert PdeOk(tables, owner, q, PdNo(v));
    }
    forall q | q in dirs + {pd}
      ensures FramesOk(tables', owner', q)
    {
      if q == pd {
        EmptySpace(tables', pd);
        DirIn(tables, owner, dirs, initPd);
        forall v | USER_PAGES <= v < ALL_PAGES
          ensures FrameOk(tables', owner', pd, v)
        {
          SharedEntry(tables, owner, owner', initPd, pd, v);
        }
        NoFrames(tables', owner', pd);
      } else {
        DirIn(tables, owner, dirs, q);
        SameFrames(tables, tables', owner, owner', q);
      }
    }
  }

  /** A page of the kernel's half has the same entry in a copy of a directory. */
  lemma SharedEntry(tables: Tables, owner: Owners, owner': Owners, initPd: Page, pd: Page, v: nat)
    requires DirOk(tables, owner, initPd) && FramesOk(tables, owner, initPd) && pd !in tables
             && USER_PAGES <= v < ALL_PAGES
    ensures FrameOk(tables[pd := tables[initPd]], owner', pd, v)
  {
    assert PdeOk(tables, owner, initPd, PdNo(v));
    assert FrameOk(tables, owner, initPd, v);
    assert PteOf(tables[pd := tables[initPd]], pd, v) == PteOf(tables, initPd, v);
  }

  lemma NoFrames(tables: Tables, owner: Owners, pd: Page)
    requires forall v :: 0 <= v < USER_PAGES ==> !Present(PteOf(tables, pd, v))
    requires forall v :: USER_PAGES <= v < ALL_PAGES ==> FrameOk(tables, owner, pd, v)
    ensures FramesOk(tables, owner, pd)
  {
  }

  // ----- destroying a directory

  /** Ownership after some pages have been freed. */
  function FreeAll(owner: Owners, gone: set<Page>): Owners {
    map x | x in owner :: if x in gone then Free else owner[x]
  }

  /** What has been freed when pages below n and tables below i are done. */
  ghost predicate GoneOk(tables: Tables, owner: Owners, pd: Page, gone: set<Page>, n: nat, i: nat) {
    && (forall x :: x in gone ==> x in owner && GoneOne(tables, owner, pd, x, n, i))
    && (forall v :: 0 <= v < n && Present(PteOf(tables, pd, v)) ==> PageIn(PteOf(tables, pd, v)) in gone)
    && (forall j :: 0 <= j < i && j < 1024 && pd in tables && tables[pd][j] != 0 ==> PageIn(tables[pd][j]) in gone)
  }

  ghost predicate GoneOne(tables: Tables, owner: Owners, pd: Page, x: Page, n: nat, i: nat)
    requires x in owner
  {
    match owner[x]
    case Frame(q, v) => q == pd && v < n && v < USER_PAGES && Present(PteOf(tables, pd, v))
        && x == PageIn(PteOf(tables, pd, v))
    case Tab(q, j) => q == pd && j < i && j < 768 && pd in tables && tables[pd][j] != 0 && x == PageIn(tables[pd][j])
    case _ => false
  }

  /** The other directories, their tables and their pages are not touched. */
  lemma DirDropped(tables: Tables, owner: Owners, dirs: set<Page>, pd: Page, gone: set<Page>, n: nat, i: nat)
    requires TablesOk(tables, owner, dirs) && pd in dirs && GoneOk(tables, owner, pd, gone, n, i)
    ensures var tables', owner' := tables - (gone + {pd}), FreeAll(owner, gone + {pd});
            && TablesOk(tables', owner', dirs - {pd})
            && forall q, v :: q in dirs && q != pd && 0 <= v < ALL_PAGES ==>
                 PteOf(tables', q, v) == PteOf(tables, q, v) && Lookup(tables', q, v) == Lookup(tables, q, v)
  {
    hide FramesOk, Aligned, Present, Writable, UserBit, PageIn;
    var tables', owner' := tables - (gone + {pd}), FreeAll(owner, gone + {pd});
    forall q | q in dirs - {pd}
      ensures DirOk(tables', owner', q)
    {
      DirIn(tables, owner, dirs, q);
      DirIn(tables, owner, dirs, pd);
      forall j | 0 <= j < 1024
        ensures PdeOk(tables', owner', q, j)
      {
        assert PdeOk(tables, owner, q, j);
      }
    }
    forall q, v | q in dirs && q != pd && 0 <= v < ALL_PAGES
      ensures PteOf(tables', q, v) == PteOf(tables, q, v) && Lookup(tables', q, v) == Lookup(tables, q, v)
    {
      DirIn(tables, owner, dirs, q);
      assert PdeOk(tables, owner, q, PdNo(v));
      assert PdeOk(tables', owner', q, PdNo(v));
    }
    forall q | q in dirs - {pd}
      ensures FramesOk(tables', owner', q)
    {
      DirIn(tables, owner, dirs, q);
      DirIn(tables, owner, dirs, pd);
      SameFrames(tables, tables', owner, owner', q);
    }
  }

  /** The page that the next entry maps has not been freed yet. */
  lemma GoneFrame(tables: Tables, owner: Owners, pd: Page, gone: set<Page>, n: nat, i: nat)
    requires GoneOk(tables, owner, pd, gone, n, i) && FramesOk(tables, owner, pd) && n < USER_PAGES
    ensures var e := PteOf(tables, pd, n);
            if Present(e) then
              PageIn(e) in owner && owner[PageIn(e)] == Frame(pd, n) && PageIn(e) !in gone
                  && GoneOk(tables, owner, pd, gone + {PageIn(e)}, n + 1, i)
            else GoneOk(tables, owner, pd, gone, n + 1, i)
  {
    hide PteOf, Present, PageIn, Aligned;
    assert FrameOk(tables, owner, pd, n);
  }

  /** Nor has the next table. */
  lemma GoneTable(tables: Tables, owner: Owners, pd: Page, gone: set<Page>, n: nat, i: nat)
    requires GoneOk(tables, owner, pd, gone, n, i) && DirOk(tables, owner, pd) && i < 768
    ensures var e := tables[pd][i];
            if e != 0 then
              PageIn(e) in owner && owner[PageIn(e)] == Tab(pd, i) && PageIn(e) !in gone
                  && GoneOk(tables, owner, pd, gone + {PageIn(e)}, n, i + 1)
            else GoneOk(tables, owner, pd, gone, n, i + 1)
  {
    hide PteOf, Present, PageIn, Aligned;
    assert PdeOk(tables, owner, pd, i);
  }

  /** A missing table means that none of its pages is mapped. */
  lemma GoneNothing(tables: Tables, owner: Owners, pd: Page, gone: set<Page>, i: nat)
    requires GoneOk(tables, owner, pd, gone, 1024 * i, i) && pd in tables && i < 768 && tables[pd][i] == 0
    ensures GoneOk(tables, owner, pd, gone, 1024 * (i + 1), i + 1)
  {
    ZeroEntry();
    hide Present, PageIn, Aligned;
    forall v | 1024 * i <= v < 1024 * (i + 1)
      ensures PteOf(tables, pd, v) == 0
    {
      assert PdNo(v) == i;
    }
    forall x | x in gone
      ensures GoneOne(tables, owner, pd, x, 1024 * (i + 1), i + 1)
    {
      assert GoneOne(tables, owner, pd, x, 1024 * i, i);
    }
  }

  /** The user pages and the user page tables of a directory. */
  ghost function UserFrames(tables: Tables, pd: Page): set<Page> {
    set v | v in Space(tables, pd) :: Space(tables, pd)[v].frame
  }

  ghost function UserTables(tables: Tables, pd: Page): set<Page> {
    if pd in tables then set i | 0 <= i < 768 && tables[pd][i] != 0 :: PageIn(tables[pd][i]) else {}
  }

  lemma GoneAll(tables: Tables, owner: Owners, pd: Page, gone: set<Page>)
    requires GoneOk(tables, owner, pd, gone, USER_PAGES, 768) && pd in tables
    ensures gone == UserFrames(tables, pd) + UserTables(tables, pd)
  {
    hide PteOf, Present, PageIn, Aligned;
    forall x | x in gone
      ensures x in UserFrames(tables, pd) + UserTables(tables, pd)
    {
      assert GoneOne(tables, owner, pd, x, USER_PAGES, 768);
      match owner[x] {
        case Frame(q, v) =>
          assert v in Space(tables, pd) && Space(tables, pd)[v].frame == x;
        case Tab(q, j) =>
      }
    }
  }
}
