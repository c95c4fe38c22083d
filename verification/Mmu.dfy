/** Page directories in use: the operations of pagedir.c and forkutils.c, and a
    CPU that reads and writes through a TLB. */
module Mmu {
  import Arithmetic
  import opened Bytes
  import opened Bitmap
  import opened Pte
  import opened PageTable

  // The contents of a page.
  type Data = d: seq<byte> | |d| == 4096 witness Zeros(4096)

  /** Every page of memory is accounted for: it is free, or it holds a table or
      directory, or it is in some other use. */
  ghost predicate PagesOk(owner: Owners, tables: Tables, pages: map<Page, Data>, free: set<Page>) {
    && (forall x :: x in owner ==> Aligned(x) && x in pages && (owner[x] == Free <==> x in free))
    && (forall x :: x in free ==> x in owner)
    && (forall x :: x in tables <==> x in owner && Structural(owner[x]))
  }

  /** What a walk of the page tables, without a TLB, gives for an access. */
  function Translate(tables: Tables, pd: Page, vpn: nat, write: bool, user: bool): Option<Page> {
    var e := PteOf(tables, pd, vpn);
    if Present(e) && (user ==> UserBit(e)) && (write ==> Writable(e)) then Some(PageIn(e)) else None
  }

  /** What user code gets at a page of its address space. */
  function UserAccess(space: map<nat, Mapping>, vpn: nat, write: bool): Option<Page> {
    if vpn in space && (write ==> space[vpn].writable) then Some(space[vpn].frame) else None
  }

  /** The tables after the CPU has used an entry. */
  function Flagged(tables: Tables, pd: Page, vpn: nat, write: bool): Tables {
    var e := PteOf(tables, pd, vpn);
    SetEntry(tables, Lookup(tables, pd, vpn), if write then SetDirty(SetAccessed(e)) else SetAccessed(e))
  }

  /** The outcome of an access, with the tables and the TLB after it. */
  datatype Cpu = Cpu(result: Option<Page>, tables: Tables, tlb: Tlb)

  /** What the CPU does with an access, whatever the tables and the TLB hold. */
  function CpuAccess(tables: Tables, cr3: Page, tlb: Tlb, vpn: nat, write: bool, user: bool): Cpu {
    if vpn in tlb then
      var c := tlb[vpn];
      if (user && !c.user) || (write && !c.writable) then Cpu(None, tables, tlb)
      else if write && !c.dirty then Cpu(Some(c.frame), Flagged(tables, cr3, vpn, true), tlb[vpn := c.(dirty := true)])
      else Cpu(Some(c.frame), tables, tlb)
    else
      var e := PteOf(tables, cr3, vpn);
      if !Present(e) || (user && !UserBit(e)) || (write && !Writable(e)) then Cpu(None, tables, tlb)
      else
        var tables' := Flagged(tables, cr3, vpn, write);
        var e' := PteOf(tables', cr3, vpn);
        Cpu(Some(PageIn(e')), tables', tlb[vpn := Cached(PageIn(e'), Writable(e'), UserBit(e'), write)])
  }

  /** A page that had an entry still has it, with the same marks. */
  ghost predicate Kept(tables: Tables, dirtied: set<Slot>, accessed: set<Slot>, tables': Tables, dirtied': set<Slot>,
                       accessed': set<Slot>, q: Page, v: nat) {
    var s := Lookup(tables, q, v);
    s.At? ==> Lookup(tables', q, v) == s && (s in dirtied' <==> s in dirtied) && (s in accessed' <==> s in accessed)
  }

  // ----- free pages and page tables, counted

  function KernelPages(free: set<Page>, userPool: set<Page>): nat { |free - userPool| }

  function UserPages(free: set<Page>, userPool: set<Page>): nat { |free * userPool| }

  /** The page tables of a directory's user half, by number. */
  function TablesOf(tables: Tables, pd: Page): set<nat> {
    if pd in tables then set i | 0 <= i < 768 && tables[pd][i] != 0 else {}
  }

  /** The page tables that the pages of an address space need. */
  ghost function TablesFor(space: map<nat, Mapping>): set<nat> {
    set v | v in space :: PdNo(v)
  }

  lemma NoneLeft(free: set<Page>, userPool: set<Page>)
    ensures KernelPages(free, userPool) == 0 <==> forall x :: x in free ==> x in userPool
    ensures UserPages(free, userPool) == 0 <==> forall x :: x in free ==> x !in userPool
  {
    assert KernelPages(free, userPool) == 0 ==> free - userPool == {};
    assert UserPages(free, userPool) == 0 ==> free * userPool == {};
    if KernelPages(free, userPool) == 0 {
      forall x | x in free
        ensures x in userPool
      {
        assert x !in free - userPool;
      }
    }
    if UserPages(free, userPool) == 0 {
      forall x | x in free
        ensures x !in userPool
      {
        assert x !in free * userPool;
      }
    }
  }

  /** One free page more or less. */
  lemma OneFree(free: set<Page>, userPool: set<Page>, p: Page)
    requires p !in free
    ensures KernelPages(free + {p}, userPool) == KernelPages(free, userPool) + (if p in userPool then 0 else 1)
    ensures UserPages(free + {p}, userPool) == UserPages(free, userPool) + (if p in userPool then 1 else 0)
  {
    if p in userPool {
      assert free + {p} - userPool == free - userPool;
      assert (free + {p}) * userPool == free * userPool + {p};
    } else {
      assert free + {p} - userPool == free - userPool + {p};
      assert (free + {p}) * userPool == free * userPool;
    }
  }

  /** A table is there exactly for the pages that have an entry. */
  lemma HasTable(tables: Tables, pd: Page, vpn: nat)
    requires vpn < USER_PAGES
    ensures PdNo(vpn) in TablesOf(tables, pd) <==> Lookup(tables, pd, vpn).At?
  {
  }

  lemma TableCounted(tables: Tables, pd: Page, vpn: nat, pt: Page)
    requires pd in tables && pt !in tables && vpn < USER_PAGES && Lookup(tables, pd, vpn) == Missing && Aligned(pt)
    ensures TablesOf(AddTable(tables, pd, vpn, pt), pd) == TablesOf(tables, pd) + {PdNo(vpn)}
    ensures PdNo(vpn) !in TablesOf(tables, pd) && PdNo(vpn) < 768
  {
    PdeCreated(pt);
  }

  lemma NoTables(tables: Tables, pd: Page)
    requires NoUserPages(tables, pd)
    ensures TablesOf(tables, pd) == {}
  {
  }

  lemma SameTables(tables: Tables, owner: Owners, pd: Page, s: Slot, e: bv32)
    requires DirOk(tables, owner, pd) && s.At? && IsTable(owner, s.pt)
    ensures TablesOf(SetEntry(tables, s, e), pd) == TablesOf(tables, pd)
  {
  }

  // ----- what operations do to tables, marks, pages and the TLB

  function Cleared(): Data {
    seq(4096, _ => 0xcc)
  }

  lemma PresentIsSomewhere(tables: Tables, pd: Page, vpn: nat)
    ensures Present(PteOf(tables, pd, vpn)) ==> Lookup(tables, pd, vpn).At?
  {
    ZeroEntry();
  }

  /** The marks of a new table are all clear. */
  lemma TableMarks(tables: Tables, owner: Owners, pd: Page, vpn: nat, pt: Page, dirtied: set<Slot>, accessed: set<Slot>,
                   dirtied': set<Slot>, accessed': set<Slot>)
    requires Marks(tables, owner, dirtied, accessed) && pd in tables && PdNo(vpn) < 1024 && pt !in tables
    requires DirOk(tables, owner, pd)
    requires forall s: Slot :: s in dirtied' <==> s in dirtied && !(s.At? && s.pt == pt)
    requires forall s: Slot :: s in accessed' <==> s in accessed && !(s.At? && s.pt == pt)
    ensures Marks(AddTable(tables, pd, vpn, pt), owner[pt := Tab(pd, PdNo(vpn))], dirtied', accessed')
  {
    hide Dirty, Accessed;
    var tables', owner' := AddTable(tables, pd, vpn, pt), owner[pt := Tab(pd, PdNo(vpn))];
    ZeroEntry();
    forall s: Slot | s.At? && s.k < 1024 && IsTable(owner', s.pt)
      ensures MarkOk(tables', s, dirtied', accessed')
    {
      assert s.pt != pt ==> MarkOk(tables, s, dirtied, accessed);
    }
  }

  lemma TableTlb(tables: Tables, tables': Tables, cr3: Page, tlb: Tlb)
    requires TlbOk(tables, cr3, tlb)
    requires forall v :: 0 <= v < ALL_PAGES ==> PteOf(tables', cr3, v) == PteOf(tables, cr3, v)
    ensures TlbOk(tables', cr3, tlb)
  {
  }

  /** A directory without a table for one page has no entry for any page that
      the same table would serve. */
  lemma SameTable(tables: Tables, owner: Owners, dirs: set<Page>, pd: Page, vpn: nat, v: nat)
    requires Lookup(tables, pd, vpn) == Missing
    ensures PdNo(v) == PdNo(vpn) ==> Lookup(tables, pd, v) == Missing
  {
  }

  /** Ownership changes that go with writing an entry of a table. */
  lemma PagesWritten(tables: Tables, owner: Owners, owner': Owners, pages: map<Page, Data>, free: set<Page>, s: Slot,
                     e: bv32)
    requires PagesOk(owner, tables, pages, free) && SameStructure(owner, owner')
    requires owner'.Keys == owner.Keys && forall x :: x in owner ==> (owner'[x] == Free <==> owner[x] == Free)
    ensures PagesOk(owner', SetEntry(tables, s, e), pages, free)
  {
  }

  /** Clearing the dirty flag of an entry without a flush keeps a TLB right
      exactly when no translation cached from that entry is dirty. */
  lemma CleanedTlb(tables: Tables, owner: Owners, cr3: Page, tlb: Tlb, pd: Page, vpn: nat)
    requires DirOk(tables, owner, pd) && DirOk(tables, owner, cr3) && TlbOk(tables, cr3, tlb)
    requires vpn < ALL_PAGES && Lookup(tables, pd, vpn).At?
    ensures var s := Lookup(tables, pd, vpn);
            TlbOk(SetEntry(tables, s, ClearDirty(PteOf(tables, pd, vpn))), cr3, tlb)
            <==> forall v :: v in tlb && Lookup(tables, cr3, v) == s ==> !tlb[v].dirty
  {
    hide DirOk, Lookup, Entry, SetEntry, Present, PageIn, Writable, UserBit, Accessed, Dirty, ClearDirty;
    var s := Lookup(tables, pd, vpn);
    var e := ClearDirty(Entry(tables, s));
    ClearDirtyLaw(Entry(tables, s));
    forall v | v in tlb
      ensures CachedOk(tlb[v], PteOf(SetEntry(tables, s, e), cr3, v))
              <==> (Lookup(tables, cr3, v) == s ==> !tlb[v].dirty)
    {
      PteWritten(tables, owner, pd, vpn, e, cr3, v);
    }
  }

  /** Clearing the accessed flag keeps it right exactly when nothing is cached
      from the entry. */
  lemma UntouchedTlb(tables: Tables, owner: Owners, cr3: Page, tlb: Tlb, pd: Page, vpn: nat)
    requires DirOk(tables, owner, pd) && DirOk(tables, owner, cr3) && TlbOk(tables, cr3, tlb)
    requires vpn < ALL_PAGES && Lookup(tables, pd, vpn).At?
    ensures var s := Lookup(tables, pd, vpn);
            TlbOk(SetEntry(tables, s, ClearAccessed(PteOf(tables, pd, vpn))), cr3, tlb) <==> forall v :: v in tlb ==>
                  Lookup(tables, cr3, v) != s
  {
    hide DirOk, Lookup, Entry, SetEntry, Present, PageIn, Writable, UserBit, Accessed, Dirty, ClearAccessed;
    var s := Lookup(tables, pd, vpn);
    var e := ClearAccessed(Entry(tables, s));
    ClearAccessedLaw(Entry(tables, s));
    forall v | v in tlb
      ensures CachedOk(tlb[v], PteOf(SetEntry(tables, s, e), cr3, v)) <==> Lookup(tables, cr3, v) != s
    {
      PteWritten(tables, owner, pd, vpn, e, cr3, v);
    }
  }

  /** When the active directory shares an entry, as all do in the kernel's half,
      cleaning it through another directory is safe for every right TLB
      exactly when the entry is not present, accessed and dirty. That the other
      directory is inactive is no excuse for not flushing. */
  lemma CleanKernelPage(tables: Tables, owner: Owners, cr3: Page, pd: Page, vpn: nat)
    requires DirOk(tables, owner, pd) && DirOk(tables, owner, cr3)
    requires vpn < ALL_PAGES && Lookup(tables, pd, vpn).At? && Lookup(tables, cr3, vpn) == Lookup(tables, pd, vpn)
    ensures var s := Lookup(tables, pd, vpn); var e := Entry(tables, s);
            (forall tlb: Tlb :: TlbOk(tables, cr3, tlb) ==> TlbOk(SetEntry(tables, s, ClearDirty(e)), cr3, tlb))
            <==> !(Present(e) && Accessed(e) && Dirty(e))
  {
    hide DirOk, Lookup, Entry, SetEntry, Present, PageIn, Writable, UserBit, Accessed, Dirty, ClearDirty;
    var s := Lookup(tables, pd, vpn);
    var e := Entry(tables, s);
    var cached: Tlb := map[vpn := Cached(PageIn(e), Writable(e), UserBit(e), true)];
    if Present(e) && Accessed(e) && Dirty(e) {
      assert TlbOk(tables, cr3, cached);
      CleanedTlb(tables, owner, cr3, cached, pd, vpn);
    } else {
      forall tlb: Tlb | TlbOk(tables, cr3, tlb)
        ensures TlbOk(SetEntry(tables, s, ClearDirty(e)), cr3, tlb)
      {
        CleanedTlb(tables, owner, cr3, tlb, pd, vpn);
      }
    }
  }

  /** For the accessed flag, exactly when it is not present and accessed. */
  lemma UntouchKernelPage(tables: Tables, owner: Owners, cr3: Page, pd: Page, vpn: nat)
    requires DirOk(tables, owner, pd) && DirOk(tables, owner, cr3)
    requires vpn < ALL_PAGES && Lookup(tables, pd, vpn).At? && Lookup(tables, cr3, vpn) == Lookup(tables, pd, vpn)
    ensures var s := Lookup(tables, pd, vpn); var e := Entry(tables, s);
            (forall tlb: Tlb :: TlbOk(tables, cr3, tlb) ==> TlbOk(SetEntry(tables, s, ClearAccessed(e)), cr3, tlb))
            <==> !(Present(e) && Accessed(e))
  {
    hide DirOk, Lookup, Entry, SetEntry, Present, PageIn, Writable, UserBit, Accessed, Dirty, ClearAccessed;
    var s := Lookup(tables, pd, vpn);
    var e := Entry(tables, s);
    var cached: Tlb := map[vpn := Cached(PageIn(e), Writable(e), UserBit(e), false)];
    if Present(e) && Accessed(e) {
      assert TlbOk(tables, cr3, cached);
      UntouchedTlb(tables, owner, cr3, cached, pd, vpn);
    } else {
      forall tlb: Tlb | TlbOk(tables, cr3, tlb)
        ensures TlbOk(SetEntry(tables, s, ClearAccessed(e)), cr3, tlb)
      {
        UntouchedTlb(tables, owner, cr3, tlb, pd, vpn);
      }
    }
  }

  /** A frame that two pages share has no one owner. */
  lemma OneOwner(tables: Tables, owner: Owners, dirs: set<Page>, pd: Page, v: nat, q: Page, w: nat)
    requires pd in dirs && q in dirs && v < USER_PAGES && w < USER_PAGES
    requires Present(PteOf(tables, pd, v)) && Present(PteOf(tables, q, w))
             && PageIn(PteOf(tables, pd, v)) == PageIn(PteOf(tables, q, w))
    ensures TablesOk(tables, owner, dirs) ==> q == pd && w == v
  {
    hide PteOf, Present, PageIn, Aligned;
    if TablesOk(tables, owner, dirs) {
      DirIn(tables, owner, dirs, pd);
      DirIn(tables, owner, dirs, q);
      assert FrameOk(tables, owner, pd, v) && FrameOk(tables, owner, q, w);
    }
  }

  lemma NewStructure(owner: Owners, page: Page, pd: Page, vpn: nat)
    requires page in owner && owner[page] == Other
    ensures SameStructure(owner, owner[page := Frame(pd, vpn)])
  {
  }

  lemma OldStructure(owner: Owners, page: Page)
    requires page in owner && owner[page].Frame?
    ensures SameStructure(owner, owner[page := Other])
  {
  }

  lemma NotMapped(tables: Tables, pd: Page, vpn: nat)
    requires vpn < USER_PAGES
    ensures vpn in Space(tables, pd) <==> Present(PteOf(tables, pd, vpn))
    ensures vpn in Space(tables, pd) ==>
              Space(tables, pd)[vpn] == Mapping(PageIn(PteOf(tables, pd, vpn)), Writable(PteOf(tables, pd, vpn)))
  {
  }

  lemma TableOwner(owner: Owners, pt: Page)
    requires pt in owner && (owner[pt].Tab? || owner[pt].KTab?)
    ensures IsTable(owner, pt)
  {
  }

  lemma SameInit(tables: Tables, tables': Tables, initPd: Page, pd: Page)
    requires NoUserPages(tables, initPd) && tables' == tables[pd := tables[initPd]]
    ensures NoUserPages(tables', initPd)
  {
  }

  lemma DirMarks(tables: Tables, owner: Owners, pd: Page, t: Table, dirtied: set<Slot>, accessed: set<Slot>)
    requires Marks(tables, owner, dirtied, accessed) && pd in owner && !Structural(owner[pd])
    ensures Marks(tables[pd := t], owner[pd := Dir], dirtied, accessed)
  {
    hide Dirty, Accessed;
    forall s: Slot | s.At? && s.k < 1024 && IsTable(owner[pd := Dir], s.pt)
      ensures MarkOk(tables[pd := t], s, dirtied, accessed)
    {
      assert MarkOk(tables, s, dirtied, accessed);
    }
  }

  /** The pages below n have been copied: same pages, same rights, equal
      contents in other frames. */
  ghost predicate Copied(from: map<nat, Mapping>, to: map<nat, Mapping>, pages: map<Page, Data>, n: nat) {
    && (forall v :: v in to <==> v in from && v < n)
    && (forall v :: v in to ==> CopyOf(from[v], to[v], pages))
  }

  ghost predicate CopyOf(a: Mapping, b: Mapping, pages: map<Page, Data>) {
    && b.writable == a.writable && b.frame != a.frame
    && a.frame in pages && b.frame in pages && pages[b.frame] == pages[a.frame]
  }

  /** Pages in use keep their use and their contents. */
  ghost predicate KeptInUse(owner: Owners, pages: map<Page, Data>, owner': Owners, pages': map<Page, Data>) {
    forall x :: x in owner && owner[x] != Free ==>
      x in owner' && owner'[x] == owner[x] && x in pages && x in pages' && pages'[x] == pages[x]
  }

  lemma NotInUse(owner: Owners, pages: map<Page, Data>, owner': Owners, pages': map<Page, Data>, p: Page)
    requires KeptInUse(owner, pages, owner', pages') && p in owner' && owner'[p] == Free
    ensures p in owner ==> owner[p] == Free
  {
  }

  /** A page that was not in use at first changes its use and its contents. */
  lemma KeptStep(owner: Owners, pages: map<Page, Data>, owner1: Owners, pages1: map<Page, Data>, owner2: Owners,
                 pages2: map<Page, Data>, p: Page)
    requires KeptInUse(owner, pages, owner1, pages1) && (p in owner ==> owner[p] == Free)
    requires forall x :: x in owner1 && owner1[x] != Free && x != p ==> x in owner2 && owner2[x] == owner1[x]
    requires p in pages2 && pages2 == pages1[p := pages2[p]]
    ensures KeptInUse(owner, pages, owner2, pages2)
  {
  }

  lemma AfterCreate(owner: Owners, pages: map<Page, Data>, owner': Owners, pages': map<Page, Data>, pd: Page)
    requires pages' == pages && KeptInUse(owner, pages, owner, pages) && pd in owner && owner[pd] == Free
             && owner' == owner[pd := Dir]
    ensures KeptInUse(owner, pages, owner', pages')
  {
  }

  lemma NothingCopied(from: map<nat, Mapping>, to: map<nat, Mapping>, pages: map<Page, Data>)
    requires to == map[]
    ensures Copied(from, to, pages, 0)
  {
  }

  lemma SkipCopied(from: map<nat, Mapping>, to: map<nat, Mapping>, pages: map<Page, Data>, n: nat, n': nat)
    requires Copied(from, to, pages, n) && n <= n' && forall v :: n <= v < n' ==> v !in from
    ensures Copied(from, to, pages, n')
  {
  }

  lemma NotYet(from: map<nat, Mapping>, to: map<nat, Mapping>, pages: map<Page, Data>, n: nat)
    requires Copied(from, to, pages, n)
    ensures n !in to
  {
  }

  /** Writing a page that is neither a copy nor copied from. */
  lemma StillCopied(from: map<nat, Mapping>, to: map<nat, Mapping>, pages: map<Page, Data>, pages': map<Page, Data>,
                    n: nat, p: Page)
    requires Copied(from, to, pages, n) && p in pages' && pages' == pages[p := pages'[p]]
    requires forall v :: v in to ==> v in from && to[v].frame != p && from[v].frame != p
    ensures Copied(from, to, pages', n)
  {
    forall v | v in to
      ensures CopyOf(from[v], to[v], pages')
    {
      assert CopyOf(from[v], to[v], pages);
    }
  }

  /** What there is before a directory is copied: the source's pages, all tables,
      the use and the contents of all pages, and how many are free; kernel does
      not count the one for the new directory. */
  datatype Before = Before(space: map<nat, Mapping>, tables: Tables, owner: Owners, pages: map<Page, Data>,
                           free: set<Page>, dirs: set<Page>, kernel: int, user: nat)

  ghost predicate Progress(was: Before, to: map<nat, Mapping>, made: set<nat>, owner: Owners, pages: map<Page, Data>,
                           lost: set<nat>, leaked: set<Page>, kernel: nat, user: nat, n: nat) {
    && Copied(was.space - lost, to, pages, n) && Budget(was, to, made, lost, kernel, user, n)
    && LeakedOk(owner, was.free, lost, leaked)
  }

  /** For each copy lost, one page that was free is in use, and is no frame. */
  ghost predicate LeakedOk(owner: Owners, free: set<Page>, lost: set<nat>, leaked: set<Page>) {
    |leaked| == |lost| && leaked <= free && forall x :: x in leaked ==> x in owner && owner[x] == Other
  }

  ghost function PagesUpTo(space: map<nat, Mapping>, n: nat): set<nat> {
    set v | v in space && v < n
  }

  /** Each page below n has taken a user page, and each table made a kernel page.
      Pages have been lost for want of those, all of them above the tables made. */
  ghost predicate Budget(was: Before, to: map<nat, Mapping>, made: set<nat>, lost: set<nat>, kernel: nat, user: nat,
                         n: nat) {
    && user + |PagesUpTo(was.space, n)| == was.user
    && kernel + |made| == was.kernel && made == TablesFor(to)
    && (lost != {} ==> kernel == 0)
    && (forall v :: v in lost ==> v < n && v in was.space)
    && (forall v :: v in to ==> v < n && v in was.space)
    && (forall v, w :: v in to && w in lost ==> PdNo(v) < PdNo(w))
  }

  lemma BudgetStarts(was: Before)
    requires was.kernel >= 0
    ensures Budget(was, map[], {}, {}, was.kernel, was.user, 0)
  {
    assert PagesUpTo(was.space, 0) == {};
    assert TablesFor(map[]) == {};
  }

  lemma BudgetIs(was: Before, to: map<nat, Mapping>, made: set<nat>, lost: set<nat>, kernel: nat, user: nat, n: nat)
    requires Budget(was, to, made, lost, kernel, user, n)
    ensures forall v :: v in lost ==> v < n
  {
  }

  lemma BudgetSkips(was: Before, to: map<nat, Mapping>, made: set<nat>, lost: set<nat>, kernel: nat, user: nat, n: nat,
                    n': nat)
    requires Budget(was, to, made, lost, kernel, user, n) && n <= n' && forall v :: n <= v < n' ==> v !in was.space
    ensures Budget(was, to, made, lost, kernel, user, n')
  {
    hide TablesFor;
    assert PagesUpTo(was.space, n') == PagesUpTo(was.space, n);
  }

  lemma BudgetMapped(was: Before, to: map<nat, Mapping>, to': map<nat, Mapping>, made: set<nat>, made': set<nat>,
                     lost: set<nat>, kernel: nat, kernel': nat, user: nat, n: nat)
    requires Budget(was, to, made, lost, kernel, user + 1, n) && n in was.space && n in to' && to' == to[n := to'[n]]
    requires made' == made + {PdNo(n)} && kernel' + |made'| == kernel + |made| && (PdNo(n) in made || kernel > 0)
    ensures Budget(was, to', made', lost, kernel', user, n + 1)
  {
    MorePages(was.space, n);
    TablesMore(to, to', n);
    if lost != {} {
      assert made' == made;
      var v :| v in to && PdNo(v) == PdNo(n);
    }
    hide TablesFor, PagesUpTo, PdNo;
  }

  lemma MorePages(space: map<nat, Mapping>, n: nat)
    requires n in space
    ensures |PagesUpTo(space, n + 1)| == |PagesUpTo(space, n)| + 1
  {
    assert PagesUpTo(space, n + 1) == PagesUpTo(space, n) + {n};
  }

  lemma TablesMore(to: map<nat, Mapping>, to': map<nat, Mapping>, n: nat)
    requires n in to' && to' == to[n := to'[n]]
    ensures TablesFor(to') == TablesFor(to) + {PdNo(n)}
    ensures PdNo(n) in TablesFor(to) <==> exists v :: v in to && PdNo(v) == PdNo(n)
  {
    hide PdNo;
  }

  lemma BudgetLost(was: Before, to: map<nat, Mapping>, made: set<nat>, lost: set<nat>, kernel: nat, user: nat, n: nat)
    requires Budget(was, to, made, lost, kernel, user + 1, n) && n in was.space && PdNo(n) !in made && kernel == 0
    ensures Budget(was, to, made, lost + {n}, kernel, user, n + 1)
  {
    MorePages(was.space, n);
    forall v | v in to
      ensures PdNo(v) < PdNo(n)
    {
      assert PdNo(v) in TablesFor(to);
    }
  }

  /** Out of user pages: there are fewer than pages to copy. */
  lemma BudgetPanics(was: Before, to: map<nat, Mapping>, made: set<nat>, lost: set<nat>, kernel: nat, n: nat)
    requires Budget(was, to, made, lost, kernel, 0, n) && n in was.space
    ensures was.user < |was.space| && lost <= was.space.Keys && (lost != {} ==> kernel == 0)
  {
    assert n !in PagesUpTo(was.space, n);
    Arithmetic.SubsetCount(PagesUpTo(was.space, n), was.space.Keys);
  }

  lemma BudgetEnds(was: Before, to: map<nat, Mapping>, made: set<nat>, pages: map<Page, Data>, lost: set<nat>,
                   kernel: nat, user: nat)
    requires Budget(was, to, made, lost, kernel, user, USER_PAGES) && Copied(was.space - lost, to, pages, USER_PAGES)
    requires forall v :: v in was.space ==> v < USER_PAGES
    ensures was.user >= |was.space| && lost <= was.space.Keys && (lost != {} ==> kernel == 0)
    ensures lost == {} <==> was.kernel >= |TablesFor(was.space)|
    ensures |TablesFor(to)| == if was.kernel < |TablesFor(was.space)| then was.kernel else |TablesFor(was.space)|
  {
    assert PagesUpTo(was.space, USER_PAGES) == was.space.Keys;
    var needed := TablesFor(was.space);
    assert made <= needed;
    Arithmetic.SubsetCount(made, needed);
    if lost == {} {
      assert was.space - lost == was.space;
      assert needed == made;
    } else {
      var w :| w in lost;
      assert PdNo(w) in needed && PdNo(w) !in made;
    }
  }

  lemma OneTable(space: map<nat, Mapping>, v: nat)
    requires space.Keys == {v}
    ensures v in space && |space| == 1 && |TablesFor(space)| == 1
  {
    assert v in space.Keys;
    assert TablesFor(space) == {PdNo(v)};
    assert |space| == |space.Keys|;
  }

  /** No table, no copy. */
  lemma NothingMade(space: map<nat, Mapping>, to: map<nat, Mapping>, pages: map<Page, Data>, lost: set<nat>, v: nat)
    requires space.Keys == {v} && v < USER_PAGES && Copied(space - lost, to, pages, USER_PAGES) && |TablesFor(to)| == 0
             && lost <= space.Keys
    ensures to == map[] && lost == {v}
  {
    forall w
      ensures w !in to
    {
      assert w in to ==> PdNo(w) in TablesFor(to);
    }
    assert v in space.Keys;
    assert v !in lost ==> v in to;
  }

  lemma OneLost(owner: Owners, free: set<Page>, lost: set<nat>, leaked: set<Page>, v: nat)
    requires LeakedOk(owner, free, lost, leaked) && lost == {v}
    ensures |leaked| == 1 && leaked <= free && forall x :: x in leaked ==> x in owner && owner[x] == Other
  {
  }

  lemma SpaceBelow(tables: Tables, pd: Page)
    ensures forall v :: v in Space(tables, pd) ==> v < USER_PAGES
  {
    hide PteOf, Present, PageIn, Writable;
  }

  lemma PageTaken(was: Before, to: map<nat, Mapping>, made: set<nat>, owner: Owners, owner': Owners,
                  pages: map<Page, Data>, lost: set<nat>, leaked: set<Page>, kernel: nat, user: nat, n: nat, p: Page)
    requires Progress(was, to, made, owner, pages, lost, leaked, kernel, user + 1, n)
    requires p in owner && owner[p] == Free && owner' == owner[p := Other]
    ensures Progress(was, to, made, owner', pages, lost, leaked, kernel, user + 1, n) && p !in leaked
  {
    hide Copied, Budget;
  }

  lemma StillLeaked(free: set<Page>, lost: set<nat>, leaked: set<Page>, owner: Owners, owner': Owners, p: Page)
    requires LeakedOk(owner, free, lost, leaked) && p !in leaked
    requires forall x :: x in owner && owner[x] != Free && x != p ==> x in owner' && owner'[x] == owner[x]
    ensures LeakedOk(owner', free, lost, leaked)
  {
  }

  lemma OneLeaked(free: set<Page>, lost: set<nat>, leaked: set<Page>, owner: Owners, p: Page, v: nat)
    requires LeakedOk(owner, free, lost, leaked) && p !in leaked && p in free && v !in lost && p in owner
             && owner[p] == Other
    ensures LeakedOk(owner, free, lost + {v}, leaked + {p})
  {
  }

  /** The copy of page n is lost. */
  lemma LosePage(space: map<nat, Mapping>, lost: set<nat>, to: map<nat, Mapping>, pages: map<Page, Data>, n: nat)
    requires Copied(space - lost, to, pages, n)
    ensures Copied(space - (lost + {n}), to, pages, n + 1)
  {
    forall v | v in to
      ensures CopyOf((space - (lost + {n}))[v], to[v], pages)
    {
      assert CopyOf((space - lost)[v], to[v], pages);
    }
  }

  lemma OneMore(from: map<nat, Mapping>, to: map<nat, Mapping>, pages: map<Page, Data>, n: nat, p: Page)
    requires Copied(from, to, pages, n) && n in from && p != from[n].frame
    requires p in pages && from[n].frame in pages && pages[p] == pages[from[n].frame]
    ensures Copied(from, to[n := Mapping(p, from[n].writable)], pages, n + 1)
  {
  }

  lemma WalkIs(tables: Tables, pd: Page, i: nat, k: nat)
    requires pd in tables && i < 768 && k < 1024 && tables[pd][i] != 0
    ensures PteOf(tables, pd, 1024 * i + k) == Entry(tables, At(PageIn(tables[pd][i]), k))
  {
    assert PdNo(1024 * i + k) == i && PtNo(1024 * i + k) == k;
  }

  /** The user pages and page tables of a directory. */
  ghost function UsedBy(tables: Tables, pd: Page): set<Page> {
    UserFrames(tables, pd) + UserTables(tables, pd)
  }

  lemma SameSpace(tables: Tables, tables': Tables, q: Page)
    requires forall v :: 0 <= v < ALL_PAGES ==> PteOf(tables', q, v) == PteOf(tables, q, v)
    ensures Space(tables', q) == Space(tables, q)
  {
    hide PteOf, Present, PageIn, Writable;
  }

  lemma AllFreed(tables: Tables, owner: Owners, gone: set<Page>, pd: Page)
    ensures tables - gone - {pd} == tables - (gone + {pd})
    ensures pd in owner ==> FreeAll(owner, gone)[pd := Free] == FreeAll(owner, gone + {pd})
    ensures forall x :: x in FreeAll(owner, gone + {pd}) ==>
              x in owner && (x !in gone + {pd} ==> FreeAll(owner, gone + {pd})[x] == owner[x])
  {
  }

  /** A directory's pages, its tables and itself are all different. */
  lemma KindsApart(tables: Tables, owner: Owners, pd: Page)
    requires DirOk(tables, owner, pd) && FramesOk(tables, owner, pd)
    ensures UserFrames(tables, pd) !! UserTables(tables, pd) && pd !in UserFrames(tables, pd) + UserTables(tables, pd)
  {
    hide PteOf, Present, PageIn, Writable, Aligned;
    forall v | v in Space(tables, pd)
      ensures Space(tables, pd)[v].frame in owner && owner[Space(tables, pd)[v].frame] == Frame(pd, v)
    {
      assert FrameOk(tables, owner, pd, v);
    }
    forall i | 0 <= i < 768 && tables[pd][i] != 0
      ensures PageIn(tables[pd][i]) in owner && owner[PageIn(tables[pd][i])] == Tab(pd, i)
    {
      assert PdeOk(tables, owner, pd, i);
    }
  }

  lemma DroppedPages(tables: Tables, owner: Owners, pages: map<Page, Data>, pages': map<Page, Data>, free: set<Page>,
                     pd: Page, gone: set<Page>, n: nat, i: nat)
    requires PagesOk(owner, tables, pages, free) && pages'.Keys == pages.Keys && GoneOk(tables, owner, pd, gone, n, i)
    requires pd in owner && owner[pd] == Dir
    ensures PagesOk(FreeAll(owner, gone + {pd}), tables - (gone + {pd}), pages', free + gone + {pd})
  {
    hide GoneOne;
  }

  lemma DroppedMarks(tables: Tables, owner: Owners, dirtied: set<Slot>, accessed: set<Slot>, gone: set<Page>)
    requires Marks(tables, owner, dirtied, accessed)
    ensures Marks(tables - gone, FreeAll(owner, gone), dirtied, accessed)
  {
    hide Dirty, Accessed;
    forall s: Slot | s.At? && s.k < 1024 && IsTable(FreeAll(owner, gone), s.pt)
      ensures MarkOk(tables - gone, s, dirtied, accessed)
    {
      assert MarkOk(tables, s, dirtied, accessed);
    }
  }

  lemma DroppedInit(tables: Tables, tables': Tables, owner: Owners, owner': Owners, dirs: set<Page>, initPd: Page,
                    pd: Page, gone: set<Page>, n: nat, i: nat)
    requires TablesOk(tables, owner, dirs) && initPd in dirs && initPd != pd && NoUserPages(tables, initPd)
    requires tables' == tables - (gone + {pd}) && GoneOk(tables, owner, pd, gone, n, i)
    ensures NoUserPages(tables', initPd)
  {
    hide FramesOk;
    DirIn(tables, owner, dirs, initPd);
    assert initPd in gone ==> initPd in owner && GoneOne(tables, owner, pd, initPd, n, i);
  }

  lemma EmptyTlb(tables: Tables, cr3: Page)
    ensures TlbOk(tables, cr3, map[])
  {
  }

  lemma SameMapping(tables: Tables, pd: Page, vpn: nat, e: bv32)
    requires SameRights(PteOf(tables, pd, vpn), e)
    ensures vpn < USER_PAGES ==>
              Space(tables, pd) == if Present(e) then Space(tables, pd)[vpn := Mapping(PageIn(e), Writable(e))]
                  else Space(tables, pd) - {vpn}
  {
    hide PteOf, Present, Writable, PageIn;
  }

  // ----- the machine

  class Mmu {
    // The page directory that maps only the kernel.
    const initPd: Page
    // The pages of the user pool; the others are the kernel pool.
    const userPool: set<Page>
    var free: set<Page>
    var tables: Tables
    var pages: map<Page, Data>
    var cr3: Page
    var tlb: Tlb
    ghost var owner: Owners
    ghost var dirs: set<Page>
    // The entries whose pages have been written or marked dirty, and accessed or
    // marked accessed, since they were installed or last cleaned.
    ghost var dirtied: set<Slot>
    ghost var accessed: set<Slot>

    /** At boot: the kernel's directory is the only one. */
    constructor (initPd: Page, userPool: set<Page>, free: set<Page>, tables: Tables, pages: map<Page, Data>,
                 ghost owner: Owners)
      requires TablesOk(tables, owner, {initPd}) && PagesOk(owner, tables, pages, free) && NoUserPages(tables, initPd)
      requires Marks(tables, owner, {}, {})
      ensures Valid() && cr3 == this.initPd == initPd && this.userPool == userPool && this.tables == tables
              && dirs == {initPd}
    {
      this.initPd, this.userPool, this.free, this.tables, this.pages := initPd, userPool, free, tables, pages;
      this.owner, dirs, dirtied, accessed, cr3, tlb := owner, {initPd}, {}, {}, initPd, map[];
    }

    /** The invariant of the tables, whatever the CPU holds. */
    ghost predicate Settled()
      reads this
    {
      && TablesOk(tables, owner, dirs)
      && PagesOk(owner, tables, pages, free)
      && initPd in dirs && NoUserPages(tables, initPd)
      && Marks(tables, owner, dirtied, accessed)
    }

    ghost predicate Valid()
      reads this
    {
      Settled() && cr3 in dirs && TlbOk(tables, cr3, tlb)
    }

    /** All address spaces but that of pd are what they were. */
    twostate predicate OthersSame(pd: Page)
      reads this
    {
      forall q :: q in old(dirs) && q in dirs && q != pd ==> Space(tables, q) == old(Space(tables, q))
    }

    /** So are all of them. */
    twostate predicate SpacesSame()
      reads this
    {
      forall q :: q in old(dirs) && q in dirs ==> Space(tables, q) == old(Space(tables, q))
    }

    // ----- pages

    /** palloc_get_page */
    method GetPage(user: bool) returns (r: Option<Page>)
      requires Valid()
      modifies this`free, this`owner
      ensures Valid()
      ensures r.None? <==> forall x :: x in old(free) ==> (x in userPool) != user
      ensures r.None? ==> free == old(free) && owner == old(owner)
      ensures r.Some? ==> r.value in old(free) && (r.value in userPool <==> user)
      ensures r.Some? ==> free == old(free) - {r.value} && owner == old(owner)[r.value := Other]
      ensures r.None? <==> (if user then UserPages(old(free), userPool) else KernelPages(old(free), userPool)) == 0
      ensures UserPages(free, userPool) == UserPages(old(free), userPool) - (if r.Some? && user then 1 else 0)
      ensures KernelPages(free, userPool) == KernelPages(old(free), userPool) - (if r.Some? && !user then 1 else 0)
    {
      hide TablesOk, NoUserPages, Marks, TlbOk, UserPages, KernelPages;
      NoneLeft(free, userPool);
      if p :| p in free && (p in userPool <==> user) {
        FreeIsPlain(p);
        OneFree(free - {p}, userPool, p);
        assert free - {p} + {p} == free;
        free := free - {p};
        owner := owner[p := Other];
        r := Some(p);
      } else {
        r := None;
      }
    }

    /** Taking a free page into use affects no directory. */
    lemma FreeIsPlain(p: Page)
      requires Valid() && p in free
      ensures p !in tables
      ensures TablesOk(tables, owner[p := Other], dirs) && Marks(tables, owner[p := Other], dirtied, accessed)
    {
      hide DirOk, NoUserPages, TlbOk;
      var owner' := owner[p := Other];
      forall q | q in dirs
        ensures DirOk(tables, owner', q) && FramesOk(tables, owner', q)
      {
        DirIn(tables, owner, dirs, q);
        SameDir(tables, owner, owner', q);
        SameFrames(tables, tables, owner, owner', q);
      }
      forall s: Slot | s.At? && s.k < 1024 && IsTable(owner', s.pt)
        ensures MarkOk(tables, s, dirtied, accessed)
      {
        assert IsTable(owner, s.pt);
      }
    }

    /** palloc_free_page: the page must be in use. */
    method FreePage(p: Page)
      requires p in owner && p !in free && p in pages
      modifies this`free, this`owner, this`tables, this`pages
      ensures free == old(free) + {p} && owner == old(owner)[p := Free]
      ensures tables == old(tables) - {p} && pages == old(pages)[p := Cleared()]
    {
      free := free + {p};
      owner := owner[p := Free];
      tables := tables - {p};
      pages := pages[p := Cleared()];
    }

    // ----- the CPU

    /** An access to a virtual page, in any state: the TLB is asked first, then
        the tables. */
    method CpuStep(vpn: nat, write: bool, user: bool) returns (r: Option<Page>)
      modifies this`tables, this`tlb
      ensures Cpu(r, tables, tlb) == CpuAccess(old(tables), cr3, old(tlb), vpn, write, user)
    {
      if vpn in tlb {
        var c := tlb[vpn];
        if (user && !c.user) || (write && !c.writable) {
          return None;
        }
        if write && !c.dirty {
          tables := Flagged(tables, cr3, vpn, true);
          tlb := tlb[vpn := c.(dirty := true)];
        }
        return Some(c.frame);
      }
      var e := PteOf(tables, cr3, vpn);
      if !Present(e) || (user && !UserBit(e)) || (write && !Writable(e)) {
        return None;
      }
      tables := Flagged(tables, cr3, vpn, write);
      e := PteOf(tables, cr3, vpn);
      tlb := tlb[vpn := Cached(PageIn(e), Writable(e), UserBit(e), write)];
      return Some(PageIn(e));
    }

    /** An access in a valid state, by user or kernel code. Whatever the TLB
        holds, the result is that of walking the tables as they are. */
    method Access(vpn: nat, write: bool, user: bool) returns (r: Option<Page>)
      requires Valid() && vpn < ALL_PAGES
      modifies this`tables, this`tlb, this`dirtied, this`accessed
      ensures Valid() && SpacesSame()
      ensures Cpu(r, tables, tlb) == CpuAccess(old(tables), cr3, old(tlb), vpn, write, user)
      ensures r == Translate(old(tables), cr3, vpn, write, user)
      ensures user ==> r == UserAccess(old(Space(tables, cr3)), vpn, write)
      ensures r.None? ==> tables == old(tables) && dirtied == old(dirtied) && accessed == old(accessed)
      ensures r.Some? ==> Lookup(old(tables), cr3, vpn).At?
      ensures forall q, v :: q in dirs && 0 <= v < ALL_PAGES ==> Lookup(tables, q, v) == old(Lookup(tables, q, v))
      ensures r.Some? ==> accessed == old(accessed) + {Lookup(old(tables), cr3, vpn)}
      ensures r.Some? ==> dirtied == old(dirtied) + if write then {Lookup(old(tables), cr3, vpn)} else {}
    {
      hide TablesOk, PagesOk, NoUserPages, Marks, Lookup, TlbOk, CpuAccess, Translate, Space;
      ghost var s := Lookup(tables, cr3, vpn);
      AccessIsWalk(vpn, write, user);
      UserWalk(vpn, write);
      if Translate(tables, cr3, vpn, write, user).Some? {
        if vpn in tlb { AccessHit(vpn, write, user); } else { AccessMiss(vpn, write, user); }
        AccessLookups(vpn, write, user);
      }
      r := CpuStep(vpn, write, user);
      if r.Some? {
        accessed := accessed + {s};
        dirtied := dirtied + if write then {s} else {};
      }
    }

    /** For user code a walk of the tables is a look into the address space. */
    lemma UserWalk(vpn: nat, write: bool)
      requires Valid() && vpn < ALL_PAGES
      ensures Translate(tables, cr3, vpn, write, true) == UserAccess(Space(tables, cr3), vpn, write)
    {
      hide PagesOk, NoUserPages, Marks, TlbOk, DirOk, Lookup;
      DirIn(tables, owner, dirs, cr3);
      assert FrameOk(tables, owner, cr3, vpn);
      if vpn < USER_PAGES {
        NotMapped(tables, cr3, vpn);
      } else {
        SpaceBelow(tables, cr3);
      }
    }

    lemma AccessIsWalk(vpn: nat, write: bool, user: bool)
      requires Valid() && vpn < ALL_PAGES
      ensures var c := CpuAccess(tables, cr3, tlb, vpn, write, user);
              && c.result == Translate(tables, cr3, vpn, write, user)
              && (c.result.None? ==> c.tables == tables && c.tlb == tlb)
              && (c.result.Some? ==> Lookup(tables, cr3, vpn).At?)
    {
      hide TablesOk, PagesOk, NoUserPages, Marks, Lookup, Flagged;
      PresentIsSomewhere(tables, cr3, vpn);
      if vpn !in tlb && Present(PteOf(tables, cr3, vpn)) { FlagsSet(vpn, write); }
    }

    lemma AccessLookups(vpn: nat, write: bool, user: bool)
      requires Valid() && vpn < ALL_PAGES && CpuAccess(tables, cr3, tlb, vpn, write, user).result.Some?
               && Lookup(tables, cr3, vpn).At?
      ensures var c := CpuAccess(tables, cr3, tlb, vpn, write, user);
              forall q, v :: q in dirs && 0 <= v < ALL_PAGES ==> Lookup(c.tables, q, v) == Lookup(tables, q, v)
    {
      hide TablesOk, PagesOk, NoUserPages, Marks, Lookup, TlbOk, SetEntry;
      var e := PteOf(tables, cr3, vpn);
      LookupsKept(cr3, vpn, SetDirty(SetAccessed(e)));
      LookupsKept(cr3, vpn, SetAccessed(e));
    }

    /** The TLB then holds the translation. */
    lemma AccessCaches(vpn: nat, write: bool, user: bool)
      requires Valid() && vpn < ALL_PAGES && CpuAccess(tables, cr3, tlb, vpn, write, user).result.Some?
      ensures var tlb' := CpuAccess(tables, cr3, tlb, vpn, write, user).tlb;
              vpn in tlb' && (user ==> tlb'[vpn].user) && (write ==> tlb'[vpn].writable && tlb'[vpn].dirty)
    {
      hide TablesOk, PagesOk, NoUserPages, Marks, Lookup, Flagged, Space;
      if vpn !in tlb { FlagsSet(vpn, write); }
    }

    /** After an access through the TLB everything is in order. */
    lemma AccessHit(vpn: nat, write: bool, user: bool)
      requires Valid() && vpn < ALL_PAGES && vpn in tlb && CpuAccess(tables, cr3, tlb, vpn, write, user).result.Some?
      ensures var c, s := CpuAccess(tables, cr3, tlb, vpn, write, user), Lookup(tables, cr3, vpn);
              AfterAccess(c, dirtied + (if write then {s} else {}), accessed + {s})
    {
      hide TablesOk, PagesOk, NoUserPages, Marks, Lookup, Flagged, Space;
      var s, c := Lookup(tables, cr3, vpn), tlb[vpn];
      PresentIsSomewhere(tables, cr3, vpn);
      MarkedHere(s);
      if write && !c.dirty {
        FlagsSet(vpn, true);
        assert dirtied + {s} == dirtied + (if write then {s} else {});
      } else {
        assert accessed + {s} == accessed;
        assert dirtied + (if write then {s} else {}) == dirtied;
      }
    }

    /** Nor after one that walks the tables. */
    lemma AccessMiss(vpn: nat, write: bool, user: bool)
      requires Valid() && vpn < ALL_PAGES && vpn !in tlb && CpuAccess(tables, cr3, tlb, vpn, write, user).result.Some?
      ensures var c, s := CpuAccess(tables, cr3, tlb, vpn, write, user), Lookup(tables, cr3, vpn);
              AfterAccess(c, dirtied + (if write then {s} else {}), accessed + {s})
    {
      hide TablesOk, PagesOk, NoUserPages, Marks, Lookup, Flagged, Space;
      FlagsSet(vpn, write);
    }

    /** What holds after an access with this outcome. */
    ghost predicate AfterAccess(c: Cpu, dirtied': set<Slot>, accessed': set<Slot>)
      reads this
    {
      && TablesOk(c.tables, owner, dirs) && PagesOk(owner, c.tables, pages, free) && NoUserPages(c.tables, initPd)
      && Marks(c.tables, owner, dirtied', accessed') && TlbOk(c.tables, cr3, c.tlb)
      && forall q :: q in dirs ==> Space(c.tables, q) == Space(tables, q)
    }

    lemma MarkedHere(s: Slot)
      requires Valid() && exists v :: 0 <= v < ALL_PAGES && s == Lookup(tables, cr3, v) && s.At?
      ensures MarkOk(tables, s, dirtied, accessed)
    {
      hide TlbOk, PagesOk, NoUserPages;
      var v :| 0 <= v < ALL_PAGES && s == Lookup(tables, cr3, v) && s.At?;
      DirIn(tables, owner, dirs, cr3);
      LookupOwner(tables, owner, cr3, v);
    }

    /** The CPU's walk of the tables sets the accessed flag and, for a write, the
        dirty flag of the entry it uses. */
    lemma FlagsSet(vpn: nat, write: bool)
      requires Valid() && vpn < ALL_PAGES && Present(PteOf(tables, cr3, vpn))
      ensures var s := Lookup(tables, cr3, vpn);
              s.At? && AfterAccess(Cpu(None, Flagged(tables, cr3, vpn, write), tlb),
                  dirtied + (if write then {s} else {}), accessed + {s})
      ensures var e, e' := PteOf(tables, cr3, vpn), PteOf(Flagged(tables, cr3, vpn, write), cr3, vpn);
              SameRights(e, e') && Accessed(e') && (write ==> Dirty(e'))
    {
      hide TablesOk, PagesOk, NoUserPages, Marks, Lookup, TlbOk, Space;
      PresentIsSomewhere(tables, cr3, vpn);
      var s := Lookup(tables, cr3, vpn);
      var e := Entry(tables, s);
      SetAccessedLaw(e);
      SetDirtyLaw(SetAccessed(e));
      MarkedHere(s);
      FlagsWritten(cr3, vpn, if write then SetDirty(SetAccessed(e)) else SetAccessed(e),
                   dirtied + (if write then {s} else {}), accessed + {s});
    }

    /** Writing flags of an entry. The TLB stays right unless something in it
        comes from the entry and the entry loses a flag. */
    lemma FlagsWritten(pd: Page, vpn: nat, e: bv32, dirtied': set<Slot>, accessed': set<Slot>)
      requires Valid() && pd in dirs && vpn < ALL_PAGES && Lookup(tables, pd, vpn).At?
      requires SameRights(PteOf(tables, pd, vpn), e)
      requires var s := Lookup(tables, pd, vpn);
               && (Dirty(e) <==> s in dirtied') && (Accessed(e) <==> s in accessed')
               && forall t :: t != s ==> (t in dirtied' <==> t in dirtied) && (t in accessed' <==> t in accessed)
      ensures var tables' := SetEntry(tables, Lookup(tables, pd, vpn), e);
              && TablesOk(tables', owner, dirs) && PagesOk(owner, tables', pages, free) && NoUserPages(tables', initPd)
              && Marks(tables', owner, dirtied', accessed')
              && (forall q :: q in dirs ==> Space(tables', q) == Space(tables, q))
              && PteOf(tables', pd, vpn) == e
      ensures var was := PteOf(tables, pd, vpn);
              (Accessed(was) ==> Accessed(e)) && (Dirty(was) ==> Dirty(e)) ==>
                    TlbOk(SetEntry(tables, Lookup(tables, pd, vpn), e), cr3, tlb)
    {
      hide TablesOk, PagesOk, NoUserPages, Marks, TlbOk, DirOk, FramesOk, Lookup, Entry, SetEntry, Space, IsTable,
           PteOf;
      DirIn(tables, owner, dirs, pd);
      DirIn(tables, owner, dirs, cr3);
      LookupOwner(tables, owner, pd, vpn);
      TableOwner(owner, Lookup(tables, pd, vpn).pt);
      FlagsFrame(pd, vpn, e);
      PagesWritten(tables, owner, owner, pages, free, Lookup(tables, pd, vpn), e);
      EntryWritten(tables, owner, owner, dirs, pd, vpn, e);
      MarksWritten(tables, owner, owner, dirtied, accessed, Lookup(tables, pd, vpn), e, dirtied', accessed');
      var was := PteOf(tables, pd, vpn);
      if (Accessed(was) ==> Accessed(e)) && (Dirty(was) ==> Dirty(e)) {
        TlbWritten(tables, owner, cr3, tlb, pd, vpn, e);
      }
      PteWritten(tables, owner, pd, vpn, e, pd, vpn);
      forall q | q in dirs
        ensures Space(SetEntry(tables, Lookup(tables, pd, vpn), e), q) == Space(tables, q)
      {
        DirIn(tables, owner, dirs, q);
        SpaceWritten(tables, owner, pd, vpn, e, q);
        SameMapping(tables, pd, vpn, e);
      }
      InitUntouched(Lookup(tables, pd, vpn), e);
    }

    // ----- pagedir.c

    /** pagedir_activate; null stands for the kernel's directory. Loading CR3
        empties the TLB. */
    method Activate(pd: Option<Page>)
      requires Valid() && (pd.Some? ==> pd.value in dirs)
      modifies this`cr3, this`tlb
      ensures Valid() && cr3 == if pd.Some? then pd.value else initPd
    {
      hide TablesOk, PagesOk, NoUserPages, Marks;
      cr3 := if pd.Some? then pd.value else initPd;
      tlb := map[];
    }

    /** What the TLB holds after pagedir_invalidate. */
    function Flushed(pd: Page): Tlb
      reads this
    {
      if cr3 == pd then map[] else tlb
    }

    /** lookup_page. With create set, a missing table is made; no address space
        changes by that. */
    method LookupPage(pd: Page, vpn: nat, create: bool) returns (s: Slot)
      requires Valid() && pd in dirs && vpn < ALL_PAGES && (create ==> vpn < USER_PAGES && pd != initPd)
      modifies this`free, this`tables, this`owner, this`dirtied, this`accessed
      ensures Valid() && SpacesSame() && s == Lookup(tables, pd, vpn)
      ensures s == Missing && create ==> forall x :: x in free ==> x in userPool
      ensures free <= old(free)
      ensures create ==> (s.At? <==> PdNo(vpn) in old(TablesOf(tables, pd)) || KernelPages(old(free), userPool) > 0)
      ensures create ==> TablesOf(tables, pd) == old(TablesOf(tables, pd)) + (if s.At? then {PdNo(vpn)} else {})
      ensures KernelPages(free, userPool) + |TablesOf(tables, pd)|
              == old(KernelPages(free, userPool) + |TablesOf(tables, pd)|)
      ensures UserPages(free, userPool) == old(UserPages(free, userPool))
      ensures !create || s == Missing ==>
                tables == old(tables) && owner == old(owner) && free == old(free) && dirtied == old(dirtied)
                    && accessed == old(accessed)
      ensures PteOf(tables, pd, vpn) == old(PteOf(tables, pd, vpn))
      ensures forall x :: x in old(owner) && old(owner)[x] != Free ==> x in owner && owner[x] == old(owner)[x]
      ensures dirtied <= old(dirtied) && accessed <= old(accessed)
      ensures forall q, v :: q in dirs && 0 <= v < ALL_PAGES ==>
                Kept(old(tables), old(dirtied), old(accessed), tables, dirtied, accessed, q, v)
    {
      hide TablesOk, NoUserPages, Marks, Lookup, TlbOk, IsTable, Space, Structural, KernelPages, UserPages, TablesOf;
      s := Lookup(tables, pd, vpn);
      if vpn < USER_PAGES { HasTable(tables, pd, vpn); }
      if s != Missing || !create {
        return;
      }
      var r := GetPage(false);
      if r.None? {
        return;
      }
      InstallTable(pd, vpn, r.value);
      s := Lookup(tables, pd, vpn);
    }

    method InstallTable(pd: Page, vpn: nat, pt: Page)
      requires Valid() && pd in dirs && vpn < USER_PAGES && pd != initPd && Lookup(tables, pd, vpn) == Missing
      requires pt in owner && owner[pt] == Other
      modifies this`tables, this`owner, this`dirtied, this`accessed
      ensures Valid() && SpacesSame() && Lookup(tables, pd, vpn).At?
      ensures PteOf(tables, pd, vpn) == old(PteOf(tables, pd, vpn))
      ensures owner == old(owner)[pt := Tab(pd, PdNo(vpn))]
      ensures TablesOf(tables, pd) == old(TablesOf(tables, pd)) + {PdNo(vpn)} && PdNo(vpn) !in old(TablesOf(tables, pd))
      ensures dirtied <= old(dirtied) && accessed <= old(accessed)
      ensures forall q, v :: q in dirs && 0 <= v < ALL_PAGES ==>
                Kept(old(tables), old(dirtied), old(accessed), tables, dirtied, accessed, q, v)
    {
      hide TablesOk, NoUserPages, Marks, Lookup, TlbOk, DirOk, FramesOk, PagesOk, Space, PteOf, TablesOf;
      PagesTabled(pd, vpn, pt);
      TableCounted(tables, pd, vpn, pt);
      var tables' := AddTable(tables, pd, vpn, pt);
      ghost var owner' := owner[pt := Tab(pd, PdNo(vpn))];
      ghost var dirtied' := set s | s in dirtied && !(s.At? && s.pt == pt);
      ghost var accessed' := set s | s in accessed && !(s.At? && s.pt == pt);
      DirIn(tables, owner, dirs, pd);
      TableAdded(tables, owner, dirs, pd, vpn, pt);
      TableMarks(tables, owner, pd, vpn, pt, dirtied, accessed, dirtied', accessed');
      TableTlb(tables, tables', cr3, tlb);
      InitKept(pd, vpn, pt);
      forall q | q in dirs
        ensures Space(tables', q) == Space(tables, q)
      {
        DirIn(tables, owner, dirs, q);
        SameFrames(tables, tables', owner, owner', q);
      }
      forall q, v | q in dirs && 0 <= v < ALL_PAGES && Lookup(tables, q, v).At?
        ensures Kept(tables, dirtied, accessed, tables', dirtied', accessed', q, v)
      {
        DirIn(tables, owner, dirs, q);
        LookupOwner(tables, owner, q, v);
        SameTable(tables, owner, dirs, pd, vpn, v);
      }
      tables, owner, dirtied, accessed := tables', owner', dirtied', accessed';
    }

    lemma PagesTabled(pd: Page, vpn: nat, pt: Page)
      requires Valid() && pd in dirs && vpn < USER_PAGES && pt in owner && owner[pt] == Other
      ensures PagesOk(owner[pt := Tab(pd, PdNo(vpn))], AddTable(tables, pd, vpn, pt), pages, free)
      ensures pt !in tables && Aligned(pt) && pd in tables
    {
      hide Marks, TlbOk, NoUserPages;
      DirIn(tables, owner, dirs, pd);
    }

    lemma InitKept(pd: Page, vpn: nat, pt: Page)
      requires Valid() && pd in dirs && vpn < USER_PAGES && pd != initPd && pt !in tables
      ensures NoUserPages(AddTable(tables, pd, vpn, pt), initPd)
    {
      hide Marks, TlbOk, TablesOk;
    }

    /** The page is a frame of some address space. */
    ghost predicate Mapped(page: Page)
      reads this
    {
      exists q, v :: q in dirs && v in Space(tables, q) && Space(tables, q)[v].frame == page
    }

    /** pagedir_set_page, with no effect on frame bookkeeping. The page must not
        be mapped yet. The frame may be, but then it has two owners, and
        destroying both their directories would free it twice. */
    method SetPage(pd: Page, vpn: nat, page: Page, writable: bool) returns (success: bool)
      requires Valid() && pd in dirs && pd != initPd && vpn < USER_PAGES && vpn !in Space(tables, pd)
      requires page in owner && (owner[page] == Other || Mapped(page))
      modifies this`free, this`tables, this`owner, this`dirtied, this`accessed
      ensures OthersSame(pd) && (Valid() <==> !success || old(owner[page]) == Other)
      ensures Space(tables, pd) == if success then old(Space(tables, pd))[vpn := Mapping(page, writable)]
              else old(Space(tables, pd))
      ensures success ==> var s := Lookup(tables, pd, vpn); s.At? && s !in dirtied && s !in accessed
      ensures success ==> UserBit(PteOf(tables, pd, vpn))
      ensures forall q, v :: q in dirs && 0 <= v < USER_PAGES && (q != pd || v != vpn) ==>
                Kept(old(tables), old(dirtied), old(accessed), tables, dirtied, accessed, q, v)
      ensures free <= old(free)
      ensures success <==> PdNo(vpn) in old(TablesOf(tables, pd)) || KernelPages(old(free), userPool) > 0
      ensures TablesOf(tables, pd) == old(TablesOf(tables, pd)) + (if success then {PdNo(vpn)} else {})
      ensures KernelPages(free, userPool) + |TablesOf(tables, pd)|
              == old(KernelPages(free, userPool) + |TablesOf(tables, pd)|)
      ensures UserPages(free, userPool) == old(UserPages(free, userPool))
      ensures !success ==> free == old(free) && owner == old(owner) && forall x :: x in free ==> x in userPool
      ensures success && old(owner[page]) == Other ==> page in owner && owner[page] == Frame(pd, vpn)
      ensures forall x :: x in old(owner) && old(owner)[x] != Free && x != page ==>
                x in owner && owner[x] == old(owner)[x]
    {
      hide TablesOk, PagesOk, NoUserPages, Marks, Lookup, TlbOk, IsTable, Space, Settled, KernelPages, UserPages,
           TablesOf;
      MappedIsInUse(page);
      var s := LookupPage(pd, vpn, true);
      if s == Missing {
        return false;
      }
      ghost var tables1, dirtied1, accessed1 := tables, dirtied, accessed;
      WriteNew(pd, vpn, page, writable);
      forall q, v | q in dirs && 0 <= v < USER_PAGES && (q != pd || v != vpn)
        ensures Kept(old(tables), old(dirtied), old(accessed), tables, dirtied, accessed, q, v)
      {
        assert Kept(old(tables), old(dirtied), old(accessed), tables1, dirtied1, accessed1, q, v);
        assert Kept(tables1, dirtied1, accessed1, tables, dirtied, accessed, q, v);
      }
      success := true;
    }

    /** Fills an entry that is not present. */
    method WriteNew(pd: Page, vpn: nat, page: Page, writable: bool)
      requires Valid() && pd in dirs && pd != initPd && vpn < USER_PAGES && Lookup(tables, pd, vpn).At?
               && vpn !in Space(tables, pd)
      requires page in owner && (owner[page] == Other || Mapped(page))
      modifies this`tables, this`owner, this`dirtied, this`accessed
      ensures OthersSame(pd) && (Valid() <==> old(owner[page]) == Other)
      ensures Space(tables, pd) == old(Space(tables, pd))[vpn := Mapping(page, writable)]
      ensures owner == if old(owner[page]) == Other then old(owner)[page := Frame(pd, vpn)] else old(owner)
      ensures TablesOf(tables, pd) == old(TablesOf(tables, pd)) && UserBit(PteOf(tables, pd, vpn))
      ensures var s := old(Lookup(tables, pd, vpn)); dirtied == old(dirtied) - {s} && accessed == old(accessed) - {s}
      ensures forall q, v :: q in dirs && 0 <= v < ALL_PAGES ==> Lookup(tables, q, v) == old(Lookup(tables, q, v))
      ensures forall q, v :: q in dirs && 0 <= v < USER_PAGES && (q != pd || v != vpn) ==>
                Kept(old(tables), old(dirtied), old(accessed), tables, dirtied, accessed, q, v)
    {
      hide TablesOk, PagesOk, NoUserPages, Marks, TlbOk, FramesOk, DirOk, Lookup, SetEntry, Space, PteOf, TablesOf;
      var s := Lookup(tables, pd, vpn);
      var e := PteCreateUser(page, writable);
      AlignedPage(page);
      PteCreated(page, writable);
      SlotWritten(pd, vpn, e);
      if owner[page] == Other {
        NewFrame(pd, vpn, page, e);
      } else {
        SharedFrame(pd, vpn, page, e);
      }
      owner := if owner[page] == Other then owner[page := Frame(pd, vpn)] else owner;
      tables, dirtied, accessed := SetEntry(tables, s, e), dirtied - {s}, accessed - {s};
    }

    /** Writing the entry of a user page affects its address space only, and no
        other entry. */
    lemma SlotWritten(pd: Page, vpn: nat, e: bv32)
      requires Valid() && pd in dirs && vpn < USER_PAGES && Lookup(tables, pd, vpn).At? && Present(e)
      ensures var s := Lookup(tables, pd, vpn);
              && (forall q :: q in dirs ==>
                   Space(SetEntry(tables, s, e), q)
                       == (if q != pd then Space(tables, q)
                           else Space(tables, q)[vpn := Mapping(PageIn(e), Writable(e))]))
              && (forall q, v :: q in dirs && 0 <= v < ALL_PAGES ==>
                    Lookup(SetEntry(tables, s, e), q, v) == Lookup(tables, q, v))
              && (forall q, v :: q in dirs && 0 <= v < USER_PAGES && (q != pd || v != vpn) ==>
                    Lookup(tables, q, v) != s)
              && TablesOf(SetEntry(tables, s, e), pd) == TablesOf(tables, pd)
                  && PteOf(SetEntry(tables, s, e), pd, vpn) == e
    {
      hide TablesOk, PagesOk, NoUserPages, Marks, TlbOk, DirOk, FramesOk, Lookup, SetEntry, Space, PteOf, Present,
           PageIn, Writable, TablesOf;
      var s := Lookup(tables, pd, vpn);
      DirIn(tables, owner, dirs, pd);
      LookupOwner(tables, owner, pd, vpn);
      TableOwner(owner, s.pt);
      SameTables(tables, owner, pd, s, e);
      PteWritten(tables, owner, pd, vpn, e, pd, vpn);
      forall q | q in dirs
        ensures Space(SetEntry(tables, s, e), q) == if q != pd then Space(tables, q)
                else Space(tables, q)[vpn := Mapping(PageIn(e), Writable(e))]
      {
        DirIn(tables, owner, dirs, q);
        SpaceWritten(tables, owner, pd, vpn, e, q);
      }
      forall q, v | q in dirs && 0 <= v < ALL_PAGES
        ensures Lookup(SetEntry(tables, s, e), q, v) == Lookup(tables, q, v)
        ensures v < USER_PAGES && (q != pd || v != vpn) ==> Lookup(tables, q, v) != s
      {
        DirIn(tables, owner, dirs, q);
        PteWritten(tables, owner, pd, vpn, e, q, v);
      }
    }

    /** A page in no other use becomes the frame of a page. */
    lemma NewFrame(pd: Page, vpn: nat, page: Page, e: bv32)
      requires Valid() && pd in dirs && pd != initPd && vpn < USER_PAGES && Lookup(tables, pd, vpn).At?
               && vpn !in Space(tables, pd)
      requires page in owner && owner[page] == Other && PageIn(e) == page && UserBit(e) && !Dirty(e) && !Accessed(e)
      ensures var s, owner' := Lookup(tables, pd, vpn), owner[page := Frame(pd, vpn)];
              var tables' := SetEntry(tables, s, e);
              && TablesOk(tables', owner', dirs) && PagesOk(owner', tables', pages, free)
                  && NoUserPages(tables', initPd)
              && Marks(tables', owner', dirtied - {s}, accessed - {s}) && TlbOk(tables', cr3, tlb)
    {
      hide TablesOk, NoUserPages, Marks, TlbOk, DirOk, FramesOk, Lookup, Entry, SetEntry, PagesOk, Space, PteOf,
           IsTable, Present, PageIn, Dirty, Accessed, SameStructure;
      OtherIsPlain(page);
      NewStructure(owner, page, pd, vpn);
      NotMapped(tables, pd, vpn);
      var s := Lookup(tables, pd, vpn);
      var owner' := owner[page := Frame(pd, vpn)];
      DirIn(tables, owner, dirs, pd);
      DirIn(tables, owner, dirs, cr3);
      LookupOwner(tables, owner, pd, vpn);
      TableOwner(owner, s.pt);
      EntryWritten(tables, owner, owner', dirs, pd, vpn, e);
      MarksWritten(tables, owner, owner', dirtied, accessed, s, e, dirtied - {s}, accessed - {s});
      TlbWritten(tables, owner, cr3, tlb, pd, vpn, e);
      InitUntouched(s, e);
      PagesWritten(tables, owner, owner', pages, free, s, e);
    }

    /** A frame that is mapped already cannot have one owner any more. */
    lemma SharedFrame(pd: Page, vpn: nat, page: Page, e: bv32)
      requires Valid() && pd in dirs && vpn < USER_PAGES && Lookup(tables, pd, vpn).At? && vpn !in Space(tables, pd)
      requires Mapped(page) && PageIn(e) == page && Present(e)
      ensures forall owner' :: !TablesOk(SetEntry(tables, Lookup(tables, pd, vpn), e), owner', dirs)
    {
      hide PagesOk, NoUserPages, Marks, TlbOk, DirOk, Lookup, Entry, SetEntry, PteOf, Present, PageIn, Aligned;
      var q, v :| q in dirs && v in Space(tables, q) && Space(tables, q)[v].frame == page;
      var tables' := SetEntry(tables, Lookup(tables, pd, vpn), e);
      DirIn(tables, owner, dirs, pd);
      DirIn(tables, owner, dirs, q);
      PteWritten(tables, owner, pd, vpn, e, pd, vpn);
      PteWritten(tables, owner, pd, vpn, e, q, v);
      forall owner'
        ensures TablesOk(tables', owner', dirs) ==> q == pd && v == vpn
      {
        OneOwner(tables', owner', dirs, pd, vpn, q, v);
      }
    }

    lemma MappedIsInUse(page: Page)
      requires Valid()
      ensures Mapped(page) ==> page in owner && owner[page].Frame? && Aligned(page)
    {
      hide Marks, TlbOk, NoUserPages, Space, DirOk, FramesOk;
      if Mapped(page) {
        var q, v :| q in dirs && v in Space(tables, q) && Space(tables, q)[v].frame == page;
        FramesInUse(q);
      }
    }

    lemma AlignedPage(page: Page)
      requires Valid() && page in owner && (owner[page] == Other || Mapped(page))
      ensures Aligned(page)
    {
      hide TablesOk, Marks, TlbOk, NoUserPages, Mapped;
      MappedIsInUse(page);
    }

    lemma OtherIsPlain(page: Page)
      requires Valid() && page in owner && owner[page] == Other
      ensures page !in tables && page !in free && Aligned(page)
    {
    }

    /** pagedir_get_page, for the byte at offset ofs of a page. */
    method GetUserPage(pd: Page, vpn: nat) returns (r: Option<Page>)
      requires Valid() && pd in dirs && vpn < USER_PAGES
      ensures r == if vpn in Space(tables, pd) then Some(Space(tables, pd)[vpn].frame) else None
    {
      PresentIsSomewhere(tables, pd, vpn);
      var e := PteOf(tables, pd, vpn);
      r := if Present(e) then Some(PageIn(e)) else None;
    }

    /** pagedir_clear_page: the page is unmapped; its dirty and accessed marks
        stay, and its frame is left to whoever manages it. */
    method ClearPage(pd: Page, vpn: nat)
      requires Valid() && pd in dirs && vpn < USER_PAGES
      modifies this`tables, this`owner, this`tlb
      ensures Valid() && OthersSame(pd)
      ensures Space(tables, pd) == old(Space(tables, pd)) - {vpn}
      ensures owner == if vpn in old(Space(tables, pd)) then old(owner)[old(Space(tables, pd))[vpn].frame := Other]
              else old(owner)
      ensures forall q, v :: q in dirs && 0 <= v < ALL_PAGES ==> Lookup(tables, q, v) == old(Lookup(tables, q, v))
    {
      hide TablesOk, PagesOk, NoUserPages, Marks, TlbOk, DirOk, FramesOk, Lookup, SetEntry, Space, IsTable, PageIn,
           Writable, Dirty, Accessed, UserBit, Aligned, SameStructure;
      PresentIsSomewhere(tables, pd, vpn);
      NotMapped(tables, pd, vpn);
      var was := PteOf(tables, pd, vpn);
      if !Present(was) {
        return;
      }
      var s := Lookup(tables, pd, vpn);
      var e := ClearPresent(was);
      ClearPresentLaw(was);
      DirIn(tables, owner, dirs, pd);
      DirIn(tables, owner, dirs, cr3);
      LookupOwner(tables, owner, pd, vpn);
      TableOwner(owner, s.pt);
      MappedFrame(pd, vpn);
      OldStructure(owner, PageIn(was));
      ghost var owner' := owner[PageIn(was) := Other];
      MarkedThere(pd, vpn);
      EntryWritten(tables, owner, owner', dirs, pd, vpn, e);
      MarksWritten(tables, owner, owner', dirtied, accessed, s, e, dirtied, accessed);
      if cr3 == pd { EmptyTlb(SetEntry(tables, s, e), cr3); } else { TlbWritten(tables, owner, cr3, tlb, pd, vpn, e); }
      InitUntouched(s, e);
      PagesWritten(tables, owner, owner', pages, free, s, e);
      forall q | q in dirs
        ensures Space(SetEntry(tables, s, e), q) == if q != pd then Space(tables, q) else Space(tables, q) - {vpn}
      {
        DirIn(tables, owner, dirs, q);
        SpaceWritten(tables, owner, pd, vpn, e, q);
      }
      forall q, v | q in dirs && 0 <= v < ALL_PAGES
        ensures Lookup(SetEntry(tables, s, e), q, v) == Lookup(tables, q, v)
      {
        DirIn(tables, owner, dirs, q);
        PteWritten(tables, owner, pd, vpn, e, q, v);
      }
      tlb := Flushed(pd);
      tables, owner := SetEntry(tables, s, e), owner';
    }

    lemma MappedFrame(pd: Page, vpn: nat)
      requires Valid() && pd in dirs && vpn < USER_PAGES && Present(PteOf(tables, pd, vpn))
      ensures var f := PageIn(PteOf(tables, pd, vpn));
              f in owner && owner[f] == Frame(pd, vpn) && f !in free && f !in tables
    {
      hide Marks, TlbOk, NoUserPages, DirOk;
      DirIn(tables, owner, dirs, pd);
      assert FrameOk(tables, owner, pd, vpn);
    }

    lemma MarkedThere(pd: Page, vpn: nat)
      requires Valid() && pd in dirs && vpn < ALL_PAGES && Lookup(tables, pd, vpn).At?
      ensures MarkOk(tables, Lookup(tables, pd, vpn), dirtied, accessed)
    {
      hide TlbOk, PagesOk, NoUserPages;
      DirIn(tables, owner, dirs, pd);
      LookupOwner(tables, owner, pd, vpn);
    }

    /** The page has been written or marked dirty since it was installed or last
        cleaned. */
    ghost predicate Written(pd: Page, vpn: nat)
      reads this
    {
      Lookup(tables, pd, vpn).At? && Lookup(tables, pd, vpn) in dirtied
    }

    ghost predicate Touched(pd: Page, vpn: nat)
      reads this
    {
      Lookup(tables, pd, vpn).At? && Lookup(tables, pd, vpn) in accessed
    }

    /** pagedir_is_dirty */
    method IsDirty(pd: Page, vpn: nat) returns (b: bool)
      requires Valid() && pd in dirs && vpn < ALL_PAGES
      ensures b <==> Written(pd, vpn)
    {
      hide TablesOk, PagesOk, NoUserPages, Marks, TlbOk;
      var s := Lookup(tables, pd, vpn);
      if s.At? { MarkedThere(pd, vpn); }
      b := s.At? && Dirty(Entry(tables, s));
    }

    /** pagedir_is_accessed */
    method IsAccessed(pd: Page, vpn: nat) returns (b: bool)
      requires Valid() && pd in dirs && vpn < ALL_PAGES
      ensures b <==> Touched(pd, vpn)
    {
      hide TablesOk, PagesOk, NoUserPages, Marks, TlbOk;
      var s := Lookup(tables, pd, vpn);
      if s.At? { MarkedThere(pd, vpn); }
      b := s.At? && Accessed(Entry(tables, s));
    }

    /** pagedir_set_dirty. All that may go wrong is that the TLB keeps a dirty
        translation from an entry that has been cleaned, which takes an
        accessed and dirty kernel page and an inactive directory. */
    method MarkDirty(pd: Page, vpn: nat, dirty: bool)
      requires Valid() && pd in dirs && vpn < ALL_PAGES
      modifies this`tables, this`dirtied, this`tlb
      ensures Settled() && SpacesSame()
      ensures var s := old(Lookup(tables, pd, vpn));
              dirtied == if s == Missing then old(dirtied) else if dirty then old(dirtied) + {s} else old(dirtied) - {s}
      ensures forall q, v :: q in dirs && 0 <= v < ALL_PAGES ==> Lookup(tables, q, v) == old(Lookup(tables, q, v))
      ensures var s := old(Lookup(tables, pd, vpn)); var e := old(PteOf(tables, pd, vpn));
              s.At? ==>
                    tables == SetEntry(old(tables), s, if dirty then SetDirty(e) else ClearDirty(e))
                        && Dirty(PteOf(tables, pd, vpn)) == dirty
      ensures pd != cr3 || dirty ==> tlb == old(tlb)
      ensures Valid() <==> dirty || pd == cr3 || !old(Holds(pd, vpn, true))
      ensures var e := old(PteOf(tables, pd, vpn));
              dirty || pd == cr3 || vpn < USER_PAGES || !(Present(e) && Accessed(e) && Dirty(e)) ==> Valid()
    {
      hide TablesOk, PagesOk, NoUserPages, Marks, TlbOk, Lookup, Holds, Space;
      var s := Lookup(tables, pd, vpn);
      NotHeld(pd, vpn);
      if s == Missing {
        return;
      }
      var was := Entry(tables, s);
      SetDirtyLaw(was);
      ClearDirtyLaw(was);
      var e := if dirty then SetDirty(was) else ClearDirty(was);
      ghost var dirtied' := if dirty then dirtied + {s} else dirtied - {s};
      var tlb' := if dirty then tlb else Flushed(pd);
      MarkedThere(pd, vpn);
      FlagsWritten(pd, vpn, e, dirtied', accessed);
      LookupsKept(pd, vpn, e);
      HeldDirty(pd, vpn);
      EmptyTlb(SetEntry(tables, s, e), cr3);
      tables, dirtied, tlb := SetEntry(tables, s, e), dirtied', tlb';
    }

    /** pagedir_set_accessed. The same may happen: the TLB keeps a translation
        from an entry that is no longer marked accessed. */
    method MarkAccessed(pd: Page, vpn: nat, access: bool)
      requires Valid() && pd in dirs && vpn < ALL_PAGES
      modifies this`tables, this`accessed, this`tlb
      ensures Settled() && SpacesSame()
      ensures var s := old(Lookup(tables, pd, vpn));
              accessed == if s == Missing then old(accessed) else if access then old(accessed) + {s}
                  else old(accessed) - {s}
      ensures forall q, v :: q in dirs && 0 <= v < ALL_PAGES ==> Lookup(tables, q, v) == old(Lookup(tables, q, v))
      ensures var s := old(Lookup(tables, pd, vpn)); var e := old(PteOf(tables, pd, vpn));
              s.At? ==>
                    tables == SetEntry(old(tables), s, if access then SetAccessed(e) else ClearAccessed(e))
                        && Accessed(PteOf(tables, pd, vpn)) == access
      ensures pd != cr3 || access ==> tlb == old(tlb)
      ensures Valid() <==> access || pd == cr3 || !old(Holds(pd, vpn, false))
      ensures var e := old(PteOf(tables, pd, vpn));
              access || pd == cr3 || vpn < USER_PAGES || !(Present(e) && Accessed(e)) ==> Valid()
    {
      hide TablesOk, PagesOk, NoUserPages, Marks, TlbOk, Lookup, Holds, Space;
      var s := Lookup(tables, pd, vpn);
      NotHeld(pd, vpn);
      if s == Missing {
        return;
      }
      var was := Entry(tables, s);
      SetAccessedLaw(was);
      ClearAccessedLaw(was);
      var e := if access then SetAccessed(was) else ClearAccessed(was);
      ghost var accessed' := if access then accessed + {s} else accessed - {s};
      var tlb' := if access then tlb else Flushed(pd);
      MarkedThere(pd, vpn);
      FlagsWritten(pd, vpn, e, dirtied, accessed');
      LookupsKept(pd, vpn, e);
      HeldAccessed(pd, vpn);
      EmptyTlb(SetEntry(tables, s, e), cr3);
      tables, accessed, tlb := SetEntry(tables, s, e), accessed', tlb';
    }

    /** The TLB holds a translation, or a dirty one, from the entry of a page. */
    ghost predicate Holds(pd: Page, vpn: nat, dirty: bool)
      reads this
    {
      exists v :: v in tlb && Lookup(tables, pd, vpn).At? && Lookup(tables, cr3, v) == Lookup(tables, pd, vpn)
          && (dirty ==> tlb[v].dirty)
    }

    lemma NotHeld(pd: Page, vpn: nat)
      requires Valid() && pd in dirs && vpn < ALL_PAGES
      ensures Lookup(tables, pd, vpn) == Missing || (vpn < USER_PAGES && pd != cr3) ==> !Holds(pd, vpn, false)
      ensures Holds(pd, vpn, true) ==> Holds(pd, vpn, false) && Dirty(PteOf(tables, pd, vpn))
      ensures Holds(pd, vpn, false) ==> Present(PteOf(tables, pd, vpn)) && Accessed(PteOf(tables, pd, vpn))
    {
      hide TablesOk, PagesOk, NoUserPages, Marks, Lookup;
      DirIn(tables, owner, dirs, pd);
      DirIn(tables, owner, dirs, cr3);
      forall v | v in tlb && Lookup(tables, pd, vpn).At? && Lookup(tables, cr3, v) == Lookup(tables, pd, vpn)
        ensures vpn < USER_PAGES ==> pd == cr3
      {
        PteWritten(tables, owner, pd, vpn, PteOf(tables, pd, vpn), cr3, v);
      }
    }

    lemma HeldDirty(pd: Page, vpn: nat)
      requires Valid() && pd in dirs && vpn < ALL_PAGES && Lookup(tables, pd, vpn).At?
      ensures TlbOk(SetEntry(tables, Lookup(tables, pd, vpn), ClearDirty(PteOf(tables, pd, vpn))), cr3, tlb)
              <==> !Holds(pd, vpn, true)
    {
      hide TablesOk, PagesOk, NoUserPages, Marks, TlbOk, Lookup;
      DirIn(tables, owner, dirs, pd);
      DirIn(tables, owner, dirs, cr3);
      CleanedTlb(tables, owner, cr3, tlb, pd, vpn);
    }

    lemma HeldAccessed(pd: Page, vpn: nat)
      requires Valid() && pd in dirs && vpn < ALL_PAGES && Lookup(tables, pd, vpn).At?
      ensures TlbOk(SetEntry(tables, Lookup(tables, pd, vpn), ClearAccessed(PteOf(tables, pd, vpn))), cr3, tlb)
              <==> !Holds(pd, vpn, false)
    {
      hide TablesOk, PagesOk, NoUserPages, Marks, TlbOk, Lookup;
      DirIn(tables, owner, dirs, pd);
      DirIn(tables, owner, dirs, cr3);
      UntouchedTlb(tables, owner, cr3, tlb, pd, vpn);
    }

    /** A run in which pagedir_is_dirty misses a write: kernel code writes a
        page of the kernel's half, the page is cleaned through another
        directory, and the next write goes through the TLB alone. */
    method MissedWrite(pd: Page, vpn: nat) returns (r: Option<Page>)
      requires Valid() && pd in dirs && pd != cr3 && vpn < ALL_PAGES
               && Lookup(tables, pd, vpn) == Lookup(tables, cr3, vpn)
      requires Present(PteOf(tables, cr3, vpn)) && Writable(PteOf(tables, cr3, vpn))
      modifies this
      ensures r.Some? && !Dirty(PteOf(tables, pd, vpn)) && !Dirty(PteOf(tables, cr3, vpn))
    {
      hide TablesOk, PagesOk, NoUserPages, Marks, TlbOk, Lookup, Space;
      PresentIsSomewhere(tables, cr3, vpn);
      AccessIsWalk(vpn, true, false);
      AccessCaches(vpn, true, false);
      r := Access(vpn, true, false);
      MarkDirty(pd, vpn, false);
      r := CpuStep(vpn, true, false);
    }

    /** The same for pagedir_is_accessed and any access. */
    method MissedAccess(pd: Page, vpn: nat, write: bool) returns (r: Option<Page>)
      requires Valid() && pd in dirs && pd != cr3 && vpn < ALL_PAGES
               && Lookup(tables, pd, vpn) == Lookup(tables, cr3, vpn)
      requires Present(PteOf(tables, cr3, vpn)) && (write ==> Writable(PteOf(tables, cr3, vpn)))
      modifies this
      ensures r.Some? && !Accessed(PteOf(tables, pd, vpn)) && !Accessed(PteOf(tables, cr3, vpn))
    {
      hide TablesOk, PagesOk, NoUserPages, Marks, TlbOk, Lookup, Space;
      PresentIsSomewhere(tables, cr3, vpn);
      AccessIsWalk(vpn, write, false);
      AccessCaches(vpn, write, false);
      r := Access(vpn, write, false);
      MarkAccessed(pd, vpn, false);
      r := CpuStep(vpn, write, false);
    }

    lemma LookupsKept(pd: Page, vpn: nat, e: bv32)
      requires Valid() && pd in dirs && vpn < ALL_PAGES && Lookup(tables, pd, vpn).At?
      ensures forall q, v :: q in dirs && 0 <= v < ALL_PAGES ==>
                Lookup(SetEntry(tables, Lookup(tables, pd, vpn), e), q, v) == Lookup(tables, q, v)
    {
      hide PagesOk, NoUserPages, Marks, TlbOk, Lookup, SetEntry;
      DirIn(tables, owner, dirs, pd);
      forall q, v | q in dirs && 0 <= v < ALL_PAGES
        ensures Lookup(SetEntry(tables, Lookup(tables, pd, vpn), e), q, v) == Lookup(tables, q, v)
      {
        DirIn(tables, owner, dirs, q);
        PteWritten(tables, owner, pd, vpn, e, q, v);
      }
    }

    // ----- creating, copying and destroying directories

    /** pagedir_create: a directory with the kernel's entries and no user pages. */
    method Create() returns (r: Option<Page>)
      requires Valid()
      modifies this`free, this`owner, this`tables, this`dirs
      ensures Valid() && SpacesSame() && (r.None? ==> dirs == old(dirs) && free == old(free) && owner == old(owner))
      ensures r.None? <==> forall x :: x in old(free) ==> x in userPool
      ensures r.None? <==> KernelPages(old(free), userPool) == 0
      ensures KernelPages(free, userPool) == KernelPages(old(free), userPool) - (if r.Some? then 1 else 0)
      ensures UserPages(free, userPool) == UserPages(old(free), userPool)
      ensures free <= old(free) && (r.Some? ==> TablesOf(tables, r.value) == {})
      ensures r.Some? ==> dirs == old(dirs) + {r.value} && r.value in old(free) && Space(tables, r.value) == map[]
      ensures r.Some? ==> owner == old(owner)[r.value := Dir] && tables == old(tables)[r.value := tables[r.value]]
      ensures r.Some? ==> r.value != initPd && r.value !in old(dirs) && tables[r.value] == tables[initPd]
    {
      hide TablesOk, PagesOk, NoUserPages, Marks, TlbOk, Space, KernelPages, UserPages, TablesOf;
      InitIsNotFree();
      r := GetPage(false);
      if r.Some? {
        CopyInit(r.value);
      }
    }

    lemma InitIsNotFree()
      requires Valid()
      ensures initPd !in free && initPd in tables && forall x :: x in free ==> x !in dirs
    {
      hide Marks, TlbOk, FramesOk;
      forall q | q in dirs
        ensures q !in free && q in tables
      {
        DirIn(tables, owner, dirs, q);
      }
    }

    method CopyInit(pd: Page)
      requires Valid() && pd in owner && owner[pd] == Other && pd !in dirs
      modifies this`owner, this`tables, this`dirs
      ensures Valid() && SpacesSame() && dirs == old(dirs) + {pd} && Space(tables, pd) == map[]
      ensures pd != initPd && initPd in tables && initPd in old(tables) && owner == old(owner)[pd := Dir]
      ensures tables == old(tables)[pd := tables[initPd]] && tables[pd] == tables[initPd] && TablesOf(tables, pd) == {}
    {
      hide TablesOk, NoUserPages, Marks, TlbOk, Space, FramesOk, PteOf, TablesOf;
      DirIn(tables, owner, dirs, initPd);
      DirIn(tables, owner, dirs, cr3);
      OtherIsPlain(pd);
      DirAdded(tables, owner, dirs, initPd, pd);
      ghost var tables', owner' := tables[pd := tables[initPd]], owner[pd := Dir];
      EmptySpace(tables', pd);
      NoTables(tables', pd);
      SameInit(tables, tables', initPd, pd);
      TableTlb(tables, tables', cr3, tlb);
      DirMarks(tables, owner, pd, tables[initPd], dirtied, accessed);
      forall q | q in dirs
        ensures Space(tables', q) == Space(tables, q)
      {
        DirIn(tables, owner, dirs, q);
        SameFrames(tables, tables', owner, owner', q);
      }
      tables := tables[pd := tables[initPd]];
      owner, dirs := owner[pd := Dir], dirs + {pd};
    }

    /** pagedir_duplicate, and pagedir_dup after pagedir_create. The new directory
        maps the same user pages with the same rights to frames of its own with
        equal contents; the source, every other directory and every page that
        was in use are unchanged. Without memory for a page table a copy is lost
        and the others are still made; the page taken for it stays allocated and
        is mapped nowhere. Without a page or a directory to copy to, the kernel
        panics at the first page to copy. None of this happens exactly when there
        are enough free pages: of the kernel one for the directory and one for
        each table, and of the user one for each page. */
    method Duplicate(src: Page) returns (r: Option<Page>, panic: bool, ghost lost: set<nat>, ghost leaked: set<Page>)
      requires Valid() && src in dirs
      modifies this`free, this`owner, this`tables, this`pages, this`dirs, this`dirtied, this`accessed
      ensures Valid() && forall q :: q in old(dirs) ==> q in dirs && Space(tables, q) == old(Space(tables, q))
      ensures r.Some? && !panic && lost == {}
              <==> KernelPages(old(free), userPool) >= 1 + |TablesFor(old(Space(tables, src)))|
                   && UserPages(old(free), userPool) >= |old(Space(tables, src))|
      ensures r.None? <==> KernelPages(old(free), userPool) == 0
      ensures r.None? ==> lost == {} && (panic <==> old(Space(tables, src)) != map[])
      ensures r.Some? ==> (panic <==> UserPages(old(free), userPool) < |old(Space(tables, src))|)
      ensures r.Some? ==> r.value in dirs && r.value !in old(dirs)
      ensures r.Some? && !panic ==> Copied(old(Space(tables, src)) - lost, Space(tables, r.value), pages, USER_PAGES)
      ensures r.Some? && !panic ==> UserFrames(tables, src) !! UserFrames(tables, r.value)
      ensures r.Some? && !panic ==>
                var kernel, needed := KernelPages(old(free), userPool) - 1, |TablesFor(old(Space(tables, src)))|;
                |TablesFor(Space(tables, r.value))| == if kernel < needed then kernel else needed
      ensures lost <= old(Space(tables, src)).Keys && LeakedOk(owner, old(free), lost, leaked)
      ensures lost != {} ==> forall x :: x in free ==> x in userPool
      ensures forall x :: x in leaked ==> !Mapped(x)
      ensures KeptInUse(old(owner), old(pages), owner, pages)
    {
      hide *;
      SelfInUse();
      ghost var was := Before(Space(tables, src), tables, owner, pages, free, dirs,
                              KernelPages(free, userPool) - 1, UserPages(free, userPool));
      r := Create();
      lost, leaked := {}, {};
      CopyStarts(was, src, r);
      for i := 0 to 768
        invariant CopyState(was, src, r, lost, leaked, 1024 * i)
      {
        AtTable(was, src, r, lost, leaked, i);
        var pde := tables[src][i];
        if Present(pde) {
          for k := 0 to 1024
            invariant CopyState(was, src, r, lost, leaked, 1024 * i + k) && TableAt(src, i, pde)
          {
            AtPage(was, src, r, lost, leaked, i, k, pde);
            var e := Entry(tables, At(PageIn(pde), k));
            if Present(e) {
              label Copying: panic, lost, leaked := CopyOne(src, r, 1024 * i + k, e, was, lost, leaked);
              if panic {
                Panicked(was, src, r, lost, leaked, 1024 * i + k);
                return;
              }
              StillTable@Copying(src, i, pde);
            } else {
              SkipPages(was, src, r, lost, leaked, 1024 * i + k, 1024 * i + k + 1);
            }
          }
        } else {
          SkipPages(was, src, r, lost, leaked, 1024 * i, 1024 * (i + 1));
        }
      }
      panic := false;
      CopyDone(was, src, r, lost, leaked);
    }

    /** A run that loses a copy: the source has one page, and one page of each
        pool is free. The copy is a directory without that page, both free pages
        are gone, and the one taken for the copy is mapped nowhere. */
    method LosesCopy(src: Page, ghost v: nat) returns (copy: Option<Page>, panic: bool, ghost leaked: set<Page>)
      requires Valid() && src in dirs && Space(tables, src).Keys == {v}
      requires KernelPages(free, userPool) == 1 && UserPages(free, userPool) == 1
      modifies this`free, this`owner, this`tables, this`pages, this`dirs, this`dirtied, this`accessed
      ensures copy.Some? && !panic && Valid() && Space(tables, copy.value) == map[]
      ensures |leaked| == 1 && leaked <= old(free) && forall x :: x in leaked ==>
                x in owner && owner[x] == Other && !Mapped(x)
    {
      hide *;
      OneTable(Space(tables, src), v);
      SpaceBelow(tables, src);
      ghost var space := Space(tables, src);
      ghost var lost;
      copy, panic, lost, leaked := Duplicate(src);
      NothingMade(space, Space(tables, copy.value), pages, lost, v);
      OneLost(owner, old(free), lost, leaked, v);
    }

    /** Pages below n have been copied, or their copies lost, and nothing else
        has changed. */
    ghost predicate CopyState(was: Before, src: Page, copy: Option<Page>, lost: set<nat>, leaked: set<Page>, n: nat)
      reads this
    {
      && Valid() && src in dirs && CopyMade(copy, src, was.dirs) && free <= was.free && src in was.dirs
      && was.space == Space(was.tables, src)
      && (forall q :: q in was.dirs ==> Space(tables, q) == Space(was.tables, q))
      && KeptInUse(was.owner, was.pages, owner, pages)
      && (copy.None? ==> was.kernel == -1 && lost == {} && leaked == {} && forall v :: v in was.space ==> v >= n)
      && (copy.Some? ==>
            was.kernel >= 0 && Progress(was, Space(tables, copy.value), TablesOf(tables, copy.value), owner, pages,
                                  lost, leaked, KernelPages(free, userPool), UserPages(free, userPool), n))
    }

    /** The copy, if there is one, is a new directory. */
    ghost predicate CopyMade(copy: Option<Page>, src: Page, dirs0: set<Page>)
      reads this
    {
      && dirs == dirs0 + (if copy.Some? then {copy.value} else {}) && src in dirs0
      && (copy.Some? ==> copy.value !in dirs0 && copy.value != initPd)
    }

    twostate lemma CopyStarts(new was: Before, new src: Page, new copy: Option<Page>)
      requires src in old(dirs) && Valid() && SpacesSame() && unchanged(`pages)
      requires KeptInUse(was.owner, was.pages, was.owner, was.pages)
      requires forall x :: x in was.free ==> x in was.owner && was.owner[x] == Free
      requires was == Before(old(Space(tables, src)), old(tables), old(owner), old(pages), old(free), old(dirs),
                             KernelPages(old(free), userPool) - 1, UserPages(old(free), userPool))
      requires copy.None? <==> KernelPages(old(free), userPool) == 0
      requires copy.None? ==> dirs == old(dirs) && free == old(free) && owner == old(owner)
      requires KernelPages(free, userPool) == KernelPages(old(free), userPool) - (if copy.Some? then 1 else 0)
      requires UserPages(free, userPool) == UserPages(old(free), userPool) && free <= old(free)
      requires copy.Some? ==>
                 dirs == old(dirs) + {copy.value} && copy.value in old(free) && copy.value != initPd
                     && copy.value !in old(dirs)
      requires copy.Some? ==>
                 owner == old(owner)[copy.value := Dir] && Space(tables, copy.value) == map[]
                     && TablesOf(tables, copy.value) == {}
      ensures CopyState(was, src, copy, {}, {}, 0)
    {
      hide TablesOk, PagesOk, NoUserPages, Marks, TlbOk, Space, TablesOf, KernelPages, UserPages, KeptInUse, Copied,
           Budget;
      assert was.space - {} == was.space;
      if copy.Some? { AfterCreate(was.owner, was.pages, owner, pages, copy.value); }
      NothingCopied(was.space, map[], pages);
      if copy.Some? { BudgetStarts(was); }
    }

    /** Table i of the source, whose entry is pde. */
    ghost predicate TableAt(src: Page, i: nat, pde: bv32)
      reads this
    {
      forall v :: 1024 * i <= v < 1024 * (i + 1) ==> Lookup(tables, src, v) == At(PageIn(pde), v - 1024 * i)
    }

    twostate lemma StillTable(new src: Page, i: nat, new pde: bv32)
      requires old(TableAt(src, i, pde)) && i < 768
      requires forall w :: 0 <= w < USER_PAGES && old(Lookup(tables, src, w)).At? ==>
                 Lookup(tables, src, w) == old(Lookup(tables, src, w))
      ensures TableAt(src, i, pde)
    {
      hide Lookup;
    }

    lemma AtTable(was: Before, src: Page, copy: Option<Page>, lost: set<nat>, leaked: set<Page>, i: nat)
      requires CopyState(was, src, copy, lost, leaked, 1024 * i) && i < 768
      ensures src in tables
      ensures if Present(tables[src][i]) then TableAt(src, i, tables[src][i])
              else forall v :: 1024 * i <= v < 1024 * (i + 1) ==> v !in was.space
    {
      hide TablesOk, PagesOk, NoUserPages, Marks, TlbOk, Space, Progress, KeptInUse, Lookup, TablesOf;
      DirEntries(src, i);
      if !Present(tables[src][i]) {
        NotPresent(src, i);
      }
    }

    lemma AtPage(was: Before, src: Page, copy: Option<Page>, lost: set<nat>, leaked: set<Page>, i: nat, k: nat,
                 pde: bv32)
      requires CopyState(was, src, copy, lost, leaked, 1024 * i + k) && i < 768 && k < 1024 && TableAt(src, i, pde)
      ensures var v := 1024 * i + k;
              v < USER_PAGES && Entry(tables, At(PageIn(pde), k)) == PteOf(tables, src, v)
              && (Present(PteOf(tables, src, v)) <==> v in was.space)
    {
      hide TablesOk, PagesOk, NoUserPages, Marks, TlbOk, Space, Progress, KeptInUse, Lookup, TablesOf;
      NotMapped(tables, src, 1024 * i + k);
    }

    lemma SkipPages(was: Before, src: Page, copy: Option<Page>, lost: set<nat>, leaked: set<Page>, n: nat, n': nat)
      requires CopyState(was, src, copy, lost, leaked, n) && n <= n' && forall v :: n <= v < n' ==> v !in was.space
      ensures CopyState(was, src, copy, lost, leaked, n')
    {
      hide TablesOk, PagesOk, NoUserPages, Marks, TlbOk, Space, KeptInUse, Lookup, TablesOf, Copied, Budget, LeakedOk;
      if copy.Some? {
        SkipCopied(was.space - lost, Space(tables, copy.value), pages, n, n');
        BudgetSkips(was, Space(tables, copy.value), TablesOf(tables, copy.value), lost, KernelPages(free, userPool),
            UserPages(free, userPool), n, n');
      }
    }

    /** Copies one page and maps the copy. */
    method CopyOne(src: Page, copy: Option<Page>, v: nat, e: bv32, ghost was: Before, ghost lost: set<nat>,
                   ghost leaked: set<Page>)
      returns (panic: bool, ghost lost': set<nat>, ghost leaked': set<Page>)
      requires CopyState(was, src, copy, lost, leaked, v) && v < USER_PAGES && e == PteOf(tables, src, v) && Present(e)
      modifies this`free, this`owner, this`tables, this`pages, this`dirtied, this`accessed
      ensures !panic ==> copy.Some? && CopyState(was, src, copy, lost', leaked', v + 1)
      ensures !panic ==>
                lost' == if PdNo(v) in old(TablesOf(tables, copy.value)) || KernelPages(old(free), userPool) > 0
                    then lost
                                  else lost + {v}
      ensures panic ==>
                v in was.space && lost' == lost && leaked' == leaked && CopyState(was, src, copy, lost, leaked, v)
      ensures panic <==> copy.None? || UserPages(old(free), userPool) == 0
      ensures panic && copy.Some? ==> UserPages(free, userPool) == 0
      ensures forall w :: 0 <= w < USER_PAGES && old(Lookup(tables, src, w)).At? ==>
                Lookup(tables, src, w) == old(Lookup(tables, src, w))
    {
      hide TablesOk, PagesOk, NoUserPages, Marks, TlbOk, Space, Lookup, Present, KeptInUse, Settled;
      hide Progress, UserPages, KernelPages, TablesOf;
      lost', leaked' := lost, leaked;
      NotMapped(tables, src, v);
      MappedFrame(src, v);
      SelfInUse();
      ghost var owner1, pages1 := owner, pages;
      var kpage := GetPage(true);
      if kpage.None? {
        return true, lost, leaked;
      }
      ghost var taken := kpage.value;
      NotInUse(was.owner, was.pages, owner1, pages1, taken);
      KeptStep(was.owner, was.pages, owner1, pages1, owner, pages, taken);
      if copy.None? {
        CopyData(kpage.value, PageIn(e), was.owner, was.pages);
        return true, lost, leaked;
      }
      PageTaken(was, Space(tables, copy.value), TablesOf(tables, copy.value), owner1, owner, pages, lost, leaked,
                KernelPages(free, userPool), UserPages(free, userPool), v, taken);
      panic := false;
      lost', leaked' := MapCopy(src, copy.value, v, e, kpage.value, was, lost, leaked);
    }

    /** Fills a new page and maps it. */
    method MapCopy(src: Page, pd: Page, v: nat, e: bv32, kpage: Page, ghost was: Before, ghost lost: set<nat>,
                   ghost leaked: set<Page>)
      returns (ghost lost': set<nat>, ghost leaked': set<Page>)
      requires Valid() && src in dirs && pd in dirs && src != pd && pd != initPd && v < USER_PAGES
      requires e == PteOf(tables, src, v) && Present(e) && Space(tables, src) == was.space && v in was.space
      requires was.space[v] == Mapping(PageIn(e), Writable(e)) && PageIn(e) in pages
      requires kpage in owner && owner[kpage] == Other && kpage in pages
               && (kpage in was.owner ==> was.owner[kpage] == Free)
      requires kpage in was.free && kpage !in leaked && KeptInUse(was.owner, was.pages, owner, pages)
      requires Progress(was, Space(tables, pd), TablesOf(tables, pd), owner, pages, lost, leaked,
                        KernelPages(free, userPool), UserPages(free, userPool) + 1, v)
      modifies this`free, this`owner, this`tables, this`pages, this`dirtied, this`accessed
      ensures Valid() && OthersSame(pd) && KeptInUse(was.owner, was.pages, owner, pages) && free <= old(free)
      ensures Progress(was, Space(tables, pd), TablesOf(tables, pd), owner, pages, lost', leaked',
                       KernelPages(free, userPool), UserPages(free, userPool), v + 1)
      ensures if PdNo(v) in old(TablesOf(tables, pd)) || KernelPages(old(free), userPool) > 0
              then lost' == lost && leaked' == leaked
              else lost' == lost + {v} && leaked' == leaked + {kpage}
      ensures forall w :: 0 <= w < USER_PAGES && old(Lookup(tables, src, w)).At? ==>
                Lookup(tables, src, w) == old(Lookup(tables, src, w))
    {
      hide TablesOk, PagesOk, NoUserPages, Marks, TlbOk, Space, Lookup, Present, KeptInUse, Settled;
      hide Copied, Budget, LeakedOk, UserPages, KernelPages, TablesOf, PteOf, PageIn, Writable, PdNo, Mapped, Aligned;
      lost', leaked' := lost, leaked;
      ghost var to, made, pages1 := Space(tables, pd), TablesOf(tables, pd), pages;
      ghost var kernel, user := KernelPages(free, userPool), UserPages(free, userPool);
      NotYet(was.space - lost, to, pages, v);
      CopiesElsewhere(pd, kpage, was.space, lost, v);
      CopyData(kpage, PageIn(e), was.owner, was.pages);
      StillCopied(was.space - lost, to, pages1, pages, v, kpage);
      ghost var owner2 := owner;
      var ok := MapPage(src, pd, v, kpage, Writable(e));
      KeptStep(was.owner, was.pages, owner2, pages, owner, pages, kpage);
      StillLeaked(was.free, lost, leaked, owner2, owner, kpage);
      BudgetIs(was, to, made, lost, kernel, user + 1, v);
      if ok {
        OneMore(was.space - lost, to, pages, v, kpage);
        BudgetMapped(was, to, Space(tables, pd), made, TablesOf(tables, pd), lost, kernel, KernelPages(free, userPool),
                     user, v);
      } else {
        LosePage(was.space, lost, to, pages, v);
        BudgetLost(was, to, made, lost, kernel, user, v);
        OneLeaked(was.free, lost, leaked, owner, kpage, v);
        lost', leaked' := lost + {v}, leaked + {kpage};
      }
    }

    /** SetPage for a new page, as far as copying needs it. */
    method MapPage(src: Page, pd: Page, v: nat, page: Page, writable: bool) returns (ok: bool)
      requires Valid() && src in dirs && pd in dirs && src != pd && pd != initPd && v < USER_PAGES
      requires v !in Space(tables, pd) && page in owner && owner[page] == Other
      modifies this`free, this`tables, this`owner, this`dirtied, this`accessed
      ensures Valid() && OthersSame(pd) && free <= old(free)
      ensures ok <==> PdNo(v) in old(TablesOf(tables, pd)) || KernelPages(old(free), userPool) > 0
      ensures Space(tables, pd) == if ok then old(Space(tables, pd))[v := Mapping(page, writable)]
              else old(Space(tables, pd))
      ensures TablesOf(tables, pd) == old(TablesOf(tables, pd)) + (if ok then {PdNo(v)} else {})
      ensures KernelPages(free, userPool) + |TablesOf(tables, pd)|
              == old(KernelPages(free, userPool) + |TablesOf(tables, pd)|)
      ensures UserPages(free, userPool) == old(UserPages(free, userPool))
      ensures !ok ==> free == old(free) && owner == old(owner)
      ensures forall x :: x in old(owner) && old(owner)[x] != Free && x != page ==>
                x in owner && owner[x] == old(owner)[x]
      ensures forall w :: 0 <= w < USER_PAGES && old(Lookup(tables, src, w)).At? ==>
                Lookup(tables, src, w) == old(Lookup(tables, src, w))
    {
      hide TablesOk, PagesOk, NoUserPages, Marks, TlbOk, Space, Lookup, Present, Settled, UserPages, KernelPages,
           TablesOf;
      ghost var tables2, dirtied2, accessed2 := tables, dirtied, accessed;
      ok := SetPage(pd, v, page, writable);
      forall w | 0 <= w < USER_PAGES && Lookup(tables2, src, w).At?
        ensures Lookup(tables, src, w) == Lookup(tables2, src, w)
      {
        assert Kept(tables2, dirtied2, accessed2, tables, dirtied, accessed, src, w);
      }
    }

    /** What a panic means. */
    lemma Panicked(was: Before, src: Page, copy: Option<Page>, lost: set<nat>, leaked: set<Page>, v: nat)
      requires CopyState(was, src, copy, lost, leaked, v) && v in was.space
      requires copy.Some? ==> UserPages(free, userPool) == 0
      ensures Valid() && was.dirs <= dirs && KeptInUse(was.owner, was.pages, owner, pages)
      ensures copy.Some? ==> copy.value in dirs && copy.value !in was.dirs
      ensures forall q :: q in was.dirs ==> Space(tables, q) == Space(was.tables, q)
      ensures if copy.Some? then was.kernel >= 0 && was.user < |was.space| else was.kernel == -1 && lost == {}
      ensures lost <= was.space.Keys && LeakedOk(owner, was.free, lost, leaked) && was.space != map[]
      ensures lost != {} ==> forall x :: x in free ==> x in userPool
      ensures forall x :: x in leaked ==> !Mapped(x)
    {
      hide TablesOk, PagesOk, NoUserPages, Marks, TlbOk, Space, Lookup, KeptInUse, Settled, Copied, Budget, UserPages,
           KernelPages, Mapped;
      NoneLeft(free, userPool);
      if copy.Some? {
        BudgetPanics(was, Space(tables, copy.value), TablesOf(tables, copy.value), lost, KernelPages(free, userPool),
            v);
      }
      LeakedUnmapped(was.free, lost, leaked);
    }

    /** The end of a copy without panic. */
    lemma CopyDone(was: Before, src: Page, copy: Option<Page>, lost: set<nat>, leaked: set<Page>)
      requires CopyState(was, src, copy, lost, leaked, 1024 * 768)
      ensures Valid() && was.dirs <= dirs && KeptInUse(was.owner, was.pages, owner, pages)
      ensures copy.Some? ==> copy.value in dirs && copy.value !in was.dirs
      ensures forall q :: q in was.dirs ==> Space(tables, q) == Space(was.tables, q)
      ensures copy.None? ==> was.kernel == -1 && was.space == map[] && lost == {}
      ensures copy.Some? ==>
                && was.kernel >= 0 && was.user >= |was.space|
                && Copied(was.space - lost, Space(tables, copy.value), pages, USER_PAGES)
                && UserFrames(tables, src) !! UserFrames(tables, copy.value)
                && (lost == {} <==> was.kernel >= |TablesFor(was.space)|)
                && |TablesFor(Space(tables, copy.value))| == if was.kernel < |TablesFor(was.space)| then was.kernel
                    else |TablesFor(was.space)|
      ensures lost <= was.space.Keys && LeakedOk(owner, was.free, lost, leaked)
      ensures lost != {} ==> forall x :: x in free ==> x in userPool
      ensures forall x :: x in leaked ==> !Mapped(x)
    {
      hide TablesOk, PagesOk, NoUserPages, Marks, TlbOk, Space, Lookup, KeptInUse, Settled, Copied, Budget, UserPages,
           KernelPages, Mapped;
      hide TablesFor, UserFrames;
      NoneLeft(free, userPool);
      SpaceBelow(was.tables, src);
      if copy.Some? {
        FramesApart(src, copy.value);
        BudgetEnds(was, Space(tables, copy.value), TablesOf(tables, copy.value), pages, lost,
            KernelPages(free, userPool), UserPages(free, userPool));
      }
      LeakedUnmapped(was.free, lost, leaked);
    }

    /** A page in some other use is mapped nowhere. */
    lemma LeakedUnmapped(free0: set<Page>, lost: set<nat>, leaked: set<Page>)
      requires Valid() && (leaked == {} || LeakedOk(owner, free0, lost, leaked))
      ensures forall x :: x in leaked ==> !Mapped(x)
    {
      hide TablesOk, PagesOk, NoUserPages, Marks, TlbOk, Mapped;
      forall x | x in leaked
        ensures !Mapped(x)
      {
        MappedIsInUse(x);
      }
    }

    /** memcpy from one page to another. */
    method CopyData(dst: Page, src: Page, ghost owner0: Owners, ghost pages0: map<Page, Data>)
      requires Valid() && dst in pages && src in pages && KeptInUse(owner0, pages0, owner, pages)
      requires dst in owner0 ==> owner0[dst] == Free
      modifies this`pages
      ensures Valid() && pages == old(pages)[dst := old(pages)[src]] && KeptInUse(owner0, pages0, owner, pages)
    {
      hide TablesOk, NoUserPages, Marks, TlbOk;
      pages := pages[dst := pages[src]];
    }

    /** pagedir_destroy: frees each user page, each user page table and the
        directory, all of them once and nothing else. Nothing is wrong with
        that exactly when the directory is not active. */
    method Destroy(pd: Page)
      requires Valid() && pd in dirs && pd != initPd
      modifies this`free, this`owner, this`tables, this`pages, this`dirs
      ensures Settled() && dirs == old(dirs) - {pd} && OthersSame(pd)
      ensures Valid() <==> pd != cr3
      ensures free == old(free) + UserFrames(old(tables), pd) + UserTables(old(tables), pd) + {pd}
      ensures old(free) !! UserFrames(old(tables), pd) + UserTables(old(tables), pd) + {pd}
      ensures UserFrames(old(tables), pd) !! UserTables(old(tables), pd)
      ensures pd !in UserFrames(old(tables), pd) + UserTables(old(tables), pd)
      ensures forall x :: x in owner && x !in free ==> x in old(owner) && owner[x] == old(owner)[x]
      ensures forall x :: x in owner && x !in free ==> x in pages && x in old(pages) && pages[x] == old(pages)[x]
    {
      hide Valid, Settled, TablesOk, GoneOk, PteOf, UserFrames, UserTables, Present, PageIn, Space, Freed, FreeAll;
      ghost var tables0, owner0, free0, pages0 := tables, owner, free, pages;
      ghost var gone: set<Page> := {};
      StartDestroy(pd);
      for i := 0 to 768
        invariant dirs == old(dirs) && GoneOk(tables0, owner0, pd, gone, 1024 * i, i)
                  && Freed(tables0, owner0, free0, pages0, gone, pd)
      {
        StillThere(tables0, owner0, free0, pages0, pd, gone, 1024 * i, i);
        var pde := tables[pd][i];
        if Present(pde) {
          gone := FreeTablePages(PageIn(pde), i, tables0, owner0, free0, pages0, gone, pd);
          GoneTable(tables0, owner0, pd, gone, 1024 * (i + 1), i);
          gone := FreeOne(PageIn(pde), tables0, owner0, free0, pages0, gone, pd);
        } else {
          GoneNothing(tables0, owner0, pd, gone, i);
        }
      }
      FreedIs(tables0, owner0, free0, pages0, gone, pd);
      FreePage(pd);
      dirs := dirs - {pd};
      GoneAll(tables0, owner0, pd, gone);
      KindsApart(tables0, owner0, pd);
      AllFreed(tables0, owner0, gone, pd);
      Destroyed(pd);
    }

    /** Frees the pages that table i maps. */
    method FreeTablePages(pt: Page, ghost i: nat, ghost tables0: Tables, ghost owner0: Owners, ghost free0: set<Page>,
                          ghost pages0: map<Page, Data>, ghost gone0: set<Page>, ghost pd: Page)
      returns (ghost gone: set<Page>)
      requires i < 768 && GoneOk(tables0, owner0, pd, gone0, 1024 * i, i)
               && Freed(tables0, owner0, free0, pages0, gone0, pd)
      requires pd in tables0 && tables0[pd][i] != 0 && pt == PageIn(tables0[pd][i])
      modifies this`free, this`owner, this`tables, this`pages
      ensures GoneOk(tables0, owner0, pd, gone, 1024 * (i + 1), i) && Freed(tables0, owner0, free0, pages0, gone, pd)
    {
      hide GoneOk, PteOf, Present, PageIn, Freed, FreeAll;
      gone := gone0;
      for k := 0 to 1024
        invariant GoneOk(tables0, owner0, pd, gone, 1024 * i + k, i) && Freed(tables0, owner0, free0, pages0, gone, pd)
      {
        StillThere(tables0, owner0, free0, pages0, pd, gone, 1024 * i + k, i);
        WalkIs(tables0, pd, i, k);
        var e := Entry(tables, At(pt, k));
        GoneFrame(tables0, owner0, pd, gone, 1024 * i + k, i);
        if Present(e) {
          gone := FreeOne(PageIn(e), tables0, owner0, free0, pages0, gone, pd);
        }
      }
    }

    /** Exactly the pages of gone have been freed so far. */
    ghost predicate Freed(tables0: Tables, owner0: Owners, free0: set<Page>, pages0: map<Page, Data>, gone: set<Page>,
                          pd: Page)
      reads this
    {
      && tables == tables0 - gone && owner == FreeAll(owner0, gone) && free == free0 + gone && free0 !! gone
      && gone <= owner0.Keys && pages.Keys == pages0.Keys && pd in owner0 && owner0[pd] == Dir
          && (forall x :: x in pages0 && x !in gone ==> pages[x] == pages0[x])
      && (forall x :: x in owner0 ==> x in pages0 && (owner0[x] == Free <==> x in free0))
      && DirOk(tables0, owner0, pd) && FramesOk(tables0, owner0, pd) && pd !in gone
    }

    method FreeOne(p: Page, ghost tables0: Tables, ghost owner0: Owners, ghost free0: set<Page>,
                   ghost pages0: map<Page, Data>, ghost gone: set<Page>, ghost pd: Page)
      returns (ghost gone': set<Page>)
      requires Freed(tables0, owner0, free0, pages0, gone, pd) && p in owner0 && owner0[p] != Free && p !in gone
               && p != pd
      modifies this`free, this`owner, this`tables, this`pages
      ensures gone' == gone + {p} && Freed(tables0, owner0, free0, pages0, gone', pd)
    {
      hide DirOk, FramesOk;
      FreePage(p);
      gone' := gone + {p};
      assert free0 + gone + {p} == free0 + gone';
    }

    lemma StartDestroy(pd: Page)
      requires Valid() && pd in dirs
      ensures GoneOk(tables, owner, pd, {}, 0, 0) && Freed(tables, owner, free, pages, {}, pd)
      ensures pd in owner && owner[pd] == Dir
    {
      hide Marks, TlbOk, NoUserPages;
      DirIn(tables, owner, dirs, pd);
      assert tables - {} == tables && FreeAll(owner, {}) == owner && free + {} == free;
    }

    /** The next table to look at has not been freed. */
    lemma StillThere(tables0: Tables, owner0: Owners, free0: set<Page>, pages0: map<Page, Data>, pd: Page,
                     gone: set<Page>, n: nat, i: nat)
      requires GoneOk(tables0, owner0, pd, gone, n, i) && Freed(tables0, owner0, free0, pages0, gone, pd) && i < 768
      ensures pd in tables0 && DirOk(tables0, owner0, pd) && FramesOk(tables0, owner0, pd)
      ensures pd in tables && tables[pd] == tables0[pd]
      ensures Present(tables0[pd][i]) <==> tables0[pd][i] != 0
      ensures tables0[pd][i] != 0 ==> var pt := PageIn(tables0[pd][i]);
                pt in tables0 && pt in tables && tables[pt] == tables0[pt] && pt in owner0 && owner0[pt] == Tab(pd, i)
    {
      hide PteOf;
      ZeroEntry();
      GoneTable(tables0, owner0, pd, gone, n, i);
      assert PdeOk(tables0, owner0, pd, i);
    }

    lemma FreedIs(tables0: Tables, owner0: Owners, free0: set<Page>, pages0: map<Page, Data>, gone: set<Page>, pd: Page)
      requires Freed(tables0, owner0, free0, pages0, gone, pd)
      ensures tables == tables0 - gone && owner == FreeAll(owner0, gone) && free == free0 + gone && free0 !! gone
      ensures pages.Keys == pages0.Keys && (forall x :: x in pages0 && x !in gone ==> pages[x] == pages0[x])
      ensures pd in owner0 && pd in tables0 && pd in pages && pd !in free && pd in owner && pd !in free0
      ensures DirOk(tables0, owner0, pd) && FramesOk(tables0, owner0, pd)
      ensures forall x :: x in owner0 ==> x in pages0 && (owner0[x] == Free <==> x in free0)
    {
    }

    twostate lemma Destroyed(pd: Page)
      requires old(Valid()) && pd in old(dirs) && pd != initPd
      requires tables == old(tables) - (UsedBy(old(tables), pd) + {pd})
               && owner == FreeAll(old(owner), UsedBy(old(tables), pd) + {pd})
      requires free == old(free) + UsedBy(old(tables), pd) + {pd} && dirs == old(dirs) - {pd}
               && pages.Keys == old(pages.Keys)
      requires unchanged(`cr3) && unchanged(`tlb) && unchanged(`dirtied) && unchanged(`accessed)
      requires GoneOk(old(tables), old(owner), pd, UsedBy(old(tables), pd), USER_PAGES, 768)
      ensures Settled() && (Valid() <==> pd != cr3) && OthersSame(pd)
    {
      hide TablesOk, PagesOk, NoUserPages, Marks, TlbOk, GoneOk, PteOf, Lookup, Space, UsedBy;
      var gone := UsedBy(old(tables), pd);
      DirIn(old(tables), old(owner), old(dirs), pd);
      DirDropped(old(tables), old(owner), old(dirs), pd, gone, USER_PAGES, 768);
      DroppedPages(old(tables), old(owner), old(pages), pages, old(free), pd, gone, USER_PAGES, 768);
      DroppedMarks(old(tables), old(owner), old(dirtied), old(accessed), gone + {pd});
      if pd != cr3 { TableTlb(old(tables), tables, cr3, tlb); }
      DroppedInit(old(tables), tables, old(owner), owner, old(dirs), initPd, pd, gone, USER_PAGES, 768);
      forall q | q in dirs
        ensures Space(tables, q) == old(Space(tables, q))
      {
        SameSpace(old(tables), tables, q);
      }
    }

    /** The end of process_exit: the kernel's directory is activated before the
        process's own is destroyed, as Destroy needs. */
    method ProcessExit(pagedir: Option<Page>)
      requires Valid() && (pagedir.Some? ==> pagedir.value in dirs && pagedir.value != initPd)
      modifies this`cr3, this`tlb, this`free, this`owner, this`tables, this`pages, this`dirs
      ensures Valid() && dirs == if pagedir.Some? then old(dirs) - {pagedir.value} else old(dirs)
      ensures pagedir.Some? ==> cr3 == initPd && OthersSame(pagedir.value)
      ensures pagedir.Some? ==>
                free == old(free) + UserFrames(old(tables), pagedir.value) + UserTables(old(tables), pagedir.value)
                    + {pagedir.value}
    {
      hide Valid, Settled, UserFrames, UserTables, Space;
      if pagedir.Some? {
        InitIn();
        Activate(None);
        Destroy(pagedir.value);
      }
    }

    lemma InitIn()
      requires Valid()
      ensures initPd in dirs
    {
    }

    /** Fills a page that is in no address space. */
    method FillPage(p: Page, data: Data)
      requires Valid() && p in owner && owner[p] == Other
      modifies this`pages
      ensures Valid() && pages == old(pages)[p := data]
    {
      hide TablesOk, NoUserPages, Marks, TlbOk;
      pages := pages[p := data];
    }

    /** Frees a page that is in no address space. */
    method FreeOther(p: Page)
      requires Valid() && p in owner && owner[p] == Other
      modifies this`free, this`owner, this`tables, this`pages
      ensures Valid() && SpacesSame() && free == old(free) + {p} && owner == old(owner)[p := Free]
      ensures tables == old(tables) && pages == old(pages)[p := Cleared()]
    {
      hide TablesOk, NoUserPages, Marks, TlbOk;
      OtherIsPlain(p);
      OtherToFree(p);
      assert tables - {p} == tables;
      FreePage(p);
    }

    lemma OtherToFree(p: Page)
      requires Valid() && p in owner && owner[p] == Other
      ensures TablesOk(tables, owner[p := Free], dirs) && Marks(tables, owner[p := Free], dirtied, accessed)
    {
      hide DirOk, NoUserPages, TlbOk;
      var owner' := owner[p := Free];
      forall q | q in dirs
        ensures DirOk(tables, owner', q) && FramesOk(tables, owner', q)
      {
        DirIn(tables, owner, dirs, q);
        SameDir(tables, owner, owner', q);
        SameFrames(tables, tables, owner, owner', q);
      }
      forall s: Slot | s.At? && s.k < 1024 && IsTable(owner', s.pt)
        ensures MarkOk(tables, s, dirtied, accessed)
      {
        assert IsTable(owner, s.pt);
      }
    }

    lemma SelfInUse()
      requires Valid()
      ensures forall x :: x in owner ==> x in pages
      ensures KeptInUse(owner, pages, owner, pages)
      ensures forall x :: x in free ==> x in owner && owner[x] == Free
    {
    }

    lemma DirEntries(src: Page, i: nat)
      requires Valid() && src in dirs && i < 768
      ensures src in tables
      ensures Present(tables[src][i]) ==>
                forall v :: 1024 * i <= v < 1024 * (i + 1) ==>
                      Lookup(tables, src, v) == At(PageIn(tables[src][i]), v - 1024 * i)
    {
      hide Marks, TlbOk, NoUserPages, FramesOk;
      DirIn(tables, owner, dirs, src);
      ZeroEntry();
      forall v | 1024 * i <= v < 1024 * (i + 1)
        ensures PdNo(v) == i && PtNo(v) == v - 1024 * i
      {
      }
    }

    lemma NotPresent(src: Page, i: nat)
      requires Valid() && src in dirs && i < 768 && src in tables && !Present(tables[src][i])
      ensures forall v :: 1024 * i <= v < 1024 * (i + 1) ==> v !in Space(tables, src)
    {
      hide Marks, TlbOk, NoUserPages, FramesOk;
      DirIn(tables, owner, dirs, src);
      assert PdeOk(tables, owner, src, i);
      ZeroEntry();
      forall v | 1024 * i <= v < 1024 * (i + 1)
        ensures PdNo(v) == i
      {
      }
    }

    /** The frames of two directories are different. */
    lemma FramesApart(src: Page, pd: Page)
      requires Valid() && src in dirs && pd in dirs && src != pd
      ensures UserFrames(tables, src) !! UserFrames(tables, pd)
    {
      hide Marks, TlbOk, NoUserPages, PagesOk, PteOf;
      forall v, w | v in Space(tables, src) && w in Space(tables, pd)
        ensures Space(tables, src)[v].frame != Space(tables, pd)[w].frame
      {
        DirIn(tables, owner, dirs, src);
        DirIn(tables, owner, dirs, pd);
        assert FrameOk(tables, owner, src, v) && FrameOk(tables, owner, pd, w);
      }
    }

    lemma FramesInUse(pd: Page)
      requires Valid() && pd in dirs
      ensures forall v :: v in Space(tables, pd) ==>
                Space(tables, pd)[v].frame in owner && owner[Space(tables, pd)[v].frame] == Frame(pd, v)
    {
      hide Marks, TlbOk, NoUserPages, PagesOk, PteOf;
      DirIn(tables, owner, dirs, pd);
      forall v | v in Space(tables, pd)
        ensures Space(tables, pd)[v].frame in owner && owner[Space(tables, pd)[v].frame] == Frame(pd, v)
      {
        assert FrameOk(tables, owner, pd, v);
      }
    }

    /** A page in no use yet is no frame of a directory. */
    lemma CopiesElsewhere(pd: Page, p: Page, space: map<nat, Mapping>, lost: set<nat>, n: nat)
      requires Valid() && pd in dirs && p in owner && owner[p] == Other
      requires exists src :: src in dirs && Space(tables, src) == space
      requires Copied(space - lost, Space(tables, pd), pages, n)
      ensures forall v :: v in Space(tables, pd) ==>
                v in space - lost && Space(tables, pd)[v].frame != p && space[v].frame != p
      ensures forall v :: v in space ==> space[v].frame != p
    {
      hide Marks, TlbOk, NoUserPages, PagesOk, PteOf;
      var src :| src in dirs && Space(tables, src) == space;
      DirIn(tables, owner, dirs, src);
      DirIn(tables, owner, dirs, pd);
      forall v | v in space
        ensures space[v].frame != p
      {
        assert FrameOk(tables, owner, src, v);
      }
      forall v | v in Space(tables, pd)
        ensures Space(tables, pd)[v].frame != p
      {
        assert FrameOk(tables, owner, pd, v);
      }
    }

    lemma FlagsFrame(pd: Page, vpn: nat, e: bv32)
      requires Valid() && pd in dirs && vpn < ALL_PAGES && SameRights(PteOf(tables, pd, vpn), e)
      ensures Present(e) ==> EntryFits(owner, pd, vpn, e)
    {
      hide Marks, TlbOk, PagesOk, NoUserPages, DirOk;
      DirIn(tables, owner, dirs, pd);
      assert FrameOk(tables, owner, pd, vpn);
    }

    lemma InitUntouched(s: Slot, e: bv32)
      requires Valid() && s.At? && IsTable(owner, s.pt)
      ensures NoUserPages(SetEntry(tables, s, e), initPd)
    {
      hide Marks, TlbOk, PagesOk;
      DirIn(tables, owner, dirs, initPd);
    }
  }
}
