/** Loading an ELF segment into a process's address space (process.c). */
module Loader {
  import opened Arithmetic
  import opened Bytes
  import opened Bitmap
  import opened Inode
  import opened Pte
  import opened PageTable
  import opened Mmu

  /** The fields of a program header that matter for loading. */
  datatype Phdr = Phdr(offset: U32, vaddr: U32, filesz: U32, memsz: U32)

  // PHYS_BASE is 0xc0000000.

  /** validate_segment, for a file of the given length. */
  predicate ValidSegment(p: Phdr, fileLength: OffT)
    requires fileLength >= 0
  {
    && p.offset % 4096 == p.vaddr % 4096
    && p.offset <= fileLength
    && p.memsz >= p.filesz
    && p.memsz != 0
    && p.vaddr < 0xc000_0000
    && ToU32(p.vaddr + p.memsz) < 0xc000_0000
    && ToU32(p.vaddr + p.memsz) >= p.vaddr
    && p.vaddr >= 4096
  }

  /** What a segment must be, over the integers: its place in the file and in
      memory have the same page offset, it begins inside the file, it is not
      empty and not larger in the file than in memory, and it lies in user space
      beyond page 0 and ends before PHYS_BASE. */
  predicate Acceptable(p: Phdr, fileLength: int) {
    && p.offset % 4096 == p.vaddr % 4096
    && p.offset <= fileLength
    && 0 < p.memsz && p.filesz <= p.memsz
    && 4096 <= p.vaddr && p.vaddr + p.memsz < 0xc000_0000
  }

  /** The source's tests, some of them in wrapping arithmetic, accept exactly
      such segments. */
  lemma ValidExactly(p: Phdr, fileLength: OffT)
    requires fileLength >= 0
    ensures ValidSegment(p, fileLength) <==> Acceptable(p, fileLength)
  {
    var sum: nat := p.vaddr + p.memsz;
    assert sum >= 0x1_0000_0000 ==> ToU32(sum) == sum - 0x1_0000_0000;
    assert sum < 0x1_0000_0000 ==> ToU32(sum) == sum;
  }

  function RoundUp(x: U32): U32 {
    ToU32(x + 4095) / 4096 * 4096
  }

  /** What load computes from a PT_LOAD header, in unsigned 32-bit arithmetic. */
  datatype Plan = Plan(filePage: U32, memPage: U32, readBytes: U32, zeroBytes: U32)

  function SegmentPlan(p: Phdr): Plan {
    var pageOffset := p.vaddr % 4096;
    var readBytes := if p.filesz > 0 then ToU32(pageOffset + p.filesz) else 0;
    Plan(p.offset - p.offset % 4096, p.vaddr - pageOffset, readBytes,
        ToU32(RoundUp(ToU32(pageOffset + p.memsz)) - readBytes))
  }

  /** For a valid segment no counter wraps and load_segment's assertions hold:
      whole pages, in user space but not page 0, that cover the segment; and
      the file's bytes end up at the segment's addresses. */
  lemma PlanFits(p: Phdr, fileLength: OffT)
    requires fileLength >= 0 && ValidSegment(p, fileLength)
    ensures var plan := SegmentPlan(p); var total := plan.readBytes + plan.zeroBytes;
            && p.memsz > 0 && total % 4096 == 0 && plan.memPage % 4096 == 0 && plan.filePage % 4096 == 0
                && plan.filePage < 0x8000_0000
            && 4096 <= plan.memPage <= p.vaddr < plan.memPage + 4096 && plan.memPage + total <= 0xc000_0000
            && p.vaddr + p.memsz <= plan.memPage + total < p.vaddr + p.memsz + 4096
            && plan.filePage + (p.vaddr - plan.memPage) == p.offset
            && (if p.filesz > 0 then plan.memPage + plan.readBytes == p.vaddr + p.filesz else plan.readBytes == 0)
  {
    NoWrap(p.vaddr, p.memsz);
    PageStart(p.vaddr);
    PageStart(p.offset);
    var pageOffset := p.vaddr % 4096;
    RoundsUp(pageOffset + p.memsz);
    WholePages(p.vaddr - pageOffset, RoundUp(pageOffset + p.memsz), p.vaddr + p.memsz);
  }

  lemma NoWrap(vaddr: U32, memsz: U32)
    requires ToU32(vaddr + memsz) < 0xc000_0000 && ToU32(vaddr + memsz) >= vaddr && memsz != 0
    ensures vaddr + memsz < 0xc000_0000
  {
    var sum: nat := vaddr + memsz;
    assert sum >= 0x1_0000_0000 ==> ToU32(sum) == sum - 0x1_0000_0000;
  }

  lemma PageStart(x: nat)
    ensures (x - x % 4096) % 4096 == 0 && 0 <= x - x % 4096 <= x < x - x % 4096 + 4096
  {
  }

  lemma RoundsUp(x: nat)
    requires x + 4095 < 0x1_0000_0000
    ensures RoundUp(x) % 4096 == 0 && x <= RoundUp(x) < x + 4096
  {
    var y: nat := x + 4095;
    assert ToU32(y) == y;
    hide ToU32;
    UpToPage(y);
  }

  lemma UpToPage(y: nat)
    ensures y / 4096 * 4096 % 4096 == 0 && y - 4096 < y / 4096 * 4096 <= y
  {
  }

  /** A page-aligned end above an address below PHYS_BASE is not above it. */
  lemma WholePages(start: nat, size: nat, end: nat)
    requires start % 4096 == 0 && size % 4096 == 0 && end < 0xc000_0000 && end <= start + size < end + 4096
    ensures start + size <= 0xc000_0000
  {
    assert (start + size) % 4096 == 0;
  }

  // ----- load_segment

  /** Byte t of the segment in memory: the file's from ofs on, then zeros. */
  function SegmentByte(file: seq<byte>, ofs: nat, readBytes: nat, t: nat): byte {
    if t < readBytes && ofs + t < |file| then file[ofs + t] else 0
  }

  function SegmentPage(file: seq<byte>, ofs: nat, readBytes: nat, k: nat): (data: seq<byte>)
    ensures |data| == 4096
  {
    seq<byte>(4096, b requires 0 <= b => SegmentByte(file, ofs, readBytes, 4096 * k + b))
  }

  /** The pages from base on are mapped as the first n of the segment; nothing
      else of the address space has changed. */
  ghost predicate Loaded(before: map<nat, Mapping>, after: map<nat, Mapping>, pages: map<Page, Data>, base: nat, n: nat,
                         file: seq<byte>, ofs: nat, readBytes: nat, writable: bool) {
    && (forall v :: v in after <==> v in before || base <= v < base + n)
    && (forall v :: base <= v < base + n ==> v !in before)
    && (forall v :: v in before ==> v in after && after[v] == before[v])
    && (forall v :: base <= v < base + n && v in after ==>
          after[v].writable == writable
              && PageHolds(pages, after[v].frame, SegmentPage(file, ofs, readBytes, v - base)))
  }

  ghost predicate PageHolds(pages: map<Page, Data>, frame: Page, data: seq<byte>) {
    frame in pages && pages[frame] == data
  }

  /** The page tables that n pages from base on lie in. */
  ghost function TablesIn(base: nat, n: int): set<nat> {
    set v | base <= v < base + n :: PdNo(v)
  }

  /** install_page fails exactly when the page is mapped already or there is
      neither a page table for it nor memory for one. */
  method InstallPage(mmu: Mmu, pd: Page, vpn: nat, kpage: Page, writable: bool) returns (success: bool)
    requires mmu.Valid() && pd in mmu.dirs && pd != mmu.initPd && vpn < USER_PAGES && kpage in mmu.owner
             && mmu.owner[kpage] == Other
    modifies mmu`free, mmu`tables, mmu`owner, mmu`dirtied, mmu`accessed
    ensures mmu.Valid() && KeptBut(old(mmu.owner), mmu.owner, kpage)
    ensures forall q :: q in mmu.dirs && q != pd ==> Space(mmu.tables, q) == old(Space(mmu.tables, q))
    ensures success ==>
              vpn !in old(Space(mmu.tables, pd))
                  && Space(mmu.tables, pd) == old(Space(mmu.tables, pd))[vpn := Mapping(kpage, writable)]
    ensures !success ==>
              Space(mmu.tables, pd) == old(Space(mmu.tables, pd)) && kpage in mmu.owner && mmu.owner[kpage] == Other
    ensures success
            <==> vpn !in old(Space(mmu.tables, pd)) && CanMap(old(mmu.tables), pd, vpn, old(mmu.free), mmu.userPool)
    ensures Counted(old(mmu.free), old(mmu.tables), mmu.free, mmu.tables, mmu.userPool, pd, if success then {PdNo(vpn)}
            else {}, 0)
    ensures !success ==> mmu.free == old(mmu.free)
  {
    hide KernelPages, UserPages, TablesOf, Space, TablesOk, PagesOk, NoUserPages, Marks, TlbOk, Lookup;
    var mapped := mmu.GetUserPage(pd, vpn);
    if mapped.Some? {
      return false;
    }
    success := mmu.SetPage(pd, vpn, kpage, writable);
  }

  /** There is a page table for a page, or memory for one. */
  predicate CanMap(tables: Tables, pd: Page, vpn: nat, free: set<Page>, userPool: set<Page>) {
    PdNo(vpn) in TablesOf(tables, pd) || KernelPages(free, userPool) > 0
  }

  /** The directory has these tables in addition, for a kernel page each that it
      did not have, and used user pages have been taken. */
  ghost predicate Counted(free: set<Page>, tables: Tables, free': set<Page>, tables': Tables, userPool: set<Page>,
                          pd: Page, added: set<nat>, used: nat) {
    && TablesOf(tables', pd) == TablesOf(tables, pd) + added
    && KernelPages(free', userPool) + |TablesOf(tables', pd)| == KernelPages(free, userPool) + |TablesOf(tables, pd)|
    && UserPages(free', userPool) + used == UserPages(free, userPool)
  }

  /** Pages in use, but for one, keep their use. */
  ghost predicate KeptBut(owner: Owners, owner': Owners, p: Page) {
    forall x :: x in owner && owner[x] != Free && x != p ==> x in owner' && owner'[x] == owner[x]
  }

  /** One round of load_segment: a page of memory gets the next pageRead bytes
      of the file and zeros, and is mapped. */
  method LoadPage(mmu: Mmu, pd: Page, vpn: nat, file: seq<byte>, pos: OffT, pageRead: nat, writable: bool)
    returns (success: bool, ghost frame: Page)
    requires mmu.Valid() && pd in mmu.dirs && pd != mmu.initPd && vpn < USER_PAGES && pageRead <= 4096
    requires pos >= 0 && |file| < 0x8000_0000
    modifies mmu`free, mmu`owner, mmu`tables, mmu`pages, mmu`dirtied, mmu`accessed
    ensures mmu.Valid() && forall q :: q in mmu.dirs && q != pd ==> Space(mmu.tables, q) == old(Space(mmu.tables, q))
    ensures KeptInUse(old(mmu.owner), old(mmu.pages), mmu.owner, mmu.pages)
    ensures !success ==> Space(mmu.tables, pd) == old(Space(mmu.tables, pd))
    ensures success ==> (pageRead == 0 || pos + pageRead <= |file|) && vpn !in old(Space(mmu.tables, pd))
    ensures success ==> Space(mmu.tables, pd) == old(Space(mmu.tables, pd))[vpn := Mapping(frame, writable)]
    ensures success ==> frame in mmu.pages && mmu.pages[frame] == Part(file, pos, pageRead) + Zeros(4096 - pageRead)
    ensures success ==> frame !in old(mmu.owner) || old(mmu.owner)[frame] == Free
    ensures success <==> UserPages(old(mmu.free), mmu.userPool) > 0 && (pageRead > 0 ==> pos + pageRead <= |file|)
                         && vpn !in old(Space(mmu.tables, pd))
                             && CanMap(old(mmu.tables), pd, vpn, old(mmu.free), mmu.userPool)
    ensures success ==> Counted(old(mmu.free), old(mmu.tables), mmu.free, mmu.tables, mmu.userPool, pd, {PdNo(vpn)}, 1)
  {
    hide *;
    mmu.SelfInUse();
    ghost var owner0, pages0 := mmu.owner, mmu.pages;
    var r := mmu.GetPage(true);
    if r.None? {
      return false, pd;
    }
    var kpage := r.value;
    frame := kpage;
    ghost var free1, tables0 := mmu.free, mmu.tables;
    SameCanMap(tables0, pd, vpn, old(mmu.free), free1, mmu.userPool);
    KeptStep(owner0, pages0, owner0, pages0, mmu.owner, mmu.pages, kpage);
    var bytesRead := Clip(pageRead, pos, |file|);
    ReadsAll(file, pos, pageRead);
    ghost var owner1 := mmu.owner;
    if bytesRead != pageRead {
      mmu.FreeOther(kpage);
      KeptStep(owner0, pages0, owner1, pages0, mmu.owner, mmu.pages, kpage);
      return false, pd;
    }
    mmu.FillPage(kpage, Part(file, pos, pageRead) + Zeros(4096 - pageRead));
    ghost var pages1 := mmu.pages;
    KeptStep(owner0, pages0, owner1, pages0, owner1, pages1, kpage);
    success := InstallPage(mmu, pd, vpn, kpage, writable);
    ghost var owner2 := mmu.owner;
    StepBut(owner0, pages0, owner1, owner2, pages1, kpage);
    if success {
      CountedAgain(old(mmu.free), free1, tables0, mmu.free, mmu.tables, mmu.userPool, pd, {PdNo(vpn)});
    } else {
      mmu.FreeOther(kpage);
      KeptStep(owner0, pages0, owner2, pages1, mmu.owner, mmu.pages, kpage);
    }
  }

  lemma SameCanMap(tables: Tables, pd: Page, vpn: nat, free: set<Page>, free': set<Page>, userPool: set<Page>)
    requires KernelPages(free', userPool) == KernelPages(free, userPool)
    ensures CanMap(tables, pd, vpn, free', userPool) <==> CanMap(tables, pd, vpn, free, userPool)
  {
  }

  /** After a user page has been taken. */
  lemma CountedAgain(free: set<Page>, free1: set<Page>, tables: Tables, free': set<Page>, tables': Tables,
                     userPool: set<Page>, pd: Page, added: set<nat>)
    requires Counted(free1, tables, free', tables', userPool, pd, added, 0)
    requires KernelPages(free1, userPool) == KernelPages(free, userPool)
             && UserPages(free1, userPool) == UserPages(free, userPool) - 1
    ensures Counted(free, tables, free', tables', userPool, pd, added, 1)
  {
  }

  lemma ReadsAll(file: seq<byte>, pos: nat, n: nat)
    requires n <= 4096
    ensures Clip(n, pos, |file|) == n ==> (n == 0 || pos + n <= |file|) && |Part(file, pos, n)| == n
    ensures Clip(n, pos, |file|) == n ==> |Part(file, pos, n) + Zeros(4096 - n)| == 4096
    ensures Clip(n, pos, |file|) != n ==> n > 0 && pos + n > |file|
  {
  }

  lemma StepBut(owner0: Owners, pages0: map<Page, Data>, owner1: Owners, owner2: Owners, pages: map<Page, Data>,
                p: Page)
    requires KeptInUse(owner0, pages0, owner1, pages) && (p in owner0 ==> owner0[p] == Free)
             && KeptBut(owner1, owner2, p) && p in pages
    ensures KeptInUse(owner0, pages0, owner2, pages)
  {
  }

  /** load_segment into the directory pd from virtual page base on. On success
      exactly the segment's pages have been added, with its bytes and rights;
      a failure may leave the first n of them. It succeeds exactly when the file
      is long enough, none of the pages is mapped and there are enough free pages:
      of the user one for each, and of the kernel one for each missing table. */
  method LoadSegment(mmu: Mmu, pd: Page, file: seq<byte>, ofs: OffT, base: nat, readBytes: U32, zeroBytes: U32,
                     writable: bool)
    returns (success: bool, ghost n: nat)
    requires mmu.Valid() && pd in mmu.dirs && pd != mmu.initPd && ofs >= 0 && |file| < 0x8000_0000
    requires (readBytes + zeroBytes) % 4096 == 0 && base + (readBytes + zeroBytes) / 4096 <= USER_PAGES
    modifies mmu`free, mmu`owner, mmu`tables, mmu`pages, mmu`dirtied, mmu`accessed
    ensures mmu.Valid() && forall q :: q in mmu.dirs && q != pd ==> Space(mmu.tables, q) == old(Space(mmu.tables, q))
    ensures Loaded(old(Space(mmu.tables, pd)), Space(mmu.tables, pd), mmu.pages, base, n, file, ofs, readBytes,
            writable)
    ensures success ==> n == (readBytes + zeroBytes) / 4096 && (readBytes > 0 ==> ofs + readBytes <= |file|)
    ensures !success ==> n < (readBytes + zeroBytes) / 4096
    ensures success <==> (readBytes > 0 ==> ofs + readBytes <= |file|)
                         && Loadable(old(Space(mmu.tables, pd)), old(mmu.tables), pd, old(mmu.free), mmu.userPool, base,
                                     (readBytes + zeroBytes) / 4096)
    ensures KeptInUse(old(mmu.owner), old(mmu.pages), mmu.owner, mmu.pages)
  {
    hide *;
    var pos, left, zero, vpn := ofs, readBytes, zeroBytes, base;
    n := 0;
    ghost var before := Space(mmu.tables, pd);
    ghost var total: nat := readBytes + zeroBytes;
    mmu.SelfInUse();
    NothingLoaded(before, mmu.pages, base, file, ofs, readBytes, writable);
    NothingCounted(mmu.free, mmu.tables, mmu.userPool, pd, base);
    while left > 0 || zero > 0
      invariant mmu.Valid() && vpn == base + n && left as int + zero as int == total - 4096 * n
      invariant left == (if 4096 * n < readBytes then readBytes - 4096 * n else 0)
      invariant pos == ofs + (readBytes - left) && (readBytes > left ==> pos <= |file|)
      invariant forall q :: q in mmu.dirs && q != pd ==> Space(mmu.tables, q) == old(Space(mmu.tables, q))
      invariant Loaded(before, Space(mmu.tables, pd), mmu.pages, base, n, file, ofs, readBytes, writable)
      invariant KeptInUse(old(mmu.owner), old(mmu.pages), mmu.owner, mmu.pages)
      invariant Counted(old(mmu.free), old(mmu.tables), mmu.free, mmu.tables, mmu.userPool, pd, TablesIn(base, n), n)
      decreases left as int + zero as int
    {
      var pageRead := if left < 4096 then left else 4096;
      var pageZero := 4096 - pageRead;
      ghost var owner1, pages1, space1 := mmu.owner, mmu.pages, Space(mmu.tables, pd);
      mmu.FramesInUse(pd);
      PageLoads(old(mmu.free), old(mmu.tables), mmu.free, mmu.tables, mmu.userPool, pd, before, base, n, total / 4096);
      ghost var free1, tables1 := mmu.free, mmu.tables;
      ghost var frame;
      success, frame := LoadPage(mmu, pd, vpn, file, pos, pageRead, writable);
      UseTwice(old(mmu.owner), old(mmu.pages), owner1, pages1, mmu.owner, mmu.pages);
      StillLoaded(before, space1, owner1, pages1, mmu.owner, mmu.pages, base, n, file, ofs, readBytes, writable);
      if !success {
        NotLoaded(before, space1, mmu.pages, base, n, file, ofs, readBytes, writable, total);
        return;
      }
      CountedOn(old(mmu.free), old(mmu.tables), free1, tables1, mmu.free, mmu.tables, mmu.userPool, pd, base, n);
      NextPage(file, ofs, readBytes, n, pos, pageRead);
      OnePage(before, space1, mmu.pages, base, n, file, ofs, readBytes, writable, frame);
      left, zero, vpn, pos, n := left - pageRead, zero - pageZero, vpn + 1, pos + pageRead, n + 1;
    }
    success := true;
    LoadedPages(before, Space(mmu.tables, pd), mmu.pages, base, n, file, ofs, readBytes, writable);
    AllLoaded(old(mmu.free), old(mmu.tables), mmu.free, mmu.tables, mmu.userPool, pd, before, base, n);
  }

  /** None of n pages is mapped, and there are free pages for them and for the
      tables that are missing. */
  ghost predicate Loadable(before: map<nat, Mapping>, tables: Tables, pd: Page, free: set<Page>, userPool: set<Page>,
                           base: nat, n: int) {
    && (forall v :: base <= v < base + n ==> v !in before)
    && UserPages(free, userPool) >= n
    && KernelPages(free, userPool) >= |TablesIn(base, n) - TablesOf(tables, pd)|
  }

  lemma NothingCounted(free: set<Page>, tables: Tables, userPool: set<Page>, pd: Page, base: nat)
    ensures Counted(free, tables, free, tables, userPool, pd, TablesIn(base, 0), 0)
  {
    assert TablesIn(base, 0) == {};
  }

  lemma CountedOn(free: set<Page>, tables: Tables, free1: set<Page>, tables1: Tables, free': set<Page>, tables': Tables,
                  userPool: set<Page>, pd: Page, base: nat, n: nat)
    requires Counted(free, tables, free1, tables1, userPool, pd, TablesIn(base, n), n)
    requires Counted(free1, tables1, free', tables', userPool, pd, {PdNo(base + n)}, 1)
    ensures Counted(free, tables, free', tables', userPool, pd, TablesIn(base, n + 1), n + 1)
  {
    hide TablesOf, KernelPages, UserPages;
    assert TablesIn(base, n + 1) == TablesIn(base, n) + {PdNo(base + n)};
  }

  /** Tables taken by the first n pages. */
  lemma TablesTaken(had: set<nat>, base: nat, n: nat)
    ensures |had + TablesIn(base, n)| == |had| + |TablesIn(base, n) - had|
  {
    assert had + TablesIn(base, n) == had + (TablesIn(base, n) - had);
  }

  /** Where the whole segment can be loaded, so can its next page. */
  lemma PageLoads(free: set<Page>, tables: Tables, free': set<Page>, tables': Tables, userPool: set<Page>, pd: Page,
                  before: map<nat, Mapping>, base: nat, n: nat, all: nat)
    requires Counted(free, tables, free', tables', userPool, pd, TablesIn(base, n), n) && n < all
    ensures Loadable(before, tables, pd, free, userPool, base, all) ==>
              UserPages(free', userPool) > 0 && base + n !in before && CanMap(tables', pd, base + n, free', userPool)
  {
    hide TablesOf, KernelPages, UserPages, PdNo;
    var had := TablesOf(tables, pd);
    TablesTaken(had, base, n);
    if PdNo(base + n) !in TablesOf(tables', pd) {
      assert PdNo(base + n) in TablesIn(base, all) - had && PdNo(base + n) !in TablesIn(base, n) - had;
      assert (TablesIn(base, n) - had) + {PdNo(base + n)} <= TablesIn(base, all) - had;
      SubsetCount((TablesIn(base, n) - had) + {PdNo(base + n)}, TablesIn(base, all) - had);
    }
  }

  lemma AllLoaded(free: set<Page>, tables: Tables, free': set<Page>, tables': Tables, userPool: set<Page>, pd: Page,
                  before: map<nat, Mapping>, base: nat, n: nat)
    requires Counted(free, tables, free', tables', userPool, pd, TablesIn(base, n), n)
    requires forall v :: base <= v < base + n ==> v !in before
    ensures Loadable(before, tables, pd, free, userPool, base, n)
  {
    hide TablesOf, KernelPages, UserPages;
    TablesTaken(TablesOf(tables, pd), base, n);
  }

  /** The next page is not one of those that have been loaded. */
  lemma NotLoaded(before: map<nat, Mapping>, after: map<nat, Mapping>, pages: map<Page, Data>, base: nat, n: nat,
                  file: seq<byte>, ofs: nat, readBytes: nat, writable: bool, total: nat)
    requires Loaded(before, after, pages, base, n, file, ofs, readBytes, writable) && total % 4096 == 0
             && 4096 * n < total
    ensures (base + n in after <==> base + n in before) && n < total / 4096
  {
  }

  lemma NothingLoaded(before: map<nat, Mapping>, pages: map<Page, Data>, base: nat, file: seq<byte>, ofs: nat,
                      readBytes: nat, writable: bool)
    ensures Loaded(before, before, pages, base, 0, file, ofs, readBytes, writable)
  {
  }

  lemma UseTwice(owner: Owners, pages: map<Page, Data>, owner1: Owners, pages1: map<Page, Data>, owner2: Owners,
                 pages2: map<Page, Data>)
    requires KeptInUse(owner, pages, owner1, pages1) && KeptInUse(owner1, pages1, owner2, pages2)
    ensures KeptInUse(owner, pages, owner2, pages2)
  {
  }

  /** Pages that are mapped already keep their contents. */
  lemma StillLoaded(before: map<nat, Mapping>, after: map<nat, Mapping>, owner: Owners, pages: map<Page, Data>,
                    owner': Owners, pages': map<Page, Data>, base: nat, n: nat, file: seq<byte>, ofs: nat,
                    readBytes: nat, writable: bool)
    requires Loaded(before, after, pages, base, n, file, ofs, readBytes, writable)
             && KeptInUse(owner, pages, owner', pages')
    requires forall v :: v in after ==> after[v].frame in owner && owner[after[v].frame] != Free
    ensures Loaded(before, after, pages', base, n, file, ofs, readBytes, writable)
  {
    forall v | base <= v < base + n && v in after
      ensures PageHolds(pages', after[v].frame, SegmentPage(file, ofs, readBytes, v - base))
    {
      assert PageHolds(pages, after[v].frame, SegmentPage(file, ofs, readBytes, v - base));
    }
  }

  lemma OnePage(before: map<nat, Mapping>, after: map<nat, Mapping>, pages: map<Page, Data>, base: nat, n: nat,
                file: seq<byte>, ofs: nat, readBytes: nat, writable: bool, frame: Page)
    requires Loaded(before, after, pages, base, n, file, ofs, readBytes, writable) && base + n !in after
    requires frame in pages && pages[frame] == SegmentPage(file, ofs, readBytes, n)
    ensures Loaded(before, after[base + n := Mapping(frame, writable)], pages, base, n + 1, file, ofs, readBytes,
            writable)
  {
    hide SegmentPage;
    var after' := after[base + n := Mapping(frame, writable)];
    forall v | base <= v < base + n + 1 && v in after'
      ensures after'[v].writable == writable
              && PageHolds(pages, after'[v].frame, SegmentPage(file, ofs, readBytes, v - base))
    {
      if v < base + n {
        assert PageHolds(pages, after[v].frame, SegmentPage(file, ofs, readBytes, v - base));
      }
    }
  }

  /** The bytes read for a page, followed by zeros, are that page of the segment. */
  lemma NextPage(file: seq<byte>, ofs: nat, readBytes: nat, n: nat, pos: nat, pageRead: nat)
    requires pageRead == if 4096 * n >= readBytes then 0 else if readBytes - 4096 * n < 4096 then readBytes - 4096 * n
             else 4096
    requires pageRead == 0 || (pos == ofs + 4096 * n && pos + pageRead <= |file|)
    ensures Part(file, pos, pageRead) + Zeros(4096 - pageRead) == SegmentPage(file, ofs, readBytes, n)
  {
    var data := Part(file, pos, pageRead) + Zeros(4096 - pageRead);
    forall b | 0 <= b < 4096
      ensures data[b] == SegmentByte(file, ofs, readBytes, 4096 * n + b)
    {
    }
  }

  // ----- a PT_LOAD header

  /** The byte at a virtual address. */
  ghost predicate MemoryHolds(space: map<nat, Mapping>, pages: map<Page, Data>, va: nat, b: byte) {
    va / 4096 in space && space[va / 4096].frame in pages && pages[space[va / 4096].frame][va % 4096] == b
  }

  /** What the header asks for at an address: the file's bytes from offset on,
      filesz of them, then zeros. */
  function PhdrByte(p: Phdr, file: seq<byte>, va: nat): byte {
    var i := p.offset + (va - p.vaddr);
    if p.vaddr <= va < p.vaddr + p.filesz && i < |file| then file[i] else 0
  }

  /** The pages that the header's segment lies in. */
  function PhdrPages(p: Phdr): int {
    (p.vaddr + p.memsz - 1) / 4096 + 1 - p.vaddr / 4096
  }

  /** What load does with a PT_LOAD header: on success the process finds the
      header's filesz bytes of the file at vaddr, and zeros up to memsz, in
      pages with the rights asked for. The pages around the segment are the only
      ones added. */
  method LoadPhdr(mmu: Mmu, pd: Page, file: seq<byte>, p: Phdr, writable: bool) returns (success: bool, ghost n: nat)
    requires mmu.Valid() && pd in mmu.dirs && pd != mmu.initPd && |file| < 0x8000_0000
    modifies mmu`free, mmu`owner, mmu`tables, mmu`pages, mmu`dirtied, mmu`accessed
    ensures mmu.Valid() && forall q :: q in mmu.dirs && q != pd ==> Space(mmu.tables, q) == old(Space(mmu.tables, q))
    ensures KeptInUse(old(mmu.owner), old(mmu.pages), mmu.owner, mmu.pages)
    ensures success ==> Acceptable(p, |file|) && (p.filesz > 0 ==> p.offset + p.filesz <= |file|)
    ensures success ==> forall va :: p.vaddr <= va < p.vaddr + p.memsz ==>
              MemoryHolds(Space(mmu.tables, pd), mmu.pages, va, PhdrByte(p, file, va))
              && Space(mmu.tables, pd)[va / 4096].writable == writable
    ensures success ==> n == PhdrPages(p)
    ensures forall v :: (v in Space(mmu.tables, pd)
              <==> v in old(Space(mmu.tables, pd)) || p.vaddr / 4096 <= v < p.vaddr / 4096 + n)
    ensures forall v :: p.vaddr / 4096 <= v < p.vaddr / 4096 + n ==> v !in old(Space(mmu.tables, pd))
    ensures forall v :: v in old(Space(mmu.tables, pd)) ==> Space(mmu.tables, pd)[v] == old(Space(mmu.tables, pd))[v]
    ensures success <==> Acceptable(p, |file|) && (p.filesz > 0 ==> p.offset + p.filesz <= |file|)
                         && Loadable(old(Space(mmu.tables, pd)), old(mmu.tables), pd, old(mmu.free), mmu.userPool,
                             p.vaddr / 4096, PhdrPages(p))
  {
    hide *;
    ghost var before := Space(mmu.tables, pd);
    n := 0;
    mmu.SelfInUse();
    ValidExactly(p, |file|);
    if !ValidSegment(p, |file|) {
      return false, 0;
    }
    PlanFits(p, |file|);
    var plan := SegmentPlan(p);
    PagesBelow(plan.memPage, plan.readBytes + plan.zeroBytes);
    PageNumbers(p, plan.memPage, plan.readBytes + plan.zeroBytes);
    success, n := LoadSegment(mmu, pd, file, plan.filePage, plan.memPage / 4096, plan.readBytes, plan.zeroBytes,
        writable);
    LoadedPages(before, Space(mmu.tables, pd), mmu.pages, plan.memPage / 4096, n, file, plan.filePage, plan.readBytes,
        writable);
    if success {
      forall va | p.vaddr <= va < p.vaddr + p.memsz
        ensures MemoryHolds(Space(mmu.tables, pd), mmu.pages, va, PhdrByte(p, file, va))
        ensures va / 4096 in Space(mmu.tables, pd) && Space(mmu.tables, pd)[va / 4096].writable == writable
      {
        ByteLoaded(before, Space(mmu.tables, pd), mmu.pages, plan.memPage / 4096, n, file, plan.filePage,
            plan.readBytes, writable,
                   va - plan.memPage);
        BytePlanned(p, plan, file, va);
        PageBetween(va, plan.memPage, n);
        PageLoaded(Space(mmu.tables, pd), plan.memPage / 4096, n, writable, va / 4096);
      }
    }
  }

  lemma PageLoaded(after: map<nat, Mapping>, base: nat, n: nat, writable: bool, v: nat)
    requires forall v :: base <= v < base + n ==> v in after && after[v].writable == writable
    requires base <= v < base + n
    ensures v in after && after[v].writable == writable
  {
  }

  lemma PageBetween(va: nat, start: nat, n: nat)
    requires start % 4096 == 0 && start <= va < start + 4096 * n
    ensures start / 4096 <= va / 4096 < start / 4096 + n
  {
  }

  lemma PageNumbers(p: Phdr, start: nat, size: nat)
    requires start % 4096 == 0 && size % 4096 == 0 && start <= p.vaddr < start + 4096 && p.memsz > 0
    requires p.vaddr + p.memsz <= start + size < p.vaddr + p.memsz + 4096
    ensures start / 4096 == p.vaddr / 4096 && size / 4096 == PhdrPages(p)
  {
  }

  lemma LoadedPages(before: map<nat, Mapping>, after: map<nat, Mapping>, pages: map<Page, Data>, base: nat, n: nat,
                    file: seq<byte>, ofs: nat, readBytes: nat, writable: bool)
    requires Loaded(before, after, pages, base, n, file, ofs, readBytes, writable)
    ensures forall v :: v in after <==> v in before || base <= v < base + n
    ensures forall v :: base <= v < base + n ==> v !in before && v in after && after[v].writable == writable
    ensures forall v :: v in before ==> v in after && after[v] == before[v]
  {
  }

  lemma PagesBelow(start: nat, size: nat)
    requires start % 4096 == 0 && size % 4096 == 0 && start + size <= 0xc000_0000
    ensures start / 4096 + size / 4096 <= USER_PAGES && start / 4096 * 4096 == start && size / 4096 * 4096 == size
  {
  }

  /** The plan's bytes are the header's. */
  lemma BytePlanned(p: Phdr, plan: Plan, file: seq<byte>, va: nat)
    requires plan.filePage + (p.vaddr - plan.memPage) == p.offset && plan.memPage <= p.vaddr <= va
    requires if p.filesz > 0 then plan.memPage + plan.readBytes == p.vaddr + p.filesz else plan.readBytes == 0
    ensures SegmentByte(file, plan.filePage, plan.readBytes, va - plan.memPage) == PhdrByte(p, file, va)
  {
  }

  /** Byte t of a loaded segment is where it belongs. */
  lemma ByteLoaded(before: map<nat, Mapping>, after: map<nat, Mapping>, pages: map<Page, Data>, base: nat, n: nat,
                   file: seq<byte>, ofs: nat, readBytes: nat, writable: bool, t: nat)
    requires Loaded(before, after, pages, base, n, file, ofs, readBytes, writable) && t < 4096 * n
    ensures MemoryHolds(after, pages, 4096 * base + t, SegmentByte(file, ofs, readBytes, t))
  {
    var v := base + t / 4096;
    assert (4096 * base + t) / 4096 == v && (4096 * base + t) % 4096 == t % 4096;
    assert v in after && PageHolds(pages, after[v].frame, SegmentPage(file, ofs, readBytes, v - base));
    assert 4096 * (t / 4096) + t % 4096 == t;
  }
}
