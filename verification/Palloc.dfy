/** The page allocator (palloc.c): two pools of pages, each with a bitmap. */
module Palloc {
  import opened Arithmetic
  import opened Bytes
  import opened Bitmap

  // Addresses are numbers below 2^32; PGSIZE is 4096 and PHYS_BASE 0xc0000000.

  function PageOf(va: nat): nat { va / 4096 }

  function PageOfs(va: nat): nat { va % 4096 }

  /** Memory, by address, with n bytes from va on set to v. */
  function Fill(mem: seq<byte>, va: nat, n: nat, v: byte): (r: seq<byte>)
    ensures |r| == |mem|
  {
    seq(|mem|, i requires 0 <= i < |mem| => if va <= i < va + n then v else mem[i])
  }

  class Pool {
    const usedMap: Bitmap
    // Page number of the first page.
    const base: nat

    constructor (usedMap: Bitmap, base: nat)
      ensures this.usedMap == usedMap && this.base == base
    {
      this.usedMap, this.base := usedMap, base;
    }

    /** page_from_pool */
    predicate Has(page: nat)
      reads usedMap
    {
      base <= page < base + |usedMap.bits|
    }
  }

  /** Bytes that a bitmap takes in a caller's buffer: two words and the bits. */
  function BufSize(bitCnt: nat): nat { 8 + FileSize(bitCnt) }

  /** The pages at the start of a pool that hold its bitmap. */
  function BitmapPages(pageCnt: nat): nat { (BufSize(pageCnt) + 4095) / 4096 }

  lemma BitmapFits(pageCnt: nat)
    ensures BitmapPages(pageCnt) <= pageCnt <==> pageCnt > 0
    ensures BitmapPages(pageCnt) > 0
    ensures 4096 * BitmapPages(pageCnt) - 4096 < BufSize(pageCnt) <= 4096 * BitmapPages(pageCnt)
  {
  }

  /** init_pool. Null stands for the panic when the bitmap does not fit. */
  method InitPool(base: nat, pageCnt: nat) returns (pool: Pool?)
    ensures pool == null <==> BitmapPages(pageCnt) > pageCnt
    ensures pool != null ==> fresh(pool.usedMap) && fresh(pool)
    ensures pool != null ==>
              pool.base == base + BitmapPages(pageCnt) && pool.base + |pool.usedMap.bits| == base + pageCnt
    ensures pool != null ==> RunAt(pool.usedMap.bits, 0, |pool.usedMap.bits|, false)
    ensures pool != null ==> BufSize(|pool.usedMap.bits|) <= 4096 * (pool.base - base)
  {
    var bmPages := BitmapPages(pageCnt);
    if bmPages > pageCnt {
      return null;
    }
    var usedMap := new Bitmap(pageCnt - bmPages);
    pool := new Pool(usedMap, base + bmPages);
  }

  class PageAllocator {
    const kernel: Pool
    const user: Pool
    // What the memory contains.
    var mem: seq<byte>

    constructor (kernel: Pool, user: Pool, mem: seq<byte>)
      ensures this.kernel == kernel && this.user == user && this.mem == mem
    {
      this.kernel, this.user, this.mem := kernel, user, mem;
    }

    /** The pools do not overlap, and no page of theirs is at address 0. */
    ghost predicate Valid()
      reads this, kernel.usedMap, user.usedMap
    {
      && kernel.usedMap != user.usedMap
      && 0 < kernel.base && kernel.base + |kernel.usedMap.bits| <= user.base
      && user.base + |user.usedMap.bits| <= 0x10_0000
      && |mem| == 0x1_0000_0000
    }

    function PoolFor(wantUser: bool): Pool { if wantUser then user else kernel }

    /** Obtains pageCnt contiguous pages, the first such run; 0 is the null
        pointer. The kernel panics when there is none and PAL_ASSERT is set. */
    method GetMultiple(wantUser: bool, zero: bool, must: bool, pageCnt: nat) returns (pages: nat, panic: bool)
      requires Valid()
      modifies this, PoolFor(wantUser).usedMap
      ensures Valid()
      ensures var pool, n := PoolFor(wantUser), pageCnt;
              && (pages == 0 <==> n == 0 || forall j :: 0 <= j ==> !RunAt(old(pool.usedMap.bits), j, n, false))
              && (pages == 0 ==> pool.usedMap.bits == old(pool.usedMap.bits))
              && (pages != 0 ==> PageOfs(pages) == 0 && pool.base <= PageOf(pages) && pages == 4096 * PageOf(pages)
                                 && RunAt(old(pool.usedMap.bits), PageOf(pages) - pool.base, n, false)
                                 && pool.usedMap.bits
                                     == SetRange(old(pool.usedMap.bits), PageOf(pages) - pool.base, n, true)
                                 && forall j :: 0 <= j < PageOf(pages) - pool.base ==>
                                       !RunAt(old(pool.usedMap.bits), j, n, false))
      ensures mem == if pages != 0 && zero then Fill(old(mem), pages, 4096 * pageCnt, 0) else old(mem)
      ensures panic <==> must && pageCnt != 0 && forall j :: 0 <= j ==>
                !RunAt(old(PoolFor(wantUser).usedMap.bits), j, pageCnt, false)
    {
      pages, panic := 0, false;
      if pageCnt == 0 {
        return;
      }
      var pool := PoolFor(wantUser);
      var r := pool.usedMap.ScanAndFlip(0, pageCnt, false);
      if r.Some? {
        pages := 4096 * pool.base + 4096 * r.value;
        assert PageOf(pages) == pool.base + r.value;
        if zero {
          mem := Fill(mem, pages, 4096 * pageCnt, 0);
        }
      } else {
        forall j | 0 <= j
          ensures !RunAt(old(pool.usedMap.bits), j, pageCnt, false)
        {
        }
        panic := must;
      }
    }

    /** Frees pages that were obtained together or apart from one pool: they
        go back to that pool. */
    method FreeMultiple(pages: nat, pageCnt: nat)
      requires Valid() && PageOfs(pages) == 0
      requires pages != 0 && pageCnt != 0 ==> Owned(kernel, pages, pageCnt) || Owned(user, pages, pageCnt)
      modifies this, kernel.usedMap, user.usedMap
      ensures Valid()
      ensures mem == if pages == 0 then old(mem) else Fill(old(mem), pages, 4096 * pageCnt, 0xcc)
      ensures kernel.usedMap.bits == if pages != 0 && pageCnt != 0 && old(Owned(kernel, pages, pageCnt))
                                     then SetRange(old(kernel.usedMap.bits), PageOf(pages) - kernel.base, pageCnt,
                                         false)
                                     else old(kernel.usedMap.bits)
      ensures user.usedMap.bits == if pages != 0 && pageCnt != 0 && old(Owned(user, pages, pageCnt))
                                   then SetRange(old(user.usedMap.bits), PageOf(pages) - user.base, pageCnt, false)
                                   else old(user.usedMap.bits)
    {
      if pages == 0 || pageCnt == 0 {
        assert mem == Fill(mem, pages, 0, 0xcc);
        return;
      }
      var pool := if kernel.Has(PageOf(pages)) then kernel else user;
      mem := Fill(mem, pages, 4096 * pageCnt, 0xcc);
      pool.usedMap.SetMultiple(PageOf(pages) - pool.base, pageCnt, false);
    }

    /** The pageCnt pages at the given address are pages of the pool, in use. */
    ghost predicate Owned(pool: Pool, pages: nat, pageCnt: nat)
      reads pool.usedMap
    {
      pool.base <= PageOf(pages) && RunAt(pool.usedMap.bits, PageOf(pages) - pool.base, pageCnt, true)
    }
  }

  /** The user pool's share of the free pages, with its bitmap. */
  function UserShare(freePages: nat, userPageLimit: nat): nat {
    if freePages / 2 > userPageLimit then userPageLimit else freePages / 2
  }

  /** It is the most pages that are neither more than half nor above the limit. */
  lemma ShareIsMost(freePages: nat, userPageLimit: nat, n: nat)
    ensures 2 * UserShare(freePages, userPageLimit) <= freePages && UserShare(freePages, userPageLimit) <= userPageLimit
    ensures 2 * n <= freePages && n <= userPageLimit ==> n <= UserShare(freePages, userPageLimit)
  {
  }

  /** palloc_init: the free memory from 1 MB to the end of RAM is divided into
      two pools, all of it free but for their bitmaps, and the user pool is no
      larger than the limit. Null stands for a panic, which comes just when a
      pool would have no page at all. */
  method Init(initRamPages: nat, userPageLimit: nat, mem: seq<byte>) returns (palloc: PageAllocator?)
    requires 256 <= initRamPages < 0x4_0000 && |mem| == 0x1_0000_0000
    ensures palloc != null ==>
              palloc.Valid() && fresh(palloc) && fresh(palloc.kernel.usedMap) && fresh(palloc.user.usedMap)
    ensures palloc == null <==> initRamPages < 258 || userPageLimit == 0
    ensures palloc != null ==> var k, u := palloc.kernel, palloc.user;
              var userPages := UserShare(initRamPages - 256, userPageLimit);
              var kernelPages := initRamPages - 256 - userPages;
              && RunAt(k.usedMap.bits, 0, |k.usedMap.bits|, false) && RunAt(u.usedMap.bits, 0, |u.usedMap.bits|, false)
              && k.base == 0xc0100 + BitmapPages(kernelPages)
                  && |k.usedMap.bits| == kernelPages - BitmapPages(kernelPages)
              && u.base == 0xc0100 + kernelPages + BitmapPages(userPages)
              && |u.usedMap.bits| == userPages - BitmapPages(userPages) < userPageLimit
              && 0xc0100 < k.base && k.base + |k.usedMap.bits| < u.base
                  && u.base + |u.usedMap.bits| == 0xc0000 + initRamPages
              && BufSize(|k.usedMap.bits|) <= 4096 * (k.base - 0xc0100)
              && BufSize(|u.usedMap.bits|) <= 4096 * (u.base - (k.base + |k.usedMap.bits|))
  {
    var freePages := initRamPages - 256;
    var userPages := freePages / 2;
    if userPages > userPageLimit {
      userPages := userPageLimit;
    }
    var kernelPages := freePages - userPages;
    BitmapFits(userPages);
    BitmapFits(kernelPages);
    var kernel := InitPool(0xc0100, kernelPages);
    if kernel == null {
      return null;
    }
    var user := InitPool(0xc0100 + kernelPages, userPages);
    if user == null {
      return null;
    }
    palloc := new PageAllocator(kernel, user, mem);
  }
}
