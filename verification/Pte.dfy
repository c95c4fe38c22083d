/** Page directory and page table entries (pte.h): 32-bit words. */
module Pte {

  /** The physical address of a page: its low 12 bits are 0. Kernel pointers to
      pages, which are the same but for the offset PHYS_BASE, are given by it. */
  datatype Page = Page(addr: bv32)

  predicate Aligned(page: Page) { page.addr & 0xfff == 0 }

  function Bits(e: bv32, mask: bv32): bv32 { e & mask }

  function Set(e: bv32, mask: bv32): bv32 { e | mask }

  function Clear(e: bv32, mask: bv32): bv32 { e & !mask }

  function PageIn(e: bv32): Page { Page(Bits(e, 0xffff_f000)) }

  // The flags P, W, U, A and D.

  predicate Present(e: bv32) { Bits(e, 0x1) != 0 }

  predicate Writable(e: bv32) { Bits(e, 0x2) != 0 }

  predicate UserBit(e: bv32) { Bits(e, 0x4) != 0 }

  predicate Accessed(e: bv32) { Bits(e, 0x20) != 0 }

  predicate Dirty(e: bv32) { Bits(e, 0x40) != 0 }

  function SetDirty(e: bv32): bv32 { Set(e, 0x40) }

  function ClearDirty(e: bv32): bv32 { Clear(e, 0x40) }

  function SetAccessed(e: bv32): bv32 { Set(e, 0x20) }

  function ClearAccessed(e: bv32): bv32 { Clear(e, 0x20) }

  function ClearPresent(e: bv32): bv32 { Clear(e, 0x1) }

  function PdeCreate(pt: Page): bv32 { Set(Set(Set(pt.addr, 0x4), 0x1), 0x2) }

  function PteCreateKernel(page: Page, writable: bool): bv32 {
    Set(Set(page.addr, 0x1), if writable then 0x2 else 0)
  }

  function PteCreateUser(page: Page, writable: bool): bv32 {
    Set(PteCreateKernel(page, writable), 0x4)
  }

  lemma PdeCreated(pt: Page)
    requires Aligned(pt)
    ensures var e := PdeCreate(pt);
            PageIn(e) == pt && Present(e) && Writable(e) && UserBit(e) && e != 0
  {
    hide Bits, Set;
    var p := pt.addr;
    var e1, e2 := Set(p, 0x4), Set(Set(p, 0x4), 0x1);
    AlignedBits(p, 0xffff_f000);
    SetBits(p, 0x4, 0xffff_f000);
    SetBits(e1, 0x1, 0xffff_f000);
    SetBits(e2, 0x2, 0xffff_f000);
    SetBits(e1, 0x1, 0x4);
    SetBits(e2, 0x2, 0x4);
    SetBits(e2, 0x2, 0x1);
    ZeroBits(0x1);
  }

  /** A new entry has the page and the rights asked for, and has been neither
      accessed nor written. */
  lemma PteCreated(page: Page, writable: bool)
    requires Aligned(page)
    ensures var e := PteCreateUser(page, writable);
            PageIn(e) == page && Present(e) && UserBit(e) && !Accessed(e) && !Dirty(e) && (Writable(e) <==> writable)
  {
    hide Bits, Set;
    var p, w := page.addr, if writable then 0x2 else 0;
    var e1, e2 := Set(p, 0x1), Set(Set(p, 0x1), w);
    AlignedBits(p, 0x2);
    AlignedBits(p, 0x20);
    AlignedBits(p, 0x40);
    SetBits(p, 0x1, 0xffff_f000);
    SetBits(e1, w, 0xffff_f000);
    SetBits(e2, 0x4, 0xffff_f000);
    SetBits(e1, w, 0x1);
    SetBits(e2, 0x4, 0x1);
    SetBits(p, 0x1, 0x2);
    if !writable { SetBits(e1, w, 0x2); }
    SetBits(e2, 0x4, 0x2);
    SetBits(p, 0x1, 0x20);
    SetBits(e1, w, 0x20);
    SetBits(e2, 0x4, 0x20);
    SetBits(p, 0x1, 0x40);
    SetBits(e1, w, 0x40);
    SetBits(e2, 0x4, 0x40);
  }

  lemma AlignedBits(a: bv32, k: bv32)
    requires a & 0xfff == 0
    ensures k & 0xffff_f000 == 0 ==> Bits(a, k) == 0
    ensures Bits(a, 0xffff_f000) == a
  {
  }

  lemma ZeroBits(k: bv32)
    ensures Bits(0, k) == 0
  {
  }

  lemma EntryPage(e: bv32)
    ensures Aligned(PageIn(e))
  {
  }

  lemma ZeroEntry()
    ensures !Present(0) && !Dirty(0) && !Accessed(0)
  {
    ZeroBits(0x1);
    ZeroBits(0x40);
    ZeroBits(0x20);
  }

  /** Both entries give the same rights to the same page. */
  predicate SameRights(e: bv32, e': bv32) {
    PageIn(e') == PageIn(e) && (Present(e') <==> Present(e)) && (Writable(e') <==> Writable(e))
        && (UserBit(e') <==> UserBit(e))
  }

  // Setting and clearing one flag leaves the rest of an entry alone.

  lemma SetBits(e: bv32, m: bv32, k: bv32)
    requires m & k == 0
    ensures Bits(Set(e, m), m) == m && Bits(Set(e, m), k) == Bits(e, k)
  {
  }

  lemma ClearBits(e: bv32, m: bv32, k: bv32)
    requires m & k == 0
    ensures Bits(Clear(e, m), m) == 0 && Bits(Clear(e, m), k) == Bits(e, k)
  {
  }

  lemma SetDirtyLaw(e: bv32)
    ensures SameRights(e, SetDirty(e)) && Dirty(SetDirty(e)) && (Accessed(SetDirty(e)) <==> Accessed(e))
  {
    hide Bits, Set, Clear;
    SetBits(e, 0x40, 0xffff_f000);
    SetBits(e, 0x40, 0x1);
    SetBits(e, 0x40, 0x2);
    SetBits(e, 0x40, 0x4);
    SetBits(e, 0x40, 0x20);
  }

  lemma SetAccessedLaw(e: bv32)
    ensures SameRights(e, SetAccessed(e)) && Accessed(SetAccessed(e)) && (Dirty(SetAccessed(e)) <==> Dirty(e))
  {
    hide Bits, Set, Clear;
    SetBits(e, 0x20, 0xffff_f000);
    SetBits(e, 0x20, 0x1);
    SetBits(e, 0x20, 0x2);
    SetBits(e, 0x20, 0x4);
    SetBits(e, 0x20, 0x40);
  }

  lemma ClearDirtyLaw(e: bv32)
    ensures SameRights(e, ClearDirty(e)) && !Dirty(ClearDirty(e)) && (Accessed(ClearDirty(e)) <==> Accessed(e))
  {
    hide Bits, Set, Clear;
    ClearBits(e, 0x40, 0xffff_f000);
    ClearBits(e, 0x40, 0x1);
    ClearBits(e, 0x40, 0x2);
    ClearBits(e, 0x40, 0x4);
    ClearBits(e, 0x40, 0x20);
  }

  lemma ClearAccessedLaw(e: bv32)
    ensures SameRights(e, ClearAccessed(e)) && !Accessed(ClearAccessed(e)) && (Dirty(ClearAccessed(e)) <==> Dirty(e))
  {
    hide Bits, Set, Clear;
    ClearBits(e, 0x20, 0xffff_f000);
    ClearBits(e, 0x20, 0x1);
    ClearBits(e, 0x20, 0x2);
    ClearBits(e, 0x20, 0x4);
    ClearBits(e, 0x20, 0x40);
  }

  lemma ClearPresentLaw(e: bv32)
    ensures !Present(ClearPresent(e)) && PageIn(ClearPresent(e)) == PageIn(e)
    ensures (Dirty(ClearPresent(e)) <==> Dirty(e)) && (Accessed(ClearPresent(e)) <==> Accessed(e))
  {
    hide Bits, Set, Clear;
    ClearBits(e, 0x1, 0xffff_f000);
    ClearBits(e, 0x1, 0x20);
    ClearBits(e, 0x1, 0x40);
  }

  /** Examples, in the bits that the processor defines: P is 1, W is 2, U is 4,
      A is 0x20 and D is 0x40. */
  lemma ExampleEntries()
    ensures PdeCreate(Page(0x1000)) == 0x1007
    ensures PteCreateKernel(Page(0x1000), false) == 0x1001 && PteCreateKernel(Page(0x1000), true) == 0x1003
    ensures PteCreateUser(Page(0x1000), false) == 0x1005 && PteCreateUser(Page(0x1000), true) == 0x1007
    ensures SetAccessed(0x1007) == 0x1027 && SetDirty(0x1027) == 0x1067 && ClearDirty(0x1067) == 0x1027
    ensures ClearAccessed(0x1067) == 0x1047 && ClearPresent(0x1067) == 0x1066 && PageIn(0x1067) == Page(0x1000)
  {
  }
}
