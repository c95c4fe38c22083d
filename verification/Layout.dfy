/** Which sectors belong to which inode on the disk, and what each operation of
    the storage stack does to that. Everything here is about disk images and
    free maps as values. */
module Layout {
  import opened Bytes
  import opened Bitmap
  import opened Inode

  // ----- on-disk inodes: start, length, magic number, 500 unused bytes

  function Header(start: nat, length: nat): Sector
    requires start < 0x1_0000_0000 && length < 0x8000_0000
  {
    Word(start) + Word(length) + Word(0x494e_4f44) + Zeros(500)
  }

  function HdrStart(d: Image, s: nat): nat {
    if s < |d| then WordAt(d[s], 0) else 0
  }

  function HdrLength(d: Image, s: nat): nat {
    if s < |d| then WordAt(d[s], 4) else 0
  }

  lemma HeaderRoundTrip(d: Image, s: nat, start: nat, length: nat)
    requires start < 0x1_0000_0000 && length < 0x8000_0000 && s < |d| && d[s] == Header(start, length)
    ensures HdrStart(d, s) == start && HdrLength(d, s) == length
  {
    assert d[s][0..4] == Word(start);
    assert d[s][4..8] == Word(length);
    WordRoundTrip(d[s], 0, start);
    WordRoundTrip(d[s], 4, length);
  }

  /** The contents of the file whose inode is in sector s. */
  function FileAt(d: Image, s: nat): (bytes: seq<byte>)
    ensures |bytes| == HdrLength(d, s)
  {
    Contents(d, HdrStart(d, s), HdrLength(d, s))
  }

  /** Sector x is the header or one of the data sectors of inode s. */
  predicate Owns(d: Image, s: nat, x: int) {
    x == s || HdrStart(d, s) <= x < HdrStart(d, s) + Sectors(HdrLength(d, s))
  }

  /** The header in sector s describes an extent inside the disk that does not
      contain s itself, and no longer than inode_create makes them. */
  predicate Sound(d: Image, s: nat) {
    && s < |d|
    && HdrLength(d, s) <= 0x7fff_fe00
    && HdrStart(d, s) + Sectors(HdrLength(d, s)) <= |d|
    && !(HdrStart(d, s) <= s < HdrStart(d, s) + Sectors(HdrLength(d, s)))
  }

  /** The central safety property: the live inodes are sound, all their sectors
      are marked used, and no sector belongs to two of them. */
  ghost predicate Separated(d: Image, bits: seq<bool>, live: set<nat>) {
    && |bits| == |d|
    && (forall s :: s in live ==> Sound(d, s))
    && (forall s, x :: s in live && Owns(d, s, x) ==> bits[x])
    && (forall s, t, x :: s in live && t in live && Owns(d, s, x) && Owns(d, t, x) ==> s == t)
  }

  /** Every inode of live keeps its header, and its contents unless it is in
      changed. */
  ghost predicate Keeps(d: Image, d': Image, live: set<nat>, changed: set<nat>) {
    && |d'| == |d|
    && forall s :: s in live && s < |d| ==> KeepsInode(d, d', s, s in changed)
  }

  ghost predicate KeepsInode(d: Image, d': Image, s: nat, changed: bool)
    requires s < |d| == |d'|
  {
    d'[s] == d[s] && (!changed ==> FileAt(d', s) == FileAt(d, s))
  }

  lemma KeepsTrans(d0: Image, d1: Image, d2: Image, live: set<nat>, c1: set<nat>, c2: set<nat>)
    requires Keeps(d0, d1, live, c1) && Keeps(d1, d2, live, c2)
    ensures Keeps(d0, d2, live, c1 + c2)
  {
    forall s | s in live && s < |d0|
      ensures KeepsInode(d0, d2, s, s in c1 + c2)
    {
      assert KeepsInode(d0, d1, s, s in c1) && KeepsInode(d1, d2, s, s in c2);
    }
  }

  lemma KeptFile(d: Image, d': Image, live: set<nat>, changed: set<nat>, s: nat)
    requires Keeps(d, d', live, changed) && s in live && s < |d| && s !in changed
    ensures FileAt(d', s) == FileAt(d, s)
  {
    assert KeepsInode(d, d', s, false);
  }

  lemma KeepsMore(d: Image, d': Image, live: set<nat>)
    requires Keeps(d, d', live, {0})
    ensures Keeps(d, d', live, {0, 1})
  {
    KeepsAll(d, live, {1});
    KeepsTrans(d, d', d', live, {0}, {1}) by { KeepsAll(d', live, {1}); }
    assert {0} + {1} == {0, 1};
  }

  lemma KeepsThen(d0: Image, d1: Image, d2: Image, live: set<nat>)
    requires Keeps(d0, d1, live, {0}) && Keeps(d1, d2, live, {0, 1})
    ensures Keeps(d0, d2, live, {0, 1})
  {
    KeepsTrans(d0, d1, d2, live, {0}, {0, 1});
    assert {0} + {0, 1} == {0, 1};
  }

  lemma KeepsAfter(d0: Image, d1: Image, d2: Image, live: set<nat>, more: set<nat>)
    requires Keeps(d0, d1, live, {0, 1}) && Keeps(d1, d2, more, {0}) && live <= more
    ensures Keeps(d0, d2, live, {0, 1})
  {
    forall s | s in live && s < |d0|
      ensures KeepsInode(d0, d2, s, s in {0, 1})
    {
      assert KeepsInode(d0, d1, s, s in {0, 1}) && KeepsInode(d1, d2, s, s in {0});
    }
  }

  lemma KeepsSize(d: Image, d': Image, live: set<nat>, changed: set<nat>)
    requires Keeps(d, d', live, changed)
    ensures |d'| == |d|
  {
  }

  /** The root directory changes, then the free map file; some inodes are not
      live any more. */
  lemma RestKept(d0: Image, d1: Image, d2: Image, live: set<nat>, fewer: set<nat>)
    requires Keeps(d0, d1, live, {1}) && Keeps(d1, d2, fewer, {0}) && fewer <= live
    ensures Keeps(d0, d2, fewer, {0, 1})
  {
    forall s | s in fewer && s < |d0|
      ensures KeepsInode(d0, d2, s, s in {0, 1})
    {
      assert KeepsInode(d0, d1, s, s in {1}) && KeepsInode(d1, d2, s, s in {0});
    }
  }

  lemma KeepsAll(d: Image, live: set<nat>, changed: set<nat>)
    ensures Keeps(d, d, live, changed)
  {
  }

  /** The free map file changes, then the root directory. */
  lemma KeepsTwice(d0: Image, d1: Image, d2: Image, live: set<nat>, more: set<nat>)
    requires Keeps(d0, d1, live, {0}) && Keeps(d1, d2, more, {1}) && live <= more
    ensures Keeps(d0, d2, live, {0, 1})
  {
    forall s | s in live && s < |d0|
      ensures KeepsInode(d0, d2, s, s in {0, 1})
    {
      assert KeepsInode(d0, d1, s, s in {0}) && KeepsInode(d1, d2, s, s in {1});
    }
  }

  lemma SameHeader(d: Image, d': Image, s: nat)
    requires s < |d| == |d'| && d'[s] == d[s]
    ensures HdrStart(d', s) == HdrStart(d, s) && HdrLength(d', s) == HdrLength(d, s)
    ensures forall x :: Owns(d', s, x) == Owns(d, s, x)
    ensures Sound(d', s) == Sound(d, s)
  {
  }

  lemma SameSectorsSameFile(d: Image, d': Image, s: nat)
    requires Sound(d, s) && |d| == |d'|
    requires forall x :: Owns(d, s, x) ==> d'[x] == d[x]
    ensures d'[s] == d[s] && FileAt(d', s) == FileAt(d, s)
  {
    assert Owns(d, s, s);
    SameHeader(d, d', s);
    var start, length := HdrStart(d, s), HdrLength(d, s);
    forall i | 0 <= i < length
      ensures DataAt(d', start, i) == DataAt(d, start, i)
    {
      assert Owns(d, s, start + i / 512);
    }
  }

  /** An image that differs from d only in sectors of inode s, its header
      excepted, or in sectors of no live inode. */
  lemma LocalChange(d: Image, d': Image, bits: seq<bool>, live: set<nat>, s: nat)
    requires Separated(d, bits, live) && |d'| == |d|
    requires forall t, x :: t in live && t != s && Owns(d, t, x) ==> d'[x] == d[x]
    requires s in live ==> d'[s] == d[s]
    ensures Separated(d', bits, live) && Keeps(d, d', live, {s})
  {
    forall t | t in live
      ensures d'[t] == d[t] && (t != s ==> FileAt(d', t) == FileAt(d, t))
      ensures Sound(d', t) && forall x :: Owns(d', t, x) == Owns(d, t, x)
    {
      assert Owns(d, t, t);
      if t != s {
        SameSectorsSameFile(d, d', t);
      }
      SameHeader(d, d', t);
    }
  }

  /** Writing inside a live file changes that file as a flat array, and no
      other live inode. */
  lemma WriteInFile(d: Image, bits: seq<bool>, live: set<nat>, s: nat, offset: nat, buf: seq<byte>)
    requires Separated(d, bits, live) && s in live && offset + |buf| <= HdrLength(d, s)
    ensures var d' := Splice(d, HdrStart(d, s), offset, buf);
            && Separated(d', bits, live)
            && Keeps(d, d', live, {s})
            && d'[s] == d[s]
            && FileAt(d', s) == Overwrite(FileAt(d, s), offset, buf)
  {
    var d' := Splice(d, HdrStart(d, s), offset, buf);
    assert Sound(d, s) && Owns(d, s, s);
    SpliceOutside(d, HdrStart(d, s), offset, buf, HdrLength(d, s), s);
    forall t, x | t in live && t != s && Owns(d, t, x)
      ensures d'[x] == d[x]
    {
      assert Sound(d, t);
      assert !Owns(d, s, x);
      SpliceOutside(d, HdrStart(d, s), offset, buf, HdrLength(d, s), x);
    }
    LocalChange(d, d', bits, live, s);
    SameHeader(d, d', s);
    SpliceIsUpdate(d, HdrStart(d, s), offset, buf, HdrLength(d, s));
  }

  /** Marking more sectors used keeps the separation. */
  lemma MarkUsed(d: Image, bits: seq<bool>, live: set<nat>, start: nat, cnt: nat)
    requires Separated(d, bits, live) && RunAt(bits, start, cnt, false)
    ensures Separated(d, SetRange(bits, start, cnt, true), live)
    ensures forall s, x :: s in live && Owns(d, s, x) ==> !(start <= x < start + cnt)
  {
    forall s, x | s in live && Owns(d, s, x)
      ensures bits[x] && !(start <= x < start + cnt)
    {
      assert Sound(d, s);
    }
  }

  /** So does releasing sectors that belong to no live inode. */
  lemma MarkFree(d: Image, bits: seq<bool>, live: set<nat>, start: nat, cnt: nat)
    requires Separated(d, bits, live) && start + cnt <= |bits|
    requires forall s, x :: s in live && Owns(d, s, x) ==> !(start <= x < start + cnt)
    ensures Separated(d, SetRange(bits, start, cnt, false), live)
  {
    forall s, x | s in live && Owns(d, s, x)
      ensures SetRange(bits, start, cnt, false)[x]
    {
      assert Sound(d, s) && bits[x];
    }
  }

  lemma FewerLive(d: Image, bits: seq<bool>, live: set<nat>, fewer: set<nat>)
    requires Separated(d, bits, live) && fewer <= live
    ensures Separated(d, bits, fewer)
  {
  }

  /** The sectors of a live inode are used, and nobody else's. */
  lemma ExtentOf(d: Image, bits: seq<bool>, live: set<nat>, s: nat)
    requires Separated(d, bits, live) && s in live
    ensures |bits| == |d| && Sound(d, s) && bits[s] && RunAt(bits, HdrStart(d, s), Sectors(HdrLength(d, s)), true)
    ensures forall t, x :: t in live && t != s && Owns(d, t, x) ==>
              x != s && !(HdrStart(d, s) <= x < HdrStart(d, s) + Sectors(HdrLength(d, s)))
  {
    assert Sound(d, s) && Owns(d, s, s);
    forall x | HdrStart(d, s) <= x < HdrStart(d, s) + Sectors(HdrLength(d, s))
      ensures bits[x]
    {
      assert Owns(d, s, x);
    }
    forall t, x | t in live && t != s && Owns(d, t, x)
      ensures !Owns(d, s, x)
    {
    }
  }

  /** A new inode: a header in a used sector of nobody, and zeroed data in used
      sectors of nobody. */
  lemma NewInode(d: Image, d': Image, bits: seq<bool>, live: set<nat>, s: nat, start: nat, length: nat)
    requires Separated(d, bits, live) && |d'| == |d|
    requires s < |d| && start < 0x1_0000_0000 && length <= 0x7fff_fe00 && start + Sectors(length) <= |d|
    requires bits[s] && RunAt(bits, start, Sectors(length), true) && !(start <= s < start + Sectors(length))
    requires forall t, x :: t in live && Owns(d, t, x) ==> x != s && !(start <= x < start + Sectors(length))
    requires d'[s] == Header(start, length)
    requires forall x :: start <= x < start + Sectors(length) ==> d'[x] == Zeros(512)
    requires forall x :: 0 <= x < |d| && x != s && !(start <= x < start + Sectors(length)) ==> d'[x] == d[x]
    ensures s !in live
    ensures Separated(d', bits, live + {s}) && Keeps(d, d', live, {})
    ensures HdrStart(d', s) == start && HdrLength(d', s) == length
    ensures FileAt(d', s) == Zeros(length)
  {
    HeaderRoundTrip(d', s, start, length);
    if s in live { assert Owns(d, s, s); assert false; }
    forall t, x | t in live && t != s && Owns(d, t, x)
      ensures d'[x] == d[x]
    {
      assert Sound(d, t);
    }
    LocalChange(d, d', bits, live, s);
    forall t | t in live
      ensures KeepsInode(d, d', t, false)
      ensures forall x :: Owns(d', t, x) == Owns(d, t, x)
    {
      assert Owns(d, t, t);
      assert Sound(d, t) && KeepsInode(d, d', t, false);
      SameHeader(d, d', t);
    }
    assert Sound(d', s);
    forall i | 0 <= i < length
      ensures DataAt(d', start, i) == 0
    {
      assert d'[start + i / 512] == Zeros(512);
    }
    assert FileAt(d', s) == Zeros(length);
  }
}
