/** The storage stack as a whole: the free map, the table of open inodes, files,
    and the operations on named files (free-map.c, inode.c, file.c, filesys.c). */
module FileSystem {
  import opened Arithmetic
  import opened Bytes
  import opened Bitmap
  import opened Inode
  import opened Layout
  import opened Directory

  /** An open file. */
  class File {
    const inode: Inode
    var pos: OffT
    var denyWrite: bool

    constructor (inode: Inode)
      ensures this.inode == inode && pos == 0 && !denyWrite
    {
      this.inode, pos, denyWrite := inode, 0, false;
    }
  }

  // ----- what is on the disk

  /** The root directory as a map; its inode is in sector 1. */
  ghost function Names(d: Image): map<Name, nat> {
    if WellFormed(FileAt(d, 1)) then NameMap(FileAt(d, 1)) else map[]
  }

  /** The named files and their contents. */
  ghost function Tree(d: Image): map<Name, seq<byte>> {
    FilesOf(Names(d), d)
  }

  ghost function FilesOf<K>(sectors: map<K, nat>, d: Image): map<K, seq<byte>> {
    map k | k in sectors :: FileAt(d, sectors[k])
  }

  /** The root directory is well formed and names distinct non-system inodes. */
  ghost predicate NamesOk(d: Image) {
    && WellFormed(FileAt(d, 1))
    && (forall n, m :: n in Names(d) && m in Names(d) && Names(d)[n] == Names(d)[m] ==> n == m)
    && (forall n :: n in Names(d) ==> Names(d)[n] >= 2)
  }

  lemma NamesAre(d: Image)
    requires WellFormed(FileAt(d, 1))
    ensures Names(d) == NameMap(FileAt(d, 1))
  {
  }

  /** What adding a name needs: a valid name that is not in use, and room for
      a record in the root directory. */
  ghost predicate CanAdd(d: Image, name: Name) {
    && 1 <= |name| <= NAME_MAX
    && name !in Names(d)
    && exists i :: 0 <= i < SlotCount(FileAt(d, 1)) && !InUse(RecordAt(FileAt(d, 1), i))
  }

  /** The free map stored in file 0 is the given one. */
  ghost predicate Saved(d: Image, bits: seq<bool>) {
    HdrLength(d, 0) == FileSize(|bits|) && Unpack(FileAt(d, 0), |bits|) == bits
  }

  lemma KeptNames(d: Image, d': Image, live: set<nat>, changed: set<nat>)
    requires Keeps(d, d', live, changed) && 1 in live && 1 < |d| && 1 !in changed
    ensures FileAt(d', 1) == FileAt(d, 1) && Names(d') == Names(d) && (NamesOk(d) ==> NamesOk(d'))
  {
    assert KeepsInode(d, d', 1, false);
  }

  lemma SameCanAdd(d: Image, d': Image, live: set<nat>, name: Name)
    requires Keeps(d, d', live, {0}) && 1 in live && 1 < |d|
    ensures CanAdd(d', name) == CanAdd(d, name)
  {
    KeptNames(d, d', live, {0});
  }

  lemma AddedName(names: map<Name, nat>, names': map<Name, nat>, name: Name, sector: nat)
    requires name !in names && names' == names[name := sector]
    ensures names'.Values == names.Values + {sector}
  {
    forall s | s in names.Values
      ensures s in names'.Values
    {
      var n :| n in names && names[n] == s;
      assert n in names' && names'[n] == s;
    }
    assert name in names' && names'[name] == sector;
  }

  /** With distinct sectors, erasing a name erases its sector. */
  lemma NameErased(names: map<Name, nat>, names': map<Name, nat>, name: Name)
    requires forall n, m :: n in names && m in names && names[n] == names[m] ==> n == m
    requires name in names && names' == names - {name}
    ensures names'.Values == names.Values - {names[name]}
  {
    forall s | s in names.Values && s != names[name]
      ensures s in names'.Values
    {
      var n :| n in names && names[n] == s;
      assert n in names' && names'[n] == s;
    }
  }

  lemma NamesAdded(d: Image, d': Image, name: Name, sector: nat)
    requires NamesOk(d) && WellFormed(FileAt(d', 1)) && Names(d') == Names(d)[name := sector]
    requires name !in Names(d) && sector >= 2 && sector !in Names(d).Values
    ensures NamesOk(d') && Names(d').Values == Names(d).Values + {sector}
  {
    hide Names;
    AddedName(Names(d), Names(d'), name, sector);
  }

  lemma KeptFiles<K>(sectors: map<K, nat>, d: Image, d': Image, live: set<nat>, changed: set<nat>)
    requires Keeps(d, d', live, changed)
    requires forall k :: k in sectors ==> sectors[k] in live && sectors[k] < |d| && sectors[k] !in changed
    ensures FilesOf(sectors, d') == FilesOf(sectors, d)
  {
    forall k | k in sectors
      ensures FileAt(d', sectors[k]) == FileAt(d, sectors[k])
    {
      assert KeepsInode(d, d', sectors[k], false);
    }
  }

  /** The files with buf written at offset ofs of the one in a given sector. */
  ghost function Patch<K>(sectors: map<K, nat>, files: map<K, seq<byte>>, s: nat, ofs: nat,
                          buf: seq<byte>): map<K, seq<byte>>
  {
    map k | k in sectors && k in files :: if sectors[k] == s && ofs + |buf| <= |files[k]|
        then Overwrite(files[k], ofs, buf) else files[k]
  }

  /** A write inside a live file, or one of nothing anywhere. */
  lemma Spliced(d: Image, bits: seq<bool>, live: set<nat>, s: nat, ofs: nat, buf: seq<byte>)
    requires Separated(d, bits, live) && s in live && (ofs + |buf| <= HdrLength(d, s) || buf == [])
    ensures var d' := Splice(d, HdrStart(d, s), ofs, buf);
            Separated(d', bits, live) && Keeps(d, d', live, {s}) && Changed(d, d', s, ofs, buf)
  {
    if buf == [] {
      SpliceNothing(d, HdrStart(d, s), ofs);
      KeepsAll(d, live, {s});
    } else {
      WriteInFile(d, bits, live, s, ofs, buf);
    }
  }

  ghost predicate Changed(d: Image, d': Image, s: nat, ofs: nat, buf: seq<byte>) {
    FileAt(d', s) == if ofs + |buf| <= |FileAt(d, s)| then Overwrite(FileAt(d, s), ofs, buf) else FileAt(d, s)
  }

  lemma Patched<K>(sectors: map<K, nat>, d: Image, d': Image, bits: seq<bool>, live: set<nat>, s: nat, ofs: nat,
                   buf: seq<byte>)
    requires Separated(d, bits, live) && Keeps(d, d', live, {s}) && Changed(d, d', s, ofs, buf)
    requires forall k :: k in sectors ==> sectors[k] in live
    ensures FilesOf(sectors, d') == Patch(sectors, FilesOf(sectors, d), s, ofs, buf)
  {
    hide FileAt, Separated, Keeps;
    forall k | k in sectors && sectors[k] != s
      ensures FileAt(d', sectors[k]) == FileAt(d, sectors[k])
    {
      LiveHeader(d, bits, live, sectors[k]);
      KeptFile(d, d', live, {s}, sectors[k]);
    }
  }

  lemma FilesLess<K>(sectors: map<K, nat>, d: Image, k: K)
    ensures FilesOf(sectors - {k}, d) == FilesOf(sectors, d) - {k}
  {
  }

  /** The number of sectors inode_create asks for: a signed sum that wraps for
      the 511 largest lengths, giving more sectors than any device has. */
  method BytesToSectors(length: OffT) returns (sectors: U32)
    requires length >= 0
    ensures if length + 511 < 0x8000_0000 then sectors == Sectors(length) else sectors > 0x8000_0000
  {
    var sum := ToI32(length + 511);
    sectors := ToU32(TruncDiv(sum, 512));
    if length + 511 >= 0x8000_0000 {
      assert sum == length + 511 - 0x1_0000_0000;
      var q := (0x1_0000_0000 - length - 511) / 512;
      assert TruncDiv(sum, 512) == -q;
      assert 0 < q <= 0x40_0000;
      assert ToU32(-q) == ToU32(-q + 0x1_0000_0000);
    }
  }

  // ----- counting references

  /** The files open on the inode in a sector. */
  ghost function FilesOn(files: set<File>, sector: nat): set<File> {
    set f | f in files && f.inode.sector == sector
  }

  /** Those of them that deny writes. */
  ghost function DeniersOn(files: set<File>, sector: nat): set<File>
    reads files`denyWrite
  {
    set f | f in files && f.inode.sector == sector && f.denyWrite
  }

  lemma FilesOnMore(files: set<File>, f: File, sector: nat)
    requires f !in files && !f.denyWrite
    ensures |FilesOn(files + {f}, sector)| == |FilesOn(files, sector)| + (if f.inode.sector == sector then 1 else 0)
    ensures DeniersOn(files + {f}, sector) == DeniersOn(files, sector)
  {
    assert FilesOn(files + {f}, sector)
        == if f.inode.sector == sector then FilesOn(files, sector) + {f} else FilesOn(files, sector);
    assert DeniersOn(files + {f}, sector) == DeniersOn(files, sector);
  }

  /** The deniers on an inode are among its files, and a file is among them
      exactly when it denies writes. */
  lemma DenierCount(files: set<File>, f: File)
    requires f in files
    ensures |DeniersOn(files, f.inode.sector)| <= |FilesOn(files, f.inode.sector)|
    ensures if f.denyWrite then |DeniersOn(files, f.inode.sector)| > 0
            else |DeniersOn(files, f.inode.sector)| < |FilesOn(files, f.inode.sector)|
  {
    var on, deniers := FilesOn(files, f.inode.sector), DeniersOn(files, f.inode.sector);
    DeniersAreFiles(files, f.inode.sector);
    if f.denyWrite {
      assert f in deniers;
    } else {
      assert deniers <= on - {f};
      SubsetCount(deniers, on - {f});
    }
  }

  lemma DeniersAreFiles(files: set<File>, sector: nat)
    ensures |DeniersOn(files, sector)| <= |FilesOn(files, sector)|
  {
    SubsetCount(DeniersOn(files, sector), FilesOn(files, sector));
  }

  lemma LastFile(files: set<File>, f: File, sector: nat)
    requires f in files && f.inode.sector == sector
    ensures FilesOn(files, sector) == {f} <==> FilesOn(files - {f}, sector) == {}
  {
    assert FilesOn(files - {f}, sector) == FilesOn(files, sector) - {f};
  }

  ghost predicate Lists(list: seq<Inode>, table: map<nat, Inode>) {
    && (forall k :: 0 <= k < |list| ==> Lists1(list[k], table))
    && (forall s :: s in table ==> table[s] in list)
    && (forall i, j :: 0 <= i < j < |list| ==> list[i] != list[j])
  }

  ghost predicate Lists1(inode: Inode, table: map<nat, Inode>) {
    inode.sector in table && table[inode.sector] == inode
  }

  lemma Unlisted(list: seq<Inode>, table: map<nat, Inode>, k: nat)
    requires Lists(list, table) && k < |list| && forall s :: s in table ==> table[s].sector == s
    ensures Lists(list[..k] + list[k + 1..], table - {list[k].sector})
  {
    var list', table' := list[..k] + list[k + 1..], table - {list[k].sector};
    assert Lists1(list[k], table);
    forall i | 0 <= i < |list'|
      ensures Lists1(list'[i], table')
    {
      assert Lists1(list[if i < k then i else i + 1], table);
    }
    forall s | s in table'
      ensures table'[s] in list'
    {
      var j :| 0 <= j < |list| && list[j] == table[s];
      assert j != k;
      assert list'[if j < k then j else j - 1] == table[s];
    }
  }

  // ----- new disks, and what operations do to the free map

  lemma OneSector()
    ensures Sectors(512) == 1 && Sectors(FileSize(16)) == 1
  {
  }

  lemma EmptyHasRoom(d: Image, name: Name)
    requires FileAt(d, 1) == Zeros(320) && Tree(d) == map[] && 1 <= |name| <= NAME_MAX
    ensures CanAdd(d, name)
  {
    assert name !in Tree(d);
    assert !InUse(RecordAt(FileAt(d, 1), 0));
  }

  lemma InUseName(d: Image, name: Name, size: nat)
    requires Tree(d) == map[name := Zeros(size)]
    ensures !CanAdd(d, name)
  {
    hide Names, FileAt, Zeros;
    assert name in Tree(d);
  }

  lemma FormattedRoom(bits: seq<bool>)
    requires |bits| == 16 && SystemOnly(bits)
    ensures Room(bits, 512)
  {
    assert Sectors(512) == 1 && Sectors(FileSize(16)) == 1;
    assert forall k :: 0 <= k < 16 ==> bits[k] == (k < 4);
    assert RoomAt(bits, 4, 5, 1);
  }

  lemma StillRoom(bits: seq<bool>, bits': seq<bool>)
    requires |bits| == 16 && SystemOnly(bits) && Taken(bits, bits', 1)
    ensures Room(bits', 512)
  {
    assert Sectors(512) == 1 && Sectors(FileSize(16)) == 1;
    var h: nat, start: nat :| RoomAt(bits, h, start, 1) && bits' == SetRange(bits[h := true], start, 1, true);
    assert forall k :: 0 <= k < 16 ==> bits[k] == (k < 4);
    assert FirstFree(bits, h) && !bits[4];
    assert RunAt(bits[h := true], start, 1, false) && !bits[h := true][start];
    if start == 5 {
      assert RoomAt(bits', 6, 7, 1);
    } else {
      assert RoomAt(bits', 5, if start == 6 then 7 else 6, 1);
    }
  }

  /** The free map without the sectors of inode s. */
  function Released(d: Image, bits: seq<bool>, s: nat): seq<bool> {
    if s < |bits| && HdrStart(d, s) + Sectors(HdrLength(d, s)) <= |bits| then
      SetRange(SetRange(bits, s, 1, false), HdrStart(d, s), Sectors(HdrLength(d, s)), false)
    else bits
  }

  /** Exactly the inode's own sectors become free. */
  lemma ReleasedExactly(d: Image, bits: seq<bool>, live: set<nat>, s: nat)
    requires Separated(d, bits, live) && s in live
    ensures |Released(d, bits, s)| == |bits|
    ensures forall x :: 0 <= x < |bits| ==> (Released(d, bits, s)[x] <==> bits[x] && !Owns(d, s, x))
    ensures forall x :: 0 <= x < |bits| && Owns(d, s, x) ==> bits[x]
  {
    assert Sound(d, s);
    ExtentOf(d, bits, live, s);
    hide Separated, HdrStart, HdrLength;
  }

  lemma SameReleased(d: Image, d': Image, live: set<nat>, changed: set<nat>, bits: seq<bool>, s: nat)
    requires Keeps(d, d', live, changed) && s in live
    ensures Released(d', bits, s) == Released(d, bits, s)
  {
    if s < |d| {
      assert KeepsInode(d, d', s, s in changed);
    }
  }

  /** A disk on which a file system can be mounted, with its free map. */
  ghost predicate Mountable(d: Image, bits: seq<bool>) {
    && 2 <= |d| <= 0x8000_0000 && Saved(d, bits) && NamesOk(d)
    && Separated(d, bits, {0, 1} + Names(d).Values)
  }

  /** A free map of n free sectors. */
  function NoneUsed(n: nat): (bits: seq<bool>)
    ensures |bits| == n
  {
    seq(n, _ => false)
  }

  /** In use are just the first sectors: the two system inodes, the free map
      file and the root directory. */
  predicate SystemOnly(bits: seq<bool>) {
    var n := 3 + Sectors(FileSize(|bits|));
    n <= |bits| && bits == SetRange(NoneUsed(|bits|), 0, n, true)
  }

  lemma FreeRun(bits: seq<bool>, k: nat)
    requires |bits| >= 2 && bits == SetRange(NoneUsed(|bits|), 0, 2, true)
    ensures |bits| >= 2 + k ==> RunAt(bits, 2, k, false)
  {
  }

  lemma RunTaken(bits: seq<bool>, k: nat, start: nat)
    requires |bits| >= 2 && k > 0 && bits == SetRange(NoneUsed(|bits|), 0, 2, true)
    requires RunAt(bits, start, k, false) && forall j :: 0 <= j < start ==> !RunAt(bits, j, k, false)
    ensures SetRange(bits, start, k, true)[1] && !(start <= 1 < start + k) && start == 2 && 2 + k <= |bits|
    ensures |bits| >= 3 + k ==> RunAt(SetRange(bits, start, k, true), 2 + k, 1, false)
  {
    assert bits[1] && !bits[start];
    FreeRun(bits, k);
  }

  /** With first fit the system's sectors are the first ones. */
  lemma SystemSectors(bits: seq<bool>, k: nat, start: nat, bits1: seq<bool>, bits2: seq<bool>)
    requires |bits| >= 2 && k > 0 && bits == SetRange(NoneUsed(|bits|), 0, 2, true)
    requires 2 + k <= |bits| && bits1 == SetRange(bits, 2, k, true)
    requires RunAt(bits1, start, 1, false) && bits2 == SetRange(bits1, start, 1, true)
    requires forall j :: 0 <= j < start ==> !RunAt(bits1, j, 1, false)
    ensures k == Sectors(FileSize(|bits|)) ==> SystemOnly(bits2)
  {
    assert !bits1[start];
    assert start > 2 + k ==> RunAt(bits1, 2 + k, 1, false);
  }

  lemma NotRoot(d: Image, bits: seq<bool>, start: nat)
    requires HdrStart(d, 0) == start && !(start <= 1 < start + Sectors(HdrLength(d, 0)))
    ensures forall t, x :: t in {0} && Owns(d, t, x) ==> x != 1
  {
  }

  lemma EmptyDirectory(d: Image)
    requires FileAt(d, 1) == Zeros(320)
    ensures NamesOk(d) && Names(d) == map[]
  {
    var bytes := FileAt(d, 1);
    forall i | 0 <= i < SlotCount(bytes)
      ensures !InUse(RecordAt(bytes, i))
    {
    }
    assert WellFormed(bytes);
    SameMap(bytes, map[]);
  }

  predicate FirstFree(bits: seq<bool>, h: nat) {
    h < |bits| && !bits[h] && forall k :: 0 <= k < h ==> bits[k]
  }

  predicate RoomAt(bits: seq<bool>, h: nat, start: nat, n: nat) {
    FirstFree(bits, h) && RunAt(bits[h := true], start, n, false)
  }

  /** There is a free sector for the header, and then a free run for the data. */
  ghost predicate Room(bits: seq<bool>, size: nat) {
    && size <= 0x7fff_fe00
    && exists h: nat, start: nat :: RoomAt(bits, h, start, Sectors(size))
  }

  /** A free sector and then n consecutive ones have been marked used. */
  ghost predicate Taken(bits: seq<bool>, bits': seq<bool>, n: nat) {
    exists h: nat, start: nat :: RoomAt(bits, h, start, n) && bits' == SetRange(bits[h := true], start, n, true)
  }

  /** n consecutive free sectors have been marked used. */
  ghost predicate Leaked(bits: seq<bool>, bits': seq<bool>, n: nat) {
    exists start: nat :: RunAt(bits, start, n, false) && bits' == SetRange(bits, start, n, true)
  }

  lemma FirstFreeIs(bits: seq<bool>, r: Option<nat>)
    requires forall j :: 0 <= j && (r.Some? ==> j < r.value) ==> !RunAt(bits, j, 1, false)
    requires r.Some? ==> RunAt(bits, r.value, 1, false)
    ensures forall h :: 0 <= h && FirstFree(bits, h) ==> r == Some(h)
    ensures r.Some? ==> FirstFree(bits, r.value) && SetRange(bits, r.value, 1, true) == bits[r.value := true]
  {
    forall h | 0 <= h && FirstFree(bits, h)
      ensures r == Some(h)
    {
      assert RunAt(bits, h, 1, false);
      if r.Some? { NoneBefore(bits, h, r.value); }
    }
    if r.Some? {
      forall k | 0 <= k < r.value
        ensures bits[k]
      {
        assert !RunAt(bits, k, 1, false);
      }
    }
  }

  lemma NoneBefore(bits: seq<bool>, h: nat, k: nat)
    requires FirstFree(bits, h) && RunAt(bits, k, 1, false)
    ensures h <= k
  {
    assert !bits[k];
  }

  lemma TakenBy(bits: seq<bool>, h: nat, start: nat, n: nat)
    requires RoomAt(bits, h, start, n)
    ensures Taken(bits, SetRange(bits[h := true], start, n, true), n)
  {
  }

  lemma LeakedBy(bits: seq<bool>, start: nat, n: nat)
    requires RunAt(bits, start, n, false)
    ensures Leaked(bits, SetRange(bits, start, n, true), n)
  {
  }

  lemma LeakShows(bits: seq<bool>, start: nat, n: nat)
    requires RunAt(bits, start, n, false)
    ensures SetRange(bits, start, n, true) != bits <==> n > 0
  {
    if n > 0 {
      assert !bits[start] && SetRange(bits, start, n, true)[start];
    }
  }

  lemma Undone(bits: seq<bool>, h: nat)
    requires FirstFree(bits, h)
    ensures SetRange(bits[h := true], h, 1, false) == bits
  {
  }

  /** Undoing the header's allocation leaves only the data's. */
  lemma BitsAfter(bits: seq<bool>, h: nat, start: nat, n: nat)
    requires RoomAt(bits, h, start, n)
    ensures RunAt(bits, start, n, false)
    ensures SetRange(SetRange(bits[h := true], start, n, true), h, 1, false) == SetRange(bits, start, n, true)
  {
    var taken := bits[h := true];
    assert taken[h];
    forall k | start <= k < start + n
      ensures !bits[k] && k != h
    {
      assert !taken[k];
    }
  }

  lemma SameSize(d: Image, bits: seq<bool>, live: set<nat>)
    requires Separated(d, bits, live)
    ensures |bits| == |d|
  {
  }

  lemma LiveHeader(d: Image, bits: seq<bool>, live: set<nat>, s: nat)
    requires Separated(d, bits, live) && s in live
    ensures s < |d| && HdrLength(d, s) < 0x8000_0000
    ensures HdrStart(d, s) == WordAt(d[s], 0) && HdrLength(d, s) == WordAt(d[s], 4)
  {
    assert Sound(d, s);
  }

  /** What nobody owned before an allocation nobody owns after the free map file
      has been rewritten; and the allocated sectors are nobody's either. */
  lemma NobodyOwns(d0: Image, d1: Image, bits: seq<bool>, live: set<nat>, sector: nat, start: nat, cnt: nat)
    requires Keeps(d0, d1, live, {0}) && Separated(d1, bits, live)
    requires forall t, x :: t in live && Owns(d0, t, x) ==> x != sector && !(start <= x < start + cnt)
    ensures forall t, x :: t in live && Owns(d1, t, x) ==> x != sector && !(start <= x < start + cnt)
  {
    forall t, x | t in live && Owns(d1, t, x)
      ensures Owns(d0, t, x)
    {
      assert Sound(d1, t) && KeepsInode(d0, d1, t, t in {0});
      SameHeader(d0, d1, t);
    }
  }

  // ----- the file system

  class FileSystem {
    const dev: Block
    const freeMap: Bitmap
    var freeMapFile: File?
    // The list of open inodes.
    var openInodes: seq<Inode>
    // Its elements, by sector.
    ghost var table: map<nat, Inode>
    // The files that have been opened and not closed.
    ghost var files: set<File>

    /** inode_init and free_map_init: nothing is open, and only the two system
        inode sectors are marked. */
    constructor (dev: Block)
      requires 2 <= |dev.sectors| <= 0x8000_0000
      ensures this.dev == dev && fresh(freeMap) && freeMapFile == null && openInodes == [] && table == map[]
              && files == {}
      ensures freeMap.bits == SetRange(NoneUsed(|dev.sectors|), 0, 2, true)
    {
      this.dev := dev;
      var usedMap := new Bitmap(|dev.sectors|);
      usedMap.SetMultiple(0, 2, true);
      freeMap, freeMapFile, openInodes, table, files := usedMap, null, [], map[], {};
    }

    /** The live inodes: the two system inodes, the named and the open ones. */
    ghost function Live(): set<nat>
      reads this, dev
    {
      {0, 1} + Names(dev.sectors).Values + table.Keys
    }

    ghost function FreeMapInode(): set<Inode>
      reads this
    {
      if freeMapFile == null then {} else {freeMapFile.inode}
    }

    /** The free map file, while it is open, is file 0 and as large as the free
        map, and writable. */
    ghost predicate FreeMapFileOk(live: set<nat>)
      reads this, dev, freeMap, FreeMapInode()`denyWriteCnt
    {
      freeMapFile != null ==>
        && 0 in live && 0 < |dev.sectors|
        && freeMapFile.inode.sector == 0 && Matches(freeMapFile.inode)
        && freeMapFile.inode.denyWriteCnt == 0
        && HdrLength(dev.sectors, 0) == FileSize(|freeMap.bits|)
    }

    /** An in-memory inode agrees with its header on the disk. */
    ghost predicate Matches(inode: Inode)
      reads dev
    {
      && inode.sector < |dev.sectors|
      && inode.start == HdrStart(dev.sectors, inode.sector)
      && inode.length == HdrLength(dev.sectors, inode.sector) >= 0
    }

    /** The disk-level invariant for a given set of live inodes. */
    ghost predicate Base(live: set<nat>)
      reads this, dev, freeMap, FreeMapInode()`denyWriteCnt
    {
      && 2 <= |dev.sectors| <= 0x8000_0000
      && Separated(dev.sectors, freeMap.bits, live)
      && FreeMapFileOk(live)
    }

    // ----- free-map.c

    /** Writes the free map to its file. With the invariant it never falls
        short, so the caller's recovery from that is dead code. */
    method WriteFreeMap(ghost live: set<nat>) returns (ok: bool)
      requires Base(live) && freeMapFile != null
      modifies dev
      ensures ok && Base(live) && Saved(dev.sectors, freeMap.bits)
      ensures Keeps(old(dev.sectors), dev.sectors, live, {0})
    {
      var buf := Pack(freeMap.bits);
      ghost var d := dev.sectors;
      assert Sound(d, 0);
      var n := freeMapFile.inode.WriteAt(dev, buf, |buf|, 0);
      ok := n == |buf|;
      assert buf[..n] == buf;
      WriteInFile(d, freeMap.bits, live, 0, 0, buf);
      assert Overwrite(FileAt(d, 0), 0, buf) == buf;
      SameHeader(d, dev.sectors, 0);
      UnpackPack(freeMap.bits);
    }

    /** Allocates cnt consecutive sectors, if there are that many: the first
        such run, which then is marked used, in memory and in the file. */
    method FreeMapAllocate(cnt: nat, ghost live: set<nat>) returns (r: Option<nat>)
      requires Base(live)
      modifies dev, freeMap
      ensures Base(live) && Keeps(old(dev.sectors), dev.sectors, live, {0})
      ensures freeMapFile != null && old(Saved(dev.sectors, freeMap.bits)) ==> Saved(dev.sectors, freeMap.bits)
      ensures freeMapFile == null ==> dev.sectors == old(dev.sectors)
      ensures forall j :: 0 <= j && (r.Some? ==> j < r.value) ==> !RunAt(old(freeMap.bits), j, cnt, false)
      ensures r.Some? ==> RunAt(old(freeMap.bits), r.value, cnt, false)
      ensures r.Some? ==> freeMap.bits == SetRange(old(freeMap.bits), r.value, cnt, true)
      ensures r.Some? ==> forall s, x :: s in live && Owns(old(dev.sectors), s, x) ==> !(r.value <= x < r.value + cnt)
      ensures r.None? ==> freeMap.bits == old(freeMap.bits) && dev.sectors == old(dev.sectors)
    {
      ghost var bits := freeMap.bits;
      r := freeMap.ScanAndFlip(0, cnt, false);
      if r.Some? {
        MarkUsed(dev.sectors, bits, live, r.value, cnt);
        if freeMapFile != null {
          var ok := WriteFreeMap(live);
          if !ok { assert false; }
        }
      }
    }

    /** Makes cnt sectors available again. They must be in use, and here belong
        to no live inode. */
    method FreeMapRelease(sector: nat, cnt: nat, ghost live: set<nat>)
      requires Base(live) && freeMapFile != null && RunAt(freeMap.bits, sector, cnt, true)
      requires forall s, x :: s in live && Owns(dev.sectors, s, x) ==> !(sector <= x < sector + cnt)
      modifies dev, freeMap
      ensures Base(live) && Saved(dev.sectors, freeMap.bits)
      ensures Keeps(old(dev.sectors), dev.sectors, live, {0})
      ensures freeMap.bits == SetRange(old(freeMap.bits), sector, cnt, false)
    {
      MarkFree(dev.sectors, freeMap.bits, live, sector, cnt);
      freeMap.SetMultiple(sector, cnt, false);
      var ok := WriteFreeMap(live);
    }

    // ----- inode.c

    /** Creates an inode with length zero bytes in a sector that is marked used
        and belongs to nobody. Fails when there is no room for the data, and may
        fail for lack of memory. */
    method InodeCreate(sector: nat, length: OffT, memory: bool, ghost live: set<nat>) returns (success: bool)
      requires Base(live) && length >= 0
      requires sector < |freeMap.bits| && freeMap.bits[sector]
      requires forall t, x :: t in live && Owns(dev.sectors, t, x) ==> x != sector
      modifies dev, freeMap
      ensures Keeps(old(dev.sectors), dev.sectors, live, {0})
      ensures sector !in live
      ensures success ==> Base(live + {sector}) && length <= 0x7fff_fe00
      ensures (memory && length <= 0x7fff_fe00
               && exists j :: 0 <= j && RunAt(old(freeMap.bits), j, Sectors(length), false)) ==> success
      ensures success ==> forall j :: 0 <= j < HdrStart(dev.sectors, sector) ==>
                !RunAt(old(freeMap.bits), j, Sectors(length), false)
      ensures success ==> HdrLength(dev.sectors, sector) == length && FileAt(dev.sectors, sector) == Zeros(length)
      ensures success ==> RunAt(old(freeMap.bits), HdrStart(dev.sectors, sector), Sectors(length), false)
      ensures success ==>
                freeMap.bits == SetRange(old(freeMap.bits), HdrStart(dev.sectors, sector), Sectors(length), true)
      ensures !success ==> Base(live) && freeMap.bits == old(freeMap.bits) && dev.sectors == old(dev.sectors)
      ensures freeMapFile != null && old(Saved(dev.sectors, freeMap.bits)) ==> Saved(dev.sectors, freeMap.bits)
    {
      var granted: bool := *;
      if !memory && !granted {
        assert sector !in live by { if sector in live { assert Owns(dev.sectors, sector, sector); } }
        return false;
      }
      var sectors := BytesToSectors(length);
      ghost var d0, bits0 := dev.sectors, freeMap.bits;
      var r := FreeMapAllocate(sectors, live);
      assert sector !in live by { if sector in live { assert Owns(d0, sector, sector); } }
      if r.None? {
        return false;
      }
      var start := r.value;
      ghost var d1 := dev.sectors;
      NobodyOwns(d0, d1, freeMap.bits, live, sector, start, sectors);
      WriteNewInode(sector, start, length, sectors);
      NewInode(d1, dev.sectors, freeMap.bits, live, sector, start, length);
      KeepsTrans(d0, d1, dev.sectors, live, {0}, {});
      assert {0} + {} == {0};
      if 0 in live {
        assert KeepsInode(d1, dev.sectors, 0, false);
        SameHeader(d1, dev.sectors, 0);
      }
      success := true;
    }

    /** Writes the header, then a zero block to each data sector. */
    method WriteNewInode(sector: nat, start: nat, length: OffT, sectors: nat)
      requires length >= 0 && start < 0x1_0000_0000
      requires sector < |dev.sectors| && start + sectors <= |dev.sectors| && !(start <= sector < start + sectors)
      modifies dev
      ensures |dev.sectors| == |old(dev.sectors)| && dev.sectors[sector] == Header(start, length)
      ensures forall x :: start <= x < start + sectors ==> dev.sectors[x] == Zeros(512)
      ensures forall x :: 0 <= x < |dev.sectors| && x != sector && !(start <= x < start + sectors) ==>
                dev.sectors[x] == old(dev.sectors)[x]
    {
      dev.Write(sector, Header(start, length));
      for i := 0 to sectors
        invariant |dev.sectors| == |old(dev.sectors)| && dev.sectors[sector] == Header(start, length)
        invariant forall x :: start <= x < start + i ==> dev.sectors[x] == Zeros(512)
        invariant forall x :: 0 <= x < |dev.sectors| && x != sector && !(start <= x < start + i) ==>
                    dev.sectors[x] == old(dev.sectors)[x]
      {
        dev.Write(start + i, Zeros(512));
      }
    }

    // ----- the whole invariant

    /** The list has the inodes of the table, each once: at most one in-memory
        inode per sector. */
    ghost predicate ListOk()
      reads this
    {
      Lists(openInodes, table)
    }

    /** Every open inode agrees with the disk. */
    ghost predicate TableOk()
      reads this, dev
    {
      forall s :: s in table ==> table[s].sector == s && Matches(table[s])
    }

    /** An open inode is marked removed exactly when nothing names it. */
    ghost predicate RemovedOk()
      reads this, dev, table.Values`removed
    {
      forall s :: s in table ==> (table[s].removed <==> !Named(s))
    }

    ghost predicate Named(s: nat)
      reads dev
    {
      s < 2 || s in Names(dev.sectors).Values
    }

    /** Every open inode is counted once for each file on it, and once more if
        the operation in progress holds a reference to it; its writers are denied once for each
        file that asked for it. */
    ghost predicate Counts(held: set<nat>)
      reads this, table.Values`openCnt, table.Values`denyWriteCnt, files`denyWrite
    {
      && (forall s :: s in table ==> Counted(table[s], s in held))
      && held <= table.Keys
    }

    ghost predicate Counted(inode: Inode, held: bool)
      reads this`files, inode`openCnt, inode`denyWriteCnt, files`denyWrite
    {
      && inode.openCnt == |FilesOn(files, inode.sector)| + (if held then 1 else 0)
      && inode.openCnt >= 1
      && inode.denyWriteCnt == |DeniersOn(files, inode.sector)|
    }

    /** Files are on open inodes. Only the free map file is on inode 0 and no
        file is on the root directory; neither is ever denied writes. */
    ghost predicate FilesOk()
      reads this, files
    {
      && freeMapFile != null && freeMapFile in files && freeMapFile.inode.sector == 0
      && (forall f :: f in files ==> FileOk(f))
    }

    ghost predicate FileOk(f: File)
      reads this, f
    {
      && f.inode.sector in table && table[f.inode.sector] == f.inode
      && f.pos >= 0
      && (f.inode.sector < 2 ==> f == freeMapFile && !f.denyWrite)
    }

    /** held: inodes the operation in progress holds open; extra: inodes that it
        has created and not yet named. */
    ghost predicate Inv(held: set<nat>, extra: set<nat>)
      reads this, dev, freeMap, files, table.Values, FreeMapInode()`denyWriteCnt
    {
      && Base(Live() + extra)
      && Saved(dev.sectors, freeMap.bits)
      && NamesOk(dev.sectors)
      && ListOk() && TableOk() && RemovedOk() && Counts(held) && FilesOk()
    }

    ghost predicate Valid()
      reads this, dev, freeMap, files, table.Values, FreeMapInode()`denyWriteCnt
    {
      Inv({}, {})
    }

    /** The in-memory inode for a sector, if it is open. */
    method FindOpen(sector: nat) returns (r: Inode?)
      requires ListOk()
      ensures r != null ==> sector in table && r == table[sector] && r.sector == sector
      ensures r == null ==> sector !in table || table[sector].sector != sector
    {
      for e := 0 to |openInodes|
        invariant forall k :: 0 <= k < e ==> openInodes[k].sector != sector
      {
        if openInodes[e].sector == sector {
          return openInodes[e];
        }
      }
      return null;
    }

    method PushOpen(inode: Inode)
      requires ListOk() && inode.sector !in table
      modifies this`openInodes, this`table
      ensures ListOk() && table == old(table)[inode.sector := inode] && openInodes == [inode] + old(openInodes)
    {
      openInodes := [inode] + openInodes;
      table := table[inode.sector := inode];
    }

    method ReopenInode(inode: Inode, ghost held: set<nat>, ghost extra: set<nat>)
      requires Inv(held, extra) && inode.sector in table && table[inode.sector] == inode && inode.sector !in held
      modifies inode`openCnt
      ensures Inv(held + {inode.sector}, extra) && inode.openCnt == old(inode.openCnt) + 1
    {
      hide Names, NamesOk, Saved, Separated, ListOk;
      inode.openCnt := inode.openCnt + 1;
    }

    /** Opens the inode in a live sector: the one already in memory, if there
        is one. May fail for lack of memory. */
    method OpenInode(sector: nat, memory: bool, ghost held: set<nat>, ghost extra: set<nat>) returns (r: Inode?)
      requires Inv(held, extra) && sector in Live() && sector !in held
      modifies this`openInodes, this`table, table.Values`openCnt
      ensures r == null ==> table == old(table) && Inv(held, extra)
      ensures r != null ==> r.sector == sector && table == old(table)[sector := r] && Inv(held + {sector}, extra)
      ensures r != null && sector !in old(table) ==> fresh(r)
      ensures r != null && sector in old(table) ==> r == old(table)[sector]
      ensures Live() == old(Live()) && (memory ==> r != null)
    {
      hide Names, NamesOk, Saved, Separated;
      r := FindOpen(sector);
      if r != null {
        ReopenInode(r, held, extra);
        return;
      }
      var granted: bool := *;
      if memory || granted {
        r := ReadInode(sector, held, extra);
      }
    }

    /** Brings the inode in a live sector that is not open into memory. */
    method ReadInode(sector: nat, ghost held: set<nat>, ghost extra: set<nat>) returns (inode: Inode)
      requires Inv(held, extra) && sector in Live() && sector !in table && sector !in held
      modifies this`openInodes, this`table
      ensures fresh(inode) && inode.sector == sector && table == old(table)[sector := inode]
      ensures Inv(held + {sector}, extra) && Live() == old(Live())
    {
      hide Names, NamesOk, Saved, Separated, HdrStart, HdrLength, ListOk, Counts, FilesOk;
      LiveHeader(dev.sectors, freeMap.bits, Live() + extra, sector);
      assert Named(sector);
      var data := dev.Read(sector);
      inode := new Inode(sector, WordAt(data, 0), WordAt(data, 4));
      EnterInode(inode, held, extra);
    }

    method EnterInode(inode: Inode, ghost held: set<nat>, ghost extra: set<nat>)
      requires Inv(held, extra) && inode.sector in Live() && inode.sector !in table && inode.sector !in held
      requires Matches(inode) && Named(inode.sector)
      requires inode.openCnt == 1 && inode.denyWriteCnt == 0 && !inode.removed
      modifies this`openInodes, this`table
      ensures table == old(table)[inode.sector := inode]
      ensures Inv(held + {inode.sector}, extra) && Live() == old(Live())
    {
      hide Names, NamesOk, Saved, Separated, HdrStart, HdrLength, ListOk, Matches, FilesOn, DeniersOn;
      NoFileYet(inode.sector);
      PushOpen(inode);
      assert Live() == old(Live());
    }

    lemma NoFileYet(sector: nat)
      requires FilesOk() && sector !in table
      ensures FilesOn(files, sector) == {} && DeniersOn(files, sector) == {}
    {
      forall f | f in files
        ensures f.inode.sector != sector
      {
        assert FileOk(f);
      }
    }

    /** A change of the disk that keeps all live inodes, and all contents but
        those of one inode, not the root directory's, keeps the invariant. */
    twostate lemma KeptInv(new held: set<nat>, new extra: set<nat>, new extra': set<nat>, changed: nat)
      requires old(Inv(held, extra))
      requires changed != 1 && unchanged(this) && unchanged(table.Values) && unchanged(files)
      requires Base(old(Live()) + extra') && Saved(dev.sectors, freeMap.bits)
      requires Keeps(old(dev.sectors), dev.sectors, old(Live()) + extra, {changed})
      ensures Names(dev.sectors) == old(Names(dev.sectors)) && Live() == old(Live())
      ensures Inv(held, extra')
    {
      hide Names, Saved, Separated, ListOk, Counts, FilesOk, NamesOk;
      KeptNames(old(dev.sectors), dev.sectors, old(Live()) + extra, {changed});
      assert Live() == old(Live());
      forall s | s in table
        ensures Matches(table[s])
      {
        assert old(Matches(table[s]));
        assert KeepsInode(old(dev.sectors), dev.sectors, s, s in {changed});
        SameHeader(old(dev.sectors), dev.sectors, s);
      }
    }

    method ListRemove(inode: Inode)
      requires ListOk() && inode.sector in table && table[inode.sector] == inode
      requires forall s :: s in table ==> table[s].sector == s
      modifies this`openInodes, this`table
      ensures ListOk() && table == old(table) - {inode.sector}
    {
      var k :| 0 <= k < |openInodes| && openInodes[k] == inode;
      Unlisted(openInodes, table, k);
      openInodes := openInodes[..k] + openInodes[k + 1..];
      table := table - {inode.sector};
    }

    /** The last reference to an inode is dropped: it leaves memory, and is live
        from now on only if it is named. */
    method LeaveInode(inode: Inode, ghost held: set<nat>, ghost extra: set<nat>)
      requires Inv(held, extra) && inode.sector in held && table[inode.sector] == inode && inode.openCnt == 1
      modifies this`openInodes, this`table, inode`openCnt
      ensures table == old(table) - {inode.sector}
      ensures Inv(held - {inode.sector}, extra)
      ensures Live() == if Named(inode.sector) then old(Live()) else old(Live()) - {inode.sector}
    {
      hide Names, NamesOk, Saved, Separated, HdrStart, HdrLength, ListOk, Matches, Counted;
      FewerLive(dev.sectors, freeMap.bits, Live() + extra,
          Live() - (if Named(inode.sector) then {} else {inode.sector}) + extra);
      NoFilesOn(inode);
      inode.openCnt := 0;
      ListRemove(inode);
      assert Live() == if Named(inode.sector) then old(Live()) else old(Live()) - {inode.sector};
    }

    /** Frees the sectors of an inode that is not live any more. */
    method ReleaseInode(inode: Inode, ghost held: set<nat>, ghost extra: set<nat>)
      requires Inv(held, extra) && Sound(dev.sectors, inode.sector) && Matches(inode)
      requires inode.sector !in Live() + extra && inode.sector < |freeMap.bits| && freeMap.bits[inode.sector]
      requires RunAt(freeMap.bits, inode.start, Sectors(inode.length), true)
      requires forall t, x :: t in Live() + extra && Owns(dev.sectors, t, x) ==>
                 x != inode.sector && !(inode.start <= x < inode.start + Sectors(inode.length))
      modifies dev, freeMap
      ensures Inv(held, extra) && Live() == old(Live())
      ensures freeMap.bits == Released(old(dev.sectors), old(freeMap.bits), inode.sector)
      ensures Names(dev.sectors) == old(Names(dev.sectors)) && Keeps(old(dev.sectors), dev.sectors, Live() + extra, {0})
    {
      hide Names, NamesOk, Saved, Separated, ListOk, TableOk, Counts;
      ghost var live, d0 := Live() + extra, dev.sectors;
      FreeMapRelease(inode.sector, 1, live);
      NobodyOwns(d0, dev.sectors, freeMap.bits, live, inode.sector, inode.start, Sectors(inode.length));
      var sectors := BytesToSectors(inode.length);
      ghost var d1 := dev.sectors;
      FreeMapRelease(inode.start, sectors, live);
      KeepsTrans(d0, d1, dev.sectors, live, {0}, {0});
      assert {0} + {0} == {0};
      KeptInv(held, extra, extra, 0);
    }

    /** Drops a reference. With the last one the inode leaves memory and, if it
        has been removed, its sectors are freed: they are all in use then, as
        free_map_release asserts. */
    method CloseInode(inode: Inode, ghost held: set<nat>, ghost extra: set<nat>)
      requires Inv(held, extra) && inode.sector in held && table[inode.sector] == inode && inode.sector !in extra
      modifies this`openInodes, this`table, inode`openCnt, dev, freeMap
      ensures Inv(held - {inode.sector}, extra)
      ensures table == if old(inode.openCnt) == 1 then old(table) - {inode.sector} else old(table)
      ensures Names(dev.sectors) == old(Names(dev.sectors)) && Keeps(old(dev.sectors), dev.sectors, Live() + extra, {0})
      ensures if old(inode.openCnt) == 1 && inode.removed
              then freeMap.bits == Released(old(dev.sectors), old(freeMap.bits), inode.sector)
              else dev.sectors == old(dev.sectors) && freeMap.bits == old(freeMap.bits)
    {
      hide Names, NamesOk, Saved, Separated, ListOk, FilesOk, HdrStart, HdrLength;
      if inode.openCnt == 1 {
        assert inode.removed <==> !Named(inode.sector);
        ExtentOf(dev.sectors, freeMap.bits, Live() + extra, inode.sector);
        LeaveInode(inode, held, extra);
        if inode.removed {
          ReleaseInode(inode, held - {inode.sector}, extra);
        }
      } else {
        DropReference(inode, held, extra);
      }
    }

    method DropReference(inode: Inode, ghost held: set<nat>, ghost extra: set<nat>)
      requires Inv(held, extra) && inode.sector in held && table[inode.sector] == inode && inode.openCnt > 1
      modifies inode`openCnt
      ensures Inv(held - {inode.sector}, extra) && Live() == old(Live())
    {
      hide Names, NamesOk, Saved, Separated, ListOk;
      inode.openCnt := inode.openCnt - 1;
    }

    // ----- directory.c and filesys.c

    /** The sectors of the open files, the free map file excepted. */
    ghost function HandleSectors(): map<File, nat>
      reads this`files, this`freeMapFile
    {
      map f | f in files && f != freeMapFile :: f.inode.sector
    }

    /** The open files and their contents. */
    ghost function Handles(): map<File, seq<byte>>
      reads this, dev
    {
      FilesOf(HandleSectors(), dev.sectors)
    }

    lemma RootOk(root: Inode, held: set<nat>, extra: set<nat>)
      requires Inv(held, extra) && 1 in table && table[1] == root
      ensures root.sector == 1 && Readable(dev, root) && BytesOf(dev, root) == FileAt(dev.sectors, 1)
      ensures WellFormed(FileAt(dev.sectors, 1)) && Names(dev.sectors) == NameMap(FileAt(dev.sectors, 1))
      ensures root.denyWriteCnt == 0 && Sound(dev.sectors, 1) && 1 in Live() && root.start == HdrStart(dev.sectors, 1)
    {
      hide Saved, ListOk;
      assert Matches(table[1]) && Counted(table[1], 1 in held);
      assert Sound(dev.sectors, 1);
      forall f | f in files
        ensures f.inode.sector != 1
      {
        assert FileOk(f);
      }
      assert DeniersOn(files, 1) == {};
    }

    /** dir_open_root. The root directory is not removed, so closing it again
        frees nothing. */
    method OpenRoot(memory: bool) returns (root: Inode?)
      requires Valid()
      modifies this`openInodes, this`table, table.Values`openCnt, dev, freeMap
      ensures dev.sectors == old(dev.sectors) && freeMap.bits == old(freeMap.bits)
      ensures memory ==> root != null
      ensures root == null ==> Valid() && table == old(table)
      ensures root != null ==> Inv({1}, {}) && 1 in table && table[1] == root && root.sector == 1 && fresh(root)
      ensures root != null ==> table == old(table)[1 := root] && table - {1} == old(table)
    {
      hide Names, NamesOk, Saved, ListOk, Base, TableOk, Counts, FilesOk, RemovedOk, Matches;
      NotOpen(1);
      assert {} + {1} == {1};
      var granted: bool := *;
      root := OpenInode(1, memory, {}, {});
      if root != null && !memory && !granted {
        CloseRoot(root);
        root := null;
      }
    }

    method CloseRoot(root: Inode)
      requires Inv({1}, {}) && 1 in table && table[1] == root && root.sector == 1
      modifies this`openInodes, this`table, root`openCnt, dev, freeMap
      ensures Valid() && dev.sectors == old(dev.sectors) && freeMap.bits == old(freeMap.bits)
              && table == old(table) - {1}
    {
      hide Names, NamesOk, Saved, ListOk, Base, TableOk, Counts, FilesOk, Matches;
      assert {1} - {1} == {};
      assert Named(1);
      CloseInode(root, {1}, {});
      NotOpen(1);
    }

    lemma NotOpen(s: nat)
      requires Valid() && s == 1
      ensures s !in table
    {
      hide Names, NamesOk, Saved, Separated, ListOk;
      forall f | f in files
        ensures f.inode.sector != s
      {
        assert FileOk(f);
      }
      assert FilesOn(files, s) == {};
      assert forall i :: i in table ==> Counted(table[i], false);
    }

    /** A write inside the root directory file changes no other live inode. */
    twostate lemma RootWritten(root: Inode, new held: set<nat>, new extra: set<nat>, new at: nat,
                               new written: seq<byte>)
      requires old(Inv(held, extra)) && 1 in table && table[1] == root
      requires unchanged(this) && unchanged(freeMap) && unchanged(table.Values`denyWriteCnt) && unchanged(files)
      requires at + |written| <= root.length || written == []
      requires dev.sectors == Splice(old(dev.sectors), root.start, at, written)
      ensures Base(old(Live()) + extra) && Saved(dev.sectors, freeMap.bits) && TableOk()
      ensures Keeps(old(dev.sectors), dev.sectors, old(Live()) + extra, {1})
      ensures BytesOf(dev, root) == FileAt(dev.sectors, 1)
    {
      hide Names, Separated, Counts, ListOk;
      var live, d := old(Live()) + extra, old(dev.sectors);
      assert old(Matches(table[1]));
      SpliceNothing(d, root.start, at);
      SpliceNothing(d, root.start, 0);
      WriteInFile(d, freeMap.bits, live, 1, if written == [] then 0 else at, written);
      forall s | s in live
        ensures s < |d| && d[s] == dev.sectors[s]
        ensures HdrStart(dev.sectors, s) == HdrStart(d, s) && HdrLength(dev.sectors, s) == HdrLength(d, s)
      {
        LiveHeader(d, freeMap.bits, live, s);
        assert KeepsInode(d, dev.sectors, s, s in {1});
        SameHeader(d, dev.sectors, s);
      }
      assert KeepsInode(d, dev.sectors, 0, false);
      forall s | s in table
        ensures Matches(table[s])
      {
        assert old(Matches(table[s]));
      }
    }

    /** Names a new inode in the root directory. */
    method AddEntry(root: Inode, name: Name, sector: U32) returns (success: bool)
      requires Inv({1}, {sector}) && 1 in table && table[1] == root && sector !in Live()
      modifies dev
      ensures Keeps(old(dev.sectors), dev.sectors, old(Live()) + {sector}, {1})
      ensures success <==> CanAdd(old(dev.sectors), name)
      ensures success ==> Inv({1}, {}) && Names(dev.sectors) == old(Names(dev.sectors))[name := sector]
      ensures !success ==> Inv({1}, {sector}) && Names(dev.sectors) == old(Names(dev.sectors))
    {
      hide Names, NamesOk, Saved, Base, ListOk, TableOk, RemovedOk, Counts, FilesOk, Holds, NameMap, WellFormed, InUse,
           RecordAt;
      RootOk(root, {1}, {sector});
      ghost var at, written;
      success, at, written := Add(dev, root, name, sector);
      RootWritten(root, {1}, {sector}, at, written);
      NamesAre(dev.sectors);
      if success {
        AddedName(old(Names(dev.sectors)), Names(dev.sectors), name, sector);
        assert Live() == old(Live()) + {sector};
        EntryAdded(name, sector);
      } else {
        SameNames({1}, {sector});
      }
    }

    twostate lemma SameNames(new held: set<nat>, new extra: set<nat>)
      requires old(Inv(held, extra))
      requires unchanged(this) && unchanged(freeMap) && unchanged(table.Values) && unchanged(files)
      requires Base(old(Live()) + extra) && Saved(dev.sectors, freeMap.bits) && TableOk()
               && WellFormed(FileAt(dev.sectors, 1))
      requires Names(dev.sectors) == old(Names(dev.sectors))
      ensures Inv(held, extra)
    {
      hide Names, Saved, Separated, ListOk, TableOk, Base, Counts, FilesOk;
    }

    /** Naming a new inode completes its creation. */
    twostate lemma EntryAdded(new name: Name, sector: nat)
      requires old(Inv({1}, {sector})) && sector !in old(Live()) && name !in old(Names(dev.sectors))
      requires unchanged(this) && unchanged(freeMap) && unchanged(table.Values) && unchanged(files)
      requires Base(Live()) && Saved(dev.sectors, freeMap.bits) && TableOk() && WellFormed(FileAt(dev.sectors, 1))
      requires Names(dev.sectors) == old(Names(dev.sectors))[name := sector]
      ensures Inv({1}, {})
    {
      hide Names, NamesOk, Saved, Separated, ListOk, TableOk, Base, Counts, FilesOk;
      NamesAdded(old(dev.sectors), dev.sectors, name, sector);
      assert Live() + {} == Live();
      forall s | s in table
        ensures Named(s) <==> old(Named(s))
      {
        assert s != sector;
      }
    }

    /** inode_create and dir_add for a new file whose header sector has been
        allocated. When dir_add fails, the new inode belongs to nobody and its
        data sectors stay marked used. */
    method CreateEntry(root: Inode, name: Name, sector: U32, size: OffT, memory: bool)
      returns (success: bool, ghost created: bool, ghost start: nat)
      requires Inv({1}, {}) && 1 in table && table[1] == root && size >= 0
      requires sector < |freeMap.bits| && freeMap.bits[sector] && Unowned(Live(), sector)
      modifies dev, freeMap
      ensures Inv({1}, {}) && Keeps(old(dev.sectors), dev.sectors, old(Live()), {0, 1}) && sector !in old(Live())
      ensures success <==> created && CanAdd(old(dev.sectors), name)
      ensures created ==> size <= 0x7fff_fe00 && RunAt(old(freeMap.bits), start, Sectors(size), false)
      ensures (memory && size <= 0x7fff_fe00
               && exists j :: 0 <= j && RunAt(old(freeMap.bits), j, Sectors(size), false)) ==> created
      ensures freeMap.bits == if created then SetRange(old(freeMap.bits), start, Sectors(size), true)
              else old(freeMap.bits)
      ensures success ==>
                Names(dev.sectors) == old(Names(dev.sectors))[name := sector]
                    && FileAt(dev.sectors, sector) == Zeros(size)
      ensures !success ==> Names(dev.sectors) == old(Names(dev.sectors)) && Unowned(Live(), sector)
    {
      hide Names, NamesOk, Saved, Separated, ListOk, TableOk, RemovedOk, Counts, FileOk, Keeps, CanAdd;
      ghost var live, d0 := Live(), dev.sectors;
      assert live + {} == live;
      success := InodeCreate(sector, size, memory, live);
      created, start := success, HdrStart(dev.sectors, sector);
      ghost var d1 := dev.sectors;
      if success {
        KeptInv({1}, {}, {sector}, 0);
        SameCanAdd(d0, d1, live, name);
        success := AddEntry(root, name, sector);
        KeepsTwice(d0, d1, dev.sectors, live, live + {sector});
        if success {
          LiveHeader(d1, freeMap.bits, live + {sector}, sector);
          KeptFile(d1, dev.sectors, live + {sector}, {1}, sector);
        } else {
          Abandon({1}, sector);
        }
      } else {
        KeepsAll(d0, live, {0, 1});
        KeptInv({1}, {}, {}, 0);
      }
    }

    /** An inode that is neither named nor open is not live; its sectors are
        nobody's. */
    lemma Abandon(held: set<nat>, sector: nat)
      requires Inv(held, {sector}) && sector !in Live()
      ensures Inv(held, {}) && Unowned(Live(), sector)
    {
      hide Names, NamesOk, Saved, ListOk, TableOk, RemovedOk, Counts, FilesOk;
      FewerLive(dev.sectors, freeMap.bits, Live() + {sector}, Live() + {});
      ExtentOf(dev.sectors, freeMap.bits, Live() + {sector}, sector);
    }

    ghost predicate Unowned(live: set<nat>, sector: nat)
      reads dev
    {
      forall t, x :: t in live && Owns(dev.sectors, t, x) ==> x != sector
    }

    /** What keeps all live inodes but the system's keeps the named and the open files. */
    twostate lemma SameFiles(new held: set<nat>, new extra: set<nat>)
      requires old(Inv(held, extra)) && unchanged(this) && unchanged(files)
      requires Keeps(old(dev.sectors), dev.sectors, old(Live()), {0, 1})
      ensures Handles() == old(Handles()) && FilesOf(old(Names(dev.sectors)), dev.sectors) == old(Tree(dev.sectors))
    {
      hide Names, Saved, ListOk, TableOk, RemovedOk, Counts, WellFormed, Separated, Keeps;
      forall s | s in old(Live())
        ensures s < old(|dev.sectors|)
      {
        LiveHeader(old(dev.sectors), old(freeMap.bits), old(Live()) + extra, s);
      }
      forall f | f in HandleSectors()
        ensures HandleSectors()[f] in old(Live()) && HandleSectors()[f] >= 2
      {
        assert old(FileOk(f));
      }
      forall n | n in old(Names(dev.sectors))
        ensures old(Names(dev.sectors))[n] in old(Live()) && old(Names(dev.sectors))[n] >= 2
      {
        assert old(Names(dev.sectors))[n] in old(Names(dev.sectors)).Values;
      }
      KeptFiles(HandleSectors(), old(dev.sectors), dev.sectors, old(Live()), {0, 1});
      KeptFiles(old(Names(dev.sectors)), old(dev.sectors), dev.sectors, old(Live()), {0, 1});
    }

    /** The part of filesys_create between opening and closing the root
        directory. */
    method CreateIn(root: Inode, name: Name, size: OffT, memory: bool) returns (success: bool)
      requires Inv({1}, {}) && 1 in table && table[1] == root && size >= 0
      modifies dev, freeMap
      ensures Inv({1}, {}) && Handles() == old(Handles())
      ensures Tree(dev.sectors) == if success then old(Tree(dev.sectors))[name := Zeros(size)]
              else old(Tree(dev.sectors))
      ensures success ==> CanAdd(old(dev.sectors), name) && Room(old(freeMap.bits), size)
      ensures memory && CanAdd(old(dev.sectors), name) && Room(old(freeMap.bits), size) ==> success
      ensures success ==> Taken(old(freeMap.bits), freeMap.bits, Sectors(size))
      ensures !success ==> freeMap.bits == old(freeMap.bits) || Leaked(old(freeMap.bits), freeMap.bits, Sectors(size))
      ensures !success && memory && Room(old(freeMap.bits), size) ==>
                Leaked(old(freeMap.bits), freeMap.bits, Sectors(size))
      ensures !success && (!Room(old(freeMap.bits), size) || CanAdd(old(dev.sectors), name)) ==>
                freeMap.bits == old(freeMap.bits)
      ensures memory ==> (!success && freeMap.bits != old(freeMap.bits)
                          <==> Room(old(freeMap.bits), size) && !CanAdd(old(dev.sectors), name) && Sectors(size) > 0)
    {
      hide Names, NamesOk, Saved, Separated, ListOk, TableOk, RemovedOk, Counts, FileOk, Keeps, CanAdd, Taken, Leaked;
      ghost var live, d0, bits0 := Live(), dev.sectors, freeMap.bits;
      assert live + {} == live;
      var r := FreeMapAllocate(1, live);
      KeptInv({1}, {}, {}, 0);
      FirstFreeIs(bits0, r);
      if r.None? {
        KeepsMore(d0, dev.sectors, live);
        SameFiles({1}, {});
        return false;
      }
      var sector := r.value;
      SameSize(dev.sectors, freeMap.bits, live);
      ghost var d1, bits1 := dev.sectors, freeMap.bits;
      NobodyOwns(d0, d1, bits1, live, sector, sector, 1);
      SameCanAdd(d0, d1, live, name);
      ghost var created, start;
      success, created, start := CreateEntry(root, name, sector, size, memory);
      KeepsThen(d0, d1, dev.sectors, live);
      assert bits1 == bits0[sector := true];
      assert created ==> RoomAt(bits0, sector, start, Sectors(size));
      if created { TakenBy(bits0, sector, start, Sectors(size)); }
      if !success && sector != 0 {
        ghost var d2, bits2 := dev.sectors, freeMap.bits;
        if created {
          BitsAfter(bits0, sector, start, Sectors(size));
          LeakedBy(bits0, start, Sectors(size));
          LeakShows(bits0, start, Sectors(size));
        } else {
          Undone(bits0, sector);
        }
        assert Live() + {} == Live();
        label Failed: FreeMapRelease(sector, 1, Live());
        KeptInv@Failed({1}, {}, {}, 0);
        KeepsAfter(d0, d2, dev.sectors, live, Live());
      }
      SameFiles({1}, {});
    }

    /** filesys_create. Success is decided by the name, the directory and the
        free map alone, unless memory runs out. A failure after the data sectors
        have been allocated leaves them marked used: only the header sector is
        released. */
    method Create(name: Name, size: OffT, memory: bool) returns (success: bool)
      requires Valid() && size >= 0
      modifies this`openInodes, this`table, table.Values`openCnt, dev, freeMap
      ensures Valid() && Handles() == old(Handles()) && table == old(table)
      ensures Tree(dev.sectors) == if success then old(Tree(dev.sectors))[name := Zeros(size)]
              else old(Tree(dev.sectors))
      ensures success ==> CanAdd(old(dev.sectors), name) && Room(old(freeMap.bits), size)
      ensures memory && CanAdd(old(dev.sectors), name) && Room(old(freeMap.bits), size) ==> success
      ensures success ==> Taken(old(freeMap.bits), freeMap.bits, Sectors(size))
      ensures !success ==> freeMap.bits == old(freeMap.bits) || Leaked(old(freeMap.bits), freeMap.bits, Sectors(size))
      ensures !success && memory && Room(old(freeMap.bits), size) ==>
                Leaked(old(freeMap.bits), freeMap.bits, Sectors(size))
      ensures !success && (!Room(old(freeMap.bits), size) || CanAdd(old(dev.sectors), name)) ==>
                freeMap.bits == old(freeMap.bits)
      ensures memory ==> (!success && freeMap.bits != old(freeMap.bits)
                          <==> Room(old(freeMap.bits), size) && !CanAdd(old(dev.sectors), name) && Sectors(size) > 0)
    {
      hide Inv, Tree, CanAdd, Room, Taken, Leaked;
      success := false;
      var root := OpenRoot(memory);
      if root != null {
        success := CreateIn(root, name, size, memory);
        CloseRoot(root);
      }
    }

    /** Looks a name up in the root directory and opens its inode. */
    method FindInode(name: Name, memory: bool) returns (inode: Inode?)
      requires Valid()
      modifies this`openInodes, this`table, table.Values`openCnt, dev, freeMap
      ensures dev.sectors == old(dev.sectors) && freeMap.bits == old(freeMap.bits)
      ensures inode == null ==> Valid() && (memory ==> name !in Names(dev.sectors))
      ensures inode != null ==> name in Names(dev.sectors) && inode.sector == Names(dev.sectors)[name] >= 2
      ensures inode != null ==> Inv({inode.sector}, {}) && Opened(inode)
      ensures inode != null ==> inode in old(table.Values) || fresh(inode)
    {
      hide Names, NamesOk, Saved, ListOk, Base, TableOk, Counts, FilesOk, RemovedOk, Matches, Holds, NameMap,
           WellFormed;
      inode := null;
      var root := OpenRoot(memory);
      if root == null {
        return;
      }
      RootOk(root, {1}, {});
      label Searched: var found, e, ofs, slot := Lookup(dev, root, name);
      SameInv@Searched({1}, {});
      if found {
        MapHas(BytesOf(dev, root), slot, name);
        NamedIsLive(name, {1}, {});
        inode := OpenInode(SectorOf(e), memory, {1}, {});
      }
      if inode == null {
        CloseRoot(root);
      } else {
        CloseRootBeside(root, inode);
      }
    }

    method CloseRootBeside(root: Inode, inode: Inode)
      requires inode.sector >= 2 && Inv({1} + {inode.sector}, {})
      requires 1 in table && table[1] == root && root.sector == 1 && Opened(inode)
      modifies this`openInodes, this`table, root`openCnt, dev, freeMap
      ensures Inv({inode.sector}, {}) && Opened(inode) && dev.sectors == old(dev.sectors)
              && freeMap.bits == old(freeMap.bits)
    {
      hide Names, NamesOk, Saved, ListOk, Base, TableOk, Counts, FilesOk, Matches;
      assert {1} + {inode.sector} - {1} == {inode.sector};
      assert Named(1);
      CloseInode(root, {1} + {inode.sector}, {});
    }

    /** Nothing that the invariant depends on has changed. */
    twostate lemma SameInv(new held: set<nat>, new extra: set<nat>)
      requires old(Inv(held, extra))
      requires unchanged(this) && unchanged(dev) && unchanged(freeMap) && unchanged(files) && unchanged(table.Values)
      ensures Inv(held, extra)
    {
      hide Names, NamesOk, Saved, Separated, Lists, HdrLength;
    }

    ghost predicate Opened(inode: Inode)
      reads this
    {
      inode.sector in table && table[inode.sector] == inode
    }

    lemma NamedIsLive(name: Name, held: set<nat>, extra: set<nat>)
      requires Inv(held, extra) && name in Names(dev.sectors)
      ensures Names(dev.sectors)[name] in Live() && Names(dev.sectors)[name] >= 2
    {
      hide Names, Saved, ListOk, Base, TableOk, Counts, FilesOk, RemovedOk, WellFormed;
      assert Names(dev.sectors)[name] in Names(dev.sectors).Values;
    }

    /** file_open on an inode that is not about to be deleted. */
    method OpenFile(inode: Inode?, memory: bool) returns (f: File?)
      requires inode == null ==> Valid()
      requires inode != null ==>
                 inode.sector >= 2 && Inv({inode.sector}, {}) && Opened(inode) && (inode.openCnt > 1 || !inode.removed)
      modifies this`openInodes, this`table, this`files, (if inode == null then {} else {inode})`openCnt, dev, freeMap
      ensures Valid() && dev.sectors == old(dev.sectors) && freeMap.bits == old(freeMap.bits)
      ensures f == null ==> files == old(files)
      ensures f != null ==> inode != null && fresh(f) && f.inode == inode && f.pos == 0 && !f.denyWrite
      ensures f != null ==> files == old(files) + {f}
      ensures memory && inode != null ==> f != null
    {
      hide Names, NamesOk, Saved, ListOk, Base, TableOk, Counts, FilesOk, RemovedOk, Matches;
      var granted: bool := *;
      f := null;
      if inode != null && (memory || granted) {
        label Made: f := new File(inode);
        SameInv@Made({inode.sector}, {});
        EnterFile(f);
      } else if inode != null {
        assert {inode.sector} - {inode.sector} == {};
        CloseInode(inode, {inode.sector}, {});
      }
    }

    /** Only references and files have changed. */
    twostate lemma CountsInv(new held: set<nat>, new held': set<nat>, new extra: set<nat>)
      requires old(Inv(held, extra)) && Counts(held') && FilesOk()
      requires unchanged(this`openInodes) && unchanged(this`table) && unchanged(this`freeMapFile)
      requires unchanged(dev) && unchanged(freeMap) && unchanged(table.Values`removed)
      ensures Inv(held', extra)
    {
      hide Names, NamesOk, Saved, Separated, Lists, HdrLength, Counts, FileOk;
      assert table.Keys <= Live() + extra;
      FreeMapNotDenied(held');
    }

    lemma FreeMapNotDenied(held: set<nat>)
      requires Counts(held) && FilesOk()
      ensures freeMapFile.inode.denyWriteCnt == 0
    {
      assert FileOk(freeMapFile);
      assert Counted(table[0], 0 in held);
      forall f | f in files && f.inode.sector == 0
        ensures !f.denyWrite
      {
        assert FileOk(f);
      }
      assert DeniersOn(files, 0) == {};
    }

    /** The reference held by the operation in progress passes to a new file. */
    method EnterFile(f: File)
      requires Inv({f.inode.sector}, {}) && f !in files && f.pos == 0 && !f.denyWrite && f.inode.sector >= 2
               && Opened(f.inode)
      modifies this`files
      ensures Valid() && files == old(files) + {f}
    {
      hide Names, NamesOk, Saved, Base, ListOk, RemovedOk, Matches, FilesOn, DeniersOn, Live, Separated, HdrLength;
      files := files + {f};
      forall s | s in table
        ensures Counted(table[s], false)
      {
        assert old(Counted(table[s], s in {f.inode.sector}));
        assert table[s].sector == s;
        FilesOnMore(old(files), f, s);
      }
      forall g | g in files
        ensures FileOk(g)
      {
        assert g != f ==> old(FileOk(g));
      }
      CountsInv({f.inode.sector}, {}, {});
    }

    /** filesys_open. */
    method Open(name: Name, memory: bool) returns (f: File?)
      requires Valid()
      modifies this`openInodes, this`table, this`files, table.Values`openCnt, dev, freeMap
      ensures Valid() && dev.sectors == old(dev.sectors) && freeMap.bits == old(freeMap.bits)
      ensures f != null ==> name in Tree(dev.sectors) && fresh(f) && f.pos == 0 && !f.denyWrite
      ensures f != null ==> files == old(files) + {f} && Handles() == old(Handles())[f := Tree(dev.sectors)[name]]
      ensures f == null ==> files == old(files) && (memory ==> name !in Tree(dev.sectors))
    {
      hide Inv, Names;
      var inode := FindInode(name, memory);
      if inode != null {
        NotRemoved(inode, {inode.sector}, {}, name);
      }
      f := OpenFile(inode, memory);
      assert f != null ==> fresh(f) && f !in old(files) && f != freeMapFile by { if f != null { FreeMapIsOld(f); } }
    }

    lemma NotRemoved(inode: Inode, held: set<nat>, extra: set<nat>, name: Name)
      requires Inv(held, extra) && Opened(inode)
      requires name in Names(dev.sectors) && Names(dev.sectors)[name] == inode.sector
      ensures !inode.removed
    {
      hide Names, NamesOk, Saved, ListOk, Base, TableOk, Counts, FilesOk, Matches;
      assert Named(inode.sector);
    }

    lemma FreeMapIsOld(f: File)
      requires Valid() && f.inode.sector >= 2
      ensures f != freeMapFile
    {
      hide Names, NamesOk, Saved, ListOk, Base, TableOk, Counts, RemovedOk, Matches;
    }

    /** file_reopen. */
    method Reopen(file: File, memory: bool) returns (f: File?)
      requires Valid() && file in Handles()
      modifies this`openInodes, this`table, this`files, file.inode`openCnt, dev, freeMap
      ensures Valid() && dev.sectors == old(dev.sectors) && freeMap.bits == old(freeMap.bits)
      ensures f != null <== memory
      ensures f != null ==> fresh(f) && f.pos == 0 && !f.denyWrite
      ensures f != null ==> files == old(files) + {f} && Handles() == old(Handles())[f := old(Handles())[file]]
      ensures f == null ==> files == old(files)
    {
      hide Inv, Names;
      HandleOk(file);
      assert {} + {file.inode.sector} == {file.inode.sector};
      ReopenInode(file.inode, {}, {});
      f := OpenFile(file.inode, memory);
      assert f != null ==> f !in old(files) && f != freeMapFile by { if f != null { FreeMapIsOld(f); } }
    }

    lemma HandleOk(f: File)
      requires Valid() && f in Handles()
      ensures f in files && f != freeMapFile && freeMapFile != null && f.inode.sector >= 2 && Opened(f.inode)
              && Matches(f.inode)
      ensures f.inode.openCnt == |FilesOn(files, f.inode.sector)| >= 1 && f.pos >= 0
      ensures f.inode.denyWriteCnt == |DeniersOn(files, f.inode.sector)|
      ensures Handles()[f] == FileAt(dev.sectors, f.inode.sector)
              == Contents(dev.sectors, f.inode.start, f.inode.length)
      ensures f.inode.sector in Live() && Sound(dev.sectors, f.inode.sector)
    {
      hide Names, NamesOk, Saved, ListOk, RemovedOk;
      assert FileOk(f);
      assert Counted(table[f.inode.sector], false);
    }

    /** file_deny_write. */
    method DenyWrite(f: File)
      requires Valid() && f in Handles()
      modifies f`denyWrite, f.inode`denyWriteCnt
      ensures Valid() && f.denyWrite
      ensures f.inode.denyWriteCnt == old(f.inode.denyWriteCnt) + (if old(f.denyWrite) then 0 else 1)
    {
      hide Inv, Names;
      HandleOk(f);
      if !f.denyWrite {
        DenierCount(files, f);
        f.denyWrite := true;
        f.inode.DenyWrite();
        assert DeniersOn(files, f.inode.sector) == old(DeniersOn(files, f.inode.sector)) + {f};
        Denied(f);
      }
    }

    /** file_allow_write. */
    method AllowWrite(f: File)
      requires Valid() && f in Handles()
      modifies f`denyWrite, f.inode`denyWriteCnt
      ensures Valid() && !f.denyWrite
      ensures f.inode.denyWriteCnt == old(f.inode.denyWriteCnt) - (if old(f.denyWrite) then 1 else 0)
    {
      hide Inv, Names;
      HandleOk(f);
      if f.denyWrite {
        DenierCount(files, f);
        f.denyWrite := false;
        f.inode.AllowWrite();
        assert old(DeniersOn(files, f.inode.sector)) == DeniersOn(files, f.inode.sector) + {f};
        Denied(f);
      }
    }

    /** Setting a file's flag and adjusting its inode's count keeps the invariant. */
    twostate lemma Denied(f: File)
      requires old(Valid()) && old(f in Handles())
      requires unchanged(this) && unchanged(dev) && unchanged(freeMap)
      requires unchanged(table.Values`removed) && unchanged(table.Values`openCnt)
      requires unchanged(files`pos) && unchanged(files - {f}) && unchanged(table.Values - {f.inode})
      requires f.inode.denyWriteCnt == |DeniersOn(files, f.inode.sector)|
      ensures Valid()
    {
      hide Names, NamesOk, Saved, Base, ListOk, RemovedOk, Matches, FilesOn;
      assert old(FileOk(f));
      forall s | s in table
        ensures Counted(table[s], false)
      {
        assert old(Counted(table[s], false));
        assert table[s].sector == s;
        if s != f.inode.sector {
          assert DeniersOn(files, s) == old(DeniersOn(files, s));
        }
      }
      forall g | g in files
        ensures FileOk(g)
      {
        assert old(FileOk(g));
      }
      CountsInv({}, {}, {});
    }

    /** What keeps the contents of the live inodes keeps those of the named
        and of the open files. */
    lemma SameFilesNow(d: Image, held: set<nat>, extra: set<nat>)
      requires Inv(held, extra) && Keeps(d, dev.sectors, Live(), {0, 1})
      ensures FilesOf(HandleSectors(), d) == Handles() && FilesOf(Names(dev.sectors), d) == Tree(dev.sectors)
    {
      hide Names, Saved, ListOk, TableOk, RemovedOk, Counts, WellFormed, Separated, Keeps;
      forall s | s in Live()
        ensures s < |dev.sectors|
      {
        LiveHeader(dev.sectors, freeMap.bits, Live() + extra, s);
      }
      KeepsSize(d, dev.sectors, Live(), {0, 1});
      forall f | f in HandleSectors()
        ensures HandleSectors()[f] in Live() && HandleSectors()[f] >= 2
      {
        assert FileOk(f);
      }
      forall n | n in Names(dev.sectors)
        ensures Names(dev.sectors)[n] in Live() && Names(dev.sectors)[n] >= 2
      {
        assert Names(dev.sectors)[n] in Names(dev.sectors).Values;
      }
      KeptFiles(HandleSectors(), d, dev.sectors, Live(), {0, 1});
      KeptFiles(Names(dev.sectors), d, dev.sectors, Live(), {0, 1});
    }

    /** file_close. The last handle on a removed file frees its sectors. */
    method Close(f: File)
      requires Valid() && f in Handles()
      modifies this`openInodes, this`table, this`files, f`denyWrite, f.inode, dev, freeMap
      ensures Valid() && files == old(files) - {f}
      ensures Handles() == old(Handles()) - {f} && Tree(dev.sectors) == old(Tree(dev.sectors))
      ensures if old(FilesOn(files, f.inode.sector) == {f} && !Named(f.inode.sector))
              then freeMap.bits == Released(old(dev.sectors), old(freeMap.bits), f.inode.sector)
              else dev.sectors == old(dev.sectors) && freeMap.bits == old(freeMap.bits)
    {
      hide Inv, Names, HandleSectors, FilesOf, Live, Released, Keeps;
      HandleOk(f);
      AllowWrite(f);
      LastFile(files, f, f.inode.sector);
      LeaveFile(f);
      RemovedIff(f.inode, {f.inode.sector}, {});
      assert {f.inode.sector} - {f.inode.sector} == {};
      CloseInode(f.inode, {f.inode.sector}, {});
      assert Live() + {} == Live();
      KeepsMore(old(dev.sectors), dev.sectors, Live());
      SameFilesNow(old(dev.sectors), {}, {});
      FilesLess(old(HandleSectors()), old(dev.sectors), f);
    }

    lemma RemovedIff(inode: Inode, held: set<nat>, extra: set<nat>)
      requires Inv(held, extra) && Opened(inode)
      ensures inode.removed <==> !Named(inode.sector)
      ensures inode.openCnt == |FilesOn(files, inode.sector)| + if inode.sector in held then 1 else 0
      ensures Matches(inode)
    {
      hide Names, NamesOk, Saved, ListOk, Base, FilesOk, Matches;
      assert table[inode.sector] == inode;
      assert Counted(table[inode.sector], inode.sector in held);
    }

    /** The reference of a file passes to the operation in progress. */
    method LeaveFile(f: File)
      requires Valid() && f in Handles() && !f.denyWrite
      modifies this`files
      ensures Inv({f.inode.sector}, {}) && files == old(files) - {f}
      ensures HandleSectors() == old(HandleSectors()) - {f}
    {
      hide Names, NamesOk, Saved, Base, ListOk, RemovedOk, Matches, FilesOn, DeniersOn, Live, Separated, HdrLength;
      assert FileOk(f);
      files := files - {f};
      assert files + {f} == old(files);
      forall s | s in table
        ensures Counted(table[s], s in {f.inode.sector})
      {
        assert old(Counted(table[s], false));
        assert table[s].sector == s;
        FilesOnMore(files, f, s);
      }
      forall g | g in files
        ensures FileOk(g)
      {
        assert old(FileOk(g));
      }
      CountsInv({}, {f.inode.sector}, {});
    }

    /** filesys_remove. The file's sectors are freed now if it is not open, and
        with the last close otherwise. */
    method Remove(name: Name, memory: bool) returns (success: bool)
      requires Valid()
      modifies this`openInodes, this`table, table.Values`openCnt, table.Values`removed, dev, freeMap
      ensures Valid() && Handles() == old(Handles())
      ensures success ==> name in old(Tree(dev.sectors))
      ensures memory && name in old(Tree(dev.sectors)) ==> success
      ensures Tree(dev.sectors) == if success then old(Tree(dev.sectors)) - {name} else old(Tree(dev.sectors))
      ensures freeMap.bits == if success && FilesOn(files, old(Names(dev.sectors))[name]) == {}
                              then Released(old(dev.sectors), old(freeMap.bits), old(Names(dev.sectors))[name])
                              else old(freeMap.bits)
      ensures !success ==> dev.sectors == old(dev.sectors)
    {
      hide Inv, Names, Holds, NameMap, WellFormed, Live, Named;
      success := false;
      var root := OpenRoot(memory);
      if root == null {
        return;
      }
      RootOk(root, {1}, {});
      label Searched: var found, e, ofs, slot := Lookup(dev, root, name);
      SameInv@Searched({1}, {});
      if found {
        MapHas(BytesOf(dev, root), slot, name);
        success := RemoveEntry(root, name, e, ofs, slot, memory);
      }
      CloseRoot(root);
    }

    /** dir_remove, once the entry has been found. */
    method RemoveEntry(root: Inode, name: Name, e: Record, ofs: OffT, ghost slot: nat, memory: bool)
      returns (success: bool)
      requires Inv({1}, {}) && root.sector == 1 && Opened(root)
      requires ofs == 20 * slot && Holds(FileAt(dev.sectors, 1), slot, name)
               && e == RecordAt(FileAt(dev.sectors, 1), slot)
      requires name in Names(dev.sectors) && SectorOf(e) == Names(dev.sectors)[name]
      modifies this`openInodes, this`table, table.Values`openCnt, table.Values`removed, dev, freeMap
      ensures Inv({1}, {}) && Opened(root) && Handles() == old(Handles()) && (memory ==> success)
      ensures Tree(dev.sectors) == if success then old(Tree(dev.sectors)) - {name} else old(Tree(dev.sectors))
      ensures freeMap.bits == if success && FilesOn(files, SectorOf(e)) == {}
                              then Released(old(dev.sectors), old(freeMap.bits), SectorOf(e)) else old(freeMap.bits)
      ensures !success ==> dev.sectors == old(dev.sectors)
    {
      hide Inv, Names, Holds, NameMap, WellFormed, Named, Released, RecordAt, Keeps, HandleSectors, FilesOf;
      ghost var s := SectorOf(e);
      NamedIsLive(name, {1}, {});
      var inode := OpenInode(SectorOf(e), memory, {1}, {});
      if inode == null {
        return false;
      }
      EraseEntry(root, inode, name, e, ofs, slot);
      ghost var d1, live := dev.sectors, Live();
      SameReleased(old(dev.sectors), d1, live, {1}, freeMap.bits, s);
      CloseErased(root, inode);
      RestKept(old(dev.sectors), d1, dev.sectors, live, Live());
      SameFilesNow(old(dev.sectors), {1}, {});
      FilesLess(old(Names(dev.sectors)), old(dev.sectors), name);
      success := true;
    }

    method CloseErased(root: Inode, inode: Inode)
      requires Inv({1} + {inode.sector}, {}) && Opened(root) && root.sector == 1 && Opened(inode) && inode.sector >= 2
      requires !Named(inode.sector)
      modifies this`openInodes, this`table, inode`openCnt, dev, freeMap
      ensures Inv({1}, {}) && Opened(root) && Live() <= old(Live())
      ensures Names(dev.sectors) == old(Names(dev.sectors)) && Keeps(old(dev.sectors), dev.sectors, Live(), {0})
      ensures freeMap.bits == if FilesOn(files, inode.sector) == {}
              then Released(old(dev.sectors), old(freeMap.bits), inode.sector)
                              else old(freeMap.bits)
    {
      hide Inv, Names, Named, Released, Keeps;
      RemovedIff(inode, {1} + {inode.sector}, {});
      assert {1} + {inode.sector} - {inode.sector} == {1};
      CloseInode(inode, {1} + {inode.sector}, {});
      assert Live() + {} == Live();
    }

    /** Erases a file's entry and marks its inode removed. */
    method EraseEntry(root: Inode, inode: Inode, name: Name, e: Record, ofs: OffT, ghost slot: nat)
      requires Inv({1} + {inode.sector}, {}) && root.sector == 1 && Opened(root) && Opened(inode)
      requires ofs == 20 * slot && Holds(FileAt(dev.sectors, 1), slot, name)
               && e == RecordAt(FileAt(dev.sectors, 1), slot)
      requires name in Names(dev.sectors) && inode.sector == Names(dev.sectors)[name] >= 2
      modifies dev, inode`removed
      ensures Inv({1} + {inode.sector}, {}) && !Named(inode.sector) && Live() == old(Live())
      ensures Names(dev.sectors) == old(Names(dev.sectors)) - {name}
      ensures Keeps(old(dev.sectors), dev.sectors, Live(), {1})
    {
      hide Names, NamesOk, Saved, Base, ListOk, TableOk, RemovedOk, Counts, FilesOk, Holds, NameMap, WellFormed,
           RecordAt;
      ghost var held := {1} + {inode.sector};
      RootOk(root, held, {});
      var written := Erase(dev, root, e, ofs, slot, name);
      inode.removed := true;
      RootWritten(root, held, {}, ofs, e[19 := 0]);
      assert Live() + {} == Live() && old(Live()) + {} == old(Live());
      NamesAre(dev.sectors);
      EntryErased(inode, held, name);
    }

    twostate lemma EntryErased(inode: Inode, new held: set<nat>, new name: Name)
      requires old(Inv(held, {})) && old(Opened(inode))
      requires unchanged(this) && unchanged(freeMap) && unchanged(files)
      requires unchanged(table.Values`openCnt) && unchanged(table.Values`denyWriteCnt)
      requires unchanged(table.Values - {inode}) && inode.removed
      requires old(name in Names(dev.sectors) && inode.sector == Names(dev.sectors)[name] >= 2)
      requires Base(old(Live())) && Saved(dev.sectors, freeMap.bits) && TableOk() && WellFormed(FileAt(dev.sectors, 1))
      requires Names(dev.sectors) == old(Names(dev.sectors)) - {name}
      ensures Inv(held, {}) && !Named(inode.sector) && Live() == old(Live())
    {
      hide Names, Saved, Separated, ListOk, Matches, Base, Counts, FilesOk, WellFormed;
      NameErased(old(Names(dev.sectors)), Names(dev.sectors), name);
      assert Live() == old(Live());
      assert Live() + {} == Live();
      forall s | s in table && s != inode.sector
        ensures Named(s) == old(Named(s)) && table[s].removed == old(table[s].removed)
      {
        assert table[s].sector == s;
        assert table[s] in table.Values - {inode};
      }
    }

    /** file_read_at: exactly the bytes of the requested range that the file has. */
    method ReadAt(f: File, size: OffT, ofs: OffT) returns (bytesRead: OffT, buffer: seq<byte>)
      requires Valid() && f in Handles() && ofs >= 0
      ensures bytesRead == Clip(size, ofs, |Handles()[f]|)
      ensures buffer == Part(Handles()[f], ofs, bytesRead)
    {
      hide Inv, Names, Handles, HandleSectors, FilesOf;
      HandleOk(f);
      bytesRead, buffer := f.inode.ReadAt(dev, size, ofs);
      if bytesRead > 0 {
        RangeOfContents(dev.sectors, f.inode.start, f.inode.length, ofs, bytesRead);
      }
    }

    /** file_read. */
    method Read(f: File, size: OffT) returns (bytesRead: OffT, buffer: seq<byte>)
      requires Valid() && f in Handles()
      modifies f`pos
      ensures Valid() && f.pos == old(f.pos) + bytesRead
      ensures bytesRead == Clip(size, old(f.pos), |old(Handles())[f]|)
      ensures buffer == Part(old(Handles())[f], old(f.pos), bytesRead)
    {
      hide Inv, Names;
      HandleOk(f);
      bytesRead, buffer := ReadAt(f, size, f.pos);
      f.pos := f.pos + bytesRead;
      Moved(f);
    }

    /** file_seek. */
    method Seek(f: File, pos: OffT)
      requires Valid() && f in Handles() && pos >= 0
      modifies f`pos
      ensures Valid() && f.pos == pos
    {
      hide Inv, Names;
      HandleOk(f);
      f.pos := pos;
      Moved(f);
    }

    twostate lemma Moved(f: File)
      requires old(Valid()) && f in files && f.pos >= 0
      requires unchanged(this) && unchanged(dev) && unchanged(freeMap) && unchanged(table.Values)
      requires unchanged(files`denyWrite) && unchanged(files - {f})
      ensures Valid()
    {
      hide Names, NamesOk, Saved, Base, ListOk, TableOk, RemovedOk, Matches, Live, Separated, HdrLength;
      assert forall s :: s in table ==> old(Counted(table[s], false)) ==> Counted(table[s], false);
      forall g | g in files
        ensures FileOk(g)
      {
        assert old(FileOk(g));
      }
      CountsInv({}, {}, {});
    }

    /** file_write_at: while no open file denies it, exactly the bytes of the
        requested range that the file has are replaced, for every handle and
        name of that file and for no other. */
    method WriteAt(f: File, buffer: seq<byte>, size: OffT, ofs: OffT) returns (bytesWritten: OffT)
      requires Valid() && f in Handles() && ofs >= 0 && size <= |buffer|
      modifies dev
      ensures Valid() && Names(dev.sectors) == old(Names(dev.sectors))
      ensures bytesWritten == if exists g :: g in files && g.inode == f.inode && g.denyWrite then 0
                              else Clip(size, ofs, |old(Handles())[f]|)
      ensures Handles() == Patch(HandleSectors(), old(Handles()), f.inode.sector, ofs, Part(buffer, 0, bytesWritten))
      ensures Tree(dev.sectors) == Patch(Names(dev.sectors), old(Tree(dev.sectors)), f.inode.sector, ofs,
              Part(buffer, 0, bytesWritten))
    {
      hide Inv, Names, Live, Separated, Keeps, FilesOf, HandleSectors;
      HandleOk(f);
      AnyDenier(f);
      SectorsLive();
      ghost var d, live, s := dev.sectors, Live(), f.inode.sector;
      bytesWritten := f.inode.WriteAt(dev, buffer, size, ofs);
      assert Part(buffer, 0, bytesWritten) == buffer[..bytesWritten];
      Spliced(d, freeMap.bits, live, s, ofs, buffer[..bytesWritten]);
      Rewritten(s);
      Patched(HandleSectors(), d, dev.sectors, freeMap.bits, live, s, ofs, buffer[..bytesWritten]);
      Patched(Names(d), d, dev.sectors, freeMap.bits, live, s, ofs, buffer[..bytesWritten]);
    }

    lemma AnyDenier(f: File)
      requires Valid() && f in Handles()
      ensures f.inode.denyWriteCnt != 0 <==> exists g :: g in files && g.inode == f.inode && g.denyWrite
    {
      hide Names, NamesOk, Saved, Base, ListOk, TableOk, RemovedOk, Counts, Matches, Sound;
      HandleOk(f);
      var deniers := DeniersOn(files, f.inode.sector);
      if f.inode.denyWriteCnt != 0 {
        var g :| g in deniers;
        assert FileOk(g) && FileOk(f);
      }
      forall g | g in files && g.inode == f.inode && g.denyWrite
        ensures g in deniers
      {
      }
    }

    /** A write to an open file keeps the invariant. */
    twostate lemma Rewritten(s: nat)
      requires old(Valid()) && s >= 2
      requires unchanged(this) && unchanged(freeMap) && unchanged(table.Values) && unchanged(files)
      requires Separated(dev.sectors, freeMap.bits, old(Live()))
      requires Keeps(old(dev.sectors), dev.sectors, old(Live()), {s})
      ensures Valid() && Names(dev.sectors) == old(Names(dev.sectors))
    {
      hide Names, NamesOk, ListOk, RemovedOk, Counts, TableOk, Separated;
      assert old(FileOk(freeMapFile));
      assert old(Live()) + {} == old(Live());
      LiveHeader(old(dev.sectors), freeMap.bits, old(Live()), 0);
      assert KeepsInode(old(dev.sectors), dev.sectors, 0, 0 in {s});
      SameHeader(old(dev.sectors), dev.sectors, 0);
      KeptInv({}, {}, {}, s);
    }

    /** The sectors of the open and of the named files. */
    lemma SectorsLive()
      requires Valid()
      ensures Separated(dev.sectors, freeMap.bits, Live()) && freeMapFile != null
      ensures forall f :: f in HandleSectors() ==> HandleSectors()[f] in Live()
      ensures forall n :: n in Names(dev.sectors) ==> Names(dev.sectors)[n] in Live()
    {
      hide Names, Saved, ListOk, TableOk, RemovedOk, Counts, WellFormed, Separated;
      assert Live() + {} == Live();
      forall f | f in HandleSectors()
        ensures HandleSectors()[f] in Live()
      {
        assert FileOk(f);
      }
      forall n | n in Names(dev.sectors)
        ensures Names(dev.sectors)[n] in Live()
      {
        assert Names(dev.sectors)[n] in Names(dev.sectors).Values;
      }
    }

    /** file_write. */
    method Write(f: File, buffer: seq<byte>, size: OffT) returns (bytesWritten: OffT)
      requires Valid() && f in Handles() && size <= |buffer|
      modifies dev, f`pos
      ensures Valid() && Names(dev.sectors) == old(Names(dev.sectors)) && f.pos == old(f.pos) + bytesWritten
      ensures bytesWritten == if exists g :: g in files && g.inode == f.inode && g.denyWrite then 0
                              else Clip(size, old(f.pos), |old(Handles())[f]|)
      ensures Handles() == Patch(HandleSectors(), old(Handles()), f.inode.sector, old(f.pos),
              Part(buffer, 0, bytesWritten))
      ensures Tree(dev.sectors) == Patch(Names(dev.sectors), old(Tree(dev.sectors)), f.inode.sector, old(f.pos),
              Part(buffer, 0, bytesWritten))
    {
      hide Inv, Names;
      HandleOk(f);
      bytesWritten := WriteAt(f, buffer, size, f.pos);
      label Done: f.pos := f.pos + bytesWritten;
      Moved@Done(f);
    }

    // ----- formatting and mounting

    ghost predicate NothingOpen()
      reads this
    {
      openInodes == [] && table == map[] && files == {}
    }

    /** file_open (inode_open (FREE_MAP_SECTOR)) while nothing is open. */
    method OpenFreeMap(memory: bool) returns (ok: bool)
      requires NothingOpen() && Sound(dev.sectors, 0)
      modifies this
      ensures memory ==> ok
      ensures ok ==> OnlyFreeMap() && fresh(freeMapFile) && fresh(freeMapFile.inode)
      ensures !ok ==> NothingOpen() && freeMapFile == old(freeMapFile)
    {
      var granted: bool := *;
      if !memory && !granted {
        return false;
      }
      var data := dev.Read(0);
      var inode := new Inode(0, WordAt(data, 0), WordAt(data, 4));
      openInodes, table := [inode] + openInodes, table[0 := inode];
      freeMapFile := new File(inode);
      files := {freeMapFile};
      ok := true;
    }

    /** Just the free map file is open. */
    ghost predicate OnlyFreeMap()
      reads this, dev, FreeMapInode(), files
    {
      && freeMapFile != null && freeMapFile.inode.sector == 0 && Matches(freeMapFile.inode)
      && freeMapFile.inode.openCnt == 1 && freeMapFile.inode.denyWriteCnt == 0 && !freeMapFile.inode.removed
      && files == {freeMapFile} && freeMapFile.pos == 0 && !freeMapFile.denyWrite
      && table == map[0 := freeMapFile.inode] && openInodes == [freeMapFile.inode]
    }

    /** free_map_open at start-up: reads the free map back from the disk. */
    method Mount(memory: bool, ghost bits: seq<bool>) returns (ok: bool)
      requires NothingOpen() && Mountable(dev.sectors, bits) && |freeMap.bits| == |dev.sectors|
      modifies this, freeMap
      ensures memory ==> ok
      ensures ok ==> Valid() && freeMap.bits == bits && Handles() == map[]
      ensures ok ==> table.Keys == {0} && fresh(table[0])
    {
      ghost var live, d := {0, 1} + Names(dev.sectors).Values, dev.sectors;
      SameSize(d, bits, live);
      LiveHeader(d, bits, live, 0);
      ok := OpenFreeMap(memory);
      if ok {
        var n, buffer := freeMapFile.inode.ReadAt(dev, FileSize(|dev.sectors|), 0);
        ok := n == FileSize(|dev.sectors|);
        assert buffer == FileAt(d, 0);
        freeMap.bits := Unpack(buffer, |dev.sectors|);
        Mounted();
      }
    }

    lemma Mounted()
      requires OnlyFreeMap() && Mountable(dev.sectors, freeMap.bits)
      ensures Valid() && Handles() == map[]
    {
      hide Names, NamesOk, Separated, HdrLength, HdrStart;
      assert Live() + {} == {0, 1} + Names(dev.sectors).Values;
      assert FilesOn(files, 0) == {freeMapFile} && DeniersOn(files, 0) == {};
      assert openInodes[0] == table[0];
      SameSize(dev.sectors, freeMap.bits, Live() + {});
    }

    /** Whatever has been done, the file system can be mounted again from the
        disk alone, with the same names, contents and free map. */
    lemma CanRemount()
      requires Valid()
      ensures Mountable(dev.sectors, freeMap.bits)
    {
      hide Names, Saved, NamesOk, ListOk, TableOk, RemovedOk, Counts, FilesOk;
      FewerLive(dev.sectors, freeMap.bits, Live() + {}, {0, 1} + Names(dev.sectors).Values);
    }

    /** do_format and free_map_open: a file system without files, in which
        the first sectors are used for the free map and the root directory. */
    method Format(memory: bool) returns (ok: bool)
      requires NothingOpen() && freeMapFile == null && 2 <= |dev.sectors| <= 0x8000_0000
      requires freeMap.bits == SetRange(NoneUsed(|dev.sectors|), 0, 2, true)
      modifies this, dev, freeMap
      ensures ok ==> Valid() && Tree(dev.sectors) == map[] && Handles() == map[] && FileAt(dev.sectors, 1) == Zeros(320)
      ensures ok ==> table.Keys == {0} && fresh(table[0])
      ensures |dev.sectors| == old(|dev.sectors|)
              && (ok ==> |freeMap.bits| == |dev.sectors| && SystemOnly(freeMap.bits))
      ensures memory && |dev.sectors| >= 3 + Sectors(FileSize(|dev.sectors|)) ==> ok
    {
      ghost var bits, k := freeMap.bits, Sectors(FileSize(|dev.sectors|));
      assert k > 0;
      FreeRun(bits, k);
      hide Names, NamesOk, Saved, Separated, FileSize, RunAt, HdrStart, HdrLength, SetRange, Base, FreeMapFileOk,
           FileAt, OnlyFreeMap, Zeros, NoneUsed, SystemOnly;
      ok := CreateFreeMapFile(memory);
      if !ok {
        return;
      }
      RunTaken(bits, k, HdrStart(dev.sectors, 0));
      ghost var bits1 := freeMap.bits;
      ok := CreateRoot(memory, 2 + k);
      if !ok {
        return;
      }
      SystemSectors(bits, k, HdrStart(dev.sectors, 1), bits1, freeMap.bits);
      ok := Mount(memory, freeMap.bits);
    }

    /** dir_create of the root directory, and free_map_close. */
    method CreateRoot(memory: bool, ghost run: nat) returns (ok: bool)
      requires OnlyFreeMap() && Base({0}) && Saved(dev.sectors, freeMap.bits) && |freeMap.bits| > 1 && freeMap.bits[1]
      requires !(HdrStart(dev.sectors, 0) <= 1 < HdrStart(dev.sectors, 0) + Sectors(HdrLength(dev.sectors, 0)))
      modifies this`openInodes, this`table, this`files, freeMapFile.inode`openCnt, dev, freeMap
      ensures ok ==> NothingOpen() && Mountable(dev.sectors, freeMap.bits) && Names(dev.sectors) == map[]
      ensures |dev.sectors| == old(|dev.sectors|) && (ok ==> |freeMap.bits| == |dev.sectors|)
      ensures ok ==> FileAt(dev.sectors, 1) == Zeros(320)
      ensures ok ==> var start := HdrStart(dev.sectors, 1);
                     && RunAt(old(freeMap.bits), start, 1, false)
                     && (forall j :: 0 <= j < start ==> !RunAt(old(freeMap.bits), j, 1, false))
                     && freeMap.bits == SetRange(old(freeMap.bits), start, 1, true)
      ensures memory && old(RunAt(freeMap.bits, run, 1, false)) ==> ok
    {
      assert Sectors(320) == 1;
      hide Names, NamesOk, Saved, Separated, FileSize, RunAt, HdrStart, HdrLength, SetRange;
      NotRoot(dev.sectors, freeMap.bits, HdrStart(dev.sectors, 0));
      ok := InodeCreate(1, 16 * 20, memory, {0});
      if !ok {
        return;
      }
      CloseFreeMap();
      EmptyDirectory(dev.sectors);
      SameSize(dev.sectors, freeMap.bits, {0} + {1});
      assert {0} + {1} == {0, 1} + Names(dev.sectors).Values;
    }

    /** free_map_create. */
    method CreateFreeMapFile(memory: bool) returns (ok: bool)
      requires NothingOpen() && freeMapFile == null && 2 <= |dev.sectors| <= 0x8000_0000
      requires freeMap.bits == SetRange(NoneUsed(|dev.sectors|), 0, 2, true)
      modifies this, dev, freeMap
      ensures |dev.sectors| == old(|dev.sectors|)
      ensures ok ==>
                OnlyFreeMap() && fresh(freeMapFile) && fresh(freeMapFile.inode) && Base({0})
                    && Saved(dev.sectors, freeMap.bits)
      ensures ok ==> var k, start := Sectors(FileSize(|dev.sectors|)), HdrStart(dev.sectors, 0);
                     && HdrLength(dev.sectors, 0) == FileSize(|dev.sectors|)
                     && RunAt(old(freeMap.bits), start, k, false)
                     && (forall j :: 0 <= j < start ==> !RunAt(old(freeMap.bits), j, k, false))
                     && freeMap.bits == SetRange(old(freeMap.bits), start, k, true)
      ensures memory && (exists j :: 0 <= j && RunAt(old(freeMap.bits), j, Sectors(FileSize(|dev.sectors|)), false)) ==>
                ok
    {
      hide Names, NamesOk;
      ok := InodeCreate(0, FileSize(|dev.sectors|), memory, {});
      if !ok {
        return;
      }
      assert {} + {0} == {0};
      LiveHeader(dev.sectors, freeMap.bits, {0}, 0);
      ghost var d := dev.sectors;
      assert Sound(d, 0);
      ok := OpenFreeMap(memory);
      if !ok {
        return;
      }
      ok := WriteFreeMap({0});
      assert KeepsInode(d, dev.sectors, 0, 0 in {0});
      SameHeader(d, dev.sectors, 0);
    }

    /** free_map_close: the file and, with it, the last reference to its inode
        go; the pointer to the file stays, but is not used before the next
        free_map_open. */
    method CloseFreeMap()
      requires OnlyFreeMap()
      modifies this`openInodes, this`table, this`files, freeMapFile.inode`openCnt
      ensures NothingOpen()
    {
      files := {};
      freeMapFile.inode.openCnt := 0;
      ListRemove(freeMapFile.inode);
      assert |openInodes| > 0 ==> Lists1(openInodes[0], table);
    }

    /** Open-inode accounting: one in-memory inode per sector, opened once for
        each file on it and denied writes once for each file that asked. */
    lemma Accounting()
      requires Valid()
      ensures forall i, j :: 0 <= i < j < |openInodes| ==> openInodes[i].sector != openInodes[j].sector
      ensures forall f :: f in files ==> f.inode in openInodes
      ensures forall inode :: inode in openInodes ==>
                && inode.openCnt == |FilesOn(files, inode.sector)| >= 1
                && inode.denyWriteCnt == |DeniersOn(files, inode.sector)| <= inode.openCnt
                && (inode.removed <==> !Named(inode.sector))
    {
      hide Names, NamesOk, Saved, Base, TableOk, Matches, FilesOn, DeniersOn;
      forall inode | inode in openInodes
        ensures inode.sector in table && table[inode.sector] == inode
      {
        var k :| 0 <= k < |openInodes| && openInodes[k] == inode;
        assert Lists1(openInodes[k], table);
      }
      forall inode | inode in openInodes
        ensures Counted(inode, false) && |DeniersOn(files, inode.sector)| <= |FilesOn(files, inode.sector)|
      {
        assert Counted(table[inode.sector], false);
        DeniersAreFiles(files, inode.sector);
      }
      assert forall f :: f in files ==> FileOk(f);
    }

    lemma NoFilesOn(inode: Inode)
      requires Counted(inode, true) && inode.openCnt == 1
      ensures forall f :: f in files ==> f.inode.sector != inode.sector
    {
      assert FilesOn(files, inode.sector) == {};
      assert forall f :: f in files && f.inode.sector == inode.sector ==> f in FilesOn(files, inode.sector);
    }
  }

  method NewDisk(dev: Block) returns (fs: FileSystem)
    requires |dev.sectors| == 16
    modifies dev
    ensures fresh(fs) && fresh(fs.freeMap) && fs.dev == dev && fs.Valid() && Tree(dev.sectors) == map[]
            && FileAt(dev.sectors, 1) == Zeros(320)
    ensures fs.table.Keys == {0} && fresh(fs.table[0]) && |fs.freeMap.bits| == 16 && SystemOnly(fs.freeMap.bits)
  {
    hide Tree, FileAt, SetRange, Sectors, FileSize, FileSystem.Inv, FileSystem.Handles;
    OneSector();
    fs := new FileSystem(dev);
    var formatted := fs.Format(true);
  }

  /** A run in which a failed creation changes the free map: on a new disk of 16
      sectors, the second creation of a file of 512 bytes marks a sector for
      good that belongs to no file. */
  method CreateTwice(dev: Block, name: Name) returns (fs: FileSystem, once: seq<bool>, twice: bool)
    requires |dev.sectors| == 16 && 1 <= |name| <= NAME_MAX
    modifies dev
    ensures fresh(fs) && fs.dev == dev && fs.Valid() && Tree(dev.sectors) == map[name := Zeros(512)]
    ensures !twice && Leaked(once, fs.freeMap.bits, 1) && fs.freeMap.bits != once
  {
    hide Tree, CanAdd, Room, Taken, Leaked, SetRange, Sectors, FileSystem.Inv, FileSystem.Handles;
    fs := NewDisk(dev);
    EmptyHasRoom(dev.sectors, name);
    ghost var bits := fs.freeMap.bits;
    FormattedRoom(bits);
    var first := fs.Create(name, 512, true);
    assert Sectors(512) == 1 by { OneSector(); }
    StillRoom(bits, fs.freeMap.bits);
    once := fs.freeMap.bits;
    InUseName(dev.sectors, name, 512);
    twice := fs.Create(name, 512, true);
  }
}
