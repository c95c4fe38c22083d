/** A directory: a file of 20-byte records, read and written through the inode
    layer (directory.c). It represents a finite map from names to the sectors of
    the files' inodes. */
module Directory {
  import opened Arithmetic
  import opened Bytes
  import opened Inode

  /** A C string without its terminator. */
  type Name = s: seq<byte> | 0 !in s

  const NAME_MAX: nat := 14

  // ----- records: 4-byte inode sector, 15-byte name field, in-use flag

  type Record = r: seq<byte> | |r| == 20 witness Zeros(20)

  /** The C string at the front of a character array. */
  function CString(field: seq<byte>): Name {
    if field == [] || field[0] == 0 then [] else [field[0]] + CString(field[1..])
  }

  lemma {:induction false} CStringOf(name: Name, rest: seq<byte>)
    ensures CString(name + [0] + rest) == name
  {
    var field := name + [0] + rest;
    if name == [] {
      assert field[0] == 0;
    } else {
      assert field[0] == name[0];
      assert field[1..] == name[1..] + [0] + rest;
      CStringOf(name[1..], rest);
      assert [name[0]] + name[1..] == name;
    }
  }

  lemma {:induction false} CStringFits(field: seq<byte>)
    requires 0 in field
    ensures |CString(field)| < |field|
  {
    if field[0] != 0 {
      CStringFits(field[1..]);
    }
  }

  function InUse(r: Record): bool { r[19] != 0 }

  function SectorOf(r: Record): nat { WordAt(r, 0) }

  function NameOf(r: Record): Name { CString(r[4..19]) }

  function SlotCount(bytes: seq<byte>): nat { |bytes| / 20 }

  function RecordAt(bytes: seq<byte>, i: nat): Record
    requires i < SlotCount(bytes)
  {
    bytes[20 * i..20 * i + 20]
  }

  /** Slot i is in use for the given name. */
  predicate Holds(bytes: seq<byte>, i: nat, name: Name) {
    i < SlotCount(bytes) && InUse(RecordAt(bytes, i)) && NameOf(RecordAt(bytes, i)) == name
  }

  predicate Terminated(r: Record) { 0 in r[4..19] && NameOf(r) != [] }

  /** Names in use are terminated inside their field, hence at most 14 bytes
      long, are not empty, and are distinct. */
  ghost predicate WellFormed(bytes: seq<byte>) {
    && (forall i :: 0 <= i < SlotCount(bytes) && InUse(RecordAt(bytes, i)) ==> Terminated(RecordAt(bytes, i)))
    && (forall i, j, name :: Holds(bytes, i, name) && Holds(bytes, j, name) ==> i == j)
  }

  /** The map that the directory represents. */
  ghost function NameMap(bytes: seq<byte>): map<Name, nat>
    requires WellFormed(bytes)
  {
    map i | 0 <= i < SlotCount(bytes) && Holds(bytes, i, NameOf(RecordAt(bytes, i)))
      :: NameOf(RecordAt(bytes, i)) := SectorOf(RecordAt(bytes, i))
  }

  lemma MapHas(bytes: seq<byte>, i: nat, name: Name)
    requires WellFormed(bytes) && Holds(bytes, i, name)
    ensures name in NameMap(bytes) && NameMap(bytes)[name] == SectorOf(RecordAt(bytes, i))
    ensures 1 <= |name| <= NAME_MAX
  {
    CStringFits(RecordAt(bytes, i)[4..19]);
  }

  lemma MapLacks(bytes: seq<byte>, name: Name)
    requires WellFormed(bytes)
    ensures name in NameMap(bytes) <==> exists i :: 0 <= i < SlotCount(bytes) && Holds(bytes, i, name)
  {
    if name in NameMap(bytes) {
      var i :| 0 <= i < SlotCount(bytes) && Holds(bytes, i, NameOf(RecordAt(bytes, i)))
          && NameOf(RecordAt(bytes, i)) == name;
      assert Holds(bytes, i, name);
    }
  }

  // ----- replacing one record

  lemma ReplaceRecord(bytes: seq<byte>, i: nat, r: Record)
    requires i < SlotCount(bytes)
    ensures var bytes' := Overwrite(bytes, 20 * i, r);
            && SlotCount(bytes') == SlotCount(bytes)
            && RecordAt(bytes', i) == r
            && forall j :: 0 <= j < SlotCount(bytes) && j != i ==> RecordAt(bytes', j) == RecordAt(bytes, j)
  {
  }

  /** Filling a free slot with a new name extends the map. */
  lemma FillSlot(bytes: seq<byte>, i: nat, r: Record)
    requires WellFormed(bytes) && i < SlotCount(bytes) && !InUse(RecordAt(bytes, i))
    requires InUse(r) && Terminated(r) && NameOf(r) !in NameMap(bytes)
    ensures var bytes' := Overwrite(bytes, 20 * i, r);
            WellFormed(bytes') && NameMap(bytes') == NameMap(bytes)[NameOf(r) := SectorOf(r)]
  {
    var bytes' := Overwrite(bytes, 20 * i, r);
    ReplaceRecord(bytes, i, r);
    MapLacks(bytes, NameOf(r));
    forall j, name | Holds(bytes', j, name)
      ensures if j == i then name == NameOf(r) else Holds(bytes, j, name) && name != NameOf(r)
    {
    }
    assert WellFormed(bytes');
    var m := NameMap(bytes)[NameOf(r) := SectorOf(r)];
    SameMap(bytes', m) by {
      forall name
        ensures name in m <==> exists j :: 0 <= j < SlotCount(bytes') && Holds(bytes', j, name)
      {
        MapLacks(bytes, name);
        if name == NameOf(r) {
          assert Holds(bytes', i, name);
        } else if name in NameMap(bytes) {
          var j :| 0 <= j < SlotCount(bytes) && Holds(bytes, j, name);
          assert j != i;
          assert Holds(bytes', j, name);
        }
      }
      forall j, name | Holds(bytes', j, name)
        ensures name in m && m[name] == SectorOf(RecordAt(bytes', j))
      {
        if j != i { MapHas(bytes, j, name); }
      }
    }
  }

  /** Clearing the in-use flag of a slot removes its name from the map. */
  lemma ClearSlot(bytes: seq<byte>, i: nat, name: Name)
    requires WellFormed(bytes) && Holds(bytes, i, name)
    ensures var bytes' := Overwrite(bytes, 20 * i, RecordAt(bytes, i)[19 := 0]);
            WellFormed(bytes') && NameMap(bytes') == NameMap(bytes) - {name}
  {
    var r := RecordAt(bytes, i)[19 := 0];
    var bytes' := Overwrite(bytes, 20 * i, r);
    ReplaceRecord(bytes, i, r);
    forall j, n | Holds(bytes', j, n)
      ensures j != i && Holds(bytes, j, n) && n != name
    {
      assert Holds(bytes, j, n);
    }
    assert WellFormed(bytes');
    SameMap(bytes', NameMap(bytes) - {name}) by {
      forall n
        ensures n in NameMap(bytes) - {name} <==> exists j :: 0 <= j < SlotCount(bytes') && Holds(bytes', j, n)
      {
        MapLacks(bytes, n);
        if n in NameMap(bytes) && n != name {
          var j :| 0 <= j < SlotCount(bytes) && Holds(bytes, j, n);
          assert Holds(bytes', j, n);
        }
      }
      forall j, n | Holds(bytes', j, n)
        ensures n in NameMap(bytes) - {name} && (NameMap(bytes) - {name})[n] == SectorOf(RecordAt(bytes', j))
      {
        MapHas(bytes, j, n);
      }
    }
  }

  /** Bytes past the last whole record are not part of the directory. */
  lemma TailIgnored(bytes: seq<byte>, buf: seq<byte>)
    requires WellFormed(bytes) && 20 * SlotCount(bytes) + |buf| <= |bytes|
    ensures var bytes' := Overwrite(bytes, 20 * SlotCount(bytes), buf);
            WellFormed(bytes') && NameMap(bytes') == NameMap(bytes)
  {
    var bytes' := Overwrite(bytes, 20 * SlotCount(bytes), buf);
    forall i | 0 <= i < SlotCount(bytes)
      ensures RecordAt(bytes', i) == RecordAt(bytes, i)
    {
    }
    assert forall i, name :: Holds(bytes', i, name) == Holds(bytes, i, name);
    SameMap(bytes', NameMap(bytes)) by {
      forall name
        ensures name in NameMap(bytes) <==> exists j :: 0 <= j < SlotCount(bytes') && Holds(bytes', j, name)
      {
        MapLacks(bytes, name);
      }
      forall j, name | Holds(bytes', j, name)
        ensures name in NameMap(bytes) && NameMap(bytes)[name] == SectorOf(RecordAt(bytes', j))
      {
        MapHas(bytes, j, name);
      }
    }
  }

  /** A map with exactly the names held, and their sectors, is the map. */
  lemma SameMap(bytes: seq<byte>, m: map<Name, nat>)
    requires WellFormed(bytes)
    requires forall name :: name in m <==> exists j :: 0 <= j < SlotCount(bytes) && Holds(bytes, j, name)
    requires forall j, name :: Holds(bytes, j, name) ==> name in m && m[name] == SectorOf(RecordAt(bytes, j))
    ensures NameMap(bytes) == m
  {
    forall name
      ensures name in NameMap(bytes) <==> name in m
      ensures name in m ==> name in NameMap(bytes) && NameMap(bytes)[name] == m[name]
    {
      MapLacks(bytes, name);
      if name in m {
        var j :| 0 <= j < SlotCount(bytes) && Holds(bytes, j, name);
        MapHas(bytes, j, name);
      }
    }
  }

  // ----- scanning and updating a directory file

  ghost function BytesOf(dev: Block, inode: Inode): (bytes: seq<byte>)
    reads dev
    requires inode.length >= 0
  {
    Contents(dev.sectors, inode.start, inode.length)
  }

  ghost predicate Readable(dev: Block, inode: Inode)
    reads dev
  {
    inode.length >= 0 && Fits(dev.sectors, inode.start, inode.length)
  }

  /** Reads the record in the given slot, at byte offset ofs; whole tells
      whether all of it is in the file. What could be read replaces the front of
      prior. */
  method ReadRecord(dev: Block, inode: Inode, ofs: OffT, ghost slot: nat, prior: Record)
    returns (e: Record, whole: bool)
    requires Readable(dev, inode) && ofs == 20 * slot
    ensures whole <==> slot < SlotCount(BytesOf(dev, inode))
    ensures whole ==> e == RecordAt(BytesOf(dev, inode), slot) && ofs + 20 <= inode.length
  {
    var n, buffer := inode.ReadAt(dev, 20, ofs);
    e := Overwrite(prior, 0, buffer);
    whole := n == 20;
    if whole {
      RangeOfContents(dev.sectors, inode.start, inode.length, ofs, 20);
    }
  }

  method Lookup(dev: Block, inode: Inode, name: Name) returns (found: bool, e: Record, ofs: OffT, ghost slot: nat)
    requires Readable(dev, inode) && WellFormed(BytesOf(dev, inode))
    ensures found <==> name in NameMap(BytesOf(dev, inode))
    ensures found ==>
              ofs == 20 * slot && Holds(BytesOf(dev, inode), slot, name) && e == RecordAt(BytesOf(dev, inode), slot)
  {
    ghost var bytes := BytesOf(dev, inode);
    ofs, slot := 0, 0;
    var whole;
    e, whole := ReadRecord(dev, inode, ofs, slot, Zeros(20));
    while whole
      invariant ofs == 20 * slot && slot <= SlotCount(bytes)
      invariant whole <==> slot < SlotCount(bytes)
      invariant whole ==> e == RecordAt(bytes, slot) && ofs + 20 <= inode.length
      invariant forall i :: 0 <= i < slot ==> !Holds(bytes, i, name)
      decreases SlotCount(bytes) - slot
    {
      if InUse(e) && NameOf(e) == name {
        MapHas(bytes, slot, name);
        return true, e, ofs, slot;
      }
      assert !Holds(bytes, slot, name);
      ofs, slot := ofs + 20, slot + 1;
      e, whole := ReadRecord(dev, inode, ofs, slot, e);
    }
    MapLacks(bytes, name);
    found := false;
  }

  /** What the record of a new entry looks like: the name is copied with its
      terminator, the bytes after it stay what they were. */
  function NewRecord(prior: Record, name: Name, sector: U32): Record
    requires |name| <= NAME_MAX
  {
    Word(sector) + name + [0] + prior[5 + |name|..19] + [1]
  }

  lemma NewRecordReads(prior: Record, name: Name, sector: U32)
    requires 1 <= |name| <= NAME_MAX
    ensures var r := NewRecord(prior, name, sector);
            InUse(r) && Terminated(r) && NameOf(r) == name && SectorOf(r) == sector
  {
    var r := NewRecord(prior, name, sector);
    assert r[4..19] == name + [0] + prior[5 + |name|..19];
    CStringOf(name, prior[5 + |name|..19]);
    assert r[4..19][|name|] == 0;
    assert r[0..4] == Word(sector);
    WordRoundTrip(r, 0, sector);
  }

  /** The first free record is at ofs. */
  ghost predicate FirstFreeAt(bytes: seq<byte>, ofs: nat) {
    exists slot: nat :: SlotFree(bytes, slot) && ofs == 20 * slot && forall i :: 0 <= i < slot ==> !SlotFree(bytes, i)
  }

  predicate SlotFree(bytes: seq<byte>, i: nat) { i < SlotCount(bytes) && !InUse(RecordAt(bytes, i)) }

  lemma FirstFreeIsAt(bytes: seq<byte>, slot: nat)
    requires slot < SlotCount(bytes) && !InUse(RecordAt(bytes, slot))
    requires forall i :: 0 <= i < slot ==> InUse(RecordAt(bytes, i))
    ensures FirstFreeAt(bytes, 20 * slot)
  {
    assert SlotFree(bytes, slot);
  }

  /** Adds an entry. It succeeds exactly when the name is valid and not in use
      and there is a free slot; otherwise the map is unchanged. Either way the
      disk changes only by a write inside the directory file, at byte offset at. */
  method Add(dev: Block, inode: Inode, name: Name, sector: U32)
    returns (success: bool, ghost at: nat, ghost written: seq<byte>)
    requires Readable(dev, inode) && inode.denyWriteCnt == 0 && WellFormed(BytesOf(dev, inode))
    modifies dev
    ensures at + |written| <= inode.length || written == []
    ensures dev.sectors == Splice(old(dev.sectors), inode.start, at, written)
    ensures WellFormed(BytesOf(dev, inode))
    ensures success <==> && 1 <= |name| <= NAME_MAX && name !in old(NameMap(BytesOf(dev, inode)))
                         && exists i :: 0 <= i < SlotCount(old(BytesOf(dev, inode)))
                             && !InUse(RecordAt(old(BytesOf(dev, inode)), i))
    ensures NameMap(BytesOf(dev, inode)) ==
            if success then old(NameMap(BytesOf(dev, inode)))[name := sector] else old(NameMap(BytesOf(dev, inode)))
    ensures success ==> |written| == 20 && FirstFreeAt(old(BytesOf(dev, inode)), at)
  {
    hide FirstFreeAt;
    ghost var bytes := BytesOf(dev, inode);
    success, at, written := false, 0, [];
    SpliceNothing(dev.sectors, inode.start, 0);
    if name == [] || |name| > NAME_MAX {
      return;
    }
    var inUse, _, _, _ := Lookup(dev, inode, name);
    if inUse {
      return;
    }
    var ofs, e, slot := FreeSlot(dev, inode);
    e := NewRecord(e, name, sector);
    NewRecordReads(e, name, sector);
    var n := inode.WriteAt(dev, e, 20, ofs);
    at, written := ofs, e[..n];
    success := n == 20;
    ghost var before := old(dev.sectors);
    SpliceIsUpdate(before, inode.start, at, written, inode.length);
    if success {
      assert written == e;
      assert !InUse(RecordAt(bytes, slot));
      FirstFreeIsAt(bytes, slot);
      FillSlot(bytes, slot, e);
    } else {
      assert slot == SlotCount(bytes);
      TailIgnored(bytes, written);
    }
  }

  /** The first free slot, or the place after the last record. */
  method FreeSlot(dev: Block, inode: Inode) returns (ofs: OffT, e: Record, ghost slot: nat)
    requires Readable(dev, inode)
    ensures ofs == 20 * slot && slot <= SlotCount(BytesOf(dev, inode))
    ensures forall i :: 0 <= i < slot ==> InUse(RecordAt(BytesOf(dev, inode), i))
    ensures slot < SlotCount(BytesOf(dev, inode)) ==> !InUse(RecordAt(BytesOf(dev, inode), slot))
  {
    ghost var bytes := BytesOf(dev, inode);
    ofs, slot := 0, 0;
    var whole;
    e, whole := ReadRecord(dev, inode, ofs, slot, Zeros(20));
    while whole
      invariant ofs == 20 * slot && slot <= SlotCount(bytes)
      invariant whole <==> slot < SlotCount(bytes)
      invariant whole ==> e == RecordAt(bytes, slot) && ofs + 20 <= inode.length
      invariant forall i :: 0 <= i < slot ==> InUse(RecordAt(bytes, i))
      decreases SlotCount(bytes) - slot
    {
      if !InUse(e) {
        break;
      }
      ofs, slot := ofs + 20, slot + 1;
      e, whole := ReadRecord(dev, inode, ofs, slot, e);
    }
  }

  /** Erases the entry that a lookup found. */
  method Erase(dev: Block, inode: Inode, e: Record, ofs: OffT, ghost slot: nat, ghost name: Name)
    returns (success: bool)
    requires Readable(dev, inode) && inode.denyWriteCnt == 0 && WellFormed(BytesOf(dev, inode))
    requires ofs == 20 * slot && Holds(BytesOf(dev, inode), slot, name)
    requires e == RecordAt(BytesOf(dev, inode), slot)
    modifies dev
    ensures success && ofs + 20 <= inode.length
    ensures dev.sectors == Splice(old(dev.sectors), inode.start, ofs, e[19 := 0])
    ensures WellFormed(BytesOf(dev, inode))
    ensures NameMap(BytesOf(dev, inode)) == old(NameMap(BytesOf(dev, inode))) - {name}
  {
    ghost var bytes := BytesOf(dev, inode);
    var erased: Record := e[19 := 0];
    var n := inode.WriteAt(dev, erased, 20, ofs);
    success := n == 20;
    assert erased[..n] == erased;
    SpliceIsUpdate(old(dev.sectors), inode.start, ofs, erased, inode.length);
    ClearSlot(bytes, slot, name);
  }

  // ----- listing

  /** The names in use from slot i on, in slot order. */
  ghost function NamesFrom(bytes: seq<byte>, i: nat): seq<Name>
    decreases SlotCount(bytes) - i
  {
    if i >= SlotCount(bytes) then []
    else if InUse(RecordAt(bytes, i)) then [NameOf(RecordAt(bytes, i))] + NamesFrom(bytes, i + 1)
    else NamesFrom(bytes, i + 1)
  }

  /** An open directory. */
  class Dir {
    const inode: Inode
    var pos: OffT

    constructor (inode: Inode)
      ensures this.inode == inode && pos == 0
    {
      this.inode, pos := inode, 0;
    }

    /** The slot that the position stands at. */
    ghost predicate At(dev: Block, slot: nat)
      reads this, dev
    {
      Readable(dev, inode) && pos == 20 * slot && slot <= SlotCount(BytesOf(dev, inode))
    }

    /** Returns the next name; successive calls yield NamesFrom in order. */
    method Readdir(dev: Block, ghost slot: nat) returns (found: bool, name: Name, ghost slot': nat)
      requires At(dev, slot)
      modifies this
      ensures At(dev, slot')
      ensures NamesFrom(BytesOf(dev, inode), slot)
              == if found then [name] + NamesFrom(BytesOf(dev, inode), slot') else []
      ensures found ==> slot' > slot
    {
      ghost var bytes := BytesOf(dev, inode);
      slot' := slot;
      var e, whole := ReadRecord(dev, inode, pos, slot', Zeros(20));
      while whole
        invariant pos == 20 * slot' && slot <= slot' <= SlotCount(bytes)
        invariant whole <==> slot' < SlotCount(bytes)
        invariant whole ==> e == RecordAt(bytes, slot') && pos + 20 <= inode.length
        invariant NamesFrom(bytes, slot) == NamesFrom(bytes, slot')
        decreases SlotCount(bytes) - slot'
      {
        pos, slot' := pos + 20, slot' + 1;
        if InUse(e) {
          return true, NameOf(e), slot';
        }
        e, whole := ReadRecord(dev, inode, pos, slot', e);
      }
      found, name := false, [];
    }
  }

  /** Reads a directory that does not change to its end: ListsMap says what
      the result is. */
  method ListAll(dev: Block, inode: Inode) returns (names: seq<Name>)
    requires Readable(dev, inode)
    ensures names == NamesFrom(BytesOf(dev, inode), 0)
  {
    ghost var bytes := BytesOf(dev, inode);
    var dir := new Dir(inode);
    names := [];
    var found, name, slot := dir.Readdir(dev, 0);
    ghost var rest := NamesFrom(bytes, 0);
    while found
      invariant dir.inode == inode && dir.At(dev, slot)
      invariant NamesFrom(bytes, 0) == names + rest
      invariant rest == if found then [name] + NamesFrom(bytes, slot) else []
      decreases found, SlotCount(bytes) - slot
    {
      rest := NamesFrom(bytes, slot);
      assert names + ([name] + rest) == (names + [name]) + rest;
      names := names + [name];
      found, name, slot := dir.Readdir(dev, slot);
    }
  }

  /** A complete listing has exactly the names of the map, each of them once. */
  lemma ListsMap(bytes: seq<byte>)
    requires WellFormed(bytes)
    ensures forall name :: name in NamesFrom(bytes, 0) <==> name in NameMap(bytes)
    ensures forall j, k :: 0 <= j < k < |NamesFrom(bytes, 0)| ==> NamesFrom(bytes, 0)[j] != NamesFrom(bytes, 0)[k]
  {
    ListedOnce(bytes, 0);
    forall name
      ensures name in NamesFrom(bytes, 0) <==> name in NameMap(bytes)
    {
      MapLacks(bytes, name);
    }
  }

  /** Listing a directory from slot i on yields each name held there, once. */
  lemma {:induction false} ListedOnce(bytes: seq<byte>, i: nat)
    requires WellFormed(bytes)
    ensures forall name ::
              name in NamesFrom(bytes, i) <==> exists k :: i <= k < SlotCount(bytes) && Holds(bytes, k, name)
    ensures forall j, k :: 0 <= j < k < |NamesFrom(bytes, i)| ==> NamesFrom(bytes, i)[j] != NamesFrom(bytes, i)[k]
    decreases SlotCount(bytes) - i
  {
    if i < SlotCount(bytes) {
      ListedOnce(bytes, i + 1);
      var r := RecordAt(bytes, i);
      if InUse(r) {
        assert Holds(bytes, i, NameOf(r));
        assert NameOf(r) !in NamesFrom(bytes, i + 1);
      }
    }
  }
}
