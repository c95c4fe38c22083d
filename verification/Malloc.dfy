/** The kernel heap (malloc.c) on top of the page allocator. */
module Malloc {
  import opened Arithmetic
  import opened Bytes
  import opened Bitmap
  import opened Palloc

  /** A size class. */
  datatype Desc = Desc(blockSize: nat, blocksPerArena: nat, freeList: seq<nat>)

  /** The 12-byte header at the start of an arena. Its descriptor is given by
      index; a big block has none, and freeCnt then is its number of pages. */
  datatype Arena = Arena(desc: Option<nat>, freeCnt: nat)

  // ----- blocks

  /** arena_to_block for the arena in page p. */
  function BlockAt(p: nat, size: nat, k: nat): nat {
    Product(k, size);
    4096 * p + 12 + k * size
  }

  ghost function Blocks(p: nat, size: nat, n: nat): set<nat> {
    set k | 0 <= k < n :: BlockAt(p, size, k)
  }

  ghost predicate Shape(size: nat, n: nat) {
    size >= 16 && n >= 1 && n * size <= 4084
  }

  lemma Before(size: nat, j: nat, k: nat)
    requires j < k
    ensures j * size + size <= k * size
  {
    MulMonotone(j + 1, k, size);
    MulDistributes(j, 1, size);
  }

  /** A block lies in its page, after the header. */
  lemma InPage(p: nat, size: nat, n: nat, b: nat)
    requires Shape(size, n) && b in Blocks(p, size, n)
    ensures PageOf(b) == p && 4096 * p + 12 <= b && b + size <= 4096 * p + 4096
    ensures (PageOfs(b) - 12) % size == 0
  {
    var k :| 0 <= k < n && b == BlockAt(p, size, k);
    Product(k, size);
    Before(size, k, n);
    Offset(p, size, k, b);
  }

  lemma Offset(p: nat, size: nat, k: nat, b: nat)
    requires size > 0 && b == 4096 * p + 12 + k * size && k * size <= 4083
    ensures PageOf(b) == p && PageOfs(b) - 12 == k * size && (PageOfs(b) - 12) % size == 0
  {
    Product(k, size);
    Multiple(k, size);
  }

  lemma Multiple(k: nat, size: nat)
    requires size > 0
    ensures k * size >= 0 && (k * size) % size == 0
  {
    Product(k, size);
    DivUnique(k * size, size, k);
    DivBounds(k * size, size);
  }

  /** Blocks of one arena do not overlap. */
  lemma BlocksApart(p: nat, size: nat, n: nat, b: nat, c: nat)
    requires b in Blocks(p, size, n) && c in Blocks(p, size, n) && b != c
    ensures b + size <= c || c + size <= b
  {
    var j :| 0 <= j < n && b == BlockAt(p, size, j);
    var k :| 0 <= k < n && c == BlockAt(p, size, k);
    if j < k { Before(size, j, k); }
    if k < j { Before(size, k, j); }
  }

  lemma {:induction false} CountBlocks(p: nat, size: nat, n: nat)
    requires size > 0
    ensures |Blocks(p, size, n)| == n
  {
    if n == 0 {
      assert Blocks(p, size, n) == {};
    } else {
      CountBlocks(p, size, n - 1);
      NextBlock(p, size, n - 1);
    }
  }

  lemma NextBlock(p: nat, size: nat, k: nat)
    requires size > 0
    ensures Blocks(p, size, k + 1) == Blocks(p, size, k) + {BlockAt(p, size, k)}
    ensures BlockAt(p, size, k) !in Blocks(p, size, k)
  {
    if BlockAt(p, size, k) in Blocks(p, size, k) {
      var j :| 0 <= j < k && BlockAt(p, size, j) == BlockAt(p, size, k);
      Before(size, j, k);
      assert false;
    }
  }

  // ----- lists of blocks

  /** The list has exactly the elements of s, each once. */
  ghost predicate Listing(list: seq<nat>, s: set<nat>) {
    && (forall k :: 0 <= k < |list| ==> list[k] in s)
    && (forall x :: x in s ==> x in list)
    && (forall j, k :: 0 <= j < k < |list| ==> list[j] != list[k])
  }

  lemma Pop(list: seq<nat>, s: set<nat>)
    requires Listing(list, s) && list != []
    ensures list[0] in s && Listing(list[1..], s - {list[0]})
  {
    forall x | x in s - {list[0]}
      ensures x in list[1..]
    {
      var k :| 0 <= k < |list| && list[k] == x;
      assert list[1..][k - 1] == x;
    }
  }

  lemma Push(list: seq<nat>, s: set<nat>, b: nat)
    requires Listing(list, s) && b !in s
    ensures Listing([b] + list, s + {b}) && Listing(list + [b], s + {b})
  {
  }

  /** list_remove */
  method Remove(list: seq<nat>, b: nat, ghost s: set<nat>) returns (r: seq<nat>)
    requires Listing(list, s) && b in s
    ensures Listing(r, s - {b})
  {
    var k :| 0 <= k < |list| && list[k] == b;
    r := list[..k] + list[k + 1..];
    forall x | x in s - {b}
      ensures x in r
    {
      var j :| 0 <= j < |list| && list[j] == x;
      assert r[if j < k then j else j - 1] == x;
    }
  }

  // ----- the heap's invariant, on values

  ghost predicate DescsOk(descs: seq<Desc>) {
    && |descs| == 7
    && (forall i :: 0 <= i < 7 ==> Shape(descs[i].blockSize, descs[i].blocksPerArena))
    && (forall i :: 0 <= i < 7 ==> descs[i].blockSize == Shl(16, i))
  }

  ghost predicate SameShape(descs: seq<Desc>, descs': seq<Desc>) {
    && |descs'| == |descs|
    && forall i :: 0 <= i < |descs| ==>
         descs'[i].blockSize == descs[i].blockSize && descs'[i].blocksPerArena == descs[i].blocksPerArena
  }

  ghost function BlocksOf(descs: seq<Desc>, i: nat, p: nat): set<nat> {
    if i < |descs| then Blocks(p, descs[i].blockSize, descs[i].blocksPerArena) else {}
  }

  ghost function FreeIn(free: set<nat>, p: nat): set<nat> {
    set b | b in free && PageOf(b) == p
  }

  /** The free blocks of size class i. */
  ghost function FreeOf(arenas: map<nat, Arena>, free: set<nat>, i: nat): set<nat> {
    set b | b in free && PageOf(b) in arenas && arenas[PageOf(b)].desc == Some(i)
  }

  ghost predicate ArenaOk(descs: seq<Desc>, a: Arena, p: nat, free: set<nat>, live: set<nat>) {
    match a.desc
    case Some(i) =>
      && i < |descs|
      && a.freeCnt == |FreeIn(free, p)|
      && Split(BlocksOf(descs, i, p), free, live)
    case None =>
      a.freeCnt >= 1 && 4096 * p + 12 in live
  }

  /** Every block is either free or live. */
  ghost predicate Split(blocks: set<nat>, free: set<nat>, live: set<nat>) {
    forall b :: b in blocks ==> (b in free <==> b !in live)
  }

  ghost predicate FreeOk(descs: seq<Desc>, arenas: map<nat, Arena>, b: nat) {
    var p := PageOf(b);
    p in arenas && arenas[p].desc.Some? && b in BlocksOf(descs, arenas[p].desc.value, p)
  }

  ghost predicate LiveOk(descs: seq<Desc>, arenas: map<nat, Arena>, b: nat) {
    var p := PageOf(b);
    && p in arenas
    && if arenas[p].desc.Some? then b in BlocksOf(descs, arenas[p].desc.value, p) else b == 4096 * p + 12
  }

  /** Blocks are either live or on the list of their size class, once; each
      arena counts its free blocks. */
  ghost predicate Core(descs: seq<Desc>, arenas: map<nat, Arena>, free: set<nat>, live: set<nat>) {
    && DescsOk(descs)
    && (forall p :: p in arenas ==> ArenaOk(descs, arenas[p], p, free, live))
    && (forall b :: b in free ==> FreeOk(descs, arenas, b))
    && (forall b :: b in live ==> LiveOk(descs, arenas, b))
    && (forall i :: 0 <= i < |descs| ==> Listing(descs[i].freeList, FreeOf(arenas, free, i)))
  }

  function Pages(a: Arena): nat { if a.desc.Some? then 1 else a.freeCnt }

  /** The pages of the arenas are in use and do not overlap. */
  ghost predicate PagesOk(arenas: map<nat, Arena>, bits: seq<bool>, base: nat) {
    && (forall p :: p in arenas ==> PageRun(arenas[p], p, bits, base))
    && (forall p, q :: p in arenas && q in arenas && p < q ==> p + Pages(arenas[p]) <= q)
  }

  ghost predicate PageRun(a: Arena, p: nat, bits: seq<bool>, base: nat) {
    p >= base && Pages(a) >= 1 && RunAt(bits, p - base, Pages(a), true)
  }

  /** No arena is kept without a live block. */
  ghost predicate NoneEmpty(descs: seq<Desc>, arenas: map<nat, Arena>) {
    forall p :: p in arenas ==> NotEmpty(descs, arenas[p])
  }

  ghost predicate NotEmpty(descs: seq<Desc>, a: Arena) {
    a.desc.Some? && a.desc.value < |descs| ==> a.freeCnt < descs[a.desc.value].blocksPerArena
  }

  /** What block_size returns. */
  function Capacity(descs: seq<Desc>, arenas: map<nat, Arena>, b: nat): int {
    var p := PageOf(b);
    if p !in arenas then 0
    else if arenas[p].desc.Some? then (if arenas[p].desc.value < |descs| then descs[arenas[p].desc.value].blockSize
        else 0)
    else 4096 * arenas[p].freeCnt - PageOfs(b)
  }

  /** A block has at least the size that was asked for, unless adding the arena
      header to that size wrapped around. */
  ghost predicate BigEnough(descs: seq<Desc>, arenas: map<nat, Arena>, live: map<nat, nat>) {
    forall b :: b in live && live[b] <= 0xffff_fff4 ==> live[b] <= Capacity(descs, arenas, b)
  }

  lemma ArenaIn(descs: seq<Desc>, arenas: map<nat, Arena>, free: set<nat>, live: set<nat>, p: nat)
    requires Core(descs, arenas, free, live) && p in arenas
    ensures ArenaOk(descs, arenas[p], p, free, live)
  {
  }

  lemma FreeIsOk(descs: seq<Desc>, arenas: map<nat, Arena>, free: set<nat>, live: set<nat>, b: nat)
    requires Core(descs, arenas, free, live) && b in free
    ensures FreeOk(descs, arenas, b)
  {
  }

  lemma LiveIsOk(descs: seq<Desc>, arenas: map<nat, Arena>, free: set<nat>, live: set<nat>, b: nat)
    requires Core(descs, arenas, free, live) && b in live
    ensures LiveOk(descs, arenas, b)
  {
  }

  // ----- what the steps do to the invariant

  /** Popping a block off its free list makes it live. */
  lemma TakeCore(descs: seq<Desc>, arenas: map<nat, Arena>, free: set<nat>, live: set<nat>, i: nat)
    requires Core(descs, arenas, free, live) && i < |descs| && descs[i].freeList != []
    ensures var b := descs[i].freeList[0]; var p := PageOf(b);
            && b in free && b !in live && p in arenas && arenas[p].desc == Some(i) && arenas[p].freeCnt > 0
            && Core(descs[i := descs[i].(freeList := descs[i].freeList[1..])],
                    arenas[p := arenas[p].(freeCnt := arenas[p].freeCnt - 1)], free - {b}, live + {b})
  {
    var b := descs[i].freeList[0];
    var p := PageOf(b);
    Pop(descs[i].freeList, FreeOf(arenas, free, i));
    assert FreeOk(descs, arenas, b) && ArenaOk(descs, arenas[p], p, free, live);
    assert b in FreeIn(free, p);
    MoveBlock(descs, descs[i := descs[i].(freeList := descs[i].freeList[1..])], arenas, free, live, free - {b},
        live + {b}, b);
  }

  /** Moving one block between free and live, in its list and in the count of
      its arena. */
  lemma MoveBlock(descs: seq<Desc>, descs': seq<Desc>, arenas: map<nat, Arena>, free: set<nat>, live: set<nat>,
                  free': set<nat>, live': set<nat>, b: nat)
    requires Core(descs, arenas, free, live) && SameShape(descs, descs')
    requires FreeOk(descs, arenas, b) && (b in free <==> b !in live)
    requires if b in free then free' == free - {b} && live' == live + {b}
             else free' == free + {b} && live' == live - {b}
    requires var i := arenas[PageOf(b)].desc.value;
             && Listing(descs'[i].freeList, if b in free then FreeOf(arenas, free, i) - {b}
                 else FreeOf(arenas, free, i) + {b})
             && forall j :: 0 <= j < |descs| && j != i ==> descs'[j] == descs[j]
    ensures var p := PageOf(b);
            var a := arenas[p].(freeCnt := |FreeIn(free', p)|);
            && |FreeIn(free', p)| == arenas[p].freeCnt + (if b in free then -1 else 1)
            && Core(descs', arenas[p := a], free', live')
  {
    hide Listing, DescsOk, FreeIn, FreeOf;
    var p := PageOf(b);
    var i := arenas[p].desc.value;
    var arenas' := arenas[p := arenas[p].(freeCnt := |FreeIn(free', p)|)];
    forall q | q in arenas
      ensures ArenaOk(descs', arenas'[q], q, free', live')
      ensures q == p ==> |FreeIn(free', p)| == arenas[p].freeCnt + (if b in free then -1 else 1)
    {
      assert ArenaOk(descs, arenas[q], q, free, live);
      FreeInMoves(free - {b}, b, q);
      assert free - {b} + {b} == if b in free then free else free';
      MovedArena(descs, descs', arenas, free, live, free', live', b, q);
    }
    forall c | c in free'
      ensures FreeOk(descs', arenas', c)
    {
      assert c != b ==> FreeOk(descs, arenas, c);
    }
    forall c | c in live'
      ensures LiveOk(descs', arenas', c)
    {
      assert c != b ==> LiveOk(descs, arenas, c);
    }
    forall j | 0 <= j < |descs|
      ensures Listing(descs'[j].freeList, FreeOf(arenas', free', j))
    {
      FreeOfMoves(arenas, arenas', free, free', b, j);
    }
    assert DescsOk(descs') by { StillDescs(descs, descs'); }
  }

  lemma StillDescs(descs: seq<Desc>, descs': seq<Desc>)
    requires DescsOk(descs) && SameShape(descs, descs')
    ensures DescsOk(descs')
  {
  }

  lemma FreeInMoves(rest: set<nat>, b: nat, q: nat)
    requires b !in rest
    ensures |FreeIn(rest + {b}, q)| == |FreeIn(rest, q)| + if PageOf(b) == q then 1 else 0
  {
    assert FreeIn(rest + {b}, q) == if PageOf(b) == q then FreeIn(rest, q) + {b} else FreeIn(rest, q);
  }

  lemma FreeOfMoves(arenas: map<nat, Arena>, arenas': map<nat, Arena>, free: set<nat>, free': set<nat>, b: nat, j: nat)
    requires PageOf(b) in arenas && arenas'.Keys == arenas.Keys
    requires forall p :: p in arenas ==> arenas'[p].desc == arenas[p].desc
    requires free' == if b in free then free - {b} else free + {b}
    ensures FreeOf(arenas', free', j) == if arenas[PageOf(b)].desc != Some(j) then FreeOf(arenas, free, j)
                                         else if b in free then FreeOf(arenas, free, j) - {b}
                                             else FreeOf(arenas, free, j) + {b}
  {
  }

  lemma MovedArena(descs: seq<Desc>, descs': seq<Desc>, arenas: map<nat, Arena>, free: set<nat>, live: set<nat>,
                   free': set<nat>, live': set<nat>, b: nat, q: nat)
    requires DescsOk(descs) && SameShape(descs, descs') && q in arenas && FreeOk(descs, arenas, b)
    requires ArenaOk(descs, arenas[q], q, free, live) && (b in free <==> b !in live)
    requires if b in free then free' == free - {b} && live' == live + {b}
             else free' == free + {b} && live' == live - {b}
    ensures var a := if PageOf(b) == q then arenas[q].(freeCnt := |FreeIn(free', q)|) else arenas[q];
            |FreeIn(free', q)| == |FreeIn(free, q)| || PageOf(b) == q ==> ArenaOk(descs', a, q, free', live')
  {
    hide FreeIn, PageOf;
    if PageOf(b) != q {
      OtherPage(descs, arenas, q, b);
    }
  }

  /** A block of one page is neither a block nor the big block of another. */
  lemma OtherPage(descs: seq<Desc>, arenas: map<nat, Arena>, q: nat, b: nat)
    requires DescsOk(descs) && q in arenas && PageOf(b) != q
    requires arenas[q].desc.Some? ==> arenas[q].desc.value < |descs|
    ensures arenas[q].desc.Some? ==> b !in BlocksOf(descs, arenas[q].desc.value, q)
    ensures b != 4096 * q + 12
  {
    if arenas[q].desc.Some? && b in BlocksOf(descs, arenas[q].desc.value, q) {
      var d := descs[arenas[q].desc.value];
      InPage(q, d.blockSize, d.blocksPerArena, b);
      assert false;
    }
  }

  /** Putting a live block back at the front of its list. */
  lemma GiveCore(descs: seq<Desc>, arenas: map<nat, Arena>, free: set<nat>, live: set<nat>, b: nat)
    requires Core(descs, arenas, free, live) && b in live && PageOf(b) in arenas && arenas[PageOf(b)].desc.Some?
    ensures var p := PageOf(b); var i := arenas[p].desc.value;
            && i < |descs| && b !in free
            && Core(descs[i := descs[i].(freeList := [b] + descs[i].freeList)],
                    arenas[p := arenas[p].(freeCnt := arenas[p].freeCnt + 1)], free + {b}, live - {b})
  {
    var p := PageOf(b);
    assert ArenaOk(descs, arenas[p], p, free, live) && LiveOk(descs, arenas, b);
    var i := arenas[p].desc.value;
    Push(descs[i].freeList, FreeOf(arenas, free, i), b);
    MoveBlock(descs, descs[i := descs[i].(freeList := [b] + descs[i].freeList)], arenas, free, live, free + {b},
        live - {b}, b);
  }

  /** A new arena, all of whose blocks are free. */
  lemma AddArena(descs: seq<Desc>, arenas: map<nat, Arena>, free: set<nat>, live: set<nat>, i: nat, p: nat,
                 list: seq<nat>)
    requires Core(descs, arenas, free, live) && i < |descs| && descs[i].freeList == [] && p !in arenas
    requires Listing(list, BlocksOf(descs, i, p))
    ensures Core(descs[i := descs[i].(freeList := list)], arenas[p := Arena(Some(i), descs[i].blocksPerArena)],
                 free + BlocksOf(descs, i, p), live)
  {
    hide Listing, DescsOk, FreeIn, FreeOf, Blocks;
    var d := descs[i];
    var descs' := descs[i := d.(freeList := list)];
    var arenas' := arenas[p := Arena(Some(i), d.blocksPerArena)];
    var free' := free + BlocksOf(descs, i, p);
    StillDescs(descs, descs');
    NewBlocks(descs, arenas, free, live, i, p);
    AddedArenas(descs, arenas, free, live, i, p, descs');
    forall b | b in free'
      ensures FreeOk(descs', arenas', b)
    {
      assert b in free ==> FreeOk(descs, arenas, b);
    }
    forall b | b in live
      ensures LiveOk(descs', arenas', b)
    {
      assert LiveOk(descs, arenas, b);
    }
    forall j | 0 <= j < |descs|
      ensures Listing(descs'[j].freeList, FreeOf(arenas', free', j))
    {
      AddedList(descs, arenas, free, live, i, p, list, j);
    }
  }

  lemma AddedList(descs: seq<Desc>, arenas: map<nat, Arena>, free: set<nat>, live: set<nat>, i: nat, p: nat,
                  list: seq<nat>, j: nat)
    requires Core(descs, arenas, free, live) && i < |descs| && descs[i].freeList == [] && p !in arenas && j < |descs|
    requires Listing(list, BlocksOf(descs, i, p))
    ensures Listing(descs[i := descs[i].(freeList := list)][j].freeList,
                    FreeOf(arenas[p := Arena(Some(i), descs[i].blocksPerArena)], free + BlocksOf(descs, i, p), j))
  {
    hide Listing, DescsOk, FreeIn, FreeOf, Blocks;
    NewBlocks(descs, arenas, free, live, i, p);
    NewFreeOf(descs, arenas, arenas[p := Arena(Some(i), descs[i].blocksPerArena)], free, BlocksOf(descs, i, p), p, j);
    if j == i {
      EmptyList(FreeOf(arenas, free, i));
      assert {} + BlocksOf(descs, i, p) == BlocksOf(descs, i, p);
    } else {
      assert FreeOf(arenas, free, j) + {} == FreeOf(arenas, free, j);
    }
  }

  lemma EmptyList(s: set<nat>)
    requires Listing([], s)
    ensures s == {}
  {
    forall x
      ensures x !in s
    {
      var empty: seq<nat> := [];
      assert x in s ==> x in empty;
    }
  }

  lemma AddedArenas(descs: seq<Desc>, arenas: map<nat, Arena>, free: set<nat>, live: set<nat>, i: nat, p: nat,
                    descs': seq<Desc>)
    requires Core(descs, arenas, free, live) && i < |descs| && p !in arenas && SameShape(descs, descs')
    ensures ArenaOk(descs', Arena(Some(i), descs[i].blocksPerArena), p, free + BlocksOf(descs, i, p), live)
    ensures forall q :: q in arenas ==> ArenaOk(descs', arenas[q], q, free + BlocksOf(descs, i, p), live)
  {
    hide Core, FreeIn, Blocks, Split;
    NewBlocks(descs, arenas, free, live, i, p);
    assert Split(BlocksOf(descs, i, p), free + BlocksOf(descs, i, p), live) by {
      NewSplit(BlocksOf(descs, i, p), free, live);
    }
    forall q | q in arenas
      ensures ArenaOk(descs', arenas[q], q, free + BlocksOf(descs, i, p), live)
    {
      ArenaIn(descs, arenas, free, live, q);
    }
  }

  lemma NewSplit(blocks: set<nat>, free: set<nat>, live: set<nat>)
    requires forall b :: b in blocks ==> b !in free && b !in live
    ensures Split(blocks, free + blocks, live)
  {
  }

  /** The blocks of a page that has no arena yet are neither free nor live,
      and of no other page. */
  lemma NewBlocks(descs: seq<Desc>, arenas: map<nat, Arena>, free: set<nat>, live: set<nat>, i: nat, p: nat)
    requires Core(descs, arenas, free, live) && i < |descs| && p !in arenas
    ensures forall b :: b in BlocksOf(descs, i, p) ==> PageOf(b) == p && b !in free && b !in live
    ensures |FreeIn(free + BlocksOf(descs, i, p), p)| == descs[i].blocksPerArena
    ensures forall q :: q != p ==> FreeIn(free + BlocksOf(descs, i, p), q) == FreeIn(free, q)
    ensures forall q, j :: q in arenas && q != p && 0 <= j < |descs| ==>
              Split(BlocksOf(descs, j, q), free, live)
                  == Split(BlocksOf(descs, j, q), free + BlocksOf(descs, i, p), live)
  {
    hide Blocks, Listing;
    var d := descs[i];
    var added := BlocksOf(descs, i, p);
    forall b | b in added
      ensures PageOf(b) == p && b !in free && b !in live
    {
      InPage(p, d.blockSize, d.blocksPerArena, b);
      assert b in free ==> FreeOk(descs, arenas, b);
      assert b in live ==> LiveOk(descs, arenas, b);
    }
    forall b | b in free
      ensures PageOf(b) != p
    {
      assert FreeOk(descs, arenas, b);
    }
    assert FreeIn(free + added, p) == added;
    CountBlocks(p, d.blockSize, d.blocksPerArena);
    forall q | q != p
      ensures FreeIn(free + added, q) == FreeIn(free, q)
    {
    }
    forall q, j | q in arenas && q != p && 0 <= j < |descs|
      ensures Split(BlocksOf(descs, j, q), free, live) == Split(BlocksOf(descs, j, q), free + added, live)
    {
      forall b | b in BlocksOf(descs, j, q)
        ensures b !in added
      {
        InPage(q, descs[j].blockSize, descs[j].blocksPerArena, b);
      }
    }
  }

  lemma NewFreeOf(descs: seq<Desc>, arenas: map<nat, Arena>, arenas': map<nat, Arena>, free: set<nat>, added: set<nat>,
                  p: nat, j: nat)
    requires p !in arenas && p in arenas' && arenas' == arenas[p := arenas'[p]]
    requires forall b :: b in added ==> PageOf(b) == p
    requires forall b :: b in free ==> FreeOk(descs, arenas, b)
    ensures FreeOf(arenas', free + added, j) == FreeOf(arenas, free, j) + if arenas'[p].desc == Some(j) then added
            else {}
  {
    forall b | b in free
      ensures PageOf(b) in arenas
    {
      assert FreeOk(descs, arenas, b);
    }
  }

  /** A big block. */
  lemma AddBig(descs: seq<Desc>, arenas: map<nat, Arena>, free: set<nat>, live: set<nat>, p: nat, n: nat)
    requires Core(descs, arenas, free, live) && p !in arenas && n >= 1
    ensures 4096 * p + 12 !in live
    ensures Core(descs, arenas[p := Arena(None, n)], free, live + {4096 * p + 12})
  {
    hide Listing, DescsOk, FreeIn, Blocks;
    var b, arenas' := 4096 * p + 12, arenas[p := Arena(None, n)];
    assert PageOf(b) == p;
    assert b in live ==> LiveOk(descs, arenas, b);
    forall q | q in arenas
      ensures ArenaOk(descs, arenas[q], q, free, live + {b})
    {
      assert ArenaOk(descs, arenas[q], q, free, live);
      OtherPage(descs, arenas, q, b);
    }
    forall c | c in free
      ensures FreeOk(descs, arenas', c)
    {
      assert FreeOk(descs, arenas, c);
    }
    forall c | c in live + {b}
      ensures LiveOk(descs, arenas', c)
    {
      assert c != b ==> LiveOk(descs, arenas, c);
    }
    forall j | 0 <= j < |descs|
      ensures FreeOf(arenas', free, j) == FreeOf(arenas, free, j)
    {
      NewFreeOf(descs, arenas, arenas', free, {}, p, j);
      assert free + {} == free;
    }
  }

  /** Giving an arena back: a small one none of whose blocks is live, or a big
      one together with its block. */
  lemma DropArena(descs: seq<Desc>, descs': seq<Desc>, arenas: map<nat, Arena>, free: set<nat>, live: set<nat>, p: nat,
                  gone: set<nat>, live': set<nat>)
    requires Core(descs, arenas, free, live) && p in arenas && SameShape(descs, descs')
    requires match arenas[p].desc
             case Some(i) =>
               && live' == live && i < |descs| && gone == BlocksOf(descs, i, p) && gone <= free
               && Listing(descs'[i].freeList, FreeOf(arenas, free, i) - gone)
               && forall j :: 0 <= j < |descs| && j != i ==> descs'[j] == descs[j]
             case None => live' == live - {4096 * p + 12} && descs' == descs && gone == {}
    ensures Core(descs', arenas - {p}, free - gone, live')
  {
    hide Core, Listing, DescsOk, FreeIn, BlocksOf, FreeOf;
    var arenas', free' := arenas - {p}, free - gone;
    CoreDescs(descs, arenas, free, live);
    StillDescs(descs, descs');
    OffPage(descs, arenas, free, live, p, gone, live');
    forall q | q in arenas'
      ensures ArenaOk(descs', arenas'[q], q, free', live')
    {
      OtherArena(descs, descs', arenas, free, live, p, q, gone, live');
    }
    forall b | b in free'
      ensures FreeOk(descs', arenas', b)
    {
      FreeIsOk(descs, arenas, free, live, b);
      SameBlocks(descs, descs', arenas[PageOf(b)].desc.value, PageOf(b));
    }
    forall b | b in live'
      ensures LiveOk(descs', arenas', b)
    {
      LiveIsOk(descs, arenas, free, live, b);
      if arenas[PageOf(b)].desc.Some? {
        SameBlocks(descs, descs', arenas[PageOf(b)].desc.value, PageOf(b));
      }
    }
    forall j | 0 <= j < |descs|
      ensures Listing(descs'[j].freeList, FreeOf(arenas', free', j))
    {
      CoreList(descs, arenas, free, live, j);
      GoneOnPage(descs, arenas, p, gone);
      LeftFreeOf(arenas, free, p, gone, j);
    }
    MakeCore(descs', arenas', free', live');
  }

  lemma SameBlocks(descs: seq<Desc>, descs': seq<Desc>, i: nat, p: nat)
    requires SameShape(descs, descs')
    ensures BlocksOf(descs', i, p) == BlocksOf(descs, i, p)
  {
  }

  lemma CoreDescs(descs: seq<Desc>, arenas: map<nat, Arena>, free: set<nat>, live: set<nat>)
    requires Core(descs, arenas, free, live)
    ensures DescsOk(descs)
  {
  }

  lemma CoreList(descs: seq<Desc>, arenas: map<nat, Arena>, free: set<nat>, live: set<nat>, j: nat)
    requires Core(descs, arenas, free, live) && j < |descs|
    ensures Listing(descs[j].freeList, FreeOf(arenas, free, j))
  {
  }

  lemma MakeCore(descs: seq<Desc>, arenas: map<nat, Arena>, free: set<nat>, live: set<nat>)
    requires DescsOk(descs)
    requires forall p :: p in arenas ==> ArenaOk(descs, arenas[p], p, free, live)
    requires forall b :: b in free ==> FreeOk(descs, arenas, b)
    requires forall b :: b in live ==> LiveOk(descs, arenas, b)
    requires forall i :: 0 <= i < |descs| ==> Listing(descs[i].freeList, FreeOf(arenas, free, i))
    ensures Core(descs, arenas, free, live)
  {
  }

  lemma GoneOnPage(descs: seq<Desc>, arenas: map<nat, Arena>, p: nat, gone: set<nat>)
    requires DescsOk(descs) && p in arenas
    requires gone == {} || (arenas[p].desc.Some? && arenas[p].desc.value < |descs|
             && gone == BlocksOf(descs, arenas[p].desc.value, p))
    ensures forall b :: b in gone ==> PageOf(b) == p
  {
    hide Blocks;
    forall b | b in gone
      ensures PageOf(b) == p
    {
      var i := arenas[p].desc.value;
      InPage(p, descs[i].blockSize, descs[i].blocksPerArena, b);
    }
  }

  lemma DescShape(descs: seq<Desc>, i: nat)
    requires DescsOk(descs) && i < |descs|
    ensures Shape(descs[i].blockSize, descs[i].blocksPerArena)
  {
  }

  /** After that nothing free or live is left on the page. */
  lemma OffPage(descs: seq<Desc>, arenas: map<nat, Arena>, free: set<nat>, live: set<nat>, p: nat, gone: set<nat>,
                live': set<nat>)
    requires Core(descs, arenas, free, live) && p in arenas
    requires match arenas[p].desc
             case Some(i) => live' == live && gone == BlocksOf(descs, i, p) && gone <= free
             case None => live' == live - {4096 * p + 12} && gone == {}
    ensures forall b :: b in free - gone ==> PageOf(b) != p
    ensures forall b :: b in live' ==> PageOf(b) != p
  {
    hide Core, FreeIn, Blocks, BlocksOf;
    ArenaIn(descs, arenas, free, live, p);
    forall b | b in free - gone
      ensures PageOf(b) != p
    {
      FreeIsOk(descs, arenas, free, live, b);
    }
    forall b | b in live'
      ensures PageOf(b) != p
    {
      LiveIsOk(descs, arenas, free, live, b);
    }
  }

  lemma OtherArena(descs: seq<Desc>, descs': seq<Desc>, arenas: map<nat, Arena>, free: set<nat>, live: set<nat>, p: nat,
                   q: nat, gone: set<nat>, live': set<nat>)
    requires Core(descs, arenas, free, live) && SameShape(descs, descs') && q in arenas && q != p && p in arenas
    requires gone == {} || (arenas[p].desc.Some? && arenas[p].desc.value < |descs|
             && gone == BlocksOf(descs, arenas[p].desc.value, p))
    requires live' == live || live' == live - {4096 * p + 12}
    ensures ArenaOk(descs', arenas[q], q, free - gone, live')
  {
    hide Core, DescsOk, Blocks;
    CoreDescs(descs, arenas, free, live);
    ArenaIn(descs, arenas, free, live, q);
    GoneOnPage(descs, arenas, p, gone);
    assert FreeIn(free - gone, q) == FreeIn(free, q);
    OtherPage(descs, arenas, q, 4096 * p + 12);
    if arenas[q].desc.Some? {
      var i := arenas[q].desc.value;
      DescShape(descs, i);
      forall b | b in BlocksOf(descs, i, q)
        ensures b !in gone
      {
        InPage(q, descs[i].blockSize, descs[i].blocksPerArena, b);
      }
    }
  }

  lemma LeftFreeOf(arenas: map<nat, Arena>, free: set<nat>, p: nat, gone: set<nat>, j: nat)
    requires p in arenas
    requires forall b :: b in gone ==> PageOf(b) == p
    requires forall b :: b in free - gone ==> PageOf(b) != p
    ensures FreeOf(arenas - {p}, free - gone, j) == if arenas[p].desc == Some(j) then FreeOf(arenas, free, j) - gone
            else FreeOf(arenas, free, j)
  {
  }

  // ----- what the invariant means

  /** Two live blocks share no byte; a live block lies inside its arena, after
      the header, and inside pages that are in use. */
  lemma LiveApart(descs: seq<Desc>, arenas: map<nat, Arena>, free: set<nat>, live: set<nat>, bits: seq<bool>, base: nat,
                  b: nat, c: nat)
    requires Core(descs, arenas, free, live) && PagesOk(arenas, bits, base) && b in live && c in live && b != c
    ensures b + Capacity(descs, arenas, b) <= c || c + Capacity(descs, arenas, c) <= b
  {
    InArena(descs, arenas, free, live, b);
    InArena(descs, arenas, free, live, c);
    var p, q := PageOf(b), PageOf(c);
    if p == q {
      assert LiveOk(descs, arenas, b) && LiveOk(descs, arenas, c) && ArenaOk(descs, arenas[p], p, free, live);
      if arenas[p].desc.Some? {
        var d := descs[arenas[p].desc.value];
        BlocksApart(p, d.blockSize, d.blocksPerArena, b, c);
      }
    }
  }

  lemma InArena(descs: seq<Desc>, arenas: map<nat, Arena>, free: set<nat>, live: set<nat>, b: nat)
    requires Core(descs, arenas, free, live) && b in live
    ensures var p := PageOf(b);
            && p in arenas
            && 4096 * p + 12 <= b && b + Capacity(descs, arenas, b) <= 4096 * (p + Pages(arenas[p]))
            && Capacity(descs, arenas, b) > 0
    ensures match arenas[PageOf(b)].desc
            case Some(i) => i < |descs| && (PageOfs(b) - 12) % descs[i].blockSize == 0
            case None => PageOfs(b) == 12
  {
    var p := PageOf(b);
    assert LiveOk(descs, arenas, b) && ArenaOk(descs, arenas[p], p, free, live);
    if arenas[p].desc.Some? {
      var i := arenas[p].desc.value;
      InPage(p, descs[i].blockSize, descs[i].blocksPerArena, b);
    }
  }

  /** A live block shares no byte with a free one either. */
  lemma FreeApart(descs: seq<Desc>, arenas: map<nat, Arena>, free: set<nat>, live: set<nat>, bits: seq<bool>, base: nat,
                  b: nat, c: nat)
    requires Core(descs, arenas, free, live) && PagesOk(arenas, bits, base) && b in live && c in free
    ensures PageOf(c) in arenas && arenas[PageOf(c)].desc.Some? && arenas[PageOf(c)].desc.value < |descs|
    ensures b + Capacity(descs, arenas, b) <= c || c + descs[arenas[PageOf(c)].desc.value].blockSize <= b
  {
    InArena(descs, arenas, free, live, b);
    var p, q := PageOf(b), PageOf(c);
    assert FreeOk(descs, arenas, c) && LiveOk(descs, arenas, b) && ArenaOk(descs, arenas[q], q, free, live);
    var d := descs[arenas[q].desc.value];
    InPage(q, d.blockSize, d.blocksPerArena, c);
    if p == q {
      BlocksApart(p, d.blockSize, d.blocksPerArena, b, c);
    }
  }

  /** Byte x belongs to an arena's header or to the list links at the start of
      a free block. */
  predicate IsMeta(descs: seq<Desc>, arenas: map<nat, Arena>, x: nat) {
    || (PageOf(x) in arenas && PageOfs(x) < 12)
    || exists i: nat, k: nat :: i < |descs| && k < |descs[i].freeList|
        && descs[i].freeList[k] <= x < descs[i].freeList[k] + 8
  }

  /** Headers and links lie in the first page of an arena, outside all live blocks. */
  lemma MetaApart(descs: seq<Desc>, arenas: map<nat, Arena>, free: set<nat>, live: set<nat>, bits: seq<bool>, base: nat,
                  x: nat)
    requires Core(descs, arenas, free, live) && PagesOk(arenas, bits, base) && IsMeta(descs, arenas, x)
    ensures PageOf(x) in arenas
    ensures forall b :: b in live ==> !(b <= x < b + Capacity(descs, arenas, b))
  {
    hide Core, Capacity;
    if PageOf(x) in arenas && PageOfs(x) < 12 {
      forall b | b in live
        ensures !(b <= x < b + Capacity(descs, arenas, b))
      {
        InArena(descs, arenas, free, live, b);
      }
    } else {
      var i: nat, k: nat :| i < |descs| && k < |descs[i].freeList|
          && descs[i].freeList[k] <= x < descs[i].freeList[k] + 8;
      FreeOnPage(descs, arenas, free, live, i, k);
      forall b | b in live
        ensures !(b <= x < b + Capacity(descs, arenas, b))
      {
        FreeApart(descs, arenas, free, live, bits, base, b, descs[i].freeList[k]);
      }
    }
  }

  lemma FreeOnPage(descs: seq<Desc>, arenas: map<nat, Arena>, free: set<nat>, live: set<nat>, i: nat, k: nat)
    requires Core(descs, arenas, free, live) && i < |descs| && k < |descs[i].freeList|
    ensures var b := descs[i].freeList[k]; var p := PageOf(b);
            && b in free && p in arenas && arenas[p].desc == Some(i) && descs[i].blockSize >= 16
                && b + 16 <= 4096 * p + 4096
  {
    var b := descs[i].freeList[k];
    CoreList(descs, arenas, free, live, i);
    assert b in FreeOf(arenas, free, i);
    FreeIsOk(descs, arenas, free, live, b);
    DescShape(descs, i);
    InPage(PageOf(b), descs[i].blockSize, descs[i].blocksPerArena, b);
  }

  /** Only bytes in the first pages of arenas differ. */
  ghost predicate ChangedIn(pages: set<nat>, mem: seq<byte>, mem': seq<byte>) {
    |mem'| == |mem| && forall x :: 0 <= x < |mem| && mem'[x] != mem[x] ==> PageOf(x) in pages
  }

  /** Newly allocated pages belong to no arena yet. */
  lemma AddPages(arenas: map<nat, Arena>, bits: seq<bool>, base: nat, p: nat, a: Arena)
    requires PagesOk(arenas, bits, base) && p >= base && Pages(a) >= 1 && RunAt(bits, p - base, Pages(a), false)
    ensures p !in arenas && PagesOk(arenas[p := a], SetRange(bits, p - base, Pages(a), true), base)
  {
    var bits' := SetRange(bits, p - base, Pages(a), true);
    forall q | q in arenas
      ensures q != p && PageRun(arenas[q], q, bits', base)
      ensures p < q ==> p + Pages(a) <= q
      ensures q < p ==> q + Pages(arenas[q]) <= p
    {
      assert PageRun(arenas[q], q, bits, base);
      assert bits[q - base] && bits[q - base + Pages(arenas[q]) - 1];
      assert !bits[p - base] && !bits[p - base + Pages(a) - 1];
    }
  }

  lemma DropPages(arenas: map<nat, Arena>, bits: seq<bool>, base: nat, p: nat)
    requires PagesOk(arenas, bits, base) && p in arenas
    ensures PageRun(arenas[p], p, bits, base)
    ensures PagesOk(arenas - {p}, SetRange(bits, p - base, Pages(arenas[p]), false), base)
  {
    assert PageRun(arenas[p], p, bits, base);
    var bits' := SetRange(bits, p - base, Pages(arenas[p]), false);
    forall q | q in arenas && q != p
      ensures PageRun(arenas[q], q, bits', base)
    {
      assert PageRun(arenas[q], q, bits, base);
      assert p < q ==> p + Pages(arenas[p]) <= q;
      assert q < p ==> q + Pages(arenas[q]) <= p;
    }
  }

  /** The number of pages asked for; both sums wrap around. */
  function BigPages(size: U32): nat {
    ToU32(ToU32(size + 12) + 4095) / 4096
  }

  /** The pages hold the header and the requested bytes exactly when the first
      sum does not wrap; in between the request becomes one for no pages. */
  lemma BigPagesHold(size: U32)
    ensures if size <= 0xffff_eff4 then 4096 * BigPages(size) >= size + 12 > 4096 * BigPages(size) - 4096
            else if size <= 0xffff_fff4 then BigPages(size) == 0
            else BigPages(size) == 1
  {
    var x: nat := ToU32(size + 12);
    if size > 0xffff_fff3 {
      assert x == size + 12 - 0x1_0000_0000;
    } else if size > 0xffff_eff4 {
      assert ToU32(x + 4095) == x + 4095 - 0x1_0000_0000;
    }
  }

  /** A request close to 4 GB is answered with a single page. */
  lemma HugeRequest()
    ensures BigPages(0xffff_ffff) == 1 && 4096 * BigPages(0xffff_ffff) - 12 < 0xffff_ffff
  {
    BigPagesHold(0xffff_ffff);
  }

  // ----- what operations do to blocks, lists and memory

  /** The first block has been taken off the free list of size class i, or put
      back in front. */
  predicate Popped(descs: seq<Desc>, descs': seq<Desc>, i: nat, b: nat) {
    && i < |descs| && i < |descs'| && descs[i].freeList == [b] + descs'[i].freeList
    && descs' == descs[i := descs[i].(freeList := descs'[i].freeList)]
  }

  /** A request takes the first free block of its size class, if there is one. */
  ghost predicate TakesHead(size: U32, descs: seq<Desc>, descs': seq<Desc>, b: nat) {
    forall i: nat :: FirstFit(size, descs, i) && descs[i].freeList != [] ==> Popped(descs, descs', i, b)
  }

  lemma HeadTaken(size: U32, descs: seq<Desc>, descs': seq<Desc>, i: nat, b: nat)
    requires FirstFit(size, descs, i) && (descs[i].freeList == [] || Popped(descs, descs', i, b))
    ensures TakesHead(size, descs, descs', b)
  {
    hide Popped;
    forall j: nat | FirstFit(size, descs, j)
      ensures j == i
    {
    }
  }

  lemma PopsFirst(descs: seq<Desc>, i: nat, b: nat)
    requires i < |descs|
    ensures descs[i].freeList != [] ==>
              Popped(descs, descs[i := descs[i].(freeList := descs[i].freeList[1..])], i, descs[i].freeList[0])
    ensures Popped(descs[i := descs[i].(freeList := [b] + descs[i].freeList)], descs, i, b)
  {
  }

  /** n free pages from the given one on have been marked used. */
  predicate Taken(bits: seq<bool>, bits': seq<bool>, start: int, n: nat) {
    0 <= start && RunAt(bits, start, n, false) && bits' == SetRange(bits, start, n, true)
  }

  lemma NoBlocks(p: nat, size: nat)
    ensures Blocks(p, size, 0) == {}
  {
  }

  lemma BlockIn(p: nat, size: nat, n: nat, k: nat)
    requires k < n
    ensures BlockAt(p, size, k) in Blocks(p, size, n)
  {
  }

  /** All blocks of a small arena are free exactly when none is live. */
  lemma AllFree(descs: seq<Desc>, arenas: map<nat, Arena>, free: set<nat>, live: set<nat>, p: nat)
    requires Core(descs, arenas, free, live) && p in arenas && arenas[p].desc.Some?
    ensures BlocksOf(descs, arenas[p].desc.value, p) <= free <==> forall q :: q in live ==> PageOf(q) != p
  {
    hide Core, Blocks;
    ArenaIn(descs, arenas, free, live, p);
    CoreDescs(descs, arenas, free, live);
    var i := arenas[p].desc.value;
    forall q | q in live && PageOf(q) == p
      ensures q in BlocksOf(descs, i, p) && q !in free
    {
      LiveIsOk(descs, arenas, free, live, q);
    }
    forall b | b in BlocksOf(descs, i, p) && b !in free
      ensures b in live && PageOf(b) == p
    {
      InPage(p, descs[i].blockSize, descs[i].blocksPerArena, b);
    }
  }

  /** A big block is alone in its arena. */
  lemma AloneInArena(descs: seq<Desc>, arenas: map<nat, Arena>, free: set<nat>, live: set<nat>, p: nat)
    requires Core(descs, arenas, free, live) && p in live && PageOf(p) in arenas && arenas[PageOf(p)].desc == None
    ensures p == 4096 * PageOf(p) + 12 && forall q :: q in live && q != p ==> PageOf(q) != PageOf(p)
  {
    forall q | q in live && PageOf(q) == PageOf(p)
      ensures q == 4096 * PageOf(p) + 12
    {
      LiveIsOk(descs, arenas, free, live, q);
    }
  }

  lemma StillOthers(descs: seq<Desc>, descs': seq<Desc>, arenas: map<nat, Arena>, arenas': map<nat, Arena>, p: nat)
    requires SameShape(descs, descs') && p in arenas' && arenas' == arenas[p := arenas'[p]] && NoneEmpty(descs, arenas)
    ensures forall q :: q in arenas' && q != p ==> NotEmpty(descs', arenas'[q])
  {
    forall q | q in arenas && q != p
      ensures NotEmpty(descs', arenas[q])
    {
      assert NotEmpty(descs, arenas[q]);
    }
  }

  lemma StillOthersDropped(descs: seq<Desc>, descs': seq<Desc>, arenas: map<nat, Arena>, p: nat)
    requires SameShape(descs, descs')
    requires forall q :: q in arenas && q != p ==> NotEmpty(descs, arenas[q])
    ensures NoneEmpty(descs', arenas - {p})
  {
    forall q | q in arenas && q != p
      ensures NotEmpty(descs', arenas[q])
    {
      assert NotEmpty(descs, arenas[q]);
    }
  }

  lemma LeftCapacity(descs: seq<Desc>, descs': seq<Desc>, arenas: map<nat, Arena>, free: set<nat>, live: set<nat>,
                     p: nat)
    requires SameShape(descs, descs') && p in arenas && Core(descs', arenas - {p}, free, live)
    ensures forall b :: b in live ==> PageOf(b) != p && Capacity(descs', arenas - {p}, b) == Capacity(descs, arenas, b)
  {
    forall b | b in live
      ensures PageOf(b) in arenas && PageOf(b) != p
    {
      LiveIsOk(descs', arenas - {p}, free, live, b);
    }
  }

  lemma SamePart(mem: seq<byte>, mem': seq<byte>, q: nat, m: int)
    requires |mem'| == |mem| && forall x :: 0 <= x < |mem| && q <= x < q + m ==> mem'[x] == mem[x]
    ensures Part(mem', q, m) == Part(mem, q, m)
  {
    if 0 < m && q + m <= |mem| {
      assert mem'[q..q + m] == mem[q..q + m];
    }
  }

  lemma FillApart(mem: seq<byte>, b: nat, n: nat, v: byte, q: nat, m: int)
    requires m <= 0 || q + m <= b || b + n <= q
    ensures Part(Fill(mem, b, n, v), q, m) == Part(mem, q, m)
  {
    if 0 < m && q + m <= |mem| {
      assert Fill(mem, b, n, v)[q..q + m] == mem[q..q + m];
    }
  }

  /** Clearing a block leaves the other blocks alone. */
  lemma OthersKept(descs: seq<Desc>, arenas: map<nat, Arena>, free: set<nat>, live: map<nat, nat>, bits: seq<bool>,
                   base: nat, mem: seq<byte>, p: nat)
    requires Core(descs, arenas, free, live.Keys) && PagesOk(arenas, bits, base) && p in live
    ensures var n := Capacity(descs, arenas, p);
            n >= 0 && forall q :: q in live && q != p ==>
              Part(Fill(mem, p, n, 0xcc), q, Capacity(descs, arenas, q)) == Part(mem, q, Capacity(descs, arenas, q))
  {
    hide Core, PagesOk, Capacity;
    InArena(descs, arenas, free, live.Keys, p);
    var n := Capacity(descs, arenas, p);
    forall q | q in live && q != p
      ensures Part(Fill(mem, p, n, 0xcc), q, Capacity(descs, arenas, q)) == Part(mem, q, Capacity(descs, arenas, q))
    {
      LiveApart(descs, arenas, free, live.Keys, bits, base, p, q);
      FillApart(mem, p, n, 0xcc, q, Capacity(descs, arenas, q));
    }
  }

  /** Clearing the pages of an arena leaves the blocks of other arenas alone. */
  lemma OtherPagesKept(descs: seq<Desc>, arenas: map<nat, Arena>, free: set<nat>, live: map<nat, nat>, bits: seq<bool>,
                       base: nat, mem: seq<byte>, page: nat)
    requires Core(descs, arenas, free, live.Keys) && PagesOk(arenas, bits, base) && page in arenas
    ensures forall q :: q in live && PageOf(q) != page ==>
              Part(Fill(mem, 4096 * page, 4096 * Pages(arenas[page]), 0xcc), q, Capacity(descs, arenas, q))
              == Part(mem, q, Capacity(descs, arenas, q))
  {
    hide Core, Capacity;
    forall q | q in live && PageOf(q) != page
      ensures Part(Fill(mem, 4096 * page, 4096 * Pages(arenas[page]), 0xcc), q, Capacity(descs, arenas, q))
           == Part(mem, q, Capacity(descs, arenas, q))
    {
      InArena(descs, arenas, free, live.Keys, q);
      FillApart(mem, 4096 * page, 4096 * Pages(arenas[page]), 0xcc, q, Capacity(descs, arenas, q));
    }
  }

  /** The first bytes of both are the same, as many as fit in the new size. */
  predicate SameFront(a: seq<byte>, b: seq<byte>, size: nat) {
    var n := if size < |b| then size else |b|;
    n <= |a| && a[..n] == b[..n]
  }

  lemma OverwriteApart(mem: seq<byte>, b: nat, bytes: seq<byte>, n: int, q: nat, m: int)
    requires |bytes| <= n && b + |bytes| <= |mem| && (q + m <= b || b + n <= q)
    ensures Part(Overwrite(mem, b, bytes), q, m) == Part(mem, q, m)
  {
    if 0 < m && q + m <= |mem| {
      assert Overwrite(mem, b, bytes)[q..q + m] == mem[q..q + m];
    }
  }

  lemma OverwriteFront(mem: seq<byte>, b: nat, bytes: seq<byte>, m: int)
    requires |bytes| <= m && b + m <= |mem|
    ensures |Part(Overwrite(mem, b, bytes), b, m)| >= |bytes|
            && Part(Overwrite(mem, b, bytes), b, m)[..|bytes|] == bytes
  {
  }

  lemma PartFront(mem: seq<byte>, b: nat, m: int, n: nat)
    requires n <= m && b + m <= |mem|
    ensures |Part(mem, b, m)| >= n && Part(mem, b, m)[..n] == mem[b..b + n]
  {
  }

  function Without(bits: seq<bool>, start: int, n: nat): seq<bool> {
    if 0 <= start && start + n <= |bits| then SetRange(bits, start, n, false) else bits
  }

  lemma StillCapacity(descs: seq<Desc>, descs': seq<Desc>, arenas: map<nat, Arena>)
    requires SameShape(descs, descs')
    ensures forall b :: Capacity(descs', arenas, b) == Capacity(descs, arenas, b)
  {
  }

  lemma OthersNotEmpty(descs: seq<Desc>, descs': seq<Desc>, arenas: map<nat, Arena>, p: nat, a: Arena)
    requires NoneEmpty(descs, arenas) && SameShape(descs, descs')
    ensures forall q :: q in arenas && q != p ==> NotEmpty(descs', arenas[p := a][q])
  {
    forall q | q in arenas
      ensures NotEmpty(descs', arenas[q])
    {
      assert NotEmpty(descs, arenas[q]);
    }
  }

  lemma FirstOnPage(descs: seq<Desc>, i: nat, p: nat, list: seq<nat>)
    requires DescsOk(descs) && i < |descs| && list != [] && Listing(list, BlocksOf(descs, i, p))
    ensures PageOf(list[0]) == p
  {
    InPage(p, descs[i].blockSize, descs[i].blocksPerArena, list[0]);
  }

  /** An arena has no more free blocks than blocks. */
  lemma AtMostAll(descs: seq<Desc>, arenas: map<nat, Arena>, free: set<nat>, live: set<nat>, p: nat)
    requires Core(descs, arenas, free, live) && p in arenas && arenas[p].desc.Some?
    ensures arenas[p].desc.value < |descs| && arenas[p].freeCnt <= descs[arenas[p].desc.value].blocksPerArena
    ensures arenas[p].freeCnt == descs[arenas[p].desc.value].blocksPerArena ==>
              BlocksOf(descs, arenas[p].desc.value, p) <= free
    ensures BlocksOf(descs, arenas[p].desc.value, p) <= free ==>
              arenas[p].freeCnt == descs[arenas[p].desc.value].blocksPerArena
  {
    ArenaIn(descs, arenas, free, live, p);
    var i := arenas[p].desc.value;
    var all := BlocksOf(descs, i, p);
    CountBlocks(p, descs[i].blockSize, descs[i].blocksPerArena);
    forall b | b in FreeIn(free, p)
      ensures b in all
    {
      FreeIsOk(descs, arenas, free, live, b);
    }
    SubsetCount(FreeIn(free, p), all);
    if all <= free {
      forall b | b in all
        ensures b in FreeIn(free, p)
      {
        InPage(p, descs[i].blockSize, descs[i].blocksPerArena, b);
      }
      assert FreeIn(free, p) == all;
    }
  }

  /** Changing the free count of a small arena affects neither its pages nor
      the capacity of any block. */
  lemma Recounted(descs: seq<Desc>, descs': seq<Desc>, arenas: map<nat, Arena>, p: nat, n: nat, bits: seq<bool>,
                  base: nat)
    requires SameShape(descs, descs') && p in arenas && arenas[p].desc.Some? && PagesOk(arenas, bits, base)
    ensures PagesOk(arenas[p := arenas[p].(freeCnt := n)], bits, base)
    ensures forall b :: Capacity(descs', arenas[p := arenas[p].(freeCnt := n)], b) == Capacity(descs, arenas, b)
  {
    var arenas' := arenas[p := arenas[p].(freeCnt := n)];
    forall q | q in arenas'
      ensures PageRun(arenas'[q], q, bits, base)
    {
      assert PageRun(arenas[q], q, bits, base);
    }
  }

  lemma StillNotEmpty(descs: seq<Desc>, descs': seq<Desc>, arenas: map<nat, Arena>, arenas': map<nat, Arena>, p: nat)
    requires SameShape(descs, descs') && p in arenas' && arenas' == arenas[p := arenas'[p]]
             && NotEmpty(descs', arenas'[p])
    requires forall q :: q in arenas && q != p ==> NotEmpty(descs, arenas[q])
    ensures NoneEmpty(descs', arenas')
  {
    forall q | q in arenas'
      ensures NotEmpty(descs', arenas'[q])
    {
      assert q != p ==> NotEmpty(descs, arenas[q]);
    }
  }

  /** A new arena changes no other block's capacity. */
  lemma AddedCapacity(descs: seq<Desc>, arenas: map<nat, Arena>, free: set<nat>, live: set<nat>, p: nat, a: Arena)
    requires Core(descs, arenas, free, live) && p !in arenas
    ensures forall b :: b in live ==> Capacity(descs, arenas[p := a], b) == Capacity(descs, arenas, b)
  {
    forall b | b in live
      ensures PageOf(b) in arenas
    {
      LiveIsOk(descs, arenas, free, live, b);
    }
  }

  lemma BigCapacity(descs: seq<Desc>, arenas: map<nat, Arena>, p: nat)
    requires p in arenas && arenas[p].desc == None
    ensures Capacity(descs, arenas, 4096 * p + 12) == 4096 * arenas[p].freeCnt - 12
  {
    assert PageOf(4096 * p + 12) == p;
  }

  /** No memory for a request: its size class has no free block and there is
      no free page, or there is no run of pages for a big block. */
  ghost predicate Refused(size: U32, descs: seq<Desc>, bits: seq<bool>) {
    if size <= 1024 then
      (exists i :: 0 <= i < |descs| && FirstFit(size, descs, i) && descs[i].freeList == [])
      && (forall k :: 0 <= k ==> !RunAt(bits, k, 1, false))
    else
      BigPages(size) == 0 || forall j :: 0 <= j ==> !RunAt(bits, j, BigPages(size), false)
  }

  ghost predicate FirstFit(size: U32, descs: seq<Desc>, i: nat) {
    i < |descs| && descs[i].blockSize >= size && forall j :: 0 <= j < i ==> descs[j].blockSize < size
  }

  lemma RefusedIff(size: U32, descs: seq<Desc>, bits: seq<bool>, i: nat)
    requires size <= 1024 && FirstFit(size, descs, i)
    ensures Refused(size, descs, bits) <==> descs[i].freeList == [] && forall k :: 0 <= k ==> !RunAt(bits, k, 1, false)
  {
    hide RunAt;
  }

  /** realloc copies past the end of the new block. */
  ghost predicate Overruns(newSize: U32, oldCapacity: int, descs: seq<Desc>, bits: seq<bool>) {
    newSize > 0xffff_fff4 && oldCapacity > 4084 && !Refused(newSize, descs, bits)
  }

  method InitDescs() returns (descs: seq<Desc>)
    ensures DescsOk(descs) && forall i :: 0 <= i < |descs| ==> descs[i].freeList == []
    ensures forall i :: 0 <= i < |descs| ==> FullArena(descs[i].blockSize, descs[i].blocksPerArena)
  {
    descs := [];
    var blockSize := 16;
    SizeClasses();
    while blockSize < 2048
      invariant |descs| <= 7 && blockSize == Shl(16, |descs|) > 0
      invariant forall i :: 0 <= i < |descs| ==>
                  descs[i].blockSize == Shl(16, i) && Shape(descs[i].blockSize, descs[i].blocksPerArena)
                      && descs[i].freeList == [] && FullArena(descs[i].blockSize, descs[i].blocksPerArena)
    {
      hide Shape, Shl, FullArena;
      ClassShape(blockSize, |descs|);
      descs := descs + [Desc(blockSize, 4084 / blockSize, [])];
      blockSize := blockSize * 2;
    }
  }

  /** No more than n blocks fit behind an arena's header. */
  ghost predicate FullArena(size: nat, n: nat) { (n + 1) * size > 4084 }

  lemma ClassShape(size: nat, k: nat)
    requires 0 < size < 2048 && size == Shl(16, k) && k <= 7
    ensures Shape(size, 4084 / size) && FullArena(size, 4084 / size) && size * 2 == Shl(16, k + 1) > 0 && k < 7
  {
    SizeClasses();
    assert size in {16, 32, 64, 128, 256, 512, 1024};
    DivBounds(4084, size);
  }

  lemma SizeClasses()
    ensures Shl(16, 0) == 16 && Shl(16, 1) == 32 && Shl(16, 2) == 64 && Shl(16, 3) == 128
    ensures Shl(16, 4) == 256 && Shl(16, 5) == 512 && Shl(16, 6) == 1024 && Shl(16, 7) == 2048
  {
  }

  // ----- malloc.c

  class Heap {
    const palloc: PageAllocator
    var descs: seq<Desc>
    // Arena headers, by page.
    var arenas: map<nat, Arena>
    // The allocated blocks, with the sizes that were asked for.
    ghost var live: map<nat, nat>
    // The blocks on the free lists.
    ghost var free: set<nat>

    ghost predicate Valid()
      reads this, palloc, palloc.kernel.usedMap, palloc.user.usedMap
    {
      && palloc.Valid()
      && Core(descs, arenas, free, live.Keys)
      && PagesOk(arenas, palloc.kernel.usedMap.bits, palloc.kernel.base)
      && NoneEmpty(descs, arenas)
      && BigEnough(descs, arenas, live)
    }

    /** What the allocated blocks contain, each over its whole capacity. */
    ghost function Contents(): map<nat, seq<byte>>
      reads this, palloc
    {
      map b | b in live :: Part(palloc.mem, b, Capacity(descs, arenas, b))
    }

    ghost function Used(): seq<bool>
      reads palloc.kernel.usedMap
    {
      palloc.kernel.usedMap.bits
    }

    /** malloc_init: size classes 16, 32, ..., 1024. */
    constructor (palloc: PageAllocator)
      requires palloc.Valid()
      ensures this.palloc == palloc && Valid() && live == map[] && arenas == map[]
      ensures forall i :: 0 <= i < |descs| ==> FullArena(descs[i].blockSize, descs[i].blocksPerArena)
    {
      this.palloc := palloc;
      arenas, live, free := map[], map[], {};
      var ds := InitDescs();
      descs := ds;
    }

    /** The first size class whose blocks hold size bytes. */
    method FindDesc(size: nat) returns (i: nat)
      requires DescsOk(descs)
      ensures |descs| == 7 && i <= 7 && (i < 7 ==> descs[i].blockSize >= size) && (i == 7 <==> size > 1024)
      ensures i < 7 ==> size <= 16 || descs[i].blockSize < 2 * size
      ensures forall j :: 0 <= j < i ==> descs[j].blockSize < size
    {
      SizeClasses();
      i := 0;
      while i < |descs|
        invariant 0 <= i <= 7 && forall j :: 0 <= j < i ==> descs[j].blockSize < size
      {
        if descs[i].blockSize >= size {
          break;
        }
        i := i + 1;
      }
    }

    /** Stores the arena headers and the list links, whose values are those of
        the fields above; here any bytes will do. */
    method WriteMeta()
      requires palloc.Valid() && Core(descs, arenas, free, live.Keys)
      requires PagesOk(arenas, palloc.kernel.usedMap.bits, palloc.kernel.base)
      modifies palloc`mem
      ensures palloc.Valid() && ChangedIn(arenas.Keys, old(palloc.mem), palloc.mem) && Contents() == old(Contents())
    {
      hide Core, PagesOk, Capacity, IsMeta;
      var mem, descs0, arenas0 := palloc.mem, descs, arenas;
      var noise: seq<byte> := *;
      if |noise| == |mem| {
        palloc.mem := seq(|mem|, x requires 0 <= x < |mem| => if IsMeta(descs0, arenas0, x) then noise[x] else mem[x]);
      }
      forall x | 0 <= x < |mem| && palloc.mem[x] != mem[x]
        ensures PageOf(x) in arenas && forall b :: b in live ==> !(b <= x < b + Capacity(descs, arenas, b))
      {
        MetaApart(descs, arenas, free, live.Keys, palloc.kernel.usedMap.bits, palloc.kernel.base, x);
      }
      forall b | b in live
        ensures Part(palloc.mem, b, Capacity(descs, arenas, b)) == Part(mem, b, Capacity(descs, arenas, b))
      {
        SamePart(mem, palloc.mem, b, Capacity(descs, arenas, b));
      }
    }

    /** malloc, with 0 for the null pointer. A block is new, overlaps no other
        (LiveApart), and holds the requested bytes exactly when adding the
        header to their number does not wrap around. It is refused only when no
        block and no run of pages is free. */
    method Malloc(size: U32) returns (r: nat)
      requires Valid()
      modifies this, palloc, palloc.kernel.usedMap
      ensures Valid() && ChangedIn(arenas.Keys, old(palloc.mem), palloc.mem)
      ensures size == 0 ==> r == 0
      ensures r == 0 ==> palloc.mem == old(palloc.mem)
      ensures r == 0 ==> live == old(live) && Used() == old(Used()) && Contents() == old(Contents())
      ensures r != 0 ==> r !in old(live) && live == old(live)[r := size]
      ensures r != 0 ==> Contents() == old(Contents())[r := Part(palloc.mem, r, Capacity(descs, arenas, r))]
      ensures r != 0 ==> (Capacity(descs, arenas, r) >= size <==> size <= 0xffff_fff4)
      ensures r != 0 && size > 1024 ==> Capacity(descs, arenas, r) == 4096 * BigPages(size) - 12
      ensures r != 0 && size > 1024 ==> Taken(old(Used()), Used(), PageOf(r) - palloc.kernel.base, BigPages(size))
      ensures r != 0 && size <= 1024 ==> Capacity(descs, arenas, r) < 2 * size || size <= 16
      ensures r == 0 <==> size == 0 || Refused(size, old(descs), old(Used()))
      ensures 0 < size <= 1024 ==> TakesHead(size, old(descs), descs, r)
    {
      hide Core, PagesOk, Capacity, NotEmpty, BigEnough, RunAt, DescsOk, Popped, TakesHead;
      if size == 0 {
        return 0;
      }
      CoreDescs(descs, arenas, free, live.Keys);
      var i := FindDesc(size);
      if i == 7 {
        r := BigBlock(size);
        return;
      }
      if descs[i].freeList == [] {
        var ok := NewArena(i);
        assert !ok <==> Refused(size, old(descs), old(Used())) by { RefusedIff(size, old(descs), old(Used()), i); }
        if !ok {
          HeadTaken(size, old(descs), descs, i, 0);
          return 0;
        }
      } else {
        RefusedIff(size, descs, Used(), i);
      }
      r := TakeBlock(i, size);
      HeadTaken(size, old(descs), descs, i, r);
    }

    /** Valid, but for a newly made arena of size class i that may still have
        all its blocks free. */
    ghost predicate NearlyValid(i: nat)
      reads this, palloc, palloc.kernel.usedMap, palloc.user.usedMap
    {
      && palloc.Valid()
      && Core(descs, arenas, free, live.Keys)
      && PagesOk(arenas, palloc.kernel.usedMap.bits, palloc.kernel.base)
      && BigEnough(descs, arenas, live)
      && i < |descs| && descs[i].freeList != []
      && (forall p :: p in arenas && p != PageOf(descs[i].freeList[0]) ==> NotEmpty(descs, arenas[p]))
    }

    /** Obtains a page and adds its blocks to the free list of size class i. */
    method NewArena(i: nat) returns (ok: bool)
      requires Valid() && i < |descs| && descs[i].freeList == []
      modifies this`descs, this`arenas, this`free, palloc, palloc.kernel.usedMap
      ensures SameShape(old(descs), descs) && old(arenas).Keys <= arenas.Keys
      ensures ChangedIn(arenas.Keys, old(palloc.mem), palloc.mem) && (!ok ==> palloc.mem == old(palloc.mem))
      ensures ok ==> NearlyValid(i) && Contents() == old(Contents())
      ensures !ok ==> Valid() && descs == old(descs) && arenas == old(arenas) && Used() == old(Used())
      ensures !ok <==> forall k :: 0 <= k ==> !RunAt(old(Used()), k, 1, false)
    {
      hide Core, PagesOk, Capacity, Blocks, NoneEmpty, RunAt;
      ghost var bits := Used();
      var a, _ := palloc.GetMultiple(false, false, false, 1);
      if a == 0 {
        return false;
      }
      ghost var p := PageOf(a);
      var header := Arena(Some(i), descs[i].blocksPerArena);
      AddPages(arenas, bits, palloc.kernel.base, p, header);
      CoreDescs(descs, arenas, free, live.Keys);
      var list := ListBlocks(a, i);
      AddArena(descs, arenas, free, live.Keys, i, p, list);
      AddedCapacity(descs, arenas, free, live.Keys, p, header);
      StillCapacity(descs, descs[i := descs[i].(freeList := list)], arenas[p := header]);
      OthersNotEmpty(descs, descs[i := descs[i].(freeList := list)], arenas, p, header);
      FirstOnPage(descs, i, p, list);
      free := free + BlocksOf(descs, i, p);
      arenas := arenas[PageOf(a) := header];
      descs := descs[i := descs[i].(freeList := list)];
      WriteMeta();
      ok := true;
    }

    /** Appends the blocks of an arena, one after the other, to an empty list. */
    method ListBlocks(a: nat, i: nat) returns (list: seq<nat>)
      requires DescsOk(descs) && i < |descs| && a == 4096 * PageOf(a)
      ensures list != [] && Listing(list, BlocksOf(descs, i, PageOf(a)))
    {
      ghost var p, size := PageOf(a), descs[i].blockSize;
      DescShape(descs, i);
      list := [];
      for k := 0 to descs[i].blocksPerArena
        invariant Listing(list, Blocks(p, size, k)) && |list| == k
      {
        NextBlock(p, size, k);
        Push(list, Blocks(p, size, k), BlockAt(p, size, k));
        list := list + [a + 12 + k * descs[i].blockSize];
      }
    }

    /** Takes the first free block of size class i. */
    method TakeBlock(i: nat, ghost size: nat) returns (r: nat)
      requires NearlyValid(i) && descs[i].blockSize >= size
      modifies this, palloc`mem
      ensures Valid() && r != 0 && r !in old(live) && live == old(live)[r := size]
      ensures arenas.Keys == old(arenas).Keys && ChangedIn(arenas.Keys, old(palloc.mem), palloc.mem)
      ensures Contents() == old(Contents())[r := Part(palloc.mem, r, Capacity(descs, arenas, r))]
      ensures Capacity(descs, arenas, r) == old(descs[i].blockSize)
      ensures Popped(old(descs), descs, i, r)
    {
      hide Core, PagesOk, NoneEmpty, Capacity, BigEnough, Popped;
      r := PopBlock(i, size);
      WriteMeta();
    }

    /** The same on the lists and counts alone. */
    method PopBlock(i: nat, ghost size: nat) returns (r: nat)
      requires NearlyValid(i) && descs[i].blockSize >= size
      modifies this
      ensures Valid() && r != 0 && r !in old(live) && live == old(live)[r := size]
      ensures arenas.Keys == old(arenas).Keys
      ensures Contents() == old(Contents())[r := Part(palloc.mem, r, Capacity(descs, arenas, r))]
      ensures Capacity(descs, arenas, r) == old(descs[i].blockSize)
      ensures Popped(old(descs), descs, i, r)
    {
      hide Core, PagesOk, NoneEmpty, Blocks, Popped;
      var list := descs[i].freeList;
      r := list[0];
      ghost var descs0, arenas0 := descs, arenas;
      PopsFirst(descs, i, r);
      TakeCore(descs, arenas, free, live.Keys, i);
      AtMostAll(descs, arenas, free, live.Keys, PageOf(r));
      var a := arenas[PageOf(r)];
      descs := descs[i := descs[i].(freeList := list[1..])];
      arenas := arenas[PageOf(r) := a.(freeCnt := a.freeCnt - 1)];
      free, live := free - {r}, live[r := size];
      assert live.Keys == old(live).Keys + {r};
      Recounted(descs0, descs, arenas0, PageOf(r), a.freeCnt - 1, palloc.kernel.usedMap.bits, palloc.kernel.base);
      StillNotEmpty(descs0, descs, arenas0, arenas, PageOf(r));
      InArena(descs, arenas, free, live.Keys, r);
    }

    /** No other block of p's arena is allocated. */
    ghost predicate LastInArena(p: nat)
      reads this
    {
      forall q :: q in live && q != p ==> PageOf(q) != PageOf(p)
    }

    /** free. All other blocks keep their contents. The pages of the block's
        arena go back to the page allocator exactly when it was the arena's
        last block. */
    method Free(p: nat)
      requires Valid() && (p == 0 || p in live)
      modifies this, palloc, palloc.kernel.usedMap, palloc.user.usedMap
      ensures Valid() && live == old(live) - {p}
      ensures Contents() == old(Contents()) - {p}
      ensures palloc.user.usedMap.bits == old(palloc.user.usedMap.bits)
      ensures p == 0 ==> Used() == old(Used())
      ensures p != 0 && !old(LastInArena(p)) ==> Used() == old(Used())
      ensures p != 0 && !old(LastInArena(p)) && PageOf(p) in old(arenas) && old(arenas)[PageOf(p)].desc.Some? ==>
                Popped(descs, old(descs), old(arenas)[PageOf(p)].desc.value, p)
      ensures p != 0 && old(LastInArena(p)) ==>
                Used() == Without(old(Used()), PageOf(p) - palloc.kernel.base, Pages(old(arenas)[PageOf(p)]))
    {
      hide Core, PagesOk, NoneEmpty, BigEnough, Capacity;
      if p == 0 {
        NullIsNoBlock();
        return;
      }
      InArena(descs, arenas, free, live.Keys, p);
      var a := arenas[PageOf(p)];
      match a.desc
      case Some(i) => FreeSmall(p, i);
      case None => FreeBig(p);
    }

    lemma NullIsNoBlock()
      requires Valid()
      ensures 0 !in live && Contents() - {0} == Contents()
    {
      if 0 in live {
        InArena(descs, arenas, free, live.Keys, 0);
      }
    }

    method FreeSmall(p: nat, i: nat)
      requires Valid() && p in live && PageOf(p) in arenas && arenas[PageOf(p)].desc == Some(i) && i < |descs| && p != 0
      modifies this, palloc, palloc.kernel.usedMap, palloc.user.usedMap
      ensures Valid() && live == old(live) - {p}
      ensures Contents() == old(Contents()) - {p}
      ensures palloc.user.usedMap.bits == old(palloc.user.usedMap.bits)
      ensures !old(LastInArena(p)) ==> Used() == old(Used())
      ensures old(LastInArena(p)) ==> Used() == Without(old(Used()), PageOf(p) - palloc.kernel.base, 1)
      ensures !old(LastInArena(p)) ==> Popped(descs, old(descs), i, p)
    {
      hide Core, PagesOk, NoneEmpty, BigEnough, Capacity, Without, Popped;
      GiveBlock(p, i);
      ghost var page := PageOf(p);
      AtMostAll(descs, arenas, free, live.Keys, page);
      AllFree(descs, arenas, free, live.Keys, page);
      if arenas[PageOf(p)].freeCnt >= descs[i].blocksPerArena {
        DropSmall(PageOf(p), i);
      } else {
        assert NoneEmpty(descs, arenas) by { StillNotEmpty(descs, descs, arenas, arenas, page); }
      }
    }

    /** Puts a block back at the front of its free list. */
    method GiveBlock(p: nat, i: nat)
      requires Valid() && p in live && PageOf(p) in arenas && arenas[PageOf(p)].desc == Some(i) && i < |descs|
      modifies this, palloc
      ensures palloc.Valid() && Core(descs, arenas, free, live.Keys) && SameShape(old(descs), descs)
      ensures PagesOk(arenas, palloc.kernel.usedMap.bits, palloc.kernel.base) && BigEnough(descs, arenas, live)
      ensures forall q :: q in arenas && q != PageOf(p) ==> NotEmpty(descs, arenas[q])
      ensures live == old(live) - {p} && PageOf(p) in arenas && arenas[PageOf(p)].desc == Some(i)
      ensures Popped(descs, old(descs), i, p)
      ensures Contents() == old(Contents()) - {p}
    {
      hide Core, PagesOk, NoneEmpty, Popped;
      ghost var descs0, arenas0 := descs, arenas;
      palloc.mem := Fill(palloc.mem, p, descs[i].blockSize, 0xcc);
      OthersKept(descs, arenas, free, live, palloc.kernel.usedMap.bits, palloc.kernel.base, old(palloc.mem), p);
      PopsFirst(descs, i, p);
      GiveCore(descs, arenas, free, live.Keys, p);
      var a := arenas[PageOf(p)];
      Recounted(descs, descs[i := descs[i].(freeList := [p] + descs[i].freeList)], arenas, PageOf(p), a.freeCnt + 1,
                palloc.kernel.usedMap.bits, palloc.kernel.base);
      descs := descs[i := descs[i].(freeList := [p] + descs[i].freeList)];
      arenas := arenas[PageOf(p) := a.(freeCnt := a.freeCnt + 1)];
      free, live := free + {p}, live - {p};
      assert live.Keys == old(live).Keys - {p};
      assert Contents() == old(Contents()) - {p};
      WriteMeta();
      StillOthers(descs0, descs, arenas0, arenas, PageOf(p));
    }

    /** Takes all blocks of an unused arena off the free list and frees its page. */
    method DropSmall(page: nat, i: nat)
      requires palloc.Valid() && Core(descs, arenas, free, live.Keys) && BigEnough(descs, arenas, live)
      requires PagesOk(arenas, palloc.kernel.usedMap.bits, palloc.kernel.base)
      requires page in arenas && arenas[page].desc == Some(i) && i < |descs| && BlocksOf(descs, i, page) <= free
      requires forall q :: q in arenas && q != page ==> NotEmpty(descs, arenas[q])
      modifies this`descs, this`arenas, this`free, palloc, palloc.kernel.usedMap, palloc.user.usedMap
      ensures Valid() && Contents() == old(Contents()) && palloc.user.usedMap.bits == old(palloc.user.usedMap.bits)
      ensures Used() == Without(old(Used()), page - palloc.kernel.base, 1)
    {
      hide Core, NoneEmpty, PagesOk;
      WriteMeta();
      var list := UnlistBlocks(page, i);
      ghost var descs', gone := descs[i := descs[i].(freeList := list)], BlocksOf(descs, i, page);
      DropArena(descs, descs', arenas, free, live.Keys, page, gone, live.Keys);
      DropPages(arenas, palloc.kernel.usedMap.bits, palloc.kernel.base, page);
      OtherPagesKept(descs, arenas, free, live, palloc.kernel.usedMap.bits, palloc.kernel.base, palloc.mem, page);
      LeftCapacity(descs, descs', arenas, free - gone, live.Keys, page);
      StillOthersDropped(descs, descs', arenas, page);
      descs := descs[i := descs[i].(freeList := list)];
      arenas := arenas - {page};
      free := free - gone;
      assert PageOf(4096 * page) == page && PageOfs(4096 * page) == 0;
      palloc.FreeMultiple(4096 * page, 1);
    }

    /** The free list of size class i without the blocks of an arena. */
    method UnlistBlocks(page: nat, i: nat) returns (list: seq<nat>)
      requires Core(descs, arenas, free, live.Keys) && page in arenas && arenas[page].desc == Some(i) && i < |descs|
      requires BlocksOf(descs, i, page) <= free
      ensures Listing(list, FreeOf(arenas, free, i) - BlocksOf(descs, i, page))
    {
      hide Core, Listing, Blocks, BlockAt;
      ghost var size, n, all := descs[i].blockSize, descs[i].blocksPerArena, FreeOf(arenas, free, i);
      CoreList(descs, arenas, free, live.Keys, i);
      CoreDescs(descs, arenas, free, live.Keys);
      DescShape(descs, i);
      list := descs[i].freeList;
      NoBlocks(page, size);
      assert all - {} == all;
      for k := 0 to descs[i].blocksPerArena
        invariant Listing(list, all - Blocks(page, size, k))
      {
        NextBlock(page, size, k);
        BlockIn(page, size, n, k);
        InPage(page, size, n, BlockAt(page, size, k));
        assert all - Blocks(page, size, k) - {BlockAt(page, size, k)} == all - Blocks(page, size, k + 1);
        list := Remove(list, BlockAt(page, descs[i].blockSize, k), all - Blocks(page, size, k));
      }
    }

    /** Frees the pages of a big block. */
    method FreeBig(p: nat)
      requires Valid() && p in live && PageOf(p) in arenas && arenas[PageOf(p)].desc == None
      modifies this, palloc, palloc.kernel.usedMap, palloc.user.usedMap
      ensures Valid() && live == old(live) - {p} && old(LastInArena(p))
      ensures Contents() == old(Contents()) - {p}
      ensures palloc.user.usedMap.bits == old(palloc.user.usedMap.bits)
      ensures Used() == Without(old(Used()), PageOf(p) - palloc.kernel.base, old(arenas)[PageOf(p)].freeCnt)
    {
      hide Core, NotEmpty, PagesOk;
      assert free - {} == free;
      var page := PageOf(p);
      var a := arenas[page];
      LiveIsOk(descs, arenas, free, live.Keys, p);
      AloneInArena(descs, arenas, free, live.Keys, p);
      DropArena(descs, descs, arenas, free, live.Keys, page, {}, live.Keys - {p});
      DropPages(arenas, palloc.kernel.usedMap.bits, palloc.kernel.base, page);
      OtherPagesKept(descs, arenas, free, live, palloc.kernel.usedMap.bits, palloc.kernel.base, palloc.mem, page);
      LeftCapacity(descs, descs, arenas, free, live.Keys - {p}, page);
      StillOthersDropped(descs, descs, arenas, page);
      arenas := arenas - {page};
      live := live - {p};
      assert live.Keys == old(live).Keys - {p};
      assert PageOf(4096 * page) == page && PageOfs(4096 * page) == 0;
      palloc.FreeMultiple(4096 * page, a.freeCnt);
    }


    /** realloc's call of malloc. The new block is too small for the bytes that
        are to be copied to it exactly when adding the header to the new size
        wraps around, the old block holds more than one page does, and malloc
        succeeds. */
    method MallocFor(oldBlock: nat, newSize: U32) returns (r: nat)
      requires Valid() && oldBlock in live && newSize != 0
      modifies this, palloc, palloc.kernel.usedMap
      ensures Valid() && (r == 0 <==> Refused(newSize, old(descs), old(Used())))
      ensures r == 0 ==> live == old(live) && Used() == old(Used()) && Contents() == old(Contents())
      ensures r != 0 ==> r !in old(live) && live == old(live)[r := newSize] && Contents() - {r} == old(Contents())
      ensures oldBlock in live && Capacity(descs, arenas, oldBlock) == old(Capacity(descs, arenas, oldBlock)) > 0
      ensures r != 0 && Min(newSize, Capacity(descs, arenas, oldBlock)) > Capacity(descs, arenas, r)
              <==> Overruns(newSize, old(Capacity(descs, arenas, oldBlock)), old(descs), old(Used()))
      ensures r != 0 && newSize > 0xffff_fff4 ==> Capacity(descs, arenas, r) == 4084
    {
      hide Core, PagesOk, NoneEmpty, BigEnough, Capacity, Refused, Valid;
      InMemory(oldBlock);
      BigPagesHold(newSize);
      r := Malloc(newSize);
      if r != 0 { NullIsNoBlock(); }
      InMemory(oldBlock);
      assert |Contents()[oldBlock]| == |old(Contents())[oldBlock]|;
    }

    /** realloc. A failed call changes nothing; otherwise the new block starts
        with as many of the old block's bytes as it is to hold, and all other
        blocks keep their contents. Excluded is just what overruns the new
        block (MallocFor). */
    method Realloc(oldBlock: nat, newSize: U32) returns (r: nat)
      requires Valid() && (oldBlock == 0 || oldBlock in live)
      requires oldBlock != 0 ==> !Overruns(newSize, Capacity(descs, arenas, oldBlock), descs, Used())
      modifies this, palloc, palloc.kernel.usedMap, palloc.user.usedMap
      ensures Valid()
      ensures newSize == 0 ==> r == 0 && live == old(live) - {oldBlock} && Contents() == old(Contents()) - {oldBlock}
      ensures newSize != 0 ==> (r == 0 <==> Refused(newSize, old(descs), old(Used())))
      ensures newSize != 0 && r == 0 ==> live == old(live) && Contents() == old(Contents()) && Used() == old(Used())
      ensures r != 0 ==> r in live && r !in old(live) && live == (old(live) - {oldBlock})[r := newSize]
      ensures r != 0 ==> Contents() - {r} == old(Contents()) - {oldBlock}
      ensures r != 0 && oldBlock != 0 ==> SameFront(Contents()[r], old(Contents())[oldBlock], newSize)
    {
      hide Core, PagesOk, NoneEmpty, BigEnough, Capacity, Refused, Overruns, Valid;
      if newSize == 0 {
        Free(oldBlock);
        return 0;
      }
      NullIsNoBlock();
      if oldBlock == 0 {
        r := Malloc(newSize);
      } else {
        r := MallocFor(oldBlock, newSize);
        if r != 0 {
          NullIsNoBlock();
          assert Contents()[oldBlock] == old(Contents())[oldBlock];
          MoveTo(r, oldBlock, newSize);
        }
      }
    }

    /** Copies the old block's bytes to the new one, then frees the old one. */
    method MoveTo(r: nat, oldBlock: nat, newSize: nat)
      requires Valid() && r in live && oldBlock in live && r != oldBlock
      requires newSize <= Capacity(descs, arenas, r) || Capacity(descs, arenas, oldBlock) <= Capacity(descs, arenas, r)
      modifies this, palloc, palloc.kernel.usedMap, palloc.user.usedMap
      ensures Valid() && live == old(live) - {oldBlock}
      ensures Contents() - {r} == old(Contents()) - {r} - {oldBlock}
      ensures r in Contents() && SameFront(Contents()[r], old(Contents())[oldBlock], newSize)
    {
      hide Core, PagesOk, NoneEmpty, BigEnough, Capacity, Valid;
      InMemory(oldBlock);
      NullIsNoBlock();
      var oldSize := Capacity(descs, arenas, oldBlock);
      var minSize := if newSize < oldSize then newSize else oldSize;
      CopyBlock(r, oldBlock, minSize);
      ghost var copied := Contents();
      assert SameFront(copied[r], old(Contents())[oldBlock], newSize);
      Free(oldBlock);
      assert Contents()[r] == copied[r];
    }

    /** memcpy from one block to another. */
    method CopyBlock(dst: nat, src: nat, n: nat)
      requires Valid() && dst in live && src in live && dst != src
      requires n <= Capacity(descs, arenas, dst) && n <= Capacity(descs, arenas, src)
      modifies palloc
      ensures Valid() && |Contents()[dst]| >= n && |old(Contents())[src]| >= n
      ensures Contents()[dst][..n] == old(Contents())[src][..n]
      ensures Contents() - {dst} == old(Contents()) - {dst}
    {
      hide Core, PagesOk, NoneEmpty, BigEnough, Capacity;
      InMemory(dst);
      InMemory(src);
      ghost var mem := palloc.mem;
      palloc.mem := Overwrite(palloc.mem, dst, palloc.mem[src..src + n]);
      forall q | q in live && q != dst
        ensures Part(palloc.mem, q, Capacity(descs, arenas, q)) == Part(mem, q, Capacity(descs, arenas, q))
      {
        LiveApart(descs, arenas, free, live.Keys, palloc.kernel.usedMap.bits, palloc.kernel.base, dst, q);
        OverwriteApart(mem, dst, mem[src..src + n], Capacity(descs, arenas, dst), q, Capacity(descs, arenas, q));
      }
      OverwriteFront(mem, dst, mem[src..src + n], Capacity(descs, arenas, dst));
      PartFront(mem, src, Capacity(descs, arenas, src), n);
    }

    lemma InMemory(b: nat)
      requires Valid() && b in live
      ensures 0 < Capacity(descs, arenas, b) && b + Capacity(descs, arenas, b) <= |palloc.mem|
    {
      hide Core, Capacity;
      InArena(descs, arenas, free, live.Keys, b);
      assert PageRun(arenas[PageOf(b)], PageOf(b), palloc.kernel.usedMap.bits, palloc.kernel.base);
    }

    /** A block of whole pages. */
    method BigBlock(size: U32) returns (r: nat)
      requires Valid() && size > 1024
      modifies this, palloc, palloc.kernel.usedMap
      ensures Valid() && descs == old(descs) && ChangedIn(arenas.Keys, old(palloc.mem), palloc.mem)
      ensures r == 0 ==> palloc.mem == old(palloc.mem)
      ensures r == 0 ==> live == old(live) && Used() == old(Used()) && Contents() == old(Contents())
      ensures r != 0 ==> r !in old(live) && live == old(live)[r := size]
      ensures r != 0 ==> Contents() == old(Contents())[r := Part(palloc.mem, r, Capacity(descs, arenas, r))]
      ensures r != 0 ==> (Capacity(descs, arenas, r) >= size <==> size <= 0xffff_fff4)
      ensures r != 0 ==> Capacity(descs, arenas, r) == 4096 * BigPages(size) - 12
      ensures r != 0 ==> Taken(old(Used()), Used(), PageOf(r) - palloc.kernel.base, BigPages(size))
      ensures r == 0 <==> BigPages(size) == 0 || forall j :: 0 <= j ==> !RunAt(old(Used()), j, BigPages(size), false)
    {
      hide Core, PagesOk, NoneEmpty, Capacity, BigEnough, Taken, RunAt;
      r := TakePages(size);
      if r != 0 {
        WriteMeta();
      }
    }

    /** The same before the header is written. */
    method TakePages(size: U32) returns (r: nat)
      requires Valid() && size > 1024
      modifies this, palloc, palloc.kernel.usedMap
      ensures Valid() && descs == old(descs) && palloc.mem == old(palloc.mem)
      ensures r == 0 ==> live == old(live) && Used() == old(Used()) && Contents() == old(Contents())
      ensures r != 0 ==> r !in old(live) && live == old(live)[r := size]
      ensures r != 0 ==> Contents() == old(Contents())[r := Part(palloc.mem, r, Capacity(descs, arenas, r))]
      ensures r != 0 ==> (Capacity(descs, arenas, r) >= size <==> size <= 0xffff_fff4)
      ensures r != 0 ==> Capacity(descs, arenas, r) == 4096 * BigPages(size) - 12
      ensures r != 0 ==> Taken(old(Used()), Used(), PageOf(r) - palloc.kernel.base, BigPages(size))
      ensures r == 0 <==> BigPages(size) == 0 || forall j :: 0 <= j ==> !RunAt(old(Used()), j, BigPages(size), false)
    {
      hide Core, PagesOk, Capacity, Blocks, RunAt, SetRange, BigPages;
      var pageCnt := BigPages(size);
      BigPagesHold(size);
      ghost var bits, kept := Used(), Contents();
      var a, _ := palloc.GetMultiple(false, false, false, pageCnt);
      if a == 0 {
        return 0;
      }
      ghost var p := PageOf(a);
      var header := Arena(None, pageCnt);
      AddPages(arenas, bits, palloc.kernel.base, p, header);
      AddBig(descs, arenas, free, live.Keys, p, pageCnt);
      AddedCapacity(descs, arenas, free, live.Keys, p, header);
      arenas := arenas[PageOf(a) := header];
      r := a + 12;
      assert PageOf(r) == p;
      BigCapacity(descs, arenas, p);
      live := live[r := size];
      assert live.Keys == old(live).Keys + {r};
      InArena(descs, arenas, free, live.Keys, r);
    }
  }

  /** A run that does: with three free pages, the block of two pages that holds
      5000 bytes is to be resized to 2^32-1 bytes, and 8180 bytes are to be
      copied to a block of 4084. */
  method ReallocOverruns(palloc: PageAllocator) returns (heap: Heap, oldBlock: nat, newBlock: nat)
    requires palloc.Valid() && RunAt(palloc.kernel.usedMap.bits, 0, 3, false)
    modifies palloc, palloc.kernel.usedMap
    ensures fresh(heap) && heap.Valid() && oldBlock in heap.live && newBlock in heap.live && oldBlock != newBlock
    ensures Capacity(heap.descs, heap.arenas, newBlock) == 4084
    ensures Min(0xffff_ffff, Capacity(heap.descs, heap.arenas, oldBlock)) == 8180
  {
    hide Core, PagesOk, NoneEmpty, BigEnough, Capacity, Heap.Valid;
    assert BigPages(5000) == 2 && BigPages(0xffff_ffff) == 1;
    heap := new Heap(palloc);
    assert RunAt(heap.Used(), 0, 2, false);
    oldBlock := heap.Malloc(5000);
    ghost var bits := heap.Used();
    assert RunAt(bits, 0, 1, false) || RunAt(bits, 2, 1, false);
    newBlock := heap.MallocFor(oldBlock, 0xffff_ffff);
  }
}
