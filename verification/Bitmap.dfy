/** The kernel's bitmap, as far as the page allocator and the free map use it,
    and the format in which it is stored in a file. */
module Bitmap {
  import Arithmetic
  import opened Bytes

  datatype Option<+T> = None | Some(value: T)

  /** The cnt bits from i on exist and all have the given value. */
  predicate RunAt(bits: seq<bool>, i: nat, cnt: nat, value: bool) {
    i + cnt <= |bits| && forall k :: i <= k < i + cnt ==> bits[k] == value
  }

  function SetRange(bits: seq<bool>, start: nat, cnt: nat, value: bool): (r: seq<bool>)
    requires start + cnt <= |bits|
    ensures |r| == |bits|
  {
    seq(|bits|, k requires 0 <= k < |bits| => if start <= k < start + cnt then value else bits[k])
  }

  class Bitmap {
    var bits: seq<bool>

    constructor (bitCnt: nat)
      ensures bits == seq(bitCnt, _ => false)
    {
      bits := seq(bitCnt, _ => false);
    }

    /** Sets the cnt bits from start on, one after the other. */
    method SetMultiple(start: nat, cnt: nat, value: bool)
      requires start + cnt <= |bits|
      modifies this
      ensures bits == SetRange(old(bits), start, cnt, value)
    {
      for i := 0 to cnt
        invariant bits == SetRange(old(bits), start, i, value)
      {
        bits := bits[start + i := value];
      }
    }

    method Contains(start: nat, cnt: nat, value: bool) returns (found: bool)
      requires start + cnt <= |bits|
      ensures found <==> !RunAt(bits, start, cnt, !value)
    {
      for i := 0 to cnt
        invariant forall k :: start <= k < start + i ==> bits[k] == !value
      {
        if bits[start + i] == value {
          return true;
        }
      }
      return false;
    }

    /** The first run of cnt equal bits at or after start, if there is one. */
    method Scan(start: nat, cnt: nat, value: bool) returns (r: Option<nat>)
      requires start <= |bits|
      ensures r.Some? ==> start <= r.value && RunAt(bits, r.value, cnt, value)
      ensures forall j :: start <= j && (r.Some? ==> j < r.value) ==> !RunAt(bits, j, cnt, value)
    {
      if cnt <= |bits| {
        var last := |bits| - cnt;
        var i := start;
        while i <= last
          invariant start <= i
          invariant forall j :: start <= j < i ==> !RunAt(bits, j, cnt, value)
        {
          var c := Contains(i, cnt, !value);
          if !c {
            return Some(i);
          }
          i := i + 1;
        }
      }
      return None;
    }

    /** Finds the first run and flips it; changes nothing when there is none. */
    method ScanAndFlip(start: nat, cnt: nat, value: bool) returns (r: Option<nat>)
      requires start <= |bits|
      modifies this
      ensures forall j :: start <= j && (r.Some? ==> j < r.value) ==> !RunAt(old(bits), j, cnt, value)
      ensures r.Some? ==> start <= r.value && RunAt(old(bits), r.value, cnt, value)
      ensures r.Some? ==> bits == SetRange(old(bits), r.value, cnt, !value)
      ensures r.None? ==> bits == old(bits)
    {
      r := Scan(start, cnt, value);
      if r.Some? {
        SetMultiple(r.value, cnt, !value);
      }
    }
  }

  // ----- file format: 32-bit little-endian words, least significant bit first

  function FileSize(bitCnt: nat): nat {
    4 * ((bitCnt + 31) / 32)
  }

  /** Whole words of 32 bits, and no more than needed. */
  lemma WholeWords(bitCnt: nat)
    ensures FileSize(bitCnt) % 4 == 0 && 8 * FileSize(bitCnt) - 32 < bitCnt <= 8 * FileSize(bitCnt)
  {
  }

  function BitOr0(bits: seq<bool>, i: nat): nat {
    if i < |bits| && bits[i] then 1 else 0
  }

  /** The n bits from i on as a number, least significant bit first; bits past
      the end count as 0. */
  function BitsValue(bits: seq<bool>, i: nat, n: nat): (v: nat)
    ensures v < Arithmetic.Shl(1, n)
    decreases n
  {
    if n == 0 then 0 else BitOr0(bits, i) + 2 * BitsValue(bits, i + 1, n - 1)
  }

  function PackByte(bits: seq<bool>, j: nat): byte {
    Arithmetic.ShlEight(1);
    BitsValue(bits, 8 * j, 8)
  }

  function Pack(bits: seq<bool>): (bytes: seq<byte>)
    ensures |bytes| == FileSize(|bits|)
  {
    seq(FileSize(|bits|), j requires 0 <= j => PackByte(bits, j))
  }

  /** Bit k of v. */
  predicate TestBit(v: nat, k: nat) {
    if k == 0 then v % 2 == 1 else TestBit(v / 2, k - 1)
  }

  /** Reads bitCnt bits back; trailing bits of the last word are ignored. */
  function Unpack(bytes: seq<byte>, bitCnt: nat): (bits: seq<bool>)
    requires |bytes| == FileSize(bitCnt)
    ensures |bits| == bitCnt
  {
    seq(bitCnt, i requires 0 <= i < bitCnt => TestBit(bytes[i / 8], i % 8))
  }

  lemma {:induction false} TestBitOfValue(bits: seq<bool>, i: nat, n: nat, k: nat)
    requires k < n
    ensures TestBit(BitsValue(bits, i, n), k) <==> BitOr0(bits, i + k) == 1
    decreases n
  {
    if k == 0 {
    } else {
      TestBitOfValue(bits, i + 1, n - 1, k - 1);
      assert BitsValue(bits, i, n) / 2 == BitsValue(bits, i + 1, n - 1);
    }
  }

  /** What is written to the file is what is read back from it. */
  lemma UnpackPack(bits: seq<bool>)
    ensures Unpack(Pack(bits), |bits|) == bits
  {
    forall i | 0 <= i < |bits|
      ensures TestBit(Pack(bits)[i / 8], i % 8) == bits[i]
    {
      PackedBit(bits, i);
    }
  }

  lemma PackedBit(bits: seq<bool>, i: nat)
    requires i < |bits|
    ensures TestBit(PackByte(bits, i / 8), i % 8) == bits[i]
  {
    var j, k := i / 8, i % 8;
    assert i == 8 * j + k;
    TestBitOfValue(bits, 8 * j, 8, k);
  }
}
