/** Bytes, and the little-endian 32-bit words stored in them. */
module Bytes {

  type byte = b: int | 0 <= b < 256

  function Zeros(n: nat): (s: seq<byte>)
    ensures |s| == n
  {
    seq(n, _ => 0)
  }

  /** The four bytes of a 32-bit word, least significant first. */
  function Word(x: nat): (s: seq<byte>)
    requires x < 0x1_0000_0000
    ensures |s| == 4
  {
    [x % 0x100, x / 0x100 % 0x100, x / 0x100 / 0x100 % 0x100, x / 0x100 / 0x100 / 0x100]
  }

  /** The word whose bytes start at s[i]; missing bytes count as 0. */
  function WordAt(s: seq<byte>, i: nat): (x: nat)
    ensures x < 0x1_0000_0000
  {
    if i + 4 <= |s| then
      s[i] as nat + 0x100 * (s[i + 1] as nat + 0x100 * (s[i + 2] as nat + 0x100 * s[i + 3] as nat))
    else 0
  }

  lemma WordRoundTrip(s: seq<byte>, i: nat, x: nat)
    requires x < 0x1_0000_0000 && i + 4 <= |s| && s[i..i + 4] == Word(x)
    ensures WordAt(s, i) == x
  {
    var w := s[i..i + 4];
    assert s[i] == w[0] && s[i + 1] == w[1] && s[i + 2] == w[2] && s[i + 3] == w[3];
  }

  /** The order of the bytes. */
  lemma LittleEndian()
    ensures Word(0x0403_0201) == [1, 2, 3, 4] && WordAt([1, 2, 3, 4], 0) == 0x0403_0201
  {
  }

  /** s with the bytes from i on replaced by t. */
  function Overwrite(s: seq<byte>, i: nat, t: seq<byte>): (r: seq<byte>)
    requires i + |t| <= |s|
    ensures |r| == |s|
  {
    s[..i] + t + s[i + |t|..]
  }

  /** The n bytes from i on, or nothing unless s has them all. */
  function Part(s: seq<byte>, i: nat, n: int): seq<byte> {
    if 0 < n && i + n <= |s| then s[i..i + n] else []
  }
}
