/** The block device and byte-granular I/O on an inode's extent (inode.c). */
module Inode {
  import opened Arithmetic
  import opened Bytes

  // A sector is BLOCK_SECTOR_SIZE = 512 bytes.
  type Sector = s: seq<byte> | |s| == 512 witness Zeros(512)
  type Image = seq<Sector>

  /** off_t is a signed 32-bit integer; using it for every offset and size
      below shows that none of their sums and differences overflows. */
  type OffT = I32

  class Block {
    var sectors: Image

    constructor (sectors: Image)
      ensures this.sectors == sectors
    {
      this.sectors := sectors;
    }

    method Read(sector: nat) returns (buffer: Sector)
      requires sector < |sectors|
      ensures buffer == sectors[sector]
    {
      buffer := sectors[sector];
    }

    method Write(sector: nat, buffer: Sector)
      requires sector < |sectors|
      modifies this
      ensures sectors == old(sectors)[sector := buffer]
    {
      sectors := sectors[sector := buffer];
    }
  }

  // ----- the flat view of an extent

  function Sectors(length: nat): nat {
    (length + 511) / 512
  }

  ghost predicate Fits(d: Image, start: nat, length: nat) {
    start + Sectors(length) <= |d|
  }

  /** Byte i of the extent that begins at sector start. */
  function DataAt(d: Image, start: nat, i: nat): byte {
    if start + i / 512 < |d| then d[start + i / 512][i % 512] else 0
  }

  /** Bytes from..from+n of the extent. */
  function Range(d: Image, start: nat, from: nat, n: nat): (bytes: seq<byte>)
    ensures |bytes| == n
  {
    seq<byte>(n, i requires 0 <= i => DataAt(d, start, from + i))
  }

  /** The extent as one flat array of length bytes. */
  function Contents(d: Image, start: nat, length: nat): (bytes: seq<byte>)
    ensures |bytes| == length
  {
    Range(d, start, 0, length)
  }

  lemma RangeOfContents(d: Image, start: nat, length: nat, from: nat, n: nat)
    requires from + n <= length
    ensures Range(d, start, from, n) == Contents(d, start, length)[from..from + n]
  {
  }

  /** The image after buf has been written at byte offset of the extent:
      these |buf| bytes are replaced and every other byte of the disk is kept. */
  function Splice(d: Image, start: nat, offset: nat, buf: seq<byte>): (d': Image)
    ensures |d'| == |d|
  {
    seq(|d|, s requires 0 <= s < |d| => SpliceSector(d[s], s - start, offset, buf))
  }

  /** The same for the sector with index k in the extent. */
  function SpliceSector(sector: Sector, k: int, offset: nat, buf: seq<byte>): Sector {
    seq(512, b requires 0 <= b < 512 =>
      if k >= 0 && offset <= 512 * k + b < offset + |buf| then buf[512 * k + b - offset] else sector[b])
  }

  /** Writing one more chunk, inside one sector, at the end of what has been
      written already. */
  lemma SpliceMore(d: Image, start: nat, offset: nat, buf: seq<byte>, w: nat, chunk: nat)
    requires w + chunk <= |buf| && (offset + w) % 512 + chunk <= 512
    requires start + (offset + w) / 512 < |d|
    ensures var k, b := (offset + w) / 512, (offset + w) % 512;
            var done := Splice(d, start, offset, buf[..w]);
            Splice(d, start, offset, buf[..w + chunk])
            == done[start + k := Overwrite(done[start + k], b, buf[w..w + chunk])]
  {
    var k, b := (offset + w) / 512, (offset + w) % 512;
    var done := Splice(d, start, offset, buf[..w]);
    var more := Splice(d, start, offset, buf[..w + chunk]);
    forall s | 0 <= s < |d|
      ensures more[s] == done[start + k := Overwrite(done[start + k], b, buf[w..w + chunk])][s]
    {
      SpliceMoreSector(d[s], s - start, offset, buf, w, chunk);
    }
  }

  lemma SpliceMoreSector(sector: Sector, k: int, offset: nat, buf: seq<byte>, w: nat, chunk: nat)
    requires w + chunk <= |buf| && (offset + w) % 512 + chunk <= 512
    ensures var done := SpliceSector(sector, k, offset, buf[..w]);
            SpliceSector(sector, k, offset, buf[..w + chunk])
            == if k == (offset + w) / 512 then Overwrite(done, (offset + w) % 512, buf[w..w + chunk]) else done
  {
  }

  lemma SpliceNothing(d: Image, start: nat, offset: nat)
    ensures Splice(d, start, offset, []) == d
  {
    forall s | 0 <= s < |d|
      ensures Splice(d, start, offset, [])[s] == d[s]
    {
      assert SpliceSector(d[s], s - start, offset, []) == d[s];
    }
  }

  /** Sectors outside the part of the extent that holds the written bytes keep
      all their bytes. */
  lemma SpliceOutside(d: Image, start: nat, offset: nat, buf: seq<byte>, length: nat, s: nat)
    requires offset + |buf| <= length && s < |d| && !(start <= s < start + Sectors(length))
    ensures Splice(d, start, offset, buf)[s] == d[s]
  {
    assert SpliceSector(d[s], s - start, offset, buf) == d[s];
  }

  /** On the flat array a splice is an update of exactly the written range. */
  lemma SpliceIsUpdate(d: Image, start: nat, offset: nat, buf: seq<byte>, length: nat)
    requires Fits(d, start, length) && offset + |buf| <= length
    ensures Contents(Splice(d, start, offset, buf), start, length)
            == Overwrite(Contents(d, start, length), offset, buf)
  {
    var flat := Contents(d, start, length);
    forall i | 0 <= i < length
      ensures DataAt(Splice(d, start, offset, buf), start, i) == Overwrite(flat, offset, buf)[i]
    {
      assert 512 * (i / 512) + i % 512 == i;
    }
  }

  // ----- in-memory inodes

  /** How many bytes an access of the given size at offset can touch. */
  function Clip(size: int, offset: nat, length: nat): nat {
    if size <= 0 || offset >= length then 0
    else if size < length - offset then size else length - offset
  }

  /** It is the most bytes, no more than asked for, that lie in the file. */
  lemma ClipIsMost(size: int, offset: nat, length: nat, n: nat)
    ensures Clip(size, offset, length) > 0 ==>
              Clip(size, offset, length) <= size && offset + Clip(size, offset, length) <= length
    ensures n <= size && offset + n <= length ==> n <= Clip(size, offset, length)
  {
  }

  /** A file has just as many sectors as its bytes need. */
  lemma SectorsNeeded(length: nat)
    ensures 512 * Sectors(length) - 512 < length <= 512 * Sectors(length)
  {
  }

  class Inode {
    const sector: nat
    var openCnt: int
    var removed: bool
    var denyWriteCnt: int
    // Copy of the on-disk inode, read when the inode is opened and never changed.
    const start: nat
    const length: OffT

    constructor (sector: nat, start: nat, length: OffT)
      ensures this.sector == sector && this.start == start && this.length == length
      ensures openCnt == 1 && denyWriteCnt == 0 && !removed
    {
      this.sector, this.start, this.length := sector, start, length;
      openCnt, denyWriteCnt, removed := 1, 0, false;
    }

    /** The sector that holds byte pos, if there is one. */
    function ByteToSector(pos: OffT): nat
      requires pos >= 0
    {
      if pos < length then start + pos / 512 else 0xFFFF_FFFF
    }

    /** Reads up to size bytes from offset on: exactly those that lie in the
        file. */
    method ReadAt(dev: Block, size: OffT, offset: OffT) returns (bytesRead: OffT, buffer: seq<byte>)
      requires offset >= 0 && length >= 0 && Fits(dev.sectors, start, length)
      ensures bytesRead == |buffer| == Clip(size, offset, length)
      ensures buffer == Range(dev.sectors, start, offset, bytesRead)
    {
      var left, ofs := size, offset;
      bytesRead, buffer := 0, [];
      while left > 0
        invariant 0 <= bytesRead <= Clip(size, offset, length)
        invariant left == size - bytesRead && ofs == offset + bytesRead
        invariant buffer == Range(dev.sectors, start, offset, bytesRead)
        decreases left
      {
        var sectorIdx := ByteToSector(ofs);
        var sectorOfs := ofs % 512;
        var inodeLeft: OffT := length - ofs;
        var sectorLeft := 512 - sectorOfs;
        var minLeft := if inodeLeft < sectorLeft then inodeLeft else sectorLeft;
        var chunkSize := if left < minLeft then left else minLeft;
        if chunkSize <= 0 {
          break;
        }
        var bounce := dev.Read(sectorIdx);
        if sectorOfs == 0 && chunkSize == 512 {
          buffer := buffer + bounce;
        } else {
          buffer := buffer + bounce[sectorOfs..sectorOfs + chunkSize];
        }
        RangeMore(dev.sectors, start, offset, bytesRead, chunkSize);
        left, ofs, bytesRead := left - chunkSize, ofs + chunkSize, bytesRead + chunkSize;
      }
    }

    /** Writes up to size bytes of buffer at offset: exactly those that lie in
        the file, or none while writes are denied. */
    method WriteAt(dev: Block, buffer: seq<byte>, size: OffT, offset: OffT) returns (bytesWritten: OffT)
      requires offset >= 0 && length >= 0 && Fits(dev.sectors, start, length)
      requires size <= |buffer|
      modifies dev
      ensures bytesWritten == if denyWriteCnt != 0 then 0 else Clip(size, offset, length)
      ensures dev.sectors == Splice(old(dev.sectors), start, offset, buffer[..bytesWritten])
    {
      bytesWritten := 0;
      SpliceNothing(dev.sectors, start, offset);
      if denyWriteCnt != 0 {
        return;
      }
      var left, ofs := size, offset;
      while left > 0
        invariant 0 <= bytesWritten <= Clip(size, offset, length)
        invariant left == size - bytesWritten && ofs == offset + bytesWritten
        invariant dev.sectors == Splice(old(dev.sectors), start, offset, buffer[..bytesWritten])
        decreases left
      {
        var sectorIdx := ByteToSector(ofs);
        var sectorOfs := ofs % 512;
        var inodeLeft: OffT := length - ofs;
        var sectorLeft := 512 - sectorOfs;
        var minLeft := if inodeLeft < sectorLeft then inodeLeft else sectorLeft;
        var chunkSize := if left < minLeft then left else minLeft;
        if chunkSize <= 0 {
          break;
        }
        SpliceMore(old(dev.sectors), start, offset, buffer, bytesWritten, chunkSize);
        if sectorOfs == 0 && chunkSize == 512 {
          assert Overwrite(dev.sectors[sectorIdx], 0, buffer[bytesWritten..bytesWritten + 512])
              == buffer[bytesWritten..bytesWritten + 512];
          dev.Write(sectorIdx, buffer[bytesWritten..bytesWritten + 512]);
        } else {
          // Reached only with sectorOfs > 0 or chunkSize < sectorLeft, so the
          // rest of the sector has to be read first.
          var bounce := dev.Read(sectorIdx);
          bounce := Overwrite(bounce, sectorOfs, buffer[bytesWritten..bytesWritten + chunkSize]);
          dev.Write(sectorIdx, bounce);
        }
        left, ofs, bytesWritten := left - chunkSize, ofs + chunkSize, bytesWritten + chunkSize;
      }
    }

    method DenyWrite()
      requires denyWriteCnt < openCnt
      modifies this`denyWriteCnt
      ensures denyWriteCnt == old(denyWriteCnt) + 1
    {
      denyWriteCnt := denyWriteCnt + 1;
    }

    method AllowWrite()
      requires 0 < denyWriteCnt <= openCnt
      modifies this`denyWriteCnt
      ensures denyWriteCnt == old(denyWriteCnt) - 1
    {
      denyWriteCnt := denyWriteCnt - 1;
    }
  }

  /** What ReadAt and WriteAt ask of the offset is what keeps the first access
      inside a sector of the file: with C's truncating operators a negative
      offset is a place before the sector or in a sector before the extent. */
  lemma FirstAccess(length: OffT, offset: OffT)
    requires offset < length
    ensures offset >= 0 <==> TruncMod(offset, 512) >= 0 && 0 <= TruncDiv(offset, 512) < Sectors(length)
  {
    if offset < 0 {
      assert Abs(offset) == 512 * (Abs(offset) / 512) + Abs(offset) % 512;
    }
  }

  /** The next chunk, inside one sector, continues the range. */
  lemma RangeMore(d: Image, start: nat, from: nat, n: nat, chunk: nat)
    requires (from + n) % 512 + chunk <= 512 && start + (from + n) / 512 < |d|
    ensures var k, b := (from + n) / 512, (from + n) % 512;
            Range(d, start, from, n + chunk) == Range(d, start, from, n) + d[start + k][b..b + chunk]
  {
    var k, b := (from + n) / 512, (from + n) % 512;
    var tail := d[start + k][b..b + chunk];
    var all := Range(d, start, from, n + chunk);
    forall i | 0 <= i < n + chunk
      ensures all[i] == (Range(d, start, from, n) + tail)[i]
    {
      assert all[i] == DataAt(d, start, from + i);
      if i >= n {
        assert (from + i) / 512 == k && (from + i) % 512 == b + (i - n);
        assert DataAt(d, start, from + i) == d[start + k][b + (i - n)];
        assert tail[i - n] == d[start + k][b + (i - n)];
      } else {
        assert Range(d, start, from, n)[i] == DataAt(d, start, from + i);
      }
    }
  }
}
