/** Archive headers in ustar format (ustar.c; POSIX.1-2001, pax utility, "ustar
    Interchange Format"). */
module Ustar {
  import opened Arithmetic
  import opened Bytes
  import opened Bitmap
  import opened Directory
  import opened Stdio

  // ----- names

  /** A file name is a C string; it starts with the given character. */
  predicate StartsWith(name: Name, prefix: seq<byte>) {
    |prefix| <= |name| && name[..|prefix|] == prefix
  }

  /** "/", "./" or "../" in front. */
  predicate Antisocial(name: Name) {
    StartsWith(name, [47]) || StartsWith(name, [46, 47]) || StartsWith(name, [46, 46, 47])
  }

  /** strchr (name, '/') + 1 */
  function AfterSlash(name: Name): (r: Name)
    ensures |r| <= |name| && (47 in name ==> |r| < |name|)
  {
    if name == [] then [] else if name[0] == 47 then name[1..] else AfterSlash(name[1..])
  }

  function Social(name: Name): Name
    decreases |name|
  {
    if Antisocial(name) then
      HasSlash(name);
      Social(AfterSlash(name))
    else name
  }

  lemma HasSlash(name: Name)
    requires Antisocial(name)
    ensures 47 in name
  {
    if StartsWith(name, [47]) {
      assert name[0] == name[..1][0] == 47;
    } else if StartsWith(name, [46, 47]) {
      assert name[1] == name[..2][1] == 47;
    } else {
      assert name[2] == name[..3][2] == 47;
    }
  }

  /** What strip_antisocial_prefixes returns. */
  function Stripped(name: Name): Name {
    var s := Social(name);
    if s == [] || s == [46, 46] then [46] else s
  }

  lemma {:induction false} SocialIs(name: Name)
    ensures !Antisocial(Social(name)) && |Social(name)| <= |name|
    decreases |name|
  {
    if Antisocial(name) {
      HasSlash(name);
      SocialIs(AfterSlash(name));
    }
  }

  /** Stripping leaves no dangerous prefix, and a second time changes nothing. */
  lemma StripIdempotent(name: Name)
    ensures var s := Stripped(name);
            !Antisocial(s) && s != [] && s != [46, 46] && Stripped(s) == s
  {
    SocialIs(name);
    var dot: Name := [46];
    assert dot[..1][0] == 46 && |dot| == 1;
    assert !Antisocial(dot);
  }

  /** A sequence of "/", "./" and "../". */
  ghost predicate Pieces(s: seq<byte>) {
    || s == []
    || (s[0] == 47 && Pieces(s[1..]))
    || (|s| >= 2 && s[0] == 46 && s[1] == 47 && Pieces(s[2..]))
    || (|s| >= 3 && s[0] == 46 && s[1] == 46 && s[2] == 47 && Pieces(s[3..]))
  }

  /** Only such prefixes are stripped, and no more than needed: what is left is
      the name from n on, or "." if that would be nothing or "..". */
  lemma {:induction false} StripsOnly(name: Name) returns (n: nat)
    ensures n <= |name| && Pieces(name[..n]) && !Antisocial(name[n..]) && Social(name) == name[n..]
    ensures Stripped(name) == if name[n..] == [] || name[n..] == [46, 46] then [46] else name[n..]
    ensures !Antisocial(name) ==> n == 0
    decreases |name|
  {
    if !Antisocial(name) {
      assert name[0..] == name;
      return 0;
    }
    HasSlash(name);
    var k := FirstSlash(name);
    var m := StripsOnly(name[k..]);
    n := k + m;
    assert name[k..][m..] == name[n..];
    assert name[..n][k..] == name[k..][..m];
  }

  /** Where an antisocial prefix ends. */
  lemma FirstSlash(name: Name) returns (k: nat)
    requires Antisocial(name)
    ensures 1 <= k <= 3 && k <= |name| && AfterSlash(name) == name[k..] && name[k - 1] == 47
    ensures forall i :: 0 <= i < k - 1 ==> name[i] == 46
  {
    if StartsWith(name, [47]) {
      assert name[0] == name[..1][0];
      return 1;
    }
    assert name[0] == 46 by {
      assert StartsWith(name, [46, 47]) ==> name[..2][0] == 46;
      assert StartsWith(name, [46, 46, 47]) ==> name[..3][0] == 46;
    }
    if StartsWith(name, [46, 47]) {
      assert name[1] == name[..2][1];
      assert name[1..][1..] == name[2..];
      return 2;
    }
    assert name[1] == name[..3][1] && name[2] == name[..3][2];
    assert AfterSlash(name) == AfterSlash(name[1..]) == AfterSlash(name[1..][1..]);
    assert name[1..][0] == name[1] != 47 && name[1..][1..][0] == name[2];
    assert name[1..][1..][1..] == name[3..];
    return 3;
  }

  method StripPrefixes(fileName: Name) returns (r: Name)
    ensures r == Stripped(fileName)
  {
    r := fileName;
    while Antisocial(r)
      invariant Social(r) == Social(fileName)
      decreases |r|
    {
      HasSlash(r);
      r := FindSlash(r);
    }
    if r == [] || r == [46, 46] {
      r := [46];
    }
  }

  /** strchr */
  method FindSlash(name: Name) returns (r: Name)
    requires 47 in name
    ensures r == AfterSlash(name)
  {
    r := name;
    while r[0] != 47
      invariant 47 in r && AfterSlash(r) == AfterSlash(name)
      decreases |r|
    {
      r := r[1..];
    }
    r := r[1..];
  }

  // ----- octal numbers

  /** n octal digits of v. */
  function OctalText(v: nat, n: nat): (text: seq<byte>)
    ensures |text| == n
  {
    if n == 0 then [] else OctalText(v / 8, n - 1) + [48 + v % 8]
  }

  lemma {:induction false} OctalZeros(n: nat)
    ensures OctalText(0, n) == Repeat(48, n)
  {
    if n > 0 {
      OctalZeros(n - 1);
    }
  }

  /** The digits that format_integer collects are the octal text, reversed and
      without its leading zeros. */
  lemma {:induction false} OctalDigits(v: nat, n: nat, cnt: nat)
    requires v < Shl(1, 3 * n)
    ensures var r := RevDigits(v, Octal(), 0, cnt); |r| <= n && Repeat(48, n - |r|) + Reversed(r) == OctalText(v, n)
    decreases n
  {
    var r := RevDigits(v, Octal(), 0, cnt);
    if v == 0 {
      NoDigits(Octal(), 0, cnt);
      OctalZeros(n);
      assert Reversed([]) == [];
    } else {
      assert n > 0;
      ShlEighth(1, n);
      EighthOf(v, 8, Shl(1, 3 * (n - 1)));
      RevStep(v, Octal(), 0, cnt);
      OctalDigits(v / 8, n - 1, cnt + 1);
      var rest := RevDigits(v / 8, Octal(), 0, cnt + 1);
      assert r == [48 + v % 8] + rest;
      assert Reversed(r) == Reversed(rest) + [48 + v % 8];
      Assoc(Repeat(48, n - |r|), Reversed(rest), [48 + v % 8]);
    }
  }

  lemma ShlEighth(x: nat, n: nat)
    requires n > 0
    ensures Shl(x, 3 * n) == 8 * Shl(x, 3 * (n - 1))
  {
    assert Shl(x, 3 * n) == 2 * Shl(x, 3 * n - 1) == 4 * Shl(x, 3 * n - 2) == 8 * Shl(x, 3 * n - 3);
  }

  /** The conversion "%0<n>o". */
  function ZeroPadded(n: nat): Conversion {
    Conversion(false, false, false, false, true, false, n, -1, Int)
  }

  lemma OctalFormatted(v: nat, n: nat)
    requires v < Shl(1, 3 * n) && n > 0
    ensures Formatted(v, false, false, Octal(), ZeroPadded(n)) == OctalText(v, n)
  {
    var c, r := ZeroPadded(n), RevDigits(v, Octal(), 0, 0);
    OctalDigits(v, n, 0);
    var d := Digits(v, Octal(), c);
    if v == 0 {
      NoDigits(Octal(), 0, 0);
      assert d == [48] && Reversed(d) == [48];
      OctalZeros(n);
      assert Repeat(48, n - 1) + [48] == Repeat(48, n);
      assert Front(c, 0, 0, n - 1) == Repeat(48, n - 1);
    } else {
      RevStep(v, Octal(), 0, 0);
      assert d == r;
      assert Front(c, 0, 0, n - |r|) == Repeat(48, n - |r|);
    }
  }

  // "%07o" and "%011o"
  const FORMAT_7: seq<byte> := [37, 48, 55, 111]
  const FORMAT_11: seq<byte> := [37, 48, 49, 49, 111]

  lemma SevenDigits(v: U32)
    requires v < 0x20_0000
    ensures Printed(FORMAT_7, 0, [Num(v)]) == OctalText(v, 7)
  {
    var f, args := FORMAT_7, [Num(v)];
    assert Flags(f, 1, PLAIN) == Flags(f, 2, PLAIN.(zero := true)) == (PLAIN.(zero := true), 2);
    assert Number(f, 2, 0) == Number(f, 3, 7) == (7, 3);
    assert Parsed(f, 1, args) == (ZeroPadded(7), 3, args);
    PrintsOctal(f, 3, 7, v);
  }

  lemma ElevenDigits(v: U32)
    ensures Printed(FORMAT_11, 0, [Num(v)]) == OctalText(v, 11)
  {
    var f, args := FORMAT_11, [Num(v)];
    assert Flags(f, 1, PLAIN) == Flags(f, 2, PLAIN.(zero := true)) == (PLAIN.(zero := true), 2);
    assert Number(f, 2, 0) == Number(f, 3, 1) == Number(f, 4, 11) == (11, 4);
    assert Parsed(f, 1, args) == (ZeroPadded(11), 4, args);
    PrintsOctal(f, 4, 11, v);
  }

  lemma PrintsOctal(f: seq<byte>, j: nat, n: nat, v: U32)
    requires |f| == j + 1 && j > 0 && f[0] == 37 && At(f, 1) != 37 && f[j] == 111
    requires Parsed(f, 1, [Num(v)]) == (ZeroPadded(n), j, [Num(v)])
    requires n > 0 && ((n == 7 && v < 0x20_0000) || n == 11)
    ensures Printed(f, 0, [Num(v)]) == OctalText(v, n)
  {
    hide Parsed, OctalText, Formatted;
    OctalBounds();
    OctalFormatted(v, n);
    assert UnsignedArg(Int, v) == v;
    assert OctalText(v, n) + [] == OctalText(v, n);
  }

  lemma OctalBounds()
    ensures Shl(1, 21) == 0x20_0000 && Shl(1, 33) >= 0x1_0000_0000
  {
    ShlValues(1);
    ShlShl(1, 16, 4);
    ShlFour(Shl(1, 16));
    ShlShl(1, 20, 1);
    ShlTwo(Shl(1, 20));
    ShlShl(1, 16, 16);
    ShlValues(Shl(1, 16));
    ShlShl(1, 32, 1);
    ShlTwo(Shl(1, 32));
  }

  /** parse_octal_field on the bytes from i to end, with value v so far: digits
      up to a space or null byte, not at the start of the field. */
  function OctalField(s: seq<byte>, i: nat, end: nat, start: nat, v: U32): Option<U32>
    requires end <= |s|
    decreases end - i
  {
    if i >= end then None
    else if 48 <= s[i] <= 55 then
      if v > 0x1fff_ffff then None else OctalField(s, i + 1, end, start, s[i] - 48 + v * 8)
    else if s[i] == 32 || s[i] == 0 then (if i > start then Some(v) else None)
    else None
  }

  method ParseOctalField(s: seq<byte>, start: nat, size: nat) returns (r: Option<U32>)
    requires start + size <= |s|
    ensures r == OctalField(s, start, start + size, start, 0)
  {
    var value: U32 := 0;
    for ofs := 0 to size
      invariant OctalField(s, start + ofs, start + size, start, value) == OctalField(s, start, start + size, start, 0)
    {
      var c := s[start + ofs];
      if 48 <= c <= 55 {
        if value > 0x1fff_ffff {
          return None;
        }
        value := c - 48 + value * 8;
      } else if c == 32 || c == 0 {
        return if ofs > 0 then Some(value) else None;
      } else {
        return None;
      }
    }
    return None;
  }

  /** Reading octal digits adds them to the value read so far. */
  lemma {:induction false} ReadsText(s: seq<byte>, i: nat, end: nat, start: nat, acc: nat, v: nat, n: nat)
    requires i + n <= end <= |s| && s[i..i + n] == OctalText(v, n)
    requires v < Shl(1, 3 * n) && Shl(acc, 3 * n) + v < 0x1_0000_0000
    ensures acc < 0x1_0000_0000
    ensures OctalField(s, i, end, start, acc) == OctalField(s, i + n, end, start, Shl(acc, 3 * n) + v)
    decreases n
  {
    ShlAtLeast(acc, 3 * n);
    if n > 0 {
      ShlEighth(1, n);
      ShlEighth(acc, n);
      var text := s[i..i + n];
      assert s[i..i + (n - 1)] == text[..n - 1] == OctalText(v / 8, n - 1);
      assert s[i + n - 1] == text[n - 1] == 48 + v % 8;
      ReadsText(s, i, end, start, acc, v / 8, n - 1);
    }
  }

  lemma {:induction false} ShlAtLeast(x: nat, n: nat)
    ensures Shl(x, n) >= x && Shl(0, n) == 0
  {
    if n > 0 {
      ShlAtLeast(x, n - 1);
    }
  }

  /** A field of n octal digits and a null byte reads as the number. */
  lemma FieldReads(s: seq<byte>, start: nat, v: U32, n: nat)
    requires start + n + 1 <= |s| && s[start..start + n] == OctalText(v, n) && s[start + n] == 0 && n > 0
             && v < Shl(1, 3 * n)
    ensures OctalField(s, start, start + n + 1, start, 0) == Some(v)
  {
    ShlAtLeast(0, 3 * n);
    ReadsText(s, start, start + n + 1, start, 0, v, n);
  }

  // ----- headers

  const REGULAR: byte := 48
  const DIRECTORY: byte := 53

  // A header is 512 bytes: the name at 0, the mode at 100, the user and group
  // ids at 108 and 116, the size at 124, the time at 136, the checksum at 148,
  // the type at 156, the link name at 157, the magic number at 257, the version
  // at 263, the user and group names at 265 and 297, the device numbers at 329,
  // a prefix at 345, padding from 500 on.

  /** calculate_chksum: the sum of the bytes from i on, with spaces for the
      checksum field. */
  function ChksumFrom(h: seq<byte>, i: nat): nat
    decreases |h| - i
  {
    if i >= |h| then 0 else (if 148 <= i < 156 then 32 else h[i]) + ChksumFrom(h, i + 1)
  }

  method CalculateChksum(h: seq<byte>) returns (chksum: U32)
    requires |h| == 512
    ensures chksum == ChksumFrom(h, 0)
  {
    ChksumBound(h, 0);
    chksum := 0;
    for i := 0 to |h|
      invariant chksum + ChksumFrom(h, i) == ChksumFrom(h, 0) <= 255 * 512
    {
      ChksumBound(h, i);
      chksum := chksum + if 148 <= i < 156 then 32 else h[i];
    }
  }

  lemma {:induction false} ChksumBound(h: seq<byte>, i: nat)
    requires i <= |h|
    ensures ChksumFrom(h, i) <= 255 * (|h| - i)
    decreases |h| - i
  {
    if i < |h| {
      ChksumBound(h, i + 1);
    }
  }

  /** The checksum does not depend on its own field. */
  lemma {:induction false} ChksumIgnoresItself(h: seq<byte>, h': seq<byte>, i: nat)
    requires |h'| == |h| && forall k :: 0 <= k < |h| && !(148 <= k < 156) ==> h'[k] == h[k]
    ensures ChksumFrom(h', i) == ChksumFrom(h, i)
    decreases |h| - i
  {
    if i < |h| {
      ChksumIgnoresItself(h, h', i + 1);
    }
  }

  /** Byte k of text followed by null bytes. */
  function TextByte(text: seq<byte>, k: nat): byte { if k < |text| then text[k] else 0 }

  const ROOT: seq<byte> := [114, 111, 111, 116]
  const USTAR: seq<byte> := [117, 115, 116, 97, 114]

  /** Byte i of a header with the given checksum field. */
  function HeaderByte(name: Name, kind: byte, size: U32, chksum: seq<byte>, i: nat): byte {
    if i < 100 then TextByte(name, i)
    else if i < 108 then TextByte(OctalText(if kind == REGULAR then 420 else 493, 7), i - 100)
    else if i < 116 then TextByte(Repeat(48, 7), i - 108)
    else if i < 124 then TextByte(Repeat(48, 7), i - 116)
    else if i < 136 then TextByte(OctalText(size, 11), i - 124)
    else if i < 148 then TextByte(OctalText(1136102400, 11), i - 136)
    else if i < 156 then TextByte(chksum, i - 148)
    else if i == 156 then kind
    else if 257 <= i < 263 then TextByte(USTAR, i - 257)
    else if 263 <= i < 265 then 48
    else if 265 <= i < 297 then TextByte(ROOT, i - 265)
    else if 297 <= i < 329 then TextByte(ROOT, i - 297)
    else 0
  }

  function HeaderWith(name: Name, kind: byte, size: U32, chksum: seq<byte>): (h: seq<byte>)
    ensures |h| == 512
  {
    seq<byte>(512, i requires 0 <= i => HeaderByte(name, kind, size, chksum, i))
  }

  /** The header that ustar_make_header composes. */
  function Made(name: Name, kind: byte, size: U32): (h: seq<byte>)
    ensures |h| == 512
  {
    HeaderWith(name, kind, size, OctalText(ChksumFrom(HeaderWith(name, kind, size, []), 0), 7))
  }

  /** strlcpy, of text that fits */
  method Strlcpy(header: array<byte>, ofs: nat, text: seq<byte>)
    requires ofs + |text| < header.Length
    modifies header
    ensures forall k :: 0 <= k < header.Length ==>
              header[k] == if ofs <= k <= ofs + |text| then TextByte(text, k - ofs) else old(header[k])
  {
    for i := 0 to |text|
      invariant forall k :: 0 <= k < header.Length ==>
                  header[k] == if ofs <= k < ofs + i then text[k - ofs] else old(header[k])
    {
      header[ofs + i] := text[i];
    }
    header[ofs + |text|] := 0;
  }

  /** snprintf of an octal number into a field that it fills. */
  method PutOctal(header: array<byte>, ofs: nat, v: U32, n: nat)
    requires ofs + n < header.Length && ((n == 7 && v < 0x20_0000) || n == 11)
    modifies header
    ensures forall k :: 0 <= k < header.Length ==>
              header[k] == if ofs <= k <= ofs + n then TextByte(OctalText(v, n), k - ofs) else old(header[k])
  {
    ghost var was, text := header[..], OctalText(v, n);
    if n == 7 {
      SevenDigits(v);
      var length := Vsnprintf(header, ofs, 8, FORMAT_7, [Num(v)]);
    } else {
      ElevenDigits(v);
      var length := Vsnprintf(header, ofs, 12, FORMAT_11, [Num(v)]);
    }
    assert header[..] == Overwrite(was, ofs, text + [0]);
    OverwriteAt(was, ofs, text);
  }

  lemma OverwriteAt(s: seq<byte>, i: nat, text: seq<byte>)
    requires i + |text| < |s|
    ensures forall k :: 0 <= k < |s| ==>
              Overwrite(s, i, text + [0])[k] == if i <= k <= i + |text| then TextByte(text, k - i) else s[k]
  {
  }

  /** ustar_make_header. It fails, without a change, exactly when the stripped
      name is longer than 99 bytes. */
  method MakeHeader(fileName: Name, kind: byte, size: I32, header: array<byte>) returns (ok: bool)
    requires header.Length == 512 && (kind == REGULAR || kind == DIRECTORY)
    modifies header
    ensures ok <==> |Stripped(fileName)| <= 99
    ensures header[..] == if ok then Made(Stripped(fileName), kind, ToU32(size)) else old(header[..])
  {
    var name := StripPrefixes(fileName);
    if |name| > 99 {
      return false;
    }
    FillHeader(name, kind, ToU32(size), header);
    var chksum := CalculateChksum(header[..]);
    ChksumBound(header[..], 0);
    PutOctal(header, 148, chksum, 7);
    ghost var made := Made(name, kind, ToU32(size));
    assert forall k :: 0 <= k < 512 ==> header[k] == made[k];
    ok := true;
  }

  /** Everything but the checksum. */
  method FillHeader(name: Name, kind: byte, size: U32, header: array<byte>)
    requires header.Length == 512 && |name| <= 99
    modifies header
    ensures header[..] == HeaderWith(name, kind, size, [])
  {
    hide OctalText;
    for i := 0 to header.Length
      invariant forall k :: 0 <= k < i ==> header[k] == 0
    {
      header[i] := 0;
    }
    Strlcpy(header, 0, name);
    PutOctal(header, 100, if kind == REGULAR then 420 else 493, 7);
    Strlcpy(header, 108, Repeat(48, 7));
    Strlcpy(header, 116, Repeat(48, 7));
    PutOctal(header, 124, size, 11);
    PutOctal(header, 136, 1136102400, 11);
    header[156] := kind;
    Strlcpy(header, 257, USTAR);
    header[263], header[264] := 48, 48;
    Strlcpy(header, 297, ROOT);
    Strlcpy(header, 265, ROOT);
    assert forall k :: 0 <= k < 512 ==> header[k] == HeaderByte(name, kind, size, [], k);
  }

  // ----- parsing

  datatype Error =
    | NotUstar | BadVersion | CorruptChksum | ChksumMismatch | NameTooLong | UnknownType | CorruptSize | TooLarge

  datatype Parse = EndOfArchive | Entry(name: Name, kind: byte, size: nat) | Bad(error: Error)

  function ParsedHeader(h: seq<byte>): Parse
    requires |h| == 512
  {
    var chksum := OctalField(h, 148, 156, 148, 0);
    var size := OctalField(h, 124, 136, 124, 0);
    if h == Zeros(512) then EndOfArchive
    else if h[257..263] != USTAR + [0] then Bad(NotUstar)
    else if h[263] != 48 || h[264] != 48 then Bad(BadVersion)
    else if chksum == None then Bad(CorruptChksum)
    else if chksum.value != ChksumFrom(h, 0) then Bad(ChksumMismatch)
    else if h[99] != 0 || h[345] != 0 then Bad(NameTooLong)
    else if h[156] != REGULAR && h[156] != DIRECTORY then Bad(UnknownType)
    else if h[156] == DIRECTORY then Entry(Stripped(CString(h[..100])), DIRECTORY, 0)
    else if size == None then Bad(CorruptSize)
    else if size.value > 0x7fff_ffff then Bad(TooLarge)
    else Entry(Stripped(CString(h[..100])), REGULAR, size.value)
  }

  method IsAllZeros(block: seq<byte>) returns (b: bool)
    ensures b <==> block == Zeros(|block|)
  {
    for i := 0 to |block|
      invariant forall k :: 0 <= k < i ==> block[k] == 0
    {
      if block[i] != 0 {
        return false;
      }
    }
    return true;
  }

  /** ustar_parse_header */
  method ParseHeader(h: seq<byte>) returns (r: Parse)
    requires |h| == 512
    ensures r == ParsedHeader(h)
  {
    var zeros := IsAllZeros(h);
    if zeros {
      return EndOfArchive;
    }
    if h[257..263] != USTAR + [0] {
      return Bad(NotUstar);
    }
    if h[263] != 48 || h[264] != 48 {
      return Bad(BadVersion);
    }
    var chksum := ParseOctalField(h, 148, 8);
    if chksum == None {
      return Bad(CorruptChksum);
    }
    var sum := CalculateChksum(h);
    if chksum.value != sum {
      return Bad(ChksumMismatch);
    }
    if h[99] != 0 || h[345] != 0 {
      return Bad(NameTooLong);
    }
    if h[156] != REGULAR && h[156] != DIRECTORY {
      return Bad(UnknownType);
    }
    var size := 0;
    if h[156] == REGULAR {
      var field := ParseOctalField(h, 124, 12);
      if field == None {
        return Bad(CorruptSize);
      }
      if field.value > 0x7fff_ffff {
        return Bad(TooLarge);
      }
      size := field.value;
    }
    var name := StripPrefixes(CString(h[..100]));
    r := Entry(name, h[156], size);
  }

  /** What a header that has been made parses to: the stripped name, the type and
      the size, 0 for a directory; except that a negative size of a regular
      file is refused. */
  lemma RoundTrip(fileName: Name, kind: byte, size: I32)
    requires |Stripped(fileName)| <= 99 && (kind == REGULAR || kind == DIRECTORY)
    ensures ParsedHeader(Made(Stripped(fileName), kind, ToU32(size)))
            == if kind == DIRECTORY then Entry(Stripped(fileName), DIRECTORY, 0)
               else if size >= 0 then Entry(Stripped(fileName), REGULAR, size)
               else Bad(TooLarge)
  {
    var name, u := Stripped(fileName), ToU32(size);
    var h := Made(name, kind, u);
    hide ChksumFrom, OctalText, Stripped, OctalField, Social, ToU32;
    StripIdempotent(fileName);
    MadeChksum(name, kind, u);
    MadeSize(name, kind, u);
    MadeName(name, kind, u);
    assert h[257] == 117;
    assert h[257..263] == USTAR + [0] by { MadeMagic(name, kind, u); }
    NegativeSize(size);
  }

  lemma NegativeSize(size: I32)
    ensures size >= 0 ==> ToU32(size) == size
    ensures size < 0 ==> ToU32(size) > 0x7fff_ffff
  {
    if size < 0 {
      assert ToU32(size) == ToU32(size + 0x1_0000_0000);
    }
  }

  lemma MadeMagic(name: Name, kind: byte, size: U32)
    ensures Made(name, kind, size)[257..263] == USTAR + [0]
  {
    hide ChksumFrom, OctalText;
  }

  lemma MadeName(name: Name, kind: byte, size: U32)
    requires |name| <= 99
    ensures var h := Made(name, kind, size);
            CString(h[..100]) == name && h[99] == 0 && h[345] == 0 && h[156] == kind && h[263] == 48 && h[264] == 48
  {
    hide ChksumFrom, OctalText;
    var h := Made(name, kind, size);
    assert h[..100] == name + [0] + Zeros(99 - |name|);
    CStringOf(name, Zeros(99 - |name|));
  }

  lemma MadeSize(name: Name, kind: byte, size: U32)
    ensures OctalField(Made(name, kind, size), 124, 136, 124, 0) == Some(size)
  {
    hide ChksumFrom, OctalText;
    var h := Made(name, kind, size);
    assert h[124..135] == OctalText(size, 11);
    OctalBounds();
    FieldReads(h, 124, size, 11);
  }

  lemma MadeChksum(name: Name, kind: byte, size: U32)
    ensures OctalField(Made(name, kind, size), 148, 156, 148, 0) == Some(ChksumFrom(Made(name, kind, size), 0))
  {
    hide ChksumFrom, OctalText;
    var h0 := HeaderWith(name, kind, size, []);
    var chksum := ChksumFrom(h0, 0);
    var h := Made(name, kind, size);
    ChksumBound(h0, 0);
    ChksumIgnoresItself(h0, h, 0);
    assert h[148..155] == OctalText(chksum, 7);
    OctalBounds();
    FieldReads(h, 148, chksum, 7);
  }

  /** Whatever header is accepted, the name it gives is not empty and has no
      dangerous prefix, and its size is an int. */
  lemma AcceptedNames(h: seq<byte>)
    requires |h| == 512 && ParsedHeader(h).Entry?
    ensures var r := ParsedHeader(h);
            && r.name != [] && r.name != [46, 46] && !Antisocial(r.name) && |r.name| <= 99
            && r.size <= 0x7fff_ffff && (r.kind == DIRECTORY ==> r.size == 0)
  {
    var name := CString(h[..100]);
    StripIdempotent(name);
    SocialIs(name);
    CStringShort(h[..100], 99);
  }

  lemma {:induction false} CStringShort(field: seq<byte>, k: nat)
    requires k < |field| && field[k] == 0
    ensures |CString(field)| <= k
  {
    if field[0] != 0 {
      CStringShort(field[1..], k - 1);
    }
  }

  // ----- what fields and checksums are

  function OctalValue(digits: seq<byte>): int {
    if digits == [] then 0 else OctalValue(digits[..|digits| - 1]) * 8 + digits[|digits| - 1] - 48
  }

  /** A field from start on that has n octal digits, at least one, and then a
      space or null byte, all before end. */
  ghost predicate IsField(s: seq<byte>, start: nat, end: nat, n: nat) {
    && n > 0 && start + n < end <= |s| && (s[start + n] == 32 || s[start + n] == 0)
    && forall k :: start <= k < start + n ==> 48 <= s[k] <= 55
  }

  /** A field reads as a number exactly when it has such digits and their value
      is the number, which must fit in 32 bits. */
  lemma FieldIs(s: seq<byte>, start: nat, end: nat, v: U32)
    requires end <= |s|
    ensures OctalField(s, start, end, start, 0) == Some(v)
            <==> exists n :: IsField(s, start, end, n) && OctalValue(s[start..start + n]) == v
  {
    if OctalField(s, start, end, start, 0) == Some(v) {
      var n := FieldEnds(s, start, start, end, 0, v);
    }
    if n :| IsField(s, start, end, n) && OctalValue(s[start..start + n]) == v {
      FieldDigits(s, start, start, end, n, 0, v);
    }
  }

  /** The digits that have been read, from start to i, have value acc. */
  lemma {:induction false} FieldEnds(s: seq<byte>, i: nat, start: nat, end: nat, acc: U32, v: U32) returns (n: nat)
    requires start <= i <= end <= |s| && OctalField(s, i, end, start, acc) == Some(v)
    requires OctalValue(s[start..i]) == acc && forall k :: start <= k < i ==> 48 <= s[k] <= 55
    ensures IsField(s, start, end, n) && OctalValue(s[start..start + n]) == v
    decreases end - i
  {
    if 48 <= s[i] <= 55 {
      assert s[start..i + 1][..i - start] == s[start..i];
      n := FieldEnds(s, i + 1, start, end, s[i] - 48 + acc * 8, v);
    } else {
      n := i - start;
    }
  }

  lemma {:induction false} FieldDigits(s: seq<byte>, i: nat, start: nat, end: nat, n: nat, acc: U32, v: U32)
    requires start <= i <= start + n && IsField(s, start, end, n) && OctalValue(s[start..start + n]) == v
    requires OctalValue(s[start..i]) == acc
    ensures OctalField(s, i, end, start, acc) == Some(v)
    decreases start + n - i
  {
    if i < start + n {
      assert s[start..i + 1][..i - start] == s[start..i];
      ValueGrows(s, start, i + 1, start + n);
      FieldDigits(s, i + 1, start, end, n, s[i] - 48 + acc * 8, v);
    }
  }

  lemma {:induction false} ValueGrows(s: seq<byte>, start: nat, i: nat, j: nat)
    requires start <= i <= j <= |s| && forall k :: start <= k < j ==> 48 <= s[k] <= 55
    ensures 0 <= OctalValue(s[start..i]) <= OctalValue(s[start..j])
    decreases j
  {
    if i < j {
      assert s[start..j][..j - 1 - start] == s[start..j - 1];
      ValueGrows(s, start, i, j - 1);
    } else if start < j {
      assert s[start..j][..j - 1 - start] == s[start..j - 1];
      ValueGrows(s, start, i - 1, j - 1);
    }
  }

  function Sum(bytes: seq<byte>): nat {
    if bytes == [] then 0 else bytes[0] + Sum(bytes[1..])
  }

  /** A header with spaces for its checksum field. */
  function Spaced(h: seq<byte>): seq<byte>
    requires |h| == 512
  {
    h[..148] + Repeat(32, 8) + h[156..]
  }

  lemma ChksumIsSum(h: seq<byte>)
    requires |h| == 512
    ensures ChksumFrom(h, 0) == Sum(Spaced(h))
  {
    SpacedSum(h, 0);
    assert Spaced(h)[0..] == Spaced(h);
  }

  lemma {:induction false} SpacedSum(h: seq<byte>, i: nat)
    requires |h| == 512 && i <= 512
    ensures ChksumFrom(h, i) == Sum(Spaced(h)[i..])
    decreases 512 - i
  {
    if i < 512 {
      SpacedSum(h, i + 1);
      assert Spaced(h)[i..][1..] == Spaced(h)[i + 1..];
      assert Spaced(h)[i] == if 148 <= i < 156 then 32 else h[i];
    }
  }

  // ----- which headers are accepted

  /** The field from start to end reads as v. */
  ghost predicate Reads(h: seq<byte>, start: nat, end: nat, v: nat) {
    exists n :: IsField(h, start, end, n) && OctalValue(h[start..start + n]) == v
  }

  /** A ustar header, version 00, whose checksum is right, with a name that ends
      in its field and no prefix, of a directory or of a file with a size that
      is an int. */
  ghost predicate Proper(h: seq<byte>)
    requires |h| == 512
  {
    && h[257..263] == [117, 115, 116, 97, 114, 0] && h[263..265] == [48, 48]
    && Reads(h, 148, 156, Sum(Spaced(h)))
    && h[99] == 0 && h[345] == 0
    && (h[156] == DIRECTORY || (h[156] == REGULAR && exists v :: 0 <= v < 0x8000_0000 && Reads(h, 124, 136, v)))
  }

  /** Exactly the proper headers are accepted, and what they give. */
  lemma AcceptedExactly(h: seq<byte>)
    requires |h| == 512
    ensures ParsedHeader(h) == EndOfArchive <==> forall k :: 0 <= k < 512 ==> h[k] == 0
    ensures ParsedHeader(h).Entry? <==> Proper(h)
    ensures ParsedHeader(h).Entry? ==>
              var r := ParsedHeader(h);
              && r.kind == h[156] && r.name == Stripped(CString(h[..100]))
              && if r.kind == DIRECTORY then r.size == 0 else Reads(h, 124, 136, r.size)
  {
    hide ChksumFrom, OctalField, Stripped, OctalValue, Sum, Spaced, CString;
    ZeroHeader(h);
    Magic(h);
    ChksumIsSum(h);
    ReadsIs(h, 148, 156);
    ReadsIs(h, 124, 136);
    ChksumBound(h, 0);
  }

  lemma ZeroHeader(h: seq<byte>)
    requires |h| == 512
    ensures h == Zeros(512) <==> forall k :: 0 <= k < 512 ==> h[k] == 0
    ensures h[257..263] == [117, 115, 116, 97, 114, 0] ==> h != Zeros(512)
  {
    assert h[257] == h[257..263][0];
  }

  lemma Magic(h: seq<byte>)
    requires |h| == 512
    ensures USTAR + [0] == [117, 115, 116, 97, 114, 0]
    ensures h[263..265] == [48, 48] <==> h[263] == 48 && h[264] == 48
  {
    if h[263] == 48 && h[264] == 48 {
      assert h[263..265] == [48, 48];
    }
    assert h[263..265][0] == h[263] && h[263..265][1] == h[264];
  }

  lemma ReadsIs(h: seq<byte>, start: nat, end: nat)
    requires end <= |h|
    ensures forall v: U32 :: Reads(h, start, end, v) <==> OctalField(h, start, end, start, 0) == Some(v)
  {
    forall v: U32
      ensures Reads(h, start, end, v) <==> OctalField(h, start, end, start, 0) == Some(v)
    {
      FieldIs(h, start, end, v);
    }
  }

  /** One changed byte outside the checksum field of an accepted header, such as
      one that has been made, is found out. */
  lemma DamageFound(h: seq<byte>, k: nat, b: byte)
    requires |h| == 512 && ParsedHeader(h).Entry? && k < 512 && !(148 <= k < 156) && b != h[k]
    ensures ParsedHeader(h[k := b]).Bad?
  {
    hide ChksumFrom, OctalField, Stripped, CString;
    var h' := h[k := b];
    ChksumChanges(h, k, b, 0);
    FieldKept(h, h', 148);
    var m := if k == 257 then 258 else 257;
    assert h[m] == h[257..263][m - 257] != 0;
    assert h'[m] != Zeros(512)[m];
  }

  lemma {:induction false} ChksumChanges(h: seq<byte>, k: nat, b: byte, i: nat)
    requires k < |h| && !(148 <= k < 156) && i <= |h|
    ensures ChksumFrom(h[k := b], i) == ChksumFrom(h, i) + if i <= k then b as int - h[k] as int else 0
    decreases |h| - i
  {
    if i < |h| {
      ChksumChanges(h, k, b, i + 1);
    }
  }

  lemma FieldKept(h: seq<byte>, h': seq<byte>, i: nat)
    requires |h'| == |h| == 512 && 148 <= i <= 156 && forall k :: 148 <= k < 156 ==> h'[k] == h[k]
    ensures forall v: U32 :: OctalField(h', i, 156, 148, v) == OctalField(h, i, 156, 148, v)
    decreases 156 - i
  {
    forall v: U32
      ensures OctalField(h', i, 156, 148, v) == OctalField(h, i, 156, 148, v)
    {
      if i < 156 {
        FieldKept(h, h', i + 1);
      }
    }
  }

  // ----- one header for each error

  /** A header with its checksum put right. */
  function Checked(h: seq<byte>): (r: seq<byte>)
    requires |h| == 512
    ensures |r| == 512
  {
    h[..148] + OctalText(ChksumFrom(h, 0), 7) + [0] + h[156..]
  }

  lemma CheckedReads(h: seq<byte>)
    requires |h| == 512
    ensures OctalField(Checked(h), 148, 156, 148, 0) == Some(ChksumFrom(Checked(h), 0))
    ensures forall k :: 0 <= k < 512 && !(148 <= k < 156) ==> Checked(h)[k] == h[k]
  {
    hide ChksumFrom, OctalText;
    var r := Checked(h);
    ChksumBound(h, 0);
    ChksumIgnoresItself(h, r, 0);
    assert r[148..155] == OctalText(ChksumFrom(h, 0), 7);
    OctalBounds();
    FieldReads(r, 148, ChksumFrom(h, 0), 7);
  }

  /** The empty directory named "a". */
  function Sample(kind: byte): (h: seq<byte>)
    ensures |h| == 512
  {
    Made([97], kind, 0)
  }

  lemma SampleIs(kind: byte)
    requires kind == REGULAR || kind == DIRECTORY
    ensures var h := Sample(kind);
            && h[257..263] == USTAR + [0] && h[263] == 48 && h[264] == 48 && h[99] == 0 && h[345] == 0 && h[156] == kind
            && h[0] == 97 && h[124] == 48 && ParsedHeader(h) == Entry([97], kind, 0)
  {
    hide ChksumFrom, OctalField, Stripped, CString;
    var name: Name := [97];
    SampleName();
    RoundTrip(name, kind, 0);
    MadeMagic(name, kind, 0);
    MadeName(name, kind, 0);
    OctalZeros(11);
    hide OctalText;
    assert Sample(kind)[124] == TextByte(OctalText(0, 11), 0);
  }

  lemma SampleName()
    ensures Stripped([97]) == [97]
  {
    var name: Name := [97];
    assert name[..1][0] == 97;
    assert !Antisocial(name);
  }

  /** A header that is not zero in byte 258, where "ustar" has an s. */
  lemma NotZero(h: seq<byte>)
    requires |h| == 512 && h[257..263] == USTAR + [0]
    ensures h != Zeros(512) && h[258] == 115
  {
    assert h[258] == h[257..263][1];
  }

  lemma SampleNotUstar()
    ensures ParsedHeader(Sample(DIRECTORY)[257 := 85]) == Bad(NotUstar)
  {
    hide Sample, ChksumFrom, OctalField;
    SampleIs(DIRECTORY);
    NotZero(Sample(DIRECTORY));
    var h := Sample(DIRECTORY)[257 := 85];
    assert h[257..263][0] == 85 && h[258] != Zeros(512)[258];
  }

  lemma SampleBadVersion()
    ensures ParsedHeader(Sample(DIRECTORY)[264 := 49]) == Bad(BadVersion)
  {
    hide Sample, ChksumFrom, OctalField;
    SampleIs(DIRECTORY);
    var h := Sample(DIRECTORY)[264 := 49];
    assert h[257..263] == Sample(DIRECTORY)[257..263];
    NotZero(h);
  }

  lemma SampleCorruptChksum()
    ensures ParsedHeader(Sample(DIRECTORY)[148 := 56]) == Bad(CorruptChksum)
  {
    hide Sample, ChksumFrom;
    SampleIs(DIRECTORY);
    var h := Sample(DIRECTORY)[148 := 56];
    assert h[257..263] == Sample(DIRECTORY)[257..263];
    NotZero(h);
  }

  lemma SampleChksumMismatch()
    ensures ParsedHeader(Sample(DIRECTORY)[0 := 98]) == Bad(ChksumMismatch)
  {
    hide Sample, ChksumFrom, OctalField;
    SampleIs(DIRECTORY);
    var h, h' := Sample(DIRECTORY), Sample(DIRECTORY)[0 := 98];
    assert h'[257..263] == h[257..263];
    NotZero(h);
    NotZero(h');
    ChksumChanges(h, 0, 98, 0);
    FieldKept(h, h', 148);
  }

  lemma SampleNameTooLong()
    ensures ParsedHeader(Checked(Sample(DIRECTORY)[345 := 97])) == Bad(NameTooLong)
  {
    hide Sample, ChksumFrom, OctalField, Checked;
    SampleIs(DIRECTORY);
    CheckedReads(Sample(DIRECTORY)[345 := 97]);
    var h := Checked(Sample(DIRECTORY)[345 := 97]);
    assert h[257..263] == Sample(DIRECTORY)[257..263];
    NotZero(h);
  }

  lemma SampleUnknownType()
    ensures ParsedHeader(Checked(Sample(DIRECTORY)[156 := 50])) == Bad(UnknownType)
  {
    hide Sample, ChksumFrom, OctalField, Checked;
    SampleIs(DIRECTORY);
    CheckedReads(Sample(DIRECTORY)[156 := 50]);
    var h := Checked(Sample(DIRECTORY)[156 := 50]);
    assert h[257..263] == Sample(DIRECTORY)[257..263];
    NotZero(h);
  }

  lemma SampleCorruptSize()
    ensures ParsedHeader(Checked(Sample(REGULAR)[124 := 56])) == Bad(CorruptSize)
  {
    hide Sample, ChksumFrom, Checked;
    SampleIs(REGULAR);
    CheckedReads(Sample(REGULAR)[124 := 56]);
    var h := Checked(Sample(REGULAR)[124 := 56]);
    assert h[257..263] == Sample(REGULAR)[257..263];
    NotZero(h);
    CorruptField(h, 124, 136);
  }

  lemma CorruptField(h: seq<byte>, start: nat, end: nat)
    requires start < end <= |h| && h[start] == 56
    ensures OctalField(h, start, end, start, 0) == None
  {
  }

  lemma SampleTooLarge()
    ensures ParsedHeader(Made([97], REGULAR, 0x8000_0000)) == Bad(TooLarge)
  {
    SampleName();
    assert ToU32(-0x8000_0000) == ToU32(0x8000_0000) == 0x8000_0000;
    RoundTrip([97], REGULAR, -0x8000_0000);
  }

  // ----- what a made header says

  /** Byte k of field i..j is that of the text, or null. */
  lemma MadeField(name: Name, kind: byte, size: U32, i: nat, j: nat, text: seq<byte>)
    requires i < j <= 512 && |text| == j - i - 1
    requires forall chksum, k :: i <= k < j ==> HeaderByte(name, kind, size, chksum, k) == TextByte(text, k - i)
    ensures var h := Made(name, kind, size); h[i..j - 1] == text && h[j - 1] == 0
  {
    hide ChksumFrom, OctalText, HeaderByte;
    var h := Made(name, kind, size);
    forall k | 0 <= k < |text|
      ensures h[i..j - 1][k] == text[k]
    {
    }
  }

  lemma MadeNumber(name: Name, kind: byte, size: U32, i: nat, j: nat, v: U32)
    requires i + 1 < j <= 512 && v < Shl(1, 3 * (j - i - 1))
    requires forall chksum, k :: i <= k < j ==>
               HeaderByte(name, kind, size, chksum, k) == TextByte(OctalText(v, j - i - 1), k - i)
    ensures OctalField(Made(name, kind, size), i, j, i, 0) == Some(v)
  {
    hide Made, OctalText, HeaderByte;
    MadeField(name, kind, size, i, j, OctalText(v, j - i - 1));
    FieldReads(Made(name, kind, size), i, v, j - i - 1);
  }

  lemma MadeMode(name: Name, kind: byte, size: U32)
    requires kind == REGULAR || kind == DIRECTORY
    ensures OctalField(Made(name, kind, size), 100, 108, 100, 0) == Some(if kind == REGULAR then 420 else 493)
  {
    OctalBounds();
    hide Made, OctalText, OctalField;
    MadeNumber(name, kind, size, 100, 108, if kind == REGULAR then 420 else 493);
  }

  lemma MadeIds(name: Name, kind: byte, size: U32)
    ensures var h := Made(name, kind, size);
            OctalField(h, 108, 116, 108, 0) == Some(0) && OctalField(h, 116, 124, 116, 0) == Some(0)
  {
    OctalBounds();
    OctalZeros(7);
    hide Made, OctalText, OctalField;
    MadeNumber(name, kind, size, 108, 116, 0);
    MadeNumber(name, kind, size, 116, 124, 0);
  }

  lemma MadeTime(name: Name, kind: byte, size: U32)
    ensures OctalField(Made(name, kind, size), 136, 148, 136, 0) == Some(1136102400)
  {
    OctalBounds();
    hide Made, OctalText, OctalField;
    MadeNumber(name, kind, size, 136, 148, 1136102400);
  }

  /** Mode 644 for a file and 755 for a directory, in octal; user and group 0;
      the size; and a fixed time, 8:00 on the first day of 2006. */
  lemma MadeSays(name: Name, kind: byte, size: U32)
    requires kind == REGULAR || kind == DIRECTORY
    ensures var h := Made(name, kind, size);
            && OctalField(h, 100, 108, 100, 0)
                == Some(if kind == REGULAR then 6 * 64 + 4 * 8 + 4 else 7 * 64 + 5 * 8 + 5)
            && OctalField(h, 108, 116, 108, 0) == Some(0) && OctalField(h, 116, 124, 116, 0) == Some(0)
            && OctalField(h, 124, 136, 124, 0) == Some(size)
            && OctalField(h, 136, 148, 136, 0) == Some((36 * 365 + 9) * 24 * 3600 + 8 * 3600)
  {
    hide Made, OctalField;
    MadeMode(name, kind, size);
    MadeIds(name, kind, size);
    MadeSize(name, kind, size);
    MadeTime(name, kind, size);
  }

  /** The user and the group are root, and the rest is null bytes. */
  lemma MadeNames(name: Name, kind: byte, size: U32)
    ensures var h := Made(name, kind, size);
            && CString(h[265..297]) == ROOT && CString(h[297..329]) == ROOT
            && forall k :: 157 <= k < 257 || 329 <= k < 512 ==> h[k] == 0
  {
    hide ChksumFrom, OctalText, CString;
    var h := Made(name, kind, size);
    assert h[265..297] == ROOT + [0] + Zeros(27);
    assert h[297..329] == ROOT + [0] + Zeros(27);
    CStringOf(ROOT, Zeros(27));
  }
}
