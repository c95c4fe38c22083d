/** Formatted output into a buffer (stdio.c). */
module Stdio {
  import opened Arithmetic
  import opened Bytes

  // ----- vsnprintf's sink

  /** struct vsnprintf_aux: the output so far goes to buffer[start..], as far as
      there is room. printed is the whole output, before what was there. */
  class Sink {
    const buffer: array<byte>
    const start: nat
    const maxLength: nat
    var p: nat
    var length: nat
    ghost var printed: seq<byte>
    ghost const before: seq<byte>

    constructor (buffer: array<byte>, start: nat, bufSize: nat)
      requires start + bufSize <= buffer.Length
      ensures this.buffer == buffer && this.start == start && maxLength == (if bufSize > 0 then bufSize - 1 else 0)
      ensures Valid() && printed == [] && before == buffer[..]
    {
      this.buffer, this.start, maxLength := buffer, start, if bufSize > 0 then bufSize - 1 else 0;
      p, length, printed, before := start, 0, [], buffer[..];
      new;
      assert buffer[..] == Overwrite(before, start, []);
    }

    /** The part of the output that fits. */
    ghost function Stored(): seq<byte>
      reads this
    {
      Fitting(printed, maxLength)
    }

    ghost predicate Valid()
      reads this, buffer
    {
      && start + maxLength <= buffer.Length == |before|
      && length == |printed| && p == start + |Stored()|
      && buffer[..] == Overwrite(before, start, Stored())
    }

    /** vsnprintf_helper */
    method Put(ch: byte)
      requires Valid()
      modifies this`p, this`length, this`printed, buffer
      ensures Valid() && printed == old(printed) + [ch]
    {
      ghost var stored := Stored();
      if length < maxLength {
        buffer[p] := ch;
        p := p + 1;
      }
      length := length + 1;
      printed := printed + [ch];
      assert buffer[..] == Overwrite(before, start, Stored());
    }

    /** output_dup */
    method Dup(ch: byte, cnt: nat)
      requires Valid()
      modifies this`p, this`length, this`printed, buffer
      ensures Valid() && printed == old(printed) + Repeat(ch, cnt)
    {
      for i := 0 to cnt
        invariant Valid() && printed == old(printed) + Repeat(ch, i)
      {
        Put(ch);
      }
    }
  }

  function Repeat(ch: byte, cnt: nat): (s: seq<byte>)
    ensures |s| == cnt
  {
    seq(cnt, _ => ch)
  }

  // ----- integers

  /** struct integer_base: 8, 10 or 16, in lower or upper case; x is 0 but for
      base 16. */
  datatype Base = Base(base: nat, digits: seq<byte>, x: byte, group: nat)

  function Decimal(): Base { Base(10, seq(10, d requires 0 <= d < 10 => 48 + d), 0, 3) }

  function Octal(): Base { Base(8, seq(8, d requires 0 <= d < 8 => 48 + d), 0, 3) }

  function Hexadecimal(upper: bool): Base {
    Base(16, seq(16, d requires 0 <= d < 16 => if d < 10 then 48 + d else if upper then 55 + d else 87 + d), if upper
        then 88 else 120, 4)
  }

  ghost predicate IsBase(b: Base) {
    b == Decimal() || b == Octal() || b == Hexadecimal(false) || b == Hexadecimal(true)
  }

  datatype Size = Char | Short | Int | IntMax | Long | LongLong | PtrDiff | SizeT

  /** struct printf_conversion, with one field per flag. */
  datatype Conversion = Conversion(minus: bool, plus: bool, space: bool, pound: bool, zero: bool, group: bool,
                                   width: int, precision: int, size: Size)

  /** The digits of a value, last one first; with group > 0, with commas. cnt
      digits have been produced before. */
  function RevDigits(value: nat, b: Base, group: nat, cnt: nat): seq<byte>
    requires b.base >= 2 && |b.digits| == b.base
    decreases value
  {
    if value == 0 then []
    else
      DivLess(value, b.base);
      (if group > 0 && cnt > 0 && cnt % group == 0 then [44] else []) + [b.digits[value % b.base]]
          + RevDigits(value / b.base, b, group, cnt + 1)
  }

  lemma RevStep(value: nat, b: Base, group: nat, cnt: nat)
    requires value > 0 && b.base >= 2 && |b.digits| == b.base
    ensures 0 <= value / b.base < value && 0 <= value % b.base < b.base
            && value == b.base * (value / b.base) + value % b.base
    ensures RevDigits(value, b, group, cnt)
            == (if group > 0 && cnt > 0 && cnt % group == 0 then [44] else []) + [b.digits[value % b.base]]
               + RevDigits(value / b.base, b, group, cnt + 1)
  {
    DivLess(value, b.base);
    DivBounds(value, b.base);
  }

  lemma DivLess(value: nat, base: nat)
    requires value > 0 && base >= 2
    ensures 0 <= value / base < value && 0 <= value % base < base
  {
    DivBounds(value, base);
    if value / base >= value {
      MulMonotone(2, base, value);
      MulMonotone(value, value / base, base);
      assert false;
    }
  }

  /** At most two characters for each of the at most 22 digits that a 64-bit
      value has in base 8 or more. */
  lemma {:induction false} DigitsFit(value: nat, b: Base, group: nat, cnt: nat, k: nat)
    requires b.base >= 8 && |b.digits| == b.base && value < Shl(1, 3 * k)
    ensures |RevDigits(value, b, group, cnt)| <= 2 * k
    decreases k
  {
    if value > 0 {
      assert k > 0;
      DivLess(value, b.base);
      assert Shl(1, 3 * k) == 8 * Shl(1, 3 * (k - 1)) by {
        assert Shl(1, 3 * k) == 2 * Shl(1, 3 * k - 1) == 4 * Shl(1, 3 * k - 2) == 8 * Shl(1, 3 * k - 3);
      }
      EighthOf(value, b.base, Shl(1, 3 * (k - 1)));
      DigitsFit(value / b.base, b, group, cnt + 1, k - 1);
    }
  }

  lemma EighthOf(value: nat, base: nat, m: nat)
    requires base >= 8 && value < 8 * m
    ensures 0 <= value / base < m
  {
    DivBounds(value, base);
    if value / base >= m {
      MulMonotone(m, value / base, base);
      MulMonotone(8, base, m);
      assert false;
    }
  }

  function Reversed(s: seq<byte>): (r: seq<byte>)
    ensures |r| == |s|
  {
    seq<byte>(|s|, i requires 0 <= i < |s| => s[|s| - 1 - i])
  }

  // ----- what format_integer prints

  /** The sign character, or 0. */
  function SignOf(isSigned: bool, negative: bool, c: Conversion): byte {
    if !isSigned then 0
    else if c.plus then (if negative then 45 else 43)
    else if c.space then (if negative then 45 else 32)
    else if negative then 45 else 0
  }

  /** The x of a hexadecimal prefix, or 0. */
  function XOf(value: nat, b: Base, c: Conversion): byte {
    if c.pound && value != 0 && b.x < 128 then b.x else 0
  }

  function GroupOf(b: Base, c: Conversion): nat { if c.group then b.group else 0 }

  /** The zeros that the precision asks for: the buffer takes no more than 63
      characters by that. */
  function Zeros48(len: nat, precision: int): seq<byte> {
    var wanted := if precision < 0 then 1 else if precision < 63 then precision else 63;
    Repeat(48, if wanted > len then wanted - len else 0)
  }

  /** The contents of the digit buffer, last digit first. */
  function Digits(value: nat, b: Base, c: Conversion): (d: seq<byte>)
    requires b.base >= 2 && |b.digits| == b.base
  {
    var d := RevDigits(value, b, GroupOf(b, c), 0);
    var padded := d + Zeros48(|d|, c.precision);
    if c.pound && b.base == 8 && (padded == [] || padded[|padded| - 1] != 48) then padded + [48] else padded
  }

  /** The number of characters but for padding. */
  function Natural(value: nat, isSigned: bool, negative: bool, b: Base, c: Conversion): nat
    requires b.base >= 2 && |b.digits| == b.base
  {
    |Digits(value, b, c)| + (if XOf(value, b, c) != 0 then 2 else 0)
        + (if SignOf(isSigned, negative, c) != 0 then 1 else 0)
  }

  function PadCount(width: int, natural: nat): nat {
    if width > natural then width - natural else 0
  }

  function Opt(ch: byte): seq<byte> { if ch != 0 then [ch] else [] }

  function Formatted(value: nat, isSigned: bool, negative: bool, b: Base, c: Conversion): seq<byte>
    requires b.base >= 2 && |b.digits| == b.base
  {
    var pad := PadCount(c.width, Natural(value, isSigned, negative, b, c));
    Front(c, SignOf(isSigned, negative, c), XOf(value, b, c), pad)
    + Reversed(Digits(value, b, c))
    + (if c.minus then Repeat(32, pad) else [])
  }

  /** What comes before the digits. */
  function Front(c: Conversion, sign: byte, x: byte, pad: nat): (s: seq<byte>)
    ensures |s| == (if !c.minus || c.zero then pad else 0) + (if sign != 0 then 1 else 0) + (if x != 0 then 2 else 0)
  {
    (if !c.minus && !c.zero then Repeat(32, pad) else []) + Opt(sign) + (if x != 0 then [48, x] else [])
    + (if c.zero then Repeat(48, pad) else [])
  }

  /** format_integer. Its 64-byte buffer is never overrun. */
  method FormatInteger(value: U64, isSigned: bool, negative: bool, b: Base, c: Conversion, sink: Sink)
    requires IsBase(b) && sink.Valid()
    modifies sink`p, sink`length, sink`printed, sink.buffer
    ensures sink.Valid() && sink.printed == old(sink.printed) + Formatted(value, isSigned, negative, b, c)
  {
    var sign := SignOf(isSigned, negative, c);
    var x := XOf(value, b, c);
    var buf, cp := FillDigits(value, b, c);
    var natural := cp + (if x != 0 then 2 else 0) + (if sign != 0 then 1 else 0);
    var padCnt := if c.width > natural then c.width - natural else 0;
    ghost var d, out := Digits(value, b, c), sink.printed;
    assert padCnt == PadCount(c.width, Natural(value, isSigned, negative, b, c));
    hide Formatted, Digits, Natural, SignOf, XOf, Repeat, Reversed, IsBase, PadCount, Front;
    PrintFront(c, sign, x, padCnt, sink);
    ghost var a1 := out + Front(c, sign, x, padCnt);
    PrintBuffer(buf, cp, sink);
    ghost var a2 := a1 + Reversed(d);
    assert sink.printed == a2;
    if c.minus {
      sink.Dup(32, padCnt);
    }
    ghost var a3 := a2 + if c.minus then Repeat(32, padCnt) else [];
    assert sink.printed == a3;
    Assembled(out, a3, value, isSigned, negative, b, c);
  }

  lemma Assembled(out: seq<byte>, all: seq<byte>, value: nat, isSigned: bool, negative: bool, b: Base, c: Conversion)
    requires IsBase(b)
    requires var pad := PadCount(c.width, Natural(value, isSigned, negative, b, c));
             all == out + Front(c, SignOf(isSigned, negative, c), XOf(value, b, c), pad) + Reversed(Digits(value, b, c))
                    + (if c.minus then Repeat(32, pad) else [])
    ensures all == out + Formatted(value, isSigned, negative, b, c)
  {
  }

  method PrintFront(c: Conversion, sign: byte, x: byte, padCnt: nat, sink: Sink)
    requires sink.Valid()
    modifies sink`p, sink`length, sink`printed, sink.buffer
    ensures sink.Valid() && sink.printed == old(sink.printed) + Front(c, sign, x, padCnt)
  {
    ghost var out := sink.printed;
    hide Repeat, Front;
    if !c.minus && !c.zero {
      sink.Dup(32, padCnt);
    }
    ghost var a1 := out + if !c.minus && !c.zero then Repeat(32, padCnt) else [];
    assert sink.printed == a1;
    if sign != 0 {
      sink.Put(sign);
    }
    ghost var a2 := a1 + Opt(sign);
    assert sink.printed == a2;
    if x != 0 {
      sink.Put(48);
      sink.Put(x);
    }
    ghost var a3 := a2 + if x != 0 then [48, x] else [];
    assert sink.printed == a3;
    if c.zero {
      sink.Dup(48, padCnt);
    }
    ghost var a4 := a3 + if c.zero then Repeat(48, padCnt) else [];
    assert sink.printed == a4;
    FrontIs(out, a4, c, sign, x, padCnt);
  }

  lemma FrontIs(out: seq<byte>, all: seq<byte>, c: Conversion, sign: byte, x: byte, pad: nat)
    requires all == out + (if !c.minus && !c.zero then Repeat(32, pad) else []) + Opt(sign)
             + (if x != 0 then [48, x] else [])
                    + (if c.zero then Repeat(48, pad) else [])
    ensures all == out + Front(c, sign, x, pad)
  {
  }

  /** Prints the buffer from its end to its start. */
  method PrintBuffer(buf: array<byte>, cnt: nat, sink: Sink)
    requires cnt <= buf.Length && sink.Valid() && buf != sink.buffer
    modifies sink`p, sink`length, sink`printed, sink.buffer
    ensures sink.Valid() && sink.printed == old(sink.printed) + Reversed(buf[..cnt])
  {
    var cp := cnt;
    ghost var all := Reversed(buf[..cnt]);
    while cp > 0
      invariant 0 <= cp <= cnt && sink.Valid() && sink.printed == old(sink.printed) + all[..cnt - cp]
      invariant buf[..cnt] == old(buf[..cnt])
    {
      cp := cp - 1;
      sink.Put(buf[cp]);
      assert all[..cnt - cp] == all[..cnt - cp - 1] + [buf[cp]];
    }
    assert all[..cnt] == all;
  }

  /** Accumulates the digits, in reverse, in a buffer of 64 characters. */
  method FillDigits(value: U64, b: Base, c: Conversion) returns (buf: array<byte>, cp: nat)
    requires IsBase(b)
    ensures fresh(buf) && buf.Length == 64 && cp <= 64 && buf[..cp] == Digits(value, b, c)
  {
    hide RevDigits, Digits, IsBase, Filled;
    buf := new byte[64];
    cp := 0;
    var v: nat, digitCnt: nat := value, 0;
    ghost var group := GroupOf(b, c);
    BaseDigits(value, b, group);
    ghost var all := RevDigits(value, b, group, 0);
    NoneFilled(buf[..], value, b, group);
    while v > 0
      invariant buf.Length == 64 && Filled(buf[..], cp, v, b, group, digitCnt, all)
    {
      DivLess(v, b.base);
      cp := AddDigit(buf, cp, v, b, c, digitCnt, all);
      v, digitCnt := v / b.base, digitCnt + 1;
    }
    AllFilled(buf[..], cp, b, group, digitCnt, all);
    assert buf[..][..cp] == buf[..cp];
    cp := PadDigits(buf, cp, b, c, all);
    DigitsAre(value, b, c);
  }

  lemma BaseDigits(value: U64, b: Base, group: nat)
    requires IsBase(b)
    ensures b.base >= 8 && |b.digits| == b.base && b.group > 0 && |RevDigits(value, b, group, 0)| <= 44
  {
    Bits66();
    DigitsFit(value, b, group, 0, 22);
  }

  lemma DigitsAre(value: nat, b: Base, c: Conversion)
    requires b.base >= 2 && |b.digits| == b.base
    ensures var d := RevDigits(value, b, GroupOf(b, c), 0); var padded := d + Zeros48(|d|, c.precision);
            Digits(value, b, c) == if c.pound && b.base == 8 && (padded == [] || padded[|padded| - 1] != 48)
                then padded + [48] else padded
  {
  }

  /** The buffer's first cp characters and the digits still to come are the
      whole number; all of it fits. */
  ghost predicate Filled(buf: seq<byte>, cp: nat, v: nat, b: Base, group: nat, digitCnt: nat, all: seq<byte>)
    requires b.base >= 2 && |b.digits| == b.base
  {
    cp <= |buf| && |all| <= 44 && buf[..cp] + RevDigits(v, b, group, digitCnt) == all
  }

  lemma NoneFilled(buf: seq<byte>, value: nat, b: Base, group: nat)
    requires b.base >= 2 && |b.digits| == b.base && |RevDigits(value, b, group, 0)| <= 44
    ensures Filled(buf, 0, value, b, group, 0, RevDigits(value, b, group, 0))
  {
    assert buf[..0] + RevDigits(value, b, group, 0) == RevDigits(value, b, group, 0);
  }

  lemma AllFilled(buf: seq<byte>, cp: nat, b: Base, group: nat, digitCnt: nat, all: seq<byte>)
    requires b.base >= 2 && |b.digits| == b.base && Filled(buf, cp, 0, b, group, digitCnt, all)
    ensures cp <= |buf| && buf[..cp] == all && cp <= 44
  {
    NoDigits(b, group, digitCnt);
  }

  /** One round of the loop over the digits. */
  method AddDigit(buf: array<byte>, cp0: nat, v: nat, b: Base, c: Conversion, digitCnt: nat, ghost all: seq<byte>)
    returns (cp: nat)
    requires v > 0 && b.base >= 2 && |b.digits| == b.base && b.group > 0 && buf.Length == 64
    requires Filled(buf[..], cp0, v, b, GroupOf(b, c), digitCnt, all)
    modifies buf
    ensures 0 <= v / b.base && Filled(buf[..], cp, v / b.base, b, GroupOf(b, c), digitCnt + 1, all)
  {
    hide RevDigits;
    cp := cp0;
    RevStep(v, b, GroupOf(b, c), digitCnt);
    ghost var rest := RevDigits(v / b.base, b, GroupOf(b, c), digitCnt + 1);
    ghost var done := buf[..cp];
    var comma := c.group && digitCnt > 0 && digitCnt % b.group == 0;
    if comma {
      Store(buf, cp, 44);
      cp := cp + 1;
    }
    Store(buf, cp, b.digits[v % b.base]);
    cp := cp + 1;
    Joined(done, comma, b.digits[v % b.base], rest, buf[..cp]);
  }

  method Store(buf: array<byte>, cp: nat, ch: byte)
    requires cp < buf.Length
    modifies buf
    ensures buf[..cp + 1] == old(buf[..cp]) + [ch]
  {
    buf[cp] := ch;
  }

  lemma Joined(done: seq<byte>, comma: bool, digit: byte, rest: seq<byte>, now: seq<byte>)
    requires now == (if comma then done + [44] else done) + [digit]
    ensures now + rest == done + ((if comma then [44] else []) + [digit] + rest)
  {
  }

  lemma NoDigits(b: Base, group: nat, cnt: nat)
    requires b.base >= 2 && |b.digits| == b.base
    ensures RevDigits(0, b, group, cnt) == []
  {
  }

  lemma Bits66()
    ensures Shl(1, 66) > 0xffff_ffff_ffff_ffff
  {
    ShlShl(1, 32, 34);
    ShlShl(1, 16, 16);
    ShlValues(1);
    ShlTwo(Shl(1, 64));
    ShlShl(1, 64, 2);
    ShlShl(1, 32, 32);
    ShlValues(Shl(1, 16));
    ShlValues(Shl(1, 32));
    ShlShl(Shl(1, 32), 16, 16);
    ShlValues(Shl(Shl(1, 32), 16));
  }

  method PadDigits(buf: array<byte>, cnt: nat, b: Base, c: Conversion, ghost digits: seq<byte>) returns (cp: nat)
    requires buf.Length == 64 && cnt <= 44 && buf[..cnt] == digits
    modifies buf
    ensures cp <= 64
    ensures var padded := digits + Zeros48(|digits|, c.precision);
            buf[..cp] == if c.pound && b.base == 8 && (padded == [] || padded[|padded| - 1] != 48) then padded + [48]
                else padded
  {
    cp := cnt;
    var precision := if c.precision < 0 then 1 else c.precision;
    ghost var zeros := Zeros48(|digits|, c.precision);
    while cp < precision && cp < 63
      invariant cnt <= cp <= cnt + |zeros| && buf[..cp] == digits + zeros[..cp - cnt]
      invariant cp <= 63
    {
      buf[cp] := 48;
      cp := cp + 1;
      assert buf[..cp] == digits + zeros[..cp - cnt];
    }
    assert zeros[..cp - cnt] == zeros;
    if c.pound && b.base == 8 && (cp == 0 || buf[cp - 1] != 48) {
      buf[cp] := 48;
      cp := cp + 1;
    }
  }

  // ----- what that means

  function DigitValue(ch: byte): nat {
    if 48 <= ch <= 57 then ch - 48 else if 65 <= ch <= 70 then ch - 55 else if 97 <= ch <= 102 then ch - 87 else 0
  }

  /** The number that digits stand for, the last one first; commas are skipped. */
  function Eval(rev: seq<byte>, base: nat): nat {
    if rev == [] then 0
    else if rev[0] == 44 then Eval(rev[1..], base)
    else DigitValue(rev[0]) + base * Eval(rev[1..], base)
  }

  lemma {:induction false} DigitsEval(value: nat, b: Base, group: nat, cnt: nat)
    requires IsBase(b)
    ensures Eval(RevDigits(value, b, group, cnt), b.base) == value
    decreases value
  {
    if value == 0 {
      NoDigits(b, group, cnt);
    } else {
      hide RevDigits, IsBase, Eval;
      IsBaseFits(b);
      RevStep(value, b, group, cnt);
      DigitsEval(value / b.base, b, group, cnt + 1);
      DigitOf(b, value % b.base);
      var rest := RevDigits(value / b.base, b, group, cnt + 1);
      var digit := b.digits[value % b.base];
      EvalCons(digit, rest, b.base);
      EvalCons(44, [digit] + rest, b.base);
      var rev := RevDigits(value, b, group, cnt);
      assert rev == [digit] + rest || rev == [44] + ([digit] + rest);
    }
  }

  lemma EvalCons(ch: byte, rest: seq<byte>, base: nat)
    ensures Eval([ch] + rest, base) == if ch == 44 then Eval(rest, base) else DigitValue(ch) + base * Eval(rest, base)
  {
    assert ([ch] + rest)[1..] == rest;
  }

  lemma IsBaseFits(b: Base)
    requires IsBase(b)
    ensures b.base >= 8 && |b.digits| == b.base
  {
  }

  lemma DigitOf(b: Base, d: nat)
    requires IsBase(b) && d < b.base
    ensures d < |b.digits| && DigitValue(b.digits[d]) == d && b.digits[d] != 44
  {
  }

  lemma {:induction false} ZerosEval(rev: seq<byte>, n: nat, base: nat)
    ensures Eval(rev + Repeat(48, n), base) == Eval(rev, base)
  {
    var all := rev + Repeat(48, n);
    if rev != [] {
      assert all[0] == rev[0] && all[1..] == rev[1..] + Repeat(48, n);
      ZerosEval(rev[1..], n, base);
    } else if n > 0 {
      assert all[0] == 48 && all[1..] == [] + Repeat(48, n - 1);
      ZerosEval([], n - 1, base);
    }
  }

  /** The digits printed evaluate back to the value, and the text is at least as
      wide as asked for: exactly as wide as needed or asked for, unless both
      the - and the 0 flag are set, when the padding appears twice. */
  lemma FormattedLaw(value: nat, isSigned: bool, negative: bool, b: Base, c: Conversion)
    requires IsBase(b)
    ensures Eval(Digits(value, b, c), b.base) == value
    ensures var text := Formatted(value, isSigned, negative, b, c);
            var natural := Natural(value, isSigned, negative, b, c);
            && |text| >= c.width && |text| >= natural
            && (|text| == (if c.width > natural then c.width else natural)
                <==> !(c.minus && c.zero && c.width > natural))
  {
    var d := RevDigits(value, b, GroupOf(b, c), 0);
    DigitsEval(value, b, GroupOf(b, c), 0);
    var zeros := Zeros48(|d|, c.precision);
    ZerosEval(d, |zeros|, b.base);
    assert zeros == Repeat(48, |zeros|);
    ZerosEval(d + zeros, 1, b.base);
    assert Repeat(48, 1) == [48];
  }

  // ----- conversion specifications

  /** A format is a C string without its terminator; the arguments are machine
      words and strings. */
  datatype Arg = Num(bits: U64) | Str(bytes: seq<byte>)

  function At(f: seq<byte>, i: nat): byte { if i < |f| then f[i] else 0 }

  predicate IsDigit(ch: byte) { 48 <= ch <= 57 }

  /** va_arg; an argument that is missing or of the other kind counts as 0. */
  function FirstBits(args: seq<Arg>): U64 {
    if args != [] && args[0].Num? then args[0].bits else 0
  }

  function Rest(args: seq<Arg>): seq<Arg> { if args == [] then [] else args[1..] }

  /** Low bits of a word as an unsigned or signed number. */
  function LowBits(bits: U64, modulus: nat): (r: nat)
    requires modulus > 0
    ensures r < modulus && r <= bits
  {
    DivBounds(bits, modulus);
    bits % modulus
  }

  function Signed(u: nat, modulus: nat): int { if 2 * u < modulus then u else u - modulus }

  function FlagOf(ch: byte, c: Conversion): Conversion {
    if ch == 45 then c.(minus := true) else if ch == 43 then c.(plus := true) else if ch == 32 then c.(space := true)
    else if ch == 35 then c.(pound := true) else if ch == 48 then c.(zero := true) else if ch == 39
        then c.(group := true) else c
  }

  predicate IsFlag(ch: byte) { ch == 45 || ch == 43 || ch == 32 || ch == 35 || ch == 48 || ch == 39 }

  /** The flags from i on. */
  function Flags(f: seq<byte>, i: nat, c: Conversion): (Conversion, nat)
    decreases |f| - i
  {
    if IsFlag(At(f, i)) then Flags(f, i + 1, FlagOf(At(f, i), c)) else (c, i)
  }

  function Number(f: seq<byte>, i: nat, acc: nat): (nat, nat)
    decreases |f| - i
  {
    if IsDigit(At(f, i)) then Number(f, i + 1, acc * 10 + (At(f, i) - 48)) else (acc, i)
  }

  method ParseNumber(f: seq<byte>, i: nat) returns (n: nat, j: nat)
    ensures (n, j) == Number(f, i, 0)
  {
    n, j := 0, i;
    while IsDigit(At(f, j))
      invariant Number(f, j, n) == Number(f, i, 0)
      decreases |f| - j
    {
      n, j := n * 10 + (At(f, j) - 48), j + 1;
    }
  }

  const PLAIN: Conversion := Conversion(false, false, false, false, false, false, 0, -1, Int)

  /** parse_conversion, up to the character that names the conversion. */
  function Parsed(f: seq<byte>, i: nat, args: seq<Arg>): (Conversion, nat, seq<Arg>) {
    var (c0, i1) := Flags(f, i, PLAIN);
    var c1 := c0.(zero := c0.zero && !c0.minus, space := c0.space && !c0.plus);
    var (w, i2, args2) := WidthOf(f, i1, args);
    var c2 := if w < 0 then c1.(width := -w, minus := true) else c1.(width := w);
    var (prec, i3, args3) := PrecisionOf(f, i2, args2);
    var c3 := c2.(precision := prec, zero := c2.zero && prec < 0);
    var (size, i4) := SizeOf(f, i3);
    (c3.(size := size), i4, args3)
  }

  function WidthOf(f: seq<byte>, i: nat, args: seq<Arg>): (int, nat, seq<Arg>) {
    if At(f, i) == 42 then (ToI32(FirstBits(args)), i + 1, Rest(args))
    else (Number(f, i, 0).0, Number(f, i, 0).1, args)
  }

  function PrecisionOf(f: seq<byte>, i: nat, args: seq<Arg>): (int, nat, seq<Arg>) {
    if At(f, i) != 46 then (-1, i, args)
    else if At(f, i + 1) == 42 then
      (if ToI32(FirstBits(args)) < 0 then -1 else ToI32(FirstBits(args)), i + 2, Rest(args))
    else (Number(f, i + 1, 0).0, Number(f, i + 1, 0).1, args)
  }

  function SizeOf(f: seq<byte>, i: nat): (Size, nat) {
    var ch := At(f, i);
    if ch == 104 then (if At(f, i + 1) == 104 then (Char, i + 2) else (Short, i + 1))
    else if ch == 106 then (IntMax, i + 1)
    else if ch == 108 then (if At(f, i + 1) == 108 then (LongLong, i + 2) else (Long, i + 1))
    else if ch == 116 then (PtrDiff, i + 1)
    else if ch == 122 then (SizeT, i + 1)
    else (Int, i)
  }

  method ParseConversion(f: seq<byte>, i: nat, args: seq<Arg>) returns (c: Conversion, j: nat, rest: seq<Arg>)
    ensures (c, j, rest) == Parsed(f, i, args)
  {
    hide Flags, Number;
    c, j := ParseFlags(f, i);
    if c.minus {
      c := c.(zero := false);
    }
    if c.plus {
      c := c.(space := false);
    }
    var width;
    width, j, rest := ParseWidth(f, j, args);
    c := c.(width := width);
    if c.width < 0 {
      c := c.(width := -c.width, minus := true);
    }
    var precision;
    precision, j, rest := ParsePrecision(f, j, rest);
    c := c.(precision := precision);
    if c.precision >= 0 {
      c := c.(zero := false);
    }
    var (size, k) := SizeOf(f, j);
    c, j := c.(size := size), k;
  }

  method ParseFlags(f: seq<byte>, i: nat) returns (c: Conversion, j: nat)
    ensures (c, j) == Flags(f, i, PLAIN)
  {
    c, j := PLAIN, i;
    while IsFlag(At(f, j))
      invariant Flags(f, j, c) == Flags(f, i, PLAIN)
      decreases |f| - j
    {
      c, j := FlagOf(At(f, j), c), j + 1;
    }
  }

  method ParseWidth(f: seq<byte>, i: nat, args: seq<Arg>) returns (width: int, j: nat, rest: seq<Arg>)
    ensures (width, j, rest) == WidthOf(f, i, args)
  {
    if At(f, i) == 42 {
      return ToI32(FirstBits(args)), i + 1, Rest(args);
    }
    width, j := ParseNumber(f, i);
    rest := args;
  }

  method ParsePrecision(f: seq<byte>, i: nat, args: seq<Arg>) returns (precision: int, j: nat, rest: seq<Arg>)
    ensures (precision, j, rest) == PrecisionOf(f, i, args)
  {
    precision, j, rest := -1, i, args;
    if At(f, i) == 46 {
      j := j + 1;
      if At(f, j) == 42 {
        j := j + 1;
        precision, rest := ToI32(FirstBits(args)), Rest(args);
      } else {
        precision, j := ParseNumber(f, j);
      }
      if precision < 0 {
        precision := -1;
      }
    }
  }

  lemma {:induction false} FlagsAdvance(f: seq<byte>, i: nat, c: Conversion)
    requires i <= |f|
    ensures i <= Flags(f, i, c).1 <= |f| && !IsFlag(At(f, Flags(f, i, c).1))
    ensures var r := Flags(f, i, c).0; r.width == c.width && r.precision == c.precision && r.size == c.size
    decreases |f| - i
  {
    if IsFlag(At(f, i)) {
      FlagsAdvance(f, i + 1, FlagOf(At(f, i), c));
    }
  }

  /** A flag is on when it was before or its character is among the flags. */
  lemma {:induction false} FlagsSeen(f: seq<byte>, i: nat, c: Conversion)
    ensures var (r, j) := Flags(f, i, c);
            && (r.zero <==> c.zero || exists k :: i <= k < j && At(f, k) == 48)
            && (r.minus <==> c.minus || exists k :: i <= k < j && At(f, k) == 45)
    decreases |f| - i
  {
    if IsFlag(At(f, i)) {
      FlagsSeen(f, i + 1, FlagOf(At(f, i), c));
      FlagsReach(f, i + 1, FlagOf(At(f, i), c));
    }
  }

  lemma {:induction false} FlagsReach(f: seq<byte>, i: nat, c: Conversion)
    ensures i <= Flags(f, i, c).1
    decreases |f| - i
  {
    if IsFlag(At(f, i)) {
      FlagsReach(f, i + 1, FlagOf(At(f, i), c));
    }
  }

  lemma {:induction false} NumberAdvances(f: seq<byte>, i: nat, acc: nat)
    requires i <= |f|
    ensures i <= Number(f, i, acc).1 <= |f| && Number(f, i, acc).0 >= acc
    decreases |f| - i
  {
    if IsDigit(At(f, i)) {
      NumberAdvances(f, i + 1, acc * 10 + (At(f, i) - 48));
    }
  }

  /** A parsed conversion never asks for + and space, or for 0 and a precision. */
  lemma ParsedLaw(f: seq<byte>, i: nat, args: seq<Arg>)
    requires i <= |f|
    ensures var (c, j, rest) := Parsed(f, i, args);
            && i <= j <= |f| && c.width >= 0 && c.precision >= -1
            && !(c.plus && c.space) && !(c.zero && c.precision >= 0)
  {
    FlagsAdvance(f, i, PLAIN);
    var i1 := Flags(f, i, PLAIN).1;
    NumberAdvances(f, i1, 0);
    var (w, i2, args2) := WidthOf(f, i1, args);
    if At(f, i2) == 46 {
      NumberAdvances(f, i2 + 1, 0);
    }
  }

  /** It asks for - and 0 at once exactly when 0 is among the flags and - is not,
      the width is a negative argument and there is no precision, or a negative
      one; FormattedLaw says what that does. */
  lemma BothFlags(f: seq<byte>, i: nat, args: seq<Arg>)
    requires i <= |f|
    ensures var (c, j, rest) := Parsed(f, i, args); var i1 := Flags(f, i, PLAIN).1;
            c.minus && c.zero <==>
              && (exists k :: i <= k < i1 && At(f, k) == 48) && (forall k :: i <= k < i1 ==> At(f, k) != 45)
              && At(f, i1) == 42 && ToI32(FirstBits(args)) < 0
              && (At(f, i1 + 1) == 46 ==> At(f, i1 + 2) == 42 && ToI32(FirstBits(Rest(args))) < 0)
  {
    FlagsSeen(f, i, PLAIN);
    hide Flags, Number;
    FlagsAdvance(f, i, PLAIN);
    NumberAdvances(f, Flags(f, i, PLAIN).1, 0);
  }

  /** An example: "%0*d" with the width -5 and the value 7. */
  lemma PaddedTwice()
    ensures var f := [48, 42, 100]; var (c, j, rest) := Parsed(f, 0, [Num(0xffff_fffb), Num(7)]);
            j == 2 && c.minus && c.zero && c.width == 5 && |Formatted(7, true, false, Decimal(), c)| == 9
  {
    var f := [48, 42, 100];
    assert At(f, 0) == 48 && At(f, 1) == 42 && At(f, 2) == 100;
    assert Flags(f, 0, PLAIN) == Flags(f, 1, PLAIN.(zero := true)) == (PLAIN.(zero := true), 1);
    assert ToU32(0xffff_fffb) == 0xffff_fffb;
    var c := Parsed(f, 0, [Num(0xffff_fffb), Num(7)]).0;
    RevStep(7, Decimal(), 0, 0);
    NoDigits(Decimal(), 0, 1);
    assert Digits(7, Decimal(), c) == [55];
  }

  // ----- __vprintf

  /** The integer that va_arg and the conversions after it yield: as many low
      bits as the type has. */
  function UnsignedArg(size: Size, bits: U64): U64 {
    match size
    case Char => LowBits(bits, 0x100)
    case Short => LowBits(bits, 0x1_0000)
    case IntMax => bits
    case LongLong => bits
    case _ => LowBits(bits, 0x1_0000_0000)
  }

  function SignedArg(size: Size, bits: U64): I64 {
    match size
    case Char => Signed(LowBits(bits, 0x100), 0x100)
    case Short => Signed(LowBits(bits, 0x1_0000), 0x1_0000)
    case IntMax => Signed(bits, 0x1_0000_0000_0000_0000)
    case LongLong => Signed(bits, 0x1_0000_0000_0000_0000)
    case _ => Signed(LowBits(bits, 0x1_0000_0000), 0x1_0000_0000)
  }

  function FormattedString(text: seq<byte>, c: Conversion): seq<byte> {
    var pad := PadCount(c.width, |text|);
    (if c.minus then [] else Repeat(32, pad)) + text + (if c.minus then Repeat(32, pad) else [])
  }

  /** The string argument up to the precision; "(null)" for a null pointer. */
  function StringArg(args: seq<Arg>, precision: int): seq<byte> {
    var text := if args != [] && args[0].Str? then args[0].bytes else [40, 110, 117, 108, 108, 41];
    if 0 <= precision < |text| then text[..precision] else text
  }

  /** "<<no %" and the character, then " in kernel>>" or " conversion>>". */
  function Complaint(ch: byte): seq<byte> {
    [60, 60, 110, 111, 32, 37, ch]
    + (if ch == 102 || ch == 101 || ch == 69 || ch == 103 || ch == 71 || ch == 110
       then [32, 105, 110, 32, 107, 101, 114, 110, 101, 108, 62, 62]
       else [32, 99, 111, 110, 118, 101, 114, 115, 105, 111, 110, 62, 62])
  }

  function UnsignedBase(ch: byte): Base {
    if ch == 111 then Octal() else if ch == 120 then Hexadecimal(false) else if ch == 88 then Hexadecimal(true)
        else Decimal()
  }

  predicate IsUnsigned(ch: byte) { ch == 111 || ch == 117 || ch == 120 || ch == 88 }

  /** The text of one conversion, and the arguments left over. */
  function Converted(ch: byte, c: Conversion, args: seq<Arg>): (seq<byte>, seq<Arg>) {
    if ch == 100 || ch == 105 then
      var v := SignedArg(c.size, FirstBits(args));
      (Formatted(Abs(v), true, v < 0, Decimal(), c), Rest(args))
    else if IsUnsigned(ch) then (Formatted(UnsignedArg(c.size, FirstBits(args)), false, false, UnsignedBase(ch), c),
        Rest(args))
    else if ch == 99 then (FormattedString([LowBits(FirstBits(args), 0x100)], c), Rest(args))
    else if ch == 115 then (FormattedString(StringArg(args, c.precision), c), Rest(args))
    else if ch == 112 then (Formatted(UnsignedArg(Int, FirstBits(args)), false, false, Hexadecimal(false),
        PointerFlags(c)), Rest(args))
    else (Complaint(ch), args)
  }

  function PointerFlags(c: Conversion): Conversion {
    Conversion(false, false, false, true, false, false, c.width, c.precision, c.size)
  }

  /** The output for a format from i on. A format that ends inside a conversion
      makes the C code read past it; here the output just ends. */
  function Printed(f: seq<byte>, i: nat, args: seq<Arg>): seq<byte>
    decreases |f| - i
  {
    if i >= |f| then []
    else if f[i] != 37 then [f[i]] + Printed(f, i + 1, args)
    else if At(f, i + 1) == 37 then [37] + Printed(f, i + 2, args)
    else
      ParsedLaw(f, i + 1, args);
      var (c, j, rest) := Parsed(f, i + 1, args);
      if j >= |f| then []
      else
        var (text, rest2) := Converted(At(f, j), c, rest);
        text + Printed(f, j + 1, rest2)
  }

  method FormatString(text: seq<byte>, c: Conversion, sink: Sink)
    requires sink.Valid()
    modifies sink`p, sink`length, sink`printed, sink.buffer
    ensures sink.Valid() && sink.printed == old(sink.printed) + FormattedString(text, c)
  {
    ghost var out := sink.printed;
    var pad := PadCount(c.width, |text|);
    if c.width > |text| && !c.minus {
      sink.Dup(32, c.width - |text|);
    }
    ghost var a1 := out + if c.minus then [] else Repeat(32, pad);
    assert sink.printed == a1;
    for i := 0 to |text|
      invariant sink.Valid() && sink.printed == a1 + text[..i]
    {
      sink.Put(text[i]);
      assert text[..i + 1] == text[..i] + [text[i]];
    }
    assert text[..|text|] == text;
    if c.width > |text| && c.minus {
      sink.Dup(32, c.width - |text|);
    }
    assert sink.printed == a1 + text + (if c.minus then Repeat(32, pad) else []);
  }

  method Convert(ch: byte, c: Conversion, args: seq<Arg>, sink: Sink) returns (rest: seq<Arg>)
    requires sink.Valid()
    modifies sink`p, sink`length, sink`printed, sink.buffer
    ensures sink.Valid() && rest == Converted(ch, c, args).1
            && sink.printed == old(sink.printed) + Converted(ch, c, args).0
  {
    hide Formatted, FormattedString, StringArg;
    rest := args;
    if ch == 100 || ch == 105 {
      var v := SignedArg(c.size, FirstBits(args));
      FormatInteger(Abs(v), true, v < 0, Decimal(), c, sink);
      rest := Rest(args);
    } else if IsUnsigned(ch) {
      FormatInteger(UnsignedArg(c.size, FirstBits(args)), false, false, UnsignedBase(ch), c, sink);
      rest := Rest(args);
    } else if ch == 99 {
      FormatString([LowBits(FirstBits(args), 0x100)], c, sink);
      rest := Rest(args);
    } else if ch == 115 {
      FormatString(StringArg(args, c.precision), c, sink);
      rest := Rest(args);
    } else if ch == 112 {
      FormatInteger(UnsignedArg(Int, FirstBits(args)), false, false, Hexadecimal(false), PointerFlags(c), sink);
      rest := Rest(args);
    } else {
      PutAll(Complaint(ch), sink);
    }
  }

  method PutAll(text: seq<byte>, sink: Sink)
    requires sink.Valid()
    modifies sink`p, sink`length, sink`printed, sink.buffer
    ensures sink.Valid() && sink.printed == old(sink.printed) + text
  {
    for i := 0 to |text|
      invariant sink.Valid() && sink.printed == old(sink.printed) + text[..i]
    {
      sink.Put(text[i]);
      assert text[..i + 1] == text[..i] + [text[i]];
    }
    assert text[..|text|] == text;
  }

  method Vprintf(f: seq<byte>, args: seq<Arg>, sink: Sink)
    requires sink.Valid()
    modifies sink`p, sink`length, sink`printed, sink.buffer
    ensures sink.Valid() && sink.printed == old(sink.printed) + Printed(f, 0, args)
  {
    hide Parsed, Converted;
    ghost var out := sink.printed;
    var i, left := 0, args;
    while i < |f|
      invariant sink.Valid() && sink.printed + Printed(f, i, left) == out + Printed(f, 0, args)
      decreases |f| - i
    {
      ghost var before := sink.printed;
      if f[i] != 37 {
        sink.Put(f[i]);
        Assoc(before, [f[i]], Printed(f, i + 1, left));
        i := i + 1;
      } else if At(f, i + 1) == 37 {
        sink.Put(37);
        Assoc(before, [37], Printed(f, i + 2, left));
        i := i + 2;
      } else {
        ParsedLaw(f, i + 1, left);
        var c, j, rest := ParseConversion(f, i + 1, left);
        if j >= |f| {
          assert before + [] == before;
          break;
        }
        ghost var text := Converted(At(f, j), c, rest).0;
        left := Convert(At(f, j), c, rest, sink);
        Assoc(before, text, Printed(f, j + 1, left));
        i := j + 1;
      }
    }
  }

  lemma Assoc(a: seq<byte>, b: seq<byte>, c: seq<byte>)
    ensures a + b + c == a + (b + c)
  {
  }

  /** vsnprintf: the buffer gets as much of the output as fits, and a null byte
      after it; no other byte changes; the full length is returned. The buffer size
      and that length must fit an int. */
  method Vsnprintf(buffer: array<byte>, start: nat, bufSize: nat, f: seq<byte>, args: seq<Arg>) returns (length: nat)
    requires start + bufSize <= buffer.Length && bufSize <= 0x8000_0000 && |Printed(f, 0, args)| < 0x8000_0000
    modifies buffer
    ensures length == |Printed(f, 0, args)|
    ensures buffer[..] == if bufSize == 0 then old(buffer[..])
                          else Overwrite(old(buffer[..]), start, Fitting(Printed(f, 0, args), bufSize - 1) + [0])
  {
    ghost var out, was := Printed(f, 0, args), buffer[..];
    var sink := new Sink(buffer, start, bufSize);
    Vprintf(f, args, sink);
    hide Printed, Overwrite, Fitting;
    assert [] + out == out;
    ghost var stored := Fitting(out, sink.maxLength);
    assert buffer[..] == Overwrite(was, start, stored);
    if bufSize > 0 {
      OneMore(was, start, stored, 0);
      buffer[sink.p] := 0;
      assert buffer[..] == Overwrite(was, start, stored)[start + |stored| := 0];
    } else {
      Nothing(was, start, stored);
    }
    length := sink.length;
  }

  lemma OneMore(s: seq<byte>, i: nat, t: seq<byte>, ch: byte)
    requires i + |t| < |s|
    ensures Overwrite(s, i, t)[i + |t| := ch] == Overwrite(s, i, t + [ch])
  {
  }

  lemma Nothing(s: seq<byte>, i: nat, t: seq<byte>)
    requires i <= |s| && t == []
    ensures Overwrite(s, i, t) == s
  {
  }

  /** The front of the output that fits. */
  function Fitting(out: seq<byte>, n: nat): (r: seq<byte>)
    ensures |r| <= n
  {
    if |out| <= n then out else out[..n]
  }
}
