/** Formatted output (stdio.c) read back: what each conversion says to a reader
    who does not know how it was made. */
module Reading {
  import opened Arithmetic
  import opened Bytes
  import opened Bitmap
  import opened Stdio

  // ----- a reader of integers

  function Unspaced(t: seq<byte>): seq<byte> {
    if t != [] && t[0] == 32 then Unspaced(t[1..]) else t
  }

  /** The part before the first space. */
  function Word(t: seq<byte>): (w: seq<byte>)
    ensures |w| <= |t|
  {
    if t == [] || t[0] == 32 then [] else [t[0]] + Word(t[1..])
  }

  predicate Spaces(t: seq<byte>) {
    forall k :: 0 <= k < |t| ==> t[k] == 32
  }

  /** A digit of the base, with letters of one case only. */
  predicate IsDigitOf(ch: byte, base: nat, upper: bool) {
    || (48 <= ch <= 57 && ch - 48 < base)
    || (base == 16 && if upper then 65 <= ch <= 70 else 97 <= ch <= 102)
  }

  /** The number that digits stand for, the first one first; commas are skipped. */
  function NumberIn(digits: seq<byte>, base: nat): nat {
    if digits == [] then 0
    else
      var front, last := digits[..|digits| - 1], digits[|digits| - 1];
      if last == 44 then NumberIn(front, base) else NumberIn(front, base) * base + DigitValue(last)
  }

  datatype Reading = Reading(minus: bool, plus: bool, prefix: bool, value: nat)

  /** Spaces, a sign, 0x or 0X, digits and commas, and spaces again; all of them
      optional, and nothing else. */
  function Read(t: seq<byte>, base: nat, upper: bool): Option<Reading> {
    var t1 := Unspaced(t);
    if t1 != [] && t1[0] == 45 then ReadPrefixed(true, false, t1[1..], base, upper)
    else if t1 != [] && t1[0] == 43 then ReadPrefixed(false, true, t1[1..], base, upper)
    else ReadPrefixed(false, false, t1, base, upper)
  }

  function ReadPrefixed(minus: bool, plus: bool, t: seq<byte>, base: nat, upper: bool): Option<Reading> {
    if |t| >= 2 && t[0] == 48 && t[1] == if upper then 88 else 120 then
      ReadDigits(minus, plus, true, t[2..], base, upper)
    else ReadDigits(minus, plus, false, t, base, upper)
  }

  function ReadDigits(minus: bool, plus: bool, prefix: bool, t: seq<byte>, base: nat, upper: bool): Option<Reading> {
    var digits := Word(t);
    if Spaces(t[|digits|..]) && Clean(digits, base, upper)
    then Some(Reading(minus, plus, prefix, NumberIn(digits, base)))
    else None
  }

  /** Nothing but digits of the base and commas. */
  predicate Clean(t: seq<byte>, base: nat, upper: bool) {
    forall k :: 0 <= k < |t| ==> t[k] == 44 || IsDigitOf(t[k], base, upper)
  }

  // ----- digits

  predicate Upper(b: Base) { b.x == 88 }

  lemma {:induction false} RevDigitsClean(value: nat, b: Base, group: nat, cnt: nat)
    requires IsBase(b)
    ensures Clean(RevDigits(value, b, group, cnt), b.base, Upper(b))
    decreases value
  {
    IsBaseFits(b);
    if value == 0 {
      NoDigits(b, group, cnt);
    } else {
      RevStep(value, b, group, cnt);
      RevDigitsClean(value / b.base, b, group, cnt + 1);
      DigitClean(b, value % b.base);
      hide RevDigits, IsBase, IsDigitOf, Upper;
      var comma := if group > 0 && cnt > 0 && cnt % group == 0 then [44] else [];
      CleanJoin(comma + [b.digits[value % b.base]], RevDigits(value / b.base, b, group, cnt + 1), b.base, Upper(b));
    }
  }

  lemma DigitClean(b: Base, d: nat)
    requires IsBase(b) && d < b.base
    ensures d < |b.digits| && IsDigitOf(b.digits[d], b.base, Upper(b))
  {
  }

  lemma CleanJoin(t: seq<byte>, u: seq<byte>, base: nat, upper: bool)
    ensures Clean(t, base, upper) && Clean(u, base, upper) ==> Clean(t + u, base, upper)
  {
    hide IsDigitOf;
  }

  lemma ZerosClean(n: nat, base: nat, upper: bool)
    requires base > 0
    ensures Clean(Repeat(48, n), base, upper)
  {
  }

  lemma CleanReversed(t: seq<byte>, base: nat, upper: bool)
    requires Clean(t, base, upper)
    ensures Clean(Reversed(t), base, upper)
  {
    hide IsDigitOf;
  }

  lemma DigitsClean(value: nat, b: Base, c: Conversion)
    requires IsBase(b)
    ensures Clean(Reversed(Digits(value, b, c)), b.base, Upper(b))
  {
    IsBaseFits(b);
    var d := RevDigits(value, b, GroupOf(b, c), 0);
    var zeros := Zeros48(|d|, c.precision);
    RevDigitsClean(value, b, GroupOf(b, c), 0);
    ZerosClean(|zeros|, b.base, Upper(b));
    assert zeros == Repeat(48, |zeros|);
    CleanJoin(d, zeros, b.base, Upper(b));
    ZerosClean(1, b.base, Upper(b));
    assert Repeat(48, 1) == [48];
    CleanJoin(d + zeros, [48], b.base, Upper(b));
    CleanReversed(Digits(value, b, c), b.base, Upper(b));
  }

  /** Read from the front, reversed digits have the value that they evaluate to. */
  lemma {:induction false} ReversedValue(rev: seq<byte>, base: nat)
    ensures NumberIn(Reversed(rev), base) == Eval(rev, base)
  {
    if rev != [] {
      ReversedValue(rev[1..], base);
      assert Reversed(rev)[..|rev| - 1] == Reversed(rev[1..]);
      assert Reversed(rev)[|rev| - 1] == rev[0];
    }
  }

  lemma {:induction false} ZerosFirst(n: nat, t: seq<byte>, base: nat)
    ensures NumberIn(Repeat(48, n) + t, base) == NumberIn(t, base)
  {
    var all := Repeat(48, n) + t;
    if t != [] {
      assert all[..|all| - 1] == Repeat(48, n) + t[..|t| - 1];
      ZerosFirst(n, t[..|t| - 1], base);
    } else if n > 0 {
      assert all[..|all| - 1] == Repeat(48, n - 1) + t;
      ZerosFirst(n - 1, t, base);
    }
  }

  // ----- the parts of the text

  lemma {:induction false} SkipsSpaces(n: nat, t: seq<byte>)
    ensures Unspaced(Repeat(32, n) + t) == Unspaced(t)
  {
    var all := Repeat(32, n) + t;
    if n > 0 {
      assert all[1..] == Repeat(32, n - 1) + t;
      SkipsSpaces(n - 1, t);
    } else {
      assert all == t;
    }
  }

  lemma {:induction false} WordIs(t: seq<byte>, n: nat)
    requires forall k :: 0 <= k < |t| ==> t[k] != 32
    ensures Word(t + Repeat(32, n)) == t
  {
    var all := t + Repeat(32, n);
    if t != [] {
      assert all[1..] == t[1..] + Repeat(32, n);
      WordIs(t[1..], n);
    }
  }

  /** After spaces, sign and prefix. */
  lemma ReadsTail(digits: seq<byte>, n: nat, base: nat, upper: bool)
    requires Clean(digits, base, upper)
    ensures var t := digits + Repeat(32, n);
            && Word(t) == digits && Spaces(t[|digits|..])
            && (t == [] || t[0] == 32 || t[0] == 44 || IsDigitOf(t[0], base, upper))
            && (|t| >= 2 ==> t[1] == 32 || t[1] == 44 || IsDigitOf(t[1], base, upper))
  {
    assert forall k :: 0 <= k < |digits| ==> digits[k] != 32;
    WordIs(digits, n);
    var t := digits + Repeat(32, n);
    assert t[|digits|..] == Repeat(32, n);
  }

  /** The whole text: spaces, sign, prefix, zeros, digits, spaces. */
  function Composed(lead: nat, sign: byte, x: byte, digits: seq<byte>, trail: nat): seq<byte> {
    Repeat(32, lead) + (Opt(sign) + ((if x != 0 then [48, x] else []) + (digits + Repeat(32, trail))))
  }

  lemma ReadsComposed(lead: nat, sign: byte, x: byte, digits: seq<byte>, trail: nat, base: nat, upper: bool)
    requires sign == 0 || sign == 32 || sign == 43 || sign == 45
    requires x == 0 || x == if upper then 88 else 120
    requires Clean(digits, base, upper)
    ensures Read(Composed(lead, sign, x, digits, trail), base, upper)
            == Some(Reading(sign == 45, sign == 43, x != 0, NumberIn(digits, base)))
  {
    hide Word, NumberIn, Repeat, Unspaced, Clean, ReadPrefixed;
    var t2 := (if x != 0 then [48, x] else []) + (digits + Repeat(32, trail));
    SkipsSpaces(lead, Opt(sign) + t2);
    AfterSign(sign, x, digits, trail, base, upper);
    NotSign(digits, trail, base, upper);
    assert x != 0 ==> t2[0] == 48;
    assert ([sign] + t2)[1..] == t2 && ([sign] + t2)[0] == sign;
    ReadsPrefix(sign == 45, sign == 43, x, digits, trail, base, upper);
    if digits == [] && x == 0 {
      ReadsPrefix(sign == 45, sign == 43, 0, [], 0, base, upper);
      assert [] + ([] + Repeat(32, 0)) == [];
    }
  }

  lemma ReadsPrefix(minus: bool, plus: bool, x: byte, digits: seq<byte>, trail: nat, base: nat, upper: bool)
    requires x == 0 || x == if upper then 88 else 120
    requires Clean(digits, base, upper)
    ensures ReadPrefixed(minus, plus, (if x != 0 then [48, x] else []) + (digits + Repeat(32, trail)), base, upper)
            == Some(Reading(minus, plus, x != 0, NumberIn(digits, base)))
  {
    hide Word, NumberIn, Repeat, Clean;
    var body := digits + Repeat(32, trail);
    var t := (if x != 0 then [48, x] else []) + body;
    ReadsTail(digits, trail, base, upper);
    NotX(digits, trail, base, upper);
    assert x != 0 ==> t[0] == 48 && t[1] == x && t[2..] == body;
    assert x == 0 ==> t == body;
  }

  /** Digits do not begin like a prefix. */
  lemma NotX(digits: seq<byte>, n: nat, base: nat, upper: bool)
    requires Clean(digits, base, upper)
    ensures var t := digits + Repeat(32, n); |t| >= 2 ==> t[1] != 88 && t[1] != 120
  {
  }

  lemma NotSign(digits: seq<byte>, n: nat, base: nat, upper: bool)
    requires Clean(digits, base, upper)
    ensures var t := digits + Repeat(32, n); |t| >= 1 ==> t[0] != 43 && t[0] != 45
  {
  }

  lemma NoDigitsLeft(n: nat)
    ensures Unspaced([] + Repeat(32, n)) == [] && Word([]) == []
  {
    SkipsSpaces(n, []);
    assert Repeat(32, n) + [] == [] + Repeat(32, n);
  }

  /** What is left without leading spaces. */
  lemma AfterSign(sign: byte, x: byte, digits: seq<byte>, n: nat, base: nat, upper: bool)
    requires (sign == 0 || sign == 32 || sign == 43 || sign == 45) && x != 32 && Clean(digits, base, upper)
    ensures var t2 := (if x != 0 then [48, x] else []) + (digits + Repeat(32, n));
            Unspaced(Opt(sign) + t2) ==
              if sign == 43 || sign == 45 then [sign] + t2 else if digits == [] && x == 0 then [] else t2
  {
    var t2 := (if x != 0 then [48, x] else []) + (digits + Repeat(32, n));
    assert sign == 0 ==> Opt(sign) + t2 == t2;
    assert sign == 32 ==> (Opt(sign) + t2)[1..] == t2;
    assert sign != 0 ==> (Opt(sign) + t2)[0] == sign;
    if digits == [] && x == 0 {
      NoDigitsLeft(n);
      assert t2 == [] + Repeat(32, n);
    } else {
      assert t2[0] != 32;
    }
  }

  // ----- the reading law

  lemma FormattedIsComposed(value: nat, isSigned: bool, negative: bool, b: Base, c: Conversion)
    requires IsBase(b)
    ensures var pad := PadCount(c.width, Natural(value, isSigned, negative, b, c));
            Formatted(value, isSigned, negative, b, c)
            == Composed(if !c.minus && !c.zero then pad else 0, SignOf(isSigned, negative, c), XOf(value, b, c),
                        Repeat(48, if c.zero then pad else 0) + Reversed(Digits(value, b, c)), if c.minus then pad
                            else 0)
  {
    IsBaseFits(b);
    hide Digits, Natural, SignOf, XOf, IsBase, Reversed, PadCount;
    var pad := PadCount(c.width, Natural(value, isSigned, negative, b, c));
    var sign, x, d := SignOf(isSigned, negative, c), XOf(value, b, c), Reversed(Digits(value, b, c));
    var lead := Repeat(32, if !c.minus && !c.zero then pad else 0);
    var zeros := Repeat(48, if c.zero then pad else 0);
    var trail := Repeat(32, if c.minus then pad else 0);
    var prefix := if x != 0 then [48, x] else [];
    assert Front(c, sign, x, pad) == lead + Opt(sign) + prefix + zeros;
    Nest(lead, Opt(sign), prefix, zeros, d, trail);
  }

  lemma Nest(a: seq<byte>, b: seq<byte>, c: seq<byte>, d: seq<byte>, e: seq<byte>, f: seq<byte>)
    ensures a + b + c + d + e + f == a + (b + (c + ((d + e) + f)))
  {
  }

  /** Whatever the base, the flags, the width and the precision, the text of an
      integer reads back as it: the value; a minus exactly for a negative
      signed one; a plus exactly for another signed one with the + flag; and
      a prefix exactly for one that is not 0, in base 16, with the # flag. */
  lemma ReadsBack(value: nat, isSigned: bool, negative: bool, b: Base, c: Conversion)
    requires IsBase(b)
    ensures Read(Formatted(value, isSigned, negative, b, c), b.base, b == Hexadecimal(true))
            == Some(Reading(isSigned && negative, isSigned && !negative && c.plus, c.pound && value != 0
                && b.base == 16, value))
  {
    var pad := PadCount(c.width, Natural(value, isSigned, negative, b, c));
    var sign, x, d := SignOf(isSigned, negative, c), XOf(value, b, c), Reversed(Digits(value, b, c));
    var zeros := if c.zero then pad else 0;
    Cases(value, isSigned, negative, b, c);
    FormattedIsComposed(value, isSigned, negative, b, c);
    DigitsClean(value, b, c);
    ZerosClean(zeros, b.base, Upper(b));
    CleanJoin(Repeat(48, zeros), d, b.base, Upper(b));
    FormattedLaw(value, isSigned, negative, b, c);
    ReversedValue(Digits(value, b, c), b.base);
    ZerosFirst(zeros, d, b.base);
    hide *;
    ReadsComposed(if !c.minus && !c.zero then pad else 0, sign, x, Repeat(48, zeros) + d, if c.minus then pad else 0,
                  b.base, Upper(b));
  }

  lemma Cases(value: nat, isSigned: bool, negative: bool, b: Base, c: Conversion)
    requires IsBase(b)
    ensures var sign, x := SignOf(isSigned, negative, c), XOf(value, b, c);
            && (sign == 0 || sign == 32 || sign == 43 || sign == 45)
            && (x == 0 || x == if Upper(b) then 88 else 120)
            && (sign == 45 <==> isSigned && negative) && (sign == 43 <==> isSigned && !negative && c.plus)
            && (x != 0 <==> c.pound && value != 0 && b.base == 16)
            && (Upper(b) <==> b == Hexadecimal(true)) && b.base > 0
  {
  }

  // ----- arguments

  /** v is the word cut to the given number of values, signed or not. */
  ghost predicate CutTo(v: int, bits: U64, modulus: nat, signed: bool) {
    && modulus > 0 && (exists k: int :: v == bits - k * modulus)
    && if signed then 0 <= 2 * v + modulus < 2 * modulus else 0 <= v < modulus
  }

  /** How many values an argument of each size has. */
  function Values(size: Size): nat {
    match size
    case Char => 0x100
    case Short => 0x1_0000
    case IntMax => 0x1_0000_0000_0000_0000
    case LongLong => 0x1_0000_0000_0000_0000
    case _ => 0x1_0000_0000
  }

  lemma ArgumentsCut(size: Size, bits: U64)
    ensures CutTo(SignedArg(size, bits), bits, Values(size), true)
    ensures CutTo(UnsignedArg(size, bits), bits, Values(size), false)
  {
    var m := Values(size);
    DivBounds(bits, m);
    var u := LowBits(bits, m);
    if m == 0x1_0000_0000_0000_0000 {
      CutOff(bits, m, bits, 0);
    } else {
      CutOff(bits, m, u, bits / m);
    }
  }

  lemma CutOff(bits: U64, m: nat, u: nat, k: int)
    requires m > 0 && u < m && bits == k * m + u
    ensures CutTo(u, bits, m, false) && CutTo(Signed(u, m), bits, m, true)
  {
    assert (k + 1) * m == k * m + m;
    assert u == bits - k * m;
    if 2 * u >= m {
      assert Signed(u, m) == bits - (k + 1) * m;
    } else {
      assert Signed(u, m) == bits - k * m;
    }
  }

  // ----- conversions

  function BaseOf(ch: byte): nat { if ch == 111 then 8 else if ch == 120 || ch == 88 || ch == 112 then 16 else 10 }

  /** %d and %i print the argument as a signed number in base 10. */
  lemma SignedReads(ch: byte, c: Conversion, args: seq<Arg>)
    requires ch == 100 || ch == 105
    ensures var (text, rest) := Converted(ch, c, args);
            exists v :: CutTo(v, FirstBits(args), Values(c.size), true) && rest == Rest(args)
                     && Read(text, 10, false) == Some(Reading(v < 0, v >= 0 && c.plus, false, Abs(v)))
  {
    hide Formatted, Read, CutTo;
    var v := SignedArg(c.size, FirstBits(args));
    ArgumentsCut(c.size, FirstBits(args));
    ReadsBack(Abs(v), true, v < 0, Decimal(), c);
    NotUpper();
  }

  lemma NotUpper()
    ensures Decimal() != Hexadecimal(true) && Octal() != Hexadecimal(true) && Hexadecimal(false) != Hexadecimal(true)
  {
  }

  /** %o, %u, %x and %X print it as an unsigned number in base 8, 10 or 16. */
  lemma UnsignedReads(ch: byte, c: Conversion, args: seq<Arg>)
    requires ch == 111 || ch == 117 || ch == 120 || ch == 88
    ensures var (text, rest) := Converted(ch, c, args);
            exists v: nat :: CutTo(v, FirstBits(args), Values(c.size), false) && rest == Rest(args)
                     && Read(text, BaseOf(ch), ch == 88)
                        == Some(Reading(false, false, c.pound && v != 0 && BaseOf(ch) == 16, v))
  {
    hide Formatted, Read, CutTo;
    var v := UnsignedArg(c.size, FirstBits(args));
    ArgumentsCut(c.size, FirstBits(args));
    ReadsBack(v, false, false, UnsignedBase(ch), c);
    NotUpper();
  }

  /** %p prints a pointer in base 16, with a prefix unless it is null. */
  lemma PointerReads(c: Conversion, args: seq<Arg>)
    ensures var (text, rest) := Converted(112, c, args);
            exists v: nat :: CutTo(v, FirstBits(args), 0x1_0000_0000, false) && rest == Rest(args)
                     && Read(text, 16, false) == Some(Reading(false, false, v != 0, v))
  {
    hide Formatted, Read, CutTo;
    var v := UnsignedArg(Int, FirstBits(args));
    ArgumentsCut(Int, FirstBits(args));
    ReadsBack(v, false, false, Hexadecimal(false), PointerFlags(c));
    NotUpper();
  }

  /** %s prints the string, or (null), up to its precision and %c a character,
      with spaces on the side that the - flag says, up to the width. */
  lemma TextReads(ch: byte, c: Conversion, args: seq<Arg>)
    requires ch == 99 || ch == 115
    ensures var (text, rest) := Converted(ch, c, args);
            exists word, pad: nat :: rest == Rest(args) && IsText(word, ch, c, args) && |text| == Wider(|word|, c.width)
                      && text == (if c.minus then word + Repeat(32, pad) else Repeat(32, pad) + word)
  {
    var word := if ch == 99 then [LowBits(FirstBits(args), 0x100)] else StringArg(args, c.precision);
    var pad := PadCount(c.width, |word|);
    var text := Converted(ch, c, args).0;
    assert text == (if c.minus then [] else Repeat(32, pad)) + word + (if c.minus then Repeat(32, pad) else []);
    assert text == if c.minus then word + Repeat(32, pad) else Repeat(32, pad) + word;
    ArgumentsCut(Char, FirstBits(args));
    var whole := if args != [] && args[0].Str? then args[0].bytes else [40, 110, 117, 108, 108, 41];
    assert whole[..|whole|] == whole;
    assert IsText(word, ch, c, args);
  }

  function Wider(n: int, width: int): int { if width > n then width else n }

  /** The characters that a %c or %s is about. */
  ghost predicate IsText(word: seq<byte>, ch: byte, c: Conversion, args: seq<Arg>) {
    if ch == 99 then |word| == 1 && CutTo(word[0], FirstBits(args), 0x100, false)
    else
      var whole := if args != [] && args[0].Str? then args[0].bytes else [40, 110, 117, 108, 108, 41];
      |word| <= |whole| && word == whole[..|word|] && if c.precision < 0 then word == whole
          else |word| == Shorter(|whole|, c.precision)
  }

  function Shorter(n: int, precision: int): int { if precision < n then precision else n }

  // ----- where padding, zeros and commas go

  /** Padding is spaces in front, or with the - flag behind, or with the 0 flag
      zeros after the sign and the prefix. */
  lemma Layout(value: nat, isSigned: bool, negative: bool, b: Base, c: Conversion)
    requires IsBase(b) && !(c.minus && c.zero)
    ensures var text := Formatted(value, isSigned, negative, b, c);
            var pad := PadCount(c.width, Natural(value, isSigned, negative, b, c));
            var head := (if SignOf(isSigned, negative, c) != 0 then 1 else 0)
                + (if XOf(value, b, c) != 0 then 2 else 0);
            && |text| == Natural(value, isSigned, negative, b, c) + pad && head + pad <= |text|
            && (!c.minus && !c.zero ==> forall k :: 0 <= k < pad ==> text[k] == 32)
            && (c.minus ==> forall k :: |text| - pad <= k < |text| ==> text[k] == 32)
            && (c.zero ==> forall k :: head <= k < head + pad ==> text[k] == 48)
  {
    IsBaseFits(b);
    hide Digits, SignOf, XOf, IsBase, Reversed, PadCount;
  }

  /** Zeros are put in front of the digits only up to the precision, of at most
      63 and 1 by default; and to make an octal number with # begin with 0. */
  lemma Precision(value: nat, b: Base, c: Conversion)
    requires IsBase(b)
    ensures var n := |RevDigits(value, b, GroupOf(b, c), 0)|;
            var wanted := if c.precision < 0 then 1 else if c.precision < 63 then c.precision else 63;
            var d := Digits(value, b, c);
            && |d| >= (if n < wanted then wanted else n)
            && (|d| > (if n < wanted then wanted else n) ==>
                  c.pound && b.base == 8 && |d| == (if n < wanted then wanted else n) + 1)
            && d[..n] == RevDigits(value, b, GroupOf(b, c), 0) && (forall k :: n <= k < |d| ==> d[k] == 48)
            && (c.pound && b.base == 8 ==> d != [] && d[|d| - 1] == 48)
  {
    IsBaseFits(b);
    hide RevDigits;
  }

  /** The digits themselves begin with neither a zero nor a comma. */
  lemma {:induction false} NoLeadingZero(value: nat, b: Base, group: nat, cnt: nat)
    requires IsBase(b) && value > 0
    ensures var d := RevDigits(value, b, group, cnt); d != [] && d[|d| - 1] != 48 && d[|d| - 1] != 44
    decreases value
  {
    IsBaseFits(b);
    RevStep(value, b, group, cnt);
    DigitOf(b, value % b.base);
    if value / b.base > 0 {
      NoLeadingZero(value / b.base, b, group, cnt + 1);
    } else {
      NoDigits(b, group, cnt + 1);
      assert value % b.base == value;
    }
  }

  /** The place of the next character when cnt digits have been produced. */
  function Place(group: nat, cnt: nat): nat
    requires group > 0
  {
    if cnt == 0 then 0 else cnt + (cnt - 1) / group
  }

  lemma NextPlace(group: nat, cnt: nat)
    requires group == 3 || group == 4
    ensures var comma := cnt > 0 && cnt % group == 0; var at := Place(group, cnt);
            && (comma <==> at % (group + 1) == group) && (comma ==> (at + 1) % (group + 1) != group)
            && Place(group, cnt + 1) == at + if comma then 2 else 1
  {
    if group == 3 { NextThird(cnt); } else { NextFourth(cnt); }
  }

  lemma NextThird(cnt: nat)
    ensures var comma := cnt > 0 && cnt % 3 == 0; var at := if cnt == 0 then 0 else cnt + (cnt - 1) / 3;
            && (comma <==> at % 4 == 3) && (comma ==> (at + 1) % 4 != 3) && cnt + 1 + cnt / 3 == at + if comma then 2
                else 1
  {
    var q, r := cnt / 3, cnt % 3;
    var at := if cnt == 0 then 0 else cnt + (cnt - 1) / 3;
    assert cnt == 3 * q + r;
    if r == 0 && q > 0 {
      assert (cnt - 1) / 3 == q - 1 && at == 4 * (q - 1) + 3;
    } else if r > 0 {
      assert (cnt - 1) / 3 == q && at == 4 * q + r;
    }
  }

  lemma NextFourth(cnt: nat)
    ensures var comma := cnt > 0 && cnt % 4 == 0; var at := if cnt == 0 then 0 else cnt + (cnt - 1) / 4;
            && (comma <==> at % 5 == 4) && (comma ==> (at + 1) % 5 != 4) && cnt + 1 + cnt / 4 == at + if comma then 2
                else 1
  {
    var q, r := cnt / 4, cnt % 4;
    var at := if cnt == 0 then 0 else cnt + (cnt - 1) / 4;
    assert cnt == 4 * q + r;
    if r == 0 && q > 0 {
      assert (cnt - 1) / 4 == q - 1 && at == 5 * (q - 1) + 4;
    } else if r > 0 {
      assert (cnt - 1) / 4 == q && at == 5 * q + r;
    }
  }

  /** Is there a comma in the given place? */
  predicate CommaAt(group: nat, at: nat) {
    at % (group + 1) == group
  }

  /** With the ' flag there is a comma to the left of each third digit, or fourth
      in base 16, that has another to its left. */
  lemma {:induction false} Commas(value: nat, b: Base, group: nat, cnt: nat)
    requires IsBase(b) && (group == 3 || group == 4)
    ensures var d := RevDigits(value, b, group, cnt);
            forall k :: 0 <= k < |d| ==> (d[k] == 44 <==> CommaAt(group, Place(group, cnt) + k))
    decreases value
  {
    IsBaseFits(b);
    if value == 0 {
      NoDigits(b, group, cnt);
    } else {
      RevStep(value, b, group, cnt);
      DigitOf(b, value % b.base);
      NextPlace(group, cnt);
      Commas(value / b.base, b, group, cnt + 1);
      var comma := cnt > 0 && cnt % group == 0;
      var at := Place(group, cnt);
      var rest, digit := RevDigits(value / b.base, b, group, cnt + 1), b.digits[value % b.base];
      hide RevDigits, IsBase, Place;
      CommasJoin(rest, digit, comma, group, at);
      assert RevDigits(value, b, group, cnt) == (if comma then [44] else []) + [digit] + rest;
    }
  }

  lemma CommasJoin(rest: seq<byte>, digit: byte, comma: bool, group: nat, at: nat)
    requires digit != 44 && (comma <==> CommaAt(group, at)) && (comma ==> !CommaAt(group, at + 1))
    requires forall k :: 0 <= k < |rest| ==> (rest[k] == 44 <==> CommaAt(group, at + (if comma then 2 else 1) + k))
    ensures var d := (if comma then [44] else []) + [digit] + rest;
            forall k :: 0 <= k < |d| ==> (d[k] == 44 <==> CommaAt(group, at + k))
  {
    hide CommaAt;
    var d := (if comma then [44] else []) + [digit] + rest;
    var n := if comma then 2 else 1;
    forall k | 0 <= k < |d|
      ensures d[k] == 44 <==> CommaAt(group, at + k)
    {
      if k >= n {
        assert d[k] == rest[k - n] && at + n + (k - n) == at + k;
      } else if k == 0 {
        assert at + k == at;
      } else {
        assert at + k == at + 1;
      }
    }
  }

  lemma GroupSizes(b: Base, c: Conversion)
    requires IsBase(b)
    ensures GroupOf(b, c) == if !c.group then 0 else if b.base == 16 then 4 else 3
  {
  }

  /** Without it there are none. */
  lemma {:induction false} NoCommas(value: nat, b: Base, cnt: nat)
    requires IsBase(b)
    ensures forall k :: 0 <= k < |RevDigits(value, b, 0, cnt)| ==> RevDigits(value, b, 0, cnt)[k] != 44
    decreases value
  {
    IsBaseFits(b);
    if value == 0 {
      NoDigits(b, 0, cnt);
    } else {
      RevStep(value, b, 0, cnt);
      DigitOf(b, value % b.base);
      NoCommas(value / b.base, b, cnt + 1);
      hide RevDigits, IsBase;
    }
  }

  // ----- formats

  /** The character stands between the two places. */
  predicate Among(f: seq<byte>, i: nat, j: nat, ch: byte) {
    exists k :: i <= k < j && At(f, k) == ch
  }

  lemma AmongNext(f: seq<byte>, i: nat, j: nat, ch: byte)
    ensures Among(f, i, j, ch) <==> i < j && (At(f, i) == ch || Among(f, i + 1, j, ch))
  {
  }

  /** The flags are those that stand in front of the first other character. */
  lemma {:induction false} AllFlagsSeen(f: seq<byte>, i: nat, c: Conversion)
    ensures var (r, j) := Flags(f, i, c);
            && i <= j && (forall k :: i <= k < j ==> IsFlag(At(f, k))) && !IsFlag(At(f, j))
            && (r.plus <==> c.plus || Among(f, i, j, 43))
            && (r.space <==> c.space || Among(f, i, j, 32))
            && (r.pound <==> c.pound || Among(f, i, j, 35))
            && (r.group <==> c.group || Among(f, i, j, 39))
    decreases |f| - i
  {
    var j := Flags(f, i, c).1;
    if IsFlag(At(f, i)) {
      AllFlagsSeen(f, i + 1, FlagOf(At(f, i), c));
    }
    AmongNext(f, i, j, 43);
    AmongNext(f, i, j, 32);
    AmongNext(f, i, j, 35);
    AmongNext(f, i, j, 39);
    hide Among;
  }

  /** A width or a precision is a number in base 10. */
  lemma {:induction false} NumberReads(f: seq<byte>, i: nat, from: nat, acc: nat)
    requires from <= i <= |f| && acc == NumberIn(f[from..i], 10) && forall k :: from <= k < i ==> IsDigit(f[k])
    ensures var (n, j) := Number(f, i, acc);
            && i <= j <= |f| && !IsDigit(At(f, j)) && (forall k :: from <= k < j ==> IsDigit(f[k]))
                && n == NumberIn(f[from..j], 10)
    decreases |f| - i
  {
    if IsDigit(At(f, i)) {
      assert f[from..i + 1][..i - from] == f[from..i];
      NumberReads(f, i + 1, from, acc * 10 + (At(f, i) - 48));
    }
  }

  /** A number in base 10, as long as it goes. */
  ghost predicate Written(f: seq<byte>, i: nat, j: nat, n: int) {
    i <= j <= |f| && (forall k :: i <= k < j ==> IsDigit(f[k])) && !IsDigit(At(f, j)) && n == NumberIn(f[i..j], 10)
  }

  /** The width is written behind the flags, or a star takes it from the
      arguments, when a negative one counts as positive with the - flag. */
  lemma WidthReads(f: seq<byte>, i: nat, args: seq<Arg>)
    requires i <= |f|
    ensures var (w, j, rest) := WidthOf(f, i, args);
            && (At(f, i) == 42 ==> j == i + 1 && rest == Rest(args) && CutTo(w, FirstBits(args), 0x1_0000_0000, true))
            && (At(f, i) != 42 ==> rest == args && Written(f, i, j, w))
    ensures Parsed(f, i, args).0.width == Abs(WidthOf(f, Flags(f, i, PLAIN).1, args).0)
  {
    hide Flags, Number, ToI32;
    NumberReads(f, i, i, 0);
    Cut32(FirstBits(args));
    FlagsAdvance(f, i, PLAIN);
    NumberReads(f, Flags(f, i, PLAIN).1, Flags(f, i, PLAIN).1, 0);
  }

  lemma Cut32(bits: U64)
    ensures CutTo(ToI32(bits), bits, 0x1_0000_0000, true)
  {
    WrapsModulo(bits);
    DivBounds(bits, 0x1_0000_0000);
    CutOff(bits, 0x1_0000_0000, bits % 0x1_0000_0000, bits / 0x1_0000_0000);
  }

  /** The precision is behind a point, or taken by a star; a negative one counts
      as none. */
  lemma PrecisionReads(f: seq<byte>, i: nat, args: seq<Arg>)
    requires i <= |f|
    ensures var (p, j, rest) := PrecisionOf(f, i, args);
            if At(f, i) != 46 then p == -1 && j == i && rest == args
            else if At(f, i + 1) == 42 then
              j == i + 2 && rest == Rest(args)
              && exists v :: CutTo(v, FirstBits(args), 0x1_0000_0000, true) && p == if v < 0 then -1 else v
            else rest == args && Written(f, i + 1, j, p)
  {
    hide Number, ToI32;
    if At(f, i) == 46 {
      NumberReads(f, i + 1, i + 1, 0);
      Cut32(FirstBits(args));
    }
  }

  function Ascii(s: string): seq<byte> {
    seq<byte>(|s|, i requires 0 <= i < |s| => if s[i] as int < 256 then s[i] as int else 0)
  }

  /** The letters for the sizes. */
  lemma SizeLetters()
    ensures SizeOf(Ascii("hhd"), 0) == (Char, 2) && SizeOf(Ascii("hd"), 0) == (Short, 1)
            && SizeOf(Ascii("d"), 0) == (Int, 0)
    ensures SizeOf(Ascii("jd"), 0) == (IntMax, 1) && SizeOf(Ascii("ld"), 0) == (Long, 1)
    ensures SizeOf(Ascii("lld"), 0) == (LongLong, 2) && SizeOf(Ascii("td"), 0) == (PtrDiff, 1)
    ensures SizeOf(Ascii("zu"), 0) == (SizeT, 1)
  {
  }

  /** What is printed for a conversion that does not exist. */
  lemma ComplaintSays()
    ensures Complaint('f' as int) == Ascii("<<no %f in kernel>>")
            && Complaint('q' as int) == Ascii("<<no %q conversion>>")
  {
  }

  /** Text without a % is printed as it is, and %% prints one. */
  lemma {:induction false} LiteralText(f: seq<byte>, i: nat, args: seq<Arg>)
    requires i <= |f| && forall k :: i <= k < |f| ==> f[k] != 37
    ensures Printed(f, i, args) == f[i..]
    decreases |f| - i
  {
    if i < |f| {
      LiteralText(f, i + 1, args);
    }
  }

  lemma PercentSign(f: seq<byte>, i: nat, args: seq<Arg>)
    requires i + 1 < |f| && f[i] == 37 && f[i + 1] == 37
    ensures Printed(f, i, args) == [37] + Printed(f, i + 2, args)
  {
  }

  /** An example: conversions take their arguments in order, and what is between
      them is printed there. */
  lemma InOrder(first: Arg, second: Arg)
    ensures var args := [first, second];
            Printed(Ascii("%d,%x"), 0, args)
            == Converted('d' as int, PLAIN, args).0 + ([44] + (Converted('x' as int, PLAIN, [second]).0 + []))
  {
    var f, args := Ascii("%d,%x"), [first, second];
    assert Parsed(f, 1, args) == (PLAIN, 1, args) by { PlainSpec(f, 1, args); }
    assert Rest(args) == [second];
    assert Parsed(f, 4, [second]) == (PLAIN, 4, [second]) by { PlainSpec(f, 4, [second]); }
    hide Parsed, Converted;
    assert Printed(f, 5, Rest([second])) == [];
  }

  /** A conversion that is a letter alone. */
  lemma PlainSpec(f: seq<byte>, i: nat, args: seq<Arg>)
    requires i < |f| && (f[i] == 'd' as int || f[i] == 'x' as int)
    ensures Parsed(f, i, args) == (PLAIN, i, args)
  {
    assert Flags(f, i, PLAIN) == (PLAIN, i) && Number(f, i, 0) == (0, i);
  }
}
