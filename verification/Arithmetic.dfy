/** 64-bit division built from the x86 64-by-32-bit divide instruction.

    Unsigned machine words are natural numbers below a power of two; every
    truncating conversion and every wrap-around of the C code is written out. */
module Arithmetic {

  type U32 = x: nat | x < 0x1_0000_0000
  type U64 = x: nat | x < 0x1_0000_0000_0000_0000
  type I32 = x: int | -0x8000_0000 <= x < 0x8000_0000
  type I64 = x: int | -0x8000_0000_0000_0000 <= x < 0x8000_0000_0000_0000

  /** Conversion of any integer to an unsigned word adds or subtracts the
      modulus until the value fits, which is what keeping the low bits does
      (WrapsModulo). */
  function ToU32(x: int): (r: U32)
    ensures 0 <= x < 0x1_0000_0000 ==> r == x
    decreases x < 0, if x < 0 then -x else x
  {
    if x < 0 then ToU32(x + 0x1_0000_0000)
    else if x < 0x1_0000_0000 then x
    else ToU32(x - 0x1_0000_0000)
  }

  function ToU64(x: int): (r: U64)
    ensures 0 <= x < 0x1_0000_0000_0000_0000 ==> r == x
    decreases x < 0, if x < 0 then -x else x
  {
    if x < 0 then ToU64(x + 0x1_0000_0000_0000_0000)
    else if x < 0x1_0000_0000_0000_0000 then x
    else ToU64(x - 0x1_0000_0000_0000_0000)
  }

  /** Conversion to a signed word: two's complement. */
  function ToI32(x: int): I32 {
    var u := ToU32(x);
    if u < 0x8000_0000 then u else u - 0x1_0000_0000
  }

  function ToI64(x: int): I64 {
    var u := ToU64(x);
    if u < 0x8000_0000_0000_0000 then u else u - 0x1_0000_0000_0000_0000
  }

  lemma {:induction false} WrapsModulo(x: int)
    ensures ToU32(x) == x % 0x1_0000_0000
    decreases x < 0, if x < 0 then -x else x
  {
    if x < 0 {
      WrapsModulo(x + 0x1_0000_0000);
    } else if x >= 0x1_0000_0000 {
      WrapsModulo(x - 0x1_0000_0000);
    }
  }

  lemma {:induction false} WrapsModulo64(x: int)
    ensures ToU64(x) == x % 0x1_0000_0000_0000_0000
    decreases x < 0, if x < 0 then -x else x
  {
    if x < 0 {
      WrapsModulo64(x + 0x1_0000_0000_0000_0000);
    } else if x >= 0x1_0000_0000_0000_0000 {
      WrapsModulo64(x - 0x1_0000_0000_0000_0000);
    }
  }

  // ----- multiplication and division facts

  lemma Product(x: nat, y: nat)
    ensures x * y >= 0
  {
  }

  lemma MulMonotone(a: int, b: int, c: nat)
    requires a <= b
    ensures a * c <= b * c
  {
  }

  lemma MulAssociates(a: int, b: int, c: int)
    ensures a * b * c == a * (b * c) == b * (a * c)
  {
  }

  lemma MulDistributes(a: int, b: int, c: int)
    ensures (a + b) * c == a * c + b * c
  {
  }

  lemma DivBounds(n: nat, d: nat)
    requires d > 0
    ensures n / d >= 0 && (n / d) * d <= n < (n / d) * d + d
    ensures n == (n / d) * d + n % d
  {
  }

  /** The quotient is the only q with q*d <= n < (q+1)*d. */
  lemma DivUnique(n: nat, d: nat, q: nat)
    requires d > 0 && q * d <= n < q * d + d
    ensures n / d == q
  {
    var k := n / d;
    DivBounds(n, d);
    if k < q {
      MulMonotone(k + 1, q, d);
      MulDistributes(k, 1, d);
      assert false;
    } else if q < k {
      MulMonotone(q + 1, k, d);
      MulDistributes(q, 1, d);
      assert false;
    }
  }

  lemma DivBelow(n: nat, d: nat, m: nat)
    requires d > 0 && n < m * d
    ensures n / d < m
  {
    DivBounds(n, d);
    if n / d >= m {
      MulMonotone(m, n / d, d);
      assert false;
    }
  }

  lemma DivDiv(n: nat, a: nat, b: nat)
    requires a > 0 && b > 0
    ensures a * b > 0 && n / a / b == n / (a * b)
  {
    MulMonotone(1, a, b);
    var m := n / a;
    var q := m / b;
    DivBounds(n, a);
    DivBounds(m, b);
    var qb := q * b;
    MulMonotone(qb, m, a);
    MulMonotone(m + 1, qb + b, a);
    MulDistributes(m, 1, a);
    MulDistributes(qb, b, a);
    MulAssociates(q, b, a);
    assert b * a == a * b;
    DivUnique(n, a * b, q);
  }

  // ----- left shifts and the number of leading zeros

  /** x << n, before truncation to a word. */
  function Shl(x: nat, n: nat): nat {
    if n == 0 then x else 2 * Shl(x, n - 1)
  }

  lemma {:induction false} ShlShl(x: nat, m: nat, n: nat)
    ensures Shl(Shl(x, m), n) == Shl(x, m + n)
  {
    if n == 0 {
    } else {
      ShlShl(x, m, n - 1);
    }
  }

  lemma ShlValues(x: nat)
    ensures Shl(x, 1) == 2 * x && Shl(x, 2) == 4 * x && Shl(x, 4) == 0x10 * x
    ensures Shl(x, 8) == 0x100 * x && Shl(x, 16) == 0x1_0000 * x && Shl(x, 31) == 0x8000_0000 * x
  {
    ShlTwo(x);
    ShlFour(x);
    ShlEight(x);
    ShlFour(0x100 * x);
    ShlEight(0x100 * x);
    ShlShl(x, 8, 8);
    ShlEight(0x1_0000 * x);
    ShlShl(x, 16, 8);
    ShlFour(0x100_0000 * x);
    ShlShl(x, 24, 4);
    ShlTwo(0x1000_0000 * x);
    ShlShl(x, 28, 2);
    assert Shl(x, 31) == 2 * Shl(x, 30);
  }

  lemma ShlTwo(x: nat)
    ensures Shl(x, 1) == 2 * x && Shl(x, 2) == 4 * x
  {
    assert Shl(x, 1) == 2 * Shl(x, 0);
    assert Shl(x, 2) == 2 * Shl(x, 1);
  }

  lemma ShlFour(x: nat)
    ensures Shl(x, 4) == 0x10 * x
  {
    ShlTwo(x);
    ShlTwo(4 * x);
    ShlShl(x, 2, 2);
  }

  lemma ShlEight(x: nat)
    ensures Shl(x, 8) == 0x100 * x
  {
    ShlFour(x);
    ShlFour(0x10 * x);
    ShlShl(x, 4, 4);
  }

  lemma {:induction false} ShlTimes(x: nat, y: nat, n: nat)
    ensures Shl(x * y, n) == Shl(x, n) * y
  {
    if n == 0 {
    } else {
      ShlTimes(x, y, n - 1);
      MulAssociates(2, Shl(x, n - 1), y);
    }
  }

  /** Number of leading zero bits: the shift that brings the top bit of x to
      bit 31, and the only such shift (NlzUnique). */
  method Nlz(x: U32) returns (n: nat)
    requires x != 0
    ensures n <= 31
    ensures 0x8000_0000 <= Shl(x, n) < 0x1_0000_0000
  {
    n := 0;
    var y: U32 := x;
    n, y := ShiftIfAtMost(x, n, y, 0x0000_FFFF, 16, 0x1_0000);
    n, y := ShiftIfAtMost(x, n, y, 0x00FF_FFFF, 8, 0x100);
    n, y := ShiftIfAtMost(x, n, y, 0x0FFF_FFFF, 4, 0x10);
    n, y := ShiftIfAtMost(x, n, y, 0x3FFF_FFFF, 2, 4);
    n, y := ShiftIfAtMost(x, n, y, 0x7FFF_FFFF, 1, 2);
  }

  /** One of the five tests of Nlz: c is 2^k and bound + 1 is 2^(32-k). */
  method ShiftIfAtMost(ghost x: U32, n: nat, y: U32, bound: U32, k: nat, c: nat) returns (n': nat, y': U32)
    requires y != 0 && y == Shl(x, n) && c * (bound + 1) == 0x1_0000_0000
    requires (k == 1 && c == 2) || (k == 2 && c == 4) || (k == 4 && c == 0x10)
          || (k == 8 && c == 0x100) || (k == 16 && c == 0x1_0000)
    ensures y' == Shl(x, n') && n <= n' <= n + k
    ensures if y <= bound then y' == c * y else y' == y
    ensures y' != 0
  {
    n', y' := n, y;
    if y <= bound {
      ShlValues(y);
      ShlShl(x, n, k);
      n', y' := n + k, c * y;
    }
  }

  lemma {:induction false} ShlGrows(x: nat, m: nat, n: nat)
    requires m < n
    ensures 2 * Shl(x, m) <= Shl(x, n)
    decreases n
  {
    if m + 1 < n {
      ShlGrows(x, m, n - 1);
    }
  }

  lemma NlzUnique(x: nat, m: nat, n: nat)
    requires 0x8000_0000 <= Shl(x, m) < 0x1_0000_0000
    requires 0x8000_0000 <= Shl(x, n) < 0x1_0000_0000
    ensures m == n
  {
    if m < n {
      ShlGrows(x, m, n);
    } else if n < m {
      ShlGrows(x, n, m);
    }
  }

  // ----- unsigned division

  /** The x86 DIVL instruction. It raises a divide error when the divisor is 0
      or the quotient does not fit 32 bits, so those are its precondition:
      verifying a caller shows that the caller never traps. */
  function Divl(n: U64, d: U32): (q: U32)
    requires d != 0 && n / d < 0x1_0000_0000
  {
    n / d
  }

  /** Divisor below 2^32: the schoolbook split never traps, no intermediate
      wraps, and the sum is the quotient. */
  lemma ShortDivisor(n: U64, n1: U32, n0: U32, d: U32) returns (h: nat, m: nat)
    requires d != 0 && n == 0x1_0000_0000 * n1 + n0
    ensures h == n1 / d && m == n1 % d
    ensures 0x1_0000_0000 * m + n0 < 0x1_0000_0000_0000_0000
    ensures (0x1_0000_0000 * m + n0) / d < 0x1_0000_0000
    ensures h < 0x1_0000_0000
    ensures n / d == (0x1_0000_0000 * m + n0) / d + 0x1_0000_0000 * h
  {
    DivBounds(n1, d);
    h, m := n1 / d, n1 % d;
    var lo := 0x1_0000_0000 * m + n0;
    DivBelow(lo, d, 0x1_0000_0000);
    DivBounds(lo, d);
    var q := lo / d;
    MulMonotone(1, d, h);
    MulDistributes(q, 0x1_0000_0000 * h, d);
    MulAssociates(0x1_0000_0000, h, d);
    DivUnique(n, d, q + 0x1_0000_0000 * h);
  }

  /** A long divisor d = d1:d0 times p, that is shifted left by s, has a high
      word v with its top bit set. Scaling v back by 2r = 2^(32-s) loses less
      than 2r. */
  lemma Normalised(d: nat, d1: U32, d0: U32, p: nat, r: nat, x: nat, v: nat)
    requires p > 0 && r > 0 && p * r == 0x8000_0000
    requires d == 0x1_0000_0000 * d1 + d0 && x == d * p && v == x / 0x1_0000_0000
    requires 0x8000_0000 <= d1 * p < 0x1_0000_0000
    ensures x < 0x1_0000_0000_0000_0000
    ensures 0x8000_0000 <= v < 0x1_0000_0000
    ensures 0x1_0000_0000 * r <= 2 * (v * r) <= d < 2 * (v * r) + 2 * r
  {
    SplitProduct(d, d1, d0, p, x);
    HighPartBounds(d1, d0, p, r);
    MulMonotone(0x8000_0000, v, r);
    VTimesRP(v, r, p);
    ScaleBack(d, p, r, v * r, x - 0x1_0000_0000 * v, x);
  }

  lemma SplitProduct(d: nat, d1: U32, d0: U32, p: nat, x: nat)
    requires d == 0x1_0000_0000 * d1 + d0 && x == d * p
    ensures x == 0x1_0000_0000 * (d1 * p) + d0 * p && d0 * p >= 0
  {
    MulDistributes(0x1_0000_0000 * d1, d0, p);
    MulAssociates(0x1_0000_0000, d1, p);
    MulMonotone(0, d0, p);
  }

  lemma VTimesRP(v: nat, r: nat, p: nat)
    requires p * r == 0x8000_0000
    ensures (v * r) * p == 0x8000_0000 * v && v * r >= 0
  {
    MulAssociates(v, r, p);
    assert r * p == p * r;
    assert v * (r * p) == 0x8000_0000 * v;
    MulMonotone(0, v, r);
  }

  lemma HighPartBounds(d1: U32, d0: U32, p: nat, r: nat)
    requires p > 0 && r > 0 && p * r == 0x8000_0000 && d1 * p < 0x1_0000_0000
    ensures 0x1_0000_0000 * (d1 * p) + d0 * p < 0x1_0000_0000_0000_0000
  {
    if d1 >= 2 * r {
      MulMonotone(2 * r, d1, p);
      MulAssociates(2, r, p);
      assert false;
    }
    MulMonotone(d1 + 1, 2 * r, p);
    MulAssociates(2, r, p);
    MulDistributes(d1, 1, p);
    MulMonotone(d0, 0xFFFF_FFFF, p);
  }

  lemma ScaleBack(d: nat, p: nat, r: nat, vr: nat, rest: nat, x: nat)
    requires p > 0 && r > 0 && p * r == 0x8000_0000 && rest < 0x1_0000_0000
    requires x == d * p == 2 * (vr * p) + rest
    ensures 2 * vr <= d < 2 * vr + 2 * r
  {
    MulDistributes(vr, vr, p);
    if d < 2 * vr {
      MulMonotone(d + 1, 2 * vr, p);
      MulDistributes(d, 1, p);
      assert false;
    }
    if d >= 2 * vr + 2 * r {
      MulMonotone(2 * vr + 2 * r, d, p);
      MulDistributes(2 * vr, 2 * r, p);
      MulAssociates(2, r, p);
      assert false;
    }
  }

  /** The estimate for a long divisor is the quotient by big; it is exact or
      one too large, so one less never multiplies back beyond n. */
  lemma EstimateBound(n: U64, d: U64, r: nat, big: nat) returns (q: nat, below: nat)
    requires r > 0 && 0x1_0000_0000 * r <= big <= d < big + 2 * r
    requires d <= n
    ensures q == n / big && 1 <= q < 0x1_0000_0000
    ensures below == (q - 1) * d && below <= n
    ensures n / d == if n - below < d then q - 1 else q
  {
    q := QuotientInRange(n, big, r);
    OvershootBound(q, r, d - big, big, n);
    MulMonotone(0, q - 1, d);
    below := (q - 1) * d;
    EstimateProducts(q, d, big, d - big, below);
    if n - below < d { DivUnique(n, d, q - 1); } else { DivUnique(n, d, q); }
  }

  lemma QuotientInRange(n: U64, big: nat, r: nat) returns (q: nat)
    requires r > 0 && 0x1_0000_0000 * r <= big <= n
    ensures q == n / big && 1 <= q < 0x1_0000_0000
    ensures q * big <= n < q * big + big
  {
    DivBounds(n, big);
    DivBelow(n, big, 0x1_0000_0000);
    q := n / big;
    if q == 0 { assert false; }
  }

  lemma EstimateProducts(q: nat, d: nat, big: nat, e: nat, below: nat)
    requires q >= 1 && d == big + e && below == (q - 1) * d
    ensures below == q * big - big + e * (q - 1) && q * d == below + d && q * big <= q * d
  {
    MulDistributes(big, e, q - 1);
    MulDistributes(q, -1, big);
    MulDistributes(q, -1, d);
    MulMonotone(big, d, q);
  }

  lemma OvershootBound(q: nat, r: nat, e: nat, big: nat, n: U64)
    requires q >= 1 && r > 0 && 0x1_0000_0000 * r <= big && e < 2 * r && q * big <= n
    ensures e * (q - 1) <= big
  {
    // q * r * 2^32 <= n < 2^64, so q * r < 2^32
    MulMonotone(0x1_0000_0000 * r, big, q);
    MulAssociates(0x1_0000_0000, r, q);
    assert r * q < 0x1_0000_0000;
    MulDistributes(q, -1, r);
    if r == 1 {
      MulMonotone(e, 1, q - 1);
    } else {
      MulMonotone(e, 2 * r, q - 1);
      MulAssociates(2, r, q - 1);
      assert r * (q - 1) == r * q - r;
    }
  }

  /** Unsigned 64-bit division. */
  method Udiv64(n: U64, d: U64) returns (q: U64)
    requires d != 0
    ensures q == n / d
  {
    if d / 0x1_0000_0000 == 0 {
      q := ShortUdiv(n, d);
    } else if n < d {
      q := 0;
      DivUnique(n, d, 0);
    } else {
      q := LongUdiv(n, d);
    }
  }

  method ShortUdiv(n: U64, d: U64) returns (q: U64)
    requires 0 < d < 0x1_0000_0000
    ensures q == n / d
  {
    var n1: U32 := ToU32(n / 0x1_0000_0000);
    var n0: U32 := ToU32(n);
    WrapsModulo(n);
    var d0: U32 := ToU32(d);
    ghost var h, m := ShortDivisor(n, n1, n0, d0);
    var low := Divl(ToU64(ToU64(0x1_0000_0000 * (n1 % d0)) + n0), d0);
    q := ToU64(low + ToU64(0x1_0000_0000 * (n1 / d0)));
  }

  method LongUdiv(n: U64, d: U64) returns (q: U64)
    requires 0x1_0000_0000 <= d <= n
    ensures q == n / d
  {
    var d1: U32 := ToU32(d / 0x1_0000_0000);
    var s := Nlz(d1);
    ghost var big := LongDivisor(d, s);
    var v := ToU64(Shl(d, s)) / 0x1_0000_0000;
    ghost var estimate := LongEstimate(n, d, v, Shl(1, 31 - s), big);
    var e: U64 := Divl(n / 2, v) / Shl(1, 31 - s);
    var below := (e - 1) * d;
    q := if ToU64(n - ToU64(below)) < d then e - 1 else e;
  }

  /** The shift does not overflow; big is the high word scaled back. */
  lemma LongDivisor(d: U64, s: nat) returns (big: nat)
    requires 0x1_0000_0000 <= d && s <= 31
    requires 0x8000_0000 <= Shl(d / 0x1_0000_0000, s) < 0x1_0000_0000
    ensures Shl(d, s) < 0x1_0000_0000_0000_0000 && Shl(1, 31 - s) > 0
    ensures 0x8000_0000 <= Shl(d, s) / 0x1_0000_0000 < 0x1_0000_0000
    ensures big == 2 * (Shl(d, s) / 0x1_0000_0000 * Shl(1, 31 - s))
    ensures 0x1_0000_0000 * Shl(1, 31 - s) <= big <= d < big + 2 * Shl(1, 31 - s)
  {
    var p, r := Shl(1, s), Shl(1, 31 - s);
    ShiftIsTimes(d, s, p, r);
    var v := Shl(d, s) / 0x1_0000_0000;
    Normalised(d, d / 0x1_0000_0000, d % 0x1_0000_0000, p, r, Shl(d, s), v);
    big := 2 * (v * r);
  }

  /** The divide does not trap, and the estimate is right or one too large, as
      one multiplication tells. */
  lemma LongEstimate(n: U64, d: U64, v: nat, r: nat, big: nat) returns (e: nat)
    requires d <= n && v >= 0x8000_0000 && r > 0 && big == 2 * (v * r)
    requires 0x1_0000_0000 * r <= big <= d < big + 2 * r
    ensures n / 2 / v < 0x1_0000_0000
    ensures e == n / 2 / v / r && 1 <= e < 0x1_0000_0000
    ensures 0 <= (e - 1) * d <= n
    ensures n / d == if n - (e - 1) * d < d then e - 1 else e
  {
    NoTrap(n, v);
    e := EstimateIs(n, v, r, big);
    var q, below := EstimateBound(n, d, r, big);
  }

  lemma EstimateIs(n: U64, v: nat, r: nat, big: nat) returns (e: nat)
    requires v > 0 && r > 0 && big == 2 * (v * r)
    ensures big > 0 && e == n / 2 / v / r == n / big
  {
    DivDiv(n / 2, v, r);
    DivDiv(n, 2, v * r);
    e := n / big;
  }

  lemma NoTrap(n: U64, v: nat)
    requires v >= 0x8000_0000
    ensures n / 2 / v < 0x1_0000_0000
  {
    MulMonotone(0x8000_0000, v, 0x1_0000_0000);
    DivBelow(n / 2, v, 0x1_0000_0000);
  }

  /** Shifting by s is multiplying by p, and p * r is 2^31. */
  lemma ShiftIsTimes(d: U64, s: nat, p: nat, r: nat)
    requires s <= 31 && p == Shl(1, s) && r == Shl(1, 31 - s)
    ensures p > 0 && r > 0 && p * r == 0x8000_0000
    ensures var d1, d0 := d / 0x1_0000_0000, d % 0x1_0000_0000;
            && d == 0x1_0000_0000 * d1 + d0
            && Shl(d1, s) == d1 * p
            && Shl(d, s) == d * p
  {
    var d1 := d / 0x1_0000_0000;
    ShlTimes(1, d, s);
    ShlTimes(1, d1, s);
    ShlTimes(1, r, s);
    ShlShl(1, 31 - s, s);
    ShlValues(1);
    assert d1 * p == p * d1 && d * p == p * d;
  }

  // ----- remainder and signed routines

  /** The remainder routine returns only 32 bits. */
  method Umod64(n: U64, d: U64) returns (r: U32)
    requires d != 0
    ensures r == ToU32(n % d)
  {
    var q := Udiv64(n, d);
    DivBounds(n, d);
    assert d * q == q * d == n - n % d;
    r := ToU32(ToU64(n - ToU64(d * q)));
  }

  /** The 32-bit result is the remainder for every dividend exactly when the
      divisor is at most 2^32. */
  lemma UmodExactIff(d: U64)
    requires d != 0
    ensures (forall n: U64 :: ToU32(n % d) == n % d) <==> d <= 0x1_0000_0000
  {
    if d > 0x1_0000_0000 {
      var n: U64 := 0x1_0000_0000;
      DivUnique(n, d, 0);
      DivBounds(n, d);
      assert ToU32(n % d) != n % d;
    }
  }

  function Abs(x: int): nat { if x < 0 then -x else x }

  /** C's quotient: truncated toward zero. */
  function TruncDiv(n: int, d: int): int
    requires d != 0
  {
    if (n < 0) == (d < 0) then Abs(n) / Abs(d) else -(Abs(n) / Abs(d))
  }

  /** C's remainder takes the sign of the dividend. */
  function TruncMod(n: int, d: int): int
    requires d != 0
  {
    if n < 0 then -(Abs(n) % Abs(d)) else Abs(n) % Abs(d)
  }

  /** The C standard's law of division, which fixes both operators. */
  lemma TruncLaw(n: int, d: int)
    requires d != 0
    ensures n == d * TruncDiv(n, d) + TruncMod(n, d)
    ensures Abs(TruncMod(n, d)) < Abs(d)
    ensures TruncMod(n, d) != 0 ==> (TruncMod(n, d) < 0 <==> n < 0)
  {
    DivBounds(Abs(n), Abs(d));
    var q := Abs(n) / Abs(d);
    assert d * q == q * d && d * -q == -(q * d) && q * -d == -(q * d);
  }

  /** Signed division: truncated toward zero for every pair of operands but
      the most negative number by -1, whose quotient is not an int64_t. */
  method Sdiv64(n: I64, d: I64) returns (q: I64)
    requires d != 0
    ensures q == TruncDiv(n, d) <==> !(n == -0x8000_0000_0000_0000 && d == -1)
    ensures n == -0x8000_0000_0000_0000 && d == -1 ==> q == n
  {
    AbsFits(n);
    AbsFits(d);
    var nAbs: U64 := if n >= 0 then ToU64(n) else ToU64(-(ToU64(n) as int));
    var dAbs: U64 := if d >= 0 then ToU64(d) else ToU64(-(ToU64(d) as int));
    var qAbs := Udiv64(nAbs, dAbs);
    QuotientFits(nAbs, dAbs);
    SignedBack(qAbs);
    q := if (n < 0) == (d < 0) then ToI64(qAbs) else ToI64(-(ToI64(qAbs) as int));
  }

  lemma AbsFits(x: I64)
    ensures Abs(x) <= 0x8000_0000_0000_0000
    ensures (if x >= 0 then ToU64(x) else ToU64(-(ToU64(x) as int))) == Abs(x)
  {
  }

  lemma QuotientFits(n: nat, d: nat)
    requires d > 0 && n <= 0x8000_0000_0000_0000
    ensures n / d <= 0x8000_0000_0000_0000
    ensures n / d == 0x8000_0000_0000_0000 <==> n == 0x8000_0000_0000_0000 && d == 1
  {
    if d >= 2 {
      DivBelow(n, d, 0x8000_0000_0000_0000);
    }
  }

  /** A quotient of at most 2^63 survives the conversion when it is negated,
      and otherwise exactly when it is below 2^63. */
  lemma SignedBack(q: nat)
    requires q <= 0x8000_0000_0000_0000
    ensures ToI64(q) as int == if q < 0x8000_0000_0000_0000 then q as int else -(q as int)
    ensures ToI64(-(ToI64(q) as int)) == -(q as int)
  {
  }

  /** The one pair for which the negation is of 2^63 as an int64_t, which C
      leaves undefined, and the one for which 2^63 is the result. */
  lemma WhereItOverflows(n: I64, d: I64)
    requires d != 0
    ensures Abs(n) / Abs(d) == 0x8000_0000_0000_0000 && (n < 0) != (d < 0) <==> n == -0x8000_0000_0000_0000 && d == 1
    ensures Abs(n) / Abs(d) == 0x8000_0000_0000_0000 && (n < 0) == (d < 0) <==> n == -0x8000_0000_0000_0000 && d == -1
  {
    QuotientFits(Abs(n), Abs(d));
  }

  /** Signed remainder, returned in 32 bits. The pair that overflows the
      division also overflows the multiplication here, and is excluded. */
  method Smod64(n: I64, d: I64) returns (r: I32)
    requires d != 0 && !(n == -0x8000_0000_0000_0000 && d == -1)
    ensures r == ToI32(TruncMod(n, d))
  {
    var q := Sdiv64(n, d);
    TruncLaw(n, d);
    assert d * q == n - TruncMod(n, d);
    r := ToI32(ToI64(n - ToI64(d * q)));
  }

  /** It is the remainder for every dividend exactly when |d| <= 2^31. */
  lemma SmodExactIff(d: I64)
    requires d != 0
    ensures (forall n: I64 :: ToI32(TruncMod(n, d)) == TruncMod(n, d)) <==> Abs(d) <= 0x8000_0000
  {
    if Abs(d) > 0x8000_0000 {
      var n: I64 := 0x8000_0000;
      DivUnique(Abs(n), Abs(d), 0);
      DivBounds(Abs(n), Abs(d));
      assert ToI32(TruncMod(n, d)) != TruncMod(n, d);
    } else {
      forall n: I64
        ensures ToI32(TruncMod(n, d)) == TruncMod(n, d)
      {
        TruncLaw(n, d);
      }
    }
  }

  // ----- counting

  function Min(a: int, b: int): int { if a < b then a else b }

  lemma {:induction false} SubsetCount<T>(a: set<T>, b: set<T>)
    requires a <= b
    ensures |a| <= |b| && (|a| == |b| ==> a == b)
  {
    if a != {} {
      var x :| x in a;
      SubsetCount(a - {x}, b - {x});
    } else if |b| == 0 {
      assert b == {};
    }
  }
}
