/**
 * Machine words and the multi-word primitives of primitives.h.  A word is a natural number below 2^32 or
 * 2^64; every operation that can carry out of a word wraps explicitly.
 */
module Words {
  import opened Arith
  import opened Powers
  import opened Sticky

  const W32: int := 0x1_0000_0000
  const W64: int := 0x1_0000_0000_0000_0000
  const W128: int := 0x1_0000_0000_0000_0000_0000_0000_0000_0000
  const TOP64: int := 0x8000_0000_0000_0000

  type u32 = x: int | 0 <= x < 0x1_0000_0000
  type u64 = x: int | 0 <= x < 0x1_0000_0000_0000_0000

  datatype U128 = U128(v64: u64, v0: u64) {
    function Val(): int { v64 * W64 + v0 }
  }

  function Wrap32(x: int): u32 { x % 0x1_0000_0000 }
  function Wrap64(x: int): u64 { x % 0x1_0000_0000_0000_0000 }

  /** The low word of a product. */
  function MulLow64(x: u64, y: nat): u64 { Wrap64(x * y) }

  function Uint16(x: int): int { x % 0x1_0000 }

  lemma Uint16Range(x: int)
    requires -0x8000 <= x < 0x8000
    ensures Uint16(x) == if x < 0 then x + 0x1_0000 else x
  {
  }

  function Bit(b: bool): int { if b then 1 else 0 }

  /** Bitwise or. */
  function Or(x: nat, y: nat): nat
    decreases x
  {
    if x == 0 then y
    else if y == 0 then x
    else 2 * Or(x / 2, y / 2) + Bit(x % 2 == 1 || y % 2 == 1)
  }

  /** Or-ing words with no common bit adds them. */
  lemma {:induction false} OrDisjoint(x: nat, y: nat, k: nat)
    requires x % P2(k) == 0 && y < P2(k)
    ensures Or(x, y) == x + y
  {
    if x == 0 || y == 0 {
    } else {
      var p := P2(k - 1);
      assert P2(k) == 2 * p;
      var m := x / P2(k);
      assert x == m * (2 * p);
      assert x == 2 * (m * p);
      DivModUnique(m * p, p, m, 0);
      OrDisjoint(x / 2, y / 2, k - 1);
    }
  }

  // ----- shifts -----

  /** The k lowest bits of x. */
  function Low(x: nat, k: nat): (r: nat)
    ensures r < P2(k)
  {
    LowRange(x, P2(k));
    x % P2(k)
  }

  lemma LowRange(x: nat, d: nat)
    requires d > 0
    ensures 0 <= x % d < d
  {
  }

  function Shl64(a: u64, k: nat): u64 {
    Wrap64(a * P2(k))
  }

  function Shr(a: nat, k: nat): (r: nat)
    ensures r <= a
  {
    DivBound(a, P2(k));
    Quo(a, P2(k))
  }

  /** The bits cut off by a right shift are the ones a left shift by the complement keeps. */
  lemma LowBits64(a: u64, k: nat)
    requires 0 < k < 64
    ensures Shl64(a, 64 - k) == (a % P2(k)) * P2(64 - k) <= W64 - P2(64 - k)
    ensures Shl64(a, 64 - k) == 0 <==> !Cut(a, P2(k))
    ensures Shl64(a, 64 - k) % P2(64 - k) == 0
  {
    P2Add(k, 64 - k);
    P2Values();
    hide P2;
    CutShift(a, P2(k), P2(64 - k), W64);
    DivModUnique(Shl64(a, 64 - k), P2(64 - k), a % P2(k), 0);
  }

  function Shift64RightJam(a: u64, count: nat): u64
    requires count > 0
  {
    if count < 64 then OrBit(Shr(a, count), Shl64(a, 64 - count) != 0) else Bit(a != 0)
  }

  lemma Shift64RightJamIsJam(a: u64, count: nat)
    requires count > 0
    ensures Shift64RightJam(a, count) == Jam(a, P2(count))
  {
    if count < 64 {
      LowBits64(a, count);
    } else {
      P2Values();
      P2Mono(64, count);
      DivModUnique(a, P2(count), 0, a);
    }
  }

  function Shl32(a: u32, k: nat): u32 {
    Wrap32(a * P2(k))
  }

  lemma LowBits32(a: u32, k: nat)
    requires 0 < k < 32
    ensures Shl32(a, 32 - k) == 0 <==> a % P2(k) == 0
  {
    P2Add(k, 32 - k);
    P2Values();
    hide P2;
    CutShift(a, P2(k), P2(32 - k), W32);
  }

  function Shift32RightJam(a: u32, count: nat): u32
    requires count > 0
  {
    if count < 32 then OrBit(Shr(a, count), Shl32(a, 32 - count) != 0) else Bit(a != 0)
  }

  lemma Shift32RightJamIsJam(a: u32, count: nat)
    requires count > 0
    ensures Shift32RightJam(a, count) == Jam(a, P2(count))
  {
    if count < 32 {
      LowBits32(a, count);
    } else {
      P2Values();
      P2Mono(32, count);
      DivModUnique(a, P2(count), 0, a);
    }
  }

  function ShortShift64RightJam(a: u64, count: nat): u64
    requires 0 < count < 64
  {
    OrBit(Shr(a, count), Cut(a, P2(count)))
  }

  function ShortShift32Right1Jam(a: u32): u32 {
    OrBit(a / 2, a % 2 == 1)
  }

  function Shift128RightJam(a64: u64, a0: u64, count: nat): (z: U128)
    requires count > 0
  {
    if count < 64 then
      P2Values(); LowBits64(a64, count); Shift128Low(a64, a0, count);
      U128(Shr(a64, count), OrBit(Or(Shl64(a64, 64 - count), Shr(a0, count)), Shl64(a0, 64 - count) != 0))
    else if count < 128 then
      U128(0, OrBit(Shr(a64, count - 64), Cut(a64, P2(count - 64)) || a0 != 0))
    else
      U128(0, Bit(a64 != 0 || a0 != 0))
  }

  lemma Shift128Low(a64: u64, a0: u64, k: nat)
    requires 0 < k < 64
    ensures Or(Shl64(a64, 64 - k), Shr(a0, k)) == Shl64(a64, 64 - k) + Shr(a0, k) < W64
    ensures OrBit(Or(Shl64(a64, 64 - k), Shr(a0, k)), true) < W64
  {
    hide P2, Shl64, Or, Quo;
    var s, y := Shl64(a64, 64 - k), Shr(a0, k);
    assert y < P2(64 - k) by { HighPart(a0, k); }
    LowBits64(a64, k);
    OrDisjoint(s, y, 64 - k);
    OddBelow(s, y, P2(64 - k));
  }

  lemma OddBelow(s: nat, y: nat, p: nat)
    requires y < p && s + p <= W64
    ensures s + y < W64 && OrBit(s + y, true) < W64
  {
  }

  lemma HighPart(a: u64, k: nat)
    requires 0 < k < 64
    ensures 0 <= Quo(a, P2(k)) < P2(64 - k)
  {
    assert P2(64 - k) * P2(k) == W64 by {
      P2Add(64 - k, k);
      P2Values();
    }
    hide P2;
    DivBelow(a, P2(k), P2(64 - k));
    DivBound(a, P2(k));
  }

  lemma ShortQuotient64(a64: u64, a0: u64, k: nat)
    requires 0 < k < 64
    ensures Quo(a64 * W64 + a0, P2(k)) == Shr(a64, k) * W64 + (Shl64(a64, 64 - k) + Shr(a0, k))
    ensures Cut(a64 * W64 + a0, P2(k)) == Cut(a0, P2(k))
  {
    LowBits64(a64, k);
    P2Add(k, 64 - k);
    P2Values();
    hide P2, Shl64;
    ShortQuotient(a64, a0, P2(k), P2(64 - k), W64);
  }

  /** The 128-bit sticky shift jams the whole 128-bit value. */
  lemma Shift128RightJamIsJam(a64: u64, a0: u64, count: nat)
    requires count > 0
    ensures Shift128RightJam(a64, a0, count).Val() == Jam(a64 * W64 + a0, P2(count))
  {
    hide Or, Shl64, OrBit;
    if count < 64 {
      Jam128Short(a64, a0, count);
    } else if count < 128 {
      Jam128Long(a64, a0, count);
    } else {
      Jam128All(a64, a0, count);
    }
  }

  lemma Jam128All(a64: u64, a0: u64, k: nat)
    requires 128 <= k
    ensures Shift128RightJam(a64, a0, k).Val() == Jam(a64 * W64 + a0, P2(k))
  {
    P2Values();
    P2Add(64, 64);
    P2Mono(128, k);
    hide P2;
    DivModUnique(a64 * W64 + a0, P2(k), 0, a64 * W64 + a0);
  }

  lemma Jam128Short(a64: u64, a0: u64, k: nat)
    requires 0 < k < 64
    ensures Shift128RightJam(a64, a0, k).Val() == Jam(a64 * W64 + a0, P2(k))
  {
    hide P2, Or, Shl64, Shr, Quo, Cut, OrBit;
    assert Shl64(a0, 64 - k) == 0 <==> !Cut(a0, P2(k)) by { LowBits64(a0, k); }
    Shift128Low(a64, a0, k);
    ShortQuotient64(a64, a0, k);
    OrBitHigh(Shr(a64, k), Shl64(a64, 64 - k) + Shr(a0, k), Cut(a0, P2(k)));
  }

  lemma OrBitHigh(h: nat, v: nat, b: bool)
    ensures OrBit(h * W64 + v, b) == h * W64 + OrBit(v, b)
  {
    OrBitEven(h * W64, v, b);
    hide OrBit;
  }

  lemma Jam128Long(a64: u64, a0: u64, k: nat)
    requires 64 <= k < 128
    ensures Shift128RightJam(a64, a0, k).Val() == Jam(a64 * W64 + a0, P2(k))
  {
    P2Add(k - 64, 64);
    P2Values();
    hide P2;
    LongQuotient(a64, a0, P2(k - 64), W64);
  }

  /** The complement of the count is taken modulo 64, so that a zero count leaves a0 in the high word. */
  function ShortShift128Left(a64: u64, a0: u64, count: nat): (z: U128)
    requires count < 64 && (count == 0 ==> a0 == 0)
  {
    if count == 0 then
      U128(a64, 0)
    else
      var high := Or(Shl64(a64, count), Shr(a0, 64 - count));
      ShortShift128High(a64, a0, count);
      U128(high, Shl64(a0, count))
  }

  lemma ShortShift128High(a64: u64, a0: u64, k: nat)
    requires 0 < k < 64
    ensures Or(Shl64(a64, k), Shr(a0, 64 - k)) == Shl64(a64, k) + Shr(a0, 64 - k) < W64
  {
    Shift128Low(a64, a0, 64 - k);
  }

  /** No bit is lost when the shifted value still fits. */
  lemma ShortShift128LeftExact(a64: u64, a0: u64, k: nat)
    requires 0 < k < 64 && a64 < P2(64 - k)
    ensures ShortShift128Left(a64, a0, k).Val() == (a64 * W64 + a0) * P2(k)
  {
    ShortShift128High(a64, a0, k);
    LowBits64(a64, 64 - k);
    LowBits64(a0, 64 - k);
    assert 64 - (64 - k) == k;
    DivModUnique(a64, P2(64 - k), 0, a64);
    LeftParts64(a64, a0, k);
    hide P2, Or, Shl64;
  }

  lemma LeftParts64(a64: u64, a0: u64, k: nat)
    requires 0 < k < 64
    ensures (a64 * P2(k) + a0 / P2(64 - k)) * W64 + (a0 % P2(64 - k)) * P2(k) == (a64 * W64 + a0) * P2(k)
  {
    P2Add(k, 64 - k);
    P2Values();
    hide P2;
    LeftParts(a64, a0, P2(k), P2(64 - k), W64);
  }

  // ----- addition, subtraction, multiplication -----

  /** z holds n modulo 2^128. */
  ghost predicate Holds128(z: U128, n: int) {
    z.Val() == n % W128
  }

  /** A word pair that holds a number of less than 2^127 in magnitude shows its sign in the top bit. */
  lemma SignBit(z: U128, n: int)
    requires Holds128(z, n) && -W64 * TOP64 <= n < W64 * TOP64
    ensures TOP64 <= z.v64 <==> n < 0
    ensures 0 <= n ==> z.Val() == n
  {
    if n < 0 {
      DivModUnique(n, W128, -1, n + W128);
    }
  }

  lemma HoldsSum(x: U128, m: int, z: U128, k: int)
    requires Holds128(x, m) && Holds128(z, x.Val() + k)
    ensures Holds128(z, m + k)
  {
  }

  /** A word sum and its carry, which shows as the sum being below either term. */
  lemma WordSum(x: u64, y: u64)
    ensures x + y == Bit(Wrap64(x + y) < x) * W64 + Wrap64(x + y)
    ensures x + y == Bit(Wrap64(x + y) < y) * W64 + Wrap64(x + y)
  {
  }

  lemma WordDifference(x: u64, y: u64)
    ensures x - y == Wrap64(x - y) - Bit(x < y) * W64
  {
  }

  lemma HoldsUpTo128(z: U128, n: int, k: int)
    requires n == k * W128 + z.Val()
    ensures Holds128(z, n)
  {
    DivModUnique(n, W128, k, z.Val());
  }

  method Add128(a64: u64, a0: u64, b64: u64, b0: u64) returns (z: U128)
    ensures Holds128(z, (a64 * W64 + a0) + (b64 * W64 + b0))
  {
    WordSum(a0, b0);
    WordSum(a64, b64);
    hide Wrap64;
    var v0 := Wrap64(a0 + b0);
    var v64 := Wrap64(a64 + b64);
    ghost var k := Bit(v64 < a64);
    WordSum(v64, Bit(v0 < a0));
    k := k + Bit(Wrap64(v64 + Bit(v0 < a0)) < v64);
    v64 := Wrap64(v64 + Bit(v0 < a0));
    z := U128(v64, v0);
    HoldsUpTo128(z, (a64 * W64 + a0) + (b64 * W64 + b0), k);
  }

  method Sub128(a64: u64, a0: u64, b64: u64, b0: u64) returns (z: U128)
    ensures Holds128(z, (a64 * W64 + a0) - (b64 * W64 + b0))
  {
    WordDifference(a0, b0);
    WordDifference(a64, b64);
    hide Wrap64;
    var v0 := Wrap64(a0 - b0);
    var v64 := Wrap64(a64 - b64);
    WordDifference(v64, Bit(a0 < b0));
    ghost var k := Bit(a64 < b64) + Bit(v64 < Bit(a0 < b0));
    v64 := Wrap64(v64 - Bit(a0 < b0));
    z := U128(v64, v0);
    HoldsUpTo128(z, (a64 * W64 + a0) - (b64 * W64 + b0), 0 - k);
  }

  method Mul64To128(a: u64, b: u64) returns (z: U128)
    ensures z.Val() == a * b
  {
    var a32, a0 := a / W32, a % W32;
    var b32, b0 := b / W32, b % W32;
    LimbParts(a, b, a32, a0, b32, b0);
    z := AddLimbs(a32 * b32, a0 * b0, a32 * b0, a0 * b32, a * b);
  }

  /** The four partial products added, each carry caught (lines 20 to 24). */
  method AddLimbs(high: u64, low: u64, mid1: u64, mid2: u64, ghost prod: int) returns (z: U128)
    requires prod == high * W64 + (mid1 + mid2) * W32 + low && 0 <= prod < W128
    ensures z.Val() == prod
  {
    LimbCarries(high, low, mid1, mid2, prod);
    hide Wrap64;
    var v64, v0 := high, low;
    var mid := Wrap64(mid1 + mid2);
    v64 := Wrap64(v64 + Bit(mid < mid1) * W32 + mid / W32);
    mid := Wrap64(mid * W32);
    v0 := Wrap64(v0 + mid);
    v64 := Wrap64(v64 + Bit(v0 < mid));
    z := U128(v64, v0);
  }

  lemma LimbParts(a: u64, b: u64, a32: u32, a0: u32, b32: u32, b0: u32)
    requires a == a32 * W32 + a0 && b == b32 * W32 + b0
    ensures 0 <= a32 * b0 <= (W32 - 1) * (W32 - 1) && 0 <= a0 * b32 <= (W32 - 1) * (W32 - 1)
    ensures 0 <= a0 * b0 <= (W32 - 1) * (W32 - 1) && 0 <= a32 * b32 <= (W32 - 1) * (W32 - 1)
    ensures a * b == a32 * b32 * W64 + (a32 * b0 + a0 * b32) * W32 + a0 * b0
    ensures 0 <= a * b < W128
  {
    MulUpper(a32, b0, W32 - 1, W32 - 1);
    MulUpper(a0, b32, W32 - 1, W32 - 1);
    MulUpper(a0, b0, W32 - 1, W32 - 1);
    MulUpper(a32, b32, W32 - 1, W32 - 1);
    MulUpper(a, b, W64 - 1, W64 - 1);
    LimbExpand(a32, a0, b32, b0);
  }

  lemma LimbCarries(high: u64, low: u64, mid1: u64, mid2: u64, prod: int)
    requires prod == high * W64 + (mid1 + mid2) * W32 + low && 0 <= prod < W128
    ensures
      var mid := Wrap64(mid1 + mid2);
      var lo := Wrap64(low + Wrap64(mid * W32));
      var hi := Wrap64(Wrap64(high + Bit(mid < mid1) * W32 + mid / W32) + Bit(lo < Wrap64(mid * W32)));
      hi * W64 + lo == prod
  {
    var mid := Wrap64(mid1 + mid2);
    WordSum(mid1, mid2);
    WordShift(mid);
    var t := Wrap64(mid * W32);
    WordSum(low, t);
    hide Wrap64;
    var lo := Wrap64(low + t);
    var part := high + Bit(mid < mid1) * W32 + mid / W32;
    assert (part + Bit(lo < t)) * W64 + lo == prod;
    WrapSame(part);
    WrapSame(part + Bit(lo < t));
  }

  lemma WordShift(x: u64)
    ensures x * W32 == (x / W32) * W64 + Wrap64(x * W32)
  {
  }

  lemma WrapSame(x: int)
    requires 0 <= x < W64
    ensures Wrap64(x) == x
  {
  }

  lemma LimbExpand(a1: int, a0: int, b1: int, b0: int)
    ensures (a1 * W32 + a0) * (b1 * W32 + b0) == a1 * b1 * W64 + (a1 * b0 + a0 * b1) * W32 + a0 * b0
  {
  }

  // ----- leading zeros -----

  /** The table softfloat_countLeadingZeros8, as the steps its 256 entries make. */
  function CountLeadingZeros8(b: nat): (r: nat)
    ensures r <= 8
  {
    if b < 1 then 8 else if b < 2 then 7 else if b < 4 then 6 else if b < 8 then 5
    else if b < 0x10 then 4 else if b < 0x20 then 3 else if b < 0x40 then 2 else if b < 0x80 then 1 else 0
  }

  lemma ByteZeros(b: nat)
    requires 0 < b < 0x100
    ensures CountLeadingZeros8(b) < 8 && 0x80 <= b * P2(CountLeadingZeros8(b)) < 0x100
  {
    P2Values();
    hide P2;
    if b < 0x10 {
      if b < 4 { if b < 2 {} } else if b < 8 {}
    } else if b < 0x40 {
      if b < 0x20 {}
    } else if b < 0x80 {}
  }

  /** r leading zeros in a word of w bits: shifting them out brings the first 1 to the top. */
  ghost predicate IsLeadingZeros(a: nat, r: nat, w: nat)
  {
    r <= w && (a == 0 ==> r == w) && (a > 0 ==> r < w && P2(w) <= 2 * (a * P2(r)) < 2 * P2(w))
  }

  method CountLeadingZeros32(x: u32) returns (count: nat)
    ensures IsLeadingZeros(x, count, 32)
  {
    hide P2, Shl32;
    var a := x;
    count := 0;
    ShiftZero(x);
    if a < 0x1_0000 {
      ShiftUp(x, 0, a, 16);
      count := 16;
      a := Shl32(a, 16);
    }
    if a < 0x100_0000 {
      ShiftUp(x, count, a, 8);
      count := count + 8;
      a := Shl32(a, 8);
    }
    TopByteReached(x, count, a);
    var r := CountLeadingZeros8(a / 0x100_0000);
    TopByte(x, count, a, r);
    count := count + r;
  }

  lemma ShiftZero(x: u32)
    ensures x == x * P2(0)
  {
  }

  lemma ShiftUp(x: u32, g: nat, a: u32, k: nat)
    requires a == x * P2(g) && ((k == 16 && a < 0x1_0000) || (k == 8 && a < 0x100_0000))
    ensures Shl32(a, k) == x * P2(g + k)
  {
    P2Values();
    P2Add(g, k);
    hide P2;
    Reassociate(x, P2(g), P2(k));
  }

  /** After both steps only zero is left with nothing in its top byte. */
  lemma TopByteReached(x: u32, g: nat, a: u32)
    requires a == x * P2(g) && g in {0, 8, 16, 24}
    requires (g == 0 || g == 16 ==> 0x100_0000 <= a) && (g == 8 ==> 0x1_0000 <= x) && (g == 24 ==> x < 0x1_0000)
    ensures g < 24 ==> 0x100_0000 <= a
    ensures x > 0 ==> 0x100_0000 <= a
  {
    P2Values();
    hide P2;
  }

  lemma TopByte(x: u32, g: nat, a: u32, r: nat)
    requires g in {0, 8, 16, 24} && a == x * P2(g) && (x > 0 ==> 0x100_0000 <= a) && (x == 0 ==> g == 24)
    requires r == CountLeadingZeros8(a / 0x100_0000)
    ensures IsLeadingZeros(x, g + r, 32)
  {
    P2Values();
    P2Add(g, r);
    hide P2;
    if x > 0 {
      var b := a / 0x100_0000;
      ByteZeros(b);
      hide CountLeadingZeros8;
      assert x * P2(g + r) == a * P2(r) by { Reassociate(x, P2(g), P2(r)); }
      TopByteRange(a, b, P2(r));
    }
  }

  lemma Reassociate(x: int, y: int, z: int)
    ensures x * (y * z) == (x * y) * z
  {
  }

  lemma TopByteRange(a: u32, b: nat, p: nat)
    requires b == a / 0x100_0000 && p in {1, 2, 4, 8, 16, 32, 64, 128} && 0x80 <= b * p < 0x100
    ensures 0x8000_0000 <= a * p < 0x1_0000_0000
  {
  }

  method CountLeadingZeros64(x: u64) returns (count: nat)
    ensures IsLeadingZeros(x, count, 64)
  {
    hide P2, Shl32, IsLeadingZeros;
    count := 32;
    var a32: u32 := x % W32;
    if W32 <= x {
      count := 0;
      a32 := x / W32;
    }
    ghost var high, top := count, a32;
    ShiftZero(top);
    if a32 < 0x1_0000 {
      ShiftUp(top, 0, a32, 16);
      count := count + 16;
      a32 := Shl32(a32, 16);
    }
    if a32 < 0x100_0000 {
      ShiftUp(top, count - high, a32, 8);
      count := count + 8;
      a32 := Shl32(a32, 8);
    }
    TopByteReached(top, count - high, a32);
    var r := CountLeadingZeros8(a32 / 0x100_0000);
    TopByte(top, count - high, a32, r);
    count := count + r;
    TopWord(x, high, top, count - high);
  }

  lemma TopWord(x: u64, high: nat, top: u32, r: nat)
    requires (high == 32 && x == top) || (high == 0 && x / W32 == top > 0)
    requires IsLeadingZeros(top, r, 32)
    ensures IsLeadingZeros(x, high + r, 64)
  {
    P2Values();
    hide P2;
    if x == 0 {
    } else if high == 32 {
      assert x * P2(32 + r) == W32 * (x * P2(r)) by {
        P2Add(32, r);
        Reassociate(x, W32, P2(r));
        Reassociate(W32, x, P2(r));
      }
    } else {
      P2Add(r, 32 - r);
      TopWordRange(x, top, x % W32, P2(r), P2(32 - r));
    }
  }

  lemma TopWordRange(x: int, t: int, l: int, p: int, s: int)
    requires p > 0 && s > 0 && p * s == W32 && x == t * W32 + l && 0 <= l < W32
    requires W32 <= 2 * (t * p) < 2 * W32
    ensures W64 <= 2 * (x * p) < 2 * W64
  {
    assert x * p == (t * p) * W32 + l * p;
    if t >= s { MulGe(t, s, p); }
    MulGe(s - 1, t, p);
    assert (s - 1) * p == W32 - p;
    MulGe(W32 - 1, l, p);
    MulGe(l, 0, p);
  }
}
