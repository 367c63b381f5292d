/** f64_le, the order on encodings, and the monotonicity of rounding and of f64_add. */
module Order64 {
  import opened Powers
  import opened Words
  import opened Rounding
  import opened FpState
  import opened Binary64
  import opened Operands64
  import opened Add64

  /** The order of IEEE 754 section 5.11 on encodings: unordered when either is a NaN, -0 == +0. */
  ghost predicate LessOrEqual(a: u64, b: u64) {
    if IsNaN(a) || IsNaN(b) then false
    else if IsInfinite(a) then SignOf(a) || (IsInfinite(b) && !SignOf(b))
    else if IsInfinite(b) then !SignOf(b)
    else Value(a) <= Value(b)
  }

  /** The comparison made by f64_le on the bits of operands that are no NaNs. */
  predicate BitOrder(a: u64, b: u64) {
    if SignOf(a) != SignOf(b) then SignOf(a) || (MagOf(a) == 0 && MagOf(b) == 0)
    else a == b || SignOf(a) != (a < b)
  }

  // ----- magnitudes -----

  /** The encodings with one exponent field hold the numbers between two neighbouring powers of two. */
  lemma BlockBounds(m: nat)
    ensures MagValue(m) < Scale(HIDDEN64 as real, m / HIDDEN64 - 1074)
    ensures HIDDEN64 <= m ==> Scale(HIDDEN64 as real, m / HIDDEN64 - 1075) <= MagValue(m)
  {
    hide Pow2;
    var e, f := m / HIDDEN64, m % HIDDEN64;
    if m < HIDDEN64 {
      assert e == 0;
      ScaleLess(m as real, HIDDEN64 as real, -1074);
    } else {
      ScaleHalf(HIDDEN64 as real, e - 1075);
      ScaleSum(HIDDEN64 as real, HIDDEN64 as real, e - 1075);
      ScaleLess((HIDDEN64 + f) as real, (HIDDEN64 + HIDDEN64) as real, e - 1075);
      ScaleLess(HIDDEN64 as real, (HIDDEN64 + f) as real, e - 1075);
      hide Scale;
    }
  }

  lemma ScaleHalf(x: real, e: int)
    ensures Scale(x, e + 1) == Scale(x, e) + Scale(x, e)
  {
    Pow2Succ(e);
    hide Pow2;
  }

  lemma HigherBlock(e: int, f: int)
    requires e <= f
    ensures Scale(HIDDEN64 as real, e) <= Scale(HIDDEN64 as real, f)
  {
    Pow2Mono(e, f);
    hide Pow2;
  }

  /** Magnitudes are ordered as their encodings, even past the largest exponent. */
  lemma MagOrder(m: nat, n: nat)
    ensures m < n <==> MagValue(m) < MagValue(n)
    ensures m == n <==> MagValue(m) == MagValue(n)
  {
    if m < n { MagStrict(m, n); }
    if n < m { MagStrict(n, m); }
  }

  lemma MagStrict(m: nat, n: nat)
    requires m < n
    ensures MagValue(m) < MagValue(n)
  {
    var e, f := m / HIDDEN64, n / HIDDEN64;
    if e == f {
      var x := if m < HIDDEN64 then m else HIDDEN64 + m % HIDDEN64;
      var y := if n < HIDDEN64 then n else HIDDEN64 + n % HIDDEN64;
      ScaleLess(x as real, y as real, if e == 0 then -1074 else e - 1075);
      hide Scale;
    } else {
      BlockBounds(m);
      BlockBounds(n);
      HigherBlock(e - 1074, f - 1075);
      hide Scale, MagValue;
    }
  }

  lemma MagZero(m: nat)
    ensures MagValue(m) >= 0.0
    ensures MagValue(m) == 0.0 <==> m == 0
  {
    assert MagValue(0) == 0.0;
    MagOrder(0, m);
    hide MagValue;
  }

  /** On encodings that are no NaNs the bit comparison is the numerical one. */
  lemma BitOrderIsOrder(a: u64, b: u64)
    requires !IsNaN(a) && !IsNaN(b)
    ensures BitOrder(a, b) <==> LessOrEqual(a, b)
  {
    Fields(a);
    Fields(b);
    InfiniteMag(a);
    InfiniteMag(b);
    MagZero(MagOf(a));
    MagZero(MagOf(b));
    MagOrder(MagOf(a), MagOf(b));
    hide MagValue, IsNaN, IsInfinite, IsFinite, ExpOf, FracOf;
  }

  lemma InfiniteMag(a: u64)
    ensures IsInfinite(a) <==> MagOf(a) == INF64
  {
    Fields(a);
  }

  /** The order is total and transitive on what is no NaN, and antisymmetric up to the two zeros. */
  lemma TotalOrder(a: u64, b: u64, c: u64)
    requires !IsNaN(a) && !IsNaN(b) && !IsNaN(c)
    ensures LessOrEqual(a, b) || LessOrEqual(b, a)
    ensures LessOrEqual(a, b) && LessOrEqual(b, c) ==> LessOrEqual(a, c)
    ensures LessOrEqual(a, b) && LessOrEqual(b, a) <==> a == b || (IsZero(a) && IsZero(b))
  {
    hide LessOrEqual, IsNaN;
    BitOrderIsOrder(a, b);
    BitOrderIsOrder(b, a);
    BitOrderIsOrder(b, c);
    BitOrderIsOrder(a, c);
    SignAndMag(a);
    SignAndMag(b);
    SignAndMag(c);
    hide SignOf, MagOf;
  }

  lemma SignAndMag(a: u64)
    ensures a == Bit(SignOf(a)) * TOP64 + MagOf(a) && 0 <= MagOf(a) < TOP64
  {
  }

  /** Infinity is above every number and below none, minus infinity the other way round. */
  lemma InfinitiesOutside(a: u64)
    requires IsFinite(a)
    ensures LessOrEqual(a, 0x7FF0_0000_0000_0000) && !LessOrEqual(0x7FF0_0000_0000_0000, a)
    ensures LessOrEqual(0xFFF0_0000_0000_0000, a) && !LessOrEqual(a, 0xFFF0_0000_0000_0000)
  {
    var top, bottom := 0x7FF0_0000_0000_0000, 0xFFF0_0000_0000_0000;
    Fields(a);
    Fields(top);
    Fields(bottom);
    assert !IsNaN(a) && !IsNaN(top) && !IsNaN(bottom);
    BitOrderIsOrder(a, top);
    BitOrderIsOrder(top, a);
    BitOrderIsOrder(a, bottom);
    BitOrderIsOrder(bottom, a);
    hide LessOrEqual, IsNaN, ExpOf, FracOf;
  }

  /** Next to a NaN nothing is ordered. */
  lemma NaNsUnordered(a: u64, b: u64)
    ensures IsNaN(a) || IsNaN(b) ==> !LessOrEqual(a, b) && !LessOrEqual(b, a)
  {
  }

  method F64Le(env: FpEnv, a: u64, b: u64) returns (le: bool)
    modifies env`flags
    ensures le <==> LessOrEqual(a, b)
    ensures env.flags == old(env.flags).Or(RaisedWhen(IsNaN(a) || IsNaN(b), INVALID))
  {
    hide BitOrder;
    if (ExpOf(a) == 0x7FF && FracOf(a) != 0) || (ExpOf(b) == 0x7FF && FracOf(b) != 0) {
      env.Raise(INVALID);
      le := false;
      return;
    }
    BitOrderIsOrder(a, b);
    hide LessOrEqual;
    le := BitOrder(a, b);
  }

  // ----- monotonicity -----

  /** The magnitude bits that are delivered for x. */
  ghost function DeliveredMag(mode: Mode, neg: bool, x: real): int
    requires x >= 0.0
  {
    if RoundedMag(mode, neg, x) < INF64 then RoundedMag(mode, neg, x)
    else if OverflowsToInfinity(mode, neg) then INF64 else INF64 - 1
  }

  lemma DeliveredBits(mode: Mode, neg: bool, x: real)
    requires x >= 0.0
    ensures 0 <= DeliveredMag(mode, neg, x) <= INF64
    ensures Round64(mode, neg, x).bits == Bit(neg) * TOP64 + DeliveredMag(mode, neg, x)
  {
    RoundedMagBounds(mode, neg, x);
    hide Significand, Quantum, Rounded, Pow2;
  }

  /** A larger number is not delivered as a smaller one. */
  lemma DeliveredMono(mode: Mode, neg: bool, x: real, y: real)
    requires 0.0 <= x <= y
    ensures DeliveredMag(mode, neg, x) <= DeliveredMag(mode, neg, y)
  {
    RoundedMagBounds(mode, neg, x);
    RoundedMagBounds(mode, neg, y);
    RoundedMono(BINARY64, mode, neg, x, y);
    MagOrder(RoundedMag(mode, neg, y), RoundedMag(mode, neg, x));
    hide RoundedMag, MagValue, Rounded, OverflowsToInfinity;
  }

  /** Sign and magnitude of a rounded real number. */
  lemma RoundedSign(mode: Mode, x: real, zeroSign: bool) returns (neg: bool, mag: int)
    ensures 0 <= mag <= INF64 && RoundSigned(mode, x, zeroSign).bits == Bit(neg) * TOP64 + mag
    ensures x > 0.0 ==> !neg && mag == DeliveredMag(mode, false, x)
    ensures x < 0.0 ==> neg && mag == DeliveredMag(mode, true, -x)
    ensures x == 0.0 ==> mag == 0
  {
    hide Round64, DeliveredMag;
    neg, mag := zeroSign, 0;
    if x > 0.0 {
      DeliveredBits(mode, false, x);
      neg, mag := false, DeliveredMag(mode, false, x);
    } else if x < 0.0 {
      DeliveredBits(mode, true, -x);
      neg, mag := true, DeliveredMag(mode, true, -x);
    }
  }

  /** Rounding real numbers to encodings is monotone, across signs, zeros and overflow. */
  lemma RoundSignedMono(mode: Mode, x: real, y: real, zx: bool, zy: bool)
    requires x <= y
    ensures 0 <= RoundSigned(mode, x, zx).bits < W64 && 0 <= RoundSigned(mode, y, zy).bits < W64
    ensures LessOrEqual(RoundSigned(mode, x, zx).bits, RoundSigned(mode, y, zy).bits)
  {
    hide RoundSigned, DeliveredMag, LessOrEqual, BitOrder;
    var n, mx := RoundedSign(mode, x, zx);
    var p, my := RoundedSign(mode, y, zy);
    if 0.0 < x { DeliveredMono(mode, false, x, y); }
    if y < 0.0 { DeliveredMono(mode, true, -y, -x); }
    InOrder(n, mx, p, my);
  }

  lemma InOrder(n: bool, m: int, p: bool, k: int)
    requires 0 <= m <= INF64 && 0 <= k <= INF64
    requires (n && !p) || (m == 0 && k == 0) || (!n && !p && m <= k) || (n && p && k <= m) || (m == 0 && !p) || (n && k == 0)
    ensures 0 <= Bit(n) * TOP64 + m < W64 && 0 <= Bit(p) * TOP64 + k < W64
    ensures LessOrEqual(Bit(n) * TOP64 + m, Bit(p) * TOP64 + k)
  {
    SignedMag(n, m);
    SignedMag(p, k);
    BitOrderIsOrder(Bit(n) * TOP64 + m, Bit(p) * TOP64 + k);
    hide LessOrEqual, SignOf, MagOf, IsNaN;
  }

  /** Floating-point addition is monotone, although it rounds. */
  lemma AddMonotone(mode: Mode, a: u64, b: u64, c: u64)
    requires IsFinite(a) && IsFinite(b) && IsFinite(c) && LessOrEqual(a, b)
    ensures 0 <= Sum(mode, a, c, false).bits < W64 && 0 <= Sum(mode, b, c, false).bits < W64
    ensures LessOrEqual(Sum(mode, a, c, false).bits, Sum(mode, b, c, false).bits)
  {
    hide Round64, Value, RoundSigned;
    assert Value(a) + Value(c) <= Value(b) + Value(c);
    var za := if SignOf(a) == SignOf(c) then SignOf(a) else mode.Min?;
    var zb := if SignOf(b) == SignOf(c) then SignOf(b) else mode.Min?;
    RoundSignedMono(mode, Value(a) + Value(c), Value(b) + Value(c), za, zb);
    hide LessOrEqual;
  }
}
