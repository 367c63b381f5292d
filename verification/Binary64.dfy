/** The binary64 interchange encoding, and the correctly rounded result of a real number as an encoding. */
module Binary64 {
  import opened Arith
  import opened Powers
  import opened Sticky
  import opened Words
  import opened Rounding
  import opened FpState
  import opened Packing

  const HIDDEN64: int := 0x10_0000_0000_0000
  const INF64: int := 0x7FF0_0000_0000_0000
  const NAN64: int := 0xFFFF_FFFF_FFFF_FFFF

  function SignOf(a: u64): bool { a >= TOP64 }
  function MagOf(a: u64): u64 { a % TOP64 }
  function ExpOf(a: u64): (e: int)
    ensures 0 <= e <= 0x7FF
  {
    (a / HIDDEN64) % 0x800
  }
  function FracOf(a: u64): (f: u64)
    ensures f < HIDDEN64
  {
    a % HIDDEN64
  }

  predicate IsNaN(a: u64) { ExpOf(a) == 0x7FF && FracOf(a) != 0 }
  predicate IsFinite(a: u64) { ExpOf(a) < 0x7FF }

  /** packToF64UI: the fields are added, so an integer bit of sig carries into the exponent. */
  function Pack(sign: bool, exp: int, sig: int): u64 {
    Wrap64(Bit(sign) * TOP64 + exp * HIDDEN64 + sig)
  }

  /** The number a finite magnitude (encoding without sign) stands for. */
  ghost function MagValue(m: nat): real {
    if m < HIDDEN64 then Scale(m as real, -1074)
    else Scale((HIDDEN64 + m % HIDDEN64) as real, m / HIDDEN64 - 1075)
  }

  /** The absolute value of a finite encoding. */
  ghost function AbsValue(a: u64): real {
    MagValue(MagOf(a))
  }

  lemma AbsIsMag(a: u64)
    ensures AbsValue(a) == MagValue(MagOf(a))
  {
  }

  /** The value of a finite encoding. */
  ghost function Value(a: u64): real {
    if SignOf(a) then -AbsValue(a) else AbsValue(a)
  }

  lemma Fields(a: u64)
    ensures a == Bit(SignOf(a)) * TOP64 + ExpOf(a) * HIDDEN64 + FracOf(a)
    ensures MagOf(a) == ExpOf(a) * HIDDEN64 + FracOf(a)
    ensures IsFinite(a) <==> MagOf(a) < INF64
    ensures IsNaN(a) <==> MagOf(a) > INF64
  {
  }

  /** Putting a sign on magnitude bits, up to those of infinity. */
  lemma SignedMag(neg: bool, mag: int)
    requires 0 <= mag <= INF64
    ensures 0 <= Bit(neg) * TOP64 + mag < W64
    ensures
      var z := Bit(neg) * TOP64 + mag;
      SignOf(z) == neg && MagOf(z) == mag && !IsNaN(z) && (IsFinite(z) <==> mag < INF64)
  {
    Fields(Bit(neg) * TOP64 + mag);
  }

  // ----- rounding to an encoding -----

  /** n units of 2^q; any carry of n out of its field moves into the exponent. */
  function Encode(n: int, q: int): int {
    (q + 1074) * HIDDEN64 + n
  }

  lemma EncodeValue(n: nat, q: int)
    requires -1074 <= q && n <= 2 * HIDDEN64 && (-1074 < q ==> HIDDEN64 <= n)
    ensures Encode(n, q) >= 0
    ensures MagValue(Encode(n, q)) == Scale(n as real, q)
  {
    var m := Encode(n, q);
    if n < HIDDEN64 {
      assert m == n;
    } else if n < 2 * HIDDEN64 {
      assert m == (q + 1075) * HIDDEN64 + (n - HIDDEN64);
      assert m / HIDDEN64 == q + 1075 && m % HIDDEN64 == n - HIDDEN64;
    } else {
      assert m == (q + 1076) * HIDDEN64;
      assert m / HIDDEN64 == q + 1076 && m % HIDDEN64 == 0;
      ScaleHalf(n as real, q);
      assert Scale(n as real, q + 1) == 2.0 * Scale(n as real, q);
      assert Scale(n as real, q + 1) == 2.0 * Scale(HIDDEN64 as real, q + 1);
    }
  }

  /** Whether overflow delivers infinity rather than the largest finite number. */
  predicate OverflowsToInfinity(mode: Mode, neg: bool) {
    match mode
    case NearEven => true
    case NearMaxMag => true
    case MinMag => false
    case Min => neg
    case Max => !neg
  }

  /** The encoding of x rounded as if the exponent range had no upper end. */
  ghost function RoundedMag(mode: Mode, neg: bool, x: real): int
    requires x >= 0.0
  {
    Encode(Significand(BINARY64, mode, neg, x), Quantum(BINARY64, x))
  }

  /** The result for n units of 2^q: packed, or overflowed when it leaves the range. */
  function Deliver(mode: Mode, neg: bool, n: int, q: int, inexact: bool, tiny: bool): Outcome {
    if Encode(n, q) >= INF64 then
      Outcome(Bit(neg) * TOP64 + (if OverflowsToInfinity(mode, neg) then INF64 else INF64 - 1), OVERFLOW.Or(INEXACT))
    else
      Outcome(Bit(neg) * TOP64 + Encode(n, q),
              RaisedWhen(inexact, INEXACT).Or(RaisedWhen(inexact && tiny, UNDERFLOW)))
  }

  /**
   * The IEEE 754 result for an operation whose exact result is x with the sign neg: rounded once, inexact
   * when that changes it, underflow when it is also tiny before rounding, overflow when it leaves the range.
   */
  ghost function Round64(mode: Mode, neg: bool, x: real): Outcome
    requires x >= 0.0
  {
    Deliver(mode, neg, Significand(BINARY64, mode, neg, x), Quantum(BINARY64, x),
            Rounded(BINARY64, mode, neg, x) != x, x < Pow2(-1022))
  }

  lemma RoundedMagBounds(mode: Mode, neg: bool, x: real)
    requires x >= 0.0
    ensures RoundedMag(mode, neg, x) >= 0
    ensures MagValue(RoundedMag(mode, neg, x)) == Rounded(BINARY64, mode, neg, x)
    ensures 0 <= Round64(mode, neg, x).bits < W64
  {
    hide P2, Pow2, Quantum, Significand, MagValue, Scale;
    SignificandBounds(BINARY64, mode, neg, x);
    assert P2(52) == HIDDEN64 && P2(53) == 2 * HIDDEN64 by { P2Values(); }
    EncodeValue(Significand(BINARY64, mode, neg, x), Quantum(BINARY64, x));
    hide Encode;
  }

  /** The pivot for binary64: numbers at one position of a grid finer than half a quantum round alike. */
  lemma SameOutcome(mode: Mode, neg: bool, x: real, y: real, h: int)
    requires x >= 0.0 && y >= 0.0
    requires Position(Scale(x, -h)) == Position(Scale(y, -h))
    requires h < Quantum(BINARY64, x)
    ensures Round64(mode, neg, x) == Round64(mode, neg, y)
  {
    SamePositionSameRounding(BINARY64, mode, neg, x, y, h);
    RoundedExact(BINARY64, mode, neg, x);
    RoundedExact(BINARY64, mode, neg, y);
    var q := Quantum(BINARY64, x);
    if q > -1074 {
      Pow2Mono(-1022, q + 52);
    } else {
      SamePositionSameOrder(x, y, h, -1022);
    }
    hide Pow2, Scale, P2, Quantum, QuantumFrom, Significand, Encode, Representable;
  }

  /** The number a significand with ten extra bits stands for at exponent e. */
  ghost function PackedAbs(e: int, sig: u64): (x: real)
    ensures x >= 0.0
  {
    ScaleLess(0.0, sig as real, e - 1084);
    PackedValue(BINARY64, 10, e, sig)
  }

  /**
   * What every operation uses: sig, packed at exponent e, rounds as x does when sig and x stand at the same
   * place on the grid of half units in the last place.
   */
  lemma PackedLike(mode: Mode, neg: bool, e: int, sig: u64, x: real)
    requires Normalised(BINARY64, 10, sig) && x >= 0.0
    requires Position(Ratio(sig, 0x200)) == Position(Scale(x, 1075 - e))
    ensures Round64(mode, neg, PackedAbs(e, sig)) == Round64(mode, neg, x)
  {
    var y := PackedValue(BINARY64, 10, e, sig);
    P2Values();
    PackedRange(BINARY64, 10, e, sig);
    var h := e - 1075;
    assert Scale(y, -h) == Ratio(sig, 0x200) by {
      ScaleScale(sig as real, e - 1084, -h);
      RatioScale(sig, 9);
    }
    QuantumAbove(y, e);
    SameOutcome(mode, neg, y, x, h);
  }

  lemma QuantumAbove(y: real, e: int)
    requires Pow2(e - 1022) <= y
    ensures e - 1075 < Quantum(BINARY64, y)
  {
    var q := Quantum(BINARY64, y);
    hide Quantum, Pow2;
    if q + 53 <= e - 1022 { Pow2Mono(q + 53, e - 1022); }
  }

  /** Shifting a significand and lowering its exponent alike keeps the number. */
  lemma PackedShift(e: int, sig: nat, k: nat)
    requires sig * P2(k) < W64
    ensures sig < W64
    ensures PackedAbs(e - k, sig * P2(k)) == PackedAbs(e, sig)
  {
    MulGe(P2(k), 1, sig);
    ScaleNat(sig, k);
    ScaleScale(sig as real, k, e - k - 1084);
    hide P2, Pow2;
    assert k + (e - k - 1084) == e - 1084;
  }

  /**
   * A jammed significand rounds like the exact number n/d it was jammed from, at exponent e, as long as it
   * still has the bits of the field and a few more (or nothing was cut off).
   */
  lemma JamRounds(mode: Mode, neg: bool, e: int, n: nat, d: nat, x: real)
    requires d > 0 && x == Scale(Ratio(n, d), e - 1084) && Jam(n, d) < W64
    requires !Cut(n, d) || 0x80_0000_0000_0000 <= Jam(n, d)
    ensures x >= 0.0
    ensures Round64(mode, neg, PackedAbs(e, Jam(n, d))) == Round64(mode, neg, x)
  {
    hide Round64, Pow2, P2, Quantum;
    var j := Jam(n, d);
    RatioBounds(n, d);
    ScaleLess(0.0, Ratio(n, d), e - 1084);
    if Cut(n, d) {
      var h := e - 1083;
      assert h == e - 1084 + 1;
      JamPlace(n, d, e - 1084);
      BigEnough(e, j);
      hide Scale, Position, Jam, Ratio;
      SameOutcome(mode, neg, PackedAbs(e, j), x, h);
    } else {
      assert Ratio(n, d) == j as real;
    }
  }

  lemma ScaleZero(x: real)
    ensures Scale(x, 0) == x
  {
  }

  lemma BigEnough(e: int, j: u64)
    requires 0x80_0000_0000_0000 <= j
    ensures e - 1083 < Quantum(BINARY64, PackedAbs(e, j))
  {
    PowerRatio(e - 1084, 55);
    P2Add(3, 52);
    P2Values();
    ScaleLess(P2(55) as real, j as real, e - 1084);
    assert e - 1084 + 55 == e - 7 - 1022;
    QuantumAbove(PackedAbs(e, j), e - 7);
  }

  /** A finite magnitude rounds to itself, raising nothing. */
  lemma ExactMag(mode: Mode, neg: bool, m: nat)
    requires m < INF64
    ensures MagValue(m) >= 0.0
    ensures Round64(mode, neg, MagValue(m)) == Outcome(Bit(neg) * TOP64 + m, NO_FLAGS)
  {
    var n := if m < HIDDEN64 then m else HIDDEN64 + m % HIDDEN64;
    var q := if m < HIDDEN64 then -1074 else m / HIDDEN64 - 1075;
    var x := MagValue(m);
    assert Encode(n, q) == m && x == Scale(n as real, q);
    hide P2, Pow2, RoundAt, Quantum, IsQuantum, Scale, MagValue;
    MagQuantum(n, q);
    ScaleBack(n as real, q);
    WholeRound(mode, neg, n);
  }

  lemma MagQuantum(n: nat, q: int)
    requires n < 2 * HIDDEN64 && -1074 <= q && (-1074 < q ==> HIDDEN64 <= n)
    ensures Scale(n as real, q) >= 0.0 && Quantum(BINARY64, Scale(n as real, q)) == q
  {
    P2Values();
    hide P2, Pow2, Quantum;
    ScaleLess(0.0, n as real, q);
    PowerRatio(q, 53);
    PowerRatio(q, 52);
    ScaleLess(n as real, P2(53) as real, q);
    ScaleLess(P2(52) as real, n as real, q);
    assert q + 53 - 1 == q + 52;
    QuantumUnique(BINARY64, Scale(n as real, q), q);
  }

  lemma WholeRound(mode: Mode, neg: bool, n: int)
    ensures RoundAt(mode, neg, n as real) == n
  {
  }

  /** A number the format has, well inside the range, is delivered exactly and silently. */
  lemma RepresentableOutcome(mode: Mode, neg: bool, x: real)
    requires 0.0 <= x < Pow2(1023) && Representable(BINARY64, x)
    ensures
      var out := Round64(mode, neg, x);
      && out.flags == NO_FLAGS && 0 <= out.bits < W64
      && IsFinite(out.bits) && SignOf(out.bits) == neg && AbsValue(out.bits) == x
  {
    hide Pow2, P2, Rounded, Representable, Quantum, Significand;
    var q, n := Quantum(BINARY64, x), Significand(BINARY64, mode, neg, x);
    RoundedExact(BINARY64, mode, neg, x);
    SignificandBounds(BINARY64, mode, neg, x);
    P2Values();
    RoundedMagBounds(mode, neg, x);
    if 970 < q {
      Pow2Mono(1023, q + 52);
    }
    hide MagValue;
    var m := Encode(n, q);
    assert 0 <= m < INF64;
    Fields(Bit(neg) * TOP64 + m);
  }

  /** Every finite number is a whole number of units of 2^-1074. */
  lemma Units(a: u64) returns (units: nat)
    requires IsFinite(a)
    ensures AbsValue(a) == Scale(units as real, -1074)
  {
    var m := MagOf(a);
    if m < HIDDEN64 {
      units := m;
    } else {
      var k := m / HIDDEN64 - 1;
      units := (HIDDEN64 + m % HIDDEN64) * P2(k);
      ScaleNat(HIDDEN64 + m % HIDDEN64, k);
      ScaleScale((HIDDEN64 + m % HIDDEN64) as real, k, -1074);
    }
  }
}
