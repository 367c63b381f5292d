/** The binary32 interchange encoding, and the correctly rounded result of a real number as an encoding. */
module Binary32 {
  import opened Arith
  import opened Powers
  import opened Sticky
  import opened Words
  import opened Rounding
  import opened FpState
  import opened Packing
  import opened Binary64

  const TOP32: int := 0x8000_0000
  const HIDDEN32: int := 0x80_0000
  const INF32: int := 0x7F80_0000
  const NAN32: int := 0xFFFF_FFFF

  function SignOf32(a: u32): bool { a >= TOP32 }
  function MagOf32(a: u32): u32 { a % TOP32 }
  function ExpOf32(a: u32): (e: int)
    ensures 0 <= e <= 0xFF
  {
    (a / HIDDEN32) % 0x100
  }
  function FracOf32(a: u32): (f: u32)
    ensures f < HIDDEN32
  {
    a % HIDDEN32
  }

  predicate IsNaN32(a: u32) { ExpOf32(a) == 0xFF && FracOf32(a) != 0 }
  predicate IsFinite32(a: u32) { ExpOf32(a) < 0xFF }

  /** packToF32UI: the fields are added, so an integer bit of sig carries into the exponent. */
  function Pack32(sign: bool, exp: int, sig: int): u32 {
    Wrap32(Bit(sign) * TOP32 + exp * HIDDEN32 + sig)
  }

  /** The number a finite magnitude (encoding without sign) stands for. */
  ghost function MagValue32(m: nat): real {
    if m < HIDDEN32 then Scale(m as real, -149)
    else Scale((HIDDEN32 + m % HIDDEN32) as real, m / HIDDEN32 - 150)
  }

  /** The absolute value of a finite encoding. */
  ghost function AbsValue32(a: u32): real {
    MagValue32(MagOf32(a))
  }

  lemma Fields32(a: u32)
    ensures a == Bit(SignOf32(a)) * TOP32 + ExpOf32(a) * HIDDEN32 + FracOf32(a)
    ensures MagOf32(a) == ExpOf32(a) * HIDDEN32 + FracOf32(a)
    ensures IsFinite32(a) <==> MagOf32(a) < INF32
    ensures IsNaN32(a) <==> MagOf32(a) > INF32
  {
  }

  // ----- rounding to an encoding -----

  /** n units of 2^q; any carry of n out of its field moves into the exponent. */
  function Encode32(n: int, q: int): int {
    (q + 149) * HIDDEN32 + n
  }

  lemma EncodeValue32(n: nat, q: int)
    requires -149 <= q && n <= 2 * HIDDEN32 && (-149 < q ==> HIDDEN32 <= n)
    ensures Encode32(n, q) >= 0
    ensures MagValue32(Encode32(n, q)) == Scale(n as real, q)
  {
    var m := Encode32(n, q);
    if n < HIDDEN32 {
      assert m == n;
    } else if n < 2 * HIDDEN32 {
      assert m == (q + 150) * HIDDEN32 + (n - HIDDEN32);
      assert m / HIDDEN32 == q + 150 && m % HIDDEN32 == n - HIDDEN32;
    } else {
      assert m == (q + 151) * HIDDEN32;
      assert m / HIDDEN32 == q + 151 && m % HIDDEN32 == 0;
      ScaleHalf(n as real, q);
      assert Scale(n as real, q + 1) == 2.0 * Scale(n as real, q);
      assert Scale(n as real, q + 1) == 2.0 * Scale(HIDDEN32 as real, q + 1);
    }
  }

  /** The encoding of x rounded as if the exponent range had no upper end. */
  ghost function RoundedMag32(mode: Mode, neg: bool, x: real): int
    requires x >= 0.0
  {
    Encode32(Significand(BINARY32, mode, neg, x), Quantum(BINARY32, x))
  }

  /** The result for n units of 2^q: packed, or overflowed when it leaves the range. */
  function Deliver32(mode: Mode, neg: bool, n: int, q: int, inexact: bool, tiny: bool): Outcome {
    if Encode32(n, q) >= INF32 then
      Outcome(Bit(neg) * TOP32 + (if OverflowsToInfinity(mode, neg) then INF32 else INF32 - 1), OVERFLOW.Or(INEXACT))
    else
      Outcome(Bit(neg) * TOP32 + Encode32(n, q),
              RaisedWhen(inexact, INEXACT).Or(RaisedWhen(inexact && tiny, UNDERFLOW)))
  }

  /**
   * The IEEE 754 result for an operation whose exact result is x with the sign neg: rounded once, inexact
   * when that changes it, underflow when it is also tiny before rounding, overflow when it leaves the range.
   */
  ghost function Round32(mode: Mode, neg: bool, x: real): Outcome
    requires x >= 0.0
  {
    Deliver32(mode, neg, Significand(BINARY32, mode, neg, x), Quantum(BINARY32, x),
            Rounded(BINARY32, mode, neg, x) != x, x < Pow2(-126))
  }

  lemma RoundedMagBounds32(mode: Mode, neg: bool, x: real)
    requires x >= 0.0
    ensures RoundedMag32(mode, neg, x) >= 0
    ensures MagValue32(RoundedMag32(mode, neg, x)) == Rounded(BINARY32, mode, neg, x)
    ensures 0 <= Round32(mode, neg, x).bits < W32
  {
    hide P2, Pow2, Quantum, Significand, MagValue32, Scale;
    SignificandBounds(BINARY32, mode, neg, x);
    assert P2(23) == HIDDEN32 && P2(24) == 2 * HIDDEN32 by { P2Values(); }
    EncodeValue32(Significand(BINARY32, mode, neg, x), Quantum(BINARY32, x));
    hide Encode32;
  }

  /** The pivot for binary32: numbers at one position of a grid finer than half a quantum round alike. */
  lemma SameOutcome32(mode: Mode, neg: bool, x: real, y: real, h: int)
    requires x >= 0.0 && y >= 0.0
    requires Position(Scale(x, -h)) == Position(Scale(y, -h))
    requires h < Quantum(BINARY32, x)
    ensures Round32(mode, neg, x) == Round32(mode, neg, y)
  {
    SamePositionSameRounding(BINARY32, mode, neg, x, y, h);
    RoundedExact(BINARY32, mode, neg, x);
    RoundedExact(BINARY32, mode, neg, y);
    var q := Quantum(BINARY32, x);
    if q > -149 {
      Pow2Mono(-126, q + 23);
    } else {
      SamePositionSameOrder(x, y, h, -126);
    }
    hide Pow2, Scale, P2, Quantum, QuantumFrom, Significand, Encode32, Representable;
  }

  /** The number a significand with seven extra bits stands for at exponent e. */
  ghost function PackedAbs32(e: int, sig: u32): (x: real)
    ensures x >= 0.0
  {
    ScaleLess(0.0, sig as real, e - 156);
    PackedValue(BINARY32, 7, e, sig)
  }

  /**
   * What every operation uses: sig, packed at exponent e, rounds as x does when sig and x stand at the same
   * place on the grid of half units in the last place.
   */
  lemma PackedLike32(mode: Mode, neg: bool, e: int, sig: u32, x: real)
    requires Normalised(BINARY32, 7, sig) && x >= 0.0
    requires Position(Ratio(sig, 0x40)) == Position(Scale(x, 150 - e))
    ensures Round32(mode, neg, PackedAbs32(e, sig)) == Round32(mode, neg, x)
  {
    var y := PackedValue(BINARY32, 7, e, sig);
    P2Values();
    PackedRange(BINARY32, 7, e, sig);
    var h := e - 150;
    assert Scale(y, -h) == Ratio(sig, 0x40) by {
      ScaleScale(sig as real, e - 156, -h);
      RatioScale(sig, 6);
    }
    QuantumAbove32(y, e);
    SameOutcome32(mode, neg, y, x, h);
  }

  lemma QuantumAbove32(y: real, e: int)
    requires Pow2(e - 126) <= y
    ensures e - 150 < Quantum(BINARY32, y)
  {
    var q := Quantum(BINARY32, y);
    hide Quantum, Pow2;
    if q + 24 <= e - 126 { Pow2Mono(q + 24, e - 126); }
  }

  /** Shifting a significand and lowering its exponent alike keeps the number. */
  lemma PackedShift32(e: int, sig: nat, k: nat)
    requires sig * P2(k) < W32
    ensures sig < W32
    ensures PackedAbs32(e - k, sig * P2(k)) == PackedAbs32(e, sig)
  {
    MulGe(P2(k), 1, sig);
    ScaleNat(sig, k);
    ScaleScale(sig as real, k, e - k - 156);
    hide P2, Pow2;
    assert k + (e - k - 156) == e - 156;
  }

  /**
   * A jammed significand rounds like the exact number n/d it was jammed from, at exponent e, as long as it
   * still has the bits of the field and a few more (or nothing was cut off).
   */
  lemma JamRounds32(mode: Mode, neg: bool, e: int, n: nat, d: nat, x: real)
    requires d > 0 && x == Scale(Ratio(n, d), e - 156) && Jam(n, d) < W32
    requires !Cut(n, d) || 0x200_0000 <= Jam(n, d)
    ensures x >= 0.0
    ensures Round32(mode, neg, PackedAbs32(e, Jam(n, d))) == Round32(mode, neg, x)
  {
    hide Round32, Pow2, P2, Quantum;
    var j := Jam(n, d);
    RatioBounds(n, d);
    ScaleLess(0.0, Ratio(n, d), e - 156);
    if Cut(n, d) {
      var h := e - 155;
      assert h == e - 156 + 1;
      JamPlace(n, d, e - 156);
      BigEnough32(e, j);
      hide Scale, Position, Jam, Ratio;
      SameOutcome32(mode, neg, PackedAbs32(e, j), x, h);
    } else {
      assert Ratio(n, d) == j as real;
    }
  }

  lemma BigEnough32(e: int, j: u32)
    requires 0x200_0000 <= j
    ensures e - 155 < Quantum(BINARY32, PackedAbs32(e, j))
  {
    PowerRatio(e - 156, 25);
    P2Add(1, 24);
    P2Values();
    ScaleLess(P2(25) as real, j as real, e - 156);
    assert e - 156 + 25 == e - 5 - 126;
    QuantumAbove32(PackedAbs32(e, j), e - 5);
  }

  /** A finite magnitude rounds to itself, raising nothing. */
  lemma ExactMag32(mode: Mode, neg: bool, m: nat)
    requires m < INF32
    ensures MagValue32(m) >= 0.0
    ensures Round32(mode, neg, MagValue32(m)) == Outcome(Bit(neg) * TOP32 + m, NO_FLAGS)
  {
    var n := if m < HIDDEN32 then m else HIDDEN32 + m % HIDDEN32;
    var q := if m < HIDDEN32 then -149 else m / HIDDEN32 - 150;
    var x := MagValue32(m);
    assert Encode32(n, q) == m && x == Scale(n as real, q);
    hide P2, Pow2, RoundAt, Quantum, IsQuantum, Scale, MagValue32;
    MagQuantum32(n, q);
    ScaleBack(n as real, q);
    WholeRound(mode, neg, n);
  }

  lemma MagQuantum32(n: nat, q: int)
    requires n < 2 * HIDDEN32 && -149 <= q && (-149 < q ==> HIDDEN32 <= n)
    ensures Scale(n as real, q) >= 0.0 && Quantum(BINARY32, Scale(n as real, q)) == q
  {
    P2Values();
    hide P2, Pow2, Quantum;
    ScaleLess(0.0, n as real, q);
    PowerRatio(q, 24);
    PowerRatio(q, 23);
    ScaleLess(n as real, P2(24) as real, q);
    ScaleLess(P2(23) as real, n as real, q);
    assert q + 24 - 1 == q + 23;
    QuantumUnique(BINARY32, Scale(n as real, q), q);
  }

}
