/** f64_add and f64_sub: alignment with a sticky shift, cancellation, signed zeros. */
module Add64 {
  import opened Arith
  import opened Powers
  import opened Sticky
  import opened Words
  import opened Rounding
  import opened FpState
  import opened Packing
  import opened Binary64
  import opened RoundPack64
  import opened Operands64

  // ----- sums of magnitudes -----

  /** |a| + |b|, with the sign neg. */
  ghost function MagsSum(mode: Mode, a: u64, b: u64, neg: bool): Outcome {
    if IsNaN(a) || IsNaN(b) then NaNResult(a, b)
    else if IsInfinite(a) || IsInfinite(b) then Outcome(SignBits(neg) + INF64, NO_FLAGS)
    else
      ZeroValue(a); ZeroValue(b);
      Round64(mode, neg, AbsValue(a) + AbsValue(b))
  }

  /** |a| - |b|, negated when neg; an exact zero takes its sign from the rounding mode. */
  ghost function MagsDifference(mode: Mode, a: u64, b: u64, neg: bool): Outcome {
    if IsNaN(a) || IsNaN(b) then NaNResult(a, b)
    else if IsInfinite(a) then
      if IsInfinite(b) then INVALID_RESULT else Outcome(SignBits(neg) + INF64, NO_FLAGS)
    else if IsInfinite(b) then Outcome(SignBits(!neg) + INF64, NO_FLAGS)
    else if AbsValue(a) == AbsValue(b) then Outcome(SignBits(mode.Min?), NO_FLAGS)
    else if AbsValue(a) > AbsValue(b) then Round64(mode, neg, AbsValue(a) - AbsValue(b))
    else Round64(mode, !neg, AbsValue(b) - AbsValue(a))
  }

  /**
   * The smaller operand of an aligned addition: with g guard bits (g = 9 for sums, 10 for differences) a
   * subnormal operand has its missing exponent step made up by one more left shift.
   */
  ghost function Guarded(exp: int, frac: int, g: nat): int {
    if exp != 0 then (HIDDEN64 + frac) * P2(g) else 2 * (frac * P2(g))
  }

  lemma GuardedValue(a: u64, g: nat)
    requires IsFinite(a) && (g == 9 || g == 10)
    ensures AbsValue(a) == Scale(Guarded(ExpOf(a), FracOf(a), g) as real, ExpOf(a) - 1075 - g)
    ensures 0 <= Guarded(ExpOf(a), FracOf(a), g) < 2 * HIDDEN64 * P2(g)
    ensures Guarded(ExpOf(a), FracOf(a), g) % 2 == 0
  {
    hide P2, Pow2, Scale, SignOf;
    Fields(a);
    var e, f := ExpOf(a), FracOf(a);
    GuardedRange(e, f, g);
    if e != 0 {
      DivModUnique(MagOf(a), HIDDEN64, e, f);
      hide ExpOf, FracOf, MagOf, IsFinite;
      ShiftedLeft(HIDDEN64 + f, g, e - 1075);
    } else {
      hide ExpOf, FracOf, MagOf, IsFinite;
      ScaleTwice(f * P2(g), -1075 - g);
      ShiftedLeft(f, g, -1074);
    }
  }

  lemma GuardedRange(e: int, f: nat, g: nat)
    requires f < HIDDEN64 && (g == 9 || g == 10)
    ensures 0 <= Guarded(e, f, g) < 2 * HIDDEN64 * P2(g)
    ensures Guarded(e, f, g) % 2 == 0
  {
    P2Values();
    hide P2;
    DivModUnique((HIDDEN64 + f) * P2(g), 2, (HIDDEN64 + f) * (P2(g) / 2), 0);
    DivModUnique(2 * (f * P2(g)), 2, f * P2(g), 0);
  }

  /** The aligned sum of two significands, m of them to be shifted right by k, is the jammed exact sum. */
  lemma JamSum(big: nat, m: nat, k: nat)
    requires k > 0 && big % 2 == 0
    ensures Jam(big * P2(k) + m, P2(k)) == big + Jam(m, P2(k))
    ensures Cut(big * P2(k) + m, P2(k)) == Cut(m, P2(k))
  {
    hide P2, Quo, Cut, OrBit;
    MultiplePlus(big, m, P2(k));
    OrBitEven(big, Quo(m, P2(k)), Cut(m, P2(k)));
  }

  lemma MultiplePlus(big: nat, m: nat, d: nat)
    requires d > 0
    ensures Quo(big * d + m, d) == big + Quo(m, d) && Cut(big * d + m, d) == Cut(m, d)
  {
    var q, r := m / d, m % d;
    assert m == q * d + r;
    assert big * d + m == (big + q) * d + r;
    DivModUnique(big * d + m, d, big + q, r);
  }

  lemma JamDifference(big: nat, m: nat, k: nat)
    requires k > 0 && big % 2 == 0 && m < 2 * big
    ensures m < big * P2(k) && Jam(m, P2(k)) < big
    ensures Jam(big * P2(k) - m, P2(k)) == big - Jam(m, P2(k))
    ensures Cut(big * P2(k) - m, P2(k)) == Cut(m, P2(k))
  {
    hide P2, Quo, Cut;
    P2Mono(1, k);
    P2Values();
    QuotientOfDifference(big, m, P2(k));
    if Cut(m, P2(k)) {
      OddStep(big, Quo(m, P2(k)));
    }
  }

  lemma OddStep(big: nat, q: nat)
    requires big % 2 == 0 && q < big
    ensures OrBit(q, true) < big
    ensures OrBit(big - q - 1, true) == big - OrBit(q, true)
  {
  }

  lemma QuotientOfDifference(big: nat, m: nat, d: nat)
    requires d >= 2 && m < 2 * big
    ensures m < big * d && Quo(m, d) < big
    ensures Cut(big * d - m, d) == Cut(m, d)
    ensures Cut(m, d) ==> Quo(big * d - m, d) == big - Quo(m, d) - 1
    ensures !Cut(m, d) ==> Quo(big * d - m, d) == big - Quo(m, d)
  {
    var q, r := m / d, m % d;
    assert m == q * d + r;
    MulGe(d, 2, big);
    assert m < big * d;
    if q >= big { MulGe(q, big, d); }
    OneBorrow(big, q, d, r, m);
    if r == 0 {
      DivModUnique(big * d - m, d, big - q, 0);
    } else {
      DivModUnique(big * d - m, d, big - q - 1, d - r);
    }
  }

  lemma OneBorrow(big: int, q: int, d: int, r: int, m: int)
    requires m == q * d + r
    ensures big * d - m == (big - q - 1) * d + (d - r)
    ensures big * d - m == (big - q) * d - r
  {
  }

  method AddMagsF64(env: FpEnv, uiA: u64, uiB: u64, signZ: bool) returns (z: u64)
    requires signZ == SignOf(uiA)
    modifies env`flags
    ensures z == MagsSum(env.roundingMode, uiA, uiB, signZ).bits
    ensures env.flags == old(env.flags).Or(MagsSum(env.roundingMode, uiA, uiB, signZ).flags)
  {
    hide P2, Pow2, Round64, AbsValue, PackedAbs, Normalised, Jam, Guarded, Shift64RightJam;
    hide MagsSum, NaNResult, Pack, SignOf, ExpOf, FracOf;
    var mode := env.roundingMode;
    var expA, sigA := ExpOf(uiA), FracOf(uiA);
    var expB, sigB := ExpOf(uiB), FracOf(uiB);
    var expDiff := expA - expB;
    ghost var fracA, fracB := sigA, sigB;
    SpecialSum(mode, uiA, uiB, signZ);
    GuardShift9(expA, sigA);
    GuardShift9(expB, sigB);
    sigA := Shl64(sigA, 9);
    sigB := Shl64(sigB, 9);
    hide Shl64;
    var expZ, sigZ;
    if expDiff == 0 {
      if expA == 0x7FF {
        if sigA != 0 || sigB != 0 {
          z := PropagateNaNF64UI(env, uiA, uiB);
          return;
        }
        z := uiA;
        return;
      }
      if expA == 0 {
        SubnormalSum(mode, uiA, uiB, signZ);
        z := Pack(signZ, 0, (uiA + uiB) % TOP64);
        return;
      }
      expZ := expA;
      sigZ := 0x4000_0000_0000_0000 + sigA + sigB;
      SameExponentSum(mode, uiA, uiB, signZ, sigZ);
    } else {
      if expDiff < 0 {
        if expB == 0x7FF {
          if sigB != 0 {
            z := PropagateNaNF64UI(env, uiA, uiB);
            return;
          }
          z := Pack(signZ, 0x7FF, 0);
          return;
        }
        expZ := expB;
        sigA := sigA + if expA != 0 then 0x2000_0000_0000_0000 else sigA;
        sigA := Shift64RightJam(sigA, -expDiff);
        AlignedSum(mode, uiB, uiA, signZ, sigA);
      } else {
        if expA == 0x7FF {
          if sigA != 0 {
            z := PropagateNaNF64UI(env, uiA, uiB);
            return;
          }
          z := uiA;
          return;
        }
        expZ := expA;
        sigB := sigB + if expB != 0 then 0x2000_0000_0000_0000 else sigB;
        sigB := Shift64RightJam(sigB, expDiff);
        AlignedSum(mode, uiA, uiB, signZ, sigB);
      }
      sigZ := 0x2000_0000_0000_0000 + sigA + sigB;
      if sigZ < 0x4000_0000_0000_0000 {
        expZ := expZ - 1;
        sigZ := Shl64(sigZ, 1);
      }
    }
    z := RoundPackToF64(env, signZ, expZ, sigZ);
  }

  lemma GuardShift9(exp: int, frac: u64)
    requires frac < HIDDEN64
    ensures Shl64(frac, 9) == frac * 0x200 < 0x2000_0000_0000_0000
    ensures Guarded(exp, frac, 9) == frac * 0x200 + if exp != 0 then 0x2000_0000_0000_0000 else frac * 0x200
  {
    P2Values();
  }

  lemma SpecialSum(mode: Mode, a: u64, b: u64, neg: bool)
    ensures
      var aSpecial, bSpecial := ExpOf(a) == 0x7FF, ExpOf(b) == 0x7FF;
      && ((aSpecial && FracOf(a) != 0) || (bSpecial && FracOf(b) != 0) ==> MagsSum(mode, a, b, neg) == NaNResult(a, b))
      && ((aSpecial || bSpecial) && (aSpecial ==> FracOf(a) == 0) && (bSpecial ==> FracOf(b) == 0)
          ==> MagsSum(mode, a, b, neg) == Outcome(Pack(neg, 0x7FF, 0), NO_FLAGS))
    ensures ExpOf(a) == 0x7FF && FracOf(a) == 0 && neg == SignOf(a) ==> a == Pack(neg, 0x7FF, 0)
  {
    Fields(a);
    Fields(b);
    hide AbsValue, Round64, NaNResult;
  }

  lemma FiniteSum(mode: Mode, a: u64, b: u64, neg: bool)
    requires IsFinite(a) && IsFinite(b)
    ensures AbsValue(a) + AbsValue(b) >= 0.0
    ensures MagsSum(mode, a, b, neg) == Round64(mode, neg, AbsValue(a) + AbsValue(b))
  {
    ZeroValue(a);
    ZeroValue(b);
    hide AbsValue, Round64;
  }

  /** Two subnormals add exactly, as integers, carrying into the normal range by themselves. */
  lemma SubnormalSum(mode: Mode, a: u64, b: u64, neg: bool)
    requires ExpOf(a) == 0 && ExpOf(b) == 0
    ensures MagsSum(mode, a, b, neg) == Outcome(Pack(neg, 0, (a + b) % TOP64), NO_FLAGS)
  {
    hide Round64, MagsSum, Scale;
    Fields(a);
    Fields(b);
    FiniteSum(mode, a, b, neg);
    var m, n := MagOf(a), MagOf(b);
    assert (a + b) % TOP64 == m + n;
    EncodeValue(m + n, -1074);
    ScaleSum(m as real, n as real, -1074);
    assert MagValue(m) == Scale(m as real, -1074) && MagValue(n) == Scale(n as real, -1074);
    ExactMag(mode, neg, m + n);
    hide MagValue;
  }

  lemma SameExponentSum(mode: Mode, a: u64, b: u64, neg: bool, sigZ: u64)
    requires 0 < ExpOf(a) == ExpOf(b) < 0x7FF
    requires sigZ == 0x4000_0000_0000_0000 + FracOf(a) * 0x200 + FracOf(b) * 0x200
    ensures Normalised(BINARY64, 10, sigZ)
    ensures MagsSum(mode, a, b, neg) == Round64(mode, neg, PackedAbs(ExpOf(a), sigZ))
  {
    hide P2, MagsSum, Round64, AbsValue, Scale, ExpOf, FracOf;
    GuardedValue(a, 9);
    GuardedValue(b, 9);
    FiniteSum(mode, a, b, neg);
    P2Values();
    var m, n := Guarded(ExpOf(a), FracOf(a), 9), Guarded(ExpOf(b), FracOf(b), 9);
    assert sigZ == m + n;
    ScaleSum(m as real, n as real, ExpOf(a) - 1084);
  }

  /** A number shifted right by k, at an exponent k higher. */
  lemma ShiftedValue(m: nat, k: nat, e: int)
    ensures Scale(m as real, e - k) == Scale(Ratio(m, P2(k)), e)
  {
    RatioScale(m, k);
    ScaleScale(m as real, 0 - k, e);
  }

  /** The exact sum or difference of aligned operands as one fraction. */
  lemma AlignedValue(big: nat, m: nat, k: nat, e: int)
    ensures Scale(big as real, e) + Scale(m as real, e - k) == Scale(Ratio(big * P2(k) + m, P2(k)), e)
    ensures Scale(big as real, e) - Scale(m as real, e - k) == Scale(Ratio(big * P2(k) - m, P2(k)), e)
  {
    hide P2, Pow2, Scale, Ratio;
    ShiftedValue(m, k, e);
    RatioSum(big, m, P2(k));
    ScaleSum(big as real, Ratio(m, P2(k)), e);
  }

  /** The larger operand a and the shifted smaller one b, added, round as the exact sum does. */
  lemma AlignedSum(mode: Mode, a: u64, b: u64, neg: bool, sigB: u64)
    requires IsFinite(a) && ExpOf(b) < ExpOf(a)
    requires 0 <= Guarded(ExpOf(b), FracOf(b), 9) < W64
    requires sigB == Shift64RightJam(Guarded(ExpOf(b), FracOf(b), 9), ExpOf(a) - ExpOf(b))
    ensures
      var sigZ := 0x2000_0000_0000_0000 + FracOf(a) * 0x200 + sigB;
      var low := sigZ < 0x4000_0000_0000_0000;
      && sigZ < W64
      && Normalised(BINARY64, 10, if low then Shl64(sigZ, 1) else sigZ)
      && MagsSum(mode, a, b, neg)
         == Round64(mode, neg, PackedAbs(ExpOf(a) - (if low then 1 else 0), if low then Shl64(sigZ, 1) else sigZ))
      && MagsSum(mode, b, a, neg) == MagsSum(mode, a, b, neg)
  {
    hide P2, Pow2, MagsSum, Round64, AbsValue, Shift64RightJam, PackedAbs, Scale, Jam, ExpOf, FracOf;
    var k := ExpOf(a) - ExpOf(b);
    assert P2(1) == 2 && P2(9) == 0x200 && P2(62) == 0x4000_0000_0000_0000 && P2(63) == TOP64 by { P2Values(); }
    var big, m := Guarded(ExpOf(a), FracOf(a), 9), Guarded(ExpOf(b), FracOf(b), 9);
    assert big == 0x2000_0000_0000_0000 + FracOf(a) * 0x200;
    hide Guarded;
    GuardedValue(a, 9);
    GuardedValue(b, 9);
    var sigZ := big + sigB;
    assert sigZ == Jam(big * P2(k) + m, P2(k)) && sigB <= m / 2 + 1 by {
      Shift64RightJamIsJam(m, k);
      JamSum(big, m, k);
      JamHalved(m, k);
    }
    FiniteSum(mode, a, b, neg);
    FiniteSum(mode, b, a, neg);
    AlignedValue(big, m, k, ExpOf(a) - 1084);
    hide Cut, Ratio;
    JamRounds(mode, neg, ExpOf(a), big * P2(k) + m, P2(k), AbsValue(a) + AbsValue(b));
    if sigZ < 0x4000_0000_0000_0000 {
      ShiftFits(sigZ, 1);
      PackedShift(ExpOf(a), sigZ, 1);
    }
  }

  lemma JamHalved(m: nat, k: nat)
    requires k > 0
    ensures Jam(m, P2(k)) <= m / 2 + 1
  {
    hide P2, Quo, Cut;
    P2Mono(1, k);
    P2Values();
    QuoHalf(m, P2(k));
  }

  lemma QuoHalf(m: nat, d: nat)
    requires d >= 2
    ensures Quo(m, d) <= m / 2
  {
    var q := m / d;
    assert m == q * d + m % d;
    MulGe(d, 2, q);
    assert q * d == d * q;
  }

  // ----- differences of magnitudes -----

  method SubMagsF64(env: FpEnv, uiA: u64, uiB: u64, negative: bool) returns (z: u64)
    requires negative == SignOf(uiA)
    modifies env`flags
    ensures z == MagsDifference(env.roundingMode, uiA, uiB, negative).bits
    ensures env.flags == old(env.flags).Or(MagsDifference(env.roundingMode, uiA, uiB, negative).flags)
  {
    hide P2, Pow2, Round64, AbsValue, PackedAbs, Normalised, Jam, Guarded, Shift64RightJam, Or;
    hide MagsDifference, NaNResult, Pack, SignOf, ExpOf, FracOf;
    var mode := env.roundingMode;
    var signZ := negative;
    var expA, sigA := ExpOf(uiA), FracOf(uiA);
    var expB, sigB := ExpOf(uiB), FracOf(uiB);
    var expDiff := expA - expB;
    SpecialDifference(mode, uiA, uiB, negative);
    GuardShift10(expA, sigA);
    GuardShift10(expB, sigB);
    sigA := Shl64(sigA, 10);
    sigB := Shl64(sigB, 10);
    hide Shl64;
    var aBigger;
    if expDiff == 0 {
      if expA == 0x7FF {
        if sigA != 0 || sigB != 0 {
          z := PropagateNaNF64UI(env, uiA, uiB);
          return;
        }
        env.Raise(INVALID);
        z := NAN64;
        return;
      }
      SameExponentDifference(mode, uiA, uiB, negative);
      if expA == 0 {
        expA := 1;
        expB := 1;
      }
      if sigA == sigB {
        z := Pack(mode == Min, 0, 0);
        return;
      }
      aBigger := sigB < sigA;
    } else if expDiff < 0 {
      if expB == 0x7FF {
        if sigB != 0 {
          z := PropagateNaNF64UI(env, uiA, uiB);
          return;
        }
        z := Pack(!signZ, 0x7FF, 0);
        return;
      }
      sigA := sigA + if expA != 0 then 0x4000_0000_0000_0000 else sigA;
      sigA := Shift64RightJam(sigA, -expDiff);
      AlignedDifference(mode, uiB, uiA, !negative, sigA);
      sigB := Or(sigB, 0x4000_0000_0000_0000);
      aBigger := false;
    } else {
      if expA == 0x7FF {
        if sigA != 0 {
          z := PropagateNaNF64UI(env, uiA, uiB);
          return;
        }
        z := uiA;
        return;
      }
      sigB := sigB + if expB != 0 then 0x4000_0000_0000_0000 else sigB;
      sigB := Shift64RightJam(sigB, expDiff);
      AlignedDifference(mode, uiA, uiB, negative, sigB);
      sigA := Or(sigA, 0x4000_0000_0000_0000);
      aBigger := true;
    }
    var expZ, sigZ;
    if !aBigger {
      signZ := !signZ;
      expZ := expB;
      sigZ := sigB - sigA;
    } else {
      expZ := expA;
      sigZ := sigA - sigB;
    }
    z := NormRoundPackToF64(env, signZ, expZ - 1, sigZ);
  }

  lemma GuardShift10(exp: int, frac: u64)
    requires frac < HIDDEN64
    ensures Shl64(frac, 10) == frac * 0x400 < 0x4000_0000_0000_0000
    ensures Guarded(exp, frac, 10) == frac * 0x400 + if exp != 0 then 0x4000_0000_0000_0000 else frac * 0x400
    ensures Or(frac * 0x400, 0x4000_0000_0000_0000) == frac * 0x400 + 0x4000_0000_0000_0000
  {
    P2Values();
    OrPower(frac * 0x400, 62);
    hide P2, Or;
    WrapSame(frac * 0x400);
  }

  lemma SpecialDifference(mode: Mode, a: u64, b: u64, neg: bool)
    ensures
      var aSpecial, bSpecial := ExpOf(a) == 0x7FF, ExpOf(b) == 0x7FF;
      && ((aSpecial && FracOf(a) != 0) || (bSpecial && FracOf(b) != 0)
          ==> MagsDifference(mode, a, b, neg) == NaNResult(a, b))
      && (aSpecial && FracOf(a) == 0 && bSpecial && FracOf(b) == 0
          ==> MagsDifference(mode, a, b, neg) == Outcome(NAN64, INVALID))
      && (aSpecial && FracOf(a) == 0 && !bSpecial
          ==> MagsDifference(mode, a, b, neg) == Outcome(Pack(neg, 0x7FF, 0), NO_FLAGS))
      && (!aSpecial && bSpecial && FracOf(b) == 0
          ==> MagsDifference(mode, a, b, neg) == Outcome(Pack(!neg, 0x7FF, 0), NO_FLAGS))
    ensures ExpOf(a) == 0x7FF && FracOf(a) == 0 && neg == SignOf(a) ==> a == Pack(neg, 0x7FF, 0)
  {
    Fields(a);
    Fields(b);
    hide AbsValue, Round64, NaNResult;
  }

  /** The difference of two finite magnitudes, once it is known which is larger. */
  lemma FiniteDifference(mode: Mode, a: u64, b: u64, neg: bool)
    requires IsFinite(a) && IsFinite(b)
    ensures AbsValue(a) > AbsValue(b)
            ==> MagsDifference(mode, a, b, neg) == Round64(mode, neg, AbsValue(a) - AbsValue(b))
    ensures AbsValue(a) < AbsValue(b)
            ==> MagsDifference(mode, a, b, neg) == Round64(mode, !neg, AbsValue(b) - AbsValue(a))
    ensures AbsValue(a) == AbsValue(b) ==> MagsDifference(mode, a, b, neg) == Outcome(Pack(mode == Min, 0, 0), NO_FLAGS)
  {
    hide AbsValue, Round64;
  }

  lemma SameExponentDifference(mode: Mode, a: u64, b: u64, neg: bool)
    requires ExpOf(a) == ExpOf(b) < 0x7FF
    ensures
      var e := if ExpOf(a) == 0 then 1 else ExpOf(a);
      var m, n := FracOf(a) * 0x400, FracOf(b) * 0x400;
      && (m == n ==> MagsDifference(mode, a, b, neg) == Outcome(Pack(mode == Min, 0, 0), NO_FLAGS))
      && (m > n ==> MagsDifference(mode, a, b, neg) == Round64(mode, neg, PackedAbs(e - 1, m - n)))
      && (m < n ==> MagsDifference(mode, a, b, neg) == Round64(mode, !neg, PackedAbs(e - 1, n - m)))
  {
    hide MagsDifference, Round64, AbsValue, Scale, ExpOf, FracOf, P2, Pow2;
    var e := if ExpOf(a) == 0 then 1 else ExpOf(a);
    var m, n := FracOf(a) * 0x400, FracOf(b) * 0x400;
    FiniteDifference(mode, a, b, neg);
    SameExponentValues(a, b);
    var h := if ExpOf(a) == 0 then 0 else 0x4000_0000_0000_0000;
    ScaleSum((h + m) as real, (h + n) as real, e - 1085);
    ScaleSum((h + n) as real, (h + m) as real, e - 1085);
    ScaleLess((h + m) as real, (h + n) as real, e - 1085);
    ScaleLess((h + n) as real, (h + m) as real, e - 1085);
  }

  lemma SameExponentValues(a: u64, b: u64)
    requires ExpOf(a) == ExpOf(b) < 0x7FF
    ensures
      var e := if ExpOf(a) == 0 then 1 else ExpOf(a);
      var h := if ExpOf(a) == 0 then 0 else 0x4000_0000_0000_0000;
      && AbsValue(a) == Scale((h + FracOf(a) * 0x400) as real, e - 1085)
      && AbsValue(b) == Scale((h + FracOf(b) * 0x400) as real, e - 1085)
  {
    hide AbsValue, ExpOf, FracOf, P2, Pow2, Scale;
    GuardedValue(a, 10);
    GuardedValue(b, 10);
    GuardShift10(ExpOf(a), FracOf(a));
    GuardShift10(ExpOf(b), FracOf(b));
    if ExpOf(a) == 0 {
      ScaleTwice(FracOf(a) * 0x400, -1085);
      ScaleTwice(FracOf(b) * 0x400, -1085);
    }
  }

  /** The larger operand a less the shifted smaller one b rounds as the exact difference does. */
  lemma AlignedDifference(mode: Mode, a: u64, b: u64, neg: bool, sigB: u64)
    requires IsFinite(a) && ExpOf(b) < ExpOf(a)
    requires 0 <= Guarded(ExpOf(b), FracOf(b), 10) < W64
    requires sigB == Shift64RightJam(Guarded(ExpOf(b), FracOf(b), 10), ExpOf(a) - ExpOf(b))
    ensures
      var sigZ := 0x4000_0000_0000_0000 + FracOf(a) * 0x400 - sigB;
      && 0 < sigZ < TOP64
      && MagsDifference(mode, a, b, neg) == Round64(mode, neg, PackedAbs(ExpOf(a) - 1, sigZ))
      && MagsDifference(mode, b, a, !neg) == Round64(mode, neg, PackedAbs(ExpOf(a) - 1, sigZ))
  {
    hide P2, Pow2, MagsDifference, Round64, AbsValue, Shift64RightJam, PackedAbs, Scale, Jam, ExpOf, FracOf, Ratio, Cut;
    var k := ExpOf(a) - ExpOf(b);
    P2Values();
    GuardShift10(ExpOf(a), FracOf(a));
    GuardShift10(ExpOf(b), FracOf(b));
    var big, m := Guarded(ExpOf(a), FracOf(a), 10), Guarded(ExpOf(b), FracOf(b), 10);
    hide Guarded;
    GuardedValue(a, 10);
    GuardedValue(b, 10);
    Shift64RightJamIsJam(m, k);
    SmallerShifted(big, m, k);
    AlignedValue(big, m, k, ExpOf(a) - 1085);
    PositiveDifference(big, m, k, ExpOf(a) - 1085);
    FiniteDifference(mode, a, b, neg);
    FiniteDifference(mode, b, a, !neg);
    JamRounds(mode, neg, ExpOf(a) - 1, big * P2(k) - m, P2(k), AbsValue(a) - AbsValue(b));
  }

  /** Cancellation can cost more than one bit only when the shift was by one place and cut nothing. */
  lemma SmallerShifted(big: nat, m: nat, k: nat)
    requires k > 0 && 0x4000_0000_0000_0000 <= big < TOP64 && big % 2 == 0
    requires m < TOP64 && m % 2 == 0
    ensures m < big * P2(k) && Jam(m, P2(k)) < big
    ensures Jam(big * P2(k) - m, P2(k)) == big - Jam(m, P2(k))
    ensures !Cut(big * P2(k) - m, P2(k)) || 0x80_0000_0000_0000 <= big - Jam(m, P2(k))
  {
    hide P2, Jam;
    P2Mono(1, k);
    P2Values();
    JamDifference(big, m, k);
    if k == 1 {
      assert !Cut(m, 2);
    } else {
      P2Mono(2, k);
      JamQuarter(m, P2(k));
    }
  }

  lemma JamQuarter(m: nat, d: nat)
    requires d >= 4
    ensures Jam(m, d) <= m / 4 + 1
  {
    var q := m / d;
    assert m == q * d + m % d;
    MulGe(d, 4, q);
    assert q * d == d * q;
  }

  lemma PositiveDifference(big: nat, m: nat, k: nat, e: int)
    requires m < big * P2(k)
    ensures Scale(Ratio(big * P2(k) - m, P2(k)), e) > 0.0
  {
    hide P2, Pow2;
    DividePositive((big * P2(k) - m) as real, P2(k) as real);
    ScaleLess(0.0, Ratio(big * P2(k) - m, P2(k)), e);
  }

  lemma DividePositive(x: real, y: real)
    requires x > 0.0 && y > 0.0
    ensures x / y > 0.0
  {
  }

  // ----- addition and subtraction -----

  /** A finite real result: rounded with its own sign, an exact zero with the given one. */
  ghost function RoundSigned(mode: Mode, x: real, zeroSign: bool): Outcome {
    if x == 0.0 then Outcome(SignBits(zeroSign), NO_FLAGS)
    else if x > 0.0 then Round64(mode, false, x)
    else Round64(mode, true, -x)
  }

  /** a + b, or a - b when negate: IEEE 754 sections 5.4.1 and 6.3. */
  ghost function Sum(mode: Mode, a: u64, b: u64, negate: bool): Outcome {
    var signB := SignOf(b) != negate;
    if IsNaN(a) || IsNaN(b) then NaNResult(a, b)
    else if IsInfinite(a) && IsInfinite(b) && SignOf(a) != signB then INVALID_RESULT
    else if IsInfinite(a) then Outcome(SignBits(SignOf(a)) + INF64, NO_FLAGS)
    else if IsInfinite(b) then Outcome(SignBits(signB) + INF64, NO_FLAGS)
    else
      RoundSigned(mode, Value(a) + (if negate then -Value(b) else Value(b)),
                  if SignOf(a) == signB then SignOf(a) else mode.Min?)
  }

  lemma SumOfMags(mode: Mode, a: u64, b: u64, negate: bool)
    ensures Sum(mode, a, b, negate)
            == if SignOf(a) == (SignOf(b) != negate) then MagsSum(mode, a, b, SignOf(a))
               else MagsDifference(mode, a, b, SignOf(a))
  {
    Fields(a);
    Fields(b);
    hide AbsValue, Round64, NaNResult;
    if IsFinite(a) && IsFinite(b) {
      ZeroValue(a);
      ZeroValue(b);
      ZeroOutcome(mode, SignOf(a), 0);
      hide ExpOf, FracOf, SignOf, MagOf;
    }
  }

  method F64Add(env: FpEnv, a: u64, b: u64) returns (z: u64)
    modifies env`flags
    ensures z == Sum(env.roundingMode, a, b, false).bits
    ensures env.flags == old(env.flags).Or(Sum(env.roundingMode, a, b, false).flags)
  {
    hide Sum, MagsSum, MagsDifference, SignOf;
    var signA, signB := SignOf(a), SignOf(b);
    SumOfMags(env.roundingMode, a, b, false);
    if signA == signB {
      z := AddMagsF64(env, a, b, signA);
    } else {
      z := SubMagsF64(env, a, b, signA);
    }
  }

  method F64Sub(env: FpEnv, a: u64, b: u64) returns (z: u64)
    modifies env`flags
    ensures z == Sum(env.roundingMode, a, b, true).bits
    ensures env.flags == old(env.flags).Or(Sum(env.roundingMode, a, b, true).flags)
  {
    hide Sum, MagsSum, MagsDifference, SignOf;
    var signA, signB := SignOf(a), SignOf(b);
    SumOfMags(env.roundingMode, a, b, true);
    if signA == signB {
      z := SubMagsF64(env, a, b, signA);
    } else {
      z := AddMagsF64(env, a, b, signA);
    }
  }
}
