/** softfloat_roundPackToF32 and softfloat_normRoundPackToF32: the one place where binary32 results are rounded. */
module RoundPack32 {
  import opened Arith
  import opened Powers
  import opened Sticky
  import opened Words
  import opened Rounding
  import opened FpState
  import opened Packing
  import opened Binary32
  import RoundPack64

  method RoundPackToF32(env: FpEnv, sign: bool, e: int, s: u32) returns (z: u32)
    requires Normalised(BINARY32, 7, s) || (s == 0 && e <= 0xFD) || Unrounded(e, s)
    requires -0x8000 <= e < 0x8000
    modifies env`flags
    ensures z == Round32(env.roundingMode, sign, PackedAbs32(e, s)).bits
    ensures env.flags == old(env.flags).Or(Round32(env.roundingMode, sign, PackedAbs32(e, s)).flags)
  {
    hide P2, Normalised, Round32, PackedAbs32, Shift32RightJam, RoundIncrement, Uint16, Low, Shr, ClearBit, Aligned, Pack32;
    var mode := env.roundingMode;
    var exp, sig := e, s;
    SignificandRange(s);
    Uint16Range(e);
    var roundNearestEven := mode == NearEven;
    var roundIncrement := 0x40;
    if !roundNearestEven && mode != NearMaxMag {
      roundIncrement := if mode == MinMag || mode == (if sign then Max else Min) then 0 else 0x7F;
    }
    IncrementChoice(mode, sign, roundIncrement);
    var roundBits := Low(sig, 7);
    if 0xFD <= Uint16(exp) {
      if exp < 0 {
        var isTiny := RoundPack64.DETECT_TININESS_BEFORE_ROUNDING || exp < -1 || sig + roundIncrement < TOP32;
        sig := Shift32RightJam(sig, -exp);
        AlignedSubnormal(e, s);
        exp := 0;
        roundBits := Low(sig, 7);
        if isTiny && roundBits != 0 {
          env.Raise(UNDERFLOW);
        }
      } else if 0xFD < exp || TOP32 <= sig + roundIncrement {
        env.Raise(OVERFLOW.Or(INEXACT));
        OverflowOutcome32(mode, sign, e, s);
        z := Pack32(sign, 0xFF, 0) - Bit(roundIncrement == 0);
        return;
      }
    }
    assert sig == Aligned(e, s) && roundBits == Low(sig, 7) && exp == if e < 0 then 0 else e;
    if roundBits != 0 {
      env.Raise(INEXACT);
    }
    FiniteOutcome32(mode, sign, e, s, sig);
    sig := Shr(sig + roundIncrement, 7);
    sig := ClearBit(sig, roundBits == 0x40 && roundNearestEven);
    z := Pack32(sign, if sig != 0 then exp else 0, sig);
  }

  /** A significand that is not normalised, at exponent 0, with nothing to round: a subnormal number. */
  predicate Unrounded(e: int, s: nat) {
    e == 0 && s % 0x80 == 0 && s < HIDDEN32 * 0x80
  }

  lemma UnroundedOutcome(mode: Mode, neg: bool, s: u32)
    requires Unrounded(0, s)
    ensures Round32(mode, neg, PackedAbs32(0, s)) == Packed(mode, neg, 0, s)
  {
    var m := s / 0x80;
    assert s == m * 0x80 && m < HIDDEN32;
    assert PackedAbs32(0, s) == MagValue32(m) by {
      assert P2(7) == 0x80 by { P2Values(); }
      ShiftedLeft(m, 7, -149);
    }
    hide Round32, PackedAbs32, MagValue32, Scale, Pow2;
    ExactMag32(mode, neg, m);
    UnroundedBits(mode, neg, s, m);
  }

  lemma UnroundedBits(mode: Mode, neg: bool, s: nat, m: nat)
    requires s == m * 0x80 && m < HIDDEN32
    ensures Packed(mode, neg, 0, s) == Outcome(Bit(neg) * TOP32 + m, NO_FLAGS)
  {
    NothingCut(mode, neg, s, m);
    hide CutOff, Low;
  }

  lemma NothingCut(mode: Mode, neg: bool, s: nat, m: nat)
    requires s == m * 0x80
    ensures Low(s, 7) == 0 && CutOff(mode, neg, s) == m
  {
    hide RoundIncrement;
    IncrementRange(mode, neg);
    LowParts(s, m, 0);
    LowParts(s + RoundIncrement(mode, neg, 0x40), m, RoundIncrement(mode, neg, 0x40));
    hide Low, Shr;
  }

  lemma IncrementRange(mode: Mode, neg: bool)
    ensures RoundIncrement(mode, neg, 0x40) < 0x80
  {
  }

  lemma LowParts(t: nat, m: nat, r: nat)
    requires t == m * 0x80 + r && r < 0x80
    ensures Shr(t, 7) == m && Low(t, 7) == r
  {
    assert P2(7) == 0x80 by { P2Values(); }
    hide P2;
    DivModUnique(t, 0x80, m, r);
  }

  lemma SignificandRange(s: u32)
    requires Normalised(BINARY32, 7, s) || s < HIDDEN32 * 0x80
    ensures s < TOP32 && forall e | e >= 0 :: Aligned(e, s) == s
  {
    P2Values();
  }

  lemma IncrementChoice(mode: Mode, neg: bool, inc: int)
    requires inc == if mode.NearEven? || mode.NearMaxMag? then 0x40
                    else if mode == MinMag || mode == (if neg then Max else Min) then 0 else 0x7F
    ensures inc == RoundIncrement(mode, neg, 0x40)
  {
  }

  lemma AlignedSubnormal(e: int, s: u32)
    requires e < 0 && s < TOP32
    ensures Shift32RightJam(s, -e) == Aligned(e, s) <= 0x4000_0001
  {
    Shift32RightJamIsJam(s, -e);
    JamShrinks(s, -e);
  }

  lemma JamShrinks(s: u32, k: nat)
    requires k > 0 && s < TOP32
    ensures Jam(s, P2(k)) <= 0x4000_0001
  {
    P2Values();
    P2Mono(1, k);
    hide P2;
    DivBelowHalf(s, P2(k));
  }

  lemma DivBelowHalf(s: nat, d: nat)
    requires d >= 2 && s < TOP32
    ensures Quo(s, d) < 0x4000_0000
  {
    MulGe(d, 2, 0x4000_0000);
    DivBelow(s, d, 0x4000_0000);
  }

  /** Adding the increment and cutting the extra bits off; a tie clears the last bit in the nearest-even mode. */
  function CutOff(mode: Mode, neg: bool, sig: nat): nat {
    ClearBit(Shr(sig + RoundIncrement(mode, neg, 0x40), 7), mode.NearEven? && Low(sig, 7) == 0x40)
  }

  /** What is packed for the significand sig, and the flags raised, short of overflow. */
  function Packed(mode: Mode, neg: bool, e: int, sig: nat): Outcome {
    var n, inexact := CutOff(mode, neg, sig), Low(sig, 7) != 0;
    Outcome(Pack32(neg, if n != 0 && e > 0 then e else 0, n),
            RaisedWhen(inexact, INEXACT).Or(RaisedWhen(inexact && e < 0, UNDERFLOW)))
  }

  /** The significand that is rounded: jammed down to the subnormal range when the exponent is negative. */
  function Aligned(e: int, s: nat): nat {
    if e < 0 then Jam(s, P2(-e)) else s
  }

  lemma AlignedRounding(mode: Mode, neg: bool, e: int, s: u32)
    requires Normalised(BINARY32, 7, s) || (s == 0 && e <= 0)
    ensures Quantum(BINARY32, PackedAbs32(e, s)) == (if e < 0 then 0 else e) - 149
    ensures
      var sig := Aligned(e, s);
      && Significand(BINARY32, mode, neg, PackedAbs32(e, s))
         == CutOff(mode, neg, sig)
      && (Rounded(BINARY32, mode, neg, PackedAbs32(e, s)) != PackedAbs32(e, s) <==> Low(sig, 7) != 0)
    ensures e >= 0 && s > 0 ==> Pow2(-126) <= PackedAbs32(e, s)
    ensures e < 0 ==> PackedAbs32(e, s) < Pow2(-126)
  {
    hide P2, Pow2, Quantum, Significand, Rounded, RoundPosition, HalfPosition, Jam, Representable, RoundIncrement, CutOff, Low;
    P2Values();
    var sig := Aligned(e, s);
    if e < 0 {
      PackedSubnormal(BINARY32, 7, e, s, mode, neg);
    } else {
      PackedNormal(BINARY32, 7, e, s, mode, neg);
      if s > 0 {
        PackedRange(BINARY32, 7, e, s);
        Pow2Mono(-126, e - 126);
      }
    }
    IncrementBits(mode, neg, sig);
    RoundedExact(BINARY32, mode, neg, PackedAbs32(e, s));
  }

  lemma IncrementBits(mode: Mode, neg: bool, sig: nat)
    ensures CutOff(mode, neg, sig)
            == RoundPosition(mode, neg, HalfPosition(sig, 0x40))
    ensures HalfPosition(sig, 0x40) % 4 == 0 <==> Low(sig, 7) == 0
  {
    P2Values();
    IncrementRounds32(mode, neg, sig);
    hide P2, RoundPosition, HalfPosition, RoundIncrement, ClearBit;
  }

  lemma OverflowOutcome32(mode: Mode, neg: bool, e: int, s: u32)
    requires Normalised(BINARY32, 7, s) && 0xFD <= e
    requires 0xFD < e || TOP32 <= s + RoundIncrement(mode, neg, 0x40)
    ensures Round32(mode, neg, PackedAbs32(e, s))
            == Outcome(Pack32(neg, 0xFF, 0) - Bit(RoundIncrement(mode, neg, 0x40) == 0), OVERFLOW.Or(INEXACT))
    ensures 0 <= Pack32(neg, 0xFF, 0) - Bit(RoundIncrement(mode, neg, 0x40) == 0) < W32
  {
    AlignedRounding(mode, neg, e, s);
    P2Values();
    assert s >= P2(30);
    hide Significand, Quantum, Pow2, P2, PackedAbs32, Normalised, Deliver32, CutOff, Low;
    DeliverOverflow(mode, neg, e, s, Rounded(BINARY32, mode, neg, PackedAbs32(e, s)) != PackedAbs32(e, s), false);
  }

  lemma DeliverOverflow(mode: Mode, neg: bool, e: int, s: u32, inexact: bool, tiny: bool)
    requires P2(30) <= s && 0xFD <= e
    requires 0xFD < e || TOP32 <= s + RoundIncrement(mode, neg, 0x40)
    ensures
      Deliver32(mode, neg, CutOff(mode, neg, s),
              e - 149, inexact, tiny)
      == Outcome(Pack32(neg, 0xFF, 0) - Bit(RoundIncrement(mode, neg, 0x40) == 0), OVERFLOW.Or(INEXACT))
  {
    P2Values();
    hide P2;
    var t := s + RoundIncrement(mode, neg, 0x40);
    assert Shr(t, 7) == t / 0x80;
    assert t / 0x80 >= HIDDEN32;
    assert e == 0xFD ==> t / 0x80 >= 2 * HIDDEN32;
  }

  /** The zero case packs the same bits whatever the exponent. */
  lemma ZeroOutcome32(mode: Mode, neg: bool, e: int)
    ensures PackedAbs32(e, 0) == 0.0
    ensures Round32(mode, neg, 0.0) == Outcome(Bit(neg) * TOP32, NO_FLAGS)
  {
    assert IsQuantum(BINARY32, 0.0, -149);
    QuantumUnique(BINARY32, 0.0, -149);
    assert Scale(0.0, 149) == 0.0;
  }

  lemma ZeroPacked(mode: Mode, neg: bool, e: int)
    ensures Packed(mode, neg, e, 0) == Outcome(Bit(neg) * TOP32, NO_FLAGS)
  {
    P2Values();
    hide P2;
  }

  lemma FiniteOutcome32(mode: Mode, neg: bool, e: int, s: u32, sig: u32)
    requires Normalised(BINARY32, 7, s) || s == 0 || Unrounded(e, s)
    requires e <= 0xFD && (e == 0xFD ==> s + RoundIncrement(mode, neg, 0x40) < TOP32)
    requires sig == Aligned(e, s)
    ensures Round32(mode, neg, PackedAbs32(e, s)) == Packed(mode, neg, e, sig)
  {
    P2Values();
    if s == 0 {
      ZeroOutcome32(mode, neg, e);
      assert sig == 0;
      ZeroPacked(mode, neg, e);
      hide Packed, PackedAbs32;
    } else if !Normalised(BINARY32, 7, s) {
      UnroundedOutcome(mode, neg, s);
    } else {
      assert P2(30) <= s < P2(31);
      AlignedRounding(mode, neg, e, s);
      if e < 0 { JamShrinks(s, -e); }
      assert e >= 0 ==> sig == s;
      hide Significand, Quantum, Pow2, P2, PackedAbs32, Normalised, Aligned, Rounded, Deliver32, RoundIncrement, CutOff, Low, Packed;
      DeliverFinite(mode, neg, e, sig);
    }
  }

  lemma DeliverFinite(mode: Mode, neg: bool, e: int, sig: u32)
    requires e < 0 ==> sig <= 0x4000_0001
    requires e >= 0 ==> 0x4000_0000 <= sig < TOP32
    requires e <= 0xFD && (e == 0xFD ==> sig + RoundIncrement(mode, neg, 0x40) < TOP32)
    ensures Deliver32(mode, neg, CutOff(mode, neg, sig), (if e < 0 then 0 else e) - 149, Low(sig, 7) != 0, e < 0)
            == Packed(mode, neg, e, sig)
  {
    hide P2, Deliver32, Pack32, Encode32, ClearBit, Shr, Low;
    var inc := RoundIncrement(mode, neg, 0x40);
    var n := ClearBit(Shr(sig + inc, 7), mode.NearEven? && Low(sig, 7) == 0x40);
    assert 0 <= inc <= 0x7F;
    hide RoundIncrement;
    CutRange(sig + inc, mode.NearEven? && Low(sig, 7) == 0x40, e);
    PackIsEncode(neg, n, e);
    DeliverPacked(mode, neg, n, (if e < 0 then 0 else e) - 149, Low(sig, 7) != 0, e < 0);
  }

  /** How large a significand is once its extra bits are cut off. */
  lemma CutRange(t: nat, clear: bool, e: int)
    requires t < TOP32 + 0x80
    requires e >= 0 ==> 0x4000_0000 <= t
    requires e == 0xFD ==> t < TOP32
    ensures
      var n := ClearBit(Shr(t, 7), clear);
      n <= 2 * HIDDEN32 && (e == 0xFD ==> n < 2 * HIDDEN32) && (e >= 0 ==> n >= HIDDEN32)
  {
    P2Values();
    hide P2;
    assert Shr(t, 7) == t / 0x80;
    assert HIDDEN32 % 2 == 0;
  }

  lemma DeliverPacked(mode: Mode, neg: bool, n: int, q: int, inexact: bool, tiny: bool)
    requires Encode32(n, q) < INF32
    ensures Deliver32(mode, neg, n, q, inexact, tiny)
            == Outcome(Bit(neg) * TOP32 + Encode32(n, q), RaisedWhen(inexact, INEXACT).Or(RaisedWhen(inexact && tiny, UNDERFLOW)))
  {
  }

  lemma PackIsEncode(neg: bool, n: nat, e: int)
    requires n <= 2 * HIDDEN32 && e <= 0xFD && (e == 0xFD ==> n < 2 * HIDDEN32)
    requires e >= 0 ==> n >= HIDDEN32
    ensures Pack32(neg, if n != 0 && e > 0 then e else 0, n)
            == Bit(neg) * TOP32 + Encode32(n, (if e < 0 then 0 else e) - 149)
    ensures 0 <= Encode32(n, (if e < 0 then 0 else e) - 149) < INF32
  {
  }

  // ----- normalising first -----

  lemma ExactOutcome32(mode: Mode, neg: bool, e: int, s: u32)
    requires Normalised(BINARY32, 7, s) || s == 0
    requires 0 <= e < 0xFD && Low(s, 7) == 0
    ensures Round32(mode, neg, PackedAbs32(e, s)) == Outcome(Pack32(neg, if s != 0 then e else 0, Shr(s, 7)), NO_FLAGS)
  {
    P2Values();
    FiniteOutcome32(mode, neg, e, s, s);
    hide Round32, PackedAbs32, P2;
    assert RoundIncrement(mode, neg, 0x40) < 0x80;
    assert Shr(s + RoundIncrement(mode, neg, 0x40), 7) == Shr(s, 7);
  }

  /** A significand with at least eleven leading zeros leaves no bit to round once it is normalised. */
  lemma NoBitsCut(sig: u32, k: nat)
    requires 7 <= k && sig * P2(k) < W32
    ensures Low(sig * P2(k), 7) == 0
    ensures Shr(sig * P2(k), 7) == sig * P2(k - 7) < W32
  {
    P2Add(k - 7, 7);
    P2Values();
    hide P2;
    var m := sig * P2(k - 7);
    assert sig * P2(k) == m * 0x80 by { Reassociate(sig, P2(k - 7), 0x80); }
    DivModUnique(sig * P2(k), 0x80, m, 0);
  }

  lemma NormaliseRange32(sig: u32, count: nat)
    requires IsLeadingZeros(sig, count, 32) && sig < TOP32
    ensures count >= 1
    ensures sig * P2(count - 1) < TOP32
    ensures sig != 0 ==> Normalised(BINARY32, 7, sig * P2(count - 1))
  {
    if sig > 0 {
      CountPositive(sig, count);
      P2Succ(count - 1);
      P2Values();
      hide P2;
      assert sig * P2(count) == 2 * (sig * P2(count - 1)) by { Reassociate(sig, 2, P2(count - 1)); Reassociate(2, sig, P2(count - 1)); }
    }
  }

  lemma CountPositive(sig: u32, count: nat)
    requires IsLeadingZeros(sig, count, 32) && 0 < sig < TOP32
    ensures count >= 1
  {
    P2Values();
  }

  method NormRoundPackToF32(env: FpEnv, sign: bool, e: int, sig: u32) returns (z: u32)
    requires sig < TOP32
    requires -0x7FE0 <= e < 0x8000 && (sig == 0 ==> e <= 0x11C)
    modifies env`flags
    ensures z == Round32(env.roundingMode, sign, PackedAbs32(e, sig)).bits
    ensures env.flags == old(env.flags).Or(Round32(env.roundingMode, sign, PackedAbs32(e, sig)).flags)
  {
    hide P2, Normalised, Round32, PackedAbs32, Uint16, Low, Shr, Pack32, IsLeadingZeros;
    var count := CountLeadingZeros32(sig);
    NormaliseRange32(sig, count);
    var shiftCount := count - 1;
    var exp := e - shiftCount;
    ghost var s := sig * P2(shiftCount);
    PackedShift32(e, sig, shiftCount);
    ShiftFits32(sig, shiftCount);
    LeadingZerosLimit(sig, count);
    Uint16Range(exp);
    if 7 <= shiftCount && Uint16(exp) < 0xFD {
      NoBitsCut(sig, shiftCount);
      ShiftFits32(sig, shiftCount - 7);
      ExactOutcome32(env.roundingMode, sign, exp, s);
      z := Pack32(sign, if sig != 0 then exp else 0, Shl32(sig, shiftCount - 7));
    } else {
      z := RoundPackToF32(env, sign, exp, Shl32(sig, shiftCount));
    }
  }

  lemma LeadingZerosLimit(sig: u32, count: nat)
    requires IsLeadingZeros(sig, count, 32)
    ensures count <= 32 && (sig == 0 ==> count == 32)
  {
  }

  lemma ShiftFits32(sig: u32, k: nat)
    requires sig * P2(k) < W32
    ensures Shl32(sig, k) == sig * P2(k)
    ensures sig == 0 <==> sig * P2(k) == 0
  {
    hide P2;
    MulGe(P2(k), 1, sig);
  }
}
