/** softfloat_roundPackToF64 and softfloat_normRoundPackToF64: the one place where binary64 results are rounded. */
module RoundPack64 {
  import opened Arith
  import opened Powers
  import opened Sticky
  import opened Words
  import opened Rounding
  import opened FpState
  import opened Packing
  import opened Binary64

  const DETECT_TININESS_BEFORE_ROUNDING := true

  method RoundPackToF64(env: FpEnv, sign: bool, e: int, s: u64) returns (z: u64)
    requires Normalised(BINARY64, 10, s) || (s == 0 && e <= 0x7FD) || Unrounded(e, s)
    requires -0x8000 <= e < 0x8000
    modifies env`flags
    ensures z == Round64(env.roundingMode, sign, PackedAbs(e, s)).bits
    ensures env.flags == old(env.flags).Or(Round64(env.roundingMode, sign, PackedAbs(e, s)).flags)
  {
    hide P2, Normalised, Round64, PackedAbs, Shift64RightJam, RoundIncrement, Uint16, Low, Shr, ClearBit, Aligned, Pack;
    var mode := env.roundingMode;
    var exp, sig := e, s;
    SignificandRange(s);
    Uint16Range(e);
    var roundNearestEven := mode == NearEven;
    var roundIncrement := 0x200;
    if !roundNearestEven && mode != NearMaxMag {
      roundIncrement := if mode == MinMag || mode == (if sign then Max else Min) then 0 else 0x3FF;
    }
    IncrementChoice(mode, sign, roundIncrement);
    var roundBits := Low(sig, 10);
    if 0x7FD <= Uint16(exp) {
      if exp < 0 {
        var isTiny := DETECT_TININESS_BEFORE_ROUNDING || exp < -1 || sig + roundIncrement < TOP64;
        sig := Shift64RightJam(sig, -exp);
        AlignedSubnormal(e, s);
        exp := 0;
        roundBits := Low(sig, 10);
        if isTiny && roundBits != 0 {
          env.Raise(UNDERFLOW);
        }
      } else if 0x7FD < exp || TOP64 <= sig + roundIncrement {
        env.Raise(OVERFLOW.Or(INEXACT));
        OverflowOutcome(mode, sign, e, s);
        z := Pack(sign, 0x7FF, 0) - Bit(roundIncrement == 0);
        return;
      }
    }
    assert sig == Aligned(e, s) && roundBits == Low(sig, 10) && exp == if e < 0 then 0 else e;
    if roundBits != 0 {
      env.Raise(INEXACT);
    }
    FiniteOutcome(mode, sign, e, s, sig);
    sig := Shr(sig + roundIncrement, 10);
    sig := ClearBit(sig, roundBits == 0x200 && roundNearestEven);
    z := Pack(sign, if sig != 0 then exp else 0, sig);
  }

  /** A significand that is not normalised, at exponent 0, with nothing to round: a subnormal number. */
  predicate Unrounded(e: int, s: nat) {
    e == 0 && s % 0x400 == 0 && s < HIDDEN64 * 0x400
  }

  lemma UnroundedOutcome(mode: Mode, neg: bool, s: u64)
    requires Unrounded(0, s)
    ensures Round64(mode, neg, PackedAbs(0, s)) == Packed(mode, neg, 0, s)
  {
    var m := s / 0x400;
    assert s == m * 0x400 && m < HIDDEN64;
    assert PackedAbs(0, s) == MagValue(m) by {
      assert P2(10) == 0x400 by { P2Values(); }
      ShiftedLeft(m, 10, -1074);
    }
    hide Round64, PackedAbs, MagValue, Scale, Pow2;
    ExactMag(mode, neg, m);
    UnroundedBits(mode, neg, s, m);
  }

  lemma UnroundedBits(mode: Mode, neg: bool, s: nat, m: nat)
    requires s == m * 0x400 && m < HIDDEN64
    ensures Packed(mode, neg, 0, s) == Outcome(Bit(neg) * TOP64 + m, NO_FLAGS)
  {
    NothingCut(mode, neg, s, m);
    hide CutOff, Low;
  }

  lemma NothingCut(mode: Mode, neg: bool, s: nat, m: nat)
    requires s == m * 0x400
    ensures Low(s, 10) == 0 && CutOff(mode, neg, s) == m
  {
    hide RoundIncrement;
    IncrementRange(mode, neg);
    LowParts(s, m, 0);
    LowParts(s + RoundIncrement(mode, neg, 0x200), m, RoundIncrement(mode, neg, 0x200));
    hide Low, Shr;
  }

  lemma IncrementRange(mode: Mode, neg: bool)
    ensures RoundIncrement(mode, neg, 0x200) < 0x400
  {
  }

  lemma LowParts(t: nat, m: nat, r: nat)
    requires t == m * 0x400 + r && r < 0x400
    ensures Shr(t, 10) == m && Low(t, 10) == r
  {
    assert P2(10) == 0x400 by { P2Values(); }
    hide P2;
    DivModUnique(t, 0x400, m, r);
  }

  lemma SignificandRange(s: u64)
    requires Normalised(BINARY64, 10, s) || s < HIDDEN64 * 0x400
    ensures s < TOP64 && forall e | e >= 0 :: Aligned(e, s) == s
  {
    P2Values();
  }

  lemma IncrementChoice(mode: Mode, neg: bool, inc: int)
    requires inc == if mode.NearEven? || mode.NearMaxMag? then 0x200
                    else if mode == MinMag || mode == (if neg then Max else Min) then 0 else 0x3FF
    ensures inc == RoundIncrement(mode, neg, 0x200)
  {
  }

  lemma AlignedSubnormal(e: int, s: u64)
    requires e < 0 && s < TOP64
    ensures Shift64RightJam(s, -e) == Aligned(e, s) <= 0x4000_0000_0000_0001
  {
    Shift64RightJamIsJam(s, -e);
    JamShrinks(s, -e);
  }

  lemma JamShrinks(s: u64, k: nat)
    requires k > 0 && s < TOP64
    ensures Jam(s, P2(k)) <= 0x4000_0000_0000_0001
  {
    P2Values();
    P2Mono(1, k);
    hide P2;
    DivBelowHalf(s, P2(k));
  }

  lemma DivBelowHalf(s: nat, d: nat)
    requires d >= 2 && s < TOP64
    ensures Quo(s, d) < 0x4000_0000_0000_0000
  {
    MulGe(d, 2, 0x4000_0000_0000_0000);
    DivBelow(s, d, 0x4000_0000_0000_0000);
  }

  /** Adding the increment and cutting the extra bits off; a tie clears the last bit in the nearest-even mode. */
  function CutOff(mode: Mode, neg: bool, sig: nat): nat {
    ClearBit(Shr(sig + RoundIncrement(mode, neg, 0x200), 10), mode.NearEven? && Low(sig, 10) == 0x200)
  }

  /** What is packed for the significand sig, and the flags raised, short of overflow. */
  function Packed(mode: Mode, neg: bool, e: int, sig: nat): Outcome {
    var n, inexact := CutOff(mode, neg, sig), Low(sig, 10) != 0;
    Outcome(Pack(neg, if n != 0 && e > 0 then e else 0, n),
            RaisedWhen(inexact, INEXACT).Or(RaisedWhen(inexact && e < 0, UNDERFLOW)))
  }

  /** The significand that is rounded: jammed down to the subnormal range when the exponent is negative. */
  function Aligned(e: int, s: nat): nat {
    if e < 0 then Jam(s, P2(-e)) else s
  }

  lemma AlignedRounding(mode: Mode, neg: bool, e: int, s: u64)
    requires Normalised(BINARY64, 10, s) || (s == 0 && e <= 0)
    ensures Quantum(BINARY64, PackedAbs(e, s)) == (if e < 0 then 0 else e) - 1074
    ensures
      var sig := Aligned(e, s);
      && Significand(BINARY64, mode, neg, PackedAbs(e, s))
         == CutOff(mode, neg, sig)
      && (Rounded(BINARY64, mode, neg, PackedAbs(e, s)) != PackedAbs(e, s) <==> Low(sig, 10) != 0)
    ensures e >= 0 && s > 0 ==> Pow2(-1022) <= PackedAbs(e, s)
    ensures e < 0 ==> PackedAbs(e, s) < Pow2(-1022)
  {
    hide P2, Pow2, Quantum, Significand, Rounded, RoundPosition, HalfPosition, Jam, Representable, RoundIncrement, CutOff, Low;
    P2Values();
    var sig := Aligned(e, s);
    if e < 0 {
      PackedSubnormal(BINARY64, 10, e, s, mode, neg);
    } else {
      PackedNormal(BINARY64, 10, e, s, mode, neg);
      if s > 0 {
        PackedRange(BINARY64, 10, e, s);
        Pow2Mono(-1022, e - 1022);
      }
    }
    IncrementBits(mode, neg, sig);
    RoundedExact(BINARY64, mode, neg, PackedAbs(e, s));
  }

  lemma IncrementBits(mode: Mode, neg: bool, sig: nat)
    ensures CutOff(mode, neg, sig)
            == RoundPosition(mode, neg, HalfPosition(sig, 0x200))
    ensures HalfPosition(sig, 0x200) % 4 == 0 <==> Low(sig, 10) == 0
  {
    P2Values();
    IncrementRounds64(mode, neg, sig);
    hide P2, RoundPosition, HalfPosition, RoundIncrement, ClearBit;
  }

  lemma OverflowOutcome(mode: Mode, neg: bool, e: int, s: u64)
    requires Normalised(BINARY64, 10, s) && 0x7FD <= e
    requires 0x7FD < e || TOP64 <= s + RoundIncrement(mode, neg, 0x200)
    ensures Round64(mode, neg, PackedAbs(e, s))
            == Outcome(Pack(neg, 0x7FF, 0) - Bit(RoundIncrement(mode, neg, 0x200) == 0), OVERFLOW.Or(INEXACT))
    ensures 0 <= Pack(neg, 0x7FF, 0) - Bit(RoundIncrement(mode, neg, 0x200) == 0) < W64
  {
    AlignedRounding(mode, neg, e, s);
    P2Values();
    assert s >= P2(62);
    hide Significand, Quantum, Pow2, P2, PackedAbs, Normalised, Deliver, CutOff, Low;
    DeliverOverflow(mode, neg, e, s, Rounded(BINARY64, mode, neg, PackedAbs(e, s)) != PackedAbs(e, s), false);
  }

  lemma DeliverOverflow(mode: Mode, neg: bool, e: int, s: u64, inexact: bool, tiny: bool)
    requires P2(62) <= s && 0x7FD <= e
    requires 0x7FD < e || TOP64 <= s + RoundIncrement(mode, neg, 0x200)
    ensures
      Deliver(mode, neg, CutOff(mode, neg, s),
              e - 1074, inexact, tiny)
      == Outcome(Pack(neg, 0x7FF, 0) - Bit(RoundIncrement(mode, neg, 0x200) == 0), OVERFLOW.Or(INEXACT))
  {
    P2Values();
    hide P2;
    var t := s + RoundIncrement(mode, neg, 0x200);
    assert Shr(t, 10) == t / 0x400;
    assert t / 0x400 >= HIDDEN64;
    assert e == 0x7FD ==> t / 0x400 >= 2 * HIDDEN64;
  }

  /** The zero case packs the same bits whatever the exponent. */
  lemma ZeroOutcome(mode: Mode, neg: bool, e: int)
    ensures PackedAbs(e, 0) == 0.0
    ensures Round64(mode, neg, 0.0) == Outcome(Bit(neg) * TOP64, NO_FLAGS)
  {
    assert IsQuantum(BINARY64, 0.0, -1074);
    QuantumUnique(BINARY64, 0.0, -1074);
    assert Scale(0.0, 1074) == 0.0;
  }

  lemma ZeroPacked(mode: Mode, neg: bool, e: int)
    ensures Packed(mode, neg, e, 0) == Outcome(Bit(neg) * TOP64, NO_FLAGS)
  {
    P2Values();
    hide P2;
  }

  lemma FiniteOutcome(mode: Mode, neg: bool, e: int, s: u64, sig: u64)
    requires Normalised(BINARY64, 10, s) || s == 0 || Unrounded(e, s)
    requires e <= 0x7FD && (e == 0x7FD ==> s + RoundIncrement(mode, neg, 0x200) < TOP64)
    requires sig == Aligned(e, s)
    ensures Round64(mode, neg, PackedAbs(e, s)) == Packed(mode, neg, e, sig)
  {
    P2Values();
    if s == 0 {
      ZeroOutcome(mode, neg, e);
      assert sig == 0;
      ZeroPacked(mode, neg, e);
      hide Packed, PackedAbs;
    } else if !Normalised(BINARY64, 10, s) {
      UnroundedOutcome(mode, neg, s);
    } else {
      assert P2(62) <= s < P2(63);
      AlignedRounding(mode, neg, e, s);
      if e < 0 { JamShrinks(s, -e); }
      assert e >= 0 ==> sig == s;
      hide Significand, Quantum, Pow2, P2, PackedAbs, Normalised, Aligned, Rounded, Deliver, RoundIncrement, CutOff, Low, Packed;
      DeliverFinite(mode, neg, e, sig);
    }
  }

  lemma DeliverFinite(mode: Mode, neg: bool, e: int, sig: u64)
    requires e < 0 ==> sig <= 0x4000_0000_0000_0001
    requires e >= 0 ==> 0x4000_0000_0000_0000 <= sig < TOP64
    requires e <= 0x7FD && (e == 0x7FD ==> sig + RoundIncrement(mode, neg, 0x200) < TOP64)
    ensures Deliver(mode, neg, CutOff(mode, neg, sig), (if e < 0 then 0 else e) - 1074, Low(sig, 10) != 0, e < 0)
            == Packed(mode, neg, e, sig)
  {
    hide P2, Deliver, Pack, Encode, ClearBit, Shr, Low;
    var inc := RoundIncrement(mode, neg, 0x200);
    var n := ClearBit(Shr(sig + inc, 10), mode.NearEven? && Low(sig, 10) == 0x200);
    assert 0 <= inc <= 0x3FF;
    hide RoundIncrement;
    CutRange(sig + inc, mode.NearEven? && Low(sig, 10) == 0x200, e);
    PackIsEncode(neg, n, e);
    DeliverPacked(mode, neg, n, (if e < 0 then 0 else e) - 1074, Low(sig, 10) != 0, e < 0);
  }

  /** How large a significand is once its extra bits are cut off. */
  lemma CutRange(t: nat, clear: bool, e: int)
    requires t < TOP64 + 0x400
    requires e >= 0 ==> 0x4000_0000_0000_0000 <= t
    requires e == 0x7FD ==> t < TOP64
    ensures
      var n := ClearBit(Shr(t, 10), clear);
      n <= 2 * HIDDEN64 && (e == 0x7FD ==> n < 2 * HIDDEN64) && (e >= 0 ==> n >= HIDDEN64)
  {
    P2Values();
    hide P2;
    assert Shr(t, 10) == t / 0x400;
    assert HIDDEN64 % 2 == 0;
  }

  lemma DeliverPacked(mode: Mode, neg: bool, n: int, q: int, inexact: bool, tiny: bool)
    requires Encode(n, q) < INF64
    ensures Deliver(mode, neg, n, q, inexact, tiny)
            == Outcome(Bit(neg) * TOP64 + Encode(n, q), RaisedWhen(inexact, INEXACT).Or(RaisedWhen(inexact && tiny, UNDERFLOW)))
  {
  }

  lemma PackIsEncode(neg: bool, n: nat, e: int)
    requires n <= 2 * HIDDEN64 && e <= 0x7FD && (e == 0x7FD ==> n < 2 * HIDDEN64)
    requires e >= 0 ==> n >= HIDDEN64
    ensures Pack(neg, if n != 0 && e > 0 then e else 0, n)
            == Bit(neg) * TOP64 + Encode(n, (if e < 0 then 0 else e) - 1074)
    ensures 0 <= Encode(n, (if e < 0 then 0 else e) - 1074) < INF64
  {
  }

  // ----- normalising first -----

  lemma ExactOutcome(mode: Mode, neg: bool, e: int, s: u64)
    requires Normalised(BINARY64, 10, s) || s == 0
    requires 0 <= e < 0x7FD && Low(s, 10) == 0
    ensures Round64(mode, neg, PackedAbs(e, s)) == Outcome(Pack(neg, if s != 0 then e else 0, Shr(s, 10)), NO_FLAGS)
  {
    P2Values();
    FiniteOutcome(mode, neg, e, s, s);
    hide Round64, PackedAbs, P2;
    assert RoundIncrement(mode, neg, 0x200) < 0x400;
    assert Shr(s + RoundIncrement(mode, neg, 0x200), 10) == Shr(s, 10);
  }

  /** A significand with at least eleven leading zeros leaves no bit to round once it is normalised. */
  lemma NoBitsCut(sig: u64, k: nat)
    requires 10 <= k && sig * P2(k) < W64
    ensures Low(sig * P2(k), 10) == 0
    ensures Shr(sig * P2(k), 10) == sig * P2(k - 10) < W64
  {
    P2Add(k - 10, 10);
    P2Values();
    hide P2;
    var m := sig * P2(k - 10);
    assert sig * P2(k) == m * 0x400 by { Reassociate(sig, P2(k - 10), 0x400); }
    DivModUnique(sig * P2(k), 0x400, m, 0);
  }

  lemma NormaliseRange(sig: u64, count: nat)
    requires IsLeadingZeros(sig, count, 64) && sig < TOP64
    ensures count >= 1
    ensures sig * P2(count - 1) < TOP64
    ensures sig != 0 ==> Normalised(BINARY64, 10, sig * P2(count - 1))
  {
    if sig > 0 {
      CountPositive(sig, count);
      P2Succ(count - 1);
      P2Values();
      hide P2;
      assert sig * P2(count) == 2 * (sig * P2(count - 1)) by { Reassociate(sig, 2, P2(count - 1)); Reassociate(2, sig, P2(count - 1)); }
    }
  }

  lemma CountPositive(sig: u64, count: nat)
    requires IsLeadingZeros(sig, count, 64) && 0 < sig < TOP64
    ensures count >= 1
  {
    P2Values();
  }

  method NormRoundPackToF64(env: FpEnv, sign: bool, e: int, sig: u64) returns (z: u64)
    requires sig < TOP64
    requires -0x7FC0 <= e < 0x8000 && (sig == 0 ==> e <= 0x83C)
    modifies env`flags
    ensures z == Round64(env.roundingMode, sign, PackedAbs(e, sig)).bits
    ensures env.flags == old(env.flags).Or(Round64(env.roundingMode, sign, PackedAbs(e, sig)).flags)
  {
    hide P2, Normalised, Round64, PackedAbs, Uint16, Low, Shr, Pack, IsLeadingZeros;
    var count := CountLeadingZeros64(sig);
    NormaliseRange(sig, count);
    var shiftCount := count - 1;
    var exp := e - shiftCount;
    ghost var s := sig * P2(shiftCount);
    PackedShift(e, sig, shiftCount);
    ShiftFits(sig, shiftCount);
    LeadingZerosLimit(sig, count);
    Uint16Range(exp);
    if 10 <= shiftCount && Uint16(exp) < 0x7FD {
      NoBitsCut(sig, shiftCount);
      ShiftFits(sig, shiftCount - 10);
      ExactOutcome(env.roundingMode, sign, exp, s);
      z := Pack(sign, if sig != 0 then exp else 0, Shl64(sig, shiftCount - 10));
    } else {
      z := RoundPackToF64(env, sign, exp, Shl64(sig, shiftCount));
    }
  }

  lemma LeadingZerosLimit(sig: u64, count: nat)
    requires IsLeadingZeros(sig, count, 64)
    ensures count <= 64 && (sig == 0 ==> count == 64)
  {
  }

  lemma ShiftFits(sig: u64, k: nat)
    requires sig * P2(k) < W64
    ensures Shl64(sig, k) == sig * P2(k)
    ensures sig == 0 <==> sig * P2(k) == 0
  {
    hide P2;
    MulGe(P2(k), 1, sig);
  }
}
