/** Taking binary32 operands apart: the hidden bit, subnormal operands, NaNs. */
module Operands32 {
  import opened Arith
  import opened Powers
  import opened Words
  import opened FpState
  import opened Binary32
  import opened Operands64

  /** a is a nonzero finite number, m * 2^(exp - 150) in magnitude with m a full significand. */
  ghost predicate Unpacked32(a: u32, exp: int, m: nat) {
    && IsFinite32(a)
    && HIDDEN32 <= m < 2 * HIDDEN32
    && -22 <= exp <= 0xFE
    && AbsValue32(a) == Scale(m as real, exp - 150)
  }

  /** sig | 2^23 is the full significand, whether or not the bit was there already. */
  lemma SetHidden32(sig: u32)
    requires sig < 2 * HIDDEN32
    ensures Or(sig, HIDDEN32) == if sig < HIDDEN32 then sig + HIDDEN32 else sig
  {
    P2Values();
    OrPower(if sig < HIDDEN32 then sig else sig - HIDDEN32, 23);
  }

  method NormSubnormalF32Sig(sig: u32) returns (exp: int, z: u32)
    requires 0 < sig < HIDDEN32
    ensures -22 <= exp <= 0 && HIDDEN32 <= z < 2 * HIDDEN32
    ensures Scale(z as real, exp - 150) == Scale(sig as real, -149)
  {
    hide P2, Pow2, Scale, Shl32, IsLeadingZeros;
    var count := CountLeadingZeros32(sig);
    SubnormalShift32(sig, count);
    var shiftCount: int := count - 8;
    exp := 1 - shiftCount;
    z := Shl32(sig, shiftCount);
  }

  lemma SubnormalShift32(sig: u32, count: nat)
    requires 0 < sig < HIDDEN32 && IsLeadingZeros(sig, count, 32)
    ensures 9 <= count <= 31
    ensures HIDDEN32 <= Shl32(sig, count - 8) < 2 * HIDDEN32
    ensures Scale(Shl32(sig, count - 8) as real, 9 - count - 150) == Scale(sig as real, -149)
  {
    hide P2, Pow2, Scale;
    SubnormalCount(sig, count);
    assert P2(count) == P2(count - 8) * 0x100 && P2(31) == 0x8000_0000 && P2(32) == W32 by {
      P2Add(count - 8, 8);
      P2Values();
    }
    var z := sig * P2(count - 8);
    assert sig * P2(count) == z * 0x100 by { Reassociate(sig, P2(count - 8), 0x100); }
    assert HIDDEN32 <= z < 2 * HIDDEN32;
    assert Scale(z as real, 9 - count - 150) == Scale(sig as real, -149) by { ShiftedLeft(sig, count - 8, -149); }
  }

  lemma SubnormalCount(sig: u32, count: nat)
    requires 0 < sig < HIDDEN32 && IsLeadingZeros(sig, count, 32)
    ensures 9 <= count <= 31
  {
    P2Values();
    if count < 9 { P2Mono(count, 8); }
    hide P2;
    if count < 9 { MulUpper(sig, P2(count), HIDDEN32 - 1, 0x100); }
  }

  /** Once normalised where need be, the exponent and fraction fields give the operand. */
  lemma UnpackedFields32(a: u32, exp: int, sig: u32)
    requires IsFinite32(a) && MagOf32(a) != 0
    requires if ExpOf32(a) != 0 then exp == ExpOf32(a) && sig == FracOf32(a)
             else -22 <= exp <= 0 && HIDDEN32 <= sig < 2 * HIDDEN32
                  && Scale(sig as real, exp - 150) == Scale(FracOf32(a) as real, -149)
    ensures Unpacked32(a, exp, Or(sig, HIDDEN32))
  {
    Fields32(a);
    SetHidden32(sig);
    if ExpOf32(a) != 0 {
      DivModUnique(MagOf32(a), HIDDEN32, ExpOf32(a), FracOf32(a));
    }
  }

  lemma ZeroValue32(a: u32)
    requires IsFinite32(a)
    ensures AbsValue32(a) >= 0.0
    ensures AbsValue32(a) == 0.0 <==> MagOf32(a) == 0
    ensures MagOf32(a) == 0 <==> ExpOf32(a) == 0 && FracOf32(a) == 0
  {
    Fields32(a);
    var m := MagOf32(a);
    if m < HIDDEN32 {
      ScaleLess(0.0, m as real, -149);
    } else {
      ScaleLess(0.0, (HIDDEN32 + m % HIDDEN32) as real, m / HIDDEN32 - 150);
    }
  }

  /** The exponent and significand of a nonzero finite operand; a subnormal one is normalised. */
  method UnpackNonzero32(a: u32) returns (exp: int, sig: u32)
    requires IsFinite32(a) && !(ExpOf32(a) == 0 && FracOf32(a) == 0)
    ensures Unpacked32(a, exp, Or(sig, HIDDEN32)) && sig < 2 * HIDDEN32 && -22 <= exp <= 0xFE
  {
    Fields32(a);
    hide P2, Pow2, Scale, Or;
    exp, sig := ExpOf32(a), FracOf32(a);
    if exp == 0 {
      exp, sig := NormSubnormalF32Sig(sig);
    }
    UnpackedFields32(a, exp, sig);
  }

  // ----- NaNs and other special operands -----

  predicate IsSigNaN32(a: u32) {
    (a / 0x40_0000) % 0x200 == 0x1FE && a % 0x40_0000 != 0
  }

  /** The bits tested are those of a NaN whose quiet bit, the top one of the fraction, is clear. */
  lemma SignalingNaN32(a: u32)
    ensures IsSigNaN32(a) <==> IsNaN32(a) && FracOf32(a) < 0x40_0000
  {
    var q, low := a / 0x40_0000, a % 0x40_0000;
    assert a == q * 0x40_0000 + low;
    assert a / HIDDEN32 == q / 2 && FracOf32(a) == (q % 2) * 0x40_0000 + low;
  }

  /** The NaN delivered: sign bit, exponent field and every fraction bit set. */
  lemma DefaultNaN32()
    ensures SignOf32(NAN32) && ExpOf32(NAN32) == 0xFF && FracOf32(NAN32) == 0x7F_FFFF
    ensures IsNaN32(NAN32) && !IsSigNaN32(NAN32)
  {
  }

  predicate IsInfinite32(a: u32) { ExpOf32(a) == 0xFF && FracOf32(a) == 0 }
  predicate IsZero32(a: u32) { MagOf32(a) == 0 }

  function SignBits32(neg: bool): int { Bit(neg) * TOP32 }

  /** The NaN every binary32 operation delivers for a NaN operand. */
  function NaNResult32(a: u32, b: u32): Outcome {
    Outcome(NAN32, RaisedWhen(IsSigNaN32(a) || IsSigNaN32(b), INVALID))
  }

  const INVALID_RESULT32 := Outcome(NAN32, INVALID)

  method PropagateNaNF32UI(env: FpEnv, uiA: u32, uiB: u32) returns (z: u32)
    modifies env`flags
    ensures z == NaNResult32(uiA, uiB).bits
    ensures env.flags == old(env.flags).Or(NaNResult32(uiA, uiB).flags)
  {
    if IsSigNaN32(uiA) || IsSigNaN32(uiB) {
      env.Raise(INVALID);
    }
    z := NAN32;
  }
}
