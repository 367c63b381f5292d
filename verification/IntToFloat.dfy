/** Integers to floating point, and the emulated FCVT.S.W / FCVT.S.WU, which go through binary64. */
module IntToFloat {
  import opened Arith
  import opened Powers
  import opened Sticky
  import opened Words
  import opened Rounding
  import opened FpState
  import opened Packing
  import opened Binary64
  import opened RoundPack64
  import opened Operands64
  import opened Binary32
  import opened RoundPack32
  import opened Convert

  function Abs(v: int): nat { if v < 0 then -v else v }

  /** An integer converted to binary64, or to binary32: rounded once. */
  ghost function IntTo64(mode: Mode, v: int): Outcome {
    Round64(mode, v < 0, Abs(v) as real)
  }

  ghost function IntTo32(mode: Mode, v: int): Outcome {
    Round32(mode, v < 0, Abs(v) as real)
  }

  method UI64ToF64(env: FpEnv, a: u64) returns (z: u64)
    modifies env`flags
    ensures z == IntTo64(env.roundingMode, a).bits
    ensures env.flags == old(env.flags).Or(IntTo64(env.roundingMode, a).flags)
  {
    hide P2, Pow2, Round64, PackedAbs, Normalised, ShortShift64RightJam;
    if a == 0 {
      ZeroOutcome(env.roundingMode, false, 0);
      z := 0;
      return;
    }
    if TOP64 <= a {
      TopBitSet(env.roundingMode, a);
      z := RoundPackToF64(env, false, 0x43D, ShortShift64RightJam(a, 1));
    } else {
      UnitPlace(a);
      z := NormRoundPackToF64(env, false, 0x43C, a);
    }
  }

  lemma UnitPlace(a: u64)
    ensures PackedAbs(0x43C, a) == a as real
  {
    ScaleZero(a as real);
  }

  lemma TopBitSet(mode: Mode, a: u64)
    requires TOP64 <= a
    ensures Normalised(BINARY64, 10, ShortShift64RightJam(a, 1))
    ensures ShortShift64RightJam(a, 1) < W64
    ensures Round64(mode, false, PackedAbs(0x43D, ShortShift64RightJam(a, 1))) == IntTo64(mode, a)
  {
    P2Values();
    hide P2, Pow2, Round64, PackedAbs, Scale;
    ScaleZero(Ratio(a, 2));
    ScaleHalf(Ratio(a, 2), 0);
    assert Ratio(a, 2) * 2.0 == a as real;
    JamRounds(mode, false, 0x43D, a, 2, a as real);
  }

  /** a is a signed 64-bit word, as its value. */
  method I64ToF64(env: FpEnv, a: int) returns (z: u64)
    requires -TOP64 <= a < TOP64
    modifies env`flags
    ensures z == IntTo64(env.roundingMode, a).bits
    ensures env.flags == old(env.flags).Or(IntTo64(env.roundingMode, a).flags)
  {
    hide P2, Pow2, Round64, PackedAbs, Normalised;
    var sign := a < 0;
    if a % TOP64 == 0 {
      MostNegative(env.roundingMode);
      ZeroOutcome(env.roundingMode, false, 0);
      z := if sign then Pack(true, 0x43E, 0) else 0;
      return;
    }
    UnitPlace(Abs(a));
    z := NormRoundPackToF64(env, sign, 0x43C, if sign then -a else a);
  }

  lemma MostNegative(mode: Mode)
    ensures IntTo64(mode, -TOP64) == Outcome(Pack(true, 0x43E, 0), NO_FLAGS)
  {
    hide P2, Pow2, Round64, Scale;
    assert MagValue(0x43E * HIDDEN64) == TOP64 as real by {
      assert P2(11) == 0x800 by { P2Values(); }
      ScaleNat(HIDDEN64, 11);
    }
    hide MagValue;
    ExactMag(mode, true, 0x43E * HIDDEN64);
  }

  method UI32ToF32(env: FpEnv, a: u32) returns (z: u32)
    modifies env`flags
    ensures z == IntTo32(env.roundingMode, a).bits
    ensures env.flags == old(env.flags).Or(IntTo32(env.roundingMode, a).flags)
  {
    hide P2, Pow2, Round32, PackedAbs32, Normalised, ShortShift32Right1Jam;
    if a == 0 {
      ZeroOutcome32(env.roundingMode, false, 0);
      z := 0;
      return;
    }
    if TOP32 <= a {
      TopBitSet32(env.roundingMode, a);
      z := RoundPackToF32(env, false, 0x9D, ShortShift32Right1Jam(a));
    } else {
      UnitPlace32(a);
      z := NormRoundPackToF32(env, false, 0x9C, a);
    }
  }

  lemma UnitPlace32(a: u32)
    ensures PackedAbs32(0x9C, a) == a as real
  {
    ScaleZero(a as real);
  }

  lemma TopBitSet32(mode: Mode, a: u32)
    requires TOP32 <= a
    ensures Normalised(BINARY32, 7, ShortShift32Right1Jam(a))
    ensures Round32(mode, false, PackedAbs32(0x9D, ShortShift32Right1Jam(a))) == IntTo32(mode, a)
  {
    P2Values();
    hide P2, Pow2, Round32, PackedAbs32, Scale;
    assert ShortShift32Right1Jam(a) == Jam(a, 2);
    ScaleZero(Ratio(a, 2));
    ScaleHalf(Ratio(a, 2), 0);
    assert Ratio(a, 2) * 2.0 == a as real;
    JamRounds32(mode, false, 0x9D, a, 2, a as real);
  }

  /** a is a signed 32-bit word, as its value. */
  method I32ToF32(env: FpEnv, a: int) returns (z: u32)
    requires -TOP32 <= a < TOP32
    modifies env`flags
    ensures z == IntTo32(env.roundingMode, a).bits
    ensures env.flags == old(env.flags).Or(IntTo32(env.roundingMode, a).flags)
  {
    hide P2, Pow2, Round32, PackedAbs32, Normalised;
    var sign := a < 0;
    if a % TOP32 == 0 {
      MostNegative32(env.roundingMode);
      ZeroOutcome32(env.roundingMode, false, 0);
      z := if sign then Pack32(true, 0x9E, 0) else 0;
      return;
    }
    UnitPlace32(Abs(a));
    z := NormRoundPackToF32(env, sign, 0x9C, if sign then -a else a);
  }

  lemma MostNegative32(mode: Mode)
    ensures IntTo32(mode, -TOP32) == Outcome(Pack32(true, 0x9E, 0), NO_FLAGS)
  {
    hide P2, Pow2, Round32, Scale;
    assert MagValue32(0x9E * HIDDEN32) == TOP32 as real by {
      assert P2(8) == 0x100 by { P2Values(); }
      ScaleNat(HIDDEN32, 8);
    }
    hide MagValue32;
    ExactMag32(mode, true, 0x9E * HIDDEN32);
  }

  // ----- the emulated instructions -----

  /** The integer operand of FCVT.W or FCVT.WU in the low half of a register. */
  function LowWord(rs1: u64, signed: bool): int {
    var low := rs1 % W32;
    if signed && low >= TOP32 then low - W32 else low
  }

  /** The magnitude of that operand as a word: unary minus wraps. */
  lemma LowMagnitude(rs1: u64, signed: bool)
    ensures -W32 < LowWord(rs1, signed) < W32
    ensures signed && rs1 % W32 >= TOP32 <==> LowWord(rs1, signed) < 0
    ensures Abs(LowWord(rs1, signed)) == Wrap32(if signed && rs1 % W32 >= TOP32 then 0 - rs1 else rs1)
  {
    var q, low := rs1 / W32, rs1 % W32;
    assert rs1 == q * W32 + low;
    if low > 0 {
      DivModUnique(0 - rs1, W32, -q - 1, W32 - low);
    }
  }

  /** An integer below 2^32 is exact in binary64, so that rounding it to binary32 afterwards rounds it once. */
  lemma IntThrough64(mode: Mode, mode': Mode, v: int)
    requires -W32 < v < W32
    ensures IntTo64(mode, v).flags == NO_FLAGS && 0 <= IntTo64(mode, v).bits < W64
    ensures Narrowed(mode', IntTo64(mode, v).bits) == IntTo32(mode', v)
    ensures v < 0 ==> IntTo64(mode, v).bits == IntTo64(mode, -v).bits + TOP64
  {
    var x := Abs(v) as real;
    ScaleZero(x);
    ValueFits(x, Abs(v), 0);
    hide Round64, Round32, Narrowed, AbsValue, Representable, Scale, Pow2;
    RepresentableOutcome(mode, v < 0, x);
    RepresentableOutcome(mode, false, x);
    var p := Round64(mode, v < 0, x);
    assert Narrowed(mode', p.bits) == Round32(mode', v < 0, x) by { FiniteNarrowed(mode', p.bits); }
    if v < 0 { OppositeBits(mode, x); }
  }

  lemma FiniteNarrowed(mode: Mode, a: u64)
    requires IsFinite(a)
    ensures AbsValue(a) >= 0.0 && Narrowed(mode, a) == Round32(mode, SignOf(a), AbsValue(a))
  {
    ZeroValue(a);
    hide Round32, AbsValue;
  }

  /** An exact result changes only its sign bit with the sign. */
  lemma OppositeBits(mode: Mode, x: real)
    requires 0.0 <= x < Pow2(1023) && Representable(BINARY64, x)
    ensures Round64(mode, true, x).bits == Round64(mode, false, x).bits + TOP64
  {
    hide Round64, Representable, AbsValue, Pow2;
    RepresentableOutcome(mode, false, x);
    var b := Round64(mode, false, x).bits;
    Fields(b);
    assert AbsValue(b) == MagValue(MagOf(b)) by { AbsIsMag(b); }
    hide MagValue;
    ExactMag(mode, true, MagOf(b));
  }

  /** Lines 202 to 224 of fp_emulation.c for the 32-bit integer operands: the magnitude, then the sign. */
  method IntegerToF64(env: FpEnv, rs1: u64, signed: bool) returns (float64: u64)
    modifies env`flags
    ensures float64 == IntTo64(env.roundingMode, LowWord(rs1, signed)).bits
    ensures env.flags == old(env.flags)
  {
    hide IntTo64, IntTo32, Narrowed, LowWord, Wrap32, Wrap64, Flags.Or;
    var negative := signed && rs1 % W32 >= TOP32;
    var uintVal: u64 := Wrap32(if negative then 0 - rs1 else rs1);
    LowMagnitude(rs1, signed);
    IntThrough64(env.roundingMode, env.roundingMode, LowWord(rs1, signed));
    IntThrough64(env.roundingMode, env.roundingMode, uintVal);
    OrNothing(env.flags);
    float64 := UI64ToF64(env, uintVal);
    if negative {
      WrapSame(float64 + TOP64);
      float64 := Wrap64(float64 + TOP64);
    }
  }

  /** FCVT.S.W and FCVT.S.WU: what i32_to_f32 and ui32_to_f32 give, bits and flags. */
  method FcvtSingle(env: FpEnv, rs1: u64, signed: bool) returns (z: u32)
    modifies env`flags
    ensures z == IntTo32(env.roundingMode, LowWord(rs1, signed)).bits
    ensures env.flags == old(env.flags).Or(IntTo32(env.roundingMode, LowWord(rs1, signed)).flags)
  {
    hide IntTo64, IntTo32, Narrowed;
    var float64 := IntegerToF64(env, rs1, signed);
    IntThrough64(env.roundingMode, env.roundingMode, LowWord(rs1, signed));
    z := F64ToF32(env, float64);
  }
}
