/** f32_mul: one 64-bit product, folded to 32 bits with a sticky bit. */
module Mul32 {
  import opened Arith
  import opened Powers
  import opened Sticky
  import opened Words
  import opened Rounding
  import opened FpState
  import opened Packing
  import opened Binary32
  import opened RoundPack32
  import opened Operands32
  import Mul64

  /** The product IEEE 754 asks for. */
  ghost function Product32(mode: Mode, a: u32, b: u32): Outcome {
    var neg := SignOf32(a) != SignOf32(b);
    if IsNaN32(a) || IsNaN32(b) then NaNResult32(a, b)
    else if IsInfinite32(a) || IsInfinite32(b) then
      if IsZero32(a) || IsZero32(b) then INVALID_RESULT32 else Outcome(SignBits32(neg) + INF32, NO_FLAGS)
    else
      ZeroValue32(a); ZeroValue32(b);
      Round32(mode, neg, AbsValue32(a) * AbsValue32(b))
  }

  /** An infinite operand: invalid when the other one is zero (no magnitude bits). */
  method InfArg32(env: FpEnv, signZ: bool, magBits: bool) returns (z: u32)
    modifies env`flags
    ensures z == if magBits then SignBits32(signZ) + INF32 else NAN32
    ensures env.flags == if magBits then old(env.flags) else old(env.flags).Or(INVALID)
  {
    if !magBits {
      env.Raise(INVALID);
      z := NAN32;
    } else {
      z := Pack32(signZ, 0xFF, 0);
    }
  }

  /** The results that need no multiplication, by the fields of the operands. */
  lemma SpecialProduct32(mode: Mode, a: u32, b: u32)
    ensures
      var signZ := SignOf32(a) != SignOf32(b);
      var aSpecial, bSpecial := ExpOf32(a) == 0xFF, ExpOf32(b) == 0xFF;
      var aZero, bZero := ExpOf32(a) == 0 && FracOf32(a) == 0, ExpOf32(b) == 0 && FracOf32(b) == 0;
      && ((aSpecial && FracOf32(a) != 0) || (bSpecial && FracOf32(b) != 0) ==> Product32(mode, a, b) == NaNResult32(a, b))
      && (((aSpecial && FracOf32(a) == 0 && bZero) || (bSpecial && FracOf32(b) == 0 && aZero))
          ==> Product32(mode, a, b) == Outcome(NAN32, INVALID))
      && (((aSpecial && FracOf32(a) == 0 && !bZero && !(bSpecial && FracOf32(b) != 0))
           || (bSpecial && FracOf32(b) == 0 && !aZero && !(aSpecial && FracOf32(a) != 0)))
          ==> Product32(mode, a, b) == Outcome(SignBits32(signZ) + INF32, NO_FLAGS))
  {
    Fields32(a);
    Fields32(b);
    hide AbsValue32, Round32, NaNResult32;
  }

  method F32Mul(env: FpEnv, a: u32, b: u32) returns (z: u32)
    modifies env`flags
    ensures z == Product32(env.roundingMode, a, b).bits
    ensures env.flags == old(env.flags).Or(Product32(env.roundingMode, a, b).flags)
  {
    hide P2, Pow2, Round32, AbsValue32, Scale, Or, PackedAbs32, Shl32, Normalised, Unpacked32, Jam, OrBit, ShortShift64RightJam;
    hide Product32, ExpOf32, FracOf32, SignOf32, Pack32, NaNResult32, SignBits32;
    var signA, expA, sigA := SignOf32(a), ExpOf32(a), FracOf32(a);
    var signB, expB, sigB := SignOf32(b), ExpOf32(b), FracOf32(b);
    var signZ := signA != signB;
    SpecialProduct32(env.roundingMode, a, b);
    if expA == 0xFF {
      if sigA != 0 || (expB == 0xFF && sigB != 0) {
        z := PropagateNaNF32UI(env, a, b);
        return;
      }
      z := InfArg32(env, signZ, expB != 0 || sigB != 0);
      return;
    }
    if expB == 0xFF {
      if sigB != 0 {
        z := PropagateNaNF32UI(env, a, b);
        return;
      }
      z := InfArg32(env, signZ, expA != 0 || sigA != 0);
      return;
    }
    if (expA == 0 && sigA == 0) || (expB == 0 && sigB == 0) {
      ZeroProduct32(env.roundingMode, a, b);
      z := Pack32(signZ, 0, 0);
      return;
    }
    expA, sigA := UnpackNonzero32(a);
    expB, sigB := UnpackNonzero32(b);
    SetHidden32(sigA);
    SetHidden32(sigB);
    ghost var mA, mB := Or(sigA, HIDDEN32), Or(sigB, HIDDEN32);
    var expZ := expA + expB - 0x7F;
    sigA := Shl32(Or(sigA, HIDDEN32), 7);
    sigB := Shl32(Or(sigB, HIDDEN32), 8);
    ProductFolded32(mA, mB);
    var product := MulLow64(sigA, sigB);
    var sigZ: u32 := ShortShift64RightJam(product, 32);
    FiniteProduct32(env.roundingMode, a, b);
    ProductRounds32(env.roundingMode, signZ, a, expA, mA, b, expB, mB, mA * mB, sigZ);
    if sigZ < 0x4000_0000 {
      expZ := expZ - 1;
      sigZ := Shl32(sigZ, 1);
    }
    z := RoundPackToF32(env, signZ, expZ, sigZ);
  }

  lemma FiniteProduct32(mode: Mode, a: u32, b: u32)
    requires IsFinite32(a) && IsFinite32(b)
    ensures AbsValue32(a) * AbsValue32(b) >= 0.0
    ensures Product32(mode, a, b) == Round32(mode, SignOf32(a) != SignOf32(b), AbsValue32(a) * AbsValue32(b))
  {
    hide AbsValue32, Round32, SignOf32, ExpOf32, FracOf32, MagOf32;
    ZeroValue32(a);
    ZeroValue32(b);
  }

  lemma ZeroProduct32(mode: Mode, a: u32, b: u32)
    requires IsFinite32(a) && IsFinite32(b)
    requires (ExpOf32(a) == 0 && FracOf32(a) == 0) || (ExpOf32(b) == 0 && FracOf32(b) == 0)
    ensures Product32(mode, a, b) == Outcome(Pack32(SignOf32(a) != SignOf32(b), 0, 0), NO_FLAGS)
  {
    hide Round32, AbsValue32, Scale, Product32;
    ZeroValue32(a);
    ZeroValue32(b);
    ZeroOutcome32(mode, SignOf32(a) != SignOf32(b), 0);
    assert AbsValue32(a) * AbsValue32(b) == 0.0;
    FiniteProduct32(mode, a, b);
  }

  lemma ProductFolded32(mA: nat, mB: nat)
    requires HIDDEN32 <= mA < 2 * HIDDEN32 && HIDDEN32 <= mB < 2 * HIDDEN32
    ensures Shl32(mA, 7) == mA * 0x80 && Shl32(mB, 8) == mB * 0x100
    ensures 0 <= (mA * 0x80) * (mB * 0x100) < W64
    ensures ShortShift64RightJam((mA * 0x80) * (mB * 0x100), 32) == Jam(mA * mB * 0x8000, W32)
    ensures 0x2000_0000 <= Jam(mA * mB * 0x8000, W32) < 0x8000_0000
  {
    P2Values();
    hide P2;
    var p := mA * mB;
    assert (mA * 0x80) * (mB * 0x100) == p * 0x8000;
    MulUpper(mA, mB, 2 * HIDDEN32 - 1, 2 * HIDDEN32 - 1);
    MulGe(mA, HIDDEN32, mB);
  }

  lemma ProductValue32(a: u32, expA: int, mA: nat, b: u32, expB: int, mB: nat)
    requires Unpacked32(a, expA, mA) && Unpacked32(b, expB, mB)
    ensures AbsValue32(a) * AbsValue32(b) == Scale((mA * mB) as real, expA + expB - 300)
  {
    hide Pow2, AbsValue32;
    Pow2Add(expA - 150, expB - 150);
    assert expA - 150 + (expB - 150) == expA + expB - 300;
    RealProduct(mA, mB);
    Mul64.ScaledProduct(mA as real, Pow2(expA - 150), mB as real, Pow2(expB - 150));
  }

  /** The folded product, at either exponent, rounds as the exact product does. */
  lemma ProductRounds32(mode: Mode, neg: bool, a: u32, expA: int, mA: nat, b: u32, expB: int, mB: nat, p: nat, sigZ: u32)
    requires Unpacked32(a, expA, mA) && Unpacked32(b, expB, mB) && p == mA * mB
    requires sigZ == Jam(p * 0x8000, W32)
    requires 0x2000_0000 <= sigZ < 0x8000_0000
    ensures AbsValue32(a) * AbsValue32(b) >= 0.0
    ensures
      var low := sigZ < 0x4000_0000;
      var expZ := expA + expB - (if low then 0x80 else 0x7F);
      var sig := if low then Shl32(sigZ, 1) else sigZ;
      && Normalised(BINARY32, 7, sig)
      && Round32(mode, neg, PackedAbs32(expZ, sig)) == Round32(mode, neg, AbsValue32(a) * AbsValue32(b))
  {
    hide P2, Pow2, AbsValue32, Unpacked32, Round32, Scale, PackedAbs32, Jam, Ratio;
    var e := expA + expB - 0x7F;
    ProductValue32(a, expA, mA, b, expB, mB);
    FoldedValue32(p, e);
    JamRounds32(mode, neg, e, p * 0x8000, W32, AbsValue32(a) * AbsValue32(b));
    P2Values();
    if sigZ < 0x4000_0000 {
      ShiftFits32(sigZ, 1);
      PackedShift32(e, sigZ, 1);
    }
  }

  lemma FoldedValue32(p: nat, e: int)
    ensures Scale(p as real, e - 173) == Scale(Ratio(p * 0x8000, W32), e - 156)
  {
    hide Pow2, P2;
    RatioScale(p, 17);
    ScaleScale(p as real, -17, e - 156);
    P2Add(6, 11);
    P2Values();
    assert Ratio(p * 0x8000, W32) == Ratio(p, 0x2_0000);
  }
}
