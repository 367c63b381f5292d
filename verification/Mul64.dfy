/** f64_mul: one 128-bit product, folded to 64 bits with a sticky bit. */
module Mul64 {
  import opened Arith
  import opened Powers
  import opened Sticky
  import opened Words
  import opened Rounding
  import opened FpState
  import opened Packing
  import opened Binary64
  import opened RoundPack64
  import opened Operands64

  /** The product IEEE 754 asks for. */
  ghost function Product(mode: Mode, a: u64, b: u64): Outcome {
    var neg := SignOf(a) != SignOf(b);
    if IsNaN(a) || IsNaN(b) then NaNResult(a, b)
    else if IsInfinite(a) || IsInfinite(b) then
      if IsZero(a) || IsZero(b) then INVALID_RESULT else Outcome(SignBits(neg) + INF64, NO_FLAGS)
    else
      ZeroValue(a); ZeroValue(b);
      Round64(mode, neg, AbsValue(a) * AbsValue(b))
  }

  /** An infinite operand: invalid when the other one is zero (no magnitude bits). */
  method InfArg(env: FpEnv, signZ: bool, magBits: bool) returns (z: u64)
    modifies env`flags
    ensures z == if magBits then SignBits(signZ) + INF64 else NAN64
    ensures env.flags == if magBits then old(env.flags) else old(env.flags).Or(INVALID)
  {
    if !magBits {
      env.Raise(INVALID);
      z := NAN64;
    } else {
      z := Pack(signZ, 0x7FF, 0);
    }
  }

  /** The results that need no multiplication, by the fields of the operands. */
  lemma SpecialProduct(mode: Mode, a: u64, b: u64)
    ensures
      var signZ := SignOf(a) != SignOf(b);
      var aSpecial, bSpecial := ExpOf(a) == 0x7FF, ExpOf(b) == 0x7FF;
      var aZero, bZero := ExpOf(a) == 0 && FracOf(a) == 0, ExpOf(b) == 0 && FracOf(b) == 0;
      && ((aSpecial && FracOf(a) != 0) || (bSpecial && FracOf(b) != 0) ==> Product(mode, a, b) == NaNResult(a, b))
      && (((aSpecial && FracOf(a) == 0 && bZero) || (bSpecial && FracOf(b) == 0 && aZero))
          ==> Product(mode, a, b) == Outcome(NAN64, INVALID))
      && (((aSpecial && FracOf(a) == 0 && !bZero && !(bSpecial && FracOf(b) != 0))
           || (bSpecial && FracOf(b) == 0 && !aZero && !(aSpecial && FracOf(a) != 0)))
          ==> Product(mode, a, b) == Outcome(SignBits(signZ) + INF64, NO_FLAGS))
  {
    Fields(a);
    Fields(b);
    hide AbsValue, Round64, NaNResult;
  }

  method F64Mul(env: FpEnv, a: u64, b: u64) returns (z: u64)
    modifies env`flags
    ensures z == Product(env.roundingMode, a, b).bits
    ensures env.flags == old(env.flags).Or(Product(env.roundingMode, a, b).flags)
  {
    hide P2, Pow2, Round64, AbsValue, Scale, Or, PackedAbs, Shl64, Normalised, Unpacked, Jam, OrBit;
    hide Product, ExpOf, FracOf, SignOf, Pack, NaNResult, SignBits;
    var signA, expA, sigA := SignOf(a), ExpOf(a), FracOf(a);
    var signB, expB, sigB := SignOf(b), ExpOf(b), FracOf(b);
    var signZ := signA != signB;
    SpecialProduct(env.roundingMode, a, b);
    if expA == 0x7FF {
      if sigA != 0 || (expB == 0x7FF && sigB != 0) {
        z := PropagateNaNF64UI(env, a, b);
        return;
      }
      z := InfArg(env, signZ, expB != 0 || sigB != 0);
      return;
    }
    if expB == 0x7FF {
      if sigB != 0 {
        z := PropagateNaNF64UI(env, a, b);
        return;
      }
      z := InfArg(env, signZ, expA != 0 || sigA != 0);
      return;
    }
    if (expA == 0 && sigA == 0) || (expB == 0 && sigB == 0) {
      ZeroProduct(env.roundingMode, a, b);
      z := Pack(signZ, 0, 0);
      return;
    }
    expA, sigA := UnpackNonzero(a);
    expB, sigB := UnpackNonzero(b);
    SetHidden(sigA);
    SetHidden(sigB);
    ghost var mA, mB := Or(sigA, HIDDEN64), Or(sigB, HIDDEN64);
    var expZ := expA + expB - 0x3FF;
    sigA := Shl64(Or(sigA, HIDDEN64), 10);
    sigB := Shl64(Or(sigB, HIDDEN64), 11);
    ShiftSignificands(mA, mB);
    var sigZ128 := Mul64To128(sigA, sigB);
    var sigZ := OrBit(sigZ128.v64, sigZ128.v0 != 0);
    ProductFolded(sigZ128, mA, mB);
    FiniteProduct(env.roundingMode, a, b);
    ProductRounds(env.roundingMode, signZ, a, expA, mA, b, expB, mB, mA * mB, sigZ);
    if sigZ < 0x4000_0000_0000_0000 {
      expZ := expZ - 1;
      sigZ := Shl64(sigZ, 1);
    }
    z := RoundPackToF64(env, signZ, expZ, sigZ);
  }

  lemma FiniteProduct(mode: Mode, a: u64, b: u64)
    requires IsFinite(a) && IsFinite(b)
    ensures AbsValue(a) * AbsValue(b) >= 0.0
    ensures Product(mode, a, b) == Round64(mode, SignOf(a) != SignOf(b), AbsValue(a) * AbsValue(b))
  {
    hide AbsValue, Round64, SignOf, ExpOf, FracOf, MagOf;
    ZeroValue(a);
    ZeroValue(b);
  }

  lemma ZeroProduct(mode: Mode, a: u64, b: u64)
    requires IsFinite(a) && IsFinite(b)
    requires (ExpOf(a) == 0 && FracOf(a) == 0) || (ExpOf(b) == 0 && FracOf(b) == 0)
    ensures Product(mode, a, b) == Outcome(Pack(SignOf(a) != SignOf(b), 0, 0), NO_FLAGS)
  {
    hide Round64, AbsValue, Scale, Product;
    ZeroValue(a);
    ZeroValue(b);
    ZeroOutcome(mode, SignOf(a) != SignOf(b), 0);
    assert AbsValue(a) * AbsValue(b) == 0.0;
    FiniteProduct(mode, a, b);
  }

  lemma ShiftSignificands(mA: nat, mB: nat)
    requires HIDDEN64 <= mA < 2 * HIDDEN64 && HIDDEN64 <= mB < 2 * HIDDEN64
    ensures Shl64(mA, 10) == mA * 0x400 && Shl64(mB, 11) == mB * 0x800
  {
    P2Values();
  }

  lemma ProductFolded(z: U128, mA: nat, mB: nat)
    requires HIDDEN64 <= mA < 2 * HIDDEN64 && HIDDEN64 <= mB < 2 * HIDDEN64
    requires z.Val() == (mA * 0x400) * (mB * 0x800)
    ensures OrBit(z.v64, z.v0 != 0) == Jam(mA * mB * 0x20_0000, W64)
    ensures 0x2000_0000_0000_0000 <= OrBit(z.v64, z.v0 != 0) < 0x8000_0000_0000_0000
  {
    var p := mA * mB;
    assert (mA * 0x400) * (mB * 0x800) == p * 0x20_0000;
    MulUpper(mA, mB, 2 * HIDDEN64 - 1, 2 * HIDDEN64 - 1);
    MulGe(mA, HIDDEN64, mB);
    DivModUnique(p * 0x20_0000, W64, z.v64, z.v0);
  }

  lemma ProductValue(a: u64, expA: int, mA: nat, b: u64, expB: int, mB: nat)
    requires Unpacked(a, expA, mA) && Unpacked(b, expB, mB)
    ensures AbsValue(a) * AbsValue(b) == Scale((mA * mB) as real, expA + expB - 2150)
  {
    hide Pow2, AbsValue;
    Pow2Add(expA - 1075, expB - 1075);
    assert expA - 1075 + (expB - 1075) == expA + expB - 2150;
    RealProduct(mA, mB);
    ScaledProduct(mA as real, Pow2(expA - 1075), mB as real, Pow2(expB - 1075));
  }

  lemma ScaledProduct(x: real, p: real, y: real, r: real)
    ensures (x * p) * (y * r) == (x * y) * (p * r)
  {
    assert (x * p) * (y * r) == x * (p * (y * r));
    assert p * (y * r) == y * (p * r);
  }

  /** The folded product, at either exponent, rounds as the exact product does. */
  lemma ProductRounds(mode: Mode, neg: bool, a: u64, expA: int, mA: nat, b: u64, expB: int, mB: nat, p: nat, sigZ: u64)
    requires Unpacked(a, expA, mA) && Unpacked(b, expB, mB) && p == mA * mB
    requires sigZ == Jam(p * 0x20_0000, W64)
    requires 0x2000_0000_0000_0000 <= sigZ < 0x8000_0000_0000_0000
    ensures AbsValue(a) * AbsValue(b) >= 0.0
    ensures
      var low := sigZ < 0x4000_0000_0000_0000;
      var expZ := expA + expB - (if low then 0x400 else 0x3FF);
      var sig := if low then Shl64(sigZ, 1) else sigZ;
      && Normalised(BINARY64, 10, sig)
      && Round64(mode, neg, PackedAbs(expZ, sig)) == Round64(mode, neg, AbsValue(a) * AbsValue(b))
  {
    hide P2, Pow2, AbsValue, Unpacked, Round64, Scale, PackedAbs, Jam, Ratio;
    var e := expA + expB - 0x3FF;
    ProductValue(a, expA, mA, b, expB, mB);
    FoldedValue(p, e);
    JamRounds(mode, neg, e, p * 0x20_0000, W64, AbsValue(a) * AbsValue(b));
    P2Values();
    if sigZ < 0x4000_0000_0000_0000 {
      ShiftFits(sigZ, 1);
      PackedShift(e, sigZ, 1);
    }
  }

  lemma FoldedValue(p: nat, e: int)
    ensures Scale(p as real, e - 1127) == Scale(Ratio(p * 0x20_0000, W64), e - 1084)
  {
    hide Pow2, P2;
    RatioScale(p, 43);
    ScaleScale(p as real, -43, e - 1084);
    P2Add(11, 32);
    P2Values();
    assert Ratio(p * 0x20_0000, W64) == Ratio(p, 0x800_0000_0000);
  }
}
