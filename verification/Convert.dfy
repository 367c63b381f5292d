/** f32_to_f64 and f64_to_f32, and why f32_mul may be computed in binary64. */
module Convert {
  import opened Arith
  import opened Powers
  import opened Sticky
  import opened Words
  import opened Rounding
  import opened FpState
  import opened Packing
  import opened Binary64
  import opened Operands64
  import opened Binary32
  import opened RoundPack32
  import opened Operands32
  import opened Mul64
  import opened Mul32

  // ----- narrowing -----

  /** The binary32 result for a binary64 operand; a NaN keeps its sign and nothing else. */
  ghost function Narrowed(mode: Mode, a: u64): Outcome {
    if IsNaN(a) then Outcome(SignBits32(SignOf(a)) + 0x7FFF_FFFF, RaisedWhen(IsSigNaN(a), INVALID))
    else if IsInfinite(a) then Outcome(SignBits32(SignOf(a)) + INF32, NO_FLAGS)
    else
      ZeroValue(a);
      Round32(mode, SignOf(a), AbsValue(a))
  }

  method F64ToF32(env: FpEnv, a: u64) returns (z: u32)
    modifies env`flags
    ensures z == Narrowed(env.roundingMode, a).bits
    ensures env.flags == old(env.flags).Or(Narrowed(env.roundingMode, a).flags)
  {
    hide P2, Pow2, Round32, AbsValue, PackedAbs32, Normalised, Or, ShortShift64RightJam;
    var sign, exp, sig := SignOf(a), ExpOf(a), FracOf(a);
    Fields(a);
    if exp == 0x7FF {
      if sig != 0 {
        if IsSigNaN(a) {
          env.Raise(INVALID);
        }
        z := SignBits32(sign) + 0x7FFF_FFFF;
      } else {
        z := Pack32(sign, 0xFF, 0);
      }
      return;
    }
    NarrowedSignificand(env.roundingMode, sign, a);
    var sig32: u32 := ShortShift64RightJam(sig, 22);
    if exp == 0 && sig32 == 0 {
      z := Pack32(sign, 0, 0);
      return;
    }
    z := RoundPackToF32(env, sign, exp - 0x381, Or(sig32, 0x4000_0000));
  }

  /** The top 31 bits of the significand, jammed, stand for the operand; so does anything tiny for a subnormal one. */
  lemma NarrowedSignificand(mode: Mode, neg: bool, a: u64)
    requires IsFinite(a)
    ensures 0 <= ShortShift64RightJam(FracOf(a), 22) < 0x4000_0000
    ensures Or(ShortShift64RightJam(FracOf(a), 22), 0x4000_0000) == ShortShift64RightJam(FracOf(a), 22) + 0x4000_0000
    ensures Normalised(BINARY32, 7, ShortShift64RightJam(FracOf(a), 22) + 0x4000_0000)
    ensures AbsValue(a) >= 0.0
    ensures ExpOf(a) == 0 && ShortShift64RightJam(FracOf(a), 22) == 0
            ==> Round32(mode, neg, AbsValue(a)) == Outcome(Bit(neg) * TOP32, NO_FLAGS)
    ensures ExpOf(a) != 0 || ShortShift64RightJam(FracOf(a), 22) != 0
            ==> Round32(mode, neg, AbsValue(a))
                == Round32(mode, neg, PackedAbs32(ExpOf(a) - 0x381, ShortShift64RightJam(FracOf(a), 22) + 0x4000_0000))
  {
    hide Pow2, Round32, AbsValue, PackedAbs32, Scale, Ratio, Or, ExpOf, FracOf;
    var f := FracOf(a);
    var s := ShortShift64RightJam(f, 22);
    assert s == Jam(f, P2(22));
    P2Values();
    hide P2, Jam, ShortShift64RightJam;
    FractionJam(f);
    OrPower(s, 30);
    ZeroValue(a);
    if ExpOf(a) == 0 {
      if s == 0 {
        ZeroOutcome32(mode, neg, 0);
      } else {
        TinyOperand(mode, neg, a, s + 0x4000_0000);
      }
    } else {
      NormalOperand(a);
      RatioScaled22(HIDDEN64 + f, ExpOf(a));
      JamRounds32(mode, neg, ExpOf(a) - 0x381, HIDDEN64 + f, 0x40_0000, AbsValue(a));
    }
  }

  lemma FractionJam(f: u64)
    requires f < HIDDEN64
    ensures 0 <= Jam(f, 0x40_0000) < 0x4000_0000
    ensures Jam(f, 0x40_0000) == 0 <==> f == 0
    ensures Jam(HIDDEN64 + f, 0x40_0000) == Jam(f, 0x40_0000) + 0x4000_0000
  {
  }

  lemma NormalOperand(a: u64)
    requires IsFinite(a) && ExpOf(a) != 0
    ensures AbsValue(a) == Scale((HIDDEN64 + FracOf(a)) as real, ExpOf(a) - 1075)
  {
    Fields(a);
    DivModUnique(MagOf(a), HIDDEN64, ExpOf(a), FracOf(a));
  }

  lemma RatioScaled22(m: nat, e: int)
    ensures Scale(m as real, e - 1075) == Scale(Ratio(m, 0x40_0000), e - 0x381 - 156)
  {
    P2Values();
    hide P2, Pow2;
    RatioScale(m, 22);
    ScaleScale(m as real, -22, e - 1053);
  }

  /** Below half of the smallest binary32 number, all numbers but zero round alike. */
  lemma TinyOperand(mode: Mode, neg: bool, a: u64, sig: u32)
    requires ExpOf(a) == 0 && FracOf(a) != 0 && 0x4000_0000 <= sig < 0x8000_0000
    ensures AbsValue(a) >= 0.0
    ensures Round32(mode, neg, AbsValue(a)) == Round32(mode, neg, PackedAbs32(-0x381, sig))
  {
    P2Values();
    hide P2, Pow2, Round32;
    Fields(a);
    var m := MagOf(a);
    PowerRatio(-1074, 52);
    Pow2Mono(-1022, -200);
    TinyPosition(m, -1074, HIDDEN64);
    PowerRatio(-0x381 - 156, 31);
    TinyPosition(sig, -0x381 - 156, 0x8000_0000);
    hide Scale, Position;
    SameOutcome32(mode, neg, AbsValue(a), PackedAbs32(-0x381, sig), -150);
  }

  lemma TinyPosition(m: nat, e: int, bound: nat)
    requires 0 < m < bound && Scale(bound as real, e) <= Pow2(-200)
    ensures Scale(m as real, e) > 0.0
    ensures Position(Scale(Scale(m as real, e), 150)) == 1
  {
    hide P2, Pow2;
    var x := Scale(m as real, e);
    ScaleLess(0.0, m as real, e);
    ScaleLess(m as real, bound as real, e);
    Pow2Mono(-200, -150);
    ScaleLess(0.0, x, 150);
    ScaleLess(x, Pow2(-150), 150);
    PowerUnits(-150, 150, 0);
    P2Values();
    PositionGap(Scale(x, 150), 0);
  }

  // ----- widening -----

  /** The binary64 result for a binary32 operand: exact, so the rounding mode does not matter. */
  ghost function Widened(a: u32): Outcome {
    if IsNaN32(a) then Outcome(SignBits(SignOf32(a)) + 0x7FFF_FFFF_FFFF_FFFF, RaisedWhen(IsSigNaN32(a), INVALID))
    else if IsInfinite32(a) then Outcome(SignBits(SignOf32(a)) + INF64, NO_FLAGS)
    else
      ZeroValue32(a);
      Round64(NearEven, SignOf32(a), AbsValue32(a))
  }

  method F32ToF64(env: FpEnv, a: u32) returns (z: u64)
    modifies env`flags
    ensures z == Widened(a).bits
    ensures env.flags == old(env.flags).Or(Widened(a).flags)
    ensures IsFinite32(a) ==> IsFinite(z) && SignOf(z) == SignOf32(a) && AbsValue(z) == AbsValue32(a)
  {
    hide P2, Pow2, Round64, AbsValue, AbsValue32, Or, Shl64, Scale;
    var sign, exp, sig := SignOf32(a), ExpOf32(a), FracOf32(a);
    Fields32(a);
    if exp == 0xFF {
      if sig != 0 {
        if IsSigNaN32(a) {
          env.Raise(INVALID);
        }
        z := SignBits(sign) + 0x7FFF_FFFF_FFFF_FFFF;
      } else {
        z := Pack(sign, 0x7FF, 0);
      }
      return;
    }
    if exp == 0 && sig == 0 {
      WidenedZero(a);
      z := Pack(sign, 0, 0);
      return;
    }
    if ExpOf32(a) != 0 { WidenedNormal(a); }
    if exp == 0 {
      exp, sig := NormSubnormalF32Sig(sig);
      WidenedSubnormal(a, exp, sig);
      exp := exp - 1;
    }
    z := Pack(sign, exp + 0x380, Shl64(sig, 29));
  }

  /** The magnitude bits of the widened number, once the exponent and significand are known. */
  lemma WidenedBits(a: u32, exp: int, m: nat)
    requires IsFinite32(a) && HIDDEN32 <= m < 2 * HIDDEN32 && -22 <= exp <= 0xFE
    requires AbsValue32(a) == Scale(m as real, exp - 150)
    ensures
      var z := Bit(SignOf32(a)) * TOP64 + (exp + 0x37F) * HIDDEN64 + m * 0x2000_0000;
      && 0 <= z < W64
      && Widened(a) == Outcome(z, NO_FLAGS)
      && IsFinite(z) && SignOf(z) == SignOf32(a) && AbsValue(z) == AbsValue32(a)
  {
    hide P2, Pow2, Round64, AbsValue32, MagValue, Scale, SignOf, SignOf32, MagOf;
    var mag := (exp + 0x37F) * HIDDEN64 + m * 0x2000_0000;
    WidenedMag(exp, m);
    ExactMag(NearEven, SignOf32(a), mag);
    SignedMag(SignOf32(a), mag);
  }

  lemma WidenedMag(exp: int, m: nat)
    requires HIDDEN32 <= m < 2 * HIDDEN32 && -22 <= exp <= 0xFE
    ensures
      var mag := (exp + 0x37F) * HIDDEN64 + m * 0x2000_0000;
      0 <= mag < INF64 && MagValue(mag) == Scale(m as real, exp - 150)
  {
    var mag := (exp + 0x37F) * HIDDEN64 + m * 0x2000_0000;
    ScaleNat(m, 29);
    ScaleScale(m as real, 29, exp - 179);
    P2Values();
    hide P2, Pow2, Scale;
    DivModUnique(mag, HIDDEN64, exp + 0x380, (m - HIDDEN32) * 0x2000_0000);
  }

  lemma WidenedNormal(a: u32)
    requires IsFinite32(a) && ExpOf32(a) != 0
    ensures
      var z := Pack(SignOf32(a), ExpOf32(a) + 0x380, Shl64(FracOf32(a), 29));
      && Widened(a) == Outcome(z, NO_FLAGS)
      && IsFinite(z) && SignOf(z) == SignOf32(a) && AbsValue(z) == AbsValue32(a)
  {
    hide P2, Pow2, Scale, Round64, Widened, AbsValue, SignOf, SignOf32, Pack, Shl64, IsFinite, Bit;
    var m := HIDDEN32 + FracOf32(a);
    assert AbsValue32(a) == Scale(m as real, ExpOf32(a) - 150) by {
      Fields32(a);
      DivModUnique(MagOf32(a), HIDDEN32, ExpOf32(a), FracOf32(a));
    }
    hide AbsValue32, ExpOf32, FracOf32;
    WidenedBits(a, ExpOf32(a), m);
    WidenedPack(SignOf32(a), ExpOf32(a), FracOf32(a), ExpOf32(a) + 0x380);
  }

  lemma WidenedSubnormal(a: u32, exp: int, sig: u32)
    requires ExpOf32(a) == 0 && HIDDEN32 <= sig < 2 * HIDDEN32 && -22 <= exp <= 0
    requires Scale(sig as real, exp - 150) == Scale(FracOf32(a) as real, -149)
    ensures
      var z := Pack(SignOf32(a), exp - 1 + 0x380, Shl64(sig, 29));
      && Widened(a) == Outcome(z, NO_FLAGS)
      && IsFinite(z) && SignOf(z) == SignOf32(a) && AbsValue(z) == AbsValue32(a)
  {
    Fields32(a);
    hide Pow2, Round64, Widened, AbsValue, Scale;
    assert AbsValue32(a) == Scale(sig as real, exp - 150);
    WidenedBits(a, exp, sig);
    WidenedPack(SignOf32(a), exp, sig - HIDDEN32, exp + 0x380);
    WidenedPack(SignOf32(a), exp, sig, exp + 0x37F);
  }

  /** The fields are added, whether or not the hidden bit is among them. */
  lemma WidenedPack(neg: bool, exp: int, sig: u32, e: int)
    requires sig < 2 * HIDDEN32 && 0 <= e <= 0x47E
    ensures Pack(neg, e, Shl64(sig, 29)) == Bit(neg) * TOP64 + e * HIDDEN64 + sig * 0x2000_0000
  {
    P2Values();
  }

  lemma WidenedZero(a: u32)
    requires ExpOf32(a) == 0 && FracOf32(a) == 0
    ensures
      var z := Pack(SignOf32(a), 0, 0);
      && Widened(a) == Outcome(z, NO_FLAGS)
      && IsFinite(z) && SignOf(z) == SignOf32(a) && AbsValue(z) == AbsValue32(a)
  {
    ZeroValue32(a);
    SignedMag(SignOf32(a), 0);
    ZeroValue(Bit(SignOf32(a)) * TOP64);
    RoundPack64.ZeroOutcome(NearEven, SignOf32(a), 0);
    assert Pack(SignOf32(a), 0, 0) == Bit(SignOf32(a)) * TOP64;
    hide Round64, AbsValue, AbsValue32, SignOf, SignOf32, Pack, MagOf;
  }

  /** Widening loses nothing: the operand comes back, in every mode and without a flag. */
  lemma WidenThenNarrow(mode: Mode, a: u32)
    requires IsFinite32(a)
    ensures 0 <= Widened(a).bits < W64
    ensures Narrowed(mode, Widened(a).bits) == Outcome(a, NO_FLAGS)
  {
    WidenedValue(a);
    ZeroValue32(a);
    Fields32(a);
    ExactMag32(mode, SignOf32(a), MagOf32(a));
    hide Round32, AbsValue, MagValue32;
  }

  lemma WidenedValue(a: u32)
    requires IsFinite32(a)
    ensures Widened(a).flags == NO_FLAGS && 0 <= Widened(a).bits < W64
    ensures
      var z := Widened(a).bits;
      IsFinite(z) && SignOf(z) == SignOf32(a) && AbsValue(z) == AbsValue32(a)
  {
    if ExpOf32(a) == 0 && FracOf32(a) == 0 {
      WidenedZero(a);
    } else {
      var exp, m := UnpackedParts(a);
      WidenedBits(a, exp, m);
    }
    hide Widened;
  }

  lemma UnpackedParts(a: u32) returns (exp: int, m: nat)
    requires IsFinite32(a) && !(ExpOf32(a) == 0 && FracOf32(a) == 0)
    ensures Unpacked32(a, exp, m)
  {
    Fields32(a);
    if ExpOf32(a) != 0 {
      DivModUnique(MagOf32(a), HIDDEN32, ExpOf32(a), FracOf32(a));
      exp, m := ExpOf32(a), HIDDEN32 + FracOf32(a);
    } else {
      exp, m := Normalising(FracOf32(a), -149, 0);
    }
  }

  /** A number from 2^k to 2^23 shifted left until its top bit is bit 23. */
  lemma {:induction false} Normalising(f: nat, e: int, k: nat) returns (exp: int, m: nat)
    requires P2(k) <= f < HIDDEN32
    ensures HIDDEN32 <= m < 2 * HIDDEN32 && e + 127 + k <= exp <= e + 149
    ensures Scale(m as real, exp - 150) == Scale(f as real, e)
    decreases HIDDEN32 - f
  {
    ScaleTwice(f, e - 1);
    P2Succ(k);
    BelowHidden(k, f);
    hide Pow2, Scale, P2;
    if 2 * f < HIDDEN32 {
      exp, m := Normalising(2 * f, e - 1, k + 1);
    } else {
      exp, m := e + 149, 2 * f;
    }
  }

  lemma BelowHidden(k: nat, f: nat)
    requires P2(k) <= f < HIDDEN32
    ensures k < 23
  {
    P2Values();
    if k >= 23 { P2Mono(23, k); }
  }

  // ----- multiplying in binary64 -----

  /** The product of two binary32 numbers has at most 48 bits, so binary64 holds it exactly. */
  lemma ProductFits(a: u32, b: u32)
    requires IsFinite32(a) && IsFinite32(b)
    ensures 0.0 <= AbsValue32(a) * AbsValue32(b) < Pow2(1023)
    ensures Representable(BINARY64, AbsValue32(a) * AbsValue32(b))
  {
    ZeroValue32(a);
    ZeroValue32(b);
    hide AbsValue32, Scale, Representable;
    if MagOf32(a) == 0 || MagOf32(b) == 0 {
      assert AbsValue32(a) * AbsValue32(b) == 0.0;
      ValueFits(0.0, 0, 0);
    } else {
      var expA, mA := UnpackedParts(a);
      var expB, mB := UnpackedParts(b);
      ProductValue32(a, expA, mA, b, expB, mB);
      MulUpper(mA, mB, 2 * HIDDEN32 - 1, 2 * HIDDEN32 - 1);
      ValueFits(AbsValue32(a) * AbsValue32(b), mA * mB, expA + expB - 300);
    }
  }

  lemma ValueFits(x: real, n: nat, q: int)
    requires n < 0x1_0000_0000_0000 && -1074 <= q <= 900
    requires x == Scale(n as real, q) || (x == 0.0 && n == 0)
    ensures 0.0 <= x < Pow2(1023) && Representable(BINARY64, x)
  {
    P2Values();
    hide P2, Pow2;
    assert IsValueOf(BINARY64, x, n, q);
    ScaleLess(0.0, n as real, q);
    ScaleLess(n as real, P2(53) as real, q);
    PowerRatio(q, 53);
    Pow2Mono(q + 53, 1023);
  }

  /** The three conversions and the one multiplication in binary64, as one operation. */
  ghost function ProductThrough64(mode: Mode, a: u32, b: u32): Outcome {
    WidenedWord(a);
    WidenedWord(b);
    var wa, wb := Widened(a), Widened(b);
    ProductWord(mode, wa.bits, wb.bits);
    var p := Product(mode, wa.bits, wb.bits);
    var n := Narrowed(mode, p.bits);
    Outcome(n.bits, wa.flags.Or(wb.flags).Or(p.flags).Or(n.flags))
  }

  lemma WidenedWord(a: u32)
    ensures 0 <= Widened(a).bits < W64
  {
    if IsFinite32(a) { WidenedValue(a); }
  }

  lemma ProductWord(mode: Mode, a: u64, b: u64)
    ensures 0 <= Product(mode, a, b).bits < W64
  {
    if IsFinite(a) && IsFinite(b) {
      FiniteProduct(mode, a, b);
      RoundedMagBounds(mode, SignOf(a) != SignOf(b), AbsValue(a) * AbsValue(b));
    }
    hide Round64, AbsValue;
  }

  /** f32_mul is f64_mul between exact widenings and one narrowing: the same bits and the same flags, always. */
  lemma MulThrough64(mode: Mode, a: u32, b: u32)
    ensures ProductThrough64(mode, a, b) == Product32(mode, a, b)
  {
    WidenedWord(a);
    WidenedWord(b);
    ProductWord(mode, Widened(a).bits, Widened(b).bits);
    if IsFinite32(a) && IsFinite32(b) {
      FiniteThrough64(mode, a, b);
    } else {
      SpecialThrough64(mode, a, b);
    }
  }

  lemma FiniteThrough64(mode: Mode, a: u32, b: u32)
    requires IsFinite32(a) && IsFinite32(b)
    ensures ProductThrough64(mode, a, b) == Product32(mode, a, b)
  {
    WidenedValue(a);
    WidenedValue(b);
    hide Widened, Round32, Round64, AbsValue, AbsValue32, Product, Product32, Narrowed, SignOf, SignOf32;
    var neg := SignOf32(a) != SignOf32(b);
    var x := ExactProduct32(mode, a, b, neg);
    SameProduct(mode, a, b, Widened(a).bits, Widened(b).bits, neg, x);
    ExactThenNarrow(mode, neg, x);
  }

  lemma ExactProduct32(mode: Mode, a: u32, b: u32, neg: bool) returns (x: real)
    requires IsFinite32(a) && IsFinite32(b) && neg == (SignOf32(a) != SignOf32(b))
    ensures x == AbsValue32(a) * AbsValue32(b)
    ensures 0.0 <= x < Pow2(1023) && Representable(BINARY64, x)
    ensures Product32(mode, a, b) == Round32(mode, neg, x)
  {
    hide Round32, AbsValue32, Product32, Pow2, Representable;
    x := AbsValue32(a) * AbsValue32(b);
    FiniteProduct32(mode, a, b);
    ProductFits(a, b);
  }

  lemma SameProduct(mode: Mode, a: u32, b: u32, wa: u64, wb: u64, neg: bool, x: real)
    requires IsFinite(wa) && AbsValue(wa) == AbsValue32(a) && IsFinite(wb) && AbsValue(wb) == AbsValue32(b)
    requires x == AbsValue32(a) * AbsValue32(b) && neg == (SignOf(wa) != SignOf(wb))
    ensures x >= 0.0 && Product(mode, wa, wb) == Round64(mode, neg, x)
  {
    hide Round64, AbsValue, AbsValue32, Product;
    FiniteProduct(mode, wa, wb);
  }

  /** Narrowing an exact binary64 result rounds the exact number once. */
  lemma ExactThenNarrow(mode: Mode, neg: bool, x: real)
    requires 0.0 <= x < Pow2(1023) && Representable(BINARY64, x)
    ensures
      var p := Round64(mode, neg, x);
      p.flags == NO_FLAGS && 0 <= p.bits < W64 && Narrowed(mode, p.bits) == Round32(mode, neg, x)
  {
    hide Round64, Round32, AbsValue, Representable;
    RepresentableOutcome(mode, neg, x);
  }

  lemma SpecialThrough64(mode: Mode, a: u32, b: u32)
    requires !IsFinite32(a) || !IsFinite32(b)
    ensures ProductThrough64(mode, a, b) == Product32(mode, a, b)
  {
    hide Widened, Round32, Round64, AbsValue, AbsValue32, IsNaN, IsInfinite, IsZero, SignOf, IsSigNaN, IsFinite;
    hide IsNaN32, IsInfinite32, IsZero32, SignOf32, IsSigNaN32, IsFinite32, Narrowed, SignBits, SignBits32;
    WidenedClass(a);
    WidenedClass(b);
    ProductWord(mode, Widened(a).bits, Widened(b).bits);
    NarrowedSpecial(mode, SignOf32(a) != SignOf32(b));
  }

  /** Widening keeps the kind and the sign of its operand, and quiets a NaN. */
  lemma WidenedClass(a: u32)
    ensures 0 <= Widened(a).bits < W64
    ensures
      var z := Widened(a).bits;
      && (IsNaN(z) <==> IsNaN32(a)) && (IsInfinite(z) <==> IsInfinite32(a)) && (IsZero(z) <==> IsZero32(a))
      && (IsFinite(z) <==> IsFinite32(a)) && SignOf(z) == SignOf32(a) && !IsSigNaN(z)
    ensures Widened(a).flags == RaisedWhen(IsSigNaN32(a), INVALID)
    ensures IsSigNaN32(a) ==> IsNaN32(a)
    ensures !IsFinite32(a) <==> IsNaN32(a) || IsInfinite32(a)
  {
    assert IsSigNaN32(a) ==> IsNaN32(a);
    if IsFinite32(a) {
      WidenedValue(a);
      hide Widened;
      FiniteClass(a, Widened(a).bits);
      assert !IsNaN32(a) && !IsInfinite32(a);
    } else {
      SpecialWords(SignOf32(a));
      assert IsNaN32(a) || IsInfinite32(a);
      assert !IsZero32(a);
    }
    hide Round64, AbsValue, AbsValue32, IsNaN, IsInfinite, IsZero, SignOf, IsSigNaN, IsFinite;
    hide IsNaN32, IsInfinite32, IsZero32, SignOf32, IsSigNaN32, IsFinite32;
  }

  lemma SpecialWords(neg: bool)
    ensures
      var z := SignBits(neg) + 0x7FFF_FFFF_FFFF_FFFF;
      0 <= z < W64 && IsNaN(z) && !IsInfinite(z) && !IsZero(z) && !IsFinite(z) && SignOf(z) == neg && !IsSigNaN(z)
    ensures
      var z := SignBits(neg) + INF64;
      0 <= z < W64 && !IsNaN(z) && IsInfinite(z) && !IsZero(z) && !IsFinite(z) && SignOf(z) == neg && !IsSigNaN(z)
  {
  }

  lemma FiniteClass(a: u32, z: u64)
    requires IsFinite32(a) && IsFinite(z) && AbsValue(z) == AbsValue32(a)
    ensures IsZero(z) <==> IsZero32(a)
    ensures !IsNaN(z) && !IsInfinite(z) && !IsSigNaN(z)
  {
    SigNaNExp(z);
    ZeroValue(z);
    ZeroValue32(a);
    hide AbsValue, AbsValue32, IsSigNaN, MagOf, MagOf32, ExpOf, ExpOf32;
  }

  lemma SigNaNExp(z: u64)
    ensures IsSigNaN(z) ==> ExpOf(z) == 0x7FF
  {
  }

  lemma NarrowedSpecial(mode: Mode, neg: bool)
    ensures Narrowed(mode, NAN64) == Outcome(NAN32, NO_FLAGS)
    ensures 0 <= SignBits(neg) + INF64 < W64
    ensures Narrowed(mode, SignBits(neg) + INF64) == Outcome(SignBits32(neg) + INF32, NO_FLAGS)
  {
    hide Round32, AbsValue;
  }
}
