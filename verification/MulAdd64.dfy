/** softfloat_mulAddF64: the product kept in 128 bits, aligned with the addend, added, and rounded once. */
module MulAdd64 {
  import opened Arith
  import opened Powers
  import opened Sticky
  import opened Words
  import opened Rounding
  import opened FpState
  import opened Packing
  import opened Binary64
  import opened RoundPack64
  import opened Operands64
  import Add64
  import Mul64

  // ----- what is asked for -----

  /** The two bits of the operation code: subtract the addend, subtract the product. */
  predicate SubC(op: nat) { op % 2 == 1 }
  predicate SubProd(op: nat) { (op / 2) % 2 == 1 }

  predicate ProductSign(op: nat, a: u64, b: u64) { (SignOf(a) != SignOf(b)) != SubProd(op) }
  predicate AddendSign(op: nat, c: u64) { SignOf(c) != SubC(op) }

  ghost function Signed(neg: bool, x: real): real { if neg then -x else x }

  /** +-p +- x, rounded once; an exact zero of opposite signs takes its sign from the mode. */
  ghost function SignedSum(mode: Mode, signProd: bool, p: real, signC: bool, x: real): Outcome {
    Add64.RoundSigned(mode, Signed(signProd, p) + Signed(signC, x), if signProd == signC then signProd else mode.Min?)
  }

  /** |a*b|, for finite a and b. */
  ghost function ExactProduct(a: u64, b: u64): real {
    AbsValue(a) * AbsValue(b)
  }

  lemma ProductSigns(a: u64, b: u64)
    requires IsFinite(a) && IsFinite(b)
    ensures ExactProduct(a, b) >= 0.0
    ensures MagOf(a) == 0 || MagOf(b) == 0 ==> ExactProduct(a, b) == 0.0
  {
    ZeroValue(a);
    ZeroValue(b);
    hide AbsValue, MagOf, ExpOf, FracOf;
  }

  /** +-(a*b) +- c rounded once: IEEE 754 sections 5.4.1, 6.1 to 6.3 and 7.2. */
  ghost function FusedMulAdd(mode: Mode, op: nat, a: u64, b: u64, c: u64): Outcome {
    var signProd, signC := ProductSign(op, a, b), AddendSign(op, c);
    if IsNaN(a) || IsNaN(b) then Outcome(NAN64, RaisedWhen(IsSigNaN(a) || IsSigNaN(b) || IsSigNaN(c), INVALID))
    else if IsInfinite(a) || IsInfinite(b) then
      if IsZero(a) || IsZero(b) then INVALID_RESULT
      else if IsNaN(c) then Outcome(NAN64, RaisedWhen(IsSigNaN(c), INVALID))
      else if IsInfinite(c) && signProd != signC then INVALID_RESULT
      else Outcome(SignBits(signProd) + INF64, NO_FLAGS)
    else if IsNaN(c) then Outcome(NAN64, RaisedWhen(IsSigNaN(c), INVALID))
    else if IsInfinite(c) then Outcome(SignBits(signC) + INF64, NO_FLAGS)
    else
      SignedSum(mode, signProd, ExactProduct(a, b), signC, AbsValue(c))
  }

  /** The branches that hand the addend back as it came in. */
  predicate ReturnsAddend(op: nat, a: u64, b: u64, c: u64) {
    && IsFinite(a) && IsFinite(b) && !IsNaN(c)
    && (IsInfinite(c)
        || ((IsZero(a) || IsZero(b)) && (!IsZero(c) || ProductSign(op, a, b) == AddendSign(op, c))))
  }

  /** The addend is the right answer there, except for the sign a subtraction should have given it. */
  lemma ReturnedAddend(mode: Mode, op: nat, a: u64, b: u64, c: u64)
    requires ReturnsAddend(op, a, b, c)
    ensures FusedMulAdd(mode, op, a, b, c) == Outcome(SignBits(AddendSign(op, c)) + MagOf(c), NO_FLAGS)
    ensures FusedMulAdd(mode, op, a, b, c).bits == c <==> !SubC(op)
  {
    Fields(a);
    Fields(b);
    Fields(c);
    if IsFinite(c) {
      ZeroValue(c);
      ProductSigns(a, b);
      ExactMag(mode, AddendSign(op, c), MagOf(c));
      hide AbsValue, Round64, ExpOf, FracOf, SignOf, MagOf, ExactProduct;
      ZeroPlus(mode, op, a, b, c);
    }
    hide Round64, AbsValue, ExactProduct;
  }

  lemma ZeroPlus(mode: Mode, op: nat, a: u64, b: u64, c: u64)
    requires IsFinite(a) && IsFinite(b) && IsFinite(c) && ExactProduct(a, b) == 0.0 && AbsValue(c) >= 0.0
    requires AbsValue(c) == 0.0 ==> ProductSign(op, a, b) == AddendSign(op, c) && MagOf(c) == 0
    requires Round64(mode, AddendSign(op, c), AbsValue(c)) == Outcome(SignBits(AddendSign(op, c)) + MagOf(c), NO_FLAGS)
    ensures FusedMulAdd(mode, op, a, b, c) == Outcome(SignBits(AddendSign(op, c)) + MagOf(c), NO_FLAGS)
  {
    hide AbsValue, Round64, ExpOf, FracOf, SignOf, MagOf, ExactProduct;
  }

  /** Everything that is decided by the fields of the operands alone. */
  lemma SpecialMulAdd(mode: Mode, op: nat, a: u64, b: u64, c: u64)
    ensures
      var aSpecial, bSpecial, cSpecial := ExpOf(a) == 0x7FF, ExpOf(b) == 0x7FF, ExpOf(c) == 0x7FF;
      var aZero, bZero, cZero := ExpOf(a) == 0 && FracOf(a) == 0, ExpOf(b) == 0 && FracOf(b) == 0, ExpOf(c) == 0 && FracOf(c) == 0;
      var signProd, signC := ProductSign(op, a, b), AddendSign(op, c);
      var out := FusedMulAdd(mode, op, a, b, c);
      && ((aSpecial && FracOf(a) != 0) || (bSpecial && FracOf(b) != 0)
          ==> out == Outcome(NAN64, RaisedWhen(IsSigNaN(a) || IsSigNaN(b) || IsSigNaN(c), INVALID)))
      && (((aSpecial && FracOf(a) == 0 && !(bSpecial && FracOf(b) != 0)) || (bSpecial && FracOf(b) == 0 && !(aSpecial && FracOf(a) != 0)))
          ==> out == if aZero || bZero then Outcome(NAN64, INVALID)
                     else if cSpecial && FracOf(c) != 0 then Outcome(NAN64, RaisedWhen(IsSigNaN(c), INVALID))
                     else if cSpecial && signProd != signC then Outcome(NAN64, INVALID)
                     else Outcome(SignBits(signProd) + INF64, NO_FLAGS))
      && (!aSpecial && !bSpecial && cSpecial && FracOf(c) != 0 ==> out == Outcome(NAN64, RaisedWhen(IsSigNaN(c), INVALID)))
      && (ReturnsAddend(op, a, b, c)
          <==> !aSpecial && !bSpecial
               && (if cSpecial then FracOf(c) == 0 else (aZero || bZero) && !(cZero && signProd != signC)))
  {
    Fields(a);
    Fields(b);
    Fields(c);
    hide AbsValue, Round64, SignedSum, SignOf, IsSigNaN, ExactProduct;
  }

  /** The finite case by magnitudes: p = |a*b|, x = |c|. */
  lemma FiniteMulAdd(mode: Mode, op: nat, a: u64, b: u64, c: u64)
    requires IsFinite(a) && IsFinite(b) && IsFinite(c)
    ensures ExactProduct(a, b) >= 0.0 && AbsValue(c) >= 0.0
    ensures
      var p, x := ExactProduct(a, b), AbsValue(c);
      var signProd, signC := ProductSign(op, a, b), AddendSign(op, c);
      FusedMulAdd(mode, op, a, b, c)
      == if signProd == signC then Round64(mode, signProd, p + x)
         else if p == x then Outcome(SignBits(mode.Min?), NO_FLAGS)
         else if p > x then Round64(mode, signProd, p - x)
         else Round64(mode, signC, x - p)
  {
    hide AbsValue, Round64, MagOf, SignedSum, ExactProduct, ProductSign, AddendSign, IsSigNaN, SignBits, RaisedWhen;
    ProductSigns(a, b);
    ZeroValue(c);
    FiniteIsSum(mode, op, a, b, c);
    hide FusedMulAdd;
    SignedCases(mode, ProductSign(op, a, b), AddendSign(op, c), ExactProduct(a, b), AbsValue(c));
  }

  lemma FiniteIsSum(mode: Mode, op: nat, a: u64, b: u64, c: u64)
    requires IsFinite(a) && IsFinite(b) && IsFinite(c)
    ensures FusedMulAdd(mode, op, a, b, c)
            == SignedSum(mode, ProductSign(op, a, b), ExactProduct(a, b), AddendSign(op, c), AbsValue(c))
  {
  }

  lemma SignedCases(mode: Mode, signProd: bool, signC: bool, p: real, x: real)
    requires p >= 0.0 && x >= 0.0
    ensures
      SignedSum(mode, signProd, p, signC, x)
      == if signProd == signC then Round64(mode, signProd, p + x)
         else if p == x then Outcome(SignBits(mode.Min?), NO_FLAGS)
         else if p > x then Round64(mode, signProd, p - x)
         else Round64(mode, signC, x - p)
  {
    ZeroOutcome(mode, signProd, 0);
    hide Round64;
  }

  // ----- 128-bit significands -----

  /** x is n units of 2^(e-1148), with n a full 126-bit number ending in a zero. */
  ghost predicate Wide(x: real, e: int, n: nat) {
    && x == Scale(n as real, e - 1148)
    && 0x2000_0000_0000_0000 * W64 <= n < 0x4000_0000_0000_0000 * W64
    && n % 2 == 0
  }

  /** A 128-bit significand, exact or jammed, folded to one word rounds as the number it stands for. */
  lemma FoldRounds(mode: Mode, neg: bool, e: int, n: nat, k: nat, z: nat, g: nat, sig: nat, x: real)
    requires g >= 1 && z == Jam(n, P2(k)) && sig == Jam(z, P2(g))
    requires 0x80_0000_0000_0000 <= sig < W64
    requires x == Scale(Ratio(n, P2(k)), e - 1148)
    ensures x >= 0.0
    ensures Round64(mode, neg, PackedAbs(e - 64 + g, sig)) == Round64(mode, neg, x)
  {
    P2Succ(g - 1);
    assert P2(g) % 2 == 0;
    hide P2, Pow2, Round64, PackedAbs, Jam, Scale, Ratio, Cut;
    JamJam(n, P2(k), P2(g));
    RatioScaled(n, P2(k), g, e - 64 + g - 1084);
    JamRounds(mode, neg, e - 64 + g, n, P2(k) * P2(g), x);
  }

  /** Dividing z*r by w = p*r is dividing z by p. */
  lemma ShiftedQuotient(z: nat, p: nat, r: nat, w: nat)
    requires p > 0 && r > 0 && p * r == w
    ensures w > 0 && z * r >= 0
    ensures Quo(z * r, w) == Quo(z, p) && Cut(z * r, w) == Cut(z, p)
  {
    CutShift(z, p, r, w);
    var q, m := z / p, z % p;
    Distribute(q, p, m, r);
    assert z == q * p + m;
    DivModUnique(z * r, w, q, m * r);
  }

  /** The word pair (v64, v0), or-ing the low word into the high one as a sticky bit. */
  lemma FoldedPair(z: U128)
    ensures OrBit(z.v64, z.v0 != 0) == Jam(z.Val(), W64)
    ensures Quo(z.Val(), W64) == z.v64 && (Cut(z.Val(), W64) <==> z.v0 != 0)
  {
    DivModUnique(z.Val(), W64, z.v64, z.v0);
  }

  // ----- the product -----

  /** Lines 76 to 83: the normalised 126-bit product. */
  method FullProduct(ghost a: u64, expA: int, fracA: u64, ghost b: u64, expB: int, fracB: u64)
    returns (expProd: int, sigProd: U128)
    requires Unpacked(a, expA, Or(fracA, HIDDEN64)) && fracA < 2 * HIDDEN64
    requires Unpacked(b, expB, Or(fracB, HIDDEN64)) && fracB < 2 * HIDDEN64
    ensures Wide(ExactProduct(a, b), expProd, sigProd.Val())
    ensures -0x800 <= expProd <= 0x1000
  {
    hide P2, Pow2, AbsValue, Scale, Or, Shl64;
    SetHidden(fracA);
    SetHidden(fracB);
    ghost var mA, mB := Or(fracA, HIDDEN64), Or(fracB, HIDDEN64);
    expProd := expA + expB - 0x3FE;
    var sigA := Shl64(Or(fracA, HIDDEN64), 10);
    var sigB := Shl64(Or(fracB, HIDDEN64), 10);
    TenBits(mA);
    TenBits(mB);
    sigProd := Mul64To128(sigA, sigB);
    ProductWords(mA, mB, sigProd);
    Mul64.ProductValue(a, expA, mA, b, expB, mB);
    ProductIsWide(ExactProduct(a, b), mA * mB, expA + expB, sigProd);
    hide Wide;
    if sigProd.v64 < 0x2000_0000_0000_0000 {
      expProd := expProd - 1;
      sigProd := ShortShift128Left(sigProd.v64, sigProd.v0, 1);
    }
  }

  lemma TenBits(m: nat)
    requires m < 2 * HIDDEN64
    ensures Shl64(m, 10) == m * 0x400
  {
    P2Values();
  }

  lemma ProductWords(mA: nat, mB: nat, z: U128)
    requires HIDDEN64 <= mA < 2 * HIDDEN64 && HIDDEN64 <= mB < 2 * HIDDEN64
    requires z.Val() == (mA * 0x400) * (mB * 0x400)
    ensures z.Val() == mA * mB * 0x10_0000
    ensures 0x1000_0000_0000_0000 <= z.v64 < 0x4000_0000_0000_0000
    ensures z.Val() % 2 == 0
  {
    var p := mA * mB;
    assert (mA * 0x400) * (mB * 0x400) == p * 0x10_0000;
    MulUpper(mA, mB, 2 * HIDDEN64 - 1, 2 * HIDDEN64 - 1);
    MulGe(mA, HIDDEN64, mB);
    ProductRange(p, z);
  }

  lemma ProductRange(p: int, z: U128)
    requires z.Val() == p * 0x10_0000 && HIDDEN64 * HIDDEN64 <= p < 4 * HIDDEN64 * HIDDEN64
    ensures 0x1000_0000_0000_0000 <= z.v64 < 0x4000_0000_0000_0000
    ensures z.Val() % 2 == 0
  {
    DivModUnique(z.Val(), 2, p * 0x8_0000, 0);
  }

  lemma ProductIsWide(x: real, p: nat, e: int, z: U128)
    requires x == Scale(p as real, e - 2150) && z.Val() == p * 0x10_0000
    requires 0x1000_0000_0000_0000 <= z.v64 < 0x4000_0000_0000_0000 && z.Val() % 2 == 0
    ensures 0x2000_0000_0000_0000 <= z.v64 ==> Wide(x, e - 0x3FE, z.Val())
    ensures z.v64 < 0x2000_0000_0000_0000
            ==> Wide(x, e - 0x3FF, ShortShift128Left(z.v64, z.v0, 1).Val())
  {
    hide Scale, ShortShift128Left;
    ProductUnits(p, e);
    if z.v64 < 0x2000_0000_0000_0000 {
      OneMoreBit(z);
      DoubledWide(x, p, e - 0x3FF, z);
    }
  }

  lemma DoubledWide(x: real, p: nat, e: int, z: U128)
    requires x == Scale((p * 0x20_0000) as real, e - 1148) && z.Val() == p * 0x10_0000
    requires 0x1000_0000_0000_0000 <= z.v64 < 0x2000_0000_0000_0000
    ensures Wide(x, e, 2 * z.Val())
  {
    hide Scale;
    assert 2 * z.Val() == p * 0x20_0000;
  }

  lemma ProductUnits(p: nat, e: int)
    ensures Scale(p as real, e - 2150) == Scale((p * 0x10_0000) as real, e - 0x3FE - 1148)
    ensures Scale(p as real, e - 2150) == Scale((p * 0x20_0000) as real, e - 0x3FF - 1148)
  {
    P2Values();
    P2Add(9, 11);
    P2Add(10, 11);
    hide P2, Pow2;
    ScaleNat(p, 20);
    ScaleNat(p, 21);
    ScaleScale(p as real, 20, e - 0x3FE - 1148);
    ScaleScale(p as real, 21, e - 0x3FF - 1148);
    hide Scale;
    assert 20 + (e - 0x3FE - 1148) == e - 2150 && 21 + (e - 0x3FF - 1148) == e - 2150;
  }

  lemma OneMoreBit(z: U128)
    requires z.v64 < 0x2000_0000_0000_0000
    ensures ShortShift128Left(z.v64, z.v0, 1).Val() == 2 * z.Val()
  {
    P2Values();
    hide P2;
    ShortShift128LeftExact(z.v64, z.v0, 1);
  }

  // ----- same signs -----

  /** Line 88: with a zero addend only the top of the low word can be lost. */
  lemma ProductAlone(mode: Mode, neg: bool, x: real, expProd: int, p: U128)
    requires Wide(x, expProd, p.Val())
    ensures x > 0.0
    ensures
      var sigZ := OrBit(Shl64(p.v64, 1), p.v0 != 0);
      && sigZ < TOP64
      && Normalised(BINARY64, 10, sigZ)
      && Round64(mode, neg, PackedAbs(expProd - 1, sigZ)) == Round64(mode, neg, x)
  {
    var n := p.Val();
    WideBounds(x, expProd, n);
    TopBits(p);
    JamByPower(n, 0);
    WholeRatio(n, expProd - 1148);
    hide P2, Round64, PackedAbs, Pow2, Jam, Wide, Scale, Shl64, OrBit;
    FoldRounds(mode, neg, expProd, n, 0, n, 63, OrBit(Shl64(p.v64, 1), p.v0 != 0), x);
  }

  lemma TopBits(p: U128)
    requires 0x2000_0000_0000_0000 <= p.v64 < 0x4000_0000_0000_0000
    ensures
      var sigZ := OrBit(Shl64(p.v64, 1), p.v0 != 0);
      sigZ == Jam(p.Val(), P2(63)) && 0x4000_0000_0000_0000 <= sigZ < TOP64 && Normalised(BINARY64, 10, sigZ)
  {
    P2Values();
    hide P2;
    WrapSame(2 * p.v64);
    DivModUnique(p.Val(), TOP64, 2 * p.v64 + p.v0 / TOP64, p.v0 % TOP64);
  }

  lemma WholeRatio(n: nat, e: int)
    ensures Scale(Ratio(n, P2(0)), e) == Scale(n as real, e)
  {
    assert Ratio(n, 1) == n as real;
  }

  /** Lines 98 to 116. */
  method SumOfWide(expProd: int, sigProd: U128, expC: int, sigC: u64,
                   ghost p: real, ghost x: real, ghost mode: Mode, ghost neg: bool)
    returns (expZ: int, sigZ: u64)
    requires Wide(p, expProd, sigProd.Val()) && Wide(x, expC, sigC * W64) && sigC % 2 == 0
    ensures (if expProd <= expC then expC else expProd) - 1 <= expZ <= (if expProd <= expC then expC else expProd)
    ensures Normalised(BINARY64, 10, sigZ)
    ensures p + x >= 0.0
    ensures Round64(mode, neg, PackedAbs(expZ, sigZ)) == Round64(mode, neg, p + x)
  {
    hide P2, Pow2, Scale, Round64, PackedAbs, Normalised, Jam, OrBit, Shl64, Shift64RightJam, Shift128RightJam, Wide;
    WideBounds(p, expProd, sigProd.Val());
    WideBounds(x, expC, sigC * W64);
    var expDiff := expProd - expC;
    if expDiff <= 0 {
      expZ := expC;
      var high := sigProd.v64;
      if expDiff != 0 {
        high := Shift64RightJam(sigProd.v64, -expDiff);
      }
      ProductShifted(mode, neg, expProd, sigProd, expC, sigC, high, p, x);
      sigZ := OrBit(sigC + high, sigProd.v0 != 0);
    } else {
      expZ := expProd;
      var sigC128 := Shift128RightJam(sigC, 0, expDiff);
      AddendShifted(mode, neg, expProd, sigProd, expC, sigC, sigC128, p, x);
      var sigZ128 := Add128(sigProd.v64, sigProd.v0, sigC128.v64, sigC128.v0);
      HoldsSmall(sigZ128, sigProd.Val() + sigC128.Val());
      FoldedPair(sigZ128);
      sigZ := OrBit(sigZ128.v64, sigZ128.v0 != 0);
    }
    SumField(mode, neg, expZ, sigZ);
    if sigZ < 0x4000_0000_0000_0000 {
      expZ := expZ - 1;
      sigZ := Shl64(sigZ, 1);
    }
  }

  lemma WideBounds(x: real, e: int, n: nat)
    requires Wide(x, e, n)
    ensures 0x2000_0000_0000_0000 * W64 <= n < 0x4000_0000_0000_0000 * W64 && n % 2 == 0
    ensures x == Scale(n as real, e - 1148) > 0.0
  {
    ScaleLess(0.0, n as real, e - 1148);
  }

  lemma HoldsSmall(z: U128, n: int)
    requires Holds128(z, n) && 0 <= n < W128
    ensures z.Val() == n
  {
  }

  lemma SumField(mode: Mode, neg: bool, e: int, sigZ: u64)
    requires 0x2000_0000_0000_0000 <= sigZ < TOP64
    ensures sigZ < 0x4000_0000_0000_0000
            ==> Normalised(BINARY64, 10, Shl64(sigZ, 1)) && PackedAbs(e - 1, Shl64(sigZ, 1)) == PackedAbs(e, sigZ)
    ensures 0x4000_0000_0000_0000 <= sigZ ==> Normalised(BINARY64, 10, sigZ)
  {
    P2Values();
    hide P2, PackedAbs;
    if sigZ < 0x4000_0000_0000_0000 {
      ShiftFits(sigZ, 1);
      PackedShift(e, sigZ, 1);
    }
  }

  /** The product shifted right into the addend's units: the low word is or-ed in last. */
  lemma ProductShifted(mode: Mode, neg: bool, expProd: int, sigProd: U128, expC: int, sigC: u64, high: nat, p: real, x: real)
    requires expProd <= expC
    requires Wide(p, expProd, sigProd.Val()) && Wide(x, expC, sigC * W64) && sigC % 2 == 0
    requires high == if expProd < expC then Shift64RightJam(sigProd.v64, expC - expProd) else sigProd.v64
    ensures
      var sigZ := OrBit(sigC + high, sigProd.v0 != 0);
      && 0x2000_0000_0000_0000 <= sigZ < TOP64
      && p + x >= 0.0
      && Round64(mode, neg, PackedAbs(expC, sigZ)) == Round64(mode, neg, p + x)
  {
    WideBounds(p, expProd, sigProd.Val());
    WideBounds(x, expC, sigC * W64);
    hide Wide, P2, Pow2, Scale, Round64, PackedAbs, Shift64RightJam, Jam, Cut, Ratio;
    var k := expC - expProd;
    var n := sigProd.Val();
    var d := P2(64 + k);
    ShiftedProductJam(sigProd, sigC, high, k, d);
    Add64.AlignedValue(sigC, n, 64 + k, expC - 1084);
    assert expC - 1084 - (64 + k) == expProd - 1148;
    WordUnits(sigC, expC);
    JamRounds(mode, neg, expC, sigC * d + n, d, p + x);
  }

  lemma FoldedJam(x: U128, high: nat, k: nat)
    requires high == if k > 0 then Jam(x.v64, P2(k)) else x.v64
    ensures OrBit(high, x.v0 != 0) == Jam(x.Val(), P2(64 + k))
  {
    hide P2, Quo, Cut;
    FoldedPair(x);
    QuoQuo(x.Val(), W64, P2(k));
    JamByPower(x.v64, k);
    assert P2(64 + k) == W64 * P2(k) by {
      P2Add(64, k);
      P2Values();
    }
  }

  lemma ShiftedProductJam(sigProd: U128, sigC: u64, high: nat, k: nat, d: nat)
    requires sigProd.v64 < 0x4000_0000_0000_0000 && sigC % 2 == 0 && sigC < 0x4000_0000_0000_0000
    requires 0x2000_0000_0000_0000 <= sigC
    requires high == if k > 0 then Shift64RightJam(sigProd.v64, k) else sigProd.v64
    requires d == P2(64 + k)
    ensures sigC * d >= 0
    ensures
      var sigZ := OrBit(sigC + high, sigProd.v0 != 0);
      && 0x2000_0000_0000_0000 <= sigZ < TOP64
      && sigZ == Jam(sigC * d + sigProd.Val(), d)
  {
    hide P2, Shift64RightJam, Quo, Cut;
    if k > 0 { Shift64RightJamIsJam(sigProd.v64, k); }
    JamByPower(sigProd.v64, k);
    JamByPowerBound(sigProd.v64, k);
    MulGe(sigC, 0, d);
    assert OrBit(high, sigProd.v0 != 0) == Jam(sigProd.Val(), d) by { FoldedJam(sigProd, high, k); }
    OrBitEven(sigC, high, sigProd.v0 != 0);
    Add64.JamSum(sigC, sigProd.Val(), 64 + k);
  }

  lemma WordUnits(m: nat, e: int)
    ensures Scale((m * W64) as real, e - 1148) == Scale(m as real, e - 1084)
  {
    P2Values();
    hide P2, Pow2;
    ScaleNat(m, 64);
    ScaleScale(m as real, 64, e - 1148);
  }

  lemma JamByPower(m: nat, k: nat)
    ensures k == 0 ==> Jam(m, P2(k)) == m
  {
    if k == 0 { DivModUnique(m, 1, m, 0); }
  }

  lemma JamByPowerBound(m: nat, k: nat)
    requires m < 0x4000_0000_0000_0000
    ensures Jam(m, P2(k)) < 0x4000_0000_0000_0000
  {
    if k == 0 {
      JamByPower(m, k);
    } else {
      Add64.JamHalved(m, k);
    }
  }

  /** The addend shifted right into the product's units, in 128 bits. */
  lemma AddendShifted(mode: Mode, neg: bool, expProd: int, sigProd: U128, expC: int, sigC: u64, sigC128: U128, p: real, x: real)
    requires expC < expProd
    requires Wide(p, expProd, sigProd.Val()) && Wide(x, expC, sigC * W64)
    requires sigC128 == Shift128RightJam(sigC, 0, expProd - expC)
    ensures
      var z := sigProd.Val() + sigC128.Val();
      && 0 <= z < W128
      && 0x2000_0000_0000_0000 <= Jam(z, W64) < TOP64
      && p + x >= 0.0
      && Round64(mode, neg, PackedAbs(expProd, Jam(z, W64))) == Round64(mode, neg, p + x)
  {
    WideBounds(p, expProd, sigProd.Val());
    WideBounds(x, expC, sigC * W64);
    var k, big := expProd - expC, sigProd.Val();
    var m, z := sigC * W64, big + sigC128.Val();
    ShiftedAddendJam(big, sigC, sigC128, k);
    hide Wide, P2, Pow2, Scale, Round64, PackedAbs, Shift128RightJam, Jam, Cut, Quo, Ratio;
    AlignedSumRounds(mode, neg, expProd, big, m, k, z, p, x);
  }

  lemma AlignedSumRounds(mode: Mode, neg: bool, e: int, big: nat, m: nat, k: nat, z: nat, p: real, x: real)
    requires p == Scale(big as real, e - 1148) > 0.0 && x == Scale(m as real, e - 1148 - k) > 0.0
    requires z == Jam(big * P2(k) + m, P2(k))
    requires 0x2000_0000_0000_0000 * W64 <= z < TOP64 * W64
    ensures 0x2000_0000_0000_0000 <= Jam(z, W64) < TOP64
    ensures p + x >= 0.0
    ensures Round64(mode, neg, PackedAbs(e, Jam(z, W64))) == Round64(mode, neg, p + x)
  {
    hide P2, Pow2, Scale, Round64, PackedAbs, Jam, Ratio;
    Add64.AlignedValue(big, m, k, e - 1148);
    FoldWord(mode, neg, e, big * P2(k) + m, k, z, p + x);
  }

  /** Folding with the whole low word as sticky bits. */
  lemma FoldWord(mode: Mode, neg: bool, e: int, n: nat, k: nat, z: nat, x: real)
    requires z == Jam(n, P2(k)) && x == Scale(Ratio(n, P2(k)), e - 1148)
    requires 0x2000_0000_0000_0000 * W64 <= z < TOP64 * W64
    ensures 0x2000_0000_0000_0000 <= Jam(z, W64) < TOP64
    ensures x >= 0.0
    ensures Round64(mode, neg, PackedAbs(e, Jam(z, W64))) == Round64(mode, neg, x)
  {
    FoldRange(z);
    P2Values();
    hide P2, Pow2, Scale, Round64, PackedAbs, Jam, Cut, Quo, Ratio;
    FoldRounds(mode, neg, e, n, k, z, 64, Jam(z, W64), x);
  }

  lemma ShiftedAddendJam(big: nat, sigC: u64, sigC128: U128, k: nat)
    requires k > 0 && sigC128 == Shift128RightJam(sigC, 0, k)
    requires big < 0x4000_0000_0000_0000 * W64 && big % 2 == 0 && sigC < 0x4000_0000_0000_0000
    ensures big + sigC128.Val() == Jam(big * P2(k) + sigC * W64, P2(k)) < TOP64 * W64
  {
    hide P2, Jam, Shift128RightJam;
    Shift128RightJamIsJam(sigC, 0, k);
    var m := sigC * W64;
    Add64.JamSum(big, m, k);
    Add64.JamHalved(m, k);
  }

  lemma FoldRange(z: nat)
    requires 0x2000_0000_0000_0000 * W64 <= z < TOP64 * W64
    ensures 0x2000_0000_0000_0000 <= Jam(z, W64) < TOP64
  {
  }

  // ----- opposite signs -----

  /** s is the left shift that brings the first 1 of a difference to bit 62 of its word. */
  ghost predicate ShiftCount(z: U128, s: int) {
    s >= -1 && IsLeadingZeros(if z.v64 != 0 then z.v64 else z.v0, s + 1, 64)
  }

  /** The shift is by 1 to 62 places unless at least 64 bits cancel and the low word starts at bit 62 or 63. */
  lemma ShiftCountRange(z: U128, s: int)
    requires 0 < z.Val() && z.v64 < 0x4000_0000_0000_0000 && ShiftCount(z, s)
    ensures 1 <= s <= 62 <==> z.v64 != 0 || z.v0 < 0x4000_0000_0000_0000
    ensures s == 0 <==> z.v64 == 0 && 0x4000_0000_0000_0000 <= z.v0 < TOP64
    ensures s == -1 <==> z.v64 == 0 && TOP64 <= z.v0
  {
    P2Values();
    var a := if z.v64 != 0 then z.v64 else z.v0;
    LeadingZerosAt(a, s + 1);
  }

  lemma LeadingZerosAt(a: u64, r: nat)
    requires a > 0 && IsLeadingZeros(a, r, 64)
    ensures r == 0 <==> TOP64 <= a
    ensures r == 1 <==> 0x4000_0000_0000_0000 <= a < TOP64
    ensures 2 <= r <= 63 <==> a < 0x4000_0000_0000_0000
  {
    assert P2(0) == 1 && P2(1) == 2 && P2(2) == 4 && P2(63) == TOP64 && P2(64) == W64 by { P2Values(); }
    hide P2;
    if r >= 2 {
      P2Mono(2, r);
      MulGe(P2(r), 4, a);
      assert P2(r) * a == a * P2(r);
    }
  }

  /** (1 + 2^-11)(1 + 2^-52) - (1 + 2^-11 + 2^-52): the difference fills the low word up to bit 62. */
  lemma ZeroShiftReached()
    ensures
      var a, b, c := 0x3FF0_0200_0000_0000, 0x3FF0_0000_0000_0001, 0xBFF0_0200_0000_0001;
      var mA, mB, mC := HIDDEN64 + 0x200_0000_0000, HIDDEN64 + 1, HIDDEN64 + 0x200_0000_0001;
      && Unpacked(a, 0x3FF, mA) && Unpacked(b, 0x3FF, mB) && Unpacked(c, 0x3FF, mC)
      && ProductSign(0, a, b) != AddendSign(0, c)
      && Wide(ExactProduct(a, b), 0x3FF, mA * mB * 0x20_0000)
      && Wide(AbsValue(c), 0x3FF, mC * 0x200 * W64)
      && var z := U128(0, 0x4000_0000_0000_0000);
         z.Val() == mA * mB * 0x20_0000 - mC * 0x200 * W64 && ShiftCount(z, 0)
  {
    var a, b, c := 0x3FF0_0200_0000_0000, 0x3FF0_0000_0000_0001, 0xBFF0_0200_0000_0001;
    var mA, mB, mC := HIDDEN64 + 0x200_0000_0000, HIDDEN64 + 1, HIDDEN64 + 0x200_0000_0001;
    NearOne(a, false, 0x200_0000_0000);
    NearOne(b, false, 1);
    NearOne(c, true, 0x200_0000_0001);
    hide Unpacked, AbsValue, SignOf, Wide, ExactProduct, ShiftCount;
    WideProduct(a, mA, b, mB);
    AddendWide(c, 0x3FF, mC);
    OneBitLeft();
  }

  lemma WideProduct(a: u64, mA: nat, b: u64, mB: nat)
    requires Unpacked(a, 0x3FF, mA) && Unpacked(b, 0x3FF, mB)
    requires 0x2000_0000_0000_0000 * W64 <= mA * mB * 0x20_0000 < 0x4000_0000_0000_0000 * W64
    ensures Wide(ExactProduct(a, b), 0x3FF, mA * mB * 0x20_0000)
  {
    hide Unpacked, AbsValue, Scale;
    Mul64.ProductValue(a, 0x3FF, mA, b, 0x3FF, mB);
    ProductUnits(mA * mB, 0x7FE);
    DivModUnique(mA * mB * 0x20_0000, 2, mA * mB * 0x10_0000, 0);
  }

  lemma OneBitLeft()
    ensures
      var mA, mB, mC := HIDDEN64 + 0x200_0000_0000, HIDDEN64 + 1, HIDDEN64 + 0x200_0000_0001;
      var z := U128(0, 0x4000_0000_0000_0000);
      z.Val() == mA * mB * 0x20_0000 - mC * 0x200 * W64 && ShiftCount(z, 0)
  {
    P2Values();
  }

  /** A number from 1 to 2 with its fraction. */
  lemma NearOne(a: u64, neg: bool, frac: u64)
    requires frac < HIDDEN64 && a == Bit(neg) * TOP64 + 0x3FF * HIDDEN64 + frac
    ensures SignOf(a) == neg && Unpacked(a, 0x3FF, HIDDEN64 + frac)
  {
    SignedMag(neg, 0x3FF * HIDDEN64 + frac);
    DivModUnique(MagOf(a), HIDDEN64, 0x3FF, frac);
    Fields(a);
  }

  lemma AddendWide(c: u64, expC: int, mC: nat)
    requires Unpacked(c, expC, mC)
    ensures Wide(AbsValue(c), expC, mC * 0x200 * W64) && (mC * 0x200) % 2 == 0 && mC * 0x200 < W64
    ensures Shl64(mC, 9) == mC * 0x200
  {
    assert P2(9) == 0x200 by { P2Values(); }
    hide P2, Pow2, Scale, AbsValue;
    ScaleNat(mC, 9);
    ScaleScale(mC as real, 9, expC - 1084);
    WordUnits(mC * 0x200, expC);
    assert 9 + (expC - 1084) == expC - 1075;
    DivModUnique(mC * 0x200, 2, mC * 0x100, 0);
    DivModUnique(mC * 0x200 * W64, 2, mC * 0x200 * TOP64, 0);
    WrapSame(mC * 0x200);
  }

  /** Lines 141 to 156: the difference, normalised to one word. */
  method NormaliseDifference(e: int, z: U128, ghost n: nat, ghost k: nat, ghost x: real, ghost mode: Mode, ghost neg: bool)
    returns (expZ: int, sigZ: u64)
    requires 0 < z.Val() && z.v64 < 0x4000_0000_0000_0000
    requires z.Val() == Jam(n, P2(k)) && x == Scale(Ratio(n, P2(k)), e - 1148)
    requires z.v64 == 0 ==> !Cut(n, P2(k))
    ensures e - 126 <= expZ <= e
    ensures Normalised(BINARY64, 10, sigZ)
    ensures x >= 0.0
    ensures Round64(mode, neg, PackedAbs(expZ, sigZ)) == Round64(mode, neg, x)
  {
    hide P2, Pow2, Scale, Ratio, Round64, PackedAbs, Normalised, Jam, Cut, OrBit, IsLeadingZeros, ShortShift64RightJam, ShortShift128Left;
    expZ := e;
    var z128 := z;
    if z128.v64 == 0 {
      expZ := expZ - 64;
      z128 := U128(z128.v0, 0);
    }
    var count: int := CountLeadingZeros64(z128.v64);
    var shiftCount := count - 1;
    ShiftCountRange(z, shiftCount);
    expZ := expZ - shiftCount;
    if shiftCount < 0 {
      LowWordRight(mode, neg, e, z.v0, n, k, x);
      sigZ := ShortShift64RightJam(z128.v64, -shiftCount);
    } else {
      if z.v64 == 0 {
        LowWordLeft(mode, neg, e, z.v0, shiftCount, n, k, x);
      } else {
        BothWordsLeft(mode, neg, e, z, shiftCount, n, k, x);
      }
      z128 := ShortShift128Left(z128.v64, z128.v0, shiftCount);
      sigZ := z128.v64;
    }
    sigZ := OrBit(sigZ, z128.v0 != 0);
  }

  lemma BothWordsLeft(mode: Mode, neg: bool, e: int, z: U128, s: nat, n: nat, k: nat, x: real)
    requires 1 <= s <= 62 && IsLeadingZeros(z.v64, s + 1, 64) && z.v64 != 0
    requires z.Val() == Jam(n, P2(k)) && x == Scale(Ratio(n, P2(k)), e - 1148)
    ensures
      var y := ShortShift128Left(z.v64, z.v0, s);
      var sigZ := OrBit(y.v64, y.v0 != 0);
      && sigZ < TOP64
      && Normalised(BINARY64, 10, sigZ)
      && x >= 0.0
      && Round64(mode, neg, PackedAbs(e - s, sigZ)) == Round64(mode, neg, x)
  {
    hide P2, Pow2, Scale, Ratio, Round64, PackedAbs, Jam, Cut, Quo, ShortShift128Left, OrBit;
    var y := ShortShift128Left(z.v64, z.v0, s);
    LeftShiftedPair(z, s);
    OrBitRange(y.v64, y.v0 != 0);
    assert P2(62) == 0x4000_0000_0000_0000 && P2(63) == TOP64 by { P2Values(); }
    FoldRounds(mode, neg, e, n, k, z.Val(), 64 - s, OrBit(y.v64, y.v0 != 0), x);
  }

  /** The pair shifted left to the top: what is folded is the jammed pair. */
  lemma LeftShiftedPair(z: U128, s: nat)
    requires 1 <= s <= 62 && IsLeadingZeros(z.v64, s + 1, 64) && z.v64 != 0
    ensures
      var y := ShortShift128Left(z.v64, z.v0, s);
      && 0x4000_0000_0000_0000 <= y.v64 < TOP64
      && OrBit(y.v64, y.v0 != 0) == Jam(z.Val(), P2(64 - s))
  {
    hide Jam, Cut, Quo, ShortShift128Left, OrBit, P2, IsLeadingZeros;
    LeftExact(z, s);
    InversePowers(s);
    FoldedLeft(z, P2(64 - s), P2(s), ShortShift128Left(z.v64, z.v0, s));
  }

  lemma InversePowers(s: nat)
    requires s <= 64
    ensures P2(64 - s) * P2(s) == W64
  {
    P2Add(64 - s, s);
    assert P2(64) == W64 by { P2Values(); }
    hide P2;
  }

  lemma LeftExact(z: U128, s: nat)
    requires 1 <= s <= 62 && IsLeadingZeros(z.v64, s + 1, 64) && z.v64 != 0
    ensures
      var y := ShortShift128Left(z.v64, z.v0, s);
      y.Val() == z.Val() * P2(s) && 0x4000_0000_0000_0000 <= y.v64 < TOP64
  {
    hide ShortShift128Left, P2;
    HighBits(z, s);
    hide IsLeadingZeros;
    ShortShift128LeftExact(z.v64, z.v0, s);
    LeftTop(z, s, P2(s), ShortShift128Left(z.v64, z.v0, s));
  }

  lemma FoldedLeft(z: U128, p: nat, r: nat, y: U128)
    requires p > 0 && r > 0 && p * r == W64 && y.Val() == z.Val() * r
    ensures OrBit(y.v64, y.v0 != 0) == Jam(z.Val(), p)
  {
    hide Jam, Cut, Quo, OrBit;
    FoldedPair(y);
    ShiftedQuotient(z.Val(), p, r, W64);
    SameJam(y.Val(), W64, z.Val(), p);
  }

  lemma SameJam(n: nat, d: nat, m: nat, c: nat)
    requires d > 0 && c > 0 && Quo(n, d) == Quo(m, c) && Cut(n, d) == Cut(m, c)
    ensures Jam(n, d) == Jam(m, c)
  {
  }

  lemma OrBitRange(v: u64, b: bool)
    requires 0x4000_0000_0000_0000 <= v < TOP64
    ensures 0x4000_0000_0000_0000 <= OrBit(v, b) < TOP64
  {
  }

  lemma HighBits(z: U128, s: nat)
    requires 1 <= s <= 62 && IsLeadingZeros(z.v64, s + 1, 64) && z.v64 != 0
    ensures z.v64 < P2(64 - s)
    ensures 0x4000_0000_0000_0000 <= z.v64 * P2(s)
    ensures (z.v64 + 1) * P2(s) <= TOP64
  {
    P2Succ(s);
    P2Succ(63 - s);
    P2Add(63 - s, s);
    P2Values();
    hide P2;
    var p, r := P2(s), P2(63 - s);
    assert z.v64 * (2 * p) == 2 * (z.v64 * p) by { Reassociate(2, z.v64, p); Reassociate(z.v64, 2, p); }
    if z.v64 >= r { MulGe(z.v64, r, p); }
    MulGe(r, z.v64 + 1, p);
  }

  lemma LeftTop(z: U128, s: nat, p: nat, y: U128)
    requires p > 0 && 0x4000_0000_0000_0000 <= z.v64 * p && (z.v64 + 1) * p <= TOP64
    requires y.Val() == z.Val() * p
    ensures 0x4000_0000_0000_0000 <= y.v64 < TOP64
  {
    var t := z.v64 * p;
    assert (z.v64 + 1) * p == t + p;
    assert z.Val() * p == t * W64 + z.v0 * p by { Distribute(z.v64, W64, z.v0, p); Reassociate(z.v64, W64, p); Reassociate(z.v64, p, W64); }
    MulUpper(z.v0, p, W64 - 1, p);
    MulGe(z.v0, 0, p);
    assert z.v0 * p < W64 * p by { MulGe(W64 - 1, z.v0, p); }
  }

  /** What is left when the high word cancels is exact. */
  lemma ExactLowWord(e: int, v0: u64, n: nat, k: nat, x: real)
    requires 0 < v0 == Jam(n, P2(k)) && !Cut(n, P2(k)) && x == Scale(Ratio(n, P2(k)), e - 1148)
    ensures x == Scale(v0 as real, e - 1148)
    ensures PackedAbs(e - 64, v0) == x >= 0.0
  {
    hide P2, Pow2;
    RatioBounds(n, P2(k));
    assert Ratio(n, P2(k)) == v0 as real;
    ScaleLess(0.0, v0 as real, e - 1148);
  }

  lemma LowWordRight(mode: Mode, neg: bool, e: int, v0: u64, n: nat, k: nat, x: real)
    requires TOP64 <= v0 == Jam(n, P2(k)) && !Cut(n, P2(k)) && x == Scale(Ratio(n, P2(k)), e - 1148)
    ensures x >= 0.0
    ensures
      var sigZ := OrBit(ShortShift64RightJam(v0, 1), false);
      && sigZ < TOP64
      && Normalised(BINARY64, 10, sigZ)
      && Round64(mode, neg, PackedAbs(e - 64 + 1, sigZ)) == Round64(mode, neg, x)
  {
    ExactLowWord(e, v0, n, k, x);
    P2Values();
    hide P2, Pow2, Round64, PackedAbs, Scale;
    JamByPower(v0, 0);
    WholeRatio(v0, e - 1148);
    assert OrBit(ShortShift64RightJam(v0, 1), false) == Jam(v0, P2(1));
    HalfRange(v0);
    FoldRounds(mode, neg, e, v0, 0, v0, 1, Jam(v0, 2), x);
  }

  lemma HalfRange(v: u64)
    requires TOP64 <= v
    ensures 0x4000_0000_0000_0000 <= Jam(v, 2) < TOP64
  {
  }

  lemma LowWordLeft(mode: Mode, neg: bool, e: int, v0: u64, s: nat, n: nat, k: nat, x: real)
    requires IsLeadingZeros(v0, s + 1, 64) && s <= 62 && 0 < v0
    requires v0 == Jam(n, P2(k)) && !Cut(n, P2(k)) && x == Scale(Ratio(n, P2(k)), e - 1148)
    ensures x >= 0.0
    ensures
      var y := ShortShift128Left(v0, 0, s);
      var sigZ := OrBit(y.v64, y.v0 != 0);
      && sigZ < TOP64
      && Normalised(BINARY64, 10, sigZ)
      && Round64(mode, neg, PackedAbs(e - 64 - s, sigZ)) == Round64(mode, neg, x)
  {
    ExactLowWord(e, v0, n, k, x);
    hide Pow2, Round64, PackedAbs, Scale, Jam, Cut, Quo, Ratio, Normalised;
    BelowTop(v0, s);
    NormaliseRange(v0, s + 1);
    assert v0 * P2(s) < W64;
    PackedShift(e - 64, v0, s);
    ShiftedWord(v0, s, v0 * P2(s));
  }

  lemma BelowTop(v0: u64, s: nat)
    requires IsLeadingZeros(v0, s + 1, 64) && 0 < v0
    ensures v0 < TOP64
  {
    LeadingZerosAt(v0, s + 1);
  }

  lemma ShiftedWord(v0: u64, s: nat, t: u64)
    requires s <= 62 && t == v0 * P2(s)
    ensures ShortShift128Left(v0, 0, s) == U128(t, 0)
  {
    if s > 0 {
      ShortShift128High(v0, 0, s);
      ShiftFits(v0, s);
      hide Or;
      assert Shr(0, 64 - s) == 0 by { DivModUnique(0, P2(64 - s), 0, 0); }
    }
  }

  /** Lines 119 to 140: which operand is larger, and the difference with its sign; exp is that of the larger. */
  method DifferenceOfWide(signProd: bool, expProd: int, sigProd: U128, signC: bool, expC: int, sigC: u64,
                          ghost p: real, ghost x: real)
    returns (signZ: bool, expZ: int, z: U128, ghost n: nat, ghost k: nat)
    requires signProd != signC
    requires Wide(p, expProd, sigProd.Val()) && Wide(x, expC, sigC * W64)
    ensures z.v64 < 0x4000_0000_0000_0000
    ensures z.Val() == 0 <==> p == x
    ensures z.Val() == 0 ==> expProd == expC
    ensures p > x ==> signZ == signProd
    ensures p < x ==> signZ == signC
    ensures expZ == if expProd < expC then expC else expProd
    ensures z.Val() == Jam(n, P2(k)) && (z.v64 == 0 ==> !Cut(n, P2(k)))
    ensures (if p >= x then p - x else x - p) == Scale(Ratio(n, P2(k)), expZ - 1148)
  {
    hide P2, Pow2, Scale, Jam, Cut, Shift128RightJam, Wide, Ratio, Holds128;
    WideBounds(p, expProd, sigProd.Val());
    WideBounds(x, expC, sigC * W64);
    var expDiff := expProd - expC;
    signZ := signProd;
    if expDiff < 0 {
      signZ := signC;
      expZ := expC;
      k := -expDiff;
      var shifted := Shift128RightJam(sigProd.v64, sigProd.v0, -expDiff);
      Shift128RightJamIsJam(sigProd.v64, sigProd.v0, k);
      n := WideDifference(sigC * W64, sigProd.Val(), k, expC, x, p);
      z := Sub128(sigC, 0, shifted.v64, shifted.v0);
      HoldsDifference(z, sigC * W64 - shifted.Val());
    } else if expDiff == 0 {
      expZ := expProd;
      z := Sub128(sigProd.v64, sigProd.v0, sigC, 0);
      ghost var d := sigProd.Val() - sigC * W64;
      assert Holds128(z, d);
      SignBit(z, d);
      k := 0;
      SameUnits(sigProd.Val(), sigC * W64, expProd, p, x);
      n := if d < 0 then -d else d;
      if TOP64 <= z.v64 {
        signZ := !signZ;
        ghost var was := z;
        z := Sub128(0, 0, z.v64, z.v0);
        Negated(was, z, d);
      }
      HoldsDifference(z, n);
      JamByPower(n, 0);
      WholeRatio(n, expProd - 1148);
    } else {
      expZ := expProd;
      k := expDiff;
      var sigC128 := Shift128RightJam(sigC, 0, expDiff);
      Shift128RightJamIsJam(sigC, 0, k);
      n := WideDifference(sigProd.Val(), sigC * W64, k, expProd, p, x);
      z := Sub128(sigProd.v64, sigProd.v0, sigC128.v64, sigC128.v0);
      HoldsDifference(z, sigProd.Val() - sigC128.Val());
    }
  }

  lemma HoldsDifference(z: U128, n: int)
    requires Holds128(z, n) && 0 <= n < 0x4000_0000_0000_0000 * W64
    ensures z.Val() == n && z.v64 < 0x4000_0000_0000_0000
  {
  }

  lemma Negated(was: U128, z: U128, d: int)
    requires Holds128(was, d) && Holds128(z, 0 - was.Val())
    ensures Holds128(z, 0 - d)
  {
    var t, u := d / W128, (0 - was.Val()) / W128;
    assert d == t * W128 + was.Val();
    assert 0 - was.Val() == u * W128 + z.Val();
    DivModUnique(0 - d, W128, u - t, z.Val());
  }

  lemma SameUnits(m: nat, n: nat, e: int, p: real, x: real)
    requires p == Scale(m as real, e - 1148) && x == Scale(n as real, e - 1148)
    ensures p < x <==> m < n
    ensures p == x <==> m == n
    ensures p - x == Scale((m - n) as real, e - 1148)
    ensures x - p == Scale((n - m) as real, e - 1148)
    ensures !Cut(if m >= n then m - n else n - m, P2(0))
  {
    ScaleLess(m as real, n as real, e - 1148);
    ScaleSum(m as real, n as real, e - 1148);
    ScaleSum(n as real, m as real, e - 1148);
    hide Scale;
    assert P2(0) == 1;
  }

  /** The larger operand less the shifted smaller one: jammed, positive, and exact if it is small. */
  lemma WideDifference(big: nat, m: nat, k: nat, e: int, x: real, y: real) returns (n: nat)
    requires k > 0 && Wide(x, e, big) && Wide(y, e - k, m)
    ensures x > y
    ensures Jam(m, P2(k)) < big && big - Jam(m, P2(k)) == Jam(n, P2(k))
    ensures big - Jam(m, P2(k)) < W64 ==> !Cut(n, P2(k))
    ensures x - y == Scale(Ratio(n, P2(k)), e - 1148)
  {
    WideBounds(x, e, big);
    WideBounds(y, e - k, m);
    hide Wide, P2, Pow2, Scale, Jam, Ratio, Cut;
    Add64.JamDifference(big, m, k);
    n := big * P2(k) - m;
    Add64.AlignedValue(big, m, k, e - 1148);
    assert e - k - 1148 == e - 1148 - k;
    Add64.PositiveDifference(big, m, k, e - 1148);
    if k == 1 {
      EvenNotCut(m);
    } else {
      P2Mono(2, k);
      P2Values();
      Add64.JamQuarter(m, P2(k));
    }
  }

  lemma EvenNotCut(m: nat)
    requires m % 2 == 0
    ensures !Cut(m, P2(1))
  {
  }

  // ----- the operation -----

  /** Lines 84 to 159 for a nonzero addend. */
  method AddWide(env: FpEnv, signProd: bool, expProd: int, sigProd: U128, signC: bool, expC: int, sigC: u64,
                 ghost p: real, ghost x: real)
    returns (z: u64)
    requires Wide(p, expProd, sigProd.Val()) && Wide(x, expC, sigC * W64) && sigC % 2 == 0
    requires -0x800 <= expProd <= 0x1000 && -0x800 <= expC <= 0x1000
    modifies env`flags
    ensures p >= 0.0 && x >= 0.0
    ensures
      var out := if signProd == signC then Round64(env.roundingMode, signProd, p + x)
                 else if p == x then Outcome(SignBits(env.roundingMode.Min?), NO_FLAGS)
                 else if p > x then Round64(env.roundingMode, signProd, p - x)
                 else Round64(env.roundingMode, signC, x - p);
      z == out.bits && env.flags == old(env.flags).Or(out.flags)
  {
    hide P2, Pow2, Scale, Jam, Cut, Wide, Ratio, Round64, PackedAbs, Normalised;
    WideBounds(p, expProd, sigProd.Val());
    WideBounds(x, expC, sigC * W64);
    var signZ, expZ, sigZ := signProd, 0, 0;
    if signProd == signC {
      expZ, sigZ := SumOfWide(expProd, sigProd, expC, sigC, p, x, env.roundingMode, signZ);
    } else {
      var z128;
      ghost var n, k;
      signZ, expZ, z128, n, k := DifferenceOfWide(signProd, expProd, sigProd, signC, expC, sigC, p, x);
      if z128.v64 == 0 && z128.v0 == 0 {
        z := Pack(env.roundingMode == Min, 0, 0);
        return;
      }
      expZ, sigZ := NormaliseDifference(expZ, z128, n, k, if p >= x then p - x else x - p, env.roundingMode, signZ);
    }
    z := RoundPackToF64(env, signZ, expZ, sigZ);
  }

  method MulAddF64(env: FpEnv, op: nat, uiA: u64, uiB: u64, uiC: u64) returns (z: u64)
    requires op < 4
    modifies env`flags
    ensures z == if SubC(op) && ReturnsAddend(op, uiA, uiB, uiC) then uiC
                 else FusedMulAdd(env.roundingMode, op, uiA, uiB, uiC).bits
    ensures env.flags == old(env.flags).Or(FusedMulAdd(env.roundingMode, op, uiA, uiB, uiC).flags)
  {
    hide P2, Pow2, Round64, AbsValue, Scale, Or, Shl64, Unpacked, Wide, Normalised, PackedAbs, OrBit, ExactProduct;
    hide FusedMulAdd, ExpOf, FracOf, SignOf, Pack, ReturnsAddend, IsSigNaN, SubC, SubProd, ProductSign, AddendSign;
    var mode := env.roundingMode;
    var expA, sigA := ExpOf(uiA), FracOf(uiA);
    var expB, sigB := ExpOf(uiB), FracOf(uiB);
    var signC, expC, sigC := AddendSign(op, uiC), ExpOf(uiC), FracOf(uiC);
    var signProd := ProductSign(op, uiA, uiB);
    SpecialMulAdd(mode, op, uiA, uiB, uiC);
    if ReturnsAddend(op, uiA, uiB, uiC) { ReturnedAddend(mode, op, uiA, uiB, uiC); }
    if (expA == 0x7FF && sigA != 0) || (expB == 0x7FF && sigB != 0) {
      z := PropagateNaNF64UI(env, uiA, uiB);
      NaNTwice(uiA, uiB, uiC);
      z := PropagateNaNF64UI(env, z, uiC);
      return;
    }
    if expA == 0x7FF || expB == 0x7FF {
      z := InfProdArg(env, if expA == 0x7FF then expB != 0 || sigB != 0 else expA != 0 || sigA != 0,
                      signProd, signC, expC, sigC, uiC);
      return;
    }
    if expC == 0x7FF {
      if sigC != 0 {
        NaNTwice(0, 0, uiC);
        z := PropagateNaNF64UI(env, 0, uiC);
        return;
      }
      z := uiC;
      return;
    }
    if (expA == 0 && sigA == 0) || (expB == 0 && sigB == 0) {
      z := uiC;
      if expC == 0 && sigC == 0 && signProd != signC {
        ZeroMinusZero(mode, op, uiA, uiB, uiC);
        z := Pack(mode == Min, 0, 0);
      }
      return;
    }
    FiniteMulAdd(mode, op, uiA, uiB, uiC);
    expA, sigA := UnpackNonzero(uiA);
    expB, sigB := UnpackNonzero(uiB);
    var expProd, sigProd := FullProduct(uiA, expA, sigA, uiB, expB, sigB);
    if expC == 0 && sigC == 0 {
      ProductAlone(mode, signProd, ExactProduct(uiA, uiB), expProd, sigProd);
      ProductOnly(mode, op, uiA, uiB, uiC);
      z := RoundPackToF64(env, signProd, expProd - 1, OrBit(Shl64(sigProd.v64, 1), sigProd.v0 != 0));
      return;
    }
    expC, sigC := UnpackNonzero(uiC);
    AddendWide(uiC, expC, Or(sigC, HIDDEN64));
    sigC := Shl64(Or(sigC, HIDDEN64), 9);
    z := AddWide(env, signProd, expProd, sigProd, signC, expC, sigC, ExactProduct(uiA, uiB), AbsValue(uiC));
  }

  lemma NaNTwice(a: u64, b: u64, c: u64)
    ensures NaNResult(a, b).flags.Or(NaNResult(NAN64, c).flags)
            == RaisedWhen(IsSigNaN(a) || IsSigNaN(b) || IsSigNaN(c), INVALID)
    ensures NaNResult(0, c) == Outcome(NAN64, RaisedWhen(IsSigNaN(c), INVALID))
  {
  }

  /** Lines 163 to 175. */
  method InfProdArg(env: FpEnv, magBits: bool, signProd: bool, signC: bool, expC: int, sigC: u64, uiC: u64) returns (z: u64)
    requires expC == ExpOf(uiC) && sigC == FracOf(uiC)
    modifies env`flags
    ensures
      var out := if !magBits then Outcome(NAN64, INVALID)
                 else if expC == 0x7FF && sigC != 0 then Outcome(NAN64, RaisedWhen(IsSigNaN(uiC), INVALID))
                 else if expC == 0x7FF && signProd != signC then Outcome(NAN64, INVALID)
                 else Outcome(SignBits(signProd) + INF64, NO_FLAGS);
      z == out.bits && env.flags == old(env.flags).Or(out.flags)
  {
    hide ExpOf, FracOf;
    InfinityIsQuiet(signProd);
    if magBits {
      z := Pack(signProd, 0x7FF, 0);
      if expC != 0x7FF {
        return;
      }
      if sigC != 0 {
        z := PropagateNaNF64UI(env, z, uiC);
        return;
      }
      if signProd == signC {
        return;
      }
    }
    env.Raise(INVALID);
    z := PropagateNaNF64UI(env, NAN64, uiC);
  }

  lemma InfinityIsQuiet(neg: bool)
    ensures !IsSigNaN(Pack(neg, 0x7FF, 0)) && !IsSigNaN(NAN64)
    ensures Pack(neg, 0x7FF, 0) == SignBits(neg) + INF64
  {
  }

  lemma ZeroMinusZero(mode: Mode, op: nat, a: u64, b: u64, c: u64)
    requires IsFinite(a) && IsFinite(b) && ExpOf(c) == 0 && FracOf(c) == 0
    requires (ExpOf(a) == 0 && FracOf(a) == 0) || (ExpOf(b) == 0 && FracOf(b) == 0)
    requires ProductSign(op, a, b) != AddendSign(op, c)
    ensures FusedMulAdd(mode, op, a, b, c) == Outcome(Pack(mode == Min, 0, 0), NO_FLAGS)
  {
    hide FusedMulAdd, Round64, AbsValue, ExactProduct, ProductSign, AddendSign;
    assert ExactProduct(a, b) == 0.0 by {
      ZeroValue(a);
      ZeroValue(b);
      ProductSigns(a, b);
    }
    assert AbsValue(c) == 0.0 by { ZeroValue(c); }
    FiniteMulAdd(mode, op, a, b, c);
    hide ExpOf, FracOf, SignOf, MagOf;
  }

  lemma ProductOnly(mode: Mode, op: nat, a: u64, b: u64, c: u64)
    requires IsFinite(a) && IsFinite(b) && ExpOf(c) == 0 && FracOf(c) == 0
    requires ExactProduct(a, b) > 0.0
    ensures FusedMulAdd(mode, op, a, b, c) == Round64(mode, ProductSign(op, a, b), ExactProduct(a, b))
  {
    FiniteMulAdd(mode, op, a, b, c);
    ZeroValue(c);
    hide FusedMulAdd, Round64, AbsValue, ExpOf, FracOf, SignOf, MagOf, ExactProduct;
  }

  // ----- what the fused operation has to do with the separate ones -----

  const ONE64: int := 0x3FF0_0000_0000_0000

  lemma OneValue()
    ensures IsFinite(ONE64) && !IsZero(ONE64) && !IsSigNaN(ONE64) && !SignOf(ONE64) && AbsValue(ONE64) == 1.0
  {
    NearOne(ONE64, false, 0);
    P2Values();
    PowerUnits(0, 52, 52);
    ScaleBack(1.0, 52);
    assert Pow2(0) == 1.0;
    hide Scale, Pow2;
  }

  /** Multiplying by one and adding is adding: f64_mulAdd(a, 1, c) and f64_add(a, c) agree in bits and flags. */
  lemma TimesOneIsAdd(mode: Mode, a: u64, c: u64)
    ensures FusedMulAdd(mode, 0, a, ONE64, c) == Add64.Sum(mode, a, c, false)
  {
    OneValue();
    if IsFinite(a) && IsFinite(c) {
      FiniteTimesOne(mode, a, c);
    } else {
      SpecialTimesOne(mode, a, c);
    }
  }

  lemma FiniteTimesOne(mode: Mode, a: u64, c: u64)
    requires IsFinite(a) && IsFinite(c)
    ensures FusedMulAdd(mode, 0, a, ONE64, c) == Add64.Sum(mode, a, c, false)
  {
    OneValue();
    hide AbsValue, Add64.RoundSigned, SignOf, ExpOf;
    var neg := if SignOf(a) == SignOf(c) then SignOf(a) else mode.Min?;
    var sum := Add64.RoundSigned(mode, Value(a) + Value(c), neg);
    assert Add64.Sum(mode, a, c, false) == sum;
    assert FusedMulAdd(mode, 0, a, ONE64, c) == sum by {
      assert ExactProduct(a, ONE64) == AbsValue(a);
      assert ProductSign(0, a, ONE64) == SignOf(a) && AddendSign(0, c) == SignOf(c);
      assert Signed(SignOf(a), AbsValue(a)) == Value(a) && Signed(SignOf(c), AbsValue(c)) == Value(c);
      hide Value, Signed, ExactProduct, ProductSign, AddendSign;
    }
  }

  lemma SpecialTimesOne(mode: Mode, a: u64, c: u64)
    requires !IsFinite(a) || !IsFinite(c)
    ensures FusedMulAdd(mode, 0, a, ONE64, c) == Add64.Sum(mode, a, c, false)
  {
    OneValue();
    Fields(a);
    assert IsSigNaN(a) ==> IsNaN(a);
    assert IsNaN(a) || IsInfinite(a) || IsFinite(a);
    assert IsNaN(c) || IsInfinite(c) || IsFinite(c);
    assert IsZero(a) ==> IsFinite(a);
    hide AbsValue, SignedSum, Add64.RoundSigned, ExactProduct, SignOf, IsSigNaN, IsNaN, IsInfinite, IsZero, IsFinite;
  }

  /** Adding a zero of the product's sign is multiplying: f64_mulAdd(a, b, +-0) and f64_mul(a, b) agree. */
  lemma PlusZeroIsMul(mode: Mode, a: u64, b: u64, c: u64)
    requires IsZero(c) && SignOf(c) == (SignOf(a) != SignOf(b))
    ensures FusedMulAdd(mode, 0, a, b, c) == Mul64.Product(mode, a, b)
  {
    hide AbsValue, Round64, SignOf, SignedSum;
    Fields(c);
    ZeroValue(c);
    assert IsFinite(c) && !IsNaN(c) && !IsInfinite(c) && !IsSigNaN(c);
    if IsFinite(a) && IsFinite(b) {
      hide FusedMulAdd, Mul64.Product, IsFinite, IsZero, IsSigNaN, ExpOf, FracOf, MagOf, IsNaN, IsInfinite;
      FiniteMulAdd(mode, 0, a, b, c);
      Mul64.FiniteProduct(mode, a, b);
    } else {
      SpecialPlusZero(mode, a, b, c);
    }
  }

  lemma SpecialPlusZero(mode: Mode, a: u64, b: u64, c: u64)
    requires !(IsFinite(a) && IsFinite(b))
    requires IsFinite(c) && !IsNaN(c) && !IsInfinite(c) && !IsSigNaN(c)
    ensures FusedMulAdd(mode, 0, a, b, c) == Mul64.Product(mode, a, b)
  {
    assert ProductSign(0, a, b) == (SignOf(a) != SignOf(b));
    hide AbsValue, Round64, ExpOf, FracOf, SignOf, IsSigNaN, IsZero, SignedSum, ProductSign, AddendSign;
  }

  /** 1 * 0 - 1 is -1, but the addend comes back as it came in: 1. */
  lemma ReturnedAddendWrong(mode: Mode)
    ensures SubC(1) && ReturnsAddend(1, ONE64, 0, ONE64)
    ensures FusedMulAdd(mode, 1, ONE64, 0, ONE64) == Outcome(TOP64 + ONE64, NO_FLAGS)
    ensures FusedMulAdd(mode, 1, ONE64, 0, ONE64).bits != ONE64
  {
    hide FusedMulAdd, IsFinite, IsNaN, IsZero, IsInfinite, SignOf, MagOf, ProductSign;
    OneAndZero();
    assert AddendSign(1, ONE64);
    ReturnedAddend(mode, 1, ONE64, 0, ONE64);
    hide ReturnsAddend;
  }

  lemma OneAndZero()
    ensures IsFinite(ONE64) && IsFinite(0) && IsZero(0)
    ensures !IsNaN(ONE64) && !IsInfinite(ONE64) && !IsZero(ONE64) && !SignOf(ONE64) && MagOf(ONE64) == ONE64
  {
  }

  // ----- the four operation codes -----

  /**
   * The operations differ in signs alone: 1 (FMSUB.D) is 0 with the addend negated, 2 (FNMSUB.D) is 0 with the product
   * negated, 3 (FNMADD.D) is 0 with both negated; for all operands.
   */
  lemma OperationCodes(mode: Mode, a: u64, b: u64, c: u64)
    ensures FusedMulAdd(mode, 1, a, b, c) == FusedMulAdd(mode, 0, a, b, Opposite(c))
    ensures FusedMulAdd(mode, 2, a, b, c) == FusedMulAdd(mode, 0, Opposite(a), b, c)
    ensures FusedMulAdd(mode, 3, a, b, c) == FusedMulAdd(mode, 0, Opposite(a), b, Opposite(c))
  {
    SameButSigns(mode, 1, a, b, c, a, Opposite(c));
    SameButSigns(mode, 2, a, b, c, Opposite(a), c);
    SameButSigns(mode, 3, a, b, c, Opposite(a), Opposite(c));
    hide FusedMulAdd;
  }

  lemma SameButSigns(mode: Mode, op: nat, a: u64, b: u64, c: u64, a': u64, c': u64)
    requires a' == (if op == 2 || op == 3 then Opposite(a) else a) && c' == (if op == 1 || op == 3 then Opposite(c) else c)
    requires op < 4
    ensures FusedMulAdd(mode, op, a, b, c) == FusedMulAdd(mode, 0, a', b, c')
  {
    hide SameKind, Opposite, SignOf, ProductSign, AddendSign, FusedMulAdd;
    OppositeKind(a);
    OppositeKind(c);
    SameKindAsItself(a);
    SameKindAsItself(c);
    CodeSigns(op, a, b, c, a', c');
    SameKindSameSigns(mode, op, a, b, c, a', c');
  }

  lemma SameKindSameSigns(mode: Mode, op: nat, a: u64, b: u64, c: u64, a': u64, c': u64)
    requires SameKind(a, a') && SameKind(c, c')
    requires ProductSign(op, a, b) == ProductSign(0, a', b) && AddendSign(op, c) == AddendSign(0, c')
    ensures FusedMulAdd(mode, op, a, b, c) == FusedMulAdd(mode, 0, a', b, c')
  {
    Kinds(a);
    Kinds(b);
    Kinds(c);
    hide SignOf, AbsValue, IsSigNaN, IsNaN, IsInfinite, IsFinite, IsZero, SignedSum, SignBits, RaisedWhen, ProductSign, AddendSign;
    assert ExactProduct(a', b) == ExactProduct(a, b);
    hide ExactProduct;
  }

  lemma Kinds(a: u64)
    ensures IsFinite(a) || IsNaN(a) || IsInfinite(a)
  {
  }

  lemma CodeSigns(op: nat, a: u64, b: u64, c: u64, a': u64, c': u64)
    requires op < 4
    requires SignOf(a') == (if op == 2 || op == 3 then !SignOf(a) else SignOf(a))
    requires SignOf(c') == (if op == 1 || op == 3 then !SignOf(c) else SignOf(c))
    ensures ProductSign(op, a, b) == ProductSign(0, a', b) && AddendSign(op, c) == AddendSign(0, c')
  {
    hide SignOf;
  }

  /** What each operation computes on finite operands; an exact zero has the common sign of its two terms, if they have one. */
  lemma OperationValues(mode: Mode, a: u64, b: u64, c: u64)
    requires IsFinite(a) && IsFinite(b) && IsFinite(c)
    ensures
      var p, x := Value(a) * Value(b), Value(c);
      var signP, signC := SignOf(a) != SignOf(b), SignOf(c);
      var mixed := mode == Min;
      && FusedMulAdd(mode, 0, a, b, c) == Add64.RoundSigned(mode, p + x, if signP == signC then signC else mixed)
      && FusedMulAdd(mode, 1, a, b, c) == Add64.RoundSigned(mode, p - x, if signP != signC then signP else mixed)
      && FusedMulAdd(mode, 2, a, b, c) == Add64.RoundSigned(mode, x - p, if signP != signC then signC else mixed)
      && FusedMulAdd(mode, 3, a, b, c) == Add64.RoundSigned(mode, -p - x, if signP == signC then !signP else mixed)
  {
    hide FusedMulAdd, Add64.RoundSigned, SignOf, IsFinite, Value;
    var signP, signC := SignOf(a) != SignOf(b), SignOf(c);
    OneOperation(mode, 0, a, b, c, signP, signC);
    OneOperation(mode, 1, a, b, c, signP, !signC);
    OneOperation(mode, 2, a, b, c, !signP, signC);
    OneOperation(mode, 3, a, b, c, !signP, !signC);
  }

  lemma OneOperation(mode: Mode, op: nat, a: u64, b: u64, c: u64, signP: bool, signC: bool)
    requires IsFinite(a) && IsFinite(b) && IsFinite(c)
    requires ProductSign(op, a, b) == signP && AddendSign(op, c) == signC
    ensures
      var p := if signP == (SignOf(a) != SignOf(b)) then Value(a) * Value(b) else -(Value(a) * Value(b));
      var x := if signC == SignOf(c) then Value(c) else -Value(c);
      FusedMulAdd(mode, op, a, b, c) == Add64.RoundSigned(mode, p + x, if signP == signC then signP else mode == Min)
  {
    hide FusedMulAdd, Add64.RoundSigned, AbsValue, ExactProduct, SignOf, IsFinite, ProductSign, AddendSign;
    FiniteIsSum(mode, op, a, b, c);
    SignedProduct(a, b);
    SignedTwice(signP, SignOf(a) != SignOf(b), ExactProduct(a, b));
    SignedTwice(signC, SignOf(c), AbsValue(c));
    assert Value(c) == Signed(SignOf(c), AbsValue(c));
    hide Signed, Value;
  }

  lemma SignedTwice(neg: bool, neg': bool, x: real)
    ensures Signed(neg, x) == if neg == neg' then Signed(neg', x) else -Signed(neg', x)
  {
  }

  lemma SignedProduct(a: u64, b: u64)
    ensures Value(a) * Value(b) == Signed(SignOf(a) != SignOf(b), ExactProduct(a, b))
  {
    hide AbsValue, SignOf;
    var x, y := AbsValue(a), AbsValue(b);
    assert (-x) * y == -(x * y) && x * (-y) == -(x * y) && (-x) * (-y) == x * y;
  }
}
