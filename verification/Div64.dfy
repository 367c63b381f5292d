/** f64_div: the quotient estimate is corrected only when it is close enough to a rounding boundary to matter. */
module Div64 {
  import opened Arith
  import opened Powers
  import opened Sticky
  import opened Words
  import opened Rounding
  import opened FpState
  import opened Packing
  import opened Binary64
  import opened RoundPack64
  import opened Operands64
  import opened EstimateDiv

  /** The quotient IEEE 754 asks for. */
  ghost function Quotient(mode: Mode, a: u64, b: u64): Outcome {
    var neg := SignOf(a) != SignOf(b);
    if IsNaN(a) || IsNaN(b) then NaNResult(a, b)
    else if IsInfinite(a) then
      if IsInfinite(b) then INVALID_RESULT else Outcome(SignBits(neg) + INF64, NO_FLAGS)
    else if IsInfinite(b) then Outcome(SignBits(neg), NO_FLAGS)
    else if IsZero(b) then
      if IsZero(a) then INVALID_RESULT else Outcome(SignBits(neg) + INF64, INFINITY)
    else
      QuotientDefined(a, b);
      Round64(mode, neg, AbsValue(a) / AbsValue(b))
  }

  lemma QuotientDefined(a: u64, b: u64)
    requires IsFinite(a) && IsFinite(b) && !IsZero(b)
    ensures AbsValue(b) > 0.0 && AbsValue(a) / AbsValue(b) >= 0.0
  {
    ZeroValue(a);
    ZeroValue(b);
    hide AbsValue;
    DivNonNegative(AbsValue(a), AbsValue(b));
  }

  lemma DivNonNegative(x: real, y: real)
    requires x >= 0.0 && y > 0.0
    ensures x / y >= 0.0
  {
    var q := x / y;
    assert q * y == x;
    if q < 0.0 { RealMulStrict(q, 0.0, y); }
  }

  /** The results that need no division, by the fields of the operands. */
  lemma SpecialQuotient(mode: Mode, a: u64, b: u64)
    ensures
      var signZ := SignOf(a) != SignOf(b);
      var aSpecial, bSpecial := ExpOf(a) == 0x7FF, ExpOf(b) == 0x7FF;
      var aZero, bZero := ExpOf(a) == 0 && FracOf(a) == 0, ExpOf(b) == 0 && FracOf(b) == 0;
      && ((aSpecial && FracOf(a) != 0) || (bSpecial && FracOf(b) != 0) ==> Quotient(mode, a, b) == NaNResult(a, b))
      && (aSpecial && FracOf(a) == 0 && bSpecial && FracOf(b) == 0 ==> Quotient(mode, a, b) == Outcome(NAN64, INVALID))
      && (aSpecial && FracOf(a) == 0 && !bSpecial ==> Quotient(mode, a, b) == Outcome(Pack(signZ, 0x7FF, 0), NO_FLAGS))
      && (!aSpecial && bSpecial && FracOf(b) == 0 ==> Quotient(mode, a, b) == Outcome(Pack(signZ, 0, 0), NO_FLAGS))
      && (!aSpecial && bZero && aZero ==> Quotient(mode, a, b) == Outcome(NAN64, INVALID))
      && (!aSpecial && bZero && !aZero ==> Quotient(mode, a, b) == Outcome(Pack(signZ, 0x7FF, 0), INFINITY))
  {
    Fields(a);
    Fields(b);
    hide AbsValue, Round64, NaNResult;
  }

  /** What a division does to the flags, one by one: none is cleared, and those that need no arithmetic are set. */
  predicate DivisionRaises(a: u64, b: u64, before: Flags, after: Flags) {
    && Kept(before, after)
    && (IsFinite(a) && !IsZero(a) && IsZero(b) ==> after.infinity)
    && ((IsZero(a) && IsZero(b)) || (IsInfinite(a) && IsInfinite(b)) ==> after.invalid)
  }

  lemma RaisedByQuotient(mode: Mode, a: u64, b: u64, before: Flags)
    ensures DivisionRaises(a, b, before, before.Or(Quotient(mode, a, b).flags))
  {
    Fields(a);
    Fields(b);
    hide AbsValue, Round64, NaNResult;
  }

  method F64Div(env: FpEnv, a: u64, b: u64) returns (z: u64)
    modifies env`flags
    ensures z == Quotient(env.roundingMode, a, b).bits
    ensures env.flags == old(env.flags).Or(Quotient(env.roundingMode, a, b).flags)
    ensures DivisionRaises(a, b, old(env.flags), env.flags)
  {
    hide DivisionRaises;
    hide P2, Pow2, Round64, AbsValue, Scale, Or, PackedAbs, Shl64, Normalised, Unpacked, Jam, Position, Ratio;
    hide Quotient, ExpOf, FracOf, SignOf, Pack, NaNResult, Wrap64;
    RaisedByQuotient(env.roundingMode, a, b, env.flags);
    var signA, expA, sigA := SignOf(a), ExpOf(a), FracOf(a);
    var signB, expB, sigB := SignOf(b), ExpOf(b), FracOf(b);
    var signZ := signA != signB;
    SpecialQuotient(env.roundingMode, a, b);
    if expA == 0x7FF {
      if sigA != 0 {
        z := PropagateNaNF64UI(env, a, b);
        return;
      }
      if expB == 0x7FF {
        if sigB != 0 {
          z := PropagateNaNF64UI(env, a, b);
          return;
        }
        env.Raise(INVALID);
        z := NAN64;
        return;
      }
      z := Pack(signZ, 0x7FF, 0);
      return;
    }
    if expB == 0x7FF {
      if sigB != 0 {
        z := PropagateNaNF64UI(env, a, b);
        return;
      }
      z := Pack(signZ, 0, 0);
      return;
    }
    if expB == 0 && sigB == 0 {
      if expA == 0 && sigA == 0 {
        env.Raise(INVALID);
        z := NAN64;
        return;
      }
      env.Raise(INFINITY);
      z := Pack(signZ, 0x7FF, 0);
      return;
    }
    FiniteQuotient(env.roundingMode, a, b);
    if expA == 0 && sigA == 0 {
      ZeroQuotient(env.roundingMode, a, b);
      z := Pack(signZ, 0, 0);
      return;
    }
    expB, sigB := UnpackNonzero(b);
    expA, sigA := UnpackNonzero(a);
    SetHidden(sigA);
    SetHidden(sigB);
    ghost var mA, mB := Or(sigA, HIDDEN64), Or(sigB, HIDDEN64);
    var expZ := expA - expB + 0x3FD;
    sigA := Shl64(Or(sigA, HIDDEN64), 10);
    sigB := Shl64(Or(sigB, HIDDEN64), 11);
    ShiftBoth(mA, mB);
    if sigB <= Wrap64(sigA + sigA) {
      expZ := expZ + 1;
      sigA := sigA / 2;
    }
    QuotientHalfUnits(a, expA, mA, b, expB, mB, sigA, sigB, expZ);
    var sigZ := SignificandQuotient(sigA, sigB);
    PackedLike(env.roundingMode, signZ, expZ, sigZ, AbsValue(a) / AbsValue(b));
    z := RoundPackToF64(env, signZ, expZ, sigZ);
  }

  /** Lines 76 to 85 of the routine: the 64-bit quotient significand, at its place among the rounding boundaries. */
  method SignificandQuotient(sigA: u64, sigB: u64) returns (sigZ: u64)
    requires TOP64 <= sigB && sigA < sigB
    requires 0x4000_0000_0000_0000 <= Quo(sigA * W64, sigB) < TOP64
    ensures Normalised(BINARY64, 10, sigZ)
    ensures Position(Ratio(sigZ, 0x200)) == Position(Ratio(sigA * W64, sigB) / 0x200 as real)
  {
    hide Quo, Cut, TrueDigit, Position, Ratio, Normalised;
    ghost var n := sigA * W64;
    sigZ := EstimateDiv128To64(sigA, 0, sigB);
    if sigZ % 0x200 <= 2 {
      sigZ := CorrectQuotient(sigA, sigB, sigZ);
      CorrectedQuotient(n, sigB, sigZ);
    } else {
      UncorrectedQuotient(n, sigB, sigZ);
    }
  }

  /** Lines 78 to 84 of the routine: the estimate brought down to the quotient, with a sticky last bit. */
  method CorrectQuotient(sigA: u64, sigB: u64, estimate: u64) returns (sigZ: u64)
    requires TOP64 <= sigB && sigA < sigB
    requires Quo(sigA * W64, sigB) <= estimate <= Quo(sigA * W64, sigB) + 2 && Quo(sigA * W64, sigB) < TOP64
    ensures sigZ == OrBit(Quo(sigA * W64, sigB), Cut(sigA * W64, sigB))
  {
    hide Quo, Cut, OrBit, Correcting;
    ghost var n := sigA * W64;
    ghost var q := Quo(n, sigB);
    sigZ := estimate;
    var term := Mul64To128(sigB, sigZ);
    var rem := Sub128(sigA, 0, term.v64, term.v0);
    ghost var exact := n - term.Val();
    FirstResidue(n, q, sigB, sigZ, term.Val(), rem);
    while TOP64 <= rem.v64
      invariant Correcting(n, q, sigB, sigZ, rem, exact)
      decreases sigZ
    {
      AboveQuotient(n, q, sigB, sigZ, rem, exact);
      sigZ := sigZ - 1;
      var next := Add128(rem.v64, rem.v0, 0, sigB);
      NextResidue(n, q, sigB, sigZ, rem, exact, next);
      rem := next;
      exact := exact + sigB;
    }
    LastResidue(n, q, sigB, sigZ, rem, exact);
    sigZ := OrBit(sigZ, rem.v0 != 0);
  }

  /** What the correcting loop keeps: z is at most two above the quotient q of n by d, and rem holds n - d*z. */
  ghost predicate Correcting(n: nat, q: nat, d: u64, z: u64, rem: U128, exact: int) {
    && d >= TOP64 && q <= z <= q + 2 && TrueDigit(n, q, d) && Residue(n, z, d, exact)
    && -2 * d <= exact < d && (exact < 0 <==> z > q)
    && Holds128(rem, exact) && (TOP64 <= rem.v64 <==> exact < 0)
  }

  lemma FirstResidue(n: nat, q: nat, d: u64, z: u64, term: nat, rem: U128)
    requires TOP64 <= d && q == Quo(n, d) && q <= z <= q + 2 && term == d * z && Holds128(rem, n - term)
    ensures Correcting(n, q, d, z, rem, n - term)
  {
    QuotientResidue(n, d, z, term);
    hide Quo, Residue, TrueDigit, Holds128;
    ResidueBounds(n, q, d, z, n - term);
    SignBit(rem, n - term);
  }

  lemma AboveQuotient(n: nat, q: nat, d: u64, z: u64, rem: U128, exact: int)
    requires Correcting(n, q, d, z, rem, exact) && TOP64 <= rem.v64
    ensures z > q
  {
    hide Residue, TrueDigit, Holds128;
  }

  lemma NextResidue(n: nat, q: nat, d: u64, z: u64, rem: U128, exact: int, next: U128)
    requires z + 1 < W64 && Correcting(n, q, d, z + 1, rem, exact) && TOP64 <= rem.v64
    requires next.Val() == (rem.Val() + d) % W128
    ensures Correcting(n, q, d, z, next, exact + d)
  {
    hide Residue, TrueDigit, Holds128;
    ResidueStep(n, z + 1, d, exact);
    HoldsSum(rem, exact, next, d);
    ResidueBounds(n, q, d, z, exact + d);
    SignBit(next, exact + d);
  }

  lemma LastResidue(n: nat, q: nat, d: u64, z: u64, rem: U128, exact: int)
    requires Correcting(n, q, d, z, rem, exact) && rem.v64 < TOP64 && q < TOP64
    ensures z == q == Quo(n, d) && (rem.v0 != 0 <==> Cut(n, d)) && OrBit(z, rem.v0 != 0) < W64
  {
    hide Residue, TrueDigit, Holds128;
    SignBit(rem, exact);
    ResidueIsRemainder(n, d, z, exact);
    assert rem.v64 == 0 && rem.v0 == exact;
    OrBitFits(z, rem.v0 != 0);
  }

  lemma OrBitFits(x: nat, b: bool)
    requires x < TOP64
    ensures OrBit(x, b) < W64
  {
  }

  lemma QuotientResidue(n: nat, d: u64, z: u64, term: nat)
    requires d > 0 && term == d * z
    ensures TrueDigit(n, Quo(n, d), d)
    ensures Residue(n, z, d, n - term)
  {
  }

  lemma ResidueIsRemainder(n: nat, d: u64, z: u64, e: int)
    requires d > 0 && Residue(n, z, d, e) && 0 <= e < d
    ensures z == Quo(n, d) && (e != 0 <==> Cut(n, d))
  {
    DivModUnique(n, d, z, e);
  }

  lemma CorrectedQuotient(n: nat, d: u64, z: u64)
    requires d > 0 && z == OrBit(Quo(n, d), Cut(n, d))
    requires 0x4000_0000_0000_0000 <= Quo(n, d) < TOP64
    ensures Normalised(BINARY64, 10, z)
    ensures Position(Ratio(z, 0x200)) == Position(Ratio(n, d) / 0x200 as real)
  {
    P2Values();
    JamPosition(n, d, 0x200);
  }

  /** An estimate at most two too large, more than two above a boundary, is between the same boundaries. */
  lemma UncorrectedQuotient(n: nat, d: u64, z: u64)
    requires d > 0 && Quo(n, d) <= z <= Quo(n, d) + 2 && z % 0x200 > 2
    requires 0x4000_0000_0000_0000 <= Quo(n, d) < TOP64
    ensures Normalised(BINARY64, 10, z)
    ensures Position(Ratio(z, 0x200)) == Position(Ratio(n, d) / 0x200 as real)
  {
    P2Values();
    hide P2;
    RatioBounds(n, d);
    var q, k := Quo(n, d), z / 0x200;
    var u := Ratio(n, d);
    hide Quo, Ratio;
    assert k * 0x200 < q < (k + 1) * 0x200;
    assert k as real < u / 0x200 as real < (k + 1) as real;
    PositionGap(u / 0x200 as real, k);
    RatioBounds(z, 0x200);
    PositionGap(Ratio(z, 0x200), k);
  }

  lemma FiniteQuotient(mode: Mode, a: u64, b: u64)
    requires IsFinite(a) && IsFinite(b) && !(ExpOf(b) == 0 && FracOf(b) == 0)
    ensures AbsValue(b) > 0.0 && AbsValue(a) / AbsValue(b) >= 0.0
    ensures Quotient(mode, a, b) == Round64(mode, SignOf(a) != SignOf(b), AbsValue(a) / AbsValue(b))
  {
    Fields(b);
    QuotientDefined(a, b);
    hide AbsValue, Round64;
  }

  lemma ZeroQuotient(mode: Mode, a: u64, b: u64)
    requires IsFinite(a) && IsFinite(b) && !(ExpOf(b) == 0 && FracOf(b) == 0)
    requires ExpOf(a) == 0 && FracOf(a) == 0
    ensures Quotient(mode, a, b) == Outcome(Pack(SignOf(a) != SignOf(b), 0, 0), NO_FLAGS)
  {
    hide Quotient, Round64, AbsValue, Scale;
    FiniteQuotient(mode, a, b);
    ZeroValue(a);
    ZeroOutcome(mode, SignOf(a) != SignOf(b), 0);
    assert 0.0 / AbsValue(b) == 0.0;
  }

  /** The operands in place; one more right shift keeps every bit and brings the quotient below one. */
  lemma ShiftBoth(mA: nat, mB: nat)
    requires HIDDEN64 <= mA < 2 * HIDDEN64 && HIDDEN64 <= mB < 2 * HIDDEN64
    ensures Shl64(mA, 10) == mA * 0x400 && Shl64(mB, 11) == mB * 0x800 >= TOP64
    ensures
      var sigA, sigB := mA * 0x400, mB * 0x800;
      && Wrap64(sigA + sigA) == sigA + sigA
      && (mA * 0x400) / 2 == mA * 0x200
      && var n := if sigB <= sigA + sigA then mA * 0x200 else sigA;
         n < sigB && 0x4000_0000_0000_0000 <= Quo(n * W64, sigB) < TOP64
  {
    P2Values();
    hide P2;
    WrapSame(mA * 0x400);
    WrapSame(mB * 0x800);
    WrapSame(mA * 0x800);
    hide Wrap64, Quo;
    DivModUnique(mA * 0x400, 2, mA * 0x200, 0);
    QuotientRange(if mB * 0x800 <= mA * 0x800 then mA * 0x200 else mA * 0x400, mB * 0x800);
  }

  /** After the alignment the quotient of significands fills exactly the field. */
  lemma QuotientRange(sigA: u64, sigB: u64)
    requires TOP64 <= sigB && sigB <= 4 * sigA && 2 * sigA < sigB
    ensures 0x4000_0000_0000_0000 <= Quo(sigA * W64, sigB) < TOP64
  {
    var n := sigA * W64;
    var q, r := n / sigB, n % sigB;
    assert n == q * sigB + r;
    if q >= TOP64 { MulGe(q, TOP64, sigB); }
    if q < 0x4000_0000_0000_0000 { MulGe(0x3FFF_FFFF_FFFF_FFFF, q, sigB); }
  }

  /** The exact quotient, in half units of the last place of the result. */
  lemma QuotientHalfUnits(a: u64, expA: int, mA: nat, b: u64, expB: int, mB: nat, sigA: u64, sigB: u64, expZ: int)
    requires Unpacked(a, expA, mA) && Unpacked(b, expB, mB) && sigB == mB * 0x800
    requires (sigA == mA * 0x400 && expZ == expA - expB + 0x3FD) || (sigA == mA * 0x200 && expZ == expA - expB + 0x3FE)
    ensures AbsValue(b) > 0.0
    ensures Scale(AbsValue(a) / AbsValue(b), 1075 - expZ) == Ratio(sigA * W64, sigB) / 0x200 as real
  {
    hide Pow2, P2, AbsValue, Ratio;
    var k := 1075 - expZ + (expA - expB);
    ScaleLess(0.0, mB as real, expB - 1075);
    ScaledQuotient(mA, expA - 1075, mB, expB - 1075);
    assert expA - 1075 - (expB - 1075) == expA - expB;
    ScaleScale(Ratio(mA, mB), expA - expB, 1075 - expZ);
    hide Scale;
    assert k == 53 || k == 54;
    if k == 54 {
      FieldRatio54(mA, mB);
    } else {
      FieldRatio53(mA, mB);
    }
  }

  lemma FieldRatio54(mA: nat, mB: nat)
    requires mB > 0
    ensures Scale(Ratio(mA, mB), 54) == Ratio((mA * 0x400) * W64, mB * 0x800) / 0x200 as real
  {
    hide P2, Pow2;
    Pow2Nat(54);
    P2Add(1, 53);
    P2Values();
    CancelFactor(mA as real, mB as real, (0x400 * W64) as real, 0x800 as real);
    FieldRatioParts(Ratio(mA, mB), 0x400);
  }

  lemma FieldRatio53(mA: nat, mB: nat)
    requires mB > 0
    ensures Scale(Ratio(mA, mB), 53) == Ratio((mA * 0x200) * W64, mB * 0x800) / 0x200 as real
  {
    hide P2, Pow2;
    Pow2Nat(53);
    P2Values();
    CancelFactor(mA as real, mB as real, (0x200 * W64) as real, 0x800 as real);
    FieldRatioParts(Ratio(mA, mB), 0x200);
  }

  lemma FieldRatioParts(u: real, s: nat)
    requires s == 0x400 || s == 0x200
    ensures u * ((s * W64) as real / 0x800 as real) / 0x200 as real
            == u * (if s == 0x400 then 0x40_0000_0000_0000 else 0x20_0000_0000_0000) as real
  {
  }
}
