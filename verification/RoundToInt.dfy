/** f64_roundToInt: rounding to an integer done on the encoding, and how it fits the integer conversions. */
module RoundToInt {
  import opened Arith
  import opened Powers
  import opened Sticky
  import opened Words
  import opened Rounding
  import opened FpState
  import opened Packing
  import opened Binary64
  import opened Operands64
  import opened FloatToInt
  import IntToFloat

  /** The encoding of the integer n, which binary64 has. */
  ghost predicate EncodesInt(n: int, mag: int) {
    0 <= mag < INF64 && MagValue(mag) == n as real
  }

  /** An operand rounded to an integral value: IEEE 754 section 5.9.  z is the result. */
  ghost predicate IntegralResult(mode: Mode, a: u64, z: u64) {
    if IsNaN(a) then z == NAN64
    else if IsInfinite(a) then z == a
    else SignOf(z) == SignOf(a) && EncodesInt(RoundedInt(mode, a), MagOf(z))
  }

  function IntegralFlags(exact: bool, a: u64, whole: bool): Flags {
    if IsNaN(a) then RaisedWhen(IsSigNaN(a), INVALID)
    else RaisedWhen(exact && IsFinite(a) && !whole, INEXACT)
  }

  // ----- the small operands -----

  /** Below 1 only the place of the operand among 0, 1/2 and 1 matters. */
  lemma SmallOperand(mode: Mode, a: u64)
    requires ExpOf(a) <= 0x3FE && MagOf(a) != 0
    ensures
      var c := if ExpOf(a) < 0x3FE then 1 else if FracOf(a) == 0 then 2 else 3;
      RoundedInt(mode, a) == RoundPosition(mode, SignOf(a), c)
    ensures !IsWhole(AbsValue(a))
  {
    hide RoundedInt, AbsValue, IsWhole, PlaceOf, Quarter, Cut, P2, Quo, RoundPosition;
    RoundedPlace(mode, a);
    Fields(a);
    SigBounds(a);
    hide SigOf;
    PlaceParts(SigOf(a), 0x433 - ExpOf(a));
    NothingLeft(SigOf(a), 0x433 - ExpOf(a));
    SmallQuarter(SigOf(a), FracOf(a), 0x433 - ExpOf(a));
  }

  lemma SmallQuarter(m: nat, f: nat, s: nat)
    requires 0 < m < 2 * HIDDEN64 && 53 <= s && (s == 53 ==> m == f + HIDDEN64)
    ensures Quarter(m % P2(s), P2(s - 1)) == if 53 < s then 1 else if f == 0 then 2 else 3
    ensures m % P2(s) == m
  {
    P2Values();
    P2Mono(53, s);
    if 53 < s { P2Mono(53, s - 1); }
    hide P2;
    DivModUnique(m, P2(s), 0, m);
  }

  /** The encodings of 0 and 1. */
  lemma UnitEncodings()
    ensures EncodesInt(0, 0) && EncodesInt(1, 0x3FF0_0000_0000_0000)
  {
    P2Values();
    ScaleBack(1.0, 52);
    assert Scale(HIDDEN64 as real, -52) == 1.0 by {
      Pow2Nat(52);
      hide Pow2, P2;
    }
    assert Scale(0.0, -1074) == 0.0;
    hide Scale;
  }

  // ----- add and mask -----

  /** n units of 2^k. */
  function Lsh(n: int, k: nat): int { n * P2(k) }

  /** uiZ & ~(2^k - 1). */
  function Mask(x: u64, k: nat): (z: u64)
    ensures z == Lsh(Quo(x, P2(k)), k)
  {
    MaskParts(x, P2(k));
    x - Low(x, k)
  }

  lemma MaskParts(x: nat, d: nat)
    requires d > 0
    ensures 0 <= Quo(x, d) * d == x - x % d <= x
  {
    assert x == (x / d) * d + x % d;
    LowRange(x, d);
    MulGe(Quo(x, d), 0, d);
  }

  /** uiZ & ~2^k. */
  function ClearBitAt(x: u64, k: nat): u64 {
    MaskParts(x, P2(k));
    OddPart(x, P2(k));
    if Quo(x, P2(k)) % 2 == 1 then x - P2(k) else x
  }

  lemma OddPart(x: nat, d: nat)
    requires d > 0
    ensures Quo(x, d) % 2 == 1 ==> d <= x
  {
    MaskParts(x, d);
    if Quo(x, d) >= 1 { MulGe(Quo(x, d), 1, d); }
  }

  /** Adding t below 2^k carries into the masked part, or not. */
  lemma Carried(x: nat, t: nat, k: nat)
    requires t < P2(k)
    ensures
      var v, r := Quo(x, P2(k)), Low(x, k);
      && Quo(x + t, P2(k)) == (if r + t < P2(k) then v else v + 1)
      && Low(x + t, k) == if r + t < P2(k) then r + t else r + t - P2(k)
  {
    var d := P2(k);
    hide P2;
    var v, r := x / d, x % d;
    assert x == v * d + r;
    if r + t < d { DivModUnique(x + t, d, v, r + t); } else {
      assert (v + 1) * d == v * d + d;
      DivModUnique(x + t, d, v + 1, r + t - d);
    }
  }

  lemma PlaceLow(m: nat, k: nat)
    requires k > 0
    ensures PlaceOf(m, k) == 4 * Quo(m, P2(k)) + Quarter(Low(m, k), P2(k - 1))
  {
    PlaceParts(m, k);
    hide PlaceOf, P2, Quo, Quarter;
  }

  // What each mode adds before masking makes the quotient the rounded one.

  lemma NearestAway(neg: bool, x: nat, k: nat)
    requires 1 <= k
    ensures Quo(x + P2(k - 1), P2(k)) == RoundPosition(NearMaxMag, neg, PlaceOf(x, k))
  {
    P2Succ(k - 1);
    hide P2, Quo, Quarter, PlaceOf, Low, RoundPosition;
    PlaceLow(x, k);
    QuarterCases(Low(x, k), P2(k - 1));
    RoundCases(NearMaxMag, neg, Quo(x, P2(k)), Quarter(Low(x, k), P2(k - 1)));
    Carried(x, P2(k - 1), k);
  }

  lemma NearestEven(neg: bool, x: u64, k: nat)
    requires 1 <= k && x + P2(k - 1) < W64
    ensures
      var y := x + P2(k - 1);
      Quo(if Low(y, k) == 0 then ClearBitAt(y, k) else y, P2(k)) == RoundPosition(NearEven, neg, PlaceOf(x, k))
  {
    P2Succ(k - 1);
    hide P2, Quo, Quarter, PlaceOf, Low, RoundPosition, ClearBitAt;
    var y, q, half := x + P2(k - 1), Quo(x, P2(k)), P2(k - 1);
    assert Quo(y, P2(k)) == (if Low(x, k) < half then q else q + 1) && (Low(y, k) == 0 <==> Low(x, k) == half) by {
      Carried(x, half, k);
    }
    assert RoundPosition(NearEven, neg, PlaceOf(x, k))
           == if Low(x, k) > half || (Low(x, k) == half && q % 2 == 1) then q + 1 else q by {
      PlaceLow(x, k);
      QuarterCases(Low(x, k), half);
      RoundCases(NearEven, neg, q, Quarter(Low(x, k), half));
    }
    if Low(x, k) == half {
      assert Quo(ClearBitAt(y, k), P2(k)) == (if q % 2 == 1 then q + 1 else q) by {
        TieCleared(y, k);
        EvenAtOrBelow(q);
      }
    }
  }

  lemma EvenAtOrBelow(q: nat)
    ensures q + 1 - (q + 1) % 2 == if q % 2 == 1 then q + 1 else q
  {
  }

  lemma Directed(mode: Mode, neg: bool, x: nat, k: nat)
    requires 1 <= k && (mode.Min? || mode.Max? || mode.MinMag?)
    ensures Quo(if !mode.MinMag? && neg != mode.Max? then x + P2(k) - 1 else x, P2(k)) == RoundPosition(mode, neg, PlaceOf(x, k))
  {
    hide P2, Quo, PlaceOf, Low, RoundPosition;
    DirectedPosition(mode, neg, x, k);
    NextMultiple(x, k);
  }

  lemma NextMultiple(x: nat, k: nat)
    ensures Quo(x + P2(k) - 1, P2(k)) == if Low(x, k) == 0 then Quo(x, P2(k)) else Quo(x, P2(k)) + 1
  {
    var t := P2(k) - 1;
    assert x + P2(k) - 1 == x + t;
    hide P2, Quo;
    Carried(x, t, k);
  }

  lemma DirectedPosition(mode: Mode, neg: bool, x: nat, k: nat)
    requires 1 <= k && (mode.Min? || mode.Max? || mode.MinMag?)
    ensures RoundPosition(mode, neg, PlaceOf(x, k))
            == if !mode.MinMag? && neg != mode.Max? && Low(x, k) != 0 then Quo(x, P2(k)) + 1 else Quo(x, P2(k))
  {
    P2Succ(k - 1);
    hide P2, Quo, Quarter, PlaceOf, Low, RoundPosition;
    PlaceLow(x, k);
    QuarterCases(Low(x, k), P2(k - 1));
    RoundCases(mode, neg, Quo(x, P2(k)), Quarter(Low(x, k), P2(k - 1)));
  }

  /** Lines 60 to 71: a word rounded to a multiple of 2^k by adding and masking. */
  method RoundBits(uiA: u64, mode: Mode, k: nat) returns (uiZ: u64)
    requires 1 <= k <= 52 && uiA + P2(k) <= W64
    ensures uiZ == Lsh(RoundPosition(mode, SignOf(uiA), PlaceOf(uiA, k)), k)
  {
    P2Succ(k - 1);
    hide P2, Quo, SignOf, RoundPosition, ClearBitAt, PlaceOf, Lsh, Low;
    var lastBitMask: int := P2(k);
    var half: int := P2(k - 1);
    var roundBitsMask := lastBitMask - 1;
    uiZ := uiA;
    if mode == NearMaxMag {
      NearestAway(SignOf(uiA), uiA, k);
      uiZ := uiZ + half;
    } else if mode == NearEven {
      NearestEven(SignOf(uiA), uiA, k);
      uiZ := uiZ + half;
      if Low(uiZ, k) == 0 {
        uiZ := ClearBitAt(uiZ, k);
      }
    } else {
      Directed(mode, SignOf(uiA), uiA, k);
      if mode != MinMag {
        if SignOf(uiZ) != (mode == Max) {
          uiZ := uiZ + roundBitsMask;
        }
      }
    }
    uiZ := Mask(uiZ, k);
  }

  lemma AtLeastOnce(x: nat, d: nat)
    requires d > 0 && x % d == 0 && x > 0
    ensures d <= x
  {
    if x < d { DivModUnique(x, d, 0, x); }
  }

  /** Clearing bit k of a multiple of 2^k leaves the even multiple at or below it. */
  lemma TieCleared(x: u64, k: nat)
    requires Low(x, k) == 0 && x > 0
    ensures Quo(ClearBitAt(x, k), P2(k)) == Quo(x, P2(k)) - Quo(x, P2(k)) % 2
  {
    AtLeastOnce(x, P2(k));
    OddPart(x, P2(k));
    OneLess(x, P2(k));
    hide P2, Quo;
  }

  lemma OneLess(x: nat, d: nat)
    requires 0 < d <= x && x % d == 0
    ensures Quo(x - d, d) == Quo(x, d) - 1
  {
    MaskParts(x, d);
    var q := Quo(x, d);
    assert (q - 1) * d == q * d - d;
    DivModUnique(x - d, d, q - 1, 0);
  }

  lemma QuarterCases(r: nat, half: nat)
    ensures r == 0 <==> Quarter(r, half) == 0
    ensures Quarter(r, half) >= 2 <==> r != 0 && half <= r
    ensures Quarter(r, half) == 2 <==> r != 0 && r == half
    ensures Quarter(r, half) < 4
  {
  }

  lemma RoundCases(mode: Mode, neg: bool, v: nat, c: nat)
    requires c < 4
    ensures
      RoundPosition(mode, neg, 4 * v + c)
      == match mode
         case NearEven => if c == 3 || (c == 2 && v % 2 == 1) then v + 1 else v
         case NearMaxMag => if c >= 2 then v + 1 else v
         case MinMag => v
         case Min => if neg && c > 0 then v + 1 else v
         case Max => if !neg && c > 0 then v + 1 else v
  {
  }

  // ----- on the encoding of an operand from 1 to 2^52 -----

  lemma LshSum(i: int, n: int, k: nat)
    ensures Lsh(i + n, k) == Lsh(i, k) + Lsh(n, k)
  {
    hide P2;
  }

  /** Sign and exponent are an even number of units of the last integer place: they do not disturb a tie. */
  lemma EvenOffset(a: u64) returns (j: nat)
    requires 0x3FF <= ExpOf(a) < 0x433
    ensures
      var k := 0x433 - ExpOf(a);
      && a == Lsh(2 * j, k) + SigOf(a)
      && Lsh(2 * j, k) == Bit(SignOf(a)) * TOP64 + (ExpOf(a) - 1) * HIDDEN64
  {
    SigBounds(a);
    Fields(a);
    j := OffsetUnits(0x433 - ExpOf(a), ExpOf(a) - 1, SignOf(a));
    hide SigOf, ExpOf, FracOf, SignOf, P2, Lsh;
  }

  lemma OffsetUnits(k: nat, e: nat, neg: bool) returns (j: nat)
    requires 1 <= k <= 52 && (k == 52 ==> e % 2 == 0)
    ensures Lsh(2 * j, k) == Bit(neg) * TOP64 + e * HIDDEN64
  {
    var top := P2(62 - k);
    assert top * P2(k) == 0x4000_0000_0000_0000 by { P2Add(62 - k, k); P2Values(); }
    var low, count := 1, e / 2;
    var unit := HIDDEN64;
    if k < 52 {
      low, count, unit := P2(51 - k), e, 0x8_0000_0000_0000;
      assert low * P2(k) == unit by { P2Add(51 - k, k); P2Values(); }
    } else {
      assert P2(k) == HIDDEN64 by { P2Values(); }
    }
    hide P2;
    var t := if neg then top else 0;
    MulGe(count, 0, low);
    j := t + count * low;
    OffsetParts(t, count, low, P2(k), Bit(neg) * 0x4000_0000_0000_0000, unit);
  }

  lemma OffsetParts(t: int, e: int, low: int, d: int, td: int, unit: int)
    requires t * d == td && low * d == unit
    ensures (2 * (t + e * low)) * d == 2 * td + 2 * (e * unit)
  {
    assert (e * low) * d == e * (low * d);
    assert (t + e * low) * d == t * d + (e * low) * d;
    assert (2 * (t + e * low)) * d == 2 * ((t + e * low) * d);
  }

  lemma PlaceOffset(mode: Mode, neg: bool, m: nat, j: nat, k: nat)
    requires k > 0
    ensures Lsh(2 * j, k) >= 0
    ensures RoundPosition(mode, neg, PlaceOf(Lsh(2 * j, k) + m, k)) == 2 * j + RoundPosition(mode, neg, PlaceOf(m, k))
  {
    QuotientOffset(2 * j, m, P2(k));
    hide Lsh, P2, PlaceOf, Quarter, Quo, RoundPosition;
    PlaceParts(Lsh(2 * j, k) + m, k);
    PlaceParts(m, k);
    QuarterCases(m % P2(k), P2(k - 1));
    RoundShifted(mode, neg, j, Quo(m, P2(k)), Quarter(m % P2(k), P2(k - 1)));
  }

  /** An even number of whole units passes through rounding. */
  lemma RoundShifted(mode: Mode, neg: bool, j: nat, v: nat, c: nat)
    requires c < 4
    ensures RoundPosition(mode, neg, 4 * (2 * j + v) + c) == 2 * j + RoundPosition(mode, neg, 4 * v + c)
  {
    RoundCases(mode, neg, 2 * j + v, c);
    RoundCases(mode, neg, v, c);
    hide RoundPosition;
  }

  lemma QuotientOffset(i: nat, m: nat, d: nat)
    requires d > 0
    ensures i * d >= 0
    ensures Quo(i * d + m, d) == i + Quo(m, d) && (i * d + m) % d == m % d
  {
    MulGe(i, 0, d);
    var v, r := m / d, m % d;
    assert m == v * d + r;
    assert (i + v) * d == i * d + v * d;
    DivModUnique(i * d + m, d, i + v, r);
    DivBound(m, d);
  }

  /** The rounded encoding is the encoding of the rounded integer, with its sign. */
  lemma RoundedEncoding(mode: Mode, a: u64)
    requires 0x3FF <= ExpOf(a) < 0x433
    ensures
      var z := Lsh(RoundPosition(mode, SignOf(a), PlaceOf(a, 0x433 - ExpOf(a))), 0x433 - ExpOf(a));
      && 0 <= z < W64
      && IntegralResult(mode, a, z)
      && (z != a <==> !IsWhole(AbsValue(a)))
    ensures a + P2(0x433 - ExpOf(a)) <= W64
  {
    var mag := RoundedMag(mode, a);
    hide Lsh, P2, PlaceOf, RoundedInt, AbsValue, IsWhole, RoundPosition, EncodesInt;
    IntegralFrom(mode, a, mag);
    hide IntegralResult, SignOf;
    NoOverflow(a);
    hide ExpOf;
  }

  lemma NoOverflow(a: u64)
    requires 0x3FF <= ExpOf(a) < 0x433
    ensures a + P2(0x433 - ExpOf(a)) <= W64
  {
    P2Mono(0x433 - ExpOf(a), 52);
    P2Values();
    hide P2;
    Fields(a);
  }

  /** Rounding the whole encoding rounds its significand and leaves sign and exponent in place. */
  lemma RoundedMag(mode: Mode, a: u64) returns (mag: int)
    requires 0x3FF <= ExpOf(a) < 0x433
    ensures
      var z := Lsh(RoundPosition(mode, SignOf(a), PlaceOf(a, 0x433 - ExpOf(a))), 0x433 - ExpOf(a));
      z == Bit(SignOf(a)) * TOP64 + mag && (z != a <==> !IsWhole(AbsValue(a)))
    ensures EncodesInt(RoundedInt(mode, a), mag)
  {
    hide Lsh, P2, PlaceOf, RoundedInt, AbsValue, IsWhole, RoundPosition, EncodesInt, Cut;
    var k := 0x433 - ExpOf(a);
    SigBounds(a);
    hide SigOf;
    RoundedPlace(mode, a);
    var j := EvenOffset(a);
    PlaceOffset(mode, SignOf(a), SigOf(a), j, k);
    PlaceParts(SigOf(a), k);
    var n := RoundedInt(mode, a);
    UnitsRounded(mode, SignOf(a), SigOf(a), k, n);
    EncodedInteger(n, k, ExpOf(a));
    LshSum(2 * j, n, k);
    mag := (ExpOf(a) - 1) * HIDDEN64 + Lsh(n, k);
    hide ExpOf, FracOf, SignOf;
  }

  lemma IntegralFrom(mode: Mode, a: u64, mag: int)
    requires IsFinite(a) && EncodesInt(RoundedInt(mode, a), mag)
    ensures 0 <= Bit(SignOf(a)) * TOP64 + mag < W64
    ensures IntegralResult(mode, a, Bit(SignOf(a)) * TOP64 + mag)
  {
    SignedMag(SignOf(a), mag);
    hide MagValue, RoundedInt;
  }

  lemma FullRange(m: nat, k: nat)
    requires HIDDEN64 <= m < 2 * HIDDEN64 && 1 <= k <= 52
    ensures P2(52 - k) * P2(k) == HIDDEN64 && P2(53 - k) * P2(k) == 2 * HIDDEN64
    ensures P2(52 - k) <= Quo(m, P2(k)) < P2(53 - k)
  {
    P2Add(52 - k, k);
    P2Add(53 - k, k);
    P2Values();
    hide P2;
    QuotientWithin(m, P2(k), P2(52 - k), P2(53 - k));
  }

  lemma QuotientWithin(m: nat, d: nat, lo: nat, hi: nat)
    requires d > 0 && lo * d <= m < hi * d
    ensures lo <= Quo(m, d) < hi
  {
    var q := m / d;
    assert m == q * d + m % d;
    if q < lo { MulGe(lo, q + 1, d); }
    if hi <= q { MulGe(q, hi, d); }
  }

  lemma UnitsRounded(mode: Mode, neg: bool, m: nat, k: nat, n: int)
    requires HIDDEN64 <= m < 2 * HIDDEN64 && 1 <= k <= 52
    requires n == RoundPosition(mode, neg, PlaceOf(m, k))
    ensures HIDDEN64 <= Lsh(n, k) <= 2 * HIDDEN64
    ensures Lsh(n, k) == m <==> !Cut(m, P2(k))
  {
    FullRange(m, k);
    PlaceParts(m, k);
    LowRange(m, P2(k));
    P2Succ(k - 1);
    var q := Quo(m, P2(k));
    QuarterCases(m % P2(k), P2(k - 1));
    hide Quarter, PlaceOf, P2, Quo;
    RoundCases(mode, neg, q, Quarter(m % P2(k), P2(k - 1)));
    hide RoundPosition;
    assert n == q || n == q + 1;
    assert !Cut(m, P2(k)) ==> n == q;
    UnitsWithin(n, m, P2(k), P2(52 - k), P2(53 - k));
  }

  lemma UnitsWithin(n: int, m: nat, d: nat, lo: nat, hi: nat)
    requires d > 0 && lo <= n <= hi && (!Cut(m, d) ==> n == Quo(m, d))
    ensures lo * d <= n * d <= hi * d
    ensures n * d == m <==> !Cut(m, d)
  {
    MulGe(n, lo, d);
    MulGe(hi, n, d);
    MaskParts(m, d);
    if n * d == m && n >= 0 { DivModUnique(m, d, n, 0); }
  }

  lemma EncodedInteger(n: int, k: nat, e: int)
    requires 1 <= k <= 52 && e == 0x433 - k && HIDDEN64 <= Lsh(n, k) <= 2 * HIDDEN64
    ensures (e - 1) * HIDDEN64 + Lsh(n, k) < INF64
    ensures EncodesInt(n, (e - 1) * HIDDEN64 + Lsh(n, k))
  {
    hide P2, Pow2;
    EncodeValue(n * P2(k), e - 1075);
    ScaleNat(n, k);
    ScaleScale(n as real, k, e - 1075);
    ScaleZero(n as real);
    assert k + (e - 1075) == 0;
    hide Scale, MagValue;
  }

  /** A number with no fraction bits, or an infinity, is its own rounding. */
  lemma WholeEncoding(mode: Mode, a: u64)
    requires 0x433 <= ExpOf(a) && !IsNaN(a)
    ensures IntegralResult(mode, a, a)
    ensures IsFinite(a) ==> IsWhole(AbsValue(a))
  {
    if IsFinite(a) {
      WholeOperand(mode, a);
      Fields(a);
      AbsIsMag(a);
    }
    hide RoundedInt, AbsValue, IsWhole, MagValue;
  }

  lemma ZeroEncoding(mode: Mode, a: u64)
    requires MagOf(a) == 0
    ensures IntegralResult(mode, a, a) && IsFinite(a) && IsWhole(AbsValue(a))
  {
    Fields(a);
    ZeroValue(a);
    UnitEncodings();
    WholeRound(mode, SignOf(a), 0);
    hide AbsValue, MagValue;
  }

  // ----- the operation -----

  method F64RoundToInt(env: FpEnv, a: u64, mode: Mode, exact: bool) returns (z: u64)
    modifies env`flags
    ensures IntegralResult(mode, a, z)
    ensures env.flags == old(env.flags).Or(IntegralFlags(exact, a, IsWhole(AbsValue(a))))
  {
    hide IntegralResult, RoundedInt, AbsValue, MagValue, P2, PlaceOf, RoundPosition, Pack, EncodesInt, IsWhole, IsSigNaN, SignOf;
    var expA := ExpOf(a);
    if 0x433 <= expA {
      if expA == 0x7FF && FracOf(a) != 0 {
        z := PropagateNaNF64UI(env, a, 0);
        NaNIntegral(mode, a);
        return;
      }
      WholeEncoding(mode, a);
      z := a;
      return;
    }
    if expA <= 0x3FE {
      if MagOf(a) == 0 {
        ZeroEncoding(mode, a);
        z := a;
        return;
      }
      if exact {
        env.Raise(INEXACT);
      }
      z := SmallRounded(a, mode);
      return;
    }
    RoundedEncoding(mode, a);
    z := RoundBits(a, mode, 0x433 - expA);
    if exact && z != a {
      env.Raise(INEXACT);
    }
  }

  lemma NaNIntegral(mode: Mode, a: u64)
    requires IsNaN(a)
    ensures IntegralResult(mode, a, NAN64)
    ensures !IsSigNaN(0)
  {
  }

  lemma PackUnits(neg: bool)
    ensures Pack(neg, 0, 0) == Bit(neg) * TOP64
    ensures Pack(neg, 0x3FF, 0) == Bit(neg) * TOP64 + 0x3FF0_0000_0000_0000
  {
  }

  /** Lines 32 to 56: nonzero operands below 1. */
  method SmallRounded(a: u64, mode: Mode) returns (uiZ: u64)
    requires ExpOf(a) <= 0x3FE && MagOf(a) != 0
    ensures IntegralResult(mode, a, uiZ)
    ensures !IsWhole(AbsValue(a))
  {
    SmallOperand(mode, a);
    UnitEncodings();
    if RoundedInt(mode, a) == 0 {
      IntegralFrom(mode, a, 0);
    } else {
      IntegralFrom(mode, a, 0x3FF0_0000_0000_0000);
    }
    RoundCases(mode, SignOf(a), 0, if ExpOf(a) < 0x3FE then 1 else if FracOf(a) == 0 then 2 else 3);
    PackUnits(SignOf(a));
    hide RoundedInt, RoundPosition, AbsValue, IsWhole, IntegralResult, EncodesInt, SignOf, ExpOf, FracOf, Pack;
    var signA := SignOf(a);
    match mode {
      case NearEven =>
        if ExpOf(a) == 0x3FE && FracOf(a) != 0 {
          uiZ := Pack(signA, 0x3FF, 0);
          return;
        }
      case Min =>
        uiZ := if signA then 0xBFF0_0000_0000_0000 else 0;
        return;
      case Max =>
        uiZ := if signA then TOP64 else 0x3FF0_0000_0000_0000;
        return;
      case NearMaxMag =>
        if ExpOf(a) == 0x3FE {
          uiZ := Pack(signA, 0x3FF, 0);
          return;
        }
      case MinMag => {}
    }
    uiZ := Pack(signA, 0, 0);
  }

  // ----- what the operation has to do with the conversions -----

  /**
   * Whenever the rounded operand fits in a signed 64-bit integer, rounding on the encoding gives the number
   * that f64_to_i64 and i64_to_f64 give, raising inexact in the same cases.
   */
  lemma ThroughI64(mode: Mode, mode': Mode, exact: bool, a: u64, z: u64)
    requires IsFinite(a) && IntegralResult(mode, a, z)
    requires ToInt(I64, mode, exact, a).flags.invalid == false
    ensures
      var i := ToInt(I64, mode, exact, a);
      var back := IntToFloat.IntTo64(mode', i.bits);
      && 0 <= back.bits < W64 && IsFinite(back.bits) && IsFinite(z)
      && Value(back.bits) == Value(z) == i.bits as real
      && back.flags == NO_FLAGS && i.flags == IntegralFlags(exact, a, IsWhole(AbsValue(a)))
  {
    var n := RoundedInt(mode, a);
    Fields(a);
    Fields(z);
    assert !IsNaN(a) && !IsInfinite(a);
    NonNegative(mode, a);
    AbsIsMag(z);
    hide RoundedInt, Round64, MagValue, AbsValue, IsWhole;
    BackFromInt(mode', SignOf(a) && n != 0, n, MagOf(z));
    hide EncodesInt, IsFinite, SignOf, MagOf, IsNaN, IsInfinite;
  }

  /** An encoded integer converts to its encoding, with the sign the integer has. */
  lemma BackFromInt(mode: Mode, neg: bool, n: int, mag: int)
    requires n >= 0 && EncodesInt(n, mag) && (n == 0 ==> !neg)
    ensures
      var back := IntToFloat.IntTo64(mode, if neg then -n else n);
      && back == Outcome(Bit(neg) * TOP64 + mag, NO_FLAGS)
      && 0 <= back.bits < W64 && IsFinite(back.bits)
      && Value(back.bits) == (if neg then -n else n) as real
  {
    hide MagValue, Round64, SignOf, MagOf, IsFinite, AbsValue;
    SignedMag(neg, mag);
    var z := Bit(neg) * TOP64 + mag;
    AbsIsMag(z);
    assert IntToFloat.IntTo64(mode, if neg then -n else n) == Outcome(z, NO_FLAGS) by { ExactMag(mode, neg, mag); }
  }

  lemma NonNegative(mode: Mode, a: u64)
    requires IsFinite(a)
    ensures RoundedInt(mode, a) >= 0
  {
    ZeroValue(a);
    hide AbsValue;
  }

  /** Rounding twice is rounding once, whatever the second mode, and the second time nothing is inexact. */
  lemma Idempotent(mode: Mode, mode': Mode, exact: bool, a: u64, z: u64, z': u64)
    requires IntegralResult(mode, a, z) && IntegralResult(mode', z, z')
    ensures z' == z
    ensures IntegralFlags(exact, z, IsFinite(z) && IsWhole(AbsValue(z))) == NO_FLAGS
  {
    Fields(a);
    Fields(z);
    Fields(z');
    if IsFinite(a) {
      assert !IsNaN(a) && !IsInfinite(a);
      var n := RoundedInt(mode, a);
      AbsIsMag(z);
      WholeRound(mode', SignOf(z), n);
      assert RoundedInt(mode', z) == n;
      SameMag(MagOf(z), MagOf(z'));
    }
    hide RoundedInt, MagValue, AbsValue;
  }

  /** Different magnitudes stand for different numbers. */
  lemma SameMag(m: nat, n: nat)
    requires m < INF64 && n < INF64 && MagValue(m) == MagValue(n)
    ensures m == n
  {
    ExactMag(NearEven, false, m);
    ExactMag(NearEven, false, n);
    hide MagValue, Round64;
  }
}
