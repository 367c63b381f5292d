/** f32_sqrt: an estimate of the root, corrected only when it could round the wrong way. */
module Sqrt32 {
  import opened Arith
  import opened Powers
  import opened Sticky
  import opened Words
  import opened Rounding
  import opened FpState
  import opened Packing
  import opened Binary32
  import opened RoundPack32
  import opened Operands32
  import opened EstimateSqrt

  // ----- roots -----

  function Squared(k: int): (r: int)
    ensures r >= 0
  {
    SquareSign(k);
    k * k
  }

  /** The integer part of the root of n. */
  ghost function ISqrt(n: nat): (k: nat)
    ensures Squared(k) <= n < Squared(k + 1)
  {
    if n == 0 then 0
    else
      var k := ISqrt(n - 1);
      assert (k + 2) * (k + 2) == (k + 1) * (k + 1) + 2 * k + 3;
      if Squared(k + 1) <= n then k + 1 else k
  }

  /**
   * A stand-in for the square root of x: the root itself when it is a multiple of 2^-200, else the middle
   * of the interval between the two multiples around it.  RootRounds shows that it rounds as the root does.
   */
  ghost function Root(x: real): (y: real)
    requires x >= 0.0
    ensures y >= 0.0
  {
    ScaleLess(0.0, x, 400);
    var u := Scale(x, 400);
    var k := ISqrt(u.Floor);
    var y := if Squared(k) as real == u then k as real else k as real + 0.5;
    ScaleLess(0.0, y, -200);
    Scale(y, -200)
  }

  ghost function Square(x: real): real {
    x * x
  }

  lemma RealSquares(x: real, y: real)
    requires x >= 0.0 && y >= 0.0
    ensures x < y <==> Square(x) < Square(y)
    ensures x == y <==> Square(x) == Square(y)
  {
    if x < y { StrictSquare(x, y); }
    if y < x { StrictSquare(y, x); }
  }

  lemma StrictSquare(x: real, y: real)
    requires 0.0 <= x < y
    ensures Square(x) < Square(y)
  {
    assert y * y - x * x == (y - x) * (y + x);
    RealMulStrict(0.0, y - x, y + x);
  }

  lemma IntSquares(x: int, y: int)
    requires x >= 0 && y >= 0
    ensures x < y <==> Squared(x) < Squared(y)
  {
    if x < y { MulGe(y, x + 1, y); MulGe(y, x, x + 1); }
    if y <= x { MulGe(x, y, x); MulGe(x, y, y); }
  }

  lemma ScaledSquare(k: nat, h: int)
    ensures Square(Scale(k as real, h)) == Scale(Squared(k) as real, 2 * h)
  {
    Pow2Add(h, h);
    hide Pow2;
    RealProduct(k, k);
    var x, p := k as real, Pow2(h);
    assert (x * p) * (x * p) == (x * x) * (p * p);
    assert h + h == 2 * h;
  }

  /** Root(x) lies among the multiples of 2^h, for h no finer than -200, as the square root of x does. */
  lemma RootCompare(x: real, k: nat, h: int)
    requires x >= 0.0 && h >= -200
    ensures
      var v := Scale(k as real, h);
      (v < Root(x) <==> Square(v) < x) && (v == Root(x) <==> Square(v) == x)
  {
    var j := k * P2(h + 200);
    assert Scale(k as real, h) == Scale(j as real, -200) by {
      ScaleNat(k, h + 200);
      ScaleScale(k as real, h + 200, -200);
    }
    hide P2, Pow2, Square, Squared;
    ScaledSquare(j, -200);
    var u := Scale(x, 400);
    ScaleLess(0.0, x, 400);
    ScaleScale(Squared(j) as real, -400, 400);
    Binary64.ScaleZero(Squared(j) as real);
    ScaleLess(Scale(Squared(j) as real, -400), x, 400);
    var n := ISqrt(u.Floor);
    var y := if Squared(n) as real == u then n as real else n as real + 0.5;
    ScaleLess(j as real, y, -200);
    assert Root(x) == Scale(y, -200);
    hide Scale, Root;
    AmongSquares(u, n, j);
  }

  lemma AmongSquares(u: real, n: nat, j: nat)
    requires Squared(n) <= u.Floor < Squared(n + 1)
    ensures
      var y := if Squared(n) as real == u then n as real else n as real + 0.5;
      (j as real < y <==> Squared(j) as real < u) && (j as real == y <==> Squared(j) as real == u)
  {
    IntSquares(j, n);
    IntSquares(n, j);
    IntSquares(n + 1, j);
    IntSquares(j, n + 1);
  }

  /** The exact root, wherever it is a real number at all, rounds as Root(x) does. */
  lemma RootRounds(mode: Mode, x: real, r: real)
    requires r >= 0.0 && Square(r) == x
    ensures Round32(mode, false, r) == Round32(mode, false, Root(x))
  {
    assert x >= 0.0;
    hide Root, Square, Scale, Round32, Position, Quantum;
    ScaleKeepsSign(r, 200);
    var k := Scale(r, 200).Floor;
    RootCompare(x, k, -200);
    RootCompare(x, k + 1, -200);
    ScaleZeroes(r, k);
    RealSquares(Scale(k as real, -200), r);
    RealSquares(r, Scale((k + 1) as real, -200));
    ScaleZeroes(Root(x), k);
    SamePlace(Scale(r, 200), Scale(Root(x), 200), k);
    SameOutcome32(mode, false, r, Root(x), -200);
  }

  lemma SamePlace(u: real, v: real, k: int)
    requires k as real <= u < (k + 1) as real && k as real <= v < (k + 1) as real
    requires u == k as real <==> v == k as real
    ensures Position(u) == Position(v)
  {
    PositionGap(u, k);
    PositionGap(v, k);
    hide Position;
  }

  /** Where a number lies on the grid of 2^-200. */
  lemma ScaleZeroes(r: real, k: nat)
    requires r >= 0.0
    ensures Scale(k as real, -200) >= 0.0 && Scale((k + 1) as real, -200) >= 0.0
    ensures k as real <= Scale(r, 200) <==> Scale(k as real, -200) <= r
    ensures k as real == Scale(r, 200) <==> Scale(k as real, -200) == r
    ensures Scale(r, 200) < (k + 1) as real <==> r < Scale((k + 1) as real, -200)
  {
    hide Pow2;
    ScaleScale(k as real, -200, 200);
    ScaleScale((k + 1) as real, -200, 200);
    Binary64.ScaleZero(k as real);
    Binary64.ScaleZero((k + 1) as real);
    ScaleLess(Scale(k as real, -200), r, 200);
    ScaleLess(r, Scale(k as real, -200), 200);
    ScaleLess(r, Scale((k + 1) as real, -200), 200);
    ScaleLess(0.0, k as real, -200);
    ScaleLess(0.0, (k + 1) as real, -200);
  }

  /** Every number whose square is at most x rounds to at most what Root(x) rounds to. */
  lemma RootAbove(mode: Mode, x: real, lo: real)
    requires lo >= 0.0 && Square(lo) <= x
    ensures Rounded(BINARY32, mode, false, lo) <= Rounded(BINARY32, mode, false, Root(x))
  {
    hide Rounded;
    if lo <= Root(x) {
      RoundedMono(BINARY32, mode, false, lo, Root(x));
    } else {
      NoGridBetween(x, lo);
      SamePositionSameRounding(BINARY32, mode, false, lo, Root(x), -200);
      SameRounded(mode, lo, Root(x));
    }
  }

  lemma SameRounded(mode: Mode, x: real, y: real)
    requires x >= 0.0 && y >= 0.0
    requires Quantum(BINARY32, x) == Quantum(BINARY32, y)
    requires Significand(BINARY32, mode, false, x) == Significand(BINARY32, mode, false, y)
    ensures Rounded(BINARY32, mode, false, x) == Rounded(BINARY32, mode, false, y)
  {
  }

  lemma NoGridBetween(x: real, lo: real)
    requires lo >= 0.0 && Square(lo) <= x && Root(x) < lo
    ensures Position(Scale(lo, 200)) == Position(Scale(Root(x), 200))
  {
    assert x >= 0.0;
    hide Root, Square, Scale, Position;
    ScaleKeepsSign(lo, 200);
    var k := Scale(lo, 200).Floor;
    RootCompare(x, k, -200);
    ScaleZeroes(lo, k);
    ScaleZeroes(Root(x), k);
    RealSquares(Scale(k as real, -200), lo);
    ScaleLess(Root(x), lo, 200);
    SamePlace(Scale(lo, 200), Scale(Root(x), 200), k);
  }

  /** Every number whose square is at least x rounds to at least what Root(x) rounds to. */
  lemma RootBelow(mode: Mode, x: real, hi: real)
    requires hi >= 0.0 && 0.0 <= x <= Square(hi)
    ensures Rounded(BINARY32, mode, false, Root(x)) <= Rounded(BINARY32, mode, false, hi)
  {
    hide Rounded;
    if Root(x) <= hi {
      RoundedMono(BINARY32, mode, false, Root(x), hi);
    } else {
      NoGridAbove(x, hi);
      SamePositionSameRounding(BINARY32, mode, false, hi, Root(x), -200);
      SameRounded(mode, hi, Root(x));
    }
  }

  lemma NoGridAbove(x: real, hi: real)
    requires hi >= 0.0 && 0.0 <= x <= Square(hi) && hi < Root(x)
    ensures Position(Scale(hi, 200)) == Position(Scale(Root(x), 200))
  {
    hide Root, Square, Scale, Position;
    ScaleKeepsSign(Root(x), 200);
    var k := Scale(Root(x), 200).Floor;
    RootCompare(x, k, -200);
    ScaleZeroes(hi, k);
    ScaleZeroes(Root(x), k);
    RealSquares(Scale(k as real, -200), hi);
    ScaleLess(hi, Root(x), 200);
    SamePlace(Scale(hi, 200), Scale(Root(x), 200), k);
  }

  // ----- the result -----

  /** The square root IEEE 754 asks for (sections 5.4.1 and 7.2). */
  ghost function SquareRoot(mode: Mode, a: u32): Outcome {
    if IsNaN32(a) then NaNResult32(a, 0)
    else if IsZero32(a) then Outcome(a, NO_FLAGS)
    else if SignOf32(a) then INVALID_RESULT32
    else if IsInfinite32(a) then Outcome(a, NO_FLAGS)
    else
      ZeroValue32(a);
      Round32(mode, false, Root(AbsValue32(a)))
  }

  /** The operands that have no root to be computed: the zeros are their own, below zero there is none. */
  lemma SpecialRoots(mode: Mode, a: u32)
    requires IsFinite32(a) && !IsZero32(a) && SignOf32(a)
    ensures SquareRoot(mode, 0) == Outcome(0, NO_FLAGS) && SquareRoot(mode, 0x8000_0000) == Outcome(0x8000_0000, NO_FLAGS)
    ensures SquareRoot(mode, 0x7F80_0000) == Outcome(0x7F80_0000, NO_FLAGS)
    ensures SquareRoot(mode, 0xFF80_0000) == Outcome(0xFFFF_FFFF, INVALID) && SquareRoot(mode, a) == Outcome(0xFFFF_FFFF, INVALID)
  {
    hide Round32, Root, AbsValue32, NaNResult32;
  }

  /** n*4^j has its root at k or between k and k+1 in units of 2^j. */
  lemma RootPosition(x: real, n: nat, j: int, k: nat)
    requires j >= -200 && x == Scale(n as real, 2 * j) && Squared(k) <= n < Squared(k + 1)
    ensures x >= 0.0
    ensures Position(Scale(Root(x), 0 - j)) == 2 * k + Bit(Squared(k) != n)
  {
    ScaleLess(0.0, n as real, 2 * j);
    RootCompare(x, k, j);
    RootCompare(x, k + 1, j);
    hide Root, Pow2, Square, Squared;
    ScaledSquare(k, j);
    ScaledSquare(k + 1, j);
    ScaleLess(Squared(k) as real, n as real, 2 * j);
    ScaleLess(n as real, Squared(k + 1) as real, 2 * j);
    ScaleBack(k as real, j);
    ScaleBack((k + 1) as real, j);
    ScaleLess(Scale(k as real, j), Root(x), 0 - j);
    ScaleLess(Root(x), Scale((k + 1) as real, j), 0 - j);
    hide Scale, Position;
    PositionGap(Scale(Root(x), 0 - j), k);
  }

  /** The same root in half units of the last place of the result. */
  lemma RootHalfUnits(x: real, n: nat, j: int, k: nat)
    requires j >= -200 && x == Scale(n as real, 2 * j) && Squared(k) <= n < Squared(k + 1)
    ensures x >= 0.0
    ensures Position(Scale(Root(x), 0 - j - 7)) == HalfPosition(2 * k + Bit(Squared(k) != n), 0x100)
  {
    hide Root, Scale, Pow2, Ratio, Position, HalfPosition, Squared;
    RootPosition(x, n, j, k);
    var p := 2 * k + Bit(Squared(k) != n);
    var y := Scale(Ratio(p, 2), j);
    assert Position(Scale(y, 0 - j)) == p by {
      ScaleBack(Ratio(p, 2), j);
      HalfPositionIs(p, 2);
      PlaceInHalves(p);
    }
    PositionCoarser(Root(x), y, j, 7);
    assert Scale(y, 0 - j - 7) == Ratio(p, 0x100) by {
      ScaleScale(Ratio(p, 2), j, 0 - j - 7);
      P2Values();
      RatioScaled(p, 2, 7, 0);
      Binary64.ScaleZero(Ratio(p, 0x100));
    }
    HalfPositionIs(p, 0x100);
  }

  lemma PlaceInHalves(p: nat)
    ensures HalfPosition(p, 2) == p
  {
  }

  // ----- f32_sqrt -----

  /** Lines 54 to 61: the estimate brought down to the integer root, with a sticky last bit. */
  method CorrectRoot(sigA: u32, estimate: u32, ghost k: nat) returns (sigZ: u32)
    requires Squared(k) <= sigA * W32 < Squared(k + 1) && k <= estimate <= k + 4
    ensures sigZ == OrBit(k, Squared(k) != sigA * W32)
  {
    sigZ := estimate;
    ghost var n := sigA * W32;
    SquareWord(sigZ);
    hide Wrap64, MulLow64, Squared, OrBit;
    var term: u64 := MulLow64(sigZ, sigZ);
    var rem := Wrap64(sigA * W32 - term);
    RootResidue(n, k, sigZ);
    while TOP64 <= rem
      invariant k <= sigZ <= k + 4
      invariant rem == Wrap64(n - Squared(sigZ))
      invariant TOP64 <= rem <==> k < sigZ
      decreases sigZ
    {
      SquareStep(n, sigZ, rem);
      sigZ := sigZ - 1;
      rem := Wrap64(rem + (sigZ * 2 + 1));
      RootResidue(n, k, sigZ);
    }
    RootResidue(n, k, sigZ);
    OrBitFits(k, rem != 0);
    sigZ := OrBit(sigZ, rem != 0);
  }

  lemma OrBitFits(k: u32, b: bool)
    ensures OrBit(k, b) < W32
  {
  }

  lemma SquareWord(z: u32)
    ensures MulLow64(z, z) == Squared(z)
  {
    MulUpper(z, z, W32 - 1, W32 - 1);
  }

  lemma SquareStep(n: int, z: int, rem: u64)
    requires rem == Wrap64(n - Squared(z))
    ensures Wrap64(rem + ((z - 1) * 2 + 1)) == Wrap64(n - Squared(z - 1))
  {
    assert (z - 1) * (z - 1) == z * z - ((z - 1) * 2 + 1);
    WrapAdd(n - z * z, (z - 1) * 2 + 1);
  }

  lemma WrapAdd(x: int, d: int)
    ensures Wrap64(Wrap64(x) + d) == Wrap64(x + d)
  {
  }

  /** The wrapped residue shows in its top bit whether z is above the integer root. */
  lemma RootResidue(n: nat, k: nat, z: u32)
    requires Squared(k) <= n < Squared(k + 1) && k <= z <= k + 4
    ensures TOP64 <= Wrap64(n - Squared(z)) <==> k < z
    ensures k == z ==> Wrap64(n - Squared(z)) == n - Squared(k)
  {
    assert z * z == k * k + (z - k) * (z + k);
    assert (k + 1) * (k + 1) == k * k + 2 * k + 1;
    MulUpper(z - k, z + k, 4, 2 * W32);
    if k < z { MulGe(z - k, 1, z + k); }
    WrapSmall(n - z * z);
  }

  lemma WrapSmall(e: int)
    requires -0x10_0000_0000 <= e < 0x10_0000_0000
    ensures Wrap64(e) == if e < 0 then e + W64 else e
  {
  }

  /** The root, corrected or not, stands where Root does among the rounding boundaries. */
  lemma CorrectedPlace(k: nat, inexact: bool, sigZ: u32)
    requires 0x8000_0000 <= k < W32 && sigZ == OrBit(k, inexact)
    ensures Normalised(BINARY32, 7, ShortShift32Right1Jam(sigZ))
    ensures HalfPosition(ShortShift32Right1Jam(sigZ), 0x40) == HalfPosition(2 * k + Bit(inexact), 0x100)
  {
    P2Values();
    hide P2;
    var j, r := k / 0x80, k % 0x80;
    InCell(2 * k + Bit(inexact), 0x100, j, 2 * r + Bit(inexact));
    LowBitsAlone(j, r, inexact);
    var r' := OrBit(r, inexact);
    hide OrBit;
    LowBitsHalved(j, r');
    hide ShortShift32Right1Jam;
    InCell(ShortShift32Right1Jam(sigZ), 0x40, j, ShortShift32Right1Jam(r'));
  }

  lemma LowBitsAlone(j: nat, r: nat, b: bool)
    requires r < 0x80
    ensures OrBit(j * 0x80 + r, b) == j * 0x80 + OrBit(r, b) && OrBit(r, b) < 0x80
    ensures OrBit(r, b) != 0 <==> 2 * r + Bit(b) != 0
  {
    DivModUnique(j * 0x80, 2, j * 0x40, 0);
    OrBitEven(j * 0x80, r, b);
  }

  lemma LowBitsHalved(j: nat, r: nat)
    requires r < 0x80 && j * 0x80 + r < W32
    ensures ShortShift32Right1Jam(j * 0x80 + r) == j * 0x40 + ShortShift32Right1Jam(r)
    ensures ShortShift32Right1Jam(r) < 0x40 && (ShortShift32Right1Jam(r) != 0 <==> r != 0)
  {
    DivModUnique(j * 0x80 + r, 2, j * 0x40 + r / 2, r % 2);
    DivModUnique(j * 0x40, 2, j * 0x20, 0);
    OrBitEven(j * 0x40, r / 2, r % 2 == 1);
  }

  lemma UncorrectedPlace(k: nat, inexact: bool, sigZ: u32)
    requires 0x8000_0000 <= k && sigZ - 4 <= k <= sigZ - 2 && sigZ % 0x80 > 5
    ensures Normalised(BINARY32, 7, ShortShift32Right1Jam(sigZ))
    ensures HalfPosition(ShortShift32Right1Jam(sigZ), 0x40) == HalfPosition(2 * k + Bit(inexact), 0x100)
  {
    P2Values();
    hide P2;
    var j, r := sigZ / 0x80, sigZ % 0x80;
    InCell(2 * k + Bit(inexact), 0x100, j, 2 * k + Bit(inexact) - j * 0x100);
    LowBitsHalved(j, r);
    hide ShortShift32Right1Jam;
    InCell(ShortShift32Right1Jam(sigZ), 0x40, j, ShortShift32Right1Jam(r));
  }

  lemma InCell(s: nat, g: nat, j: nat, r: int)
    requires g > 0 && s == j * g + r && 0 <= r < g
    ensures HalfPosition(s, g) == 2 * j + Bit(r != 0)
  {
    DivModUnique(s, g, j, r);
  }

  /** Lines 46 to 63 for a full significand m, with the radicand n and its integer root k. */
  method RootSignificand(expA: int, m: u32, ghost n: nat, ghost k: nat) returns (sigZ: u32)
    requires HIDDEN32 <= m < 2 * HIDDEN32
    requires n == Radicand(expA, m * 0x100) && k == ISqrt(n)
    ensures Normalised(BINARY32, 7, sigZ)
    ensures HalfPosition(sigZ, 0x40) == HalfPosition(2 * k + Bit(Squared(k) != n), 0x100)
  {
    RadicandRange(expA, m, n, k);
    ghost var a := if expA % 2 == 1 then (m * 0x100) / 2 else m * 0x100;
    assert n == a * W32;
    hide ISqrt, Normalised, HalfPosition, ShortShift32Right1Jam, Squared, Radicand, RootEstimate, Wrap32, Shl32;
    var sigA: u32 := Shl32(m, 8);
    sigZ := EstimateSqrt32(expA, sigA);
    EstimateRange(n, k, sigZ);
    sigZ := Wrap32(sigZ + 2);
    if sigZ % 0x80 <= 5 {
      // lines 50 to 53 are never taken: the estimate plus two does not wrap
      if sigZ < 2 {
        assert false;
      }
      if expA % 2 == 1 {
        sigA := sigA / 2;
      }
      assert sigA == a;
      sigZ := CorrectRoot(sigA, sigZ, k);
      CorrectedPlace(k, Squared(k) != n, sigZ);
    } else {
      UncorrectedPlace(k, Squared(k) != n, sigZ);
    }
    sigZ := ShortShift32Right1Jam(sigZ);
  }

  lemma RadicandRange(expA: int, m: u32, n: nat, k: nat)
    requires HIDDEN32 <= m < 2 * HIDDEN32
    requires n == Radicand(expA, m * 0x100) && Squared(k) <= n < Squared(k + 1)
    ensures Shl32(m, 8) == m * 0x100
    ensures 0x8000_0000 <= k < 0xFFFF_FF80
  {
    P2Values();
    IntSquares(0x7FFF_FFFF, k);
    IntSquares(k, 0x8000_0000);
    if k < 0x8000_0000 { IntSquares(k + 1, 0x8000_0001); }
    if k >= 0xFFFF_FF80 { IntSquares(0xFFFF_FF7F, k); }
  }

  lemma EstimateRange(n: nat, k: nat, z: int)
    requires RootEstimate(n, z) && Squared(k) <= n < Squared(k + 1) && k < 0xFFFF_FF80
    ensures z - 2 <= k <= z && Wrap32(z + 2) == z + 2
  {
    IntSquares(z - 2, k + 1);
    IntSquares(k, z + 1);
  }

  lemma SpecialRoot(mode: Mode, a: u32)
    ensures
      var special, zero := ExpOf32(a) == 0xFF, ExpOf32(a) == 0 && FracOf32(a) == 0;
      && (special && FracOf32(a) != 0 ==> SquareRoot(mode, a) == NaNResult32(a, 0))
      && (special && FracOf32(a) == 0 ==> SquareRoot(mode, a) == if SignOf32(a) then Outcome(NAN32, INVALID) else Outcome(a, NO_FLAGS))
      && (zero ==> SquareRoot(mode, a) == Outcome(a, NO_FLAGS))
      && (!special && !zero && SignOf32(a) ==> SquareRoot(mode, a) == Outcome(NAN32, INVALID))
  {
    Fields32(a);
    hide Round32, Root, AbsValue32;
  }

  lemma FiniteRoot(mode: Mode, a: u32)
    requires IsFinite32(a) && !SignOf32(a) && !(ExpOf32(a) == 0 && FracOf32(a) == 0)
    ensures AbsValue32(a) >= 0.0
    ensures SquareRoot(mode, a) == Round32(mode, false, Root(AbsValue32(a)))
  {
    Fields32(a);
    ZeroValue32(a);
    hide Round32, Root, AbsValue32;
  }

  lemma RadicandValue(a: u32, expA: int, m: nat)
    requires Unpacked32(a, expA, m)
    ensures 0 <= m * 0x100 < W32
    ensures AbsValue32(a) == Scale(Radicand(expA, m * 0x100) as real, 2 * ((expA - 0x7F) / 2 + 0x7E - 157))
  {
    hide AbsValue32, P2, Pow2, Radicand;
    var k := if expA % 2 == 1 then 39 else 40;
    RadicandWord(expA, m);
    ScaleNat(m, k);
    ScaleScale(m as real, k, expA - 150 - k);
    hide Scale;
    assert 2 * ((expA - 0x7F) / 2 + 0x7E - 157) == expA - 150 - k;
  }

  lemma RadicandWord(expA: int, m: nat)
    requires m < 2 * HIDDEN32
    ensures 0 <= m * 0x100 < W32
    ensures Radicand(expA, m * 0x100) == m * P2(if expA % 2 == 1 then 39 else 40)
  {
    assert P2(39) == 0x80_0000_0000 && P2(40) == 0x100_0000_0000 by {
      P2Values();
      P2Add(7, 32);
      P2Add(8, 32);
    }
    hide P2;
    DivModUnique(m * 0x100, 2, m * 0x80, 0);
    WordShifted(m);
  }

  lemma WordShifted(m: int)
    ensures (m * 0x80) * W32 == m * 0x80_0000_0000 && (m * 0x100) * W32 == m * 0x100_0000_0000
  {
  }

  method F32Sqrt(env: FpEnv, a: u32) returns (z: u32)
    modifies env`flags
    ensures z == SquareRoot(env.roundingMode, a).bits
    ensures env.flags == old(env.flags).Or(SquareRoot(env.roundingMode, a).flags)
  {
    hide P2, Pow2, Scale, Or, Round32, Root, AbsValue32, PackedAbs32, Normalised, Unpacked32, ISqrt, HalfPosition, Position, Ratio;
    hide SquareRoot, ExpOf32, FracOf32, SignOf32, NaNResult32, Radicand;
    var signA, expA, sigA := SignOf32(a), ExpOf32(a), FracOf32(a);
    SpecialRoot(env.roundingMode, a);
    if expA == 0xFF {
      if sigA != 0 {
        z := PropagateNaNF32UI(env, a, 0);
        return;
      }
      if !signA {
        z := a;
        return;
      }
      env.Raise(INVALID);
      z := NAN32;
      return;
    }
    if signA {
      if expA == 0 && sigA == 0 {
        z := a;
        return;
      }
      env.Raise(INVALID);
      z := NAN32;
      return;
    }
    if expA == 0 && sigA == 0 {
      z := a;
      return;
    }
    FiniteRoot(env.roundingMode, a);
    expA, sigA := UnpackNonzero32(a);
    var expZ := (expA - 0x7F) / 2 + 0x7E;
    SetHidden32(sigA);
    RadicandValue(a, expA, Or(sigA, HIDDEN32));
    ghost var n := Radicand(expA, Or(sigA, HIDDEN32) * 0x100);
    ghost var k := ISqrt(n);
    RootHalfUnits(AbsValue32(a), n, expZ - 157, k);
    var sigZ := RootSignificand(expA, Or(sigA, HIDDEN32), n, k);
    HalfPositionIs(sigZ, 0x40);
    PackedLike32(env.roundingMode, false, expZ, sigZ, Root(AbsValue32(a)));
    z := RoundPackToF32(env, false, expZ, sigZ);
  }
}
