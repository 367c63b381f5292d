/** What the binary64 operations have to do with each other, with opposite operands, and with single encodings. */
module Laws64 {
  import opened Powers
  import opened Sticky
  import opened Words
  import opened Rounding
  import opened FpState
  import opened Packing
  import opened Binary64
  import opened RoundPack64
  import opened Operands64
  import Add64
  import Mul64
  import Div64
  import MulAdd64
  import Order64

  // ----- encodings and numbers -----

  /** One, minus two, the least and the greatest numbers, the zeros and the infinities. */
  lemma Landmarks()
    ensures Value(0x3FF0_0000_0000_0000) == 1.0 && Value(0xC000_0000_0000_0000) == -2.0
    ensures Value(0) == 0.0 && Value(0x8000_0000_0000_0000) == 0.0
    ensures Value(1) == Pow2(-1074) && Value(0x0010_0000_0000_0000) == Pow2(-1022)
    ensures Value(0x7FEF_FFFF_FFFF_FFFF) == Scale(0x1F_FFFF_FFFF_FFFF as real, 971)
    ensures IsFinite(0x7FEF_FFFF_FFFF_FFFF) && IsInfinite(0x7FF0_0000_0000_0000) && IsInfinite(0xFFF0_0000_0000_0000)
  {
    hide Pow2, P2, Scale, MagValue, ExpOf, FracOf;
    MagLandmarks();
    Infinities();
    Fields(0x7FEF_FFFF_FFFF_FFFF);
  }

  lemma MagLandmarks()
    ensures MagValue(0x3FF0_0000_0000_0000) == 1.0 && MagValue(0x4000_0000_0000_0000) == 2.0
    ensures MagValue(0) == 0.0 && MagValue(1) == Pow2(-1074) && MagValue(0x0010_0000_0000_0000) == Pow2(-1022)
    ensures MagValue(0x7FEF_FFFF_FFFF_FFFF) == Scale(0x1F_FFFF_FFFF_FFFF as real, 971)
  {
    assert P2(52) == HIDDEN64 by { P2Values(); }
    assert Pow2(0) == 1.0 && Pow2(1) == 2.0;
    hide Pow2, P2;
    PowerRatio(-52, 52);
    PowerRatio(-51, 52);
    PowerRatio(-1074, 52);
    assert Scale(0.0, -1074) == 0.0 && Scale(1.0, -1074) == Pow2(-1074);
    hide Scale;
  }

  // ----- the flags of one rounding -----

  /**
   * The flags of a rounded result x, one by one: overflow when the rounding with unbounded exponent reaches 2^1024,
   * inexact when the rounding, or overflow, changes the number, underflow when it is changed and below 2^-1022.
   */
  lemma RoundFlags(mode: Mode, neg: bool, x: real)
    requires x >= 0.0
    ensures
      var f, y := Round64(mode, neg, x).flags, Rounded(BINARY64, mode, neg, x);
      && (f.overflow <==> Pow2(1024) <= y)
      && (f.inexact <==> Pow2(1024) <= y || y != x)
      && (f.underflow <==> y < Pow2(1024) && y != x && x < Pow2(-1022))
      && !f.infinity && !f.invalid
  {
    RoundedMagBounds(mode, neg, x);
    TopOfRange();
    hide Pow2, MagValue, Significand, Quantum, Rounded;
    Order64.MagOrder(RoundedMag(mode, neg, x), INF64);
  }

  lemma TopOfRange()
    ensures MagValue(INF64) == Pow2(1024)
  {
    assert P2(52) == HIDDEN64 by { P2Values(); }
    PowerRatio(972, 52);
    hide Pow2, Scale;
  }

  /** A division of finite nonzero numbers raises what rounding the quotient raises, and nothing else. */
  lemma QuotientFlags(mode: Mode, a: u64, b: u64)
    requires IsFinite(a) && IsFinite(b) && !IsZero(a) && !IsZero(b)
    ensures AbsValue(b) > 0.0 && AbsValue(a) / AbsValue(b) >= 0.0
    ensures
      var f, x := Div64.Quotient(mode, a, b).flags, AbsValue(a) / AbsValue(b);
      var y := Rounded(BINARY64, mode, SignOf(a) != SignOf(b), x);
      && (f.overflow <==> Pow2(1024) <= y)
      && (f.inexact <==> Pow2(1024) <= y || y != x)
      && (f.underflow <==> y < Pow2(1024) && y != x && x < Pow2(-1022))
      && !f.infinity && !f.invalid
  {
    Div64.QuotientDefined(a, b);
    hide AbsValue, Pow2, Rounded, Round64, SignOf, ExpOf, FracOf, MagOf;
    RoundFlags(mode, SignOf(a) != SignOf(b), AbsValue(a) / AbsValue(b));
  }

  // ----- sums -----

  /** Subtracting is adding the opposite, whatever the operands. */
  lemma SubtractIsAddOpposite(mode: Mode, a: u64, b: u64)
    ensures Add64.Sum(mode, a, b, true) == Add64.Sum(mode, a, Opposite(b), false)
  {
    OppositeFields(b);
    OppositeKind(b);
    hide Opposite, SignOf, Value, IsSigNaN, IsNaN, IsInfinite, AbsValue, IsZero, IsFinite, Add64.RoundSigned;
  }

  lemma SumCommutes(mode: Mode, a: u64, b: u64)
    ensures Add64.Sum(mode, a, b, false) == Add64.Sum(mode, b, a, false)
  {
    hide SignOf, Value, IsSigNaN, IsNaN, IsInfinite, Add64.RoundSigned;
  }

  /** Infinity plus a number, infinity plus infinity, and infinity minus infinity. */
  lemma InfiniteSums(mode: Mode, a: u64)
    requires IsFinite(a)
    ensures Add64.Sum(mode, 0x7FF0_0000_0000_0000, a, false) == Outcome(0x7FF0_0000_0000_0000, NO_FLAGS)
    ensures Add64.Sum(mode, 0xFFF0_0000_0000_0000, a, false) == Outcome(0xFFF0_0000_0000_0000, NO_FLAGS)
    ensures Add64.Sum(mode, 0x7FF0_0000_0000_0000, 0x7FF0_0000_0000_0000, false) == Outcome(0x7FF0_0000_0000_0000, NO_FLAGS)
    ensures Add64.Sum(mode, 0x7FF0_0000_0000_0000, 0xFFF0_0000_0000_0000, false) == Outcome(0xFFFF_FFFF_FFFF_FFFF, INVALID)
  {
    Infinities();
    hide IsFinite, IsInfinite, IsNaN, SignOf, Value, Add64.RoundSigned, NaNResult;
  }

  lemma Infinities()
    ensures IsInfinite(0x7FF0_0000_0000_0000) && !IsNaN(0x7FF0_0000_0000_0000) && !SignOf(0x7FF0_0000_0000_0000)
    ensures IsInfinite(0xFFF0_0000_0000_0000) && !IsNaN(0xFFF0_0000_0000_0000) && SignOf(0xFFF0_0000_0000_0000)
    ensures forall a: u64 :: IsFinite(a) ==> !IsNaN(a) && !IsInfinite(a)
  {
  }

  // ----- products and quotients -----

  lemma ProductCommutes(mode: Mode, a: u64, b: u64)
    ensures Mul64.Product(mode, a, b) == Mul64.Product(mode, b, a)
  {
    hide SignOf, AbsValue, IsSigNaN, IsNaN, IsInfinite, IsZero, IsFinite, Round64;
    assert AbsValue(a) * AbsValue(b) == AbsValue(b) * AbsValue(a);
  }

  /** The mode that rounds -x as this one rounds x. */
  function Mirrored(mode: Mode): Mode {
    match mode
    case Min => Max
    case Max => Min
    case _ => mode
  }

  /** The same outcome with the sign bit flipped. */
  ghost predicate Opposites(x: Outcome, y: Outcome) {
    0 <= x.bits < W64 && y.bits == Opposite(x.bits) && x.flags == y.flags
  }

  lemma RoundOpposite(mode: Mode, neg: bool, x: real)
    requires x >= 0.0
    ensures Opposites(Round64(mode, neg, x), Round64(Mirrored(mode), !neg, x))
  {
    assert Significand(BINARY64, mode, neg, x) == Significand(BINARY64, Mirrored(mode), !neg, x);
    Order64.DeliveredBits(mode, neg, x);
    Order64.DeliveredBits(Mirrored(mode), !neg, x);
    hide Significand, Quantum, Scale, Pow2, Encode;
  }

  /** A product with one operand negated is the opposite one, when rounded the other way; so is a quotient. */
  lemma NegatedOperand(mode: Mode, a: u64, b: u64)
    requires !IsNaN(a) && !IsNaN(b)
    ensures
      var p, p' := Mul64.Product(mode, a, b), Mul64.Product(Mirrored(mode), Opposite(a), b);
      Opposites(p, p') || (p == p' == Outcome(NAN64, INVALID))
    ensures
      var q, q' := Div64.Quotient(mode, a, b), Div64.Quotient(Mirrored(mode), Opposite(a), b);
      Opposites(q, q') || (q == q' == Outcome(NAN64, INVALID))
  {
    OppositeKind(a);
    Kinds(a, b);
    NegatedProduct(mode, a, b);
    NegatedQuotient(mode, a, b);
    hide Mul64.Product, Div64.Quotient, Opposites, Opposite;
  }

  lemma Kinds(a: u64, b: u64)
    ensures IsFinite(a) || IsInfinite(a) || IsNaN(a)
    ensures IsFinite(b) || IsInfinite(b) || IsNaN(b)
  {
  }

  lemma SignedInfinity(neg: bool, f: Flags)
    ensures Opposites(Outcome(SignBits(neg) + INF64, f), Outcome(SignBits(!neg) + INF64, f))
    ensures Opposites(Outcome(SignBits(neg), f), Outcome(SignBits(!neg), f))
  {
  }

  lemma NegatedProduct(mode: Mode, a: u64, b: u64)
    requires !IsNaN(a) && !IsNaN(b)
    ensures
      var p, p' := Mul64.Product(mode, a, b), Mul64.Product(Mirrored(mode), Opposite(a), b);
      Opposites(p, p') || (p == p' == Outcome(NAN64, INVALID))
  {
    hide Opposite, Opposites, SignOf, AbsValue, IsSigNaN, IsNaN, IsInfinite, IsZero, IsFinite, Round64, SignBits;
    OppositeKind(a);
    Kinds(a, b);
    var neg := SignOf(a) != SignOf(b);
    SignedInfinity(neg, NO_FLAGS);
    if IsFinite(a) && IsFinite(b) { NegatedFinite(mode, a, b); }
  }

  lemma NegatedFinite(mode: Mode, a: u64, b: u64)
    requires IsFinite(a) && IsFinite(b)
    ensures Opposites(Mul64.Product(mode, a, b), Mul64.Product(Mirrored(mode), Opposite(a), b))
  {
    hide Opposite, Opposites, SignOf, AbsValue, IsFinite, Round64, Mul64.Product;
    OppositeKind(a);
    Mul64.FiniteProduct(mode, a, b);
    Mul64.FiniteProduct(Mirrored(mode), Opposite(a), b);
    SameFactor(AbsValue(a), AbsValue(Opposite(a)), AbsValue(b));
    hide SameKind;
    RoundOpposite(mode, SignOf(a) != SignOf(b), AbsValue(a) * AbsValue(b));
  }

  lemma SameFactor(x: real, x': real, y: real)
    requires x == x'
    ensures x * y == x' * y
  {
  }

  lemma NegatedQuotient(mode: Mode, a: u64, b: u64)
    requires !IsNaN(a) && !IsNaN(b)
    ensures
      var q, q' := Div64.Quotient(mode, a, b), Div64.Quotient(Mirrored(mode), Opposite(a), b);
      Opposites(q, q') || (q == q' == Outcome(NAN64, INVALID))
  {
    OppositeKind(a);
    Kinds(a, b);
    var neg := SignOf(a) != SignOf(b);
    SignedInfinity(neg, NO_FLAGS);
    SignedInfinity(neg, INFINITY);
    if IsFinite(a) && IsFinite(b) && !IsZero(b) {
      Div64.QuotientDefined(a, b);
      RoundOpposite(mode, neg, AbsValue(a) / AbsValue(b));
    }
    hide Opposite, Opposites, SignOf, AbsValue, IsSigNaN, IsNaN, IsInfinite, IsZero, IsFinite, Round64, SignBits;
  }

  /** One is neutral, for every operand that is no NaN. */
  lemma OneIsNeutral(mode: Mode, a: u64)
    requires !IsNaN(a)
    ensures Mul64.Product(mode, a, 0x3FF0_0000_0000_0000) == Outcome(a, NO_FLAGS)
    ensures Div64.Quotient(mode, a, 0x3FF0_0000_0000_0000) == Outcome(a, NO_FLAGS)
  {
    MulAdd64.OneValue();
    Fields(a);
    Kinds(a, a);
    if IsFinite(a) {
      ExactMag(mode, SignOf(a), MagOf(a));
      AbsIsMag(a);
    }
    assert IsInfinite(a) ==> a == SignBits(SignOf(a)) + INF64;
    assert IsFinite(a) ==> a == SignBits(SignOf(a)) + MagOf(a);
    hide SignOf, MagOf, ExpOf, FracOf, AbsValue, MagValue, IsSigNaN, Round64;
  }

  /** Zero times infinity, zero over zero, infinity over infinity; a number over zero, over infinity. */
  lemma SpecialProducts(mode: Mode, a: u64)
    requires IsFinite(a) && !IsZero(a)
    ensures Mul64.Product(mode, 0, 0x7FF0_0000_0000_0000) == Outcome(0xFFFF_FFFF_FFFF_FFFF, INVALID)
    ensures Div64.Quotient(mode, 0, 0) == Outcome(0xFFFF_FFFF_FFFF_FFFF, INVALID)
    ensures Div64.Quotient(mode, 0x7FF0_0000_0000_0000, 0x7FF0_0000_0000_0000) == Outcome(0xFFFF_FFFF_FFFF_FFFF, INVALID)
    ensures Div64.Quotient(mode, a, 0) == Outcome(if SignOf(a) then 0xFFF0_0000_0000_0000 else 0x7FF0_0000_0000_0000, INFINITY)
    ensures Div64.Quotient(mode, a, 0x7FF0_0000_0000_0000) == Outcome(if SignOf(a) then 0x8000_0000_0000_0000 else 0, NO_FLAGS)
    ensures Mul64.Product(mode, a, 0x7FF0_0000_0000_0000)
            == Outcome(if SignOf(a) then 0xFFF0_0000_0000_0000 else 0x7FF0_0000_0000_0000, NO_FLAGS)
  {
    Infinities();
    assert IsZero(0) && IsFinite(0) && !IsNaN(0) && !IsInfinite(0) && !SignOf(0) && !IsZero(0x7FF0_0000_0000_0000);
    hide IsFinite, IsInfinite, IsNaN, IsZero, SignOf, AbsValue, Round64, NaNResult;
  }
}
