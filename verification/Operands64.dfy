/** Taking binary64 operands apart: the hidden bit, subnormal operands, NaNs. */
module Operands64 {
  import opened Arith
  import opened Powers
  import opened Words
  import opened FpState
  import opened Binary64

  /** a is a nonzero finite number, m * 2^(exp - 1075) in magnitude with m a full significand. */
  ghost predicate Unpacked(a: u64, exp: int, m: nat) {
    && IsFinite(a)
    && HIDDEN64 <= m < 2 * HIDDEN64
    && -51 <= exp <= 0x7FE
    && AbsValue(a) == Scale(m as real, exp - 1075)
  }

  lemma {:induction false} OrPower(x: nat, k: nat)
    requires x < P2(k)
    ensures Or(x, P2(k)) == x + P2(k)
    ensures Or(x + P2(k), P2(k)) == x + P2(k)
  {
    if k > 0 {
      OrPower(x / 2, k - 1);
      assert (x + P2(k)) / 2 == x / 2 + P2(k - 1);
    } else {
      assert Or(1, 1) == 2 * Or(0, 0) + 1;
    }
  }

  /** sig | 2^52 is the full significand, whether or not the bit was there already. */
  lemma SetHidden(sig: u64)
    requires sig < 2 * HIDDEN64
    ensures Or(sig, HIDDEN64) == if sig < HIDDEN64 then sig + HIDDEN64 else sig
  {
    P2Values();
    OrPower(if sig < HIDDEN64 then sig else sig - HIDDEN64, 52);
  }

  method NormSubnormalF64Sig(sig: u64) returns (exp: int, z: u64)
    requires 0 < sig < HIDDEN64
    ensures -51 <= exp <= 0 && HIDDEN64 <= z < 2 * HIDDEN64
    ensures Scale(z as real, exp - 1075) == Scale(sig as real, -1074)
  {
    hide P2, Pow2, Scale, Shl64, IsLeadingZeros;
    var count := CountLeadingZeros64(sig);
    SubnormalShift(sig, count);
    var shiftCount: int := count - 11;
    exp := 1 - shiftCount;
    z := Shl64(sig, shiftCount);
  }

  lemma SubnormalShift(sig: u64, count: nat)
    requires 0 < sig < HIDDEN64 && IsLeadingZeros(sig, count, 64)
    ensures 12 <= count <= 63
    ensures HIDDEN64 <= Shl64(sig, count - 11) < 2 * HIDDEN64
    ensures Scale(Shl64(sig, count - 11) as real, 12 - count - 1075) == Scale(sig as real, -1074)
  {
    hide P2, Pow2, Scale;
    SubnormalCount(sig, count);
    assert P2(count) == P2(count - 11) * 0x800 && P2(63) == TOP64 && P2(64) == W64 by {
      P2Add(count - 11, 11);
      P2Values();
    }
    var z := sig * P2(count - 11);
    assert sig * P2(count) == z * 0x800 by { Reassociate(sig, P2(count - 11), 0x800); }
    assert HIDDEN64 <= z < 2 * HIDDEN64;
    assert Scale(z as real, 12 - count - 1075) == Scale(sig as real, -1074) by { ShiftedLeft(sig, count - 11, -1074); }
  }

  lemma SubnormalCount(sig: u64, count: nat)
    requires 0 < sig < HIDDEN64 && IsLeadingZeros(sig, count, 64)
    ensures 12 <= count <= 63
  {
    P2Values();
    if count < 12 { P2Mono(count, 11); }
    hide P2;
    if count < 12 { MulUpper(sig, P2(count), HIDDEN64 - 1, 0x800); }
  }

  /** Once normalised where need be, the exponent and fraction fields give the operand. */
  lemma UnpackedFields(a: u64, exp: int, sig: u64)
    requires IsFinite(a) && MagOf(a) != 0
    requires if ExpOf(a) != 0 then exp == ExpOf(a) && sig == FracOf(a)
             else -51 <= exp <= 0 && HIDDEN64 <= sig < 2 * HIDDEN64
                  && Scale(sig as real, exp - 1075) == Scale(FracOf(a) as real, -1074)
    ensures Unpacked(a, exp, Or(sig, HIDDEN64))
  {
    Fields(a);
    SetHidden(sig);
    if ExpOf(a) != 0 {
      DivModUnique(MagOf(a), HIDDEN64, ExpOf(a), FracOf(a));
    }
  }

  lemma ZeroValue(a: u64)
    requires IsFinite(a)
    ensures AbsValue(a) >= 0.0
    ensures AbsValue(a) == 0.0 <==> MagOf(a) == 0
    ensures MagOf(a) == 0 <==> ExpOf(a) == 0 && FracOf(a) == 0
  {
    Fields(a);
    var m := MagOf(a);
    if m < HIDDEN64 {
      ScaleLess(0.0, m as real, -1074);
    } else {
      ScaleLess(0.0, (HIDDEN64 + m % HIDDEN64) as real, m / HIDDEN64 - 1075);
    }
  }

  /** The exponent and significand of a nonzero finite operand; a subnormal one is normalised. */
  method UnpackNonzero(a: u64) returns (exp: int, sig: u64)
    requires IsFinite(a) && !(ExpOf(a) == 0 && FracOf(a) == 0)
    ensures Unpacked(a, exp, Or(sig, HIDDEN64)) && sig < 2 * HIDDEN64 && -51 <= exp <= 0x7FE
  {
    Fields(a);
    hide P2, Pow2, Scale, Or;
    exp, sig := ExpOf(a), FracOf(a);
    if exp == 0 {
      exp, sig := NormSubnormalF64Sig(sig);
    }
    UnpackedFields(a, exp, sig);
  }

  // ----- NaNs and other special operands -----

  predicate IsSigNaN(a: u64) {
    (a / 0x8_0000_0000_0000) % 0x1000 == 0xFFE && a % 0x8_0000_0000_0000 != 0
  }

  /** The bits tested are those of a NaN whose quiet bit, the top one of the fraction, is clear. */
  lemma SignalingNaN(a: u64)
    ensures IsSigNaN(a) <==> IsNaN(a) && FracOf(a) < 0x8_0000_0000_0000
  {
    var q, low := a / 0x8_0000_0000_0000, a % 0x8_0000_0000_0000;
    assert a == q * 0x8_0000_0000_0000 + low;
    assert a / HIDDEN64 == q / 2 && FracOf(a) == (q % 2) * 0x8_0000_0000_0000 + low;
  }

  /** The operand with its sign bit flipped. */
  function Opposite(a: u64): u64 {
    if a < 0x8000_0000_0000_0000 then a + 0x8000_0000_0000_0000 else a - 0x8000_0000_0000_0000
  }

  lemma OppositeFields(a: u64)
    ensures SignOf(Opposite(a)) == !SignOf(a) && MagOf(Opposite(a)) == MagOf(a)
    ensures ExpOf(Opposite(a)) == ExpOf(a) && FracOf(Opposite(a)) == FracOf(a)
    ensures IsSigNaN(Opposite(a)) == IsSigNaN(a)
    ensures Value(Opposite(a)) == -Value(a)
  {
    SignalingNaN(a);
    SignalingNaN(Opposite(a));
    OppositeDivides(a);
    hide IsSigNaN, MagValue;
  }

  /** Alike but for the sign. */
  ghost predicate SameKind(a: u64, b: u64) {
    && IsNaN(a) == IsNaN(b) && IsSigNaN(a) == IsSigNaN(b) && IsInfinite(a) == IsInfinite(b)
    && IsFinite(a) == IsFinite(b) && IsZero(a) == IsZero(b) && AbsValue(a) == AbsValue(b)
  }

  lemma SameKindAsItself(a: u64)
    ensures SameKind(a, a)
  {
  }

  lemma OppositeKind(a: u64)
    ensures SameKind(a, Opposite(a)) && SignOf(Opposite(a)) == !SignOf(a)
  {
    OppositeFields(a);
    hide Opposite, SignOf, ExpOf, FracOf, MagOf, IsSigNaN, MagValue;
  }

  lemma OppositeDivides(a: u64)
    ensures ExpOf(Opposite(a)) == ExpOf(a) && FracOf(Opposite(a)) == FracOf(a) && MagOf(Opposite(a)) == MagOf(a)
  {
    var q, f := a / HIDDEN64, a % HIDDEN64;
    assert a == q * HIDDEN64 + f && 0 <= q < 0x1000;
    var q' := if q < 0x800 then q + 0x800 else q - 0x800;
    assert Opposite(a) == q' * HIDDEN64 + f;
    DivModUnique(Opposite(a), HIDDEN64, q', f);
    if q < 0x800 {
      DivModUnique(q, 0x800, 0, q);
      DivModUnique(q', 0x800, 1, q);
    } else {
      DivModUnique(q, 0x800, 1, q');
      DivModUnique(q', 0x800, 0, q');
    }
    MagFromFields(a);
    MagFromFields(Opposite(a));
    hide MagOf, ExpOf, FracOf, Opposite;
  }

  lemma MagFromFields(a: u64)
    ensures MagOf(a) == ExpOf(a) * HIDDEN64 + FracOf(a)
  {
    Fields(a);
  }

  /** The NaN delivered: sign bit, exponent field and every fraction bit set. */
  lemma DefaultNaN()
    ensures SignOf(NAN64) && ExpOf(NAN64) == 0x7FF && FracOf(NAN64) == 0xF_FFFF_FFFF_FFFF
    ensures IsNaN(NAN64) && !IsSigNaN(NAN64)
  {
  }

  predicate IsInfinite(a: u64) { ExpOf(a) == 0x7FF && FracOf(a) == 0 }
  predicate IsZero(a: u64) { MagOf(a) == 0 }

  function SignBits(neg: bool): int { Bit(neg) * TOP64 }

  /** The NaN every binary64 operation delivers for a NaN operand. */
  function NaNResult(a: u64, b: u64): Outcome {
    Outcome(NAN64, RaisedWhen(IsSigNaN(a) || IsSigNaN(b), INVALID))
  }

  const INVALID_RESULT := Outcome(NAN64, INVALID)

  method PropagateNaNF64UI(env: FpEnv, uiA: u64, uiB: u64) returns (z: u64)
    modifies env`flags
    ensures z == NaNResult(uiA, uiB).bits
    ensures env.flags == old(env.flags).Or(NaNResult(uiA, uiB).flags)
  {
    if IsSigNaN(uiA) || IsSigNaN(uiB) {
      env.Raise(INVALID);
    }
    z := NAN64;
  }
}
