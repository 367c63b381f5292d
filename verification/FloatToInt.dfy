/** f64_to_i32, f64_to_ui32, f64_to_i64, f64_to_ui64, each in its general and its truncating form. */
module FloatToInt {
  import opened Arith
  import opened Powers
  import opened Sticky
  import opened Words
  import opened Rounding
  import opened FpState
  import opened Packing
  import opened Binary64
  import opened Operands64

  // ----- what is asked for -----

  /** An integer type: its range, and what an invalid negative operand delivers. */
  datatype Target = Target(lo: int, hi: int, below: int)

  const I32 := Target(-0x8000_0000, 0x7FFF_FFFF, -0x8000_0000)
  const UI32 := Target(0, 0xFFFF_FFFF, 0xFFFF_FFFF)
  const I64 := Target(-0x8000_0000_0000_0000, 0x7FFF_FFFF_FFFF_FFFF, -0x8000_0000_0000_0000)
  const UI64 := Target(0, 0xFFFF_FFFF_FFFF_FFFF, 0xFFFF_FFFF_FFFF_FFFF)

  function Invalid(t: Target, neg: bool): Outcome {
    Outcome(if neg then t.below else t.hi, INVALID)
  }

  /** The magnitude n with its sign, when the type has it. */
  function Converted(t: Target, neg: bool, n: int, inexact: bool): Outcome {
    var v := if neg then -n else n;
    if t.lo <= v <= t.hi then Outcome(v, RaisedWhen(inexact, INEXACT)) else Invalid(t, neg)
  }

  /** The magnitude of a finite operand rounded to an integer. */
  ghost function RoundedInt(mode: Mode, a: u64): int {
    RoundAt(mode, SignOf(a), AbsValue(a))
  }

  /** Conversion to an integer: IEEE 754 sections 5.8 and 7.2. */
  ghost function ToInt(t: Target, mode: Mode, exact: bool, a: u64): Outcome {
    if !IsFinite(a) then Invalid(t, SignOf(a))
    else Converted(t, SignOf(a), RoundedInt(mode, a), exact && !IsWhole(AbsValue(a)))
  }

  /** The truncating forms treat every NaN as positive. */
  ghost function ToIntMinMag(t: Target, exact: bool, a: u64): Outcome {
    if IsNaN(a) then Invalid(t, false) else ToInt(t, MinMag, exact, a)
  }

  // ----- where the operand lies among the half integers -----

  function SigOf(a: u64): u64 {
    FracOf(a) + if ExpOf(a) != 0 then HIDDEN64 else 0
  }

  /** sig | 2^52. */
  function WithHidden(frac: u64): (m: u64)
    requires frac < HIDDEN64
    ensures m == frac + HIDDEN64
  {
    SetHidden(frac);
    Or(frac, HIDDEN64)
  }

  lemma SigBounds(a: u64)
    ensures SigOf(a) < 2 * HIDDEN64
    ensures ExpOf(a) != 0 ==> HIDDEN64 <= SigOf(a) == FracOf(a) + HIDDEN64
    ensures ExpOf(a) == 0 ==> SigOf(a) == FracOf(a) < HIDDEN64
  {
  }

  /** n half integers and a position between them, from a significand with s fraction bits. */
  function PlaceOf(m: nat, s: nat): int
    requires s > 0
  {
    HalfPosition(m, P2(s - 1))
  }

  lemma SigValue(a: u64)
    requires IsFinite(a) && ExpOf(a) != 0
    ensures AbsValue(a) == Scale(SigOf(a) as real, ExpOf(a) - 1075)
  {
    Fields(a);
    DivModUnique(MagOf(a), HIDDEN64, ExpOf(a), FracOf(a));
  }

  /** Twice the operand lies at the place of its significand. */
  lemma OperandPlace(a: u64)
    requires ExpOf(a) < 0x433
    ensures Position(2.0 * AbsValue(a)) == PlaceOf(SigOf(a), 0x433 - ExpOf(a))
  {
    var s := 0x433 - ExpOf(a);
    if ExpOf(a) != 0 {
      SigValue(a);
      hide AbsValue, Pow2, P2;
      ScaleHalf(SigOf(a) as real, 0 - s);
      RatioScale(SigOf(a), s - 1);
      hide Scale;
      HalfPositionIs(SigOf(a), P2(s - 1));
    } else {
      TinyPlace(a);
    }
  }

  lemma TinyPlace(a: u64)
    requires ExpOf(a) == 0
    ensures Position(2.0 * AbsValue(a)) == PlaceOf(SigOf(a), 0x433)
  {
    hide P2, Pow2, Scale, AbsValue, Position;
    Fields(a);
    ZeroValue(a);
    TinyValue(a);
    assert HIDDEN64 <= P2(0x432) by {
      P2Mono(52, 0x432);
      P2Values();
    }
    SmallPlace(SigOf(a), P2(0x432));
    PositionGap(2.0 * AbsValue(a), 0);
  }

  lemma TinyValue(a: u64)
    requires ExpOf(a) == 0
    ensures AbsValue(a) < 0.5
  {
    Fields(a);
    assert P2(52) == HIDDEN64 by { P2Values(); }
    assert Pow2(-1) == 0.5;
    hide P2, Pow2, Scale;
    Pow2Mono(-1022, -1);
    PowerRatio(-1074, 52);
    ScaleLess(MagOf(a) as real, HIDDEN64 as real, -1074);
  }

  lemma SmallPlace(m: nat, g: nat)
    requires m < g
    ensures HalfPosition(m, g) == Bit(m != 0)
  {
    DivModUnique(m, g, 0, m);
  }

  lemma RoundedPlace(mode: Mode, a: u64)
    requires ExpOf(a) < 0x433
    ensures RoundedInt(mode, a) == RoundPosition(mode, SignOf(a), PlaceOf(SigOf(a), 0x433 - ExpOf(a)))
    ensures IsWhole(AbsValue(a)) <==> PlaceOf(SigOf(a), 0x433 - ExpOf(a)) % 4 == 0
  {
    OperandPlace(a);
    RoundAtPosition(mode, SignOf(a), AbsValue(a));
    hide AbsValue, RoundAt, RoundPosition, Position, PlaceOf;
  }

  /** An operand with no fraction bits. */
  lemma WholeOperand(mode: Mode, a: u64)
    requires 0x433 <= ExpOf(a) < 0x7FF
    ensures RoundedInt(mode, a) == SigOf(a) * P2(ExpOf(a) - 0x433)
    ensures AbsValue(a) == RoundedInt(mode, a) as real && IsWhole(AbsValue(a))
    ensures HIDDEN64 * P2(ExpOf(a) - 0x433) <= RoundedInt(mode, a)
  {
    SigValue(a);
    ScaleNat(SigOf(a), ExpOf(a) - 0x433);
    hide AbsValue, P2, Pow2;
    MulGe(SigOf(a), HIDDEN64, P2(ExpOf(a) - 0x433));
    WholeRound(mode, SignOf(a), SigOf(a) * P2(ExpOf(a) - 0x433));
  }

  /** The place of a significand, by its integer part and what is cut off. */
  lemma PlaceParts(m: nat, s: nat)
    requires s > 0
    ensures PlaceOf(m, s) == 4 * Quo(m, P2(s)) + Quarter(m % P2(s), P2(s - 1))
    ensures PlaceOf(m, s) % 4 == 0 <==> !Cut(m, P2(s))
    ensures PlaceOf(m, s) / 4 == Quo(m, P2(s))
  {
    P2Succ(s - 1);
    var p := P2(s - 1);
    hide P2;
    var v, r := m / (2 * p), m % (2 * p);
    assert m == v * (2 * p) + r;
    assert v * (2 * p) == (2 * v) * p;
    if r < p {
      DivModUnique(m, p, 2 * v, r);
    } else {
      assert m == (2 * v + 1) * p + (r - p);
      DivModUnique(m, p, 2 * v + 1, r - p);
    }
  }

  // ----- 32-bit targets: seven fraction bits, jammed -----

  function Signed32(x: u32): int { if x >= 0x8000_0000 then x - W32 else x }

  lemma CutLimit(mode: Mode, neg: bool, sig: nat)
    ensures
      var n := RoundPosition(mode, neg, HalfPosition(sig, 0x40));
      var inc := RoundIncrement(mode, neg, 0x40);
      && (sig + inc >= 0x80_0000_0000 ==> n >= W32)
      && (sig + inc < 0x80_0000_0000 ==> n == ClearBit((sig + inc) / 0x80, mode.NearEven? && sig % 0x80 == 0x40) < W32)
      && (HalfPosition(sig, 0x40) % 4 == 0 <==> sig % 0x80 == 0)
  {
    IncrementRounds32(mode, neg, sig);
    hide RoundPosition, HalfPosition, RoundIncrement;
    assert W32 % 2 == 0;
  }

  /** Lines 18 to 30 of both 32-bit routines. */
  function Increment32(mode: Mode, neg: bool): (inc: nat)
    ensures inc == RoundIncrement(mode, neg, 0x40)
  {
    if mode != NearEven && mode != NearMaxMag then
      if mode == MinMag || mode == (if neg then Max else Min) then 0 else 0x7F
    else 0x40
  }

  /** A magnitude and a sign as a signed word: the sign comes out wrong exactly when the number is out of range. */
  lemma TwosComplement32(sign: bool, n: u32, inexact: bool)
    ensures
      var z := Signed32(if sign then Wrap32(0 - n) else n);
      if z != 0 && (z < 0) != sign then Converted(I32, sign, n, inexact) == Invalid(I32, sign)
      else Converted(I32, sign, n, inexact) == Outcome(z, RaisedWhen(inexact, INEXACT))
  {
    assert Wrap32(0 - n) == (if n == 0 then 0 else W32 - n) by {
      if n > 0 { DivModUnique(0 - n, W32, -1, W32 - n); }
    }
    hide Wrap32, RaisedWhen;
  }

  lemma TooBig32(sign: bool, n: int, inexact: bool)
    requires W32 <= n
    ensures Converted(I32, sign, n, inexact) == Invalid(I32, sign)
  {
  }

  method RoundPackToI32(env: FpEnv, sign: bool, sig: u64, mode: Mode, exact: bool) returns (z: int)
    requires sig < TOP64
    modifies env`flags
    ensures
      var hp := HalfPosition(sig, 0x40);
      var out := Converted(I32, sign, RoundPosition(mode, sign, hp), exact && hp % 4 != 0);
      z == out.bits && env.flags == old(env.flags).Or(out.flags)
  {
    hide RoundPosition, HalfPosition, RoundIncrement, ClearBit, Converted, Signed32, Wrap32;
    CutLimit(mode, sign, sig);
    var roundIncrement := Increment32(mode, sign);
    var roundBits := sig % 0x80;
    var total := sig + roundIncrement;
    if 0x80_0000_0000 <= total {
      TooBig32(sign, RoundPosition(mode, sign, HalfPosition(sig, 0x40)), exact && roundBits != 0);
      env.Raise(INVALID);
      z := if sign then -0x8000_0000 else 0x7FFF_FFFF;
      return;
    }
    var sig32: u32 := ClearBit(total / 0x80, roundBits == 0x40 && mode == NearEven);
    TwosComplement32(sign, sig32, exact && roundBits != 0);
    z := Signed32(if sign then Wrap32(0 - sig32) else sig32);
    if z != 0 && (z < 0) != sign {
      env.Raise(INVALID);
      z := if sign then -0x8000_0000 else 0x7FFF_FFFF;
      return;
    }
    if exact && roundBits != 0 {
      env.Raise(INEXACT);
    }
  }

  method RoundPackToUI32(env: FpEnv, sign: bool, sig: u64, mode: Mode, exact: bool) returns (z: u32)
    requires sig < TOP64
    modifies env`flags
    ensures
      var hp := HalfPosition(sig, 0x40);
      var out := Converted(UI32, sign, RoundPosition(mode, sign, hp), exact && hp % 4 != 0);
      z == out.bits && env.flags == old(env.flags).Or(out.flags)
  {
    hide RoundPosition, HalfPosition, RoundIncrement, ClearBit;
    CutLimit(mode, sign, sig);
    var roundIncrement := Increment32(mode, sign);
    var roundBits := sig % 0x80;
    var total := sig + roundIncrement;
    if 0x80_0000_0000 <= total {
      env.Raise(INVALID);
      z := 0xFFFF_FFFF;
      return;
    }
    z := ClearBit(total / 0x80, roundBits == 0x40 && mode == NearEven);
    if sign && z != 0 {
      env.Raise(INVALID);
      z := 0xFFFF_FFFF;
      return;
    }
    if exact && roundBits != 0 {
      env.Raise(INEXACT);
    }
  }

  /** The significand with seven fraction bits left; an operand of 2^45 or more keeps all its bits. */
  function Shifted32(a: u64): (sig: nat)
    ensures sig < 2 * HIDDEN64
  {
    var shiftCount := 0x42C - ExpOf(a);
    SigBounds(a);
    if 0 < shiftCount then
      ShiftedBound(SigOf(a), shiftCount);
      Shift64RightJam(SigOf(a), shiftCount)
    else SigOf(a)
  }

  lemma ShiftedBound(m: u64, s: nat)
    requires s > 0 && m < 2 * HIDDEN64
    ensures Shift64RightJam(m, s) < 2 * HIDDEN64
  {
    Shift64RightJamIsJam(m, s);
    P2Succ(s - 1);
    hide P2;
    DivBound(m, P2(s));
    DivBelow(m, P2(s), HIDDEN64);
  }

  /** For every target of at most 32 bits the shifted significand converts as the operand does. */
  lemma Shifted32Converts(t: Target, mode: Mode, exact: bool, a: u64)
    requires t == I32 || t == UI32
    ensures
      var hp := HalfPosition(Shifted32(a), 0x40);
      ToInt(t, mode, exact, a) == Converted(t, SignOf(a), RoundPosition(mode, SignOf(a), hp), exact && hp % 4 != 0)
  {
    if ExpOf(a) <= 0x42C {
      JammedFits(mode, a);
    } else {
      LargeShifted32(mode, a);
    }
    hide RoundedInt, AbsValue, IsWhole, RoundPosition, HalfPosition, Shifted32;
  }

  lemma JammedFits(mode: Mode, a: u64)
    requires ExpOf(a) <= 0x42C
    ensures RoundedInt(mode, a) == RoundPosition(mode, SignOf(a), HalfPosition(Shifted32(a), 0x40))
    ensures IsWhole(AbsValue(a)) <==> HalfPosition(Shifted32(a), 0x40) % 4 == 0
  {
    SigBounds(a);
    RoundedPlace(mode, a);
    if ExpOf(a) < 0x42C {
      JammedPlace(SigOf(a), 0x433 - ExpOf(a));
    } else {
      assert P2(6) == 0x40 by { P2Values(); }
    }
    hide RoundedInt, AbsValue, IsWhole, RoundPosition, HalfPosition, Shift64RightJam, SigOf, P2;
  }

  /** From 2^46 up both the operand and its significand are out of range. */
  lemma LargeShifted32(mode: Mode, a: u64)
    requires 0x42C < ExpOf(a)
    ensures Shifted32(a) == SigOf(a)
    ensures RoundPosition(mode, SignOf(a), HalfPosition(Shifted32(a), 0x40)) >= W32
    ensures IsFinite(a) ==> RoundedInt(mode, a) >= W32
  {
    SigBounds(a);
    CutLimit(mode, SignOf(a), SigOf(a));
    if ExpOf(a) < 0x433 {
      RoundedPlace(mode, a);
      LargePlace(mode, SignOf(a), SigOf(a), 0x433 - ExpOf(a));
    } else if ExpOf(a) < 0x7FF {
      WholeOperand(mode, a);
      P2Positive(ExpOf(a) - 0x433);
    }
    hide RoundedInt, AbsValue, IsWhole, RoundPosition, HalfPosition, PlaceOf, P2;
  }

  lemma P2Positive(k: nat)
    ensures HIDDEN64 <= HIDDEN64 * P2(k)
  {
    MulGe(P2(k), 1, HIDDEN64);
  }

  lemma LargePlace(mode: Mode, neg: bool, m: nat, s: nat)
    requires HIDDEN64 <= m && 0 < s < 7
    ensures RoundPosition(mode, neg, PlaceOf(m, s)) >= W32
  {
    ShiftedLarge(m, s);
    PlaceParts(m, s);
    hide P2, PlaceOf, Quo;
  }

  lemma JammedPlace(m: u64, s: nat)
    requires s > 7
    ensures HalfPosition(Shift64RightJam(m, s - 7), 0x40) == PlaceOf(m, s)
  {
    Shift64RightJamIsJam(m, s - 7);
    assert P2(s - 1) == P2(s - 7) * 0x40 by {
      P2Values();
      P2Add(s - 7, 6);
    }
    hide P2, Jam, HalfPosition, Shift64RightJam;
    FinerPlace(m, P2(s - 7), P2(s - 1));
  }

  lemma FinerPlace(m: nat, d: nat, c: nat)
    requires d > 0 && c == d * 0x40
    ensures HalfPosition(Jam(m, d), 0x40) == HalfPosition(m, c)
  {
    hide Jam, HalfPosition, Position;
    JamPosition(m, d, 0x40);
    assert Ratio(m, d) / 0x40 as real == Ratio(m, c) by {
      DivideTwice(m as real, d as real, 0x40 as real);
      RealProduct(d, 0x40);
    }
    HalfPositionIs(Jam(m, d), 0x40);
    HalfPositionIs(m, c);
  }

  method F64ToI32(env: FpEnv, a: u64, mode: Mode, exact: bool) returns (z: int)
    modifies env`flags
    ensures z == ToInt(I32, mode, exact, a).bits
    ensures env.flags == old(env.flags).Or(ToInt(I32, mode, exact, a).flags)
  {
    hide ToInt, HalfPosition, RoundPosition;
    Shifted32Converts(I32, mode, exact, a);
    z := RoundPackToI32(env, SignOf(a), Shifted32(a), mode, exact);
  }

  method F64ToUI32(env: FpEnv, a: u64, mode: Mode, exact: bool) returns (z: u32)
    modifies env`flags
    ensures z == ToInt(UI32, mode, exact, a).bits
    ensures env.flags == old(env.flags).Or(ToInt(UI32, mode, exact, a).flags)
  {
    hide ToInt, HalfPosition, RoundPosition;
    Shifted32Converts(UI32, mode, exact, a);
    z := RoundPackToUI32(env, SignOf(a), Shifted32(a), mode, exact);
  }

  // ----- 64-bit targets: the fraction in a second word -----

  /** A word and the bits shifted out of it, the first of them on top. */
  datatype Extra = Extra(v: u64, extra: u64)

  function Shift64ExtraRightJam(a: u64, extra: u64, count: nat): Extra
    requires count > 0
  {
    if count < 64 then
      ExtraFits(Shl64(a, 64 - count), extra != 0);
      Extra(Shr(a, count), OrBit(Shl64(a, 64 - count), extra != 0))
    else
      ExtraFits(a, extra != 0);
      Extra(0, OrBit(if count == 64 then a else Bit(a != 0), extra != 0))
  }

  lemma ExtraFits(x: u64, b: bool)
    ensures OrBit(x, b) < W64
  {
  }

  lemma ExtraPlace(m: u64, s: nat)
    requires s > 0 && m < TOP64
    ensures
      var z := Shift64ExtraRightJam(m, 0, s);
      PlaceOf(m, s) == 4 * z.v + Quarter(z.extra, TOP64)
  {
    PlaceParts(m, s);
    hide PlaceOf;
    if s < 64 {
      LowBits64(m, s);
      P2Succ(s - 1);
      P2Add(s - 1, 64 - s);
      P2Values();
      hide P2;
      var r, p, c := m % P2(s), P2(s - 1), P2(64 - s);
      assert p * c == TOP64;
      QuarterScaled(r, p, c);
    } else {
      P2Values();
      P2Mono(64, s);
      P2Mono(63, s - 1);
      hide P2;
      DivModUnique(m, P2(s), 0, m);
    }
  }

  lemma QuarterScaled(r: nat, p: nat, c: nat)
    requires p > 0 && c > 0
    ensures Quarter(r * c, p * c) == Quarter(r, p)
  {
    if r < p { MulGe(p, r + 1, c); }
    if r > p { MulGe(r, p + 1, c); }
    if r > 0 { MulGe(r, 1, c); }
  }

  /** Lines 21 to 37 of both 64-bit routines: the rounded word, or none when it wraps. */
  method RoundWord(sign: bool, sig64: u64, sig0: u64, mode: Mode) returns (wrapped: bool, z: u64)
    ensures
      var n := RoundPosition(mode, sign, 4 * sig64 + Quarter(sig0, TOP64));
      (wrapped <==> n == W64) && (!wrapped ==> z == n)
    ensures (4 * sig64 + Quarter(sig0, TOP64)) % 4 == 0 <==> sig0 == 0
  {
    wrapped, z := false, sig64;
    var roundNearestEven := mode == NearEven;
    var increment := TOP64 <= sig0;
    if !roundNearestEven && mode != NearMaxMag {
      increment := mode != MinMag && mode == (if sign then Min else Max) && sig0 != 0;
    }
    QuarterPlace(sig64, sig0);
    if increment {
      z := Wrap64(z + 1);
      if z == 0 {
        wrapped := true;
        return;
      }
      z := ClearBit(z, sig0 % TOP64 == 0 && roundNearestEven);
    }
  }

  lemma QuarterPlace(v: u64, x: u64)
    ensures (4 * v + Quarter(x, TOP64)) / 4 == v && (4 * v + Quarter(x, TOP64)) % 4 == Quarter(x, TOP64)
  {
  }

  /** Unary minus of an unsigned word. */
  function Neg64(x: int): u64 { Wrap64(0 - x) }

  function Signed64(x: u64): int { if x >= TOP64 then x - W64 else x }

  /** A magnitude and a sign as a signed word: the sign comes out wrong exactly when the number is out of range. */
  lemma TwosComplement64(sign: bool, n: u64, inexact: bool)
    ensures
      var z := Signed64(if sign then Neg64(n) else n);
      if z != 0 && (z < 0) != sign then Converted(I64, sign, n, inexact) == Invalid(I64, sign)
      else Converted(I64, sign, n, inexact) == Outcome(z, RaisedWhen(inexact, INEXACT))
  {
    assert Neg64(n) == (if n == 0 then 0 else W64 - n) by {
      if n > 0 { DivModUnique(0 - n, W64, -1, W64 - n); }
    }
    hide Neg64, RaisedWhen;
  }

  lemma TooBig64(sign: bool, n: int, inexact: bool)
    requires W64 <= n
    ensures Converted(I64, sign, n, inexact) == Invalid(I64, sign)
  {
  }

  method RoundPackToI64(env: FpEnv, sign: bool, sig64: u64, sig0: u64, mode: Mode, exact: bool) returns (z: int)
    modifies env`flags
    ensures
      var hp := 4 * sig64 + Quarter(sig0, TOP64);
      var out := Converted(I64, sign, RoundPosition(mode, sign, hp), exact && hp % 4 != 0);
      z == out.bits && env.flags == old(env.flags).Or(out.flags)
  {
    hide RoundPosition, Quarter, Signed64, Neg64, Converted;
    var wrapped, rounded := RoundWord(sign, sig64, sig0, mode);
    TwosComplement64(sign, rounded, exact && sig0 != 0);
    TooBig64(sign, W64, exact && sig0 != 0);
    if !wrapped {
      z := Signed64(if sign then Neg64(rounded) else rounded);
      if !(z != 0 && (z < 0) != sign) {
        if exact && sig0 != 0 {
          env.Raise(INEXACT);
        }
        return;
      }
    }
    env.Raise(INVALID);
    z := if sign then -0x8000_0000_0000_0000 else 0x7FFF_FFFF_FFFF_FFFF;
  }

  method RoundPackToUI64(env: FpEnv, sign: bool, sig64: u64, sig0: u64, mode: Mode, exact: bool) returns (z: u64)
    modifies env`flags
    ensures
      var hp := 4 * sig64 + Quarter(sig0, TOP64);
      var out := Converted(UI64, sign, RoundPosition(mode, sign, hp), exact && hp % 4 != 0);
      z == out.bits && env.flags == old(env.flags).Or(out.flags)
  {
    hide RoundPosition, Quarter;
    var wrapped, rounded := RoundWord(sign, sig64, sig0, mode);
    if !wrapped && !(sign && rounded != 0) {
      if exact && sig0 != 0 {
        env.Raise(INEXACT);
      }
      z := rounded;
      return;
    }
    env.Raise(INVALID);
    z := 0xFFFF_FFFF_FFFF_FFFF;
  }

  /** The significand split at the binary point, for an operand below 2^64. */
  function Split64(a: u64): Extra
    requires ExpOf(a) <= 0x43E
  {
    var shiftCount: int := 0x433 - ExpOf(a);
    if shiftCount <= 0 then Extra(Shl64(SigOf(a), 0 - shiftCount), 0)
    else Shift64ExtraRightJam(SigOf(a), 0, shiftCount)
  }

  lemma Split64Converts(t: Target, mode: Mode, exact: bool, a: u64)
    requires t == I64 || t == UI64
    ensures ExpOf(a) > 0x43E ==> ToInt(t, mode, exact, a) == Invalid(t, SignOf(a))
    ensures
      ExpOf(a) <= 0x43E ==>
        var hp := 4 * Split64(a).v + Quarter(Split64(a).extra, TOP64);
        ToInt(t, mode, exact, a) == Converted(t, SignOf(a), RoundPosition(mode, SignOf(a), hp), exact && hp % 4 != 0)
  {
    if ExpOf(a) < 0x433 {
      FractionSplit(t, mode, exact, a);
    } else if ExpOf(a) <= 0x43E {
      WholeSplit(t, mode, exact, a);
    } else {
      BeyondWord(t, mode, exact, a);
    }
    hide ToInt, Converted, Split64, Quarter, RoundPosition, ExpOf;
  }

  lemma FractionSplit(t: Target, mode: Mode, exact: bool, a: u64)
    requires ExpOf(a) < 0x433
    ensures
      var hp := 4 * Split64(a).v + Quarter(Split64(a).extra, TOP64);
      ToInt(t, mode, exact, a) == Converted(t, SignOf(a), RoundPosition(mode, SignOf(a), hp), exact && hp % 4 != 0)
  {
    hide RoundedInt, AbsValue, IsWhole, RoundPosition, PlaceOf, Quarter, Shift64ExtraRightJam, SigOf, Converted;
    SigBounds(a);
    RoundedPlace(mode, a);
    ExtraPlace(SigOf(a), 0x433 - ExpOf(a));
  }

  lemma WholeSplit(t: Target, mode: Mode, exact: bool, a: u64)
    requires 0x433 <= ExpOf(a) <= 0x43E
    ensures
      var hp := 4 * Split64(a).v + Quarter(Split64(a).extra, TOP64);
      ToInt(t, mode, exact, a) == Converted(t, SignOf(a), RoundPosition(mode, SignOf(a), hp), exact && hp % 4 != 0)
  {
    SigBounds(a);
    WholeOperand(mode, a);
    WholeWord(SigOf(a), ExpOf(a) - 0x433);
    hide RoundedInt, AbsValue, IsWhole, SigOf, Converted, Shl64, P2;
    WholePosition(mode, SignOf(a), Split64(a).v);
    hide RoundPosition, Quarter;
  }

  lemma BeyondWord(t: Target, mode: Mode, exact: bool, a: u64)
    requires (t == I64 || t == UI64) && 0x43E < ExpOf(a)
    ensures ToInt(t, mode, exact, a) == Invalid(t, SignOf(a))
  {
    if IsFinite(a) {
      WholeOperand(mode, a);
      LargePower(ExpOf(a) - 0x433);
    }
    hide RoundedInt, AbsValue, IsWhole, P2;
  }

  lemma LargePower(k: nat)
    requires 12 <= k
    ensures W64 <= HIDDEN64 * P2(k)
  {
    P2Values();
    P2Mono(12, k);
    P2Add(1, 11);
    hide P2;
    MulGe(P2(k), 0x1000, HIDDEN64);
  }

  lemma WholeWord(m: u64, k: nat)
    requires m < 2 * HIDDEN64 && k <= 11
    ensures Shl64(m, k) == m * P2(k)
  {
    P2Mono(k, 11);
    P2Values();
    hide P2;
    MulUpper(m, P2(k), 2 * HIDDEN64 - 1, 0x800);
    WrapSame(m * P2(k));
  }

  lemma WholePosition(mode: Mode, neg: bool, n: int)
    ensures RoundPosition(mode, neg, 4 * n) == n && (4 * n) % 4 == 0
    ensures Quarter(0, TOP64) == 0
  {
  }

  method F64ToI64(env: FpEnv, a: u64, mode: Mode, exact: bool) returns (z: int)
    modifies env`flags
    ensures z == ToInt(I64, mode, exact, a).bits
    ensures env.flags == old(env.flags).Or(ToInt(I64, mode, exact, a).flags)
  {
    hide ToInt, Quarter, RoundPosition;
    Split64Converts(I64, mode, exact, a);
    if 0x43E < ExpOf(a) {
      env.Raise(INVALID);
      z := if !SignOf(a) then 0x7FFF_FFFF_FFFF_FFFF else -0x8000_0000_0000_0000;
      return;
    }
    z := RoundPackToI64(env, SignOf(a), Split64(a).v, Split64(a).extra, mode, exact);
  }

  method F64ToUI64(env: FpEnv, a: u64, mode: Mode, exact: bool) returns (z: u64)
    modifies env`flags
    ensures z == ToInt(UI64, mode, exact, a).bits
    ensures env.flags == old(env.flags).Or(ToInt(UI64, mode, exact, a).flags)
  {
    hide ToInt, Quarter, RoundPosition;
    Split64Converts(UI64, mode, exact, a);
    if 0x43E < ExpOf(a) {
      env.Raise(INVALID);
      z := 0xFFFF_FFFF_FFFF_FFFF;
      return;
    }
    z := RoundPackToUI64(env, SignOf(a), Split64(a).v, Split64(a).extra, mode, exact);
  }

  // ----- the truncating forms -----

  /** Below 2^53 truncation is a right shift. */
  lemma Truncated(a: u64)
    requires ExpOf(a) < 0x433
    ensures RoundedInt(MinMag, a) == Shr(SigOf(a), 0x433 - ExpOf(a))
    ensures IsWhole(AbsValue(a)) <==> !Cut(SigOf(a), P2(0x433 - ExpOf(a)))
  {
    RoundedPlace(MinMag, a);
    PlaceParts(SigOf(a), 0x433 - ExpOf(a));
    hide RoundedInt, AbsValue, IsWhole, PlaceOf, P2;
  }

  /** Below 1 nothing is left, and everything but zero is inexact. */
  lemma BelowOne(t: Target, exact: bool, a: u64)
    requires ExpOf(a) < 0x3FF && t.lo <= 0 <= t.hi
    ensures ToIntMinMag(t, exact, a) == Outcome(0, RaisedWhen(exact && !(ExpOf(a) == 0 && FracOf(a) == 0), INEXACT))
  {
    Truncated(a);
    SigBounds(a);
    NothingLeft(SigOf(a), 0x433 - ExpOf(a));
    hide P2, Shr, Cut, SigOf, RoundedInt, AbsValue, IsWhole, WithHidden;
  }

  lemma NothingLeft(m: nat, s: nat)
    requires m < 2 * HIDDEN64 && 53 <= s
    ensures Shr(m, s) == 0 && (Cut(m, P2(s)) <==> m != 0)
  {
    P2Values();
    P2Mono(53, s);
    hide P2;
    DivModUnique(m, P2(s), 0, m);
  }

  /** From 1 to 2^53: the shifted significand, put back, tells whether anything was cut off. */
  lemma ShiftAndBack(t: Target, exact: bool, a: u64)
    requires 0x3FF <= ExpOf(a) < 0x433
    ensures
      var s, m := 0x433 - ExpOf(a), WithHidden(FracOf(a));
      var n := Shr(m, s);
      && 1 <= n && (ExpOf(a) <= 0x41E ==> n < W32)
      && n < 2 * HIDDEN64
      && ToIntMinMag(t, exact, a) == Converted(t, SignOf(a), n, exact && Cut(m, P2(s)))
      && (Shl64(n, s) != m <==> Cut(m, P2(s)))
      && (Shl64(m, 64 - s) != 0 <==> Cut(m, P2(s)))
  {
    hide RoundedInt, AbsValue, IsWhole, WithHidden, Shl64, P2, Quo, Cut;
    var s := 0x433 - ExpOf(a);
    Truncated(a);
    SigBounds(a);
    var m := SigOf(a);
    assert m == WithHidden(FracOf(a)) && HIDDEN64 <= m < 2 * HIDDEN64;
    hide SigOf;
    LowBits64(m, s);
    ShiftRange(m, s);
  }

  lemma ShiftRange(m: u64, s: nat)
    requires HIDDEN64 <= m < 2 * HIDDEN64 && 1 <= s <= 52
    ensures
      var n := Shr(m, s);
      && 1 <= n <= m && (21 <= s ==> n < W32)
      && (Shl64(n, s) != m <==> Cut(m, P2(s)))
  {
    P2Values();
    P2Mono(s, 52);
    if 21 <= s { P2Mono(21, s); P2Add(10, 11); }
    hide P2;
    QuotientRange(m, P2(s));
    DivBound(m, P2(s));
    hide Quo;
    BackAgain(m, Shr(m, s), P2(s), s);
  }

  lemma QuotientRange(m: nat, p: nat)
    requires 0 < p <= m < 2 * HIDDEN64
    ensures 1 <= Quo(m, p) && (0x20_0000 <= p ==> Quo(m, p) < W32)
  {
    var n := m / p;
    assert m == n * p + m % p;
    if n < 1 { MulGe(0, n, p); }
    if 0x20_0000 <= p && n >= W32 { MulUpper(W32, 0x20_0000, n, p); }
  }

  lemma BackAgain(m: u64, n: nat, p: nat, s: nat)
    requires p == P2(s) && n == Quo(m, p)
    ensures n * P2(s) <= m
    ensures Wrap64(n * P2(s)) != m <==> Cut(m, p)
  {
    assert m == n * p + m % p;
    LowRange(m, p);
    WrapSame(n * p);
  }

  /** From 2^53 up the operand is its own truncation. */
  lemma LargeTruncated(t: Target, exact: bool, a: u64)
    requires 0x433 <= ExpOf(a) <= 0x43E
    ensures
      var m := Shl64(WithHidden(FracOf(a)), ExpOf(a) - 0x433);
      && m == WithHidden(FracOf(a)) * P2(ExpOf(a) - 0x433)
      && HIDDEN64 <= m && (ExpOf(a) < 0x43E ==> m < TOP64)
      && ToIntMinMag(t, exact, a) == Converted(t, SignOf(a), m, false)
  {
    WholeOperand(MinMag, a);
    SigBounds(a);
    WholeWord(SigOf(a), ExpOf(a) - 0x433);
    P2Positive(ExpOf(a) - 0x433);
    hide RoundedInt, AbsValue, IsWhole, WithHidden;
    if ExpOf(a) < 0x43E {
      P2Mono(ExpOf(a) - 0x433, 10);
      P2Values();
      hide P2, Shl64;
      MulUpper(SigOf(a), P2(ExpOf(a) - 0x433), 2 * HIDDEN64 - 1, 0x400);
    }
  }

  /** Operands beyond every type, infinities and NaNs. */
  lemma TooLarge(t: Target, exact: bool, a: u64)
    requires t == I32 || t == UI32 || t == I64 || t == UI64
    ensures 0x41E < ExpOf(a) && (t == I32 || t == UI32) ==> ToIntMinMag(t, exact, a) == Invalid(t, SignOf(a) && !IsNaN(a))
    ensures 0x43E < ExpOf(a) ==> ToIntMinMag(t, exact, a) == Invalid(t, SignOf(a) && !IsNaN(a))
  {
    if 0x41E < ExpOf(a) < 0x7FF {
      SigBounds(a);
      if ExpOf(a) < 0x433 {
        Truncated(a);
        ShiftedLarge(SigOf(a), 0x433 - ExpOf(a));
      } else {
        WholeOperand(MinMag, a);
        P2Values();
        P2Positive(ExpOf(a) - 0x433);
        if 0x43E < ExpOf(a) {
          P2Mono(12, ExpOf(a) - 0x433);
          P2Add(1, 11);
          hide P2;
          MulGe(P2(ExpOf(a) - 0x433), 0x1000, HIDDEN64);
        }
      }
    }
    hide RoundedInt, AbsValue, IsWhole, P2, Shr, Cut, WithHidden;
  }

  lemma ShiftedLarge(m: nat, s: nat)
    requires HIDDEN64 <= m && 1 <= s <= 20
    ensures Quo(m, P2(s)) >= W32
  {
    P2Mono(s, 20);
    P2Add(9, 11);
    P2Values();
    hide P2;
    LargeQuotient(m, P2(s));
  }

  lemma LargeQuotient(m: nat, p: nat)
    requires HIDDEN64 <= m && 0 < p <= 0x10_0000
    ensures Quo(m, p) >= W32
  {
    var n := m / p;
    assert m == n * p + m % p;
    if n < W32 { MulUpper(n + 1, p, W32, 0x10_0000); }
  }

  method F64ToI32RMinMag(env: FpEnv, a: u64, exact: bool) returns (z: int)
    modifies env`flags
    ensures z == ToIntMinMag(I32, exact, a).bits
    ensures env.flags == old(env.flags).Or(ToIntMinMag(I32, exact, a).flags)
  {
    hide ToIntMinMag, ExpOf, FracOf, SignOf, Shl64, Shr, Cut, WithHidden;
    var exp, sig := ExpOf(a), FracOf(a);
    if exp < 0x3FF {
      BelowOne(I32, exact, a);
      if exact && !(exp == 0 && sig == 0) {
        env.Raise(INEXACT);
      }
      z := 0;
      return;
    }
    var sign := SignOf(a);
    if 0x41E < exp {
      TooLarge(I32, exact, a);
      if exp == 0x7FF && sig != 0 {
        sign := false;
      }
      env.Raise(INVALID);
      z := if sign then -0x8000_0000 else 0x7FFF_FFFF;
      return;
    }
    ShiftAndBack(I32, exact, a);
    sig := WithHidden(sig);
    var shiftCount := 0x433 - exp;
    var absZ: u32 := Shr(sig, shiftCount);
    z := Signed32(if sign then Wrap32(0 - absZ) else absZ);
    if (z < 0) != sign {
      env.Raise(INVALID);
      z := if sign then -0x8000_0000 else 0x7FFF_FFFF;
      return;
    }
    if exact && Shl64(absZ, shiftCount) != sig {
      env.Raise(INEXACT);
    }
  }

  method F64ToUI32RMinMag(env: FpEnv, a: u64, exact: bool) returns (z: u32)
    modifies env`flags
    ensures z == ToIntMinMag(UI32, exact, a).bits
    ensures env.flags == old(env.flags).Or(ToIntMinMag(UI32, exact, a).flags)
  {
    hide ToIntMinMag, ExpOf, FracOf, SignOf, Shl64, Shr, Cut, WithHidden;
    var exp, sig := ExpOf(a), FracOf(a);
    if exp < 0x3FF {
      BelowOne(UI32, exact, a);
      if exact && !(exp == 0 && sig == 0) {
        env.Raise(INEXACT);
      }
      z := 0;
      return;
    }
    TooLarge(UI32, exact, a);
    if exp <= 0x41E {
      ShiftAndBack(UI32, exact, a);
    }
    if SignOf(a) || 0x41E < exp {
      env.Raise(INVALID);
      z := 0xFFFF_FFFF;
      return;
    }
    sig := WithHidden(sig);
    var shiftCount := 0x433 - exp;
    z := Shr(sig, shiftCount);
    if exact && Shl64(z, shiftCount) != sig {
      env.Raise(INEXACT);
    }
  }

  method F64ToI64RMinMag(env: FpEnv, a: u64, exact: bool) returns (z: int)
    modifies env`flags
    ensures z == ToIntMinMag(I64, exact, a).bits
    ensures env.flags == old(env.flags).Or(ToIntMinMag(I64, exact, a).flags)
  {
    hide ToIntMinMag, ExpOf, FracOf, SignOf, Shl64, Shr, Cut, WithHidden, Pack;
    var sign, exp, sig := SignOf(a), ExpOf(a), FracOf(a);
    var shiftCount := exp - 0x433;
    var absZ: u64;
    if 0 <= shiftCount {
      if 0x43E <= exp {
        LeastI64(exact, a);
        if a != Pack(true, 0x43E, 0) {
          env.Raise(INVALID);
          if !sign || (exp == 0x7FF && sig != 0) {
            z := 0x7FFF_FFFF_FFFF_FFFF;
            return;
          }
        }
        z := -0x8000_0000_0000_0000;
        return;
      }
      LargeTruncated(I64, exact, a);
      sig := WithHidden(sig);
      absZ := Shl64(sig, shiftCount);
    } else {
      if exp < 0x3FF {
        BelowOne(I64, exact, a);
        if exact && !(exp == 0 && sig == 0) {
          env.Raise(INEXACT);
        }
        z := 0;
        return;
      }
      ShiftAndBack(I64, exact, a);
      sig := WithHidden(sig);
      absZ := Shr(sig, -shiftCount);
      if exact && Shl64(sig, 64 + shiftCount) != 0 {
        env.Raise(INEXACT);
      }
    }
    z := if sign then 0 - absZ else absZ;
  }

  /** Of the operands from 2^63 up only -2^63 is in range. */
  lemma LeastI64(exact: bool, a: u64)
    requires 0x43E <= ExpOf(a)
    ensures ToIntMinMag(I64, exact, a)
            == if a == Pack(true, 0x43E, 0) then Outcome(-0x8000_0000_0000_0000, NO_FLAGS)
               else Invalid(I64, SignOf(a) && !IsNaN(a))
  {
    hide ToIntMinMag, Shl64, P2, WithHidden;
    LeastEncoding(a);
    hide Pack, SignOf, FracOf;
    if ExpOf(a) == 0x43E {
      hide ExpOf;
      LargeTruncated(I64, exact, a);
      assert P2(11) == 0x800 by { P2Values(); }
      OnlyLeast(SignOf(a), FracOf(a));
    } else {
      TooLarge(I64, exact, a);
    }
  }

  lemma LeastEncoding(a: u64)
    ensures a == Pack(true, 0x43E, 0) <==> SignOf(a) && ExpOf(a) == 0x43E && FracOf(a) == 0
    ensures ExpOf(a) == 0x43E ==> !IsNaN(a)
  {
    Fields(a);
  }

  lemma OnlyLeast(neg: bool, frac: u64)
    requires frac < HIDDEN64
    ensures Converted(I64, neg, WithHidden(frac) * 0x800, false)
            == if neg && frac == 0 then Outcome(-0x8000_0000_0000_0000, NO_FLAGS) else Invalid(I64, neg)
  {
  }

  method F64ToUI64RMinMag(env: FpEnv, a: u64, exact: bool) returns (z: u64)
    modifies env`flags
    ensures z == ToIntMinMag(UI64, exact, a).bits
    ensures env.flags == old(env.flags).Or(ToIntMinMag(UI64, exact, a).flags)
  {
    hide ToIntMinMag, ExpOf, FracOf, SignOf, Shl64, Shr, Cut, WithHidden;
    var exp, sig := ExpOf(a), FracOf(a);
    if exp < 0x3FF {
      BelowOne(UI64, exact, a);
      if exact && !(exp == 0 && sig == 0) {
        env.Raise(INEXACT);
      }
      z := 0;
      return;
    }
    var shiftCount := exp - 0x433;
    TooLarge(UI64, exact, a);
    if 0 <= shiftCount && exp <= 0x43E { LargeTruncated(UI64, exact, a); }
    if shiftCount < 0 { ShiftAndBack(UI64, exact, a); }
    if SignOf(a) || 0x43E < exp {
      env.Raise(INVALID);
      z := 0xFFFF_FFFF_FFFF_FFFF;
      return;
    }
    if 0 <= shiftCount {
      z := Shl64(WithHidden(sig), shiftCount);
    } else {
      sig := WithHidden(sig);
      z := Shr(sig, -shiftCount);
      if exact && Shl64(sig, 64 + shiftCount) != 0 {
        env.Raise(INEXACT);
      }
    }
  }

  // ----- the two forms side by side -----

  /** Truncating and general form run on one operand: they part exactly on a NaN with the sign bit set. */
  method BothI32(env: FpEnv, env': FpEnv, a: u64, exact: bool) returns (fast: int, slow: int)
    requires env != env' && env.flags == env'.flags
    modifies env`flags, env'`flags
    ensures fast == slow && env.flags == env'.flags <==> !(IsNaN(a) && SignOf(a))
  {
    hide RoundedInt, AbsValue, IsWhole, ExpOf, FracOf, SignOf;
    fast := F64ToI32RMinMag(env, a, exact);
    slow := F64ToI32(env', a, MinMag, exact);
  }

  /** Truncating and general form run on one operand: they part exactly on a NaN with the sign bit set. */
  method BothI64(env: FpEnv, env': FpEnv, a: u64, exact: bool) returns (fast: int, slow: int)
    requires env != env' && env.flags == env'.flags
    modifies env`flags, env'`flags
    ensures fast == slow && env.flags == env'.flags <==> !(IsNaN(a) && SignOf(a))
  {
    hide RoundedInt, AbsValue, IsWhole, ExpOf, FracOf, SignOf;
    fast := F64ToI64RMinMag(env, a, exact);
    slow := F64ToI64(env', a, MinMag, exact);
  }

  /** For the unsigned types they never part. */
  method BothUI32(env: FpEnv, env': FpEnv, a: u64, exact: bool) returns (fast: u32, slow: u32)
    requires env != env' && env.flags == env'.flags
    modifies env`flags, env'`flags
    ensures fast == slow && env.flags == env'.flags
  {
    hide RoundedInt, AbsValue, IsWhole, ExpOf, FracOf, SignOf;
    fast := F64ToUI32RMinMag(env, a, exact);
    slow := F64ToUI32(env', a, MinMag, exact);
  }

  /** For the unsigned types they never part. */
  method BothUI64(env: FpEnv, env': FpEnv, a: u64, exact: bool) returns (fast: u64, slow: u64)
    requires env != env' && env.flags == env'.flags
    modifies env`flags, env'`flags
    ensures fast == slow && env.flags == env'.flags
  {
    hide RoundedInt, AbsValue, IsWhole, ExpOf, FracOf, SignOf;
    fast := F64ToUI64RMinMag(env, a, exact);
    slow := F64ToUI64(env', a, MinMag, exact);
  }

  /** A NaN with the sign bit set: the general forms deliver the least integer, the truncating ones the greatest. */
  lemma NegativeNaN(exact: bool)
    ensures IsNaN(NAN64) && SignOf(NAN64)
    ensures ToInt(I32, MinMag, exact, NAN64) == Outcome(-0x8000_0000, INVALID)
    ensures ToIntMinMag(I32, exact, NAN64) == Outcome(0x7FFF_FFFF, INVALID)
    ensures ToInt(I64, MinMag, exact, NAN64) == Outcome(-0x8000_0000_0000_0000, INVALID)
    ensures ToIntMinMag(I64, exact, NAN64) == Outcome(0x7FFF_FFFF_FFFF_FFFF, INVALID)
  {
    assert IsNaN(NAN64) && SignOf(NAN64);
    hide IsNaN, SignOf, RoundedInt, AbsValue, IsWhole;
  }
}
