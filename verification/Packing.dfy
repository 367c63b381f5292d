/**
 * Why the integer work of the round-and-pack routines is the rounding of Rounding: a significand with k extra
 * low bits, at exponent e, holds the number sig * 2^(e + qmin - k).
 */
module Packing {
  import opened Powers
  import opened Sticky
  import opened Rounding

  /** The position of sig/g on the grid of half units. */
  function HalfPosition(sig: nat, g: nat): int
    requires g > 0
  {
    if sig % g == 0 then 2 * (sig / g) else 2 * (sig / g) + 1
  }

  lemma HalfPositionIs(sig: nat, g: nat)
    requires g > 0
    ensures Position(Ratio(sig, g)) == HalfPosition(sig, g)
  {
    RatioBounds(sig, g);
  }

  /** The amount added to a significand of granularity 2*half before its low bits are cut off. */
  function RoundIncrement(mode: Mode, neg: bool, half: nat): nat
    requires half > 0
  {
    if mode.NearEven? || mode.NearMaxMag? then half
    else if mode.MinMag? || mode == (if neg then Max else Min) then 0
    else 2 * half - 1
  }

  function ClearBit(sig: nat, clear: bool): (r: nat)
    ensures r <= sig
  {
    if clear && sig % 2 == 1 then sig - 1 else sig
  }

  /** Adding the increment, cutting, and clearing the last bit on a tie is rounding to integer. */
  lemma IncrementRounds64(mode: Mode, neg: bool, sig: nat)
    ensures
      ClearBit((sig + RoundIncrement(mode, neg, 0x200)) / 0x400, mode.NearEven? && sig % 0x400 == 0x200)
      == RoundPosition(mode, neg, HalfPosition(sig, 0x200))
    ensures HalfPosition(sig, 0x200) % 4 == 0 <==> sig % 0x400 == 0
  {
    hide HalfPosition, RoundPosition, Quarter, ClearBit;
    var n, r := sig / 0x400, sig % 0x400;
    assert sig == n * 0x400 + r;
    HalfSplit64(n, r);
    SumSplit64(n, r + RoundIncrement(mode, neg, 0x200));
    QuarterRounds(mode, neg, n, r, 0x200);
    hide RoundIncrement;
  }

  lemma IncrementRounds32(mode: Mode, neg: bool, sig: nat)
    ensures
      ClearBit((sig + RoundIncrement(mode, neg, 0x40)) / 0x80, mode.NearEven? && sig % 0x80 == 0x40)
      == RoundPosition(mode, neg, HalfPosition(sig, 0x40))
    ensures HalfPosition(sig, 0x40) % 4 == 0 <==> sig % 0x80 == 0
  {
    hide HalfPosition, RoundPosition, Quarter, ClearBit;
    var n, r := sig / 0x80, sig % 0x80;
    assert sig == n * 0x80 + r;
    HalfSplit32(n, r);
    SumSplit32(n, r + RoundIncrement(mode, neg, 0x40));
    QuarterRounds(mode, neg, n, r, 0x40);
    hide RoundIncrement;
  }

  lemma QuarterRounds(mode: Mode, neg: bool, n: nat, r: nat, half: nat)
    requires half == 0x200 || half == 0x40
    requires r < 2 * half
    ensures RoundPosition(mode, neg, 4 * n + Quarter(r, half))
            == ClearBit(n + (if r + RoundIncrement(mode, neg, half) < 2 * half then 0 else 1), mode.NearEven? && r == half)
    ensures (r + RoundIncrement(mode, neg, half)) / (2 * half)
            == if r + RoundIncrement(mode, neg, half) < 2 * half then 0 else 1
    ensures (4 * n + Quarter(r, half)) % 4 == 0 <==> r == 0
  {
    var c := Quarter(r, half);
    assert (4 * n + c) / 4 == n && (4 * n + c) % 4 == c;
    var t := r + RoundIncrement(mode, neg, half);
    assert t < 4 * half;
    if t >= 2 * half { assert t / (2 * half) == 1; }
  }

  /** The four places a number can take between two neighbouring whole units. */
  function Quarter(r: nat, half: nat): nat {
    if r == 0 then 0 else if r < half then 1 else if r == half then 2 else 3
  }

  lemma HalfSplit64(n: nat, r: nat)
    requires r < 0x400
    ensures HalfPosition(n * 0x400 + r, 0x200) == 4 * n + Quarter(r, 0x200)
  {
    var s := n * 0x400 + r;
    assert s / 0x200 == 2 * n + r / 0x200 && s % 0x200 == r % 0x200;
  }

  lemma SumSplit64(n: nat, t: nat)
    requires t < 0x800
    ensures (n * 0x400 + t) / 0x400 == n + t / 0x400
  {
  }

  lemma HalfSplit32(n: nat, r: nat)
    requires r < 0x80
    ensures HalfPosition(n * 0x80 + r, 0x40) == 4 * n + Quarter(r, 0x40)
  {
    var s := n * 0x80 + r;
    assert s / 0x40 == 2 * n + r / 0x40 && s % 0x40 == r % 0x40;
  }

  lemma SumSplit32(n: nat, t: nat)
    requires t < 0x100
    ensures (n * 0x80 + t) / 0x80 == n + t / 0x80
  {
  }

  ghost function PackedValue(f: Format, k: nat, e: int, sig: nat): real {
    Scale(sig as real, e + f.qmin - k)
  }

  /** sig is normalised: its top bit is the top bit of the field. */
  ghost predicate Normalised(f: Format, k: nat, sig: nat)
    requires f.prec >= 1
  {
    P2(f.prec - 1 + k) <= sig < P2(f.prec + k)
  }

  lemma PackedRange(f: Format, k: nat, e: int, sig: nat)
    requires f.prec >= 1 && Normalised(f, k, sig)
    ensures Pow2(e + f.qmin + f.prec - 1) <= PackedValue(f, k, e, sig) < Pow2(e + f.qmin + f.prec)
  {
    var s := e + f.qmin - k;
    PowerRatio(s, f.prec + k);
    PowerRatio(s, f.prec - 1 + k);
    assert s + (f.prec + k) == e + f.qmin + f.prec;
    assert s + (f.prec - 1 + k) == e + f.qmin + f.prec - 1;
    ScaleLess(sig as real, P2(f.prec + k) as real, s);
    ScaleLess(P2(f.prec - 1 + k) as real, sig as real, s);
  }

  /** The value in half units of quantum e + qmin. */
  lemma PackedHalfUnits(f: Format, k: nat, e: int, sig: nat, q: int)
    requires k >= 1 && q <= e + f.qmin
    ensures Scale(PackedValue(f, k, e, sig), 1 - q) == Scale(Ratio(sig, P2(k - 1)), e + f.qmin - q)
  {
    var s := e + f.qmin - k;
    ScaleScale(sig as real, s, 1 - q);
    RatioScale(sig, k - 1);
    ScaleScale(sig as real, 1 - k, e + f.qmin - q);
    assert s + (1 - q) == 1 - k + (e + f.qmin - q);
    assert -(k - 1) == 1 - k;
  }

  lemma PackedNormal(f: Format, k: nat, e: int, sig: nat, mode: Mode, neg: bool)
    requires f.prec >= 1 && k >= 1 && e >= 0
    requires Normalised(f, k, sig) || (sig == 0 && e == 0)
    ensures PackedValue(f, k, e, sig) >= 0.0
    ensures Quantum(f, PackedValue(f, k, e, sig)) == e + f.qmin
    ensures Significand(f, mode, neg, PackedValue(f, k, e, sig)) == RoundPosition(mode, neg, HalfPosition(sig, P2(k - 1)))
    ensures Representable(f, PackedValue(f, k, e, sig)) <==> HalfPosition(sig, P2(k - 1)) % 4 == 0
  {
    var x := PackedValue(f, k, e, sig);
    var q := e + f.qmin;
    if sig > 0 {
      PackedRange(f, k, e, sig);
    }
    assert IsQuantum(f, x, q);
    QuantumUnique(f, x, q);
    PackedHalfUnits(f, k, e, sig, q);
    assert Scale(Ratio(sig, P2(k - 1)), 0) == Ratio(sig, P2(k - 1));
    HalfPositionIs(sig, P2(k - 1));
    RoundedByHalves(f, mode, neg, x);
  }

  lemma PackedSubnormal(f: Format, k: nat, e: int, sig: nat, mode: Mode, neg: bool)
    requires f.prec >= 1 && k >= 2 && e < 0
    requires Normalised(f, k, sig) || sig == 0
    ensures 0.0 <= PackedValue(f, k, e, sig) < Pow2(f.qmin + f.prec - 1)
    ensures Quantum(f, PackedValue(f, k, e, sig)) == f.qmin
    ensures
      var jammed := Jam(sig, P2(-e));
      && Significand(f, mode, neg, PackedValue(f, k, e, sig)) == RoundPosition(mode, neg, HalfPosition(jammed, P2(k - 1)))
      && (Representable(f, PackedValue(f, k, e, sig)) <==> HalfPosition(jammed, P2(k - 1)) % 4 == 0)
  {
    var x := PackedValue(f, k, e, sig);
    if sig > 0 {
      PackedRange(f, k, e, sig);
      Pow2Mono(e + f.qmin + f.prec, f.qmin + f.prec - 1);
    }
    Pow2Mono(f.qmin + f.prec - 1, f.qmin + f.prec);
    assert IsQuantum(f, x, f.qmin);
    QuantumUnique(f, x, f.qmin);
    RoundedByHalves(f, mode, neg, x);
    JammedHalfUnits(f, k, e, sig);
  }

  lemma JammedHalfUnits(f: Format, k: nat, e: int, sig: nat)
    requires k >= 2 && e < 0
    ensures Position(Scale(PackedValue(f, k, e, sig), 1 - f.qmin)) == HalfPosition(Jam(sig, P2(-e)), P2(k - 1))
  {
    var g := P2(k - 1);
    assert g == 2 * P2(k - 2);
    ScaleScale(sig as real, e + f.qmin - k, 1 - f.qmin);
    ScaleScale(sig as real, e, 1 - k);
    RatioScale(sig, -e);
    ScaleIsDivision(Ratio(sig, P2(-e)), k - 1);
    hide P2, Pow2, Scale, Jam;
    JamPosition(sig, P2(-e), g);
    HalfPositionIs(Jam(sig, P2(-e)), g);
  }
}
