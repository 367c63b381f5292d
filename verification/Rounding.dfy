/**
 * Rounding a non-negative real number to a binary floating-point format (IEEE 754-2008, section 4.3):
 * the definition, and the laws that pin it down.  The sign of the number is passed separately.
 */
module Rounding {
  import opened Powers
  import opened Sticky

  datatype Mode = NearEven | MinMag | Min | Max | NearMaxMag

  /** prec bits of significand; no quantum (weight of the last bit) is smaller than 2^qmin. */
  datatype Format = Format(prec: nat, qmin: int)

  const BINARY64 := Format(53, -1074)
  const BINARY32 := Format(24, -149)

  // ----- rounding to an integer -----

  ghost function RoundAt(mode: Mode, neg: bool, u: real): int {
    var n := u.Floor;
    var f := u - n as real;
    match mode
    case NearEven => if f > 0.5 || (f == 0.5 && n % 2 == 1) then n + 1 else n
    case NearMaxMag => if f >= 0.5 then n + 1 else n
    case MinMag => n
    case Min => if neg && f > 0.0 then n + 1 else n
    case Max => if !neg && f > 0.0 then n + 1 else n
  }

  /** The same, from the position of the number on the grid of half units. */
  function RoundPosition(mode: Mode, neg: bool, s: int): int {
    var n, c := s / 4, s % 4;
    match mode
    case NearEven => if c == 3 || (c == 2 && n % 2 == 1) then n + 1 else n
    case NearMaxMag => if c >= 2 then n + 1 else n
    case MinMag => n
    case Min => if neg && c > 0 then n + 1 else n
    case Max => if !neg && c > 0 then n + 1 else n
  }

  lemma RoundAtPosition(mode: Mode, neg: bool, u: real)
    ensures RoundAt(mode, neg, u) == RoundPosition(mode, neg, Position(2.0 * u))
    ensures IsWhole(u) <==> Position(2.0 * u) % 4 == 0
  {
    var n := u.Floor;
    var f := u - n as real;
    PositionGap(2.0 * u, 2 * n);
    PositionGap(2.0 * u, 2 * n + 1);
  }

  lemma RoundAtMono(mode: Mode, neg: bool, u: real, v: real)
    requires u <= v
    ensures RoundAt(mode, neg, u) <= RoundAt(mode, neg, v)
  {
    if u.Floor < v.Floor {
      assert RoundAt(mode, neg, u) <= u.Floor + 1;
      assert v.Floor <= RoundAt(mode, neg, v);
    }
  }

  // ----- the quantum of a number in a format -----

  ghost predicate IsQuantum(f: Format, x: real, q: int) {
    && f.qmin <= q
    && x < Pow2(q + f.prec)
    && (f.qmin < q ==> Pow2(q + f.prec - 1) <= x)
  }

  /** The weight exponent of the last significand bit when x is written in format f. */
  ghost function Quantum(f: Format, x: real): (q: int)
    requires x >= 0.0
    ensures IsQuantum(f, x, q)
  {
    QuantumFrom(f, x, f.qmin)
  }

  ghost function QuantumFrom(f: Format, x: real, q: int): (r: int)
    requires x >= 0.0 && f.qmin <= q
    requires f.qmin < q ==> Pow2(q + f.prec - 1) <= x
    ensures IsQuantum(f, x, r)
    decreases Room(f, x, q)
  {
    if x < Pow2(q + f.prec) then q
    else
      RoomShrinks(f, x, q);
      assert q + 1 + f.prec - 1 == q + f.prec;
      QuantumFrom(f, x, q + 1)
  }

  ghost function Room(f: Format, x: real, q: int): nat
    requires f.qmin <= q
  {
    var room := Scale(x, -f.qmin).Floor + 1 - P2(q - f.qmin + f.prec);
    if room < 0 then 0 else room
  }

  lemma RoomShrinks(f: Format, x: real, q: int)
    requires f.qmin <= q && Pow2(q + f.prec) <= x
    ensures Room(f, x, q + 1) < Room(f, x, q)
  {
    var k := q - f.qmin + f.prec;
    assert k + 1 == q + 1 - f.qmin + f.prec;
    hide P2, Pow2;
    PowerUnits(q + f.prec, -f.qmin, k);
    ScaleLess(Pow2(q + f.prec), x, -f.qmin);
    P2Succ(k);
    hide Scale;
  }

  lemma QuantumUnique(f: Format, x: real, q: int)
    requires x >= 0.0 && IsQuantum(f, x, q)
    ensures Quantum(f, x) == q
  {
    var r := Quantum(f, x);
    hide Pow2, QuantumFrom, Quantum;
    if q < r { Pow2Mono(q + f.prec, r + f.prec - 1); }
    if r < q { Pow2Mono(r + f.prec, q + f.prec - 1); }
  }

  lemma QuantumMono(f: Format, x: real, y: real)
    requires 0.0 <= x <= y
    ensures Quantum(f, x) <= Quantum(f, y)
  {
    var q, r := Quantum(f, x), Quantum(f, y);
    hide Pow2, QuantumFrom, Quantum;
    if r < q { Pow2Mono(r + f.prec, q + f.prec - 1); }
  }

  // ----- rounding to a format with unbounded exponent -----

  /** The significand of x rounded to format f; its value is Scale(Significand, Quantum). */
  ghost function Significand(f: Format, mode: Mode, neg: bool, x: real): int
    requires x >= 0.0
  {
    RoundAt(mode, neg, Scale(x, -Quantum(f, x)))
  }

  ghost function Rounded(f: Format, mode: Mode, neg: bool, x: real): real
    requires x >= 0.0
  {
    Scale(Significand(f, mode, neg, x) as real, Quantum(f, x))
  }

  lemma SignificandBounds(f: Format, mode: Mode, neg: bool, x: real)
    requires x >= 0.0 && f.prec >= 1
    ensures 0 <= Significand(f, mode, neg, x) <= P2(f.prec)
    ensures Quantum(f, x) > f.qmin ==> P2(f.prec - 1) <= Significand(f, mode, neg, x)
  {
    var q := Quantum(f, x);
    hide Quantum, QuantumFrom;
    ScaleLess(x, Pow2(q + f.prec), -q);
    ScaleLess(0.0, x, -q);
    PowerRatio(q, f.prec);
    if q > f.qmin {
      ScaleLess(Pow2(q + f.prec - 1), x, -q);
      PowerRatio(q, f.prec - 1);
    }
    hide Pow2, P2;
    var u := Scale(x, -q);
    assert u.Floor <= RoundAt(mode, neg, u) <= u.Floor + 1;
  }

  lemma PowerRatio(q: int, k: nat)
    ensures Scale(Pow2(q + k), -q) == P2(k) as real
    ensures Scale(P2(k) as real, q) == Pow2(q + k)
  {
    PowerUnits(q + k, -q, k);
    hide Pow2, P2;
    Pow2Add(k, q);
    Pow2Nat(k);
    assert k + q == q + k;
  }

  /** Rounding is monotone. */
  lemma RoundedMono(f: Format, mode: Mode, neg: bool, x: real, y: real)
    requires 0.0 <= x <= y && f.prec >= 1
    ensures Rounded(f, mode, neg, x) <= Rounded(f, mode, neg, y)
  {
    var q, r := Quantum(f, x), Quantum(f, y);
    var m, n := Significand(f, mode, neg, x), Significand(f, mode, neg, y);
    QuantumMono(f, x, y);
    SignificandBounds(f, mode, neg, x);
    SignificandBounds(f, mode, neg, y);
    if q == r {
      ScaleLess(x, y, -q);
      RoundAtMono(mode, neg, Scale(x, -q), Scale(y, -q));
      ScaleLess(m as real, n as real, q);
    } else {
      ScaleLess(m as real, P2(f.prec) as real, q);
      PowerRatio(q, f.prec);
      Pow2Mono(q + f.prec, r + f.prec - 1);
      PowerRatio(r, f.prec - 1);
      ScaleLess(P2(f.prec - 1) as real, n as real, r);
    }
  }

  /** v is a value of format f (with unbounded exponent above). */
  ghost predicate Representable(f: Format, v: real) {
    exists n: nat, q: int :: IsValueOf(f, v, n, q)
  }

  ghost predicate IsValueOf(f: Format, v: real, n: nat, q: int) {
    n <= P2(f.prec) && f.qmin <= q && v == Scale(n as real, q)
  }

  lemma RoundedIsRepresentable(f: Format, mode: Mode, neg: bool, x: real)
    requires x >= 0.0 && f.prec >= 1
    ensures Representable(f, Rounded(f, mode, neg, x))
  {
    SignificandBounds(f, mode, neg, x);
    assert IsValueOf(f, Rounded(f, mode, neg, x), Significand(f, mode, neg, x), Quantum(f, x));
  }

  /** A number n*2^q is a whole number of units of any smaller or equal quantum. */
  lemma WholeUnits(n: nat, q: int, r: int)
    requires r <= q
    ensures Scale(Scale(n as real, q), -r) == (n * P2(q - r)) as real
  {
    ScaleScale(n as real, q, -r);
    ScaleNat(n, q - r);
  }

  lemma RepresentableQuantum(f: Format, v: real, n: nat, q: int)
    requires f.prec >= 1 && IsValueOf(f, v, n, q)
    ensures v >= 0.0
    ensures IsWhole(Scale(v, -Quantum(f, v)))
  {
    ScaleLess(0.0, n as real, q);
    var r := Quantum(f, v);
    if r <= q {
      WholeUnits(n, q, r);
    } else {
      // 2^(r+prec-1) <= v <= 2^(q+prec), so r == q + 1 and v == 2^(q+prec)
      ScaleLess(n as real, P2(f.prec) as real, q);
      PowerRatio(q, f.prec);
      Pow2Mono(q + f.prec, r + f.prec - 1);
      PowerRatio(r, f.prec - 1);
      assert v == Pow2(q + f.prec);
      if q + 1 < r {
        Pow2Mono(q + f.prec, r + f.prec - 1);
      }
      assert r == q + 1;
      assert Scale(v, -r) == P2(f.prec - 1) as real;
    }
  }

  /** A value of the format is its own rounding, in every mode. */
  lemma RoundedExact(f: Format, mode: Mode, neg: bool, v: real)
    requires f.prec >= 1 && v >= 0.0
    ensures Representable(f, v) <==> Rounded(f, mode, neg, v) == v
    ensures Representable(f, v) <==> IsWhole(Scale(v, -Quantum(f, v)))
  {
    var q := Quantum(f, v);
    var u := Scale(v, -q);
    if Representable(f, v) {
      var n, q' :| IsValueOf(f, v, n, q');
      RepresentableQuantum(f, v, n, q');
    }
    if IsWhole(u) {
      assert RoundAt(mode, neg, u) as real == u;
      ScaleScale(v, -q, q);
      assert Rounded(f, mode, neg, v) == v by { ScaleBackZero(v, q); }
    }
    if Rounded(f, mode, neg, v) == v {
      RoundedIsRepresentable(f, mode, neg, v);
    }
  }

  lemma ScaleBackZero(v: real, q: int)
    ensures Scale(Scale(v, -q), q) == v
  {
    ScaleBack(v, -q);
  }

  /** No value of the format lies strictly between x and its rounding. */
  lemma RoundedFaithful(f: Format, mode: Mode, neg: bool, x: real, v: real)
    requires f.prec >= 1 && x >= 0.0 && v >= 0.0 && Representable(f, v)
    ensures v <= x ==> v <= Rounded(f, mode, neg, x)
    ensures x <= v ==> Rounded(f, mode, neg, x) <= v
  {
    RoundedExact(f, mode, neg, v);
    if v <= x { RoundedMono(f, mode, neg, v, x); }
    if x <= v { RoundedMono(f, mode, neg, x, v); }
  }

  ghost function Distance(x: real, y: real): real {
    if x <= y then y - x else x - y
  }

  /** In the two nearest modes no value of the format is closer to x. */
  lemma RoundedNearest(f: Format, mode: Mode, neg: bool, x: real, v: real)
    requires f.prec >= 1 && x >= 0.0 && v >= 0.0 && Representable(f, v)
    requires mode.NearEven? || mode.NearMaxMag?
    ensures Distance(x, Rounded(f, mode, neg, x)) <= Distance(x, v)
  {
    var q := Quantum(f, x);
    var u := Scale(x, -q);
    RoundedFaithful(f, MinMag, neg, x, v);
    RoundedFaithful(f, Max, false, x, v);
    var lo, hi := RoundAt(MinMag, neg, u), RoundAt(Max, false, u);
    var n := RoundAt(mode, neg, u);
    hide Quantum, QuantumFrom;
    ScaleBackZero(x, q);
    assert Distance(u, n as real) <= Distance(u, lo as real) && Distance(u, n as real) <= Distance(u, hi as real);
    DistanceScales(u, n as real, q);
    DistanceScales(u, lo as real, q);
    DistanceScales(u, hi as real, q);
    ScaleLess(Distance(u, n as real), Distance(u, lo as real), q);
    ScaleLess(Distance(u, n as real), Distance(u, hi as real), q);
    ScaleLess(lo as real, u, q);
    ScaleLess(u, hi as real, q);
    hide Scale;
  }

  lemma DistanceScales(x: real, y: real, e: int)
    ensures Distance(Scale(x, e), Scale(y, e)) == Scale(Distance(x, y), e)
  {
    ScaleLess(x, y, e);
    hide Pow2;
  }

  /** The directed modes round to the named side. */
  lemma RoundedDirected(f: Format, mode: Mode, neg: bool, x: real)
    requires f.prec >= 1 && x >= 0.0
    ensures mode.MinMag? || (mode.Min? && !neg) || (mode.Max? && neg) ==> Rounded(f, mode, neg, x) <= x
    ensures (mode.Min? && neg) || (mode.Max? && !neg) ==> x <= Rounded(f, mode, neg, x)
  {
    var q := Quantum(f, x);
    var u := Scale(x, -q);
    ScaleBackZero(x, q);
    ScaleLess(RoundAt(mode, neg, u) as real, u, q);
    ScaleLess(u, RoundAt(mode, neg, u) as real, q);
  }

  /** A tie goes to the even significand, or away from zero. */
  lemma RoundedTies(f: Format, neg: bool, x: real)
    requires f.prec >= 1 && x >= 0.0
    requires Distance(x, Rounded(f, MinMag, neg, x)) == Distance(x, Rounded(f, Max, false, x)) > 0.0
    ensures Significand(f, NearEven, neg, x) % 2 == 0
    ensures Rounded(f, NearMaxMag, neg, x) == Rounded(f, Max, false, x)
  {
    var q := Quantum(f, x);
    var u := Scale(x, -q);
    var lo, hi := RoundAt(MinMag, neg, u), RoundAt(Max, false, u);
    hide Quantum, QuantumFrom;
    ScaleBackZero(x, q);
    DistanceScales(u, lo as real, q);
    DistanceScales(u, hi as real, q);
    ScaleLess(Distance(u, lo as real), Distance(u, hi as real), q);
    ScaleLess(0.0, Distance(u, lo as real), q);
    hide Scale;
    assert Distance(u, lo as real) == Distance(u, hi as real) > 0.0;
  }

  // ----- what rounding looks at -----

  /** A significand and its exactness, read off the grid of half quanta. */
  lemma RoundedByHalves(f: Format, mode: Mode, neg: bool, x: real)
    requires f.prec >= 1 && x >= 0.0
    ensures Significand(f, mode, neg, x) == RoundPosition(mode, neg, Position(Scale(x, 1 - Quantum(f, x))))
    ensures Representable(f, x) <==> Position(Scale(x, 1 - Quantum(f, x))) % 4 == 0
  {
    DoubleScale(x, Quantum(f, x));
    RoundAtPosition(mode, neg, Scale(x, -Quantum(f, x)));
    RoundedExact(f, mode, neg, x);
  }

  /**
   * The pivot: two numbers at the same position on the grid 2^h, for some h below the quantum of one of
   * them, have the same quantum, and round to the same significand with the same exactness.
   */
  lemma SamePositionSameRounding(f: Format, mode: Mode, neg: bool, x: real, y: real, h: int)
    requires f.prec >= 1 && x >= 0.0 && y >= 0.0
    requires Position(Scale(x, -h)) == Position(Scale(y, -h))
    requires h < Quantum(f, x)
    ensures Quantum(f, y) == Quantum(f, x)
    ensures Significand(f, mode, neg, y) == Significand(f, mode, neg, x)
    ensures Representable(f, x) <==> Representable(f, y)
  {
    var q := Quantum(f, x);
    SamePositionSameQuantum(f, x, y, h);
    hide Scale, Position, RoundPosition, Quantum, Representable, Significand;
    PositionCoarser(x, y, h, q - 1 - h);
    assert -h - (q - 1 - h) == 1 - q;
    RoundedByHalves(f, mode, neg, x);
    RoundedByHalves(f, mode, neg, y);
  }

  lemma SamePositionSameQuantum(f: Format, x: real, y: real, h: int)
    requires f.prec >= 1 && x >= 0.0 && y >= 0.0
    requires Position(Scale(x, -h)) == Position(Scale(y, -h))
    requires h < Quantum(f, x)
    ensures Quantum(f, y) == Quantum(f, x)
  {
    var q := Quantum(f, x);
    hide QuantumFrom, Position, Scale, Pow2;
    SamePositionSameOrder(x, y, h, q + f.prec);
    if q > f.qmin {
      SamePositionSameOrder(x, y, h, q + f.prec - 1);
    }
    QuantumUnique(f, y, q);
  }

  lemma DoubleScale(x: real, q: int)
    ensures Scale(x, 1 - q) == 2.0 * Scale(x, -q)
  {
    ScaleHalf(x, -q);
  }

  /** A power of two on the grid separates neither. */
  lemma SamePositionSameOrder(x: real, y: real, h: int, k: int)
    requires Position(Scale(x, -h)) == Position(Scale(y, -h)) && h <= k
    ensures x < Pow2(k) <==> y < Pow2(k)
  {
    hide Pow2, P2;
    ScaleLess(x, Pow2(k), -h);
    ScaleLess(y, Pow2(k), -h);
    PowerRatio(h, k - h);
    assert h + (k - h) == k;
    hide Scale;
    PositionBelow(Scale(x, -h), P2(k - h));
    PositionBelow(Scale(y, -h), P2(k - h));
  }
}
