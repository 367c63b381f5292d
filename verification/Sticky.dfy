/**
 * What survives of a real number on a grid of integers: which integer it is, or which open gap between
 * two neighbouring integers it lies in.  "Jamming" (folding discarded bits into the lowest kept one)
 * keeps this position on every even grid, which is all that rounding ever looks at.
 */
module Sticky {
  import opened Arith
  import opened Powers

  ghost predicate IsWhole(u: real) {
    u == u.Floor as real
  }

  /** 2k when u is the integer k, 2k+1 when k < u < k+1. */
  ghost function Position(u: real): int {
    if IsWhole(u) then 2 * u.Floor else 2 * u.Floor + 1
  }

  /** The position of u/2, from the position of u. */
  function Halve(s: int): int {
    if s % 4 == 0 then s / 2 else 2 * (s / 4) + 1
  }

  lemma PositionHalf(u: real)
    ensures Position(u / 2.0) == Halve(Position(u))
  {
    var k := u.Floor;
    var j := k / 2;
    assert k == 2 * j || k == 2 * j + 1;
    assert j as real <= u / 2.0 < (j + 1) as real;
    assert (u / 2.0).Floor == j;
  }

  lemma PositionGap(u: real, k: int)
    ensures k as real < u < (k + 1) as real <==> Position(u) == 2 * k + 1
    ensures u == k as real <==> Position(u) == 2 * k
  {
  }

  lemma PositionBelow(u: real, k: int)
    ensures u < k as real <==> Position(u) < 2 * k
  {
  }

  /** On a grid 2^k times coarser, equal positions stay equal. */
  lemma {:induction false} PositionCoarser(x: real, y: real, h: int, k: nat)
    requires Position(Scale(x, -h)) == Position(Scale(y, -h))
    ensures Position(Scale(x, -h - k)) == Position(Scale(y, -h - k))
  {
    if k > 0 {
      PositionCoarser(x, y, h, k - 1);
      ScaleHalf(x, -h - k);
      ScaleHalf(y, -h - k);
      hide Scale, Position, Halve;
      PositionHalf(Scale(x, -h - (k - 1)));
      PositionHalf(Scale(y, -h - (k - 1)));
    }
  }

  lemma ScaleHalf(x: real, e: int)
    ensures Scale(x, e) == Scale(x, e + 1) / 2.0
  {
    Pow2Succ(e);
    hide Pow2;
  }

  lemma ScaleTwice(m: nat, e: int)
    ensures Scale((2 * m) as real, e) == Scale(m as real, e + 1)
  {
    ScaleHalf(m as real, e);
    hide Pow2;
  }

  /** The jammed quotient n/d: the integer part, with its last bit forced to 1 when anything is cut off. */
  function Jam(n: nat, d: nat): nat
    requires d > 0
  {
    OrBit(Quo(n, d), Cut(n, d))
  }

  function Quo(n: nat, d: nat): nat
    requires d > 0
  {
    DivBound(n, d);
    n / d
  }

  predicate Cut(n: nat, d: nat)
    requires d > 0
  {
    n % d != 0
  }

  /** x | b for a single bit b. */
  function OrBit(x: nat, b: bool): nat {
    if b && x % 2 == 0 then x + 1 else x
  }

  lemma OrBitFalse(x: nat)
    ensures OrBit(x, false) == x
  {
  }

  /** n/d as a real number. */
  ghost function Ratio(n: int, d: int): real
    requires d > 0
  {
    n as real / d as real
  }

  lemma RatioBounds(n: int, d: int)
    requires d > 0
    ensures Ratio(n, d).Floor == n / d
    ensures IsWhole(Ratio(n, d)) <==> n % d == 0
  {
    var q, r := n / d, n % d;
    assert n == q * d + r;
    var u := Ratio(n, d);
    assert n as real == q as real * d as real + r as real;
    RatioOf(u, q as real, r as real, d as real);
  }

  lemma RatioOf(u: real, q: real, r: real, d: real)
    requires d > 0.0 && 0.0 <= r < d && u == (q * d + r) / d
    ensures q <= u < q + 1.0
    ensures u == q <==> r == 0.0
  {
    assert u * d == q * d + r;
    var f := u - q;
    assert f * d == r;
    ProductOrder(f, 0.0, d);
    ProductOrder(f, 1.0, d);
  }

  /** Jamming moves no number across, onto or off a line of an even grid. */
  lemma JamPosition(n: nat, d: nat, g: nat)
    requires d > 0 && g > 0 && g % 2 == 0
    ensures Position(Ratio(Jam(n, d), g)) == Position(Ratio(n, d) / g as real)
  {
    var u := Ratio(n, d);
    RatioBounds(n, d);
    var k, j := Quo(n, d), Jam(n, d);
    if n % d == 0 {
      assert u == k as real && j == k;
    } else {
      assert k as real < u < (k + 1) as real && j == OrBit(k, true);
      hide Position, Ratio, OrBit, Jam;
      BetweenLines(u, k, j, g);
    }
  }

  /** A number strictly between k and k + 1 lies in the cell of an even grid in which the odd one of them lies. */
  lemma BetweenLines(u: real, k: nat, j: nat, g: nat)
    requires g > 0 && g % 2 == 0 && k as real < u < (k + 1) as real && j == OrBit(k, true)
    ensures Position(Ratio(j, g)) == Position(u / g as real)
  {
    hide OrBit, Position, Ratio;
    var a, r := SplitAt(k, g);
    OddPosition(k, j, a, r, g);
    CellPosition(u, k, a, r, g);
  }

  lemma SplitAt(k: nat, g: nat) returns (a: nat, r: nat)
    requires g > 0
    ensures k == a * g + r && r < g
  {
    DivBound(k, g);
    a, r := k / g, k % g;
  }

  lemma CellPosition(u: real, k: nat, a: nat, r: nat, g: nat)
    requires g > 0 && k == a * g + r && r < g && k as real < u < (k + 1) as real
    ensures Position(u / g as real) == 2 * a + 1
  {
    GridCell(u, a, r, g);
    hide Position;
    PositionGap(u / g as real, a);
  }

  lemma OddPosition(k: nat, j: nat, a: nat, r: nat, g: nat)
    requires g > 0 && g % 2 == 0 && k == a * g + r && r < g && j == OrBit(k, true)
    ensures Position(Ratio(j, g)) == 2 * a + 1
  {
    hide OrBit, Ratio;
    OddInGrid(k, j, a, r, g);
    RatioBounds(j, g);
  }

  /** In units of 2^(s+1), a jammed number stands where the exact one does. */
  lemma JamPlace(n: nat, d: nat, s: int)
    requires d > 0
    ensures Position(Scale(Scale(Jam(n, d) as real, s), -(s + 1))) == Position(Scale(Scale(Ratio(n, d), s), -(s + 1)))
  {
    hide Pow2, Jam, Position, Ratio;
    HalfUnits(Jam(n, d) as real, s);
    HalfUnits(Ratio(n, d), s);
    JamPosition(n, d, 2);
    assert Ratio(Jam(n, d), 2) == Jam(n, d) as real / 2.0 by { RatioOfTwo(Jam(n, d)); }
  }

  lemma RatioOfTwo(n: nat)
    ensures Ratio(n, 2) == n as real / 2.0
  {
  }

  lemma HalfUnits(x: real, s: int)
    ensures Scale(Scale(x, s), -(s + 1)) == x / 2.0
  {
    ScaleScale(x, s, -(s + 1));
    ScaleHalf(x, -1);
    assert s + -(s + 1) == -1 && Pow2(0) == 1.0;
    hide Pow2;
  }

  lemma OddInGrid(k: nat, j: nat, a: nat, r: nat, g: nat)
    requires g > 0 && g % 2 == 0 && k == a * g + r && r < g
    requires j == OrBit(k, true)
    ensures j / g == a && j % g != 0
  {
    EvenMultiple(a, g);
    OrBitEven(a * g, r, true);
    var r' := OrBit(r, true);
    assert r' < g && r' != 0;
    hide OrBit;
    DivModUnique(j, g, a, r');
  }

  lemma GridCell(u: real, a: int, r: int, g: int)
    requires g > 0 && 0 <= r < g
    requires (a * g + r) as real < u < (a * g + r + 1) as real
    ensures a as real < u / g as real < (a + 1) as real
  {
    var k, k' := a * g, (a + 1) * g;
    assert k' == k + g;
    WithinGrid(u, k, r, g);
    RealProduct(a, g);
    RealProduct(a + 1, g);
    var w := u / g as real;
    InCell(w, a as real, (a + 1) as real, g as real, k as real, k' as real, u);
  }

  lemma WithinGrid(u: real, k: int, r: int, g: int)
    requires 0 <= r < g && (k + r) as real < u < (k + r + 1) as real
    ensures k as real < u < (k + g) as real
  {
  }

  lemma InCell(w: real, lo: real, hi: real, d: real, x: real, y: real, u: real)
    requires d > 0.0 && x == lo * d && y == hi * d && w == u / d && x < u < y
    ensures lo < w < hi
  {
    assert w * d == u;
    ProductOrder(lo, w, d);
    ProductOrder(w, hi, d);
  }

  lemma RatioSum(big: int, m: int, d: int)
    requires d > 0
    ensures Ratio(big * d + m, d) == big as real + Ratio(m, d)
    ensures Ratio(big * d - m, d) == big as real - Ratio(m, d)
  {
    RealProduct(big, d);
    DivideSum(big as real, m as real, d as real);
  }

  lemma DivideSum(b: real, m: real, d: real)
    requires d > 0.0
    ensures (b * d + m) / d == b + m / d
    ensures (b * d - m) / d == b - m / d
  {
    var u := m / d;
    assert u * d == m;
    assert (b + u) * d == b * d + m;
    assert (b - u) * d == b * d - m;
  }

  lemma CancelFactor(x: real, y: real, p: real, r: real)
    requires y > 0.0 && r > 0.0
    ensures (x * p) / (y * r) == (x / y) * (p / r)
  {
    var u, v := x / y, p / r;
    assert u * y == x && v * r == p;
    ScaledProduct'(u, y, v, r);
    var d := y * r;
    assert d > 0.0;
    assert (u * v) * d == x * p;
  }

  lemma ScaledProduct'(u: real, y: real, v: real, r: real)
    ensures (u * y) * (v * r) == (u * v) * (y * r)
  {
    assert (u * y) * (v * r) == u * (y * (v * r));
    assert y * (v * r) == v * (y * r);
  }

  lemma ScaledQuotient(m: nat, e: int, n: nat, f: int)
    requires n > 0
    ensures Scale(n as real, f) > 0.0
    ensures Scale(m as real, e) / Scale(n as real, f) == Scale(Ratio(m, n), e - f)
  {
    Pow2Add(e - f, f);
    hide Pow2;
    ScaleLess(0.0, n as real, f);
    CancelFactor(m as real, n as real, Pow2(e), Pow2(f));
    assert Pow2(e) == Pow2(e - f) * Pow2(f);
    DivideBack(Pow2(e - f), Pow2(f));
  }

  lemma DivideBack(x: real, y: real)
    requires y > 0.0
    ensures (x * y) / y == x
  {
  }

  /** Jamming twice, the second time on an even grid, is jamming once. */
  lemma JamJam(n: nat, d: nat, w: nat)
    requires d > 0 && w > 0 && w % 2 == 0
    ensures d * w > 0
    ensures Jam(Jam(n, d), w) == Jam(n, d * w)
    ensures Cut(n, d * w) <==> Cut(Jam(n, d), w)
  {
    hide Quo, Cut, OrBit;
    QuoQuo(n, d, w);
    QuoOrBit(Quo(n, d), w, Cut(n, d));
  }

  /** An even number passes through OrBit. */
  lemma OrBitEven(e: nat, x: nat, b: bool)
    requires e % 2 == 0
    ensures OrBit(e + x, b) == e + OrBit(x, b)
  {
    DivModUnique(e + x, 2, e / 2 + x / 2, x % 2);
  }

  lemma QuoOrBit(k: nat, w: nat, b: bool)
    requires w > 0 && w % 2 == 0
    ensures Quo(OrBit(k, b), w) == Quo(k, w)
    ensures Cut(OrBit(k, b), w) <==> b || Cut(k, w)
  {
    var a, t := k / w, k % w;
    assert k == a * w + t;
    hide OrBit;
    OrBitFalse(k);
    if b {
      OddInGrid(k, OrBit(k, true), a, t, w);
    }
  }

  lemma QuoQuo(n: nat, d: nat, w: nat)
    requires d > 0 && w > 0
    ensures d * w > 0
    ensures Quo(n, d * w) == Quo(Quo(n, d), w)
    ensures Cut(n, d * w) <==> Cut(n, d) || Cut(Quo(n, d), w)
  {
    var k, r := n / d, n % d;
    var a, t := k / w, k % w;
    assert n == k * d + r && k == a * w + t;
    JamJamTerms(n, d, w, k, r, a, t);
    MixedDigits(t, w, r, d);
    DivModUnique(n, d * w, a, t * d + r);
  }

  lemma MixedDigits(t: int, w: int, r: int, d: int)
    requires 0 <= t < w && 0 <= r < d
    ensures 0 <= t * d + r < d * w && d * w > 0
    ensures t * d + r == 0 <==> t == 0 && r == 0
  {
    MulGe(w - 1, t, d);
    MulGe(t, 0, d);
    MulGe(w, 1, d);
    assert (w - 1) * d == d * w - d;
    if t > 0 { MulGe(t, 1, d); }
  }

  lemma JamJamTerms(n: int, d: int, w: int, k: int, r: int, a: int, t: int)
    requires n == k * d + r && k == a * w + t
    ensures n == a * (d * w) + (t * d + r)
  {
    assert (a * w + t) * d == (a * w) * d + t * d;
    assert (a * w) * d == a * (d * w);
  }

  /** A denominator 2^k larger is an exponent k smaller. */
  lemma RatioScaled(n: int, d: nat, k: nat, e: int)
    requires d > 0
    ensures d * P2(k) > 0
    ensures Scale(Ratio(n, d * P2(k)), e) == Scale(Ratio(n, d), e - k)
  {
    hide P2, Pow2;
    MulGe(d, 1, P2(k));
    ScaleScale(Ratio(n, d), 0 - k, e);
    ScaleIsDivision(Ratio(n, d), k);
    RealProduct(d, P2(k));
    DivideTwice(n as real, d as real, P2(k) as real);
  }

  lemma DivideTwice(x: real, y: real, p: real)
    requires y > 0.0 && p > 0.0
    ensures y * p > 0.0
    ensures x / (y * p) == (x / y) / p
  {
    var u := (x / y) / p;
    var v := x / y;
    assert u * p == v && v * y == x;
    assert u * (y * p) == (u * p) * y;
  }

  lemma DivideByInverse(x: real, p: real, r: real)
    requires p > 0.0 && p * r == 1.0
    ensures x / p == x * r
  {
    var y := x / p;
    assert y * p == x;
    assert x * r == y * (p * r);
  }

  /** Dividing by 2^k is scaling by 2^-k. */
  lemma RatioScale(n: int, k: nat)
    ensures Ratio(n, P2(k)) == Scale(n as real, 0 - k)
  {
    Pow2Nat(k);
    Pow2Inverse(k);
    hide Pow2, P2;
    DivideByInverse(n as real, P2(k) as real, Pow2(0 - k));
  }

  lemma ScaleIsDivision(x: real, k: nat)
    ensures Scale(x, 0 - k) == x / P2(k) as real
  {
    Pow2Nat(k);
    Pow2Inverse(k);
    hide Pow2, P2;
    DivideByInverse(x, P2(k) as real, Pow2(0 - k));
  }
}
