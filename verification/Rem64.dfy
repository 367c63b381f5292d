/**
 * f64_rem: the remainder of the significands by 62-bit chunks, each quotient chunk taken two too small so that
 * no chunk overshoots, and a last loop that settles the quotient, its parity and the nearer remainder.
 */
module Rem64 {
  import opened Arith
  import opened Powers
  import opened Sticky
  import opened Words
  import opened Rounding
  import opened FpState
  import opened Packing
  import opened Binary64
  import opened RoundPack64
  import opened Operands64
  import opened EstimateDiv

  /** The integer nearest to n/d, the even one when two are equally near. */
  function NearestQuotient(n: nat, d: nat): nat
    requires d > 0
  {
    var q, r := n / d, n % d;
    DivBound(n, d);
    if 2 * r > d || (2 * r == d && q % 2 == 1) then q + 1 else q
  }

  // ----- the integer remainder -----

  /** total is r * 2^e and an even number of times b. */
  ghost predicate EvenlyReduced(total: int, r: int, e: nat, t: int, b: int) {
    total == r * P2(e) + (2 * t) * b
  }

  /** total is four times s and c times b. */
  ghost predicate Quartered(total: int, s: int, c: int, b: int) {
    total == 4 * s + c * b
  }

  /** An estimate less two, or zero: at most two below the true quotient and never above it. */
  lemma LoweredEstimate(z: u64, q: nat)
    requires q <= z <= q + 2
    ensures
      var low := if 2 < z then z - 2 else 0;
      low <= q <= low + 2
  {
  }

  lemma FirstBit(sigA: u64, sigB: u64, e: nat) returns (t: int)
    requires sigA < 2 * sigB && e > 0
    ensures EvenlyReduced(Dividend(sigA, e), AfterFirstBit(sigA, sigB), e, t, sigB)
  {
    t := if sigB <= sigA then P2(e - 1) else 0;
    P2Succ(e - 1);
    hide P2;
    var p := P2(e - 1);
    assert P2(e) == 2 * p;
    if sigB <= sigA {
      assert sigA * (2 * p) == (sigA - sigB) * (2 * p) + (2 * p) * sigB;
    }
  }

  /** What a quotient at most two too small leaves. */
  lemma ChunkRange(n: nat, b: nat, q: nat)
    requires b > 0 && q <= Quo(n, b) <= q + 2
    ensures 0 <= n - q * b < 3 * b
  {
    var t, r := n / b, n % b;
    assert n == t * b + r;
    MulGe(t, q, b);
    MulGe(q + 2, t, b);
    assert (q + 2) * b == q * b + 2 * b;
  }

  /** One 62-bit chunk: r' = r * 2^62 - (b/4) * q, of which the word keeps the low 64 bits and loses nothing. */
  lemma ChunkStep(total: int, r: u64, e: nat, t: int, b: u64, q: nat) returns (t': int)
    requires EvenlyReduced(total, r, e, t, b) && 65 <= e
    requires r < b && r % 0x200 == 0 && b % 0x800 == 0
    requires q <= Quo(r * W64, b) <= q + 2
    ensures
      var r' := Wrap64(0 - MulLow64(b / 4, q));
      && r' < b && r' % 0x200 == 0
      && EvenlyReduced(total, r', e - 62, t', b)
  {
    hide EvenlyReduced, Quo, P2, Wrap64;
    QuarterOf(b);
    Quarters(r);
    var c, k := b / 4, r / 4;
    assert r == 4 * k;
    var x := c * q;
    var exact := r * 0x4000_0000_0000_0000 - x;
    ChunkExact(r, b, q, c, x);
    WrapNegated(x, exact, k);
    ChunkSum(total, r, e, t, b, c, q, exact);
    t' := t + q * P2(e - 65);
  }

  lemma ChunkExact(r: u64, b: u64, q: nat, c: int, x: int)
    requires r < b && r % 0x200 == 0 && b == 4 * c && c % 0x200 == 0 && x == c * q
    requires q <= Quo(r * W64, b) <= q + 2
    ensures 0 <= r * 0x4000_0000_0000_0000 - x < b
    ensures (r * 0x4000_0000_0000_0000 - x) % 0x200 == 0
  {
    ChunkRange(r * W64, b, q);
    hide Quo;
    QuarterProduct(b, c, q);
    GridProduct(c, q, r, r * 0x4000_0000_0000_0000 - x);
  }

  lemma QuarterOf(b: u64)
    requires b % 0x800 == 0
    ensures b == 4 * (b / 4) && (b / 4) % 0x200 == 0
  {
    var m := b / 0x800;
    DivModUnique(b, 4, 0x200 * m, 0);
    DivModUnique(b / 4, 0x200, m, 0);
  }

  lemma QuarterProduct(b: int, c: int, q: int)
    requires b == 4 * c
    ensures q * b == 4 * (c * q)
  {
    assert q * (4 * c) == 4 * (c * q);
  }

  lemma WrapNegated(x: int, exact: int, k: int)
    requires 0 <= exact < W64 && exact == k * W64 - x
    ensures Wrap64(0 - Wrap64(x)) == exact
  {
  }

  lemma GridProduct(c: int, q: int, r: int, exact: int)
    requires c % 0x200 == 0 && r % 0x200 == 0 && exact == r * 0x4000_0000_0000_0000 - c * q
    ensures exact % 0x200 == 0
  {
    var c', r' := c / 0x200, r / 0x200;
    Reassociate(0x200, c', q);
    DivModUnique(exact, 0x200, r' * 0x4000_0000_0000_0000 - c' * q, 0);
  }

  lemma ChunkSum(total: int, r: int, e: nat, t: int, b: int, c: int, q: int, exact: int)
    requires 65 <= e && EvenlyReduced(total, r, e, t, b) && b == 4 * c
    requires exact == r * 0x4000_0000_0000_0000 - c * q
    ensures EvenlyReduced(total, exact, e - 62, t + q * P2(e - 65), b)
  {
    P2Add(62, e - 62);
    P2Add(3, e - 65);
    P2Values();
    hide P2;
    var p := P2(e - 65);
    assert P2(e - 62) == 8 * p && P2(e) == 0x4000_0000_0000_0000 * (8 * p);
    ChunkTerms(r, p, c, q, t, exact);
  }

  lemma ChunkTerms(r: int, p: int, c: int, q: int, t: int, exact: int)
    requires exact == r * 0x4000_0000_0000_0000 - c * q
    ensures r * (0x4000_0000_0000_0000 * (8 * p)) + (2 * t) * (4 * c) == exact * (8 * p) + (2 * (t + q * p)) * (4 * c)
  {
    assert exact * (8 * p) == (r * 0x4000_0000_0000_0000) * (8 * p) - (c * q) * (8 * p);
    assert (2 * (t + q * p)) * (4 * c) == (2 * t) * (4 * c) + (2 * (q * p)) * (4 * c);
    assert (2 * (q * p)) * (4 * c) == (c * q) * (8 * p);
  }

  /** The last, shorter chunk: e bits of quotient. */
  lemma LastStep(total: int, r: u64, e: nat, t: int, b: u64, q: nat)
    requires EvenlyReduced(total, r, e, t, b) && 1 <= e <= 64
    requires r < b && r % 0x200 == 0 && b % 0x800 == 0
    requires q <= Quo(r * W64, b) <= q + 2
    ensures
      var q' := Shr(q, 64 - e);
      var s := Wrap64(Shl64(r / 2, e - 1) - MulLow64(b / 4, q'));
      && 0 <= s < 3 * (b / 4)
      && Quartered(total, s, q' + 2 * t, b)
  {
    hide EvenlyReduced, Quartered, Quo, P2, Shr, Wrap64, Shl64;
    var q' := Shr(q, 64 - e);
    var x, y := (2 * (r / 4)) * P2(e - 1), (b / 4) * q';
    LastExact(r, e, b, q', x, y);
    ShortQuotientRange(r, e, b, q);
    QuarterOf(b);
    WrappedQuarter(x, y, r * P2(e) - q' * b, b);
    LastSum(total, r, e, t, b, q', x - y);
  }

  lemma Quarters(r: nat)
    requires r % 0x200 == 0
    ensures r == 4 * (r / 4) && r / 2 == 2 * (r / 4)
  {
    var m := r / 0x200;
    DivModUnique(r, 4, 0x80 * m, 0);
    DivModUnique(r, 2, 0x100 * m, 0);
  }

  lemma LastExact(r: u64, e: nat, b: u64, q: nat, x: int, y: int)
    requires 1 <= e && r % 0x200 == 0 && b % 0x800 == 0
    requires x == (2 * (r / 4)) * P2(e - 1) && y == (b / 4) * q
    ensures r * P2(e) - q * b == 4 * (x - y)
    ensures Shl64(r / 2, e - 1) == Wrap64(x)
  {
    P2Succ(e - 1);
    QuarterOf(b);
    Quarters(r);
    hide P2, Wrap64;
    LastProducts(r, r / 4, P2(e - 1), q, b, b / 4);
  }

  lemma LastProducts(r: int, k: int, p: int, q: int, b: int, c: int)
    requires r == 4 * k && b == 4 * c
    ensures r * (2 * p) - q * b == 4 * ((2 * k) * p - c * q)
  {
    LastTerms(k, p);
    QuarterProduct(b, c, q);
  }

  /** The wrapped difference of two wrapped terms, when the exact one is a quarter of v and below three of b. */
  lemma WrappedQuarter(x: int, y: int, v: int, b: u64)
    requires v == 4 * (x - y) && 0 <= v < 3 * b && b == 4 * (b / 4)
    ensures Wrap64(Wrap64(x) - Wrap64(y)) == x - y && 0 <= x - y < 3 * (b / 4)
  {
    WrapDifference(x, y);
    WrapSame(x - y);
  }

  lemma LastSum(total: int, r: int, e: nat, t: int, b: int, q: int, s: int)
    requires EvenlyReduced(total, r, e, t, b) && r * P2(e) - q * b == 4 * s
    ensures Quartered(total, s, q + 2 * t, b)
  {
    hide P2;
    assert (q + 2 * t) * b == q * b + (2 * t) * b;
  }

  lemma LastTerms(k: int, p: int)
    ensures (4 * k) * (2 * p) == 4 * ((2 * k) * p)
  {
  }

  lemma WrapDifference(x: int, y: int)
    ensures Wrap64(Wrap64(x) - Wrap64(y)) == Wrap64(x - y)
  {
  }

  /** Cutting the low bits off a quotient of r * 2^64 gives one of r * 2^e, no worse. */
  lemma ShortQuotientRange(r: u64, e: nat, b: u64, q: nat)
    requires 1 <= e <= 64 && b > 0 && q <= Quo(r * W64, b) <= q + 2
    ensures 0 <= r * P2(e) - Shr(q, 64 - e) * b < 3 * b
  {
    hide P2;
    ChunkRange(r * W64, b, q);
    P2Add(e, 64 - e);
    P2Values();
    hide Quo;
    QuoRem(q, P2(64 - e));
    ShortTerms(r, P2(e), P2(64 - e), Quo(q, P2(64 - e)), q % P2(64 - e), b);
  }

  lemma QuoRem(n: nat, d: nat)
    requires d > 0
    ensures n == Quo(n, d) * d + n % d && 0 <= n % d < d
  {
  }

  lemma ShortTerms(r: int, p: int, d: int, q: int, m: int, b: int)
    requires d > 0 && b > 0 && p * d == W64 && 0 <= m < d
    requires 0 <= r * W64 - (q * d + m) * b < 3 * b
    ensures 0 <= r * p - q * b < 3 * b
  {
    var x := r * p - q * b;
    assert (r * p) * d == r * W64;
    assert (q * d + m) * b == (q * b) * d + m * b;
    assert x * d == r * W64 - (q * b) * d;
    MulGe(d - 1, m, b);
    MulGe(m, 0, b);
    assert (d - 1) * b == d * b - b;
    if x < 0 { MulGe(-1, x, d); }
    if x >= 3 * b { AtLeastThree(x, b, d); }
  }

  lemma AtLeastThree(x: int, b: int, d: int)
    requires x >= 3 * b && d >= 0
    ensures x * d >= 3 * (d * b)
  {
    MulGe(x, 3 * b, d);
    assert (3 * b) * d == 3 * (d * b);
  }

  /** Which of the two remainders around zero is the nearer one. */
  lemma NearerRemainder(total: nat, s: int, c: int, b: nat)
    requires b > 0 && b % 4 == 0 && Quartered(total, s, c, b) && -(b / 4) <= s < 0
    ensures
      var keep := 2 * s + b / 4 < 0 || (2 * s + b / 4 == 0 && c % 2 == 1);
      total - NearestQuotient(total, b) * b == 4 * (if keep then s + b / 4 else s)
  {
    hide NearestQuotient;
    var d := b / 4;
    assert b == 4 * d;
    var r := 4 * s + b;
    OneLess(c, b);
    DivModUnique(total, b, c - 1, r);
    NearestIs(total, b, c - 1, r);
    OtherParity(c);
  }

  lemma OneLess(c: int, b: int)
    ensures c * b == (c - 1) * b + b
  {
  }

  lemma NearestIs(n: nat, d: nat, q: int, r: int)
    requires d > 0 && n / d == q && n % d == r
    ensures NearestQuotient(n, d) == if 2 * r > d || (2 * r == d && q % 2 == 1) then q + 1 else q
  {
  }

  lemma OtherParity(c: int)
    ensures c % 2 == 1 <==> (c - 1) % 2 == 0
  {
  }

  /** The dividend: a significand moved up by a positive exponent difference. */
  ghost function Dividend(s: nat, diff: int): nat {
    if diff > 0 then s * P2(diff) else s
  }

  lemma EvenAdded(q: int, t: int)
    ensures (q + 2 * t) % 2 == q % 2
  {
  }

  lemma QuarterGrid(b: u64)
    requires TOP64 <= b && b % 0x800 == 0
    ensures b % 4 == 0 && 0 < b / 4 && b == 4 * (b / 4)
  {
    var m := b / 0x800;
    assert b == 4 * (0x200 * m);
    DivModUnique(b, 4, 0x200 * m, 0);
  }

  lemma FirstBitGrid(sA: u64, sB: u64)
    requires sB % 0x800 == 0 && sA < 2 * sB && sA % 0x200 == 0
    ensures 0 <= AfterFirstBit(sA, sB) < sB && AfterFirstBit(sA, sB) % 0x200 == 0
  {
  }

  /** The first quotient bit, and what it leaves. */
  function AfterFirstBit(sA: u64, sB: u64): int {
    if sB <= sA then sA - sB else sA
  }

  /** Lines 69 to 76: whole 62-bit chunks, until at most 64 quotient bits are left. */
  method ReduceChunks(ghost total: nat, a: u64, sigB: u64, diff: int, q0: u64, ghost t0: int)
    returns (sigA: u64, expDiff: int, q: u64, ghost t: int)
    requires TOP64 <= sigB && sigB % 0x800 == 0 && a < sigB && a % 0x200 == 0
    requires 0 < diff ==> EvenlyReduced(total, a, diff, t0, sigB)
    ensures sigA < sigB && sigA % 0x200 == 0 && expDiff <= 64
    ensures diff <= 0 ==> expDiff == diff && sigA == a && q == q0
    ensures 0 < diff ==> 0 < expDiff && EvenlyReduced(total, sigA, expDiff, t, sigB)
  {
    hide P2, EvenlyReduced, Quo, MulLow64, Wrap64;
    sigA, q, t := a, q0, t0;
    expDiff := diff - 64;
    while 0 < expDiff
      invariant sigA < sigB && sigA % 0x200 == 0
      invariant diff <= 0 ==> expDiff == diff - 64 && sigA == a && q == q0
      invariant 0 < diff ==> 0 < expDiff + 64 && EvenlyReduced(total, sigA, expDiff + 64, t, sigB)
    {
      q := EstimateDiv128To64(sigA, 0, sigB);
      LoweredEstimate(q, Quo(sigA * W64, sigB));
      q := if 2 < q then q - 2 else 0;
      t := ChunkStep(total, sigA, expDiff + 64, t, sigB, q);
      sigA := Wrap64(0 - MulLow64(sigB / 4, q));
      expDiff := expDiff - 62;
    }
    expDiff := expDiff + 64;
  }

  /**
   * Lines 67 to 100 of the routine, on the significands alone: the nearest remainder of sA * 2^diff by sB,
   * in quarters.
   */
  method NearestRemainder(sA: u64, sB: u64, diff: int) returns (sigZ: u64, negative: bool)
    requires TOP64 <= sB && sB % 0x800 == 0
    requires sA < 2 * sB && sA % 0x200 == 0 && -1 <= diff
    ensures sigZ < TOP64 && (negative ==> sigZ > 0)
    ensures
      var total := Dividend(sA, diff);
      total - NearestQuotient(total, sB) * sB == 4 * (if negative then 0 - sigZ else sigZ)
  {
    hide P2, EvenlyReduced, Quartered, Quo, NearestQuotient, Shr, Shl64, MulLow64, Wrap64, Dividend;
    var sigA: u64, sigB: u64, expDiff: int := sA, sB, diff;
    ghost var total := Dividend(sA, diff);
    var q: u64 := Bit(sigB <= sigA);
    if q != 0 {
      sigA := sigA - sigB;
    }
    assert sigA == AfterFirstBit(sA, sB);
    FirstBitGrid(sA, sB);
    QuarterGrid(sB);
    hide AfterFirstBit;
    ghost var t: int := 0;
    if diff > 0 {
      t := FirstBit(sA, sB, diff);
    }
    sigA, expDiff, q, t := ReduceChunks(total, sigA, sigB, expDiff, q, t);
    ghost var c: int;
    if 0 < expDiff {
      q := EstimateDiv128To64(sigA, 0, sigB);
      LoweredEstimate(q, Quo(sigA * W64, sigB));
      q := if 2 < q then q - 2 else 0;
      LastStep(total, sigA, expDiff, t, sigB, q);
      q := Shr(q, 64 - expDiff);
      c := q + 2 * t;
      EvenAdded(q, t);
      sigB := sigB / 4;
      sigA := Wrap64(Shl64(sigA / 2, expDiff - 1) - MulLow64(sigB, q));
    } else {
      NoChunk(sA, sB, diff);
      c := q;
      sigA := sigA / 4;
      sigB := sigB / 4;
    }
    sigZ, negative := SettleQuotient(total, sB, sigA, sigB, q, c);
  }

  /**
   * Lines 87 to 100: subtract sigB until the word goes negative, then take the nearer of the last two
   * remainders; q counts the subtractions on top of a quotient of the parity of c.
   */
  method SettleQuotient(ghost total: nat, ghost sB: u64, a: u64, sigB: u64, q0: u64, ghost c0: int)
    returns (sigZ: u64, negative: bool)
    requires sB > 0 && sB % 4 == 0 && sigB == sB / 4 && 0 <= a < 3 * sigB && 0 < sigB
    requires Quartered(total, a, c0, sB) && c0 % 2 == q0 % 2
    ensures sigZ < TOP64 && (negative ==> sigZ > 0)
    ensures total - NearestQuotient(total, sB) * sB == 4 * (if negative then 0 - sigZ else sigZ)
  {
    hide Quartered, NearestQuotient, Wrap64;
    var sigA: u64, q: u64, alternateSigA: u64 := a, q0, a;
    ghost var s: int, c: int := a, c0;
    var again := true;
    SignedWord(s);
    while again
      invariant Quartered(total, s, c, sB)
      invariant c % 2 == q % 2
      invariant sigA == Wrap64(s)
      invariant again ==> 0 <= s < 3 * sigB && sigA == s
      invariant !again ==> -1 * sigB <= s < 0 && alternateSigA == s + sigB
      decreases again, s + sigB
    {
      alternateSigA := sigA;
      NextParity(q, c);
      q := Wrap64(q + 1);
      sigA := Wrap64(sigA - sigB);
      OneMoreTime(total, s, c, sB);
      s := s - sigB;
      c := c + 1;
      SignedWord(s);
      again := sigA < TOP64;
    }
    SignedWord(s);
    var sigMean := Wrap64(sigA + alternateSigA);
    MeanWord(s, sigB);
    NearerRemainder(total, s, c, sB);
    if TOP64 <= sigMean || (sigMean == 0 && q % 2 == 1) {
      sigA := alternateSigA;
    }
    negative := TOP64 <= sigA;
    SignedWord(0 - sigA);
    sigZ := if negative then Wrap64(0 - sigA) else sigA;
  }

  /** A word read as a two's complement number. */
  lemma SignedWord(s: int)
    ensures -TOP64 <= s < TOP64 ==> Wrap64(s) == (if s < 0 then s + W64 else s)
    ensures -W64 < s < 0 ==> Wrap64(s) == s + W64
    ensures 0 <= s < W64 ==> Wrap64(s) == s
  {
  }

  lemma NextParity(q: u64, c: int)
    requires c % 2 == q % 2
    ensures Wrap64(q + 1) % 2 == (c + 1) % 2
  {
  }

  lemma MeanWord(s: int, b: u64)
    requires -1 * b <= s < 0 && b < TOP64
    ensures
      var mean := Wrap64(Wrap64(s) + (s + b));
      && (TOP64 <= mean <==> 2 * s + b < 0)
      && (mean == 0 <==> 2 * s + b == 0)
  {
  }

  lemma OneMoreTime(total: int, s: int, c: int, b: int)
    requires Quartered(total, s, c, b) && b % 4 == 0
    ensures Quartered(total, s - b / 4, c + 1, b)
  {
  }

  lemma NoChunk(sA: u64, sB: u64, diff: int)
    requires sA % 0x200 == 0 && sB % 0x800 == 0 && sA < 2 * sB && diff <= 0
    ensures Quartered(Dividend(sA, diff), AfterFirstBit(sA, sB) / 4, Bit(sB <= sA), sB)
  {
    FirstBitGrid(sA, sB);
    Quarters(AfterFirstBit(sA, sB));
    hide P2;
    assert sA == AfterFirstBit(sA, sB) + Bit(sB <= sA) * sB;
  }

  // ----- the floating-point remainder -----

  /** The real number an integer quotient leaves of a. */
  ghost function Remainder(a: u64, b: u64): real
    requires AbsValue(b) > 0.0
  {
    AbsValue(a) - RoundAt(NearEven, false, AbsValue(a) / AbsValue(b)) as real * AbsValue(b)
  }

  /**
   * z is the IEEE 754 remainder of finite a and nonzero b (section 5.3.1): a less the integer nearest a/b times
   * b, exactly; a zero has the sign of a.
   */
  ghost predicate IsRemainder(a: u64, b: u64, z: u64)
    requires AbsValue(b) > 0.0
  {
    var r := Remainder(a, b);
    && IsFinite(z)
    && AbsValue(z) == (if r < 0.0 then -r else r)
    && SignOf(z) == (SignOf(a) != (r < 0.0))
  }

  lemma NonZeroDivisor(b: u64)
    requires IsFinite(b) && !IsZero(b)
    ensures AbsValue(b) > 0.0
  {
    ZeroValue(b);
  }

  ghost predicate RemainderResult(a: u64, b: u64, z: u64) {
    if IsNaN(a) || IsNaN(b) || IsInfinite(a) || IsZero(b) then z == NAN64
    else if IsInfinite(b) then z == a
    else
      NonZeroDivisor(b);
      IsRemainder(a, b, z)
  }

  function RemainderFlags(a: u64, b: u64): Flags {
    if IsNaN(a) || IsNaN(b) then NaNResult(a, b).flags
    else RaisedWhen(IsInfinite(a) || (IsZero(b) && IsFinite(a)), INVALID)
  }

  /** Rounding the quotient of two reals to the nearest integer is the integer routine, on common units. */
  lemma NearestOfRatio(n: nat, d: nat)
    requires d > 0
    ensures RoundAt(NearEven, false, Ratio(n, d)) == NearestQuotient(n, d)
  {
    var q, r := n / d, n % d;
    assert n == q * d + r;
    RatioBounds(n, d);
    NearestIs(n, d, q, r);
    RatioSum(q, r, d);
    HalfRatio(r, d);
    hide Ratio, NearestQuotient;
    NearestAt(Ratio(n, d), q, Ratio(r, d));
  }

  lemma HalfRatio(r: nat, d: nat)
    requires d > 0
    ensures Ratio(r, d) > 0.5 <==> 2 * r > d
    ensures Ratio(r, d) == 0.5 <==> 2 * r == d
  {
    var f := Ratio(r, d);
    assert f * d as real == r as real;
    ProductOrder(f, 0.5, d as real);
    ProductOrder(0.5, f, d as real);
  }

  lemma NearestAt(u: real, q: int, f: real)
    requires u.Floor == q && u == q as real + f
    ensures RoundAt(NearEven, false, u) == if f > 0.5 || (f == 0.5 && q % 2 == 1) then q + 1 else q
  {
  }

  method F64Rem(env: FpEnv, a: u64, b: u64) returns (z: u64)
    modifies env`flags
    ensures RemainderResult(a, b, z)
    ensures env.flags == old(env.flags).Or(RemainderFlags(a, b))
  {
    hide P2, Pow2, Round64, AbsValue, Scale, Or, PackedAbs, Shl64, Normalised, Unpacked, IsRemainder, Dividend, NearestQuotient;
    hide RemainderResult, RemainderFlags, ExpOf, FracOf, SignOf, Pack, NaNResult, Wrap64;
    var signA, expA, sigA := SignOf(a), ExpOf(a), FracOf(a);
    var expB, sigB := ExpOf(b), FracOf(b);
    SpecialRemainder(a, b);
    if expA == 0x7FF {
      if sigA != 0 || (expB == 0x7FF && sigB != 0) {
        z := PropagateNaNF64UI(env, a, b);
        return;
      }
      env.Raise(INVALID);
      z := NAN64;
      return;
    }
    if expB == 0x7FF {
      if sigB != 0 {
        z := PropagateNaNF64UI(env, a, b);
        return;
      }
      OrNothing(env.flags);
      z := a;
      return;
    }
    if expB == 0 && sigB == 0 {
      env.Raise(INVALID);
      z := NAN64;
      return;
    }
    if expA == 0 && sigA == 0 {
      ZeroDividend(a, b);
      z := a;
      return;
    }
    expB, sigB := UnpackNonzero(b);
    expA, sigA := UnpackNonzero(a);
    SetHidden(sigA);
    SetHidden(sigB);
    ghost var mA, mB := Or(sigA, HIDDEN64), Or(sigB, HIDDEN64);
    var expDiff := expA - expB;
    sigA := Shl64(Or(sigA, HIDDEN64), 11);
    sigB := Shl64(Or(sigB, HIDDEN64), 11);
    Shift11(mA);
    Shift11(mB);
    if expDiff < 0 {
      if expDiff < -1 {
        SmallDividend(a, expA, mA, b, expB, mB);
        z := a;
        return;
      }
      sigA := sigA / 2;
    }
    var signZ;
    ghost var sA, sB := sigA, sigB;
    sigA, signZ := NearestRemainder(sigA, sigB, expDiff);
    RemainderRounds(env.roundingMode, a, expA, mA, b, expB, mB, sA, sigA, signZ);
    z := NormRoundPackToF64(env, signA != signZ, expB, sigA);
  }

  lemma Shift11(m: nat)
    requires HIDDEN64 <= m < 2 * HIDDEN64
    ensures Shl64(m, 11) == m * 0x800 && TOP64 <= m * 0x800 < W64
    ensures (m * 0x800) % 0x800 == 0 && (m * 0x800) % 0x200 == 0
    ensures (m * 0x800) / 2 == m * 0x400 && (m * 0x400) % 0x200 == 0
  {
    assert P2(11) == 0x800 by { P2Values(); }
    WrapSame(m * 0x800);
    hide P2, Wrap64;
    DivModUnique(m * 0x800, 0x800, m, 0);
    DivModUnique(m * 0x800, 0x200, 4 * m, 0);
    DivModUnique(m * 0x800, 2, m * 0x400, 0);
    DivModUnique(m * 0x400, 0x200, 2 * m, 0);
  }

  /** The remainder of a number by infinity is the number; of infinity, or by zero, there is none. */
  lemma SpecialDivisors(a: u64, z: u64)
    requires IsFinite(a)
    ensures RemainderResult(a, 0x7FF0_0000_0000_0000, z) <==> z == a
    ensures RemainderResult(0x7FF0_0000_0000_0000, a, z) <==> z == 0xFFFF_FFFF_FFFF_FFFF
    ensures RemainderResult(a, 0, z) <==> z == 0xFFFF_FFFF_FFFF_FFFF
    ensures RemainderFlags(a, 0x7FF0_0000_0000_0000) == NO_FLAGS
    ensures RemainderFlags(0x7FF0_0000_0000_0000, a).invalid && RemainderFlags(a, 0).invalid
  {
    hide AbsValue, IsRemainder, NaNResult;
  }

  lemma SpecialRemainder(a: u64, b: u64)
    ensures
      var aSpecial, bSpecial := ExpOf(a) == 0x7FF, ExpOf(b) == 0x7FF;
      var aNaN, bNaN := aSpecial && FracOf(a) != 0, bSpecial && FracOf(b) != 0;
      var bZero := ExpOf(b) == 0 && FracOf(b) == 0;
      && (aNaN || bNaN || aSpecial || bZero ==> RemainderResult(a, b, NAN64))
      && (aNaN || bNaN ==> RemainderFlags(a, b) == NaNResult(a, b).flags)
      && NaNResult(a, b).bits == NAN64
      && (!aNaN && !bNaN ==> RemainderFlags(a, b) == RaisedWhen(aSpecial || (bZero && !aSpecial), INVALID))
      && (!aSpecial && bSpecial && !bNaN ==> RemainderResult(a, b, a))
  {
    Fields(a);
    Fields(b);
    hide AbsValue, IsRemainder;
  }

  lemma FiniteRemainder(a: u64, b: u64, z: u64)
    requires IsFinite(a) && IsFinite(b) && !(ExpOf(b) == 0 && FracOf(b) == 0)
    ensures AbsValue(b) > 0.0
    ensures IsRemainder(a, b, z) ==> RemainderResult(a, b, z)
  {
    Fields(b);
    NonZeroDivisor(b);
    hide IsRemainder, AbsValue;
  }

  lemma ZeroDividend(a: u64, b: u64)
    requires IsFinite(b) && !(ExpOf(b) == 0 && FracOf(b) == 0)
    requires ExpOf(a) == 0 && FracOf(a) == 0
    ensures RemainderResult(a, b, a)
  {
    FiniteRemainder(a, b, a);
    ZeroValue(a);
    hide AbsValue, ExpOf, FracOf, RemainderResult;
    assert AbsValue(a) / AbsValue(b) == 0.0;
  }

  /** A dividend below half the divisor is its own remainder. */
  lemma SmallDividend(a: u64, expA: int, mA: nat, b: u64, expB: int, mB: nat)
    requires Unpacked(a, expA, mA) && Unpacked(b, expB, mB) && expA - expB < -1
    requires !(ExpOf(b) == 0 && FracOf(b) == 0)
    ensures RemainderResult(a, b, a)
  {
    hide AbsValue, Pow2, ExpOf, FracOf, RemainderResult, Scale;
    FiniteRemainder(a, b, a);
    assert 0.0 <= 2.0 * AbsValue(a) < AbsValue(b) by {
      ScaleNonNeg(mA, expA - 1075);
      ScaleLess(mA as real, (2 * mB) as real, expA - 1075);
      ScaleHalf(mB as real, expA - 1075);
      ScaleHalf(mB as real, expA - 1074);
      ScaleTwofold(mB as real, expA - 1075);
      ScaleMono(mB, expA - 1073, expB - 1075);
      assert (2 * mB) as real == 2.0 * mB as real;
    }
    var u := AbsValue(a) / AbsValue(b);
    HalfQuotient(AbsValue(a), AbsValue(b));
    assert RoundAt(NearEven, false, u) == 0;
  }

  lemma ScaleTwofold(x: real, e: int)
    ensures Scale(2.0 * x, e) == 2.0 * Scale(x, e)
  {
  }

  lemma ScaleMono(m: nat, e: int, f: int)
    requires e <= f
    ensures Scale(m as real, e) <= Scale(m as real, f)
  {
    hide Pow2;
    var x, p, r := m as real, Pow2(e), Pow2(f);
    assert Scale(x, e) == x * p && Scale(x, f) == x * r;
    hide Scale;
    assert p <= r by { Pow2Mono(e, f); }
    RealMulMono(x, p, r);
  }

  lemma HalfQuotient(x: real, y: real)
    requires 0.0 <= 2.0 * x < y
    ensures 0.0 <= x / y < 0.5
  {
    var u := x / y;
    assert u * y == x;
    ProductOrder(u, 0.5, y);
    ProductOrder(0.0, u, y);
    ProductOrder(u, 0.0, y);
  }

  /** Both operands in the units of the integer routine. */
  lemma CommonUnits(a: u64, expA: int, mA: nat, b: u64, expB: int, mB: nat)
    requires Unpacked(a, expA, mA) && Unpacked(b, expB, mB) && -1 <= expA - expB
    ensures AbsValue(b) == Scale((mB * 0x800) as real, expB - 1086)
    ensures AbsValue(a) == Scale(Dividend(if expA < expB then mA * 0x400 else mA * 0x800, expA - expB) as real, expB - 1086)
  {
    hide AbsValue, Pow2, P2;
    var d := expA - expB;
    P2Values();
    ScaleNat(mB, 11);
    ScaleScale(mB as real, 11, expB - 1086);
    if d < 0 {
      ScaleNat(mA, 10);
      ScaleScale(mA as real, 10, expB - 1086);
    } else {
      P2Add(11, d);
      ScaleNat(mA, 11 + d);
      ScaleScale(mA as real, 11 + d, expB - 1086);
      Reassociate(mA, 0x800, P2(d));
      if d == 0 { P2One(); }
    }
    hide Scale;
  }

  lemma P2One()
    ensures P2(0) == 1
  {
  }

  /** The significand the integer routine leaves is the remainder, and needs no rounding. */
  lemma RemainderRounds(mode: Mode, a: u64, expA: int, mA: nat, b: u64, expB: int, mB: nat, sA: u64, sigZ: u64, signZ: bool)
    requires Unpacked(a, expA, mA) && Unpacked(b, expB, mB) && -1 <= expA - expB
    requires !(ExpOf(b) == 0 && FracOf(b) == 0)
    requires sA == if expA < expB then mA * 0x400 else mA * 0x800
    requires sigZ < TOP64 && (signZ ==> sigZ > 0)
    requires
      var total := Dividend(sA, expA - expB);
      total - NearestQuotient(total, mB * 0x800) * (mB * 0x800) == 4 * (if signZ then 0 - sigZ else sigZ)
    ensures
      var out := Round64(mode, SignOf(a) != signZ, PackedAbs(expB, sigZ));
      out.flags == NO_FLAGS && 0 <= out.bits < W64 && RemainderResult(a, b, out.bits)
  {
    hide AbsValue, Pow2, ExpOf, FracOf, SignOf, RemainderResult, Scale, Round64, Dividend, NearestQuotient, PackedAbs, P2, Representable;
    var total, tb := Dividend(sA, expA - expB), mB * 0x800;
    var x := PackedAbs(expB, sigZ);
    CommonUnits(a, expA, mA, b, expB, mB);
    FiniteRemainder(a, b, a);
    ExactRemainder(a, b, total, tb, expB, sigZ, signZ);
    HalfDivisor(total, tb, sigZ, signZ);
    HalfOfDivisor(tb, expB, sigZ);
    RemainderRepresentable(a, expA, mA, b, expB, mB, x);
    RepresentableOutcome(mode, SignOf(a) != signZ, x);
    FiniteRemainder(a, b, Round64(mode, SignOf(a) != signZ, x).bits);
  }

  /** The remainder, in the units of the packed result. */
  lemma ExactRemainder(a: u64, b: u64, total: nat, tb: nat, expB: int, sigZ: u64, signZ: bool)
    requires tb > 0 && AbsValue(b) > 0.0
    requires AbsValue(a) == Scale(total as real, expB - 1086) && AbsValue(b) == Scale(tb as real, expB - 1086)
    requires total - NearestQuotient(total, tb) * tb == 4 * (if signZ then 0 - sigZ else sigZ)
    ensures Remainder(a, b) == if signZ then -PackedAbs(expB, sigZ) else PackedAbs(expB, sigZ)
    ensures PackedAbs(expB, sigZ) >= 0.0 && (sigZ > 0 ==> PackedAbs(expB, sigZ) > 0.0)
  {
    hide AbsValue, Pow2, NearestQuotient, P2, RoundAt;
    var n := NearestQuotient(total, tb);
    var e := expB - 1086;
    ScaledQuotient(total, e, tb, e);
    assert Scale(Ratio(total, tb), 0) == Ratio(total, tb) by { ScaleZero(Ratio(total, tb)); }
    NearestOfRatio(total, tb);
    assert AbsValue(a) / AbsValue(b) == Ratio(total, tb);
    ScaleWhole(n, tb, e);
    ScaleSum(total as real, (n * tb) as real, e);
    ScaleQuarter(sigZ, e);
    ScaleLess(0.0, sigZ as real, e + 2);
    ScaleNegate((4 * sigZ) as real, e);
    hide Scale;
    assert (total - n * tb) as real == total as real - (n * tb) as real;
  }

  lemma ScaleWhole(n: nat, m: nat, e: int)
    ensures n as real * Scale(m as real, e) == Scale((n * m) as real, e)
  {
    RealProduct(n, m);
    assert n as real * (m as real * Pow2(e)) == (n as real * m as real) * Pow2(e);
  }

  lemma ScaleQuarter(m: nat, e: int)
    ensures Scale((4 * m) as real, e) == Scale(m as real, e + 2)
  {
    ScaleHalf(m as real, e);
    ScaleHalf(m as real, e + 1);
  }

  lemma ScaleNegate(x: real, e: int)
    ensures Scale(-x, e) == -Scale(x, e)
  {
  }

  /** The nearest remainder is at most half the divisor. */
  lemma HalfDivisor(total: nat, tb: nat, sigZ: u64, signZ: bool)
    requires tb > 0
    requires total - NearestQuotient(total, tb) * tb == 4 * (if signZ then 0 - sigZ else sigZ)
    ensures 8 * sigZ <= tb
  {
    var q, r := total / tb, total % tb;
    assert total == q * tb + r;
    assert (q + 1) * tb == q * tb + tb;
  }

  lemma HalfOfDivisor(tb: nat, expB: int, sigZ: u64)
    requires 8 * sigZ <= tb
    ensures 2.0 * PackedAbs(expB, sigZ) <= Scale(tb as real, expB - 1086)
  {
    hide Pow2, P2;
    ScaleQuarter(sigZ, expB - 1086);
    ScaleTwofold((4 * sigZ) as real, expB - 1086);
    ScaleLess((8 * sigZ) as real, tb as real, expB - 1086);
    hide Scale;
    assert 2.0 * (4 * sigZ) as real == (8 * sigZ) as real;
  }

  /** A whole multiple of 2^g. */
  ghost predicate MultipleOf(x: real, g: int) {
    exists k: int :: IsMultiple(x, k, g)
  }

  ghost predicate IsMultiple(x: real, k: int, g: int) {
    x == Scale(k as real, g)
  }

  lemma OperandMultiple(a: u64, exp: int, m: nat, g: int)
    requires Unpacked(a, exp, m) && (g == -1074 || g <= exp - 1075)
    ensures MultipleOf(AbsValue(a), g)
  {
    hide AbsValue, Pow2, P2;
    if g == -1074 {
      var units := Units(a);
      assert IsMultiple(AbsValue(a), units, g);
    } else {
      var k := exp - 1075 - g;
      ScaleNat(m, k);
      ScaleScale(m as real, k, g);
      assert IsMultiple(AbsValue(a), m * P2(k), g);
    }
  }

  lemma RemainderMultiple(x: real, y: real, n: int, r: real, g: int)
    requires MultipleOf(x, g) && MultipleOf(y, g) && r == x - n as real * y
    ensures MultipleOf(r, g)
  {
    var k :| IsMultiple(x, k, g);
    var l :| IsMultiple(y, l, g);
    hide Pow2;
    RealProduct(n, l);
    ScaleSum(k as real, (n * l) as real, g);
    assert n as real * (l as real * Pow2(g)) == (n as real * l as real) * Pow2(g);
    assert IsMultiple(r, k - n * l, g);
  }

  /** Half a divisor at most, and on the finer of the two operands' grids: a number of the format. */
  lemma RemainderRepresentable(a: u64, expA: int, mA: nat, b: u64, expB: int, mB: nat, x: real)
    requires Unpacked(a, expA, mA) && Unpacked(b, expB, mB) && -1 <= expA - expB
    requires AbsValue(b) > 0.0 && x >= 0.0 && 2.0 * x <= AbsValue(b)
    requires Remainder(a, b) == x || Remainder(a, b) == -x
    ensures Representable(BINARY64, x) && x < Pow2(1023)
  {
    var low := (if expA < expB then expA else expB) - 1075;
    var g := if low < -1074 then -1074 else low;
    hide AbsValue, Pow2, P2, MultipleOf, RoundAt;
    OperandMultiple(a, expA, mA, g);
    OperandMultiple(b, expB, mB, g);
    var n := RoundAt(NearEven, false, AbsValue(a) / AbsValue(b));
    RemainderMultiple(AbsValue(a), AbsValue(b), n, Remainder(a, b), g);
    hide Remainder;
    DivisorBound(b, expB, mB, x);
    assert expB - 1023 <= g + 53 && expB - 1023 <= 1023;
    Pow2Mono(expB - 1023, g + 53);
    Pow2Mono(expB - 1023, 1023);
    hide Unpacked;
    SmallMultiple(Remainder(a, b), x, g);
  }

  lemma DivisorBound(b: u64, expB: int, mB: nat, x: real)
    requires Unpacked(b, expB, mB) && 2.0 * x <= AbsValue(b)
    ensures x < Pow2(expB - 1023)
  {
    PowerRatio(expB - 1075, 53);
    P2Values();
    ScaleLess(mB as real, P2(53) as real, expB - 1075);
    Pow2Succ(expB - 1023);
    hide AbsValue, Pow2, P2, Scale;
  }

  lemma SmallMultiple(r: real, x: real, g: int)
    requires MultipleOf(r, g) && (r == x || r == -x) && 0.0 <= x < Pow2(g + 53) && -1074 <= g
    ensures Representable(BINARY64, x)
  {
    var k :| IsMultiple(r, k, g);
    hide Pow2;
    ScaleNegate(k as real, g);
    PowerRatio(g, 53);
    P2Values();
    var n := if r == x then k else -k;
    assert x == Scale(n as real, g);
    ScaleLess(n as real, P2(53) as real, g);
    ScaleLess(0.0, n as real, g);
    assert IsValueOf(BINARY64, x, n, g);
  }
}
