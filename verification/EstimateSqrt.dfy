/** softfloat_estimateSqrt32: a table of tangent corrections and two Newton steps. */
module EstimateSqrt {
  import opened Arith
  import opened Words

  const SQRT_ODD_ADJUSTMENTS: seq<int> := [
    0x0004, 0x0022, 0x005D, 0x00B1, 0x011D, 0x019F, 0x0236, 0x02E0,
    0x039C, 0x0468, 0x0545, 0x0631, 0x072B, 0x0832, 0x0946, 0x0A67]
  const SQRT_EVEN_ADJUSTMENTS: seq<int> := [
    0x0A2D, 0x08AF, 0x075A, 0x0629, 0x051A, 0x0429, 0x0356, 0x029E,
    0x0200, 0x0179, 0x0109, 0x00AF, 0x0068, 0x0034, 0x0012, 0x0002]

  /** z is less than two above the root of n and less than one below it. */
  ghost predicate RootEstimate(n: int, z: int) {
    z >= 2 && (z - 2) * (z - 2) < n < (z + 1) * (z + 1)
  }

  /** The number whose root is estimated: a, halved when the exponent is odd, in 32.32 fixed point. */
  function Radicand(expA: int, a: u32): u64 {
    (if expA % 2 == 1 then a / 2 else a) * W32
  }

  method EstimateSqrt32(expA: int, sigA: u32) returns (r: u32)
    requires 0x8000_0000 <= sigA
    ensures RootEstimate(Radicand(expA, sigA), r)
  {
    hide RootEstimate, CloseEven, CloseOdd, CloseRoot;
    var a := sigA;
    var index := (a / 0x800_0000) % 16;
    var z: u32;
    if expA % 2 == 1 {
      OddSegments(a);
      z := 0x4000 + a / 0x2_0000 - SQRT_ODD_ADJUSTMENTS[index];
      OddStep(a, z);
      z := (a / z) * 0x4000 + z * 0x8000;
      a := a / 2;
    } else {
      EvenSegments(a);
      z := 0x8000 + a / 0x2_0000 - SQRT_EVEN_ADJUSTMENTS[index];
      EvenStep(a, z);
      z := a / z + z;
      z := if 0x2_0000 <= z then 0xFFFF_8000 else z * 0x8000;
      if z <= a {
        NearOne(a, z / 0x8000);
        r := Wrap32((a - W32) / 2);
        return;
      }
    }
    LastStep(a, z);
    r := (a * 0x8000_0000) / z + z / 2;
  }

  // ----- the table -----

  lemma Chord(t: int, lo: int, hi: int)
    requires lo <= t <= hi
    ensures t * t <= (lo + hi) * t - lo * hi
  {
    assert (t - lo) * (hi - t) >= 0;
  }

  lemma Tangent(t: int, p: int)
    ensures t * t >= 2 * p * t - p * p
  {
    assert (t - p) * (t - p) >= 0;
  }

  /** z is near enough to the root of a. */
  ghost predicate CloseEven(a: int, z: int) {
    0xB5D3 <= z <= 0xFFFD && -600 * z <= a - z * z <= 600 * z
  }

  /** z is near enough to the root of a/2. */
  ghost predicate CloseOdd(a: int, z: int) {
    0x7FFC <= z <= 0xB598 && -1000 * z <= a - 2 * (z * z) <= 1000 * z
  }

  lemma EvenSegments(a: u32)
    requires 0x8000_0000 <= a
    ensures CloseEven(a, 0x8000 + a / 0x2_0000 - SQRT_EVEN_ADJUSTMENTS[(a / 0x800_0000) % 16])
  {
    var t, i := a / 0x2_0000, (a / 0x800_0000) % 16;
    SegmentIndex(a);
    EvenSegment(t, i);
    hide CloseEven;
    EvenTail(a, t, 0x8000 + t - SQRT_EVEN_ADJUSTMENTS[i]);
  }

  lemma OddSegments(a: u32)
    requires 0x8000_0000 <= a
    ensures CloseOdd(a, 0x4000 + a / 0x2_0000 - SQRT_ODD_ADJUSTMENTS[(a / 0x800_0000) % 16])
  {
    var t, i := a / 0x2_0000, (a / 0x800_0000) % 16;
    SegmentIndex(a);
    OddSegment(t, i);
    hide CloseOdd;
    OddTail(a, t, 0x4000 + t - SQRT_ODD_ADJUSTMENTS[i]);
  }

  lemma SegmentIndex(a: u32)
    requires 0x8000_0000 <= a
    ensures
      var t, i := a / 0x2_0000, (a / 0x800_0000) % 16;
      (16 + i) * 1024 <= t < (17 + i) * 1024 && t * 0x2_0000 <= a < (t + 1) * 0x2_0000
  {
  }

  lemma Shifted(t: int, c: int)
    ensures (c + t) * (c + t) == t * t + 2 * c * t + c * c
  {
  }

  /** Over one segment the table entry keeps the straight line within bounds: a chord above, a tangent below. */
  lemma EvenSegment(t: nat, i: nat)
    requires i < 16 && (16 + i) * 1024 <= t < (17 + i) * 1024
    ensures
      var z := 0x8000 + t - SQRT_EVEN_ADJUSTMENTS[i];
      0xB5D3 <= z <= 0xFFFD && z * z - 600 * z <= t * 0x2_0000 && (t + 1) * 0x2_0000 <= z * z + 600 * z
  {
    Chord(t, (16 + i) * 1024, (17 + i) * 1024 - 1);
    Tangent(t, (16 + i) * 1024 + 512);
    Shifted(t, 0x8000 - SQRT_EVEN_ADJUSTMENTS[i]);
    if i < 4 {
      if i == 0 {} else if i == 1 {} else if i == 2 {}
    } else if i < 8 {
      if i == 4 {} else if i == 5 {} else if i == 6 {}
    } else if i < 12 {
      if i == 8 {} else if i == 9 {} else if i == 10 {}
    } else {
      if i == 12 {} else if i == 13 {} else if i == 14 {}
    }
  }

  lemma OddSegment(t: nat, i: nat)
    requires i < 16 && (16 + i) * 1024 <= t < (17 + i) * 1024
    ensures
      var z := 0x4000 + t - SQRT_ODD_ADJUSTMENTS[i];
      0x7FFC <= z <= 0xB598 && 2 * (z * z) - 1000 * z <= t * 0x2_0000 && (t + 1) * 0x2_0000 <= 2 * (z * z) + 1000 * z
  {
    Chord(t, (16 + i) * 1024, (17 + i) * 1024 - 1);
    Tangent(t, (16 + i) * 1024 + 512);
    Shifted(t, 0x4000 - SQRT_ODD_ADJUSTMENTS[i]);
    if i < 4 {
      if i == 0 {} else if i == 1 {} else if i == 2 {}
    } else if i < 8 {
      if i == 4 {} else if i == 5 {} else if i == 6 {}
    } else if i < 12 {
      if i == 8 {} else if i == 9 {} else if i == 10 {}
    } else {
      if i == 12 {} else if i == 13 {} else if i == 14 {}
    }
  }

  lemma EvenTail(a: u32, t: nat, z: int)
    requires t * 0x2_0000 <= a < (t + 1) * 0x2_0000
    requires 0xB5D3 <= z <= 0xFFFD && z * z - 600 * z <= t * 0x2_0000 && (t + 1) * 0x2_0000 <= z * z + 600 * z
    ensures CloseEven(a, z)
  {
  }

  lemma OddTail(a: u32, t: nat, z: int)
    requires t * 0x2_0000 <= a < (t + 1) * 0x2_0000
    requires 0x7FFC <= z <= 0xB598 && 2 * (z * z) - 1000 * z <= t * 0x2_0000
    requires (t + 1) * 0x2_0000 <= 2 * (z * z) + 1000 * z
    ensures CloseOdd(a, z)
  {
  }

  // ----- the first step -----

  /** z, a multiple of 2^15, is close enough to the root of n for one Newton step to reach it. */
  ghost predicate CloseRoot(n: int, z: int) {
    z % 2 == 0 && 0x6000_0000 <= z < W32 && -180000 * z <= n - z * z <= 180000 * z
  }

  lemma EvenStep(a: u32, z: int)
    requires CloseEven(a, z)
    ensures
      var y := a / z + z;
      var w := if 0x2_0000 <= y then 0x1_FFFF else y;
      && 0 <= y < W32
      && -5 * w <= 4 * a - w * w <= 5 * w && 0x1_0000 <= w <= 0x1_FFFF
      && CloseRoot(a * W32, w * 0x8000)
  {
    var q, m := a / z, a % z;
    assert a == q * z + m;
    QuotientNear(a, z, q, m, z, 600);
    var w := if 0x2_0000 <= q + z then 0x1_FFFF else q + z;
    MeanSquare(q, z);
    SmallSquare(q - z, 601);
    SquareMono(w, q + z);
    EvenBound(a, q + z, (q + z) * (q + z), z, m, (q - z) * (q - z), w, w * w);
    EvenUnits(a, w);
  }

  lemma EvenBound(a: int, y: int, s: int, z: int, m: int, d: int, w: int, t: int)
    requires 0 <= a < W32 && 0 <= m < z <= 0xFFFD && 92493 <= y && z <= y
    requires s == d + 4 * (a - m) && 0 <= d <= 601 * 601
    requires if 0x2_0000 <= y then w == 0x1_FFFF && t == 0x1_FFFF * 0x1_FFFF <= s else w == y && t == s
    ensures -5 * w <= 4 * a - t <= 5 * w
  {
  }

  lemma QuotientNear(a: int, z: int, q: int, m: int, c: int, k: int)
    requires z > 0 && a == q * z + m && 0 <= m < z && -k * z <= a - c * z <= k * z
    ensures -k - 1 <= q - c <= k + 1
  {
    assert (q - c) * z == a - m - c * z;
    if q - c > k { MulGe(q - c, k + 1, z); }
    if q - c < -k - 1 { MulGe(-k - 2, q - c, z); }
  }

  lemma MeanSquare(q: int, z: int)
    ensures (q + z) * (q + z) == (q - z) * (q - z) + 4 * (q * z)
  {
  }

  lemma SmallSquare(x: int, k: int)
    requires -k <= x <= k
    ensures 0 <= x * x <= k * k
  {
    if x >= 0 { MulUpper(x, x, k, k); } else { MulUpper(-x, -x, k, k); }
  }

  lemma SquareMono(x: int, y: int)
    requires 0 <= x <= y
    ensures x * x <= y * y
  {
    MulUpper(x, x, y, y);
  }

  lemma EvenUnits(a: int, w: int)
    requires 0x1_0000 <= w <= 0x1_FFFF && -5 * w <= 4 * a - w * w <= 5 * w
    ensures CloseRoot(a * W32, w * 0x8000)
  {
    var s := w * w;
    assert (w * 0x8000) * (w * 0x8000) == s * 0x4000_0000;
  }

  lemma OddStep(a: u32, z: int)
    requires CloseOdd(a, z)
    ensures
      var y := (a / z) * 0x4000 + z * 0x8000;
      0 <= y < W32 && a / 2 < y && CloseRoot((a / 2) * W32, y)
  {
    var q, m := a / z, a % z;
    assert a == q * z + m;
    assert a - 2 * (z * z) == a - (2 * z) * z;
    QuotientNear(a, z, q, m, 2 * z, 1000);
    var w := q + 2 * z;
    MeanSquare(q, 2 * z);
    assert q * (2 * z) == 2 * (q * z);
    SmallSquare(q - 2 * z, 1001);
    OddBound(a, w, w * w, z, m, (q - 2 * z) * (q - 2 * z));
    OddUnits(a, w);
  }

  lemma OddBound(a: int, w: int, s: int, z: int, m: int, d: int)
    requires 0 <= m < z && 130055 <= w && 2 * z <= w
    requires s == d + 8 * (a - m) && 0 <= d <= 1001 * 1001
    ensures -9 * w <= 8 * a - s <= 9 * w
  {
  }

  lemma OddUnits(a: int, w: int)
    requires 0x1_FB00 <= w < 0x3_0000 && -9 * w <= 8 * a - w * w <= 9 * w
    ensures CloseRoot((a / 2) * W32, w * 0x4000) && a / 2 < w * 0x4000
  {
    var s := w * w;
    assert (w * 0x4000) * (w * 0x4000) == s * 0x1000_0000;
    var h := a / 2;
    assert h * W32 == 16 * h * 0x1000_0000;
    assert 8 * a - 8 <= 16 * h <= 8 * a;
    if w * 0x4000 <= a / 2 { MulGe(0x2_FFFF, w, w); }
  }

  // ----- the last step -----

  /** The mean of z and n/z, computed with halves cut off, is just above the root. */
  lemma MeanIsRoot(n: int, w: int, q: int, m: int)
    requires w > 0 && n == q * (4 * w) + m && 0 <= m < 4 * w
    requires q + w >= 2 && (q - w) * (q - w) < 4 * (q + w) - 4
    ensures RootEstimate(n, q + w)
  {
    MeanTerms(q, w);
    FourFold(q, w);
    hide RootEstimate;
    FromTerms(n, q + w, m, q * w, (q - w) * (q - w), q - w);
  }

  lemma FourFold(q: int, w: int)
    ensures q * (4 * w) == 4 * (q * w)
  {
  }

  lemma MeanTerms(q: int, w: int)
    ensures (q + w - 2) * (q + w - 2) == (q - w) * (q - w) + 4 * (q * w) - 4 * (q + w) + 4
    ensures (q + w + 1) * (q + w + 1) == (q - w) * (q - w) + 4 * (q * w) + 2 * (q + w) + 1
    ensures (q - w) * (q - w) + 2 * (q - w) + 1 >= 0
  {
    MeanSquare(q, w);
    SquareOfSum(q + w, -2);
    SquareOfSum(q + w, 1);
    SquareOfSum(q - w, 1);
    SquareSign(q - w + 1);
  }

  lemma SquareOfSum(x: int, c: int)
    ensures (x + c) * (x + c) == x * x + 2 * c * x + c * c
  {
  }

  lemma SquareSign(x: int)
    ensures x * x >= 0
  {
  }

  lemma FromTerms(n: int, e: int, m: int, p: int, d: int, f: int)
    requires n == 4 * p + m && 0 <= m < 2 * (e - f) && e >= 2
    requires (e - 2) * (e - 2) == d + 4 * p - 4 * e + 4 && (e + 1) * (e + 1) == d + 4 * p + 2 * e + 1
    requires d < 4 * e - 4 && d + 2 * f + 1 >= 0
    ensures RootEstimate(n, e)
  {
  }

  lemma LastStep(a: u32, z: u32)
    requires CloseRoot(a * W32, z) && 0x4000_0000 <= a
    requires a < z
    ensures (a * 0x8000_0000) / z + z / 2 < W32
    ensures RootEstimate(a * W32, (a * 0x8000_0000) / z + z / 2)
  {
    var q, m := (a * 0x8000_0000) / z, (a * 0x8000_0000) % z;
    assert a * 0x8000_0000 == q * z + m;
    LastParts(a, z / 2, q, m);
  }

  lemma LastParts(a: int, w: int, q: int, m: int)
    requires a * 0x8000_0000 == q * (2 * w) + m && 0 <= m < 2 * w
    requires CloseRoot(a * W32, 2 * w) && 0x4000_0000 <= a < 2 * w
    ensures q + w < W32 && RootEstimate(a * W32, q + w)
  {
    var n := a * W32;
    assert q * (4 * w) == 2 * (q * (2 * w));
    assert w * (4 * w) == (2 * w) * (2 * w);
    QuotientNear(n, 4 * w, q, 2 * m, w, 90000);
    SmallSquare(q - w, 90001);
    if q >= 0x8000_0000 { MulGe(q, 0x8000_0000, 2 * w); }
    LargeMean(n, q, w, 2 * m);
    hide RootEstimate;
    MeanIsRoot(n, w, q, 2 * m);
  }

  lemma LargeMean(n: int, q: int, w: int, m: int)
    requires n == q * (4 * w) + m && 0 <= m < 4 * w && 0x4000_0000 * W32 <= n
    requires q >= 0 && w >= 0
    ensures q + w >= 0x7FFF_FFFF
  {
    MeanTerms(q, w);
    assert q * (4 * w) == 4 * (q * w);
    assert n < (q + w + 1) * (q + w + 1);
    AtLeast(q + w + 1);
  }

  lemma AtLeast(x: int)
    requires x >= 0 && 0x8000_0000 * 0x8000_0000 <= x * x
    ensures x >= 0x8000_0000
  {
    if x < 0x8000_0000 { MulUpper(x, x, 0x7FFF_FFFF, 0x7FFF_FFFF); }
  }

  /** For a radicand close to one the mean of a and one will do. */
  lemma NearOne(a: u32, w: int)
    requires 0x8000_0000 <= a && 0 < w && w * 0x8000 <= a && 4 * a - w * w <= 5 * w
    ensures Wrap32((a - W32) / 2) == (a + W32) / 2
    ensures RootEstimate(a * W32, (a + W32) / 2)
  {
    if w < 0x1_FFFB { MulGe(0x1_FFFA, w, w); }
    var d, r := W32 - a, (a + W32) / 2;
    SmallSquare(d, 0x2_8000);
    assert (a + W32) * (a + W32) == d * d + 4 * (a * W32);
    var s := a + W32;
    assert s * s == d * d + 4 * (a * W32);
    assert s == 2 * r + s % 2;
    HalvedSquares(s, r, s % 2);
  }

  lemma HalvedSquares(s: int, r: int, b: int)
    requires s == 2 * r + b && 0 <= b <= 1
    ensures 4 * ((r - 2) * (r - 2)) == s * s - (8 + 2 * b) * s + 16 + 9 * b
    ensures 4 * ((r + 1) * (r + 1)) == s * s + (4 - 2 * b) * s + 4 - 3 * b
  {
    assert r * 2 == s - b;
    if b == 0 {
      assert s * s == 4 * (r * r);
    } else {
      assert s * s == 4 * (r * r) + 4 * r + 1;
    }
  }
}
