/** Facts of integer and real arithmetic that the other modules cite by name. */
module Arith {

  lemma MulGe(x: int, y: int, d: int)
    requires x >= y && d >= 0
    ensures x * d >= y * d
  {
    assert (x - y) * d >= 0;
  }

  lemma MulUpper(x: int, y: int, m: int, n: int)
    requires 0 <= x <= m && 0 <= y <= n
    ensures 0 <= x * y <= m * n
  {
    MulGe(m, x, y);
    MulGe(n, y, m);
    assert y * m == m * y;
    assert n * m == m * n;
  }

  lemma Distribute(q: int, p: int, m: int, r: int)
    ensures (q * p + m) * r == q * (p * r) + m * r
  {
    assert (q * p + m) * r == q * p * r + m * r;
    assert q * p * r == q * (p * r);
  }

  lemma DivModUnique(n: int, d: int, q: int, r: int)
    requires d > 0 && n == q * d + r && 0 <= r < d
    ensures n / d == q && n % d == r
  {
    var q', r' := n / d, n % d;
    assert n == q' * d + r';
    var t := q' - q;
    assert t * d == r - r';
    if t > 0 { MulGe(t, 1, d); }
    if t < 0 { MulGe(-t, 1, d); }
  }

  lemma DivBound(a: nat, d: nat)
    requires d > 0
    ensures 0 <= a / d <= a
  {
    var q := a / d;
    assert a == q * d + a % d;
    if q > a { MulGe(q, a + 1, d); MulGe(d, 1, a + 1); }
    if q < 0 { MulGe(-q, 1, d); }
  }

  lemma DivBelow(a: nat, d: nat, k: nat)
    requires d > 0 && a < k * d
    ensures a / d < k
  {
    var q := a / d;
    assert a == q * d + a % d;
    if q >= k { MulGe(q, k, d); }
  }

  /** With p*r == w, multiplying by r modulo w keeps exactly the remainder modulo p. */
  lemma CutShift(a: nat, p: nat, r: nat, w: nat)
    requires p > 0 && r > 0 && p * r == w
    ensures w > 0 && (a * r) % w == (a % p) * r
    ensures (a * r) % w == 0 <==> a % p == 0
    ensures 0 <= (a % p) * r <= w - r
  {
    var q, m := a / p, a % p;
    assert a == q * p + m;
    Distribute(q, p, m, r);
    MulGe(p - 1, m, r);
    assert (p - 1) * r == p * r - r;
    MulGe(m, 0, r);
    DivModUnique(a * r, w, q, m * r);
    if m > 0 { MulGe(m, 1, r); }
  }

  /** Dividing a two-word number by a divisor of its base, p*r == w. */
  lemma ShortQuotient(a: nat, b: nat, p: nat, r: nat, w: nat)
    requires p > 0 && r > 0 && p * r == w
    ensures (a * w + b) / p == (a / p) * w + ((a % p) * r + b / p)
    ensures (a * w + b) % p == b % p
  {
    var h, l, q, m := a / p, a % p, b / p, b % p;
    assert a == h * p + l && b == q * p + m && 0 <= m < p;
    ShortQuotientTerms(h, l, q, m, p, r, w);
    DivModUnique(a * w + b, p, h * w + (l * r + q), m);
  }

  lemma ShortQuotientTerms(h: int, l: int, q: int, m: int, p: int, r: int, w: int)
    requires p * r == w
    ensures (h * p + l) * w + (q * p + m) == (h * w + (l * r + q)) * p + m
  {
    assert (h * p + l) * w == (h * p) * w + l * w;
    assert (h * w + (l * r + q)) * p == (h * w) * p + (l * r) * p + q * p;
    assert (h * p) * w == (h * w) * p;
    assert (l * r) * p == l * w by { assert (l * r) * p == l * (r * p); }
  }

  /** Dividing a two-word number by a multiple of its base. */
  lemma LongQuotient(a: nat, b: nat, p: nat, w: nat)
    requires p > 0 && b < w
    ensures p * w > 0
    ensures (a * w + b) / (p * w) == a / p
    ensures (a * w + b) % (p * w) == (a % p) * w + b
  {
    var h, l := a / p, a % p;
    assert a == h * p + l;
    Distribute(h, p, l, w);
    MulGe(p - 1, l, w);
    MulGe(l, 0, w);
    MulGe(p, 1, w);
    assert (p - 1) * w == p * w - w;
    DivModUnique(a * w + b, p * w, h, l * w + b);
  }

  /** Multiplying a two-word number by a divisor of its base. */
  lemma LeftParts(a: nat, b: nat, p: nat, r: nat, w: nat)
    requires r > 0 && p * r == w
    ensures (a * p + b / r) * w + (b % r) * p == (a * w + b) * p
  {
    var q, m := b / r, b % r;
    assert b == q * r + m;
    assert (q * r) * p == q * w;
    assert (a * p + q) * w + m * p == a * p * w + q * w + m * p;
  }

  lemma EvenMultiple(a: nat, g: nat)
    requires g % 2 == 0
    ensures (a * g) % 2 == 0
  {
    assert a * g == 2 * (a * (g / 2));
  }

  lemma RealMulStrict(x: real, y: real, p: real)
    requires x < y && p > 0.0
    ensures x * p < y * p
  {
    assert (y - x) * p > 0.0;
  }

  lemma RealMulMono(x: real, p: real, r: real)
    requires x >= 0.0 && p <= r
    ensures x * p <= x * r
  {
    var d := r - p;
    assert x * d >= 0.0;
    assert x * (p + d) == x * p + x * d;
  }

  lemma ProductOrder(x: real, y: real, d: real)
    requires d > 0.0
    ensures x < y <==> x * d < y * d
    ensures x == y <==> x * d == y * d
  {
    if x < y { RealMulStrict(x, y, d); }
    if y < x { RealMulStrict(y, x, d); }
  }

  lemma RealProduct(x: int, y: int)
    ensures (x * y) as real == x as real * y as real
  {
  }
}
