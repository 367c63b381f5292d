/** Powers of two, as naturals (shift counts) and as reals (exponents of floating-point values). */
module Powers {
  import opened Arith

  function P2(n: nat): (r: nat)
    ensures r > 0
  {
    if n == 0 then 1 else 2 * P2(n - 1)
  }

  ghost function Pow2(e: int): (r: real)
    ensures r > 0.0
    decreases if e >= 0 then e else -e
  {
    if e == 0 then 1.0
    else if e > 0 then 2.0 * Pow2(e - 1)
    else Pow2(e + 1) / 2.0
  }

  /** x scaled by 2^e. */
  ghost function Scale(x: real, e: int): real {
    x * Pow2(e)
  }

  lemma Pow2Succ(e: int)
    ensures Pow2(e + 1) == 2.0 * Pow2(e)
    ensures Pow2(0) == 1.0
  {
  }

  lemma {:induction false} Pow2Add(a: int, b: int)
    ensures Pow2(a + b) == Pow2(a) * Pow2(b)
    decreases if b >= 0 then b else -b
  {
    hide Pow2;
    Pow2Succ(0);
    if b > 0 {
      Pow2Add(a, b - 1);
      Pow2AddStep(a, b - 1);
    } else if b < 0 {
      Pow2Add(a, b + 1);
      Pow2AddStep(a, b);
    }
  }

  lemma Pow2AddStep(a: int, b: int)
    ensures Pow2(a + b) == Pow2(a) * Pow2(b) <==> Pow2(a + (b + 1)) == Pow2(a) * Pow2(b + 1)
  {
    hide Pow2;
    Pow2Succ(a + b);
    Pow2Succ(b);
    assert a + (b + 1) == a + b + 1;
    DoubleFactor(Pow2(a), Pow2(b), Pow2(b + 1), Pow2(a + b), Pow2(a + b + 1));
  }

  lemma DoubleFactor(p: real, r: real, r2: real, pr: real, pr2: real)
    requires r2 == 2.0 * r && pr2 == 2.0 * pr
    ensures pr == p * r <==> pr2 == p * r2
  {
    assert p * r2 == 2.0 * (p * r);
  }

  lemma {:induction false} Pow2Nat(n: nat)
    ensures Pow2(n) == P2(n) as real
  {
    if n > 0 {
      Pow2Nat(n - 1);
    }
  }

  lemma Pow2Inverse(e: int)
    ensures Pow2(e) * Pow2(-e) == 1.0
  {
    Pow2Add(e, -e);
  }

  lemma {:induction false} Pow2Mono(a: int, b: int)
    requires a <= b
    ensures Pow2(a) <= Pow2(b)
    ensures a < b ==> 2.0 * Pow2(a) <= Pow2(b)
    decreases b - a
  {
    if a < b {
      Pow2Succ(a);
      Pow2Mono(a + 1, b);
    }
  }

  lemma {:induction false} P2Add(a: nat, b: nat)
    ensures P2(a + b) == P2(a) * P2(b)
  {
    if a > 0 {
      P2Add(a - 1, b);
      P2Succ(a - 1);
      P2Succ(a - 1 + b);
      hide P2;
      assert a - 1 + b + 1 == a + b;
      TwiceProduct(P2(a - 1), P2(b));
    }
  }

  lemma TwiceProduct(x: int, y: int)
    ensures (2 * x) * y == 2 * (x * y)
  {
  }

  lemma {:induction false} P2Mono(a: nat, b: nat)
    requires a <= b
    ensures P2(a) <= P2(b)
    ensures a < b ==> 2 * P2(a) <= P2(b)
    decreases b
  {
    if a < b {
      P2Mono(a, b - 1);
    }
  }

  lemma P2Small()
    ensures P2(0) == 1 && P2(1) == 2 && P2(2) == 4 && P2(3) == 8 && P2(4) == 16 && P2(5) == 32
    ensures P2(6) == 64 && P2(7) == 0x80 && P2(8) == 0x100 && P2(9) == 0x200 && P2(10) == 0x400 && P2(11) == 0x800
  {
  }

  lemma P2Values()
    ensures P2(0) == 1 && P2(1) == 2 && P2(2) == 4 && P2(3) == 8 && P2(4) == 16 && P2(5) == 32
    ensures P2(6) == 64 && P2(7) == 0x80 && P2(8) == 0x100 && P2(9) == 0x200 && P2(10) == 0x400 && P2(11) == 0x800
    ensures P2(16) == 0x1_0000 && P2(22) == 0x40_0000 && P2(23) == 0x80_0000 && P2(24) == 0x100_0000
    ensures P2(29) == 0x2000_0000 && P2(30) == 0x4000_0000 && P2(31) == 0x8000_0000
    ensures P2(32) == 0x1_0000_0000 && P2(52) == 0x10_0000_0000_0000 && P2(53) == 0x20_0000_0000_0000
    ensures P2(51) == 0x8_0000_0000_0000 && P2(61) == 0x2000_0000_0000_0000
    ensures P2(62) == 0x4000_0000_0000_0000 && P2(63) == 0x8000_0000_0000_0000
    ensures P2(64) == 0x1_0000_0000_0000_0000
  {
    hide P2;
    P2Small();
    P2Add(8, 8);
    P2Add(11, 11);
    P2Succ(22);
    P2Succ(23);
    P2Add(7, 22);
    P2Succ(29);
    P2Succ(30);
    P2Add(16, 16);
    P2Add(22, 29);
    P2Succ(51);
    P2Succ(52);
    P2Add(29, 32);
    P2Succ(61);
    P2Succ(62);
    P2Succ(63);
  }

  // ----- scaling -----

  lemma ScaleScale(x: real, a: int, b: int)
    ensures Scale(Scale(x, a), b) == Scale(x, a + b)
  {
    hide Pow2;
    Pow2Add(a, b);
    assert x * Pow2(a) * Pow2(b) == x * (Pow2(a) * Pow2(b));
  }

  lemma ScaleBack(x: real, e: int)
    ensures Scale(Scale(x, e), -e) == x
  {
    ScaleScale(x, e, -e);
  }

  lemma ScaleLess(x: real, y: real, e: int)
    ensures x < y <==> Scale(x, e) < Scale(y, e)
    ensures x <= y <==> Scale(x, e) <= Scale(y, e)
    ensures x == y <==> Scale(x, e) == Scale(y, e)
  {
    hide Pow2;
    ProductOrder(x, y, Pow2(e));
  }

  lemma PowerUnits(a: int, b: int, k: nat)
    requires a + b == k
    ensures Scale(Pow2(a), b) == P2(k) as real
  {
    Pow2Add(a, b);
    Pow2Nat(k);
    hide Pow2, P2;
  }

  lemma P2Succ(k: nat)
    ensures P2(k + 1) == 2 * P2(k)
  {
  }

  /** A number shifted left by k, at an exponent k lower. */
  lemma ShiftedLeft(m: nat, k: nat, e: int)
    ensures Scale((m * P2(k)) as real, e - k) == Scale(m as real, e)
  {
    ScaleNat(m, k);
    ScaleScale(m as real, k, e - k);
    hide Pow2, P2;
  }

  lemma ScaleNonNeg(m: nat, e: int)
    ensures Scale(m as real, e) >= 0.0
    ensures m > 0 ==> Scale(m as real, e) > 0.0
  {
    ScaleLess(0.0, m as real, e);
  }

  lemma ScaleKeepsSign(x: real, e: int)
    requires x >= 0.0
    ensures Scale(x, e) >= 0.0
  {
    ScaleLess(0.0, x, e);
  }

  lemma ScaleSum(x: real, y: real, e: int)
    ensures Scale(x + y, e) == Scale(x, e) + Scale(y, e)
    ensures Scale(x - y, e) == Scale(x, e) - Scale(y, e)
  {
  }

  /** Scaling an integer by a non-negative power is an integer shift. */
  lemma ScaleNat(m: int, k: nat)
    ensures Scale(m as real, k) == (m * P2(k)) as real
  {
    Pow2Nat(k);
  }
}
