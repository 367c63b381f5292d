/** softfloat_estimateDiv128To64: two 32-bit quotient digits by long division, the first corrected, the second not. */
module EstimateDiv {
  import opened Arith
  import opened Powers
  import opened Sticky
  import opened Words

  /** One digit of the estimate: x / (top half of b), capped at the largest digit. */
  function Digit(x: u64, b32: u32): (d: nat)
    requires b32 > 0
  {
    DivBound(x, b32);
    if b32 * W32 <= x then W32 - 1 else x / b32
  }

  /** A digit estimate is never below the true digit and at most two above it. */
  lemma DigitBounds(x: u64, low: u32, b: u64)
    requires x < b && TOP64 <= b
    ensures Quo(x * W32 + low, b) <= Digit(x, b / W32) <= Quo(x * W32 + low, b) + 2
    ensures Digit(x, b / W32) < W32
  {
    var n := x * W32 + low;
    var h, l := b / W32, b % W32;
    var q, r := n / b, n % b;
    var d := Digit(x, h);
    assert b == h * W32 + l && n == q * b + r;
    DivBound(n, b);
    assert d < W32 && d * h <= x && (d < W32 - 1 ==> x < (d + 1) * h) by { DigitRange(x, h); }
    assert d < q + 3 by {
      if d >= q + 3 {
        assert d * b == (d * h) * W32 + d * l by { Distribute'(d, h, l); }
        MulUpper(d, l, W32 - 1, W32 - 1);
        ThreeMore(d, q, b);
        assert false;
      }
    }
    assert q <= d by {
      if d < q {
        if d < W32 - 1 {
          MulGe(q, d + 1, b);
          Distribute'(d + 1, h, l);
          MulGe(d + 1, 0, l);
        } else {
          MulGe(q, W32, b);
        }
        assert false;
      }
    }
  }

  lemma ThreeMore(d: int, q: int, b: int)
    requires d >= q + 3 && b >= 0
    ensures d * b >= q * b + 3 * b
  {
    MulGe(d, q + 3, b);
  }

  lemma Distribute'(d: int, h: int, l: int)
    ensures d * (h * W32 + l) == (d * h) * W32 + d * l
  {
  }

  lemma DigitRange(x: u64, h: u32)
    requires h > 0
    ensures
      var d := Digit(x, h);
      d < W32 && d * h <= x && (d < W32 - 1 ==> x < (d + 1) * h)
  {
    var d := Digit(x, h);
    if h * W32 <= x {
      assert (W32 - 1) * h == W32 * h - h;
    } else {
      var q := x / h;
      assert x == q * h + x % h;
      assert (q + 1) * h == q * h + h;
      if q >= W32 { MulGe(q, W32, h); }
    }
  }

  method EstimateDiv128To64(a64: u64, a0: u64, b: u64) returns (z: u64)
    requires TOP64 <= b
    ensures b <= a64 ==> z == W64 - 1
    ensures a64 < b ==> Quo(a64 * W64 + a0, b) <= z <= Quo(a64 * W64 + a0, b) + 2
  {
    hide Quo, Residue, TrueDigit, Digit, Or, P2, Holds128;
    if b <= a64 { return W64 - 1; }
    var b32: u32 := b / W32;
    var d := Digit(a64, b32);
    DigitBounds(a64, a0 / W32, b);
    z := d * W32;
    ghost var a := a64 * W64 + a0;
    ghost var q := Quo(a64 * W32 + a0 / W32, b);
    ghost var w := b * W32;
    FirstDigit(a, a64 * W32 + a0 / W32, a0 % W32, b);
    var term := Mul64To128(b, z);
    ghost var exact := a - term.Val();
    assert Residue(a, d, w, exact) by { ResidueStart(a, b, d); }
    var rem := Sub128(a64, a0, term.v64, term.v0);
    ghost var corrections := 0;
    SplitDivisor(b);
    hide Wrap64;
    ResidueBounds(a, q, w, d, exact);
    SignBit(rem, exact);
    while TOP64 <= rem.v64
      invariant q <= d && d + corrections <= q + 2
      invariant z == d * W32 && d < W32
      invariant Residue(a, d, w, exact)
      invariant -2 * w <= exact < w && (exact < 0 <==> d > q)
      invariant Holds128(rem, exact)
      invariant TOP64 <= rem.v64 <==> exact < 0
      decreases d
    {
      z := z - W32;
      var next := Add128(rem.v64, rem.v0, b32, Wrap64(b * W32));
      HoldsSum(rem, exact, next, w);
      rem := next;
      ResidueStep(a, d, w, exact);
      d := d - 1;
      exact := exact + w;
      corrections := corrections + 1;
      ResidueBounds(a, q, w, d, exact);
      SignBit(rem, exact);
    }
    assert corrections <= 2 && d == q;
    SignBit(rem, exact);
    var rem32 := Wrap64(rem.v64 * W32) + rem.v0 / W32;
    MiddleWord(rem);
    DigitBounds(rem32, rem.v0 % W32, b);
    var d0 := Digit(rem32, b32);
    OrDigit(d, d0);
    TwoDigits(a, b, d, exact);
    z := Or(z, d0);
    assert z == d * W32 + d0;
    assert exact == rem32 * W32 + rem.v0 % W32;
    assert Quo(a, b) <= z <= Quo(a, b) + 2;
  }

  lemma SplitDivisor(b: u64)
    ensures (b / W32) * W64 + Wrap64(b * W32) == b * W32
  {
  }

  lemma MiddleWord(rem: U128)
    requires rem.v64 < W32
    ensures Wrap64(rem.v64 * W32) + rem.v0 / W32 < W64
    ensures rem.Val() == (Wrap64(rem.v64 * W32) + rem.v0 / W32) * W32 + rem.v0 % W32
  {
  }

  lemma OrDigit(d: u32, d0: u32)
    ensures Or(d * W32, d0) == d * W32 + d0
  {
    P2Values();
    OrDisjoint(d * W32, d0, 32);
  }

  /** e is what remains of a after taking d times w. */
  ghost predicate Residue(a: int, d: int, w: int, e: int) {
    e == a - d * w
  }

  ghost predicate TrueDigit(a: int, q: int, w: int) {
    q * w <= a < q * w + w
  }

  lemma ResidueStart(a: int, b: int, d: int)
    ensures Residue(a, d, b * W32, a - b * (d * W32))
  {
  }

  lemma ResidueStep(a: int, d: int, w: int, e: int)
    requires Residue(a, d, w, e)
    ensures Residue(a, d - 1, w, e + w)
  {
  }

  lemma ResidueBounds(a: int, q: int, w: int, d: int, e: int)
    requires w > 0 && TrueDigit(a, q, w) && Residue(a, d, w, e) && q <= d <= q + 2
    ensures -2 * w <= e < w
    ensures e < 0 <==> d > q
  {
    if d == q + 1 {
      OneMore(q, w);
    } else if d == q + 2 {
      OneMore(q, w);
      OneMore(q + 1, w);
    }
  }

  lemma OneMore(d: int, w: int)
    ensures (d + 1) * w == d * w + w
  {
  }

  lemma FirstDigit(a: nat, n: nat, low: u32, b: u64)
    requires a == n * W32 + low && b > 0
    ensures TrueDigit(a, Quo(n, b), b * W32)
  {
    var q, r := n / b, n % b;
    assert n == q * b + r;
    Distribute(q, b, r, W32);
  }

  lemma TwoDigits(a: nat, b: u64, d: nat, rem: nat)
    requires b > 0 && Residue(a, d, b * W32, rem)
    ensures Quo(a, b) == d * W32 + Quo(rem, b)
  {
    var q, r := rem / b, rem % b;
    assert rem == q * b + r;
    assert d * (b * W32) == (d * W32) * b;
    assert (d * W32 + q) * b == (d * W32) * b + q * b;
    DivModUnique(a, b, d * W32 + q, r);
  }
}
