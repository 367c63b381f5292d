/** Products and sums of 128 and 192 bits. */
module WideWords {
  import opened Arith
  import opened Words

  const W192: int := W128 * W64
  const W256: int := W128 * W128

  datatype U192 = U192(v128: u64, v64: u64, v0: u64) {
    function Val(): int { v128 * W128 + v64 * W64 + v0 }
  }

  datatype U256 = U256(v192: u64, v128: u64, v64: u64, v0: u64) {
    function Val(): int { v192 * W192 + v128 * W128 + v64 * W64 + v0 }
  }

  /** The product of two words leaves room for a carry in its high word. */
  lemma ProductRoom(a: u64, b: u64, p: U128)
    requires p.Val() == a * b
    ensures p.v64 <= W64 - 2
  {
    MulUpper(a, b, W64 - 1, W64 - 1);
  }

  lemma SplitProduct(a64: u64, a0: u64, b: int)
    ensures (a64 * W64 + a0) * b == (a64 * b) * W64 + a0 * b
  {
  }

  method Mul128By64To192(a64: u64, a0: u64, b: u64) returns (z: U192)
    ensures z.Val() == U128(a64, a0).Val() * b
  {
    var p0 := Mul64To128(a0, b);
    var p64 := Mul64To128(a64, b);
    ProductRoom(a64, b, p64);
    SplitProduct(a64, a0, b);
    hide Wrap64;
    WordSum(p64.v0, p0.v64);
    var v64 := Wrap64(p64.v0 + p0.v64);
    var carry := Bit(v64 < p64.v0);
    z := U192(Carried(p64.v64, carry), v64, p0.v0);
  }

  function Carried(x: u64, carry: int): (r: u64)
    requires 0 <= carry <= 1 && x <= W64 - 2
    ensures r == x + carry
  {
    Wrap64(x + carry)
  }

  lemma ProductBound(a64: u64, a0: u64, b64: u64, b0: u64)
    ensures 0 <= U128(a64, a0).Val() * U128(b64, b0).Val() < W256
  {
    MulUpper(U128(a64, a0).Val(), U128(b64, b0).Val(), W128 - 1, W128 - 1);
  }

  lemma FourProducts(a64: u64, a0: u64, b64: u64, b0: u64)
    ensures U128(a64, a0).Val() * U128(b64, b0).Val()
            == (a64 * b64) * W128 + (a64 * b0 + a0 * b64) * W64 + a0 * b0
  {
    var b := b64 * W64 + b0;
    SplitProduct(a64, a0, b);
    SplitProduct(b64, b0, a64);
    SplitProduct(b64, b0, a0);
    assert a64 * b == b * a64 && a0 * b == b * a0;
    assert b64 * a64 == a64 * b64 && b0 * a64 == a64 * b0 && b64 * a0 == a0 * b64 && b0 * a0 == a0 * b0;
  }

  method Mul128To256(a64: u64, a0: u64, b64: u64, b0: u64) returns (z: U256)
    ensures z.Val() == U128(a64, a0).Val() * U128(b64, b0).Val()
  {
    var p0 := Mul64To128(a0, b0);
    var p64 := Mul64To128(a64, b0);
    var p128 := Mul64To128(a64, b64);
    var q64 := Mul64To128(a0, b64);
    ProductRoom(a64, b0, p64);
    ProductRoom(a64, b64, p128);
    ProductRoom(a0, b64, q64);
    FourProducts(a64, a0, b64, b0);
    ProductBound(a64, a0, b64, b0);
    z := AddColumns(p0, p64, p128, q64, U128(a64, a0).Val() * U128(b64, b0).Val());
  }

  /** Lines 13 to 24 of the routine: the four products added column by column. */
  method AddColumns(p0: U128, p64: U128, p128: U128, q64: U128, ghost product: int) returns (z: U256)
    requires p64.v64 <= W64 - 2 && p128.v64 <= W64 - 2 && q64.v64 <= W64 - 2
    requires product == p128.Val() * W128 + (p64.Val() + q64.Val()) * W64 + p0.Val() && 0 <= product < W256
    ensures z.Val() == product
  {
    hide Wrap64, Carried;
    z := AddThree(p0, p64, p128);
    WordSum(z.v64, q64.v0);
    var v64 := Wrap64(z.v64 + q64.v0);
    var q := Carried(q64.v64, Bit(v64 < q64.v0));
    WordSum(z.v128, q);
    var v128 := Wrap64(z.v128 + q);
    NoLastCarry(product, z.v192 + Bit(v128 < q), v128, v64, z.v0);
    z := U256(Wrap64(z.v192 + Bit(v128 < q)), v128, v64, z.v0);
  }

  /** Lines 13 to 19. */
  method AddThree(p0: U128, p64: U128, p128: U128) returns (z: U256)
    requires p64.v64 <= W64 - 2 && p128.v64 <= W64 - 2
    ensures z.Val() == p128.Val() * W128 + p64.Val() * W64 + p0.Val()
  {
    hide Wrap64, Carried;
    WordSum(p64.v0, p0.v64);
    var v64 := Wrap64(p64.v0 + p0.v64);
    var v128 := Carried(p64.v64, Bit(v64 < p64.v0));
    WordSum(v128, p128.v0);
    var high := Wrap64(v128 + p128.v0);
    z := U256(Carried(p128.v64, Bit(high < p128.v0)), high, v64, p0.v0);
  }

  lemma NoLastCarry(product: int, top: int, v128: u64, v64: u64, v0: u64)
    requires 0 <= product < W256 && product == top * W192 + v128 * W128 + v64 * W64 + v0 && 0 <= top
    ensures top < W64 && Wrap64(top) == top
  {
  }

  /** z holds n modulo 2^192. */
  ghost predicate Holds192(z: U192, n: int) {
    z.Val() == n % W192
  }

  lemma HoldsUpTo(z: U192, n: int, k: int)
    requires n == k * W192 + z.Val()
    ensures Holds192(z, n)
  {
    DivModUnique(n, W192, k, z.Val());
  }

  method Add192(a: U192, b: U192) returns (z: U192)
    ensures Holds192(z, a.Val() + b.Val())
  {
    WordSum(a.v0, b.v0);
    WordSum(a.v64, b.v64);
    WordSum(a.v128, b.v128);
    hide Wrap64;
    var v0 := Wrap64(a.v0 + b.v0);
    var carry64 := Bit(v0 < a.v0);
    var v64 := Wrap64(a.v64 + b.v64);
    var carry128 := Bit(v64 < a.v64);
    var v128 := Wrap64(a.v128 + b.v128);
    ghost var k := Bit(v128 < a.v128);
    WordSum(v64, carry64);
    v64 := Wrap64(v64 + carry64);
    carry128 := carry128 + Bit(v64 < carry64);
    WordSum(v128, carry128);
    k := k + Bit(Wrap64(v128 + carry128) < carry128);
    v128 := Wrap64(v128 + carry128);
    z := U192(v128, v64, v0);
    HoldsUpTo(z, a.Val() + b.Val(), k);
  }

  method Sub192(a: U192, b: U192) returns (z: U192)
    ensures Holds192(z, a.Val() - b.Val())
  {
    WordDifference(a.v0, b.v0);
    WordDifference(a.v64, b.v64);
    WordDifference(a.v128, b.v128);
    hide Wrap64;
    var v0 := Wrap64(a.v0 - b.v0);
    var borrow64 := Bit(a.v0 < b.v0);
    var v64 := Wrap64(a.v64 - b.v64);
    var borrow128 := Bit(a.v64 < b.v64);
    var v128 := Wrap64(a.v128 - b.v128);
    ghost var k := Bit(a.v128 < b.v128);
    borrow128 := borrow128 + Bit(v64 < borrow64);
    WordDifference(v64, borrow64);
    v64 := Wrap64(v64 - borrow64);
    WordDifference(v128, borrow128);
    k := k + Bit(v128 < borrow128);
    v128 := Wrap64(v128 - borrow128);
    z := U192(v128, v64, v0);
    HoldsUpTo(z, a.Val() - b.Val(), 0 - k);
  }

  /** Words that hold the same number are the same, so a subtraction undoes an addition and the other way round. */
  lemma SubUndoesAdd(a: U192, b: U192, sum: U192, back: U192)
    requires Holds192(sum, a.Val() + b.Val()) && Holds192(back, sum.Val() - b.Val())
    ensures back == a
  {
    var s := a.Val() + b.Val();
    assert s == (s / W192) * W192 + sum.Val();
    HoldsUpTo(a, sum.Val() - b.Val(), 0 - s / W192);
    SameWords(a, back);
  }

  lemma AddUndoesSub(a: U192, b: U192, difference: U192, back: U192)
    requires Holds192(difference, a.Val() - b.Val()) && Holds192(back, difference.Val() + b.Val())
    ensures back == a
  {
    var s := a.Val() - b.Val();
    assert s == (s / W192) * W192 + difference.Val();
    HoldsUpTo(a, difference.Val() + b.Val(), 0 - s / W192);
    SameWords(a, back);
  }

  lemma SameWords(a: U192, b: U192)
    requires a.Val() == b.Val()
    ensures a == b
  {
  }
}
