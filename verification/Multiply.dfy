/** The one signed 128-bit multiply gives every product half. */
module Multiply {
  import opened Words
  import opened Encode
  import opened Execute
  import opened Tags

  /** Working modulo m, a multiple of m added to a factor does not show. */
  lemma ModFactor(x: int, y: int, k: int, m: int)
    requires m > 0
    ensures ((x + k * m) * y) % m == (x * y) % m
  {
    var q := (x * y) / m;
    assert (x + k * m) * y == x * y + (k * y) * m;
    assert x * y == q * m + (x * y) % m;
    Absorb((x + k * m) * y, q, k * y, (x * y) % m, m);
  }

  lemma Absorb(z: int, q: int, k: int, r: int, m: int)
    requires m > 0 && z == q * m + r + k * m && 0 <= r < m
    ensures z % m == r
  {
    assert z == (q + k) * m + r;
    ModUnique(z, q + k, r, m);
  }

  lemma SextIsSigned(a: Word)
    ensures exists k :: Sext128(a) == Signed(a) + k * TWO128
  {
    assert Sext128(a) == Signed(a) + (if a >= TWO63 then 1 else 0) * TWO128;
  }

  /** The registers' product is the signed product modulo 2^128. */
  lemma ProductOfSigned(a: Word, y: nat, b: int, j: int)
    requires y == b + j * TWO128
    ensures Product(Sext128(a), y) == (Signed(a) * b) % TWO128
    ensures Product(a, y) == (a * b) % TWO128
  {
    hide *;
    SextIsSigned(a);
    var k :| Sext128(a) == Signed(a) + k * TWO128;
    ProductIs(Sext128(a), y);
    ProductIs(a, y);
    ProductMod(Sext128(a), y, Signed(a), b, k, j, TWO128);
    ProductMod(a, y, a, b, 0, j, TWO128);
  }

  lemma ProductIs(x: nat, y: nat)
    ensures TWO128 > 0 && Product(x, y) == (x * y) % TWO128
  {
  }

  lemma ProductMod(x: int, y: int, a: int, b: int, k: int, j: int, m: int)
    requires m > 0 && x == a + k * m && y == b + j * m
    ensures (x * y) % m == (a * b) % m
  {
    ModFactor(a, y, k, m);
    ModFactor(b, a, j, m);
    assert a * y == (b + j * m) * a && b * a == a * b;
  }

  // ---- The halves ----------------------------------------------------------

  const TWO127: int := TWO128 / 2

  lemma SignedHalves(x: int)
    requires -TWO127 <= x < TWO127
    ensures var p := x % TWO128;
            0 <= p < TWO128 && Signed(HighHalf(p)) * TWO64 + p % TWO64 == x
  {
  }

  lemma MagnitudeBound(x: int, y: int, m: int, n: int)
    requires m >= 0 && n >= 0
    requires -m <= x <= m && -n <= y <= n
    ensures -(m * n) <= x * y <= m * n
    ensures x >= 0 && y >= 0 ==> x * y >= 0
  {
    var a, b := if x < 0 then -x else x, if y < 0 then -y else y;
    assert a * b <= m * b <= m * n;
    assert x * y == a * b || x * y == -(a * b);
  }

  /** The low half does not depend on how the factors are read. */
  lemma LowHalf(x: int, k: int, y: int, j: int, size: nat, rest: nat)
    requires size > 0 && rest > 0 && size * rest == TWO128
    ensures (((x + k * size) * (y + j * size)) % TWO128) % size == (x * y) % size
  {
    var p := (x + k * size) * (y + j * size);
    ProductMod(x + k * size, y + j * size, x, y, k, j, size);
    ModOfMod(p, size, rest);
  }

  lemma ModOfMod(p: int, size: nat, rest: nat)
    requires size > 0 && rest > 0
    ensures size * rest > 0 && (p % (size * rest)) % size == p % size
  {
    var m := size * rest;
    var q, r := p / m, p % m;
    var s, t := r / size, r % size;
    assert p == q * m + r && r == s * size + t;
    assert q * m == q * rest * size;
    assert p == (q * rest + s) * size + t;
    ModUnique(p, q * rest + s, t, size);
  }

  /** MULH above MUL is the exact signed product. */
  lemma MulhAndMul(a: Word, b: Word)
    ensures Signed(MulDivFull(1, a, b)) * TWO64 + MulDivFull(0, a, b) == Signed(a) * Signed(b)
  {
    SextIsSigned(b);
    var j :| Sext128(b) == Signed(b) + j * TWO128;
    ProductOfSigned(a, Sext128(b), Signed(b), j);
    MagnitudeBound(Signed(a), Signed(b), TWO63, TWO63);
    hide Product, Sext128, Signed;
    SignedHalves(Signed(a) * Signed(b));
  }

  /** MULHSU above MUL is the exact signed-by-unsigned product. */
  lemma MulhsuAndMul(a: Word, b: Word)
    ensures Signed(MulDivFull(2, a, b)) * TWO64 + MulDivFull(0, a, b) == Signed(a) * b
  {
    MulIsLow(a, b, Signed(a), b);
    ProductOfSigned(a, b, b, 0);
    MagnitudeBound(Signed(a), b, TWO63, TWO64 - 1);
    hide Product, Sext128, Signed;
    SignedHalves(Signed(a) * b);
    ModOfMod(Signed(a) * b, TWO64, TWO64);
  }

  /** MULHU above MUL is the exact unsigned product. */
  lemma MulhuAndMul(a: Word, b: Word)
    ensures MulDivFull(3, a, b) * TWO64 + MulDivFull(0, a, b) == a * b
  {
    WordProductBound(a, b);
    MulIsLow(a, b, a, b);
    hide *;
    MulhuIs(a, b, a * b);
    Split64(a * b);
  }

  lemma WordProductBound(a: Word, b: Word)
    ensures 0 <= a * b < TWO128
  {
    assert (TWO64 - 1) * (TWO64 - 1) < TWO128;
    MagnitudeBound(a, b, TWO64 - 1, TWO64 - 1);
  }

  lemma MulhuIs(a: Word, b: Word, p: int)
    requires p == a * b && 0 <= p < TWO128
    ensures MulDivFull(3, a, b) == p / TWO64
  {
    assert Product(a, b) == p;
    hide Product;
  }

  lemma Split64(p: int)
    ensures p / TWO64 * TWO64 + p % TWO64 == p
  {
  }

  /** MUL is the low half under every reading of its operands. */
  lemma MulIsLow(a: Word, b: Word, x: int, y: int)
    requires (x == a || x == Signed(a)) && (y == b || y == Signed(b))
    ensures MulDivFull(0, a, b) == (x * y) % TWO64
  {
    var k, j := (Sext128(a) - x) / TWO64, (Sext128(b) - y) / TWO64;
    assert Sext128(a) == x + k * TWO64 && Sext128(b) == y + j * TWO64;
    hide Sext128, Signed;
    LowHalf(x, k, y, j, TWO64, TWO64);
  }

  /** MULW needs no multiply of its own. */
  lemma MulwIsWordProduct(a: Word, b: Word)
    ensures MulDivWord(0, a, b) == WrapHalf(Low(a) * Low(b))
  {
    var k, j := (Sext128(a) - Low(a)) / TWO32, (Sext128(b) - Low(b)) / TWO32;
    assert Sext128(a) == Low(a) + k * TWO32 && Sext128(b) == Low(b) + j * TWO32;
    hide Sext128, Low;
    LowHalf(Low(a), k, Low(b), j, TWO32, TWO64 * TWO32);
  }
}
