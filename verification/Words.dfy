/** Machine words as bounded integers, with the two's-complement, shift and
    bitwise views that the Verilog operators give them. */
module Words {

  const TWO12: int := 0x1000
  const TWO31: int := 0x8000_0000
  const TWO32: int := 0x1_0000_0000
  const TWO63: int := 0x8000_0000_0000_0000
  const TWO64: int := 0x1_0000_0000_0000_0000

  datatype Option<+T> = None | Some(value: T)

  type Word = x: int | 0 <= x < 0x1_0000_0000_0000_0000
  type Half = x: int | 0 <= x < 0x1_0000_0000

  function Pow2(n: nat): (r: nat)
    ensures r > 0
  {
    if n == 0 then 1 else 2 * Pow2(n - 1)
  }

  function Quot(x: nat, d: nat): nat
    requires d > 0
  {
    x / d
  }

  lemma Pow2Step(n: nat)
    ensures Pow2(n + 1) == 2 * Pow2(n)
  {
  }

  lemma {:induction false} Pow2Add(m: nat, n: nat)
    ensures Pow2(m + n) == Pow2(m) * Pow2(n)
  {
    if m == 0 {
    } else {
      Pow2Add(m - 1, n);
      assert Pow2(m + n) == 2 * Pow2(m - 1 + n);
      assert 2 * (Pow2(m - 1) * Pow2(n)) == (2 * Pow2(m - 1)) * Pow2(n);
    }
  }

  lemma {:induction false} Pow2Mono(m: nat, n: nat)
    requires m <= n
    ensures Pow2(m) <= Pow2(n)
    decreases n
  {
    if m < n { Pow2Mono(m, n - 1); }
  }

  lemma Pow2Values()
    ensures Pow2(5) == 32 && Pow2(6) == 64
    ensures Pow2(31) == TWO31 && Pow2(32) == TWO32 && Pow2(63) == TWO63 && Pow2(64) == TWO64
  {
    assert Pow2(8) == 256;
    Pow2Add(8, 8);
    Pow2Add(16, 16);
    Pow2Add(32, 32);
    assert Pow2(32) == 2 * Pow2(31);
    assert Pow2(64) == 2 * Pow2(63);
  }

  /** The signed reading of a 64-bit pattern. */
  function Signed(x: Word): int {
    if x < TWO63 then x else x - TWO64
  }

  /** The signed reading of a 32-bit pattern. */
  function SignedHalf(x: Half): int {
    if x < TWO31 then x else x - TWO32
  }

  /** The 64-bit pattern of an integer, modulo 2^64. */
  function Wrap(x: int): Word {
    x % TWO64
  }

  function WrapHalf(x: int): Half {
    x % TWO32
  }

  function Low(x: Word): Half {
    x % TWO32
  }

  /** {{32{h[31]}}, h} */
  function SignExtend(h: Half): Word {
    Wrap(SignedHalf(h))
  }

  lemma SignedOfSignExtend(h: Half)
    ensures Signed(SignExtend(h)) == SignedHalf(h)
  {
  }

  // ---- Bitwise operators, one bit at a time -----------------------------

  datatype BitOp = AndBits | OrBits | XorBits

  function BitOf(op: BitOp, p: bool, q: bool): bool {
    match op
    case AndBits => p && q
    case OrBits => p || q
    case XorBits => p != q
  }

  function Bitwise(op: BitOp, a: nat, b: nat): nat
    decreases a + b
  {
    if a == 0 && b == 0 then 0
    else 2 * Bitwise(op, a / 2, b / 2) + (if BitOf(op, a % 2 == 1, b % 2 == 1) then 1 else 0)
  }

  lemma {:induction false} BitwiseBound(op: BitOp, n: nat, a: nat, b: nat)
    requires a < Pow2(n) && b < Pow2(n)
    ensures Bitwise(op, a, b) < Pow2(n)
    decreases n
  {
    if a == 0 && b == 0 {
    } else {
      BitwiseBound(op, n - 1, a / 2, b / 2);
    }
  }

  /** Two 64-bit patterns combined bit by bit. */
  function Combine(op: BitOp, a: Word, b: Word): (r: Word) {
    Pow2Values();
    BitwiseBound(op, 64, a, b);
    Bitwise(op, a, b)
  }

  /** OR of a value shifted past the other operand's bits is their sum. */
  lemma {:induction false} OrDisjoint(n: nat, a: nat, b: nat)
    requires b < Pow2(n)
    ensures Bitwise(OrBits, a * Pow2(n), b) == a * Pow2(n) + b
    decreases n
  {
    var hi := a * Pow2(n);
    if hi == 0 && b == 0 {
    } else if n == 0 {
      OrZero(hi);
    } else {
      var half := a * Pow2(n - 1);
      assert hi == 2 * half;
      OrDisjoint(n - 1, a, b / 2);
    }
  }

  lemma {:induction false} OrZero(a: nat)
    ensures Bitwise(OrBits, a, 0) == a
  {
    if a > 0 { OrZero(a / 2); }
  }
}
