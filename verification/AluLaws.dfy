/** What the shared ALU computes, said bit by bit and by relating its
    operations, independently of how each one is written. */
module AluLaws {
  import opened Words
  import opened Tags
  import opened Alu

  predicate BitAt(x: nat, k: nat) {
    Quot(x, Pow2(k)) % 2 == 1
  }

  // ---- Bitwise operations ------------------------------------------------

  /** Every bit of the combination is the operation on the operands' bits. */
  lemma {:induction false} BitwiseBits(op: BitOp, a: nat, b: nat, k: nat)
    ensures BitAt(Bitwise(op, a, b), k) <==> BitOf(op, BitAt(a, k), BitAt(b, k))
    decreases k
  {
    var r := Bitwise(op, a, b);
    if a == 0 && b == 0 {
      DivModIs(0, 0, 0, Pow2(k));
    } else if k > 0 {
      BitwiseBits(op, a / 2, b / 2, k - 1);
      NextBit(r, k);
      NextBit(a, k);
      NextBit(b, k);
      assert r / 2 == Bitwise(op, a / 2, b / 2);
    }
  }

  lemma NextBit(x: nat, k: nat)
    requires k > 0
    ensures BitAt(x, k) <==> BitAt(x / 2, k - 1)
  {
    Telescope(x, 2, Pow2(k - 1));
  }

  /** For all 64-bit operands: the three logical instructions act on each bit. */
  lemma LogicalBits(a: Word, b: Word, k: nat)
    ensures BitAt(AluExec(And, false, a, b), k) <==> BitAt(a, k) && BitAt(b, k)
    ensures BitAt(AluExec(Or, false, a, b), k) <==> BitAt(a, k) || BitAt(b, k)
    ensures BitAt(AluExec(Xor, false, a, b), k) <==> BitAt(a, k) != BitAt(b, k)
  {
    BitwiseBits(AndBits, a, b, k);
    BitwiseBits(OrBits, a, b, k);
    BitwiseBits(XorBits, a, b, k);
  }

  // ---- Shifts --------------------------------------------------------------

  /** The bits below position n survive a truncation to n bits. */
  lemma ModKeepsBit(x: nat, n: nat, k: nat)
    requires k < n
    ensures BitAt(x % Pow2(n), k) <==> BitAt(x, k)
  {
    Pow2Add(n - k - 1, k + 1);
    Pow2Step(k);
    hide Pow2;
    TruncatedQuotient(x, Pow2(n - k - 1), Pow2(k), Pow2(n));
    EvenPlus(Quot(x, Pow2(n)), Pow2(n - k - 1), Quot(x % Pow2(n), Pow2(k)));
  }

  lemma TruncatedQuotient(x: nat, h: nat, p: nat, top: nat)
    requires p > 0 && h > 0 && top == h * (2 * p)
    ensures top > 0 && Quot(x, p) == Quot(x, top) * (2 * h) + Quot(x % top, p)
  {
    Positive(h, 2 * p);
    Division(x, top);
    var q := x / top;
    assert q * top == q * (2 * h) * p by { Regrouped(q, 2 * h, 0, p); Doubled(h, p); Doubled(p, h); }
    SplitQuotient(x, q * (2 * h), p, x % top);
  }

  lemma Positive(x: nat, y: nat)
    requires x > 0 && y > 0
    ensures x * y > 0
  {
  }

  lemma WrapKeepsBit(x: nat, k: nat)
    requires k < 64
    ensures BitAt(Wrap(x), k) <==> BitAt(x, k)
  {
    Pow2Values();
    ModKeepsBit(x, 64, k);
  }

  lemma LowKeepsBit(x: Word, k: nat)
    requires k < 32
    ensures BitAt(Low(x), k) <==> BitAt(x, k)
  {
    Pow2Values();
    ModKeepsBit(x, 32, k);
  }

  /** Sign extension repeats bit 31. */
  lemma SignExtendBits(h: Half, k: nat)
    requires k < 64
    ensures BitAt(SignExtend(h), k) <==> BitAt(h, if k < 32 then k else 31)
  {
    hide BitAt, Pow2, Low;
    if k < 32 {
      LowOfSignExtend(h);
      LowKeepsBit(SignExtend(h), k);
    } else {
      TopHalfBit(h);
      if h < TWO31 { SmallHalf(h); HighBits(h, k); } else { LargeHalf(h); HighBits(TWO32 - 1 - h, k); Complement(TWO32 - 1 - h, k); }
    }
  }

  lemma LowOfSignExtend(h: Half)
    ensures Low(SignExtend(h)) == h
  {
  }

  lemma SmallHalf(h: Half)
    requires h < TWO31
    ensures SignExtend(h) == h
  {
  }

  lemma LargeHalf(h: Half)
    requires h >= TWO31
    ensures SignExtend(h) == TWO64 - 1 - (TWO32 - 1 - h)
  {
  }

  lemma TopHalfBit(h: Half)
    ensures BitAt(h, 31) <==> h >= TWO31
  {
    Pow2Values();
  }

  lemma HighBits(x: nat, k: nat)
    requires x < TWO31 && k >= 31
    ensures !BitAt(x, k)
  {
    Pow2Values();
    Pow2Mono(31, k);
    DivModIs(x, 0, x, Pow2(k));
  }

  lemma SplitQuotient(x: nat, c: nat, p: nat, low: nat)
    requires p > 0 && x == c * p + low
    ensures Quot(x, p) == c + Quot(low, p)
  {
    Division(low, p);
    Regroup(c, low / p, p);
    DivModIs(x, c + low / p, low % p, p);
  }

  lemma Regroup(a: int, b: int, p: int)
    ensures (a + b) * p == a * p + b * p
  {
  }

  lemma EvenPlus(q: nat, h: nat, y: nat)
    ensures (q * (2 * h) + y) % 2 == y % 2
  {
    assert q * (2 * h) == 2 * (q * h);
  }

  /** SLL: bit k comes from bit k - s, and zeros enter below. */
  lemma LeftShiftBits(a: Word, b: Word, k: nat)
    requires k < 64
    ensures var s := b % 64;
            BitAt(AluExec(Sll, false, a, b), k) <==> k >= s && BitAt(a, k - s)
  {
    hide BitAt, Pow2, Wrap;
    var s := b % 64;
    var x: nat := Scaled(a, Pow2(s));
    WrapKeepsBit(x, k);
    if k >= s { MovedBit(a, s, k); } else { ClearedBit(a, s, k); }
  }

  function Scaled(x: nat, d: nat): (r: nat)
    ensures r == x * d
  {
    ProductSign(x, d);
    x * d
  }

  lemma ProductSign(x: nat, d: nat)
    ensures x * d >= 0
  {
  }

  lemma MovedBit(a: nat, s: nat, k: nat)
    requires k >= s
    ensures BitAt(Scaled(a, Pow2(s)), k) <==> BitAt(a, k - s)
  {
    Pow2Add(k - s, s);
    hide Pow2;
    CancelQuotient(a, Pow2(k - s), Pow2(s));
  }

  lemma ClearedBit(a: nat, s: nat, k: nat)
    requires k < s
    ensures !BitAt(Scaled(a, Pow2(s)), k)
  {
    Pow2Add(s - k - 1, k + 1);
    Pow2Step(k);
    hide Pow2;
    EvenQuotient(a, Pow2(s - k - 1), Pow2(k), Pow2(s));
  }

  lemma EvenQuotient(a: nat, h: nat, p: nat, top: nat)
    requires p > 0 && top == h * (2 * p)
    ensures Quot(Scaled(a, top), p) % 2 == 0
  {
    assert a * top == 2 * (a * h) * p by { Regrouped(a, h, 0, 2 * p); Regrouped(2, a * h, 0, p); Doubled(a * h, p); }
    ProductSign(a, h);
    DivModIs(a * top, 2 * (a * h), 0, p);
  }

  lemma Doubled(x: int, p: int)
    ensures x * (2 * p) == 2 * x * p
  {
  }

  lemma CancelQuotient(x: nat, d: nat, p: nat)
    requires d > 0 && p > 0
    ensures d * p > 0 && Quot(x * p, d * p) == Quot(x, d)
  {
    Division(x, d);
    Regrouped(x / d, d, x % d, p);
    FieldBound(x % d, d, 0, p);
    DivModIs(x * p, x / d, x % d * p, d * p);
  }

  /** SRL: bit k comes from bit k + s. */
  lemma RightShiftBits(a: Word, b: Word, k: nat)
    ensures BitAt(AluExec(Srl, false, a, b), k) <==> BitAt(a, k + b % 64)
  {
    hide BitAt, Pow2, AluExec;
    SrlIs(a, b);
    ShiftedBit(a, b % 64, k);
  }

  lemma SrlIs(a: Word, b: Word)
    ensures AluExec(Srl, false, a, b) == Quot(a, Pow2(b % 64))
  {
    hide Pow2;
    Shrinks(a, Pow2(b % 64));
  }

  lemma Shrinks(x: nat, d: nat)
    requires d > 0
    ensures 0 <= x / d <= x
  {
    Division(x, d);
    if x / d > x { MulMono(x + 1, x / d, d); MulMono(1, d, x + 1); }
  }

  lemma ShiftedBit(x: nat, s: nat, k: nat)
    ensures BitAt(Quot(x, Pow2(s)), k) <==> BitAt(x, k + s)
  {
    Pow2Add(s, k);
    Telescope(x, Pow2(s), Pow2(k));
  }

  /** SRA: bit k comes from bit k + s, and above the top from the sign bit. */
  lemma ArithmeticShiftBits(a: Word, b: Word, k: nat)
    requires k < 64
    ensures var s := b % 64;
            BitAt(AluExec(Sra, false, a, b), k) <==> BitAt(a, if k + s < 64 then k + s else 63)
  {
    hide BitAt, Pow2, AluExec;
    var s := b % 64;
    SraIs(a, b);
    if a < TWO63 {
      ShiftedBit(a, s, k);
      TopBit(a);
      if k + s >= 64 { HighBitsZero(a, k + s); }
    } else {
      ComplementShift(TWO64 - 1 - a, s, k);
    }
  }

  lemma SraIs(a: Word, b: Word)
    ensures var d := Pow2(b % 64);
            AluExec(Sra, false, a, b) == if a < TWO63 then Quot(a, d) else TWO64 - 1 - Quot(TWO64 - 1 - a, d)
  {
    hide Pow2;
    var d := Pow2(b % 64);
    if a < TWO63 {
      Shrinks(a, d);
    } else {
      NegativeShift(a - TWO64, d);
      Shrinks(TWO64 - 1 - a, d);
    }
  }

  lemma ComplementShift(c: nat, s: nat, k: nat)
    requires c < TWO63 && k < 64
    ensures Quot(c, Pow2(s)) <= c
    ensures BitAt(TWO64 - 1 - Quot(c, Pow2(s)), k)
            <==> BitAt(TWO64 - 1 - c, if k + s < 64 then k + s else 63)
  {
    hide BitAt, Pow2;
    Shrinks(c, Pow2(s));
    Complement(Quot(c, Pow2(s)), k);
    ShiftedBit(c, s, k);
    if k + s < 64 {
      Complement(c, k + s);
    } else {
      HighBitsZero(c, k + s);
      TopBit(TWO64 - 1 - c);
    }
  }

  lemma TopBit(a: Word)
    ensures BitAt(a, 63) <==> a >= TWO63
  {
    Pow2Values();
  }

  lemma HighBitsZero(x: nat, k: nat)
    requires x < TWO63 && k >= 63
    ensures !BitAt(x, k)
  {
    Pow2Values();
    Pow2Mono(63, k);
    DivModIs(x, 0, x, Pow2(k));
  }

  /** Flooring a negative number is complementing the floor of its complement. */
  lemma NegativeShift(x: int, d: int)
    requires x < 0 && d > 0
    ensures x / d == -1 - (-1 - x) / d
  {
    var c := -1 - x;
    Division(c, d);
    var q, r := c / d, c % d;
    Mirrored(q, d);
    FloorIs(x, -1 - q, d - 1 - r, d);
  }

  lemma Mirrored(q: int, d: int)
    ensures (-1 - q) * d == -d - q * d
  {
  }

  lemma Minus(q: int, d: int)
    ensures (-q) * d == -(q * d)
  {
  }

  lemma FloorIs(x: int, q: int, r: int, d: int)
    requires d > 0 && x == q * d + r && 0 <= r < d
    ensures x / d == q
  {
    MulAtLeast(x / d - q, d);
    assert (x / d - q) * d == x / d * d - q * d by { Regroup(x / d, -q, d); Minus(q, d); }
  }

  /** Every bit of the complement is flipped. */
  lemma Complement(x: nat, k: nat)
    requires x < TWO64 && k < 64
    ensures BitAt(TWO64 - 1 - x, k) <==> !BitAt(x, k)
  {
    hide Pow2;
    TopSplit(k);
    ComplementQuotient(x, Pow2(63 - k), Pow2(k), TWO64);
  }

  lemma TopSplit(k: nat)
    requires k < 64
    ensures TWO64 == 2 * Pow2(63 - k) * Pow2(k)
  {
    Pow2Values();
    Pow2Add(64 - k, k);
    Pow2Step(63 - k);
  }

  lemma ComplementQuotient(x: nat, h: nat, p: nat, top: nat)
    requires p > 0 && top == 2 * h * p && x < top
    ensures Quot(top - 1 - x, p) == 2 * h - 1 - Quot(x, p)
  {
    Division(x, p);
    var q, r := x / p, x % p;
    MulMono(2 * h, q, p);
    ComplementParts(q, h, p);
    DivModIs(top - 1 - x, 2 * h - 1 - q, p - 1 - r, p);
  }

  lemma ComplementParts(q: int, h: int, p: int)
    ensures (2 * h - 1 - q) * p == 2 * h * p - p - q * p
  {
  }

  // ---- Between the forms --------------------------------------------------

  /** Subtraction undoes addition, and the signed comparison is the unsigned
      one with both sign bits flipped. */
  lemma AddSubCompare(a: Word, b: Word)
    ensures AluExec(Sub, false, AluExec(Add, false, a, b), b) == a
    ensures AluExec(Slt, false, a, b) == AluExec(Sltu, false, Wrap(a + TWO63), Wrap(b + TWO63))
  {
    SubUndoesAdd(a, b);
    FlippedSign(a);
    FlippedSign(b);
  }

  /** SLTU is the borrow of a subtraction and the carry of an addition, so both
      results are the exact ones but for 2^64 times that bit. */
  lemma CarryAndBorrow(a: Word, b: Word)
    ensures AluExec(Sub, false, a, b) == a - b + TWO64 * AluExec(Sltu, false, a, b)
    ensures AluExec(Add, false, a, b) == a + b - TWO64 * AluExec(Sltu, false, AluExec(Add, false, a, b), a)
  {
    if a < b { ModUnique(a - b, -1, a - b + TWO64, TWO64); } else { ModUnique(a - b, 0, a - b, TWO64); }
    if a + b < TWO64 { ModUnique(a + b, 0, a + b, TWO64); } else { ModUnique(a + b, 1, a + b - TWO64, TWO64); }
  }

  lemma SubUndoesAdd(a: Word, b: Word)
    ensures Wrap(Wrap(a + b) - b) == a
  {
  }

  lemma FlippedSign(a: Word)
    ensures Wrap(a + TWO63) == Signed(a) + TWO63
  {
  }

  /** The W forms are the full forms on extended operands, cut back to 32 bits
      and sign-extended, with five bits of shift amount. */
  lemma WordForms(a: Word, b: Word)
    ensures AluExec(Add, true, a, b) == SignExtend(Low(AluExec(Add, false, a, b)))
    ensures AluExec(Sub, true, a, b) == SignExtend(Low(AluExec(Sub, false, a, b)))
    ensures AluExec(Sll, true, a, b) == SignExtend(Low(AluExec(Sll, false, Low(a), b % 32)))
    ensures AluExec(Srl, true, a, b) == SignExtend(Low(AluExec(Srl, false, Low(a), b % 32)))
    ensures AluExec(Sra, true, a, b) == AluExec(Sra, false, SignExtend(Low(a)), b % 32)
  {
    WordSums(a, b);
    WordShifts(a, b);
  }

  lemma WordSums(a: Word, b: Word)
    ensures AluExec(Add, true, a, b) == SignExtend(Low(AluExec(Add, false, a, b)))
    ensures AluExec(Sub, true, a, b) == SignExtend(Low(AluExec(Sub, false, a, b)))
  {
    hide SignExtend, Wrap, WrapHalf, Low;
    LowSum(a, b);
    LowDifference(a, b);
  }

  lemma LowSum(a: Word, b: Word)
    ensures Low(Wrap(a + b)) == WrapHalf(Low(a) + Low(b))
  {
  }

  lemma LowDifference(a: Word, b: Word)
    ensures Low(Wrap(a - b)) == WrapHalf(Low(a) - Low(b))
  {
    var low := a % TWO32 - b % TWO32;
    ModUnique(a - b - low, a / TWO32 - b / TWO32, 0, TWO32);
    LowOfWrap(a - b, low);
  }

  lemma WordShifts(a: Word, b: Word)
    ensures AluExec(Sll, true, a, b) == SignExtend(Low(AluExec(Sll, false, Low(a), b % 32)))
    ensures AluExec(Srl, true, a, b) == SignExtend(Low(AluExec(Srl, false, Low(a), b % 32)))
    ensures AluExec(Sra, true, a, b) == AluExec(Sra, false, SignExtend(Low(a)), b % 32)
  {
    hide Pow2, SignExtend, Wrap, WrapHalf;
    var low, p := Low(a), Pow2(b % 32);
    WordAmount(b);
    LowOfWrap(low * p, low * p);
    LowOfWrap(low / p, low / p);
    SignedOfSignExtend(low);
    SignedShrinks(SignedHalf(low), p);
  }

  lemma WordAmount(b: Word)
    ensures Low(b) % 32 == b % 32 && b % 32 % 64 == b % 32
  {
  }

  lemma LowOfWrap(x: int, y: int)
    requires (x - y) % TWO32 == 0
    ensures Low(Wrap(x)) == WrapHalf(y)
  {
  }

  lemma SignedShrinks(x: int, d: nat)
    requires d > 0 && -TWO31 <= x < TWO31
    ensures -TWO31 <= x / d < TWO31
    ensures SignExtend(WrapHalf(x / d)) == Wrap(x / d)
  {
    hide SignExtend, WrapHalf, Wrap;
    if x < 0 { NegativeShift(x, d); Shrinks(-1 - x, d); } else { Shrinks(x, d); }
    SignedPattern(x / d);
  }

  lemma SignedPattern(y: int)
    requires -TWO31 <= y < TWO31
    ensures SignExtend(WrapHalf(y)) == Wrap(y)
  {
    if y < 0 {
      ModUnique(y, -1, y + TWO32, TWO32);
      ModUnique(y, -1, y + TWO64, TWO64);
    }
  }
}
