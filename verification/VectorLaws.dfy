/** What one lane of the vector ALU computes, said through its other
    operations and through the scalar units. */
module VectorLaws {
  import opened Words
  import opened VectorAlu
  import Alu
  import AluLaws
  import DivFuTheorems
  import Divide
  import Execute
  import Multiply
  import Tags

  /** vsub undoes vadd; the logical operations act on each bit; vmul is the
      word the scalar multiplier's 128-bit product ends in. */
  lemma ArithmeticLanes(a: Half, b: Half, k: nat)
    ensures LaneOp(1, LaneOp(0, a, b), b) == a
    ensures AluLaws.BitAt(LaneOp(2, a, b), k) <==> AluLaws.BitAt(a, k) && AluLaws.BitAt(b, k)
    ensures AluLaws.BitAt(LaneOp(3, a, b), k) <==> AluLaws.BitAt(a, k) || AluLaws.BitAt(b, k)
    ensures AluLaws.BitAt(LaneOp(4, a, b), k) <==> AluLaws.BitAt(a, k) != AluLaws.BitAt(b, k)
    ensures LaneOp(5, a, b) == Execute.MulDivWord(0, a, b)
  {
    hide AluLaws.BitAt, Execute.MulDivWord;
    SubtractBack(a, b);
    AluLaws.BitwiseBits(AndBits, a, b, k);
    AluLaws.BitwiseBits(OrBits, a, b, k);
    AluLaws.BitwiseBits(XorBits, a, b, k);
    Multiply.MulwIsWordProduct(a, b);
    Tags.DivModIs(a, 0, a, TWO32);
    Tags.DivModIs(b, 0, b, TWO32);
  }

  lemma SubtractBack(a: Half, b: Half)
    ensures WrapHalf(WrapHalf(a + b) - b) == a
  {
  }

  /** The minimum and the maximum are the two operands, in order, under either
      reading; the compares are one total order under either reading. */
  lemma OrderLanes(a: Half, b: Half)
    ensures multiset{LaneOp(12, a, b), LaneOp(14, a, b)} == multiset{a, b}
    ensures multiset{LaneOp(13, a, b), LaneOp(15, a, b)} == multiset{a, b}
    ensures LaneCompare(10, LaneOp(12, a, b), LaneOp(14, a, b)) && LaneCompare(11, LaneOp(13, a, b), LaneOp(15, a, b))
    ensures LaneCompare(7, a, b) <==> !LaneCompare(6, a, b)
    ensures LaneCompare(10, a, b) <==> LaneCompare(8, a, b) || LaneCompare(6, a, b)
    ensures LaneCompare(11, a, b) <==> LaneCompare(9, a, b) || LaneCompare(6, a, b)
    ensures LaneCompare(8, b, a) <==> !LaneCompare(10, a, b)
    ensures LaneCompare(9, b, a) <==> !LaneCompare(11, a, b)
  {
    SignedOrder(a, b);
    hide SignedHalf;
  }

  lemma SignedOrder(a: Half, b: Half)
    ensures SignedHalf(a) == SignedHalf(b) <==> a == b
  {
  }

  /** Quotient times divisor plus remainder is the dividend, for every operand
      pair, zero divisors and the signed overflow included. */
  lemma DivideLanes(a: Half, b: Half)
    ensures WrapHalf(LaneOp(17, a, b) * b + LaneOp(19, a, b)) == a
    ensures WrapHalf(LaneOp(16, a, b) * b + LaneOp(18, a, b)) == a
  {
    SignedIdentity(a, b);
    UnsignedIdentity(a, b);
  }

  lemma SignedIdentity(a: Half, b: Half)
    ensures WrapHalf(LaneOp(17, a, b) * b + LaneOp(19, a, b)) == a
  {
    hide WrapHalf, SignedHalf, Divide.TruncDiv, Divide.TruncRem;
    OwnPattern(a);
    SignedReading(b);
    if a == TWO31 && b == TWO32 - 1 {
      OverflowIdentity();
    } else if b != 0 {
      SignedReading(a);
      var x, y := SignedHalf(a), SignedHalf(b);
      Divide.TruncatedDivision(x, y);
      Recombined(Divide.TruncDiv(x, y), y, Divide.TruncRem(x, y), b);
    }
  }

  lemma OverflowIdentity()
    ensures WrapHalf(TWO31 * (TWO32 - 1)) == TWO31
  {
  }

  lemma SignedReading(a: Half)
    ensures WrapHalf(SignedHalf(a)) == a && (SignedHalf(a) == 0 <==> a == 0)
  {
  }

  lemma UnsignedIdentity(a: Half, b: Half)
    ensures WrapHalf(LaneOp(16, a, b) * b + LaneOp(18, a, b)) == a
  {
    hide WrapHalf, SignedHalf, Divide.TruncDiv, Divide.TruncRem;
    if b > 0 {
      UnsignedQuotient(a, b);
    } else {
      OwnPattern(a);
    }
  }

  lemma UnsignedQuotient(a: Half, b: Half)
    requires b > 0
    ensures WrapHalf(WrapHalf(a / b) * b + WrapHalf(a % b)) == a
  {
    hide WrapHalf;
    Tags.Division(a, b);
    OwnPattern(a);
    OwnPattern(b);
    Recombined(a / b, b, a % b, b);
  }

  lemma OwnPattern(a: Half)
    ensures WrapHalf(a) == a
  {
  }

  /** Modulo 2^32 it does not matter that the parts were cut back. */
  lemma Recombined(q: int, y: int, r: int, b: Half)
    requires b == WrapHalf(y)
    ensures WrapHalf(WrapHalf(q) * b + WrapHalf(r)) == WrapHalf(q * y + r)
  {
    Multiply.ProductMod(WrapHalf(q), b, q, y, -(q / TWO32), -(y / TWO32), TWO32);
    SumModulo(WrapHalf(q) * b, WrapHalf(r), q * y, r);
  }

  lemma SumModulo(x: int, s: int, y: int, r: int)
    requires x % TWO32 == y % TWO32 && s % TWO32 == r % TWO32
    ensures WrapHalf(x + s) == WrapHalf(y + r)
  {
    var low := y % TWO32 + r % TWO32;
    SameResidue(x + s, x / TWO32 + s / TWO32, low);
    SameResidue(y + r, y / TWO32 + r / TWO32, low);
  }

  lemma SameResidue(x: int, k: int, low: int)
    requires x == k * TWO32 + low
    ensures WrapHalf(x) == WrapHalf(low)
  {
    Tags.ModUnique(x, k + low / TWO32, low % TWO32, TWO32);
  }

  // ---- Compares ------------------------------------------------------------

  /** The unsigned compare is the borrow of vsub, equality a zero difference,
      and the signed compare the unsigned one with both sign bits flipped. */
  lemma CompareLanes(a: Half, b: Half)
    ensures LaneOp(1, a, b) == a - b + (if LaneCompare(9, a, b) then TWO32 else 0)
    ensures LaneCompare(6, a, b) <==> LaneOp(1, a, b) == 0
    ensures LaneCompare(8, a, b) <==> LaneCompare(9, WrapHalf(a + TWO31), WrapHalf(b + TWO31))
  {
    if a < b { Tags.ModUnique(a - b, -1, a - b + TWO32, TWO32); } else { Tags.ModUnique(a - b, 0, a - b, TWO32); }
    FlippedHalf(a);
    FlippedHalf(b);
  }

  lemma FlippedHalf(a: Half)
    ensures WrapHalf(a + TWO31) == SignedHalf(a) + TWO31
  {
  }

  // ---- Exact division ------------------------------------------------------

  /** Without wrapping: the unsigned results are the quotient and remainder of
      the patterns. */
  lemma UnsignedDivideLanes(a: Half, b: Half)
    requires b != 0
    ensures LaneOp(16, a, b) * b + LaneOp(18, a, b) == a && LaneOp(18, a, b) < b
  {
    hide WrapHalf, SignedHalf, Divide.TruncDiv, Divide.TruncRem;
    Tags.Division(a, b);
    AtMostDividend(a, b);
    OwnPattern(a / b);
    OwnPattern(a % b);
  }

  lemma AtMostDividend(a: Half, b: Half)
    requires b != 0
    ensures 0 <= a / b <= a && 0 <= a % b < b
  {
    AluLaws.Shrinks(a, b);
  }

  /** And the signed ones those of the signed readings, truncated toward zero,
      off the overflow. */
  lemma SignedDivideLanes(a: Half, b: Half)
    requires b != 0 && !(a == TWO31 && b == TWO32 - 1)
    ensures var q, r := SignedHalf(LaneOp(17, a, b)), SignedHalf(LaneOp(19, a, b));
            && q * SignedHalf(b) + r == SignedHalf(a)
            && Divide.Abs(r) < Divide.Abs(SignedHalf(b)) && (r != 0 ==> (r < 0 <==> SignedHalf(a) < 0))
  {
    hide WrapHalf, SignedHalf, Divide.TruncDiv, Divide.TruncRem, Divide.Abs;
    SignedReading(b);
    HalfBounds(a);
    HalfBounds(b);
    OverflowReading(a, b);
    var x, y := SignedHalf(a), SignedHalf(b);
    Divide.TruncatedDivision(x, y);
    TruncatedFits(x, y);
    SignedBack(Divide.TruncDiv(x, y));
    SignedBack(Divide.TruncRem(x, y));
  }

  lemma HalfBounds(a: Half)
    ensures -TWO31 <= SignedHalf(a) < TWO31
  {
  }

  lemma OverflowReading(a: Half, b: Half)
    ensures a == TWO31 && b == TWO32 - 1 <==> SignedHalf(a) == -TWO31 && SignedHalf(b) == -1
  {
  }

  lemma SignedBack(x: int)
    requires -TWO31 <= x < TWO31
    ensures SignedHalf(WrapHalf(x)) == x
  {
    if x < 0 { Tags.ModUnique(x, -1, x + TWO32, TWO32); }
  }

  lemma TruncatedFits(x: int, y: int)
    requires y != 0 && -TWO31 <= x < TWO31 && -TWO31 <= y < TWO31 && !(x == -TWO31 && y == -1)
    ensures -TWO31 <= Divide.TruncDiv(x, y) < TWO31 && -TWO31 <= Divide.TruncRem(x, y) < TWO31
  {
    DivFuTheorems.DivisionFits(Divide.Abs(x), Divide.Abs(y));
  }

  // ---- Shifts --------------------------------------------------------------

  /** vsll, vsrl and vsra move every bit by the low five bits of the amount:
      zeros enter below, zeros above, copies of bit 31 above. */
  lemma ShiftLanes(a: Half, b: Half, k: nat)
    requires k < 32
    ensures AluLaws.BitAt(LaneOp(20, a, b), k) <==> k >= b % 32 && AluLaws.BitAt(a, k - b % 32)
    ensures AluLaws.BitAt(LaneOp(21, a, b), k) <==> k + b % 32 < 32 && AluLaws.BitAt(a, k + b % 32)
    ensures AluLaws.BitAt(LaneOp(22, a, b), k) <==> AluLaws.BitAt(a, if k + b % 32 < 32 then k + b % 32 else 31)
  {
    hide LaneOp, AluLaws.BitAt, Alu.AluExec, SignExtend, Low;
    var s := b % 32;
    LowOfHalf(a);
    ShiftIsScalar(a, b);
    AluLaws.WordForms(a, b);
    AluLaws.LowOfSignExtend(Low(Alu.AluExec(Alu.Sll, false, a, s)));
    AluLaws.LowOfSignExtend(Low(Alu.AluExec(Alu.Srl, false, a, s)));
    AluLaws.LeftShiftBits(a, s, k);
    AluLaws.LowKeepsBit(Alu.AluExec(Alu.Sll, false, a, s), k);
    AluLaws.RightShiftBits(a, s, k);
    AluLaws.LowKeepsBit(Alu.AluExec(Alu.Srl, false, a, s), k);
    if k + s >= 32 { NoHighBits(a, k + s); }
    AluLaws.ArithmeticShiftBits(SignExtend(a), s, k);
    AluLaws.SignExtendBits(LaneOp(22, a, b), k);
    AluLaws.SignExtendBits(a, k + s);
  }

  lemma LowOfHalf(a: Half)
    ensures Low(a) == a
  {
  }

  lemma NoHighBits(a: Half, k: nat)
    requires k >= 32
    ensures !AluLaws.BitAt(a, k)
  {
    Pow2Values();
    Pow2Mono(32, k);
    Tags.DivModIs(a, 0, a, Pow2(k));
  }

  /** A shifted lane is the low half of the scalar W form. */
  lemma ShiftIsScalar(a: Half, b: Half)
    ensures LaneOp(20, a, b) == Low(Alu.AluExec(Alu.Sll, true, a, b))
    ensures LaneOp(21, a, b) == Low(Alu.AluExec(Alu.Srl, true, a, b))
    ensures SignExtend(LaneOp(22, a, b)) == Alu.AluExec(Alu.Sra, true, a, b)
  {
    hide Alu.WordResult, SignExtend;
    LowOfHalf(a);
    LowOfHalf(b);
    AluLaws.LowOfSignExtend(LaneOp(20, a, b));
    AluLaws.LowOfSignExtend(LaneOp(21, a, b));
  }
}
