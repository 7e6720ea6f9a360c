/** One 32-bit lane of the vector ALU, and the masks around it. */
module VectorAlu {
  import opened Words
  import Alu
  import Divide

  /** The lane result of operation code `op`; compare codes give zero. */
  function LaneOp(op: nat, a: Half, b: Half): Half {
    match op
    case 0 => WrapHalf(a + b)
    case 1 => WrapHalf(a - b)
    case 2 => Combine32(AndBits, a, b)
    case 3 => Combine32(OrBits, a, b)
    case 4 => Combine32(XorBits, a, b)
    case 5 => WrapHalf(a * b)
    case 12 => if SignedHalf(a) < SignedHalf(b) then a else b
    case 13 => if a < b then a else b
    case 14 => if SignedHalf(a) > SignedHalf(b) then a else b
    case 15 => if a > b then a else b
    case 16 => Divide.WordResult(Divide.Divu, a, b)
    case 17 => Divide.WordResult(Divide.Div, a, b)
    case 18 => Divide.WordResult(Divide.Remu, a, b)
    case 19 => Divide.WordResult(Divide.Rem, a, b)
    case 20 => Alu.WordResult(Alu.Sll, a, b)
    case 21 => Alu.WordResult(Alu.Srl, a, b)
    case 22 => Alu.WordResult(Alu.Sra, a, b)
    case _ => 0
  }

  function Combine32(op: BitOp, a: Half, b: Half): Half {
    Pow2Values();
    BitwiseBound(op, 32, a, b);
    Bitwise(op, a, b)
  }

  /** The compare bit of a lane. */
  predicate LaneCompare(op: nat, a: Half, b: Half) {
    match op
    case 6 => a == b
    case 7 => a != b
    case 8 => SignedHalf(a) < SignedHalf(b)
    case 9 => a < b
    case 10 => SignedHalf(a) <= SignedHalf(b)
    case 11 => a <= b
    case _ => false
  }

  /** Bit i of the mask register v0. */
  predicate MaskBit(v0: seq<Half>, i: nat)
    requires |v0| > 0
  {
    i / 32 < |v0| && v0[i / 32] / Pow2(i % 32) % 2 == 1
  }

  /** Below vl, and unmasked or selected by v0. */
  predicate Active(vl: nat, unmasked: bool, v0: seq<Half>, i: nat)
    requires |v0| > 0
  {
    i < vl && (unmasked || MaskBit(v0, i))
  }
}
