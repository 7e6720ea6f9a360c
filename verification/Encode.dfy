/** The 32-bit instruction formats: the assembler's encoders (asm.py) and the
    field and immediate extraction of decode_control_unit.v. A shifted OR of
    disjoint fields is written as their sum. */
module Encode {
  import opened Words
  import opened Tags

  type Reg = x: int | 0 <= x < 32
  type Field3 = x: int | 0 <= x < 8
  type Field7 = x: int | 0 <= x < 128

  const OP_R: Field7 := 0x33
  const OP_I: Field7 := 0x13
  const OP_LOAD: Field7 := 0x03
  const OP_S: Field7 := 0x23
  const OP_B: Field7 := 0x63
  const OP_JAL: Field7 := 0x6F
  const OP_JALR: Field7 := 0x67
  const OP_LUI: Field7 := 0x37
  const OP_AUIPC: Field7 := 0x17
  const OP_SYSTEM: Field7 := 0x73
  const OP_IMM_32: Field7 := 0x1B
  const OP_32: Field7 := 0x3B
  const OP_AMO: Field7 := 0x2F
  const OP_LOAD_FP: Field7 := 0x07
  const OP_STORE_FP: Field7 := 0x27
  const OP_V: Field7 := 0x57

  // ---- Encoders ----------------------------------------------------------

  /** `imm(x, bits)`: a range check, then the low bits. */
  function SignedField(v: int, half: nat): Option<nat>
    requires half > 0
  {
    if 0 - half <= v < half then Some(if v < 0 then v + 2 * half else v) else None
  }

  /** Bits lo .. of a field, as (v >> k) & mask. */
  function Slice(v: nat, lo: nat, size: nat): (r: nat)
    requires lo > 0 && size > 0
    ensures r < size
  {
    v / lo % size
  }

  function RType(op: Field7, f3: Field3, f7: Field7, rd: Reg, rs1: Reg, rs2: Reg): Half {
    f7 * 0x200_0000 + rs2 * 0x10_0000 + rs1 * 0x8000 + f3 * 0x1000 + rd * 0x80 + op
  }

  function IType(op: Field7, f3: Field3, rd: Reg, rs1: Reg, immv: nat): Half {
    immv % 0x1000 * 0x10_0000 + rs1 * 0x8000 + f3 * 0x1000 + rd * 0x80 + op
  }

  function SType(op: Field7, f3: Field3, rs1: Reg, rs2: Reg, immv: nat): Half {
    Slice(immv, 0x20, 128) * 0x200_0000 + rs2 * 0x10_0000 + rs1 * 0x8000 + f3 * 0x1000 + immv % 32 * 0x80 + op
  }

  function BType(op: Field7, f3: Field3, rs1: Reg, rs2: Reg, immv: nat): Half {
    Slice(immv, 0x1000, 2) * 0x8000_0000 + Slice(immv, 0x20, 64) * 0x200_0000 + rs2 * 0x10_0000 + rs1 * 0x8000
    + f3 * 0x1000 + Slice(immv, 2, 16) * 0x100 + Slice(immv, 0x800, 2) * 0x80 + op
  }

  /** `immv & 0xFFFFF000`, then the 32-bit truncation. */
  function UType(op: Field7, rd: Reg, immv: nat): Half {
    Slice(immv, 0x1000, 0x10_0000) * 0x1000 + rd * 0x80 + op
  }

  function JType(op: Field7, rd: Reg, immv: nat): Half {
    Slice(immv, 0x10_0000, 2) * 0x8000_0000 + Slice(immv, 2, 1024) * 0x20_0000 + Slice(immv, 0x800, 2) * 0x10_0000
    + Slice(immv, 0x1000, 256) * 0x1000 + rd * 0x80 + op
  }

  // ---- Field and immediate extraction -------------------------------------

  function Opcode(w: Half): Field7 {
    w % 128
  }

  function Rd(w: Half): Reg {
    w / 0x80 % 32
  }

  function Func3(w: Half): Field3 {
    w / 0x1000 % 8
  }

  function Rs1(w: Half): Reg {
    w / 0x8000 % 32
  }

  function Rs2(w: Half): Reg {
    w / 0x10_0000 % 32
  }

  function Func7(w: Half): Field7 {
    w / 0x200_0000
  }

  /** A field of 2 * half values sign-extended to 64 bits. */
  function Extend(v: int, half: nat): Word
    requires 0 <= v < 2 * half && half <= TWO31
  {
    if v >= half then TWO64 - 2 * half + v else v
  }

  function ImmI(w: Half): Word {
    Extend(w / 0x10_0000, 0x800)
  }

  function ImmS(w: Half): Word {
    Extend(w / 0x200_0000 * 32 + w / 0x80 % 32, 0x800)
  }

  function ImmB(w: Half): Word {
    Extend(w / 0x8000_0000 * 0x1000 + w / 0x80 % 2 * 0x800 + w / 0x200_0000 % 64 * 32 + w / 0x100 % 16 * 2, 0x1000)
  }

  function ImmU(w: Half): Word {
    Extend(w / 0x1000 * 0x1000, TWO31)
  }

  function ImmJ(w: Half): Word {
    Extend(w / 0x8000_0000 * 0x10_0000 + w / 0x1000 % 256 * 0x1000 + w / 0x10_0000 % 2 * 0x800
           + w / 0x20_0000 % 1024 * 2, 0x10_0000)
  }

  /** The immediate generator's case on the opcode. */
  function Imm(w: Half): Word {
    var op := Opcode(w);
    if op == OP_LOAD || op == OP_I || op == OP_JALR || op == OP_IMM_32 then ImmI(w)
    else if op == OP_LOAD_FP then (if Func3(w) == 6 then 0 else ImmI(w))
    else if op == OP_S then ImmS(w)
    else if op == OP_STORE_FP then (if Func3(w) == 6 then 0 else ImmS(w))
    else if op == OP_B then ImmB(w)
    else if op == OP_JAL then ImmJ(w)
    else if op == OP_LUI || op == OP_AUIPC then ImmU(w)
    else 0
  }

  // ---- Decoding what was encoded ------------------------------------------

  /** A field `mid` of `size` values, above `low` and below `hi`. */
  lemma FieldIs(w: nat, unit: nat, size: nat, hi: nat, mid: nat, low: nat)
    requires w == (hi * size + mid) * unit + low && mid < size && low < unit
    ensures w / unit % size == mid && w / unit == hi * size + mid && w % unit == low
  {
    DivModIs(w, hi * size + mid, low, unit);
    DivModIs(hi * size + mid, hi, mid, size);
  }

  /** The five fields every format shares, from the bits above and between. */
  lemma SharedFields(w: Half, top: nat, rs2: Reg, rs1: Reg, f3: Field3, mid: Reg, op: Field7)
    requires top < 128
    requires w == top * 0x200_0000 + rs2 * 0x10_0000 + rs1 * 0x8000 + f3 * 0x1000 + mid * 0x80 + op
    ensures Opcode(w) == op && Rd(w) == mid && Func3(w) == f3 && Rs1(w) == rs1 && Rs2(w) == rs2 && Func7(w) == top
  {
    FieldIs(w, 0x80, 32, top * 0x2000 + rs2 * 0x100 + rs1 * 8 + f3, mid, op);
    FieldIs(w, 0x1000, 8, top * 0x400 + rs2 * 0x20 + rs1, f3, mid * 0x80 + op);
    FieldIs(w, 0x8000, 32, top * 0x20 + rs2, rs1, f3 * 0x1000 + mid * 0x80 + op);
    FieldIs(w, 0x10_0000, 32, top, rs2, rs1 * 0x8000 + f3 * 0x1000 + mid * 0x80 + op);
    FieldIs(w, 0x200_0000, 128, 0, top, rs2 * 0x10_0000 + rs1 * 0x8000 + f3 * 0x1000 + mid * 0x80 + op);
  }

  lemma DecodeR(op: Field7, f3: Field3, f7: Field7, rd: Reg, rs1: Reg, rs2: Reg)
    ensures var w := RType(op, f3, f7, rd, rs1, rs2);
            && Opcode(w) == op && Rd(w) == rd && Func3(w) == f3 && Rs1(w) == rs1 && Rs2(w) == rs2 && Func7(w) == f7
  {
    SharedFields(RType(op, f3, f7, rd, rs1, rs2), f7, rs2, rs1, f3, rd, op);
  }

  /** The 12-bit pattern of a signed value, and back. */
  lemma TwelveBits(v: int, x: nat)
    requires -0x800 <= v < 0x800 && x == v % 0x1000
    ensures x < 0x1000 && x % 0x1000 == x && Extend(x, 0x800) == Wrap(v)
  {
  }

  lemma DecodeI(op: Field7, f3: Field3, rd: Reg, rs1: Reg, v: int)
    requires -0x800 <= v < 0x800
    ensures var w := IType(op, f3, rd, rs1, v % 0x1000);
            && Opcode(w) == op && Rd(w) == rd && Func3(w) == f3 && Rs1(w) == rs1 && ImmI(w) == Wrap(v)
  {
    var x := v % 0x1000;
    var w := IType(op, f3, rd, rs1, x);
    TwelveBits(v, x);
    SharedFields(w, x / 32, x % 32, rs1, f3, rd, op);
    FieldIs(w, 0x10_0000, 0x1000, 0, x, rs1 * 0x8000 + f3 * 0x1000 + rd * 0x80 + op);
  }

  lemma DecodeS(op: Field7, f3: Field3, rs1: Reg, rs2: Reg, v: int)
    requires -0x800 <= v < 0x800
    ensures var w := SType(op, f3, rs1, rs2, v % 0x1000);
            && Opcode(w) == op && Func3(w) == f3 && Rs1(w) == rs1 && Rs2(w) == rs2 && ImmS(w) == Wrap(v)
  {
    var x := v % 0x1000;
    TwelveBits(v, x);
    SharedFields(SType(op, f3, rs1, rs2, x), x / 32, rs2, rs1, f3, x % 32, op);
  }

  /** A branch offset's scattered bits, put back together. */
  lemma BranchParts(x: nat)
    requires x < 0x2000
    ensures Slice(x, 0x1000, 2) * 0x1000 + Slice(x, 0x800, 2) * 0x800 + Slice(x, 0x20, 64) * 32 + Slice(x, 2, 16) * 2
            == x - x % 2
  {
    var y := x / 2;
    assert x / 0x20 == y / 16;
    assert x / 0x800 == y / 0x400;
    assert x / 0x1000 == y / 0x800;
    assert y == y / 16 * 16 + y % 16;
    assert y / 16 == y / 0x400 * 64 + y / 16 % 64;
  }

  lemma BranchSign(v: int, x: nat)
    requires -0x1000 <= v < 0x1000 && x == v % 0x2000
    ensures Extend(x - x % 2, 0x1000) == Wrap(v - v % 2)
  {
  }

  /** The branch immediate comes back without its lowest bit. */
  lemma DecodeB(op: Field7, f3: Field3, rs1: Reg, rs2: Reg, v: int)
    requires -0x1000 <= v < 0x1000
    ensures var w := BType(op, f3, rs1, rs2, v % 0x2000);
            && Opcode(w) == op && Func3(w) == f3 && Rs1(w) == rs1 && Rs2(w) == rs2 && ImmB(w) == Wrap(v - v % 2)
  {
    var x := v % 0x2000;
    BranchParts(x);
    BranchSign(v, x);
    BranchFields(BType(op, f3, rs1, rs2, x), Slice(x, 0x1000, 2), Slice(x, 0x20, 64), rs2, rs1, f3,
                 Slice(x, 2, 16), Slice(x, 0x800, 2), op);
  }

  lemma BranchFields(w: Half, b12: nat, m6: nat, rs2: Reg, rs1: Reg, f3: Field3, l4: nat, b11: nat, op: Field7)
    requires b12 < 2 && m6 < 64 && l4 < 16 && b11 < 2
    requires w == b12 * 0x8000_0000 + m6 * 0x200_0000 + rs2 * 0x10_0000 + rs1 * 0x8000 + f3 * 0x1000 + l4 * 0x100
                  + b11 * 0x80 + op
    ensures Opcode(w) == op && Func3(w) == f3 && Rs1(w) == rs1 && Rs2(w) == rs2
    ensures ImmB(w) == Extend(b12 * 0x1000 + b11 * 0x800 + m6 * 32 + l4 * 2, 0x1000)
  {
    hide *;
    SharedFields(w, b12 * 64 + m6, rs2, rs1, f3, l4 * 2 + b11, op);
    BranchImmediate(w, b12, m6, rs2 * 0x10_0000 + rs1 * 0x8000 + f3 * 0x1000, l4, b11, op);
  }

  lemma BranchImmediate(w: Half, b12: nat, m6: nat, middle: nat, l4: nat, b11: nat, op: Field7)
    requires b12 < 2 && m6 < 64 && l4 < 16 && b11 < 2 && middle < 0x200_0000 && middle % 0x1000 == 0
    requires w == b12 * 0x8000_0000 + m6 * 0x200_0000 + middle + l4 * 0x100 + b11 * 0x80 + op
    ensures ImmB(w) == Extend(b12 * 0x1000 + b11 * 0x800 + m6 * 32 + l4 * 2, 0x1000)
  {
    hide Extend;
    var low := middle + l4 * 0x100 + b11 * 0x80 + op;
    var above := b12 * 0x8_0000 + m6 * 0x2000 + middle / 0x1000;
    FieldIs(w, 0x8000_0000, 2, 0, b12, m6 * 0x200_0000 + low);
    FieldIs(w, 0x200_0000, 64, b12, m6, low);
    FieldIs(w, 0x100, 16, above, l4, b11 * 0x80 + op);
    FieldIs(w, 0x80, 2, above * 16 + l4, b11, op);
  }

  lemma DecodeU(op: Field7, rd: Reg, v: nat)
    ensures var w := UType(op, rd, v);
            && Opcode(w) == op && Rd(w) == rd && ImmU(w) == SignExtend(v / 0x1000 * 0x1000 % TWO32)
  {
    var top := Slice(v, 0x1000, 0x10_0000);
    var w := UType(op, rd, v);
    FieldIs(w, 0x80, 32, top, rd, op);
    FieldIs(w, 0x1000, 0x10_0000, 0, top, rd * 0x80 + op);
    UpperIs(v);
  }

  lemma UpperIs(v: nat)
    ensures Slice(v, 0x1000, 0x10_0000) * 0x1000 == v / 0x1000 * 0x1000 % TWO32
  {
    var q := v / 0x1000;
    assert q == q / 0x10_0000 * 0x10_0000 + q % 0x10_0000;
  }

  lemma JumpParts(v: int, x: nat)
    requires -0x10_0000 <= v < 0x10_0000 && x == v % 0x20_0000
    ensures Slice(x, 0x10_0000, 2) * 0x10_0000 + Slice(x, 0x1000, 256) * 0x1000 + Slice(x, 0x800, 2) * 0x800
            + Slice(x, 2, 1024) * 2 == x - x % 2
    ensures Extend(x - x % 2, 0x10_0000) == Wrap(v - v % 2)
  {
    JumpBits(x);
    JumpSign(v, x);
  }

  lemma JumpBits(x: nat)
    requires x < 0x20_0000
    ensures Slice(x, 0x10_0000, 2) * 0x10_0000 + Slice(x, 0x1000, 256) * 0x1000 + Slice(x, 0x800, 2) * 0x800
            + Slice(x, 2, 1024) * 2 == x - x % 2
  {
    Telescope(x, 2, 1024);
    Telescope(x, 0x800, 2);
    Telescope(x, 0x1000, 256);
    Telescope(x, 0x10_0000, 2);
  }

  lemma JumpSign(v: int, x: nat)
    requires -0x10_0000 <= v < 0x10_0000 && x == v % 0x20_0000
    ensures Extend(x - x % 2, 0x10_0000) == Wrap(v - v % 2)
  {
  }

  lemma DecodeJ(op: Field7, rd: Reg, v: int)
    requires -0x10_0000 <= v < 0x10_0000
    ensures var w := JType(op, rd, v % 0x20_0000);
            && Opcode(w) == op && Rd(w) == rd && ImmJ(w) == Wrap(v - v % 2)
  {
    var x := v % 0x20_0000;
    JumpParts(v, x);
    JumpFields(JType(op, rd, x), Slice(x, 0x10_0000, 2), Slice(x, 2, 1024), Slice(x, 0x800, 2),
               Slice(x, 0x1000, 256), rd, op);
  }

  lemma JumpFields(w: Half, b20: nat, m10: nat, b11: nat, m8: nat, rd: Reg, op: Field7)
    requires b20 < 2 && m10 < 1024 && b11 < 2 && m8 < 256
    requires w == b20 * 0x8000_0000 + m10 * 0x20_0000 + b11 * 0x10_0000 + m8 * 0x1000 + rd * 0x80 + op
    ensures Opcode(w) == op && Rd(w) == rd
    ensures ImmJ(w) == Extend(b20 * 0x10_0000 + m8 * 0x1000 + b11 * 0x800 + m10 * 2, 0x10_0000)
  {
    var low := rd * 0x80 + op;
    FieldIs(w, 0x80, 32, b20 * 0x8_0000 + m10 * 0x200 + b11 * 0x100 + m8, rd, op);
    FieldIs(w, 0x1000, 256, b20 * 0x800 + m10 * 2 + b11, m8, low);
    FieldIs(w, 0x10_0000, 2, b20 * 0x400 + m10, b11, m8 * 0x1000 + low);
    FieldIs(w, 0x20_0000, 1024, b20, m10, b11 * 0x10_0000 + m8 * 0x1000 + low);
    FieldIs(w, 0x8000_0000, 2, 0, b20, m10 * 0x20_0000 + b11 * 0x10_0000 + m8 * 0x1000 + low);
  }

  // ---- Known machine words -------------------------------------------------

  /** One word of every opcode, as an independent assembler prints it: sub, subw,
      addi, addiw, lw, sd, beq, jal, ret, lui, auipc, ecall. */
  lemma KnownWords()
    ensures RType(OP_R, 0, 0x20, 1, 2, 3) == 0x403100B3 && RType(OP_32, 0, 0x20, 1, 2, 3) == 0x403100BB
    ensures IType(OP_I, 0, 5, 6, 0xFFF) == 0xFFF30293 && IType(OP_IMM_32, 0, 5, 6, 1) == 0x0013029B
    ensures IType(OP_LOAD, 2, 6, 7, 8) == 0x0083A303 && SType(OP_S, 3, 2, 1, 0) == 0x00113023
    ensures BType(OP_B, 0, 5, 6, 8) == 0x00628463 && JType(OP_JAL, 1, 8) == 0x008000EF
    ensures IType(OP_JALR, 0, 0, 1, 0) == 0x00008067 && IType(OP_SYSTEM, 0, 0, 0, 0) == 0x00000073
    ensures UType(OP_LUI, 5, 0x1234_5000) == 0x123452B7 && UType(OP_AUIPC, 5, 0x1234_5000) == 0x12345297
  {
  }
}
