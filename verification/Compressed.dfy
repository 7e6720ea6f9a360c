/** RV64C: the assembler's compressed encoders and the hardware expander that
    undoes them. A halfword is read through its five fields: bits 15:13, 12,
    11:7, 6:2 and 1:0. */
module Compressed {
  import opened Words
  import opened Tags
  import opened Encode

  datatype Compressed =
    | CAddi4spn(rd: Reg, v: int)
    | CLw(rd: Reg, rs1: Reg, off: int) | CLd(rd: Reg, rs1: Reg, off: int)
    | CSw(rs2: Reg, rs1: Reg, off: int) | CSd(rs2: Reg, rs1: Reg, off: int)
    | CNop | CAddi(rd: Reg, v: int) | CAddiw(rd: Reg, v: int) | CLi(rd: Reg, v: int)
    | CAddi16sp(v: int) | CLui(rd: Reg, v: int)
    | CSrli(rd: Reg, s: int) | CSrai(rd: Reg, s: int) | CAndi(rd: Reg, v: int)
    | CSub(rd: Reg, rs2: Reg) | CXor(rd: Reg, rs2: Reg) | COr(rd: Reg, rs2: Reg) | CAnd(rd: Reg, rs2: Reg)
    | CSubw(rd: Reg, rs2: Reg) | CAddw(rd: Reg, rs2: Reg)
    | CJ(off: int) | CBeqz(rs1: Reg, off: int) | CBnez(rs1: Reg, off: int)
    | CSlli(rd: Reg, s: int) | CLwsp(rd: Reg, off: int) | CLdsp(rd: Reg, off: int)
    | CSwsp(rs2: Reg, off: int) | CSdsp(rs2: Reg, off: int)
    | CJr(rs1: Reg) | CJalr(rs1: Reg) | CMv(rd: Reg, rs2: Reg) | CAdd(rd: Reg, rs2: Reg) | CEbreak

  // ---- The assembler's encoders -------------------------------------------

  /** Registers a three-bit field can name. */
  predicate Small(r: Reg) {
    8 <= r <= 15
  }

  /** The register and range checks that raise an error when they fail. */
  predicate Encodable(i: Compressed) {
    match i
    case CAddi4spn(rd, v) => Small(rd) && 0 <= v < 0x400
    case CLw(rd, rs1, off) => Small(rd) && Small(rs1) && 0 <= off < 0x80
    case CLd(rd, rs1, off) => Small(rd) && Small(rs1) && 0 <= off < 0x100
    case CSw(rs2, rs1, off) => Small(rs2) && Small(rs1) && 0 <= off < 0x80
    case CSd(rs2, rs1, off) => Small(rs2) && Small(rs1) && 0 <= off < 0x100
    case CAddi(_, v) => -32 <= v < 32
    case CAddiw(_, v) => -32 <= v < 32
    case CLi(_, v) => -32 <= v < 32
    case CAddi16sp(v) => -512 <= v < 512
    case CSrli(rd, s) => Small(rd) && 0 <= s < 64
    case CSrai(rd, s) => Small(rd) && 0 <= s < 64
    case CAndi(rd, v) => Small(rd) && -32 <= v < 32
    case CSub(rd, rs2) => Small(rd) && Small(rs2)
    case CXor(rd, rs2) => Small(rd) && Small(rs2)
    case COr(rd, rs2) => Small(rd) && Small(rs2)
    case CAnd(rd, rs2) => Small(rd) && Small(rs2)
    case CSubw(rd, rs2) => Small(rd) && Small(rs2)
    case CAddw(rd, rs2) => Small(rd) && Small(rs2)
    case CJ(off) => -0x800 <= off < 0x800
    case CBeqz(rs1, off) => Small(rs1) && -0x100 <= off < 0x100
    case CBnez(rs1, off) => Small(rs1) && -0x100 <= off < 0x100
    case CSlli(_, s) => 0 <= s < 64
    case CLwsp(_, off) => 0 <= off < 0x100
    case CLdsp(_, off) => 0 <= off < 0x200
    case CSwsp(_, off) => 0 <= off < 0x100
    case CSdsp(_, off) => 0 <= off < 0x200
    case _ => true
  }

  /** The value of a checked field, `v & mask`. */
  function Masked(v: int, size: nat): nat
    requires size > 0
  {
    v % size
  }

  /** c_lw_sw, with the low two bits zero. */
  function EncodeWordMem(f3: nat, r: Reg, rs1: Reg, off: int): int {
    var o := Masked(off, 0x80);
    f3 * 0x2000 + Slice(o, 8, 8) * 0x400 + (rs1 - 8) * 0x80 + Slice(o, 4, 2) * 0x40 + Slice(o, 0x40, 2) * 0x20 + (r - 8) * 4
  }

  /** c_ld_sd, with the low two bits zero. */
  function EncodeDoubleMem(f3: nat, r: Reg, rs1: Reg, off: int): int {
    var o := Masked(off, 0x100);
    f3 * 0x2000 + Slice(o, 8, 8) * 0x400 + (rs1 - 8) * 0x80 + Slice(o, 0x40, 4) * 0x20 + (r - 8) * 4
  }

  function EncodeImm6(f3: nat, r: Reg, v: int): int {
    var u := Masked(v, 64);
    f3 * 0x2000 + Slice(u, 32, 2) * 0x1000 + r * 0x80 + u % 32 * 4 + 1
  }

  /** c_shift_imm, and c_andi with its own selector. */
  function EncodeAlu6(f2: nat, rd: Reg, v: int): int {
    var u := Masked(v, 64);
    0x8000 + Slice(u, 32, 2) * 0x1000 + f2 * 0x400 + (rd - 8) * 0x80 + u % 32 * 4 + 1
  }

  function EncodePair(bit12: nat, f2: nat, rd: Reg, rs2: Reg): int {
    0x8000 + bit12 * 0x1000 + 0xC00 + (rd - 8) * 0x80 + f2 * 0x20 + (rs2 - 8) * 4 + 1
  }

  function EncodeAddi4spn(rd: Reg, v: int): int {
    var u := Masked(v, 0x400);
    Slice(u, 16, 4) * 0x800 + Slice(u, 64, 16) * 0x80 + Slice(u, 4, 2) * 0x40 + Slice(u, 8, 2) * 0x20 + (rd - 8) * 4
  }

  function EncodeAddi16sp(v: int): int {
    var u := Masked(v, 0x400);
    0x6000 + Slice(u, 0x200, 2) * 0x1000 + 2 * 0x80 + Slice(u, 16, 2) * 0x40 + Slice(u, 64, 2) * 0x20 + Slice(u, 128, 4) * 8
    + Slice(u, 32, 2) * 4 + 1
  }

  function EncodeJump(off: int): int {
    var o := Masked(off, 0x1000);
    0xA000 + Slice(o, 0x800, 2) * 0x1000 + Slice(o, 16, 2) * 0x800 + Slice(o, 0x100, 4) * 0x200 + Slice(o, 0x400, 2) * 0x100
    + Slice(o, 0x40, 2) * 0x80 + Slice(o, 0x80, 2) * 0x40 + Slice(o, 2, 8) * 8 + Slice(o, 32, 2) * 4 + 1
  }

  function EncodeBranch(f3: nat, rs1: Reg, off: int): int {
    var o := Masked(off, 0x200);
    f3 * 0x2000 + Slice(o, 0x100, 2) * 0x1000 + Slice(o, 8, 4) * 0x400 + (rs1 - 8) * 0x80 + Slice(o, 0x40, 4) * 0x20
    + Slice(o, 2, 4) * 8 + Slice(o, 32, 2) * 4 + 1
  }

  function EncodeLwsp(rd: Reg, off: int): int {
    var o := Masked(off, 0x100);
    0x4000 + Slice(o, 32, 2) * 0x1000 + rd * 0x80 + Slice(o, 4, 8) * 0x10 + Slice(o, 64, 4) * 4 + 2
  }

  function EncodeLdsp(rd: Reg, off: int): int {
    var o := Masked(off, 0x200);
    0x6000 + Slice(o, 32, 2) * 0x1000 + rd * 0x80 + Slice(o, 8, 4) * 0x20 + Slice(o, 64, 8) * 4 + 2
  }

  function EncodeSwsp(rs2: Reg, off: int): int {
    var o := Masked(off, 0x100);
    0xC000 + Slice(o, 4, 16) * 0x200 + Slice(o, 64, 4) * 0x80 + rs2 * 4 + 2
  }

  function EncodeSdsp(rs2: Reg, off: int): int {
    var o := Masked(off, 0x200);
    0xE000 + Slice(o, 8, 8) * 0x400 + Slice(o, 64, 8) * 0x80 + rs2 * 4 + 2
  }

  function EncodeSlli(rd: Reg, s: int): int {
    var u := Masked(s, 64);
    Slice(u, 32, 2) * 0x1000 + rd * 0x80 + u % 32 * 4 + 2
  }

  function EncodeCr(top: nat, r: Reg, rs2: Reg): int {
    top * 0x1000 + r * 0x80 + rs2 * 4 + 2
  }

  /** The halfword, when no check raises. */
  function EncodeC(i: Compressed): int {
    match i
    case CAddi4spn(rd, v) => EncodeAddi4spn(rd, v)
    case CLw(rd, rs1, off) => EncodeWordMem(2, rd, rs1, off)
    case CLd(rd, rs1, off) => EncodeDoubleMem(3, rd, rs1, off)
    case CSw(rs2, rs1, off) => EncodeWordMem(6, rs2, rs1, off)
    case CSd(rs2, rs1, off) => EncodeDoubleMem(7, rs2, rs1, off)
    case CNop => EncodeImm6(0, 0, 0)
    case CAddi(rd, v) => EncodeImm6(0, rd, v)
    case CAddiw(rd, v) => EncodeImm6(1, rd, v)
    case CLi(rd, v) => EncodeImm6(2, rd, v)
    case CAddi16sp(v) => EncodeAddi16sp(v)
    case CLui(rd, v) => EncodeImm6(3, rd, v)
    case CSrli(rd, s) => EncodeAlu6(0, rd, s)
    case CSrai(rd, s) => EncodeAlu6(1, rd, s)
    case CAndi(rd, v) => EncodeAlu6(2, rd, v)
    case CSub(rd, rs2) => EncodePair(0, 0, rd, rs2)
    case CXor(rd, rs2) => EncodePair(0, 1, rd, rs2)
    case COr(rd, rs2) => EncodePair(0, 2, rd, rs2)
    case CAnd(rd, rs2) => EncodePair(0, 3, rd, rs2)
    case CSubw(rd, rs2) => EncodePair(1, 0, rd, rs2)
    case CAddw(rd, rs2) => EncodePair(1, 1, rd, rs2)
    case CJ(off) => EncodeJump(off)
    case CBeqz(rs1, off) => EncodeBranch(6, rs1, off)
    case CBnez(rs1, off) => EncodeBranch(7, rs1, off)
    case CSlli(rd, s) => EncodeSlli(rd, s)
    case CLwsp(rd, off) => EncodeLwsp(rd, off)
    case CLdsp(rd, off) => EncodeLdsp(rd, off)
    case CSwsp(rs2, off) => EncodeSwsp(rs2, off)
    case CSdsp(rs2, off) => EncodeSdsp(rs2, off)
    case CJr(rs1) => EncodeCr(8, rs1, 0)
    case CJalr(rs1) => EncodeCr(9, rs1, 0)
    case CMv(rd, rs2) => EncodeCr(8, rd, rs2)
    case CAdd(rd, rs2) => EncodeCr(9, rd, rs2)
    case CEbreak => EncodeCr(9, 0, 0)
  }

  // ---- The hardware expander ----------------------------------------------

  const NOP: Half := 0x13

  /** Six bits, top one in `b12`, sign-extended to `size` values. */
  function Sext6(b12: nat, lo: Reg, size: nat): nat
    requires b12 < 2 && size >= 64
  {
    b12 * (size - 32) + lo
  }

  /** The register a three-bit field names. */
  function Creg(x: nat): Reg {
    8 + x % 8
  }

  function ExpandQuadrant0(f3: nat, b12: nat, mid: Reg, lo: Reg): Half
    requires b12 < 2
  {
    var rs1, r := Creg(mid), Creg(lo);
    var wordOff := lo / 8 % 2 * 64 + (b12 * 4 + mid / 8) * 8 + lo / 16 * 4;
    var doubleOff := lo / 8 * 64 + (b12 * 4 + mid / 8) * 8;
    if f3 == 0 then IType(OP_I, 0, r, 2, mid % 16 * 64 + (b12 * 2 + mid / 16) * 16 + lo / 8 % 2 * 8 + lo / 16 * 4)
    else if f3 == 2 then IType(OP_LOAD, 2, r, rs1, wordOff)
    else if f3 == 3 then IType(OP_LOAD, 3, r, rs1, doubleOff)
    else if f3 == 6 then SType(OP_S, 2, rs1, r, wordOff)
    else if f3 == 7 then SType(OP_S, 3, rs1, r, doubleOff)
    else NOP
  }

  /** The C.J offset, bit 11 replicated up to bit 20. */
  function JumpOffset(b12: nat, mid: Reg, lo: Reg): nat
    requires b12 < 2
  {
    b12 * (0x20_0000 - 0x800) + mid / 2 % 2 * 0x400 + mid / 4 % 4 * 0x100 + lo / 16 * 0x80 + mid % 2 * 0x40 + lo % 2 * 0x20
    + mid / 16 * 0x10 + lo / 2 % 8 * 2
  }

  /** The C.BEQZ and C.BNEZ offset, bit 8 replicated up to bit 12. */
  function BranchOffset(b12: nat, mid: Reg, lo: Reg): nat
    requires b12 < 2
  {
    b12 * (0x2000 - 0x100) + lo / 8 * 0x40 + lo % 2 * 0x20 + mid / 8 * 8 + lo / 2 % 4 * 2
  }

  function ExpandQuadrant1(f3: nat, b12: nat, mid: Reg, lo: Reg): Half
    requires b12 < 2
  {
    var r, rs2 := Creg(mid), Creg(lo);
    var imm := Sext6(b12, lo, 0x1000);
    if f3 == 0 then IType(OP_I, 0, mid, mid, imm)
    else if f3 == 1 then IType(OP_IMM_32, 0, mid, mid, imm)
    else if f3 == 2 then IType(OP_I, 0, mid, 0, imm)
    else if f3 == 3 then
      if mid == 2 then
        IType(OP_I, 0, 2, 2, b12 * (0x1000 - 0x200) + lo / 2 % 4 * 128 + lo / 8 % 2 * 64 + lo % 2 * 32 + lo / 16 * 16)
      else UType(OP_LUI, mid, Sext6(b12, lo, 0x10_0000) * 0x1000)
    else if f3 == 4 then
      if mid / 8 == 0 then IType(OP_I, 5, r, r, b12 * 32 + lo)
      else if mid / 8 == 1 then IType(OP_I, 5, r, r, 0x400 + b12 * 32 + lo)
      else if mid / 8 == 2 then IType(OP_I, 7, r, r, imm)
      else if b12 == 0 then
        if lo / 8 == 0 then RType(OP_R, 0, 32, r, r, rs2)
        else if lo / 8 == 1 then RType(OP_R, 4, 0, r, r, rs2)
        else if lo / 8 == 2 then RType(OP_R, 6, 0, r, r, rs2)
        else RType(OP_R, 7, 0, r, r, rs2)
      else if lo / 8 == 0 then RType(OP_32, 0, 32, r, r, rs2)
      else if lo / 8 == 1 then RType(OP_32, 0, 0, r, r, rs2)
      else NOP
    else if f3 == 5 then JType(OP_JAL, 0, JumpOffset(b12, mid, lo))
    else if f3 == 6 then BType(OP_B, 0, r, 0, BranchOffset(b12, mid, lo))
    else BType(OP_B, 1, r, 0, BranchOffset(b12, mid, lo))
  }

  function ExpandQuadrant2(f3: nat, b12: nat, mid: Reg, lo: Reg): Half
    requires b12 < 2
  {
    if f3 == 0 then IType(OP_I, 1, mid, mid, b12 * 32 + lo)
    else if f3 == 2 then IType(OP_LOAD, 2, mid, 2, lo % 4 * 64 + b12 * 32 + lo / 4 * 4)
    else if f3 == 3 then IType(OP_LOAD, 3, mid, 2, lo % 8 * 64 + b12 * 32 + lo / 8 * 8)
    else if f3 == 4 then
      if b12 == 0 then
        if lo == 0 then IType(OP_JALR, 0, 0, mid, 0) else RType(OP_R, 0, 0, mid, 0, lo)
      else if mid == 0 && lo == 0 then IType(OP_SYSTEM, 0, 0, 0, 1)
      else if lo == 0 then IType(OP_JALR, 0, 1, mid, 0)
      else RType(OP_R, 0, 0, mid, mid, lo)
    else if f3 == 6 then SType(OP_S, 2, 2, lo, mid % 4 * 64 + (b12 * 8 + mid / 4) * 4)
    else if f3 == 7 then SType(OP_S, 3, 2, lo, mid % 8 * 64 + (b12 * 4 + mid / 8) * 8)
    else NOP
  }

  function ExpandFields(f3: nat, b12: nat, mid: Reg, lo: Reg, op: nat): Half
    requires b12 < 2
  {
    if op == 0 then ExpandQuadrant0(f3, b12, mid, lo)
    else if op == 1 then ExpandQuadrant1(f3, b12, mid, lo)
    else ExpandQuadrant2(f3, b12, mid, lo)
  }

  function ExpandHalfword(c: nat): Half {
    ExpandFields(c / 0x2000, c / 0x1000 % 2, c / 0x80 % 32, c / 4 % 32, c % 4)
  }

  /** The whole expander: {next halfword, this halfword} to one 32-bit word. */
  function Expand(fetch: Half): Half {
    if fetch % 4 == 3 then fetch else ExpandHalfword(fetch % 0x1_0000)
  }
}
