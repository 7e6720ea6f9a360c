/** Every compressed form expands to the 32-bit instruction it stands for,
    exactly when its operands are aligned and its registers not reserved. */
module CompressedProofs {
  import opened Words
  import opened Tags
  import opened Encode
  import opened Compressed

  /** The 32-bit instruction a compressed form abbreviates. */
  function Equivalent(i: Compressed): Half {
    match i
    case CAddi4spn(rd, v) => IType(OP_I, 0, rd, 2, Masked(v, 0x1000))
    case CLw(rd, rs1, off) => IType(OP_LOAD, 2, rd, rs1, Masked(off, 0x1000))
    case CLd(rd, rs1, off) => IType(OP_LOAD, 3, rd, rs1, Masked(off, 0x1000))
    case CSw(rs2, rs1, off) => SType(OP_S, 2, rs1, rs2, Masked(off, 0x1000))
    case CSd(rs2, rs1, off) => SType(OP_S, 3, rs1, rs2, Masked(off, 0x1000))
    case CNop => IType(OP_I, 0, 0, 0, 0)
    case CAddi(rd, v) => IType(OP_I, 0, rd, rd, Masked(v, 0x1000))
    case CAddiw(rd, v) => IType(OP_IMM_32, 0, rd, rd, Masked(v, 0x1000))
    case CLi(rd, v) => IType(OP_I, 0, rd, 0, Masked(v, 0x1000))
    case CAddi16sp(v) => IType(OP_I, 0, 2, 2, Masked(v, 0x1000))
    case CLui(rd, v) => UType(OP_LUI, rd, Masked(Signed6(v) * 0x1000, TWO32))
    case CSrli(rd, s) => IType(OP_I, 5, rd, rd, Masked(s, 64))
    case CSrai(rd, s) => IType(OP_I, 5, rd, rd, 0x400 + Masked(s, 64))
    case CAndi(rd, v) => IType(OP_I, 7, rd, rd, Masked(v, 0x1000))
    case CSub(rd, rs2) => RType(OP_R, 0, 32, rd, rd, rs2)
    case CXor(rd, rs2) => RType(OP_R, 4, 0, rd, rd, rs2)
    case COr(rd, rs2) => RType(OP_R, 6, 0, rd, rd, rs2)
    case CAnd(rd, rs2) => RType(OP_R, 7, 0, rd, rd, rs2)
    case CSubw(rd, rs2) => RType(OP_32, 0, 32, rd, rd, rs2)
    case CAddw(rd, rs2) => RType(OP_32, 0, 0, rd, rd, rs2)
    case CJ(off) => JType(OP_JAL, 0, Masked(off, 0x20_0000))
    case CBeqz(rs1, off) => BType(OP_B, 0, rs1, 0, Masked(off, 0x2000))
    case CBnez(rs1, off) => BType(OP_B, 1, rs1, 0, Masked(off, 0x2000))
    case CSlli(rd, s) => IType(OP_I, 1, rd, rd, Masked(s, 64))
    case CLwsp(rd, off) => IType(OP_LOAD, 2, rd, 2, Masked(off, 0x1000))
    case CLdsp(rd, off) => IType(OP_LOAD, 3, rd, 2, Masked(off, 0x1000))
    case CSwsp(rs2, off) => SType(OP_S, 2, 2, rs2, Masked(off, 0x1000))
    case CSdsp(rs2, off) => SType(OP_S, 3, 2, rs2, Masked(off, 0x1000))
    case CJr(rs1) => IType(OP_JALR, 0, 0, rs1, 0)
    case CJalr(rs1) => IType(OP_JALR, 0, 1, rs1, 0)
    case CMv(rd, rs2) => RType(OP_R, 0, 0, rd, 0, rs2)
    case CAdd(rd, rs2) => RType(OP_R, 0, 0, rd, rd, rs2)
    case CEbreak => IType(OP_SYSTEM, 0, 0, 0, 1)
  }

  /** The number six bits stand for. */
  function Signed6(v: int): int {
    if v % 64 >= 32 then v % 64 - 64 else v % 64
  }

  /** Offsets are multiples of what they scale by, and the register choices are
      not ones the encoding reserves for another instruction. */
  predicate Faithful(i: Compressed) {
    match i
    case CAddi4spn(_, v) => v % 4 == 0
    case CLw(_, _, off) => off % 4 == 0
    case CLd(_, _, off) => off % 8 == 0
    case CSw(_, _, off) => off % 4 == 0
    case CSd(_, _, off) => off % 8 == 0
    case CAddi16sp(v) => v % 16 == 0
    case CLui(rd, _) => rd != 2
    case CLwsp(_, off) => off % 4 == 0
    case CLdsp(_, off) => off % 8 == 0
    case CSwsp(_, off) => off % 4 == 0
    case CSdsp(_, off) => off % 8 == 0
    case CJalr(rs1) => rs1 != 0
    case CMv(_, rs2) => rs2 != 0
    case CAdd(_, rs2) => rs2 != 0
    case _ => true
  }

  /** Reading a packed halfword back through its five fields. */
  lemma Unpack(c: int, next: nat, f3: Field3, b12: nat, mid: Reg, lo: Reg, op: nat)
    requires b12 < 2 && op < 3 && next < 0x1_0000
    requires c == f3 * 0x2000 + b12 * 0x1000 + mid * 0x80 + lo * 4 + op
    ensures 0 <= c < 0x1_0000
    ensures Expand(next * 0x1_0000 + c) == ExpandFields(f3, b12, mid, lo, op)
  {
    hide ExpandFields;
    var w := next * 0x1_0000 + c;
    FetchedParts(next, c);
    FieldIs(c, 4, 32, f3 * 64 + b12 * 32 + mid, lo, op);
    FieldIs(c, 0x80, 32, f3 * 2 + b12, mid, lo * 4 + op);
    FieldIs(c, 0x1000, 2, f3, b12, mid * 0x80 + lo * 4 + op);
    FieldIs(c, 0x2000, 8, 0, f3, b12 * 0x1000 + mid * 0x80 + lo * 4 + op);
  }

  /** The low halfword of a fetch, and the two bits that give its size. */
  lemma FetchedParts(next: nat, c: nat)
    requires c < 0x1_0000
    ensures (next * 0x1_0000 + c) % 0x1_0000 == c && (next * 0x1_0000 + c) % 4 == c % 4
  {
    DivModIs(next * 0x1_0000 + c, next, c, 0x1_0000);
    DivModIs(next * 0x1_0000 + c, next * 0x4000 + c / 4, c % 4, 4);
  }

  // ---- Immediate-and-shift forms -----------------------------------------

  lemma Imm6(f3: Field3, r: Reg, v: int, next: nat)
    requires next < 0x1_0000
    ensures var u := v % 64;
            Expand(next * 0x1_0000 + EncodeImm6(f3, r, v)) == ExpandQuadrant1(f3, u / 32, r, u % 32)
  {
    var u := v % 64;
    Unpack(EncodeImm6(f3, r, v), next, f3, u / 32, r, u % 32, 1);
  }

  lemma Sext6Is(v: int)
    ensures var u := v % 64;
            && (-32 <= v < 32 ==> Sext6(u / 32, u % 32, 0x1000) == Masked(v, 0x1000))
            && Sext6(u / 32, u % 32, 0x10_0000) * 0x1000 == Masked(Signed6(v) * 0x1000, TWO32)
  {
    hide *;
    Sext12Is(v);
    Sext20Is(v);
  }

  lemma Sext12Is(v: int)
    ensures -32 <= v < 32 ==> Sext6(v % 64 / 32, v % 64 % 32, 0x1000) == Masked(v, 0x1000)
  {
    if 0 <= v < 32 {
      assert v % 64 == v;
    } else if -32 <= v < 0 {
      ModUnique(v, -1, v + 64, 64);
      ModUnique(v, -1, v + 0x1000, 0x1000);
    }
  }

  lemma Sext20Is(v: int)
    ensures Sext6(v % 64 / 32, v % 64 % 32, 0x10_0000) * 0x1000 == Masked(Signed6(v) * 0x1000, TWO32)
  {
    var u := v % 64;
    if u < 32 {
      ModUnique(u * 0x1000, 0, u * 0x1000, TWO32);
    } else {
      ModUnique((u - 64) * 0x1000, -1, TWO32 + (u - 64) * 0x1000, TWO32);
    }
  }

  lemma Imm6Forms(f3: Field3, rd: Reg, v: int, next: nat)
    requires next < 0x1_0000 && f3 < 3 && -32 <= v < 32
    ensures Expand(next * 0x1_0000 + EncodeImm6(f3, rd, v))
         == IType(if f3 == 1 then OP_IMM_32 else OP_I, 0, rd, if f3 == 2 then 0 else rd, Masked(v, 0x1000))
  {
    hide Expand, EncodeImm6, IType, Sext6, Masked;
    Imm6(f3, rd, v, next);
    Sext6Is(v);
  }

  /** c.lui of x2 is c.addi16sp. */
  lemma LuiForm(rd: Reg, v: int, next: nat)
    requires next < 0x1_0000
    ensures (Expand(next * 0x1_0000 + EncodeImm6(3, rd, v)) == UType(OP_LUI, rd, Masked(Signed6(v) * 0x1000, TWO32)))
            <==> rd != 2
  {
    hide Expand, EncodeImm6, Sext6, Masked, Signed6;
    Imm6(3, rd, v, next);
    Sext6Is(v);
    var u := v % 64;
    if rd == 2 {
      OpcodesDiffer(b12 := u / 32, lo := u % 32, imm := Masked(Signed6(v) * 0x1000, TWO32));
    }
  }

  lemma OpcodesDiffer(b12: nat, lo: Reg, imm: nat)
    requires b12 < 2
    ensures ExpandQuadrant1(3, b12, 2, lo) != UType(OP_LUI, 2, imm)
  {
    var x := b12 * (0x1000 - 0x200) + lo / 2 % 4 * 128 + lo / 8 % 2 * 64 + lo % 2 * 32 + lo / 16 * 16;
    LowSeven(x % 0x1000 * 0x10_0000 + 2 * 0x8000 + 2 * 0x80, OP_I);
    LowSeven(Slice(imm, 0x1000, 0x10_0000) * 0x1000 + 2 * 0x80, OP_LUI);
  }

  lemma LowSeven(rest: nat, op: Field7)
    requires rest % 128 == 0
    ensures (rest + op) % 128 == op
  {
  }

  // ---- Loads and stores ---------------------------------------------------

  /** Two I-type words that differ only in the immediate. */
  lemma ImmediatesDiffer(op: Field7, f3: Field3, rd: Reg, rs1: Reg, x: nat, y: nat)
    requires x < 0x1000 && y < 0x1000
    ensures IType(op, f3, rd, rs1, x) == IType(op, f3, rd, rs1, y) <==> x == y
    ensures SType(op, f3, rs1, rd, x) == SType(op, f3, rs1, rd, y) <==> x == y
  {
    hide *;
    SameI(op, f3, rd, rs1, x, y);
    SameS(op, f3, rs1, rd, x, y);
  }

  lemma SameI(op: Field7, f3: Field3, rd: Reg, rs1: Reg, x: nat, y: nat)
    requires x < 0x1000 && y < 0x1000
    ensures IType(op, f3, rd, rs1, x) == IType(op, f3, rd, rs1, y) <==> x == y
  {
  }

  lemma SameS(op: Field7, f3: Field3, rs1: Reg, rs2: Reg, x: nat, y: nat)
    requires x < 0x1000 && y < 0x1000
    ensures SType(op, f3, rs1, rs2, x) == SType(op, f3, rs1, rs2, y) <==> x == y
  {
    TwelveSplit(x);
    TwelveSplit(y);
    hide Slice;
  }

  lemma TwelveSplit(x: nat)
    requires x < 0x1000
    ensures x == Slice(x, 32, 128) * 32 + x % 32 && x % 32 < 32
  {
  }

  /** The fields c.lw and c.sw pack, and the offset they rebuild. */
  lemma WordMem(f3: Field3, r: Reg, rs1: Reg, off: int, next: nat) returns (b12: nat, mid: Reg, lo: Reg)
    requires next < 0x1_0000 && Small(r) && Small(rs1) && 0 <= off < 0x80
    ensures b12 < 2 && Creg(mid) == rs1 && Creg(lo) == r
    ensures Expand(next * 0x1_0000 + EncodeWordMem(f3, r, rs1, off)) == ExpandQuadrant0(f3, b12, mid, lo)
    ensures lo / 8 % 2 * 64 + (b12 * 4 + mid / 8) * 8 + lo / 16 * 4 == off - off % 4
  {
    hide Expand, ExpandFields, ExpandQuadrant0, EncodeWordMem, Slice, Creg;
    var m3, l1, h1 := Slice(off, 8, 8), Slice(off, 4, 2), Slice(off, 0x40, 2);
    WordParts(m3, l1, h1, r, rs1);
    b12, mid, lo := m3 / 4, m3 % 4 * 8 + (rs1 - 8), l1 * 16 + h1 * 8 + (r - 8);
    WordOffset(off);
    WordRaw(f3, r, rs1, off);
    Unpack(EncodeWordMem(f3, r, rs1, off), next, f3, b12, mid, lo, 0);
    OpenQuadrant0(f3, b12, mid, lo);
  }

  lemma WordRaw(f3: Field3, r: Reg, rs1: Reg, off: int)
    requires 0 <= off < 0x80
    ensures EncodeWordMem(f3, r, rs1, off)
         == f3 * 0x2000 + Slice(off, 8, 8) * 0x400 + (rs1 - 8) * 0x80 + Slice(off, 4, 2) * 0x40 + Slice(off, 0x40, 2) * 0x20
            + (r - 8) * 4
  {
    hide Slice;
  }

  lemma WordOffset(off: int)
    requires 0 <= off < 0x80
    ensures Slice(off, 0x40, 2) * 64 + Slice(off, 8, 8) * 8 + Slice(off, 4, 2) * 4 == off - off % 4
  {
    hide *;
    SliceStep(off, 4, 2);
    SliceStep(off, 8, 8);
    SliceStep(off, 64, 2);
  }

  lemma WordParts(m3: nat, l1: nat, h1: nat, r: Reg, rs1: Reg)
    requires m3 < 8 && l1 < 2 && h1 < 2 && Small(r) && Small(rs1)
    ensures var mid, lo := m3 % 4 * 8 + (rs1 - 8), l1 * 16 + h1 * 8 + (r - 8);
            && 0 <= mid < 32 && 0 <= lo < 32 && Creg(mid) == rs1 && Creg(lo) == r
            && lo / 8 % 2 == h1 && lo / 16 == l1 && mid / 8 == m3 % 4 && m3 / 4 * 4 + m3 % 4 == m3 && 0 <= m3 / 4 < 2
  {
  }

  /** The fields c.ld and c.sd pack. */
  lemma DoubleMem(f3: Field3, r: Reg, rs1: Reg, off: int, next: nat) returns (b12: nat, mid: Reg, lo: Reg)
    requires next < 0x1_0000 && Small(r) && Small(rs1) && 0 <= off < 0x100
    ensures b12 < 2 && Creg(mid) == rs1 && Creg(lo) == r
    ensures Expand(next * 0x1_0000 + EncodeDoubleMem(f3, r, rs1, off)) == ExpandQuadrant0(f3, b12, mid, lo)
    ensures lo / 8 * 64 + (b12 * 4 + mid / 8) * 8 == off - off % 8
  {
    hide Expand, ExpandFields, ExpandQuadrant0, EncodeDoubleMem, Slice, Creg;
    var m3, h2 := Slice(off, 8, 8), Slice(off, 0x40, 4);
    DoubleParts(m3, h2, r, rs1);
    b12, mid, lo := m3 / 4, m3 % 4 * 8 + (rs1 - 8), h2 * 8 + (r - 8);
    SliceStep(off, 8, 8);
    SliceStep(off, 64, 4);
    DoubleRaw(f3, r, rs1, off);
    Unpack(EncodeDoubleMem(f3, r, rs1, off), next, f3, b12, mid, lo, 0);
    OpenQuadrant0(f3, b12, mid, lo);
  }

  lemma OpenQuadrant0(f3: nat, b12: nat, mid: Reg, lo: Reg)
    requires b12 < 2
    ensures ExpandFields(f3, b12, mid, lo, 0) == ExpandQuadrant0(f3, b12, mid, lo)
  {
  }

  lemma DoubleRaw(f3: Field3, r: Reg, rs1: Reg, off: int)
    requires 0 <= off < 0x100
    ensures EncodeDoubleMem(f3, r, rs1, off)
         == f3 * 0x2000 + Slice(off, 8, 8) * 0x400 + (rs1 - 8) * 0x80 + Slice(off, 0x40, 4) * 0x20 + (r - 8) * 4
  {
    hide Slice;
  }

  lemma DoubleParts(m3: nat, h2: nat, r: Reg, rs1: Reg)
    requires m3 < 8 && h2 < 4 && Small(r) && Small(rs1)
    ensures var mid, lo := m3 % 4 * 8 + (rs1 - 8), h2 * 8 + (r - 8);
            && 0 <= mid < 32 && 0 <= lo < 32 && Creg(mid) == rs1 && Creg(lo) == r
            && lo / 8 == h2 && mid / 8 == m3 % 4 && m3 / 4 * 4 + m3 % 4 == m3 && 0 <= m3 / 4 < 2
  {
  }

  lemma WordForms(load: bool, r: Reg, rs1: Reg, off: int, next: nat)
    requires next < 0x1_0000 && Small(r) && Small(rs1) && 0 <= off < 0x80
    ensures (Expand(next * 0x1_0000 + EncodeWordMem(if load then 2 else 6, r, rs1, off))
             == if load then IType(OP_LOAD, 2, r, rs1, Masked(off, 0x1000)) else SType(OP_S, 2, rs1, r, Masked(off, 0x1000)))
            <==> off % 4 == 0
  {
    hide Expand, EncodeWordMem, IType, SType, Creg;
    var b12, mid, lo := WordMem(if load then 2 else 6, r, rs1, off, next);
    ImmediatesDiffer(if load then OP_LOAD else OP_S, 2, r, rs1, off - off % 4, off);
  }

  lemma DoubleForms(load: bool, r: Reg, rs1: Reg, off: int, next: nat)
    requires next < 0x1_0000 && Small(r) && Small(rs1) && 0 <= off < 0x100
    ensures (Expand(next * 0x1_0000 + EncodeDoubleMem(if load then 3 else 7, r, rs1, off))
             == if load then IType(OP_LOAD, 3, r, rs1, Masked(off, 0x1000)) else SType(OP_S, 3, rs1, r, Masked(off, 0x1000)))
            <==> off % 8 == 0
  {
    hide Expand, EncodeDoubleMem, IType, SType, Creg;
    var b12, mid, lo := DoubleMem(if load then 3 else 7, r, rs1, off, next);
    ImmediatesDiffer(if load then OP_LOAD else OP_S, 3, r, rs1, off - off % 8, off);
  }

  lemma Addi4spnForm(rd: Reg, v: int, next: nat)
    requires next < 0x1_0000 && Small(rd) && 0 <= v < 0x400
    ensures (Expand(next * 0x1_0000 + EncodeAddi4spn(rd, v)) == IType(OP_I, 0, rd, 2, Masked(v, 0x1000))) <==> v % 4 == 0
  {
    var a, b, c, d := Slice(v, 16, 4), Slice(v, 64, 16), Slice(v, 4, 2), Slice(v, 8, 2);
    var b12, mid, lo := a / 2, a % 2 * 16 + b, c * 16 + d * 8 + (rd - 8);
    hide *;
    SpnRaw(rd, v);
    SpnOffset(v, a, b, c, d);
    SpnParts(a, b, c, d, rd);
    SmallMask(v, 0x1000);
    Unpack(EncodeAddi4spn(rd, v), next, 0, b12, mid, lo, 0);
    SpnExpands(b12, mid, lo, rd, v - v % 4);
    ImmediatesDiffer(OP_I, 0, rd, 2, v - v % 4, v);
  }

  lemma SmallMask(v: int, size: nat)
    requires 0 <= v < size
    ensures Masked(v, size) == v
  {
  }

  lemma SpnRaw(rd: Reg, v: int)
    requires 0 <= v < 0x400
    ensures EncodeAddi4spn(rd, v)
         == Slice(v, 16, 4) * 0x800 + Slice(v, 64, 16) * 0x80 + Slice(v, 4, 2) * 0x40 + Slice(v, 8, 2) * 0x20 + (rd - 8) * 4
  {
    hide Slice;
  }

  lemma SpnParts(a: nat, b: nat, c: nat, d: nat, rd: Reg)
    requires a < 4 && b < 16 && c < 2 && d < 2 && Small(rd)
    ensures var mid, lo := a % 2 * 16 + b, c * 16 + d * 8 + (rd - 8);
            && 0 <= a / 2 < 2 && a / 2 * 2 + a % 2 == a && 0 <= mid < 32 && 0 <= lo < 32 && Creg(lo) == rd
            && mid % 16 == b && mid / 16 == a % 2 && lo / 8 % 2 == d && lo / 16 == c
  {
  }

  lemma SpnOffset(v: int, a: nat, b: nat, c: nat, d: nat)
    requires 0 <= v < 0x400
    requires a == Slice(v, 16, 4) && b == Slice(v, 64, 16) && c == Slice(v, 4, 2) && d == Slice(v, 8, 2)
    ensures b * 64 + a * 16 + d * 8 + c * 4 == v - v % 4
  {
    hide *;
    SliceStep(v, 4, 2);
    SliceStep(v, 8, 2);
    SliceStep(v, 16, 4);
    SliceStep(v, 64, 16);
  }

  lemma SpnExpands(b12: nat, mid: Reg, lo: Reg, rd: Reg, x: nat)
    requires b12 < 2 && Creg(lo) == rd
    requires mid % 16 * 64 + (b12 * 2 + mid / 16) * 16 + lo / 8 % 2 * 8 + lo / 16 * 4 == x
    ensures ExpandQuadrant0(0, b12, mid, lo) == IType(OP_I, 0, rd, 2, x)
  {
    hide IType;
  }

  // ---- Stack pointer and register arithmetic ------------------------------

  lemma Addi16spForm(v: int, next: nat)
    requires next < 0x1_0000 && -512 <= v < 512
    ensures (Expand(next * 0x1_0000 + EncodeAddi16sp(v)) == IType(OP_I, 0, 2, 2, Masked(v, 0x1000))) <==> v % 16 == 0
  {
    hide *;
    var u := Masked(v, 0x400);
    var a, b, c, d, e := Slice(u, 0x200, 2), Slice(u, 16, 2), Slice(u, 64, 2), Slice(u, 128, 4), Slice(u, 32, 2);
    var lo := b * 16 + c * 8 + d * 2 + e;
    SixteenRaw(v);
    SixteenOffset(v);
    SixteenExpands(a, b, c, d, e);
    Unpack(EncodeAddi16sp(v), next, 3, a, 2, lo, 1);
    OpenQuadrant1(3, a, 2, lo);
    MaskedSteps(v);
    ImmediatesDiffer(OP_I, 0, 2, 2, Masked(v - v % 16, 0x1000), Masked(v, 0x1000));
  }

  lemma MaskedSteps(v: int)
    requires -512 <= v < 512
    ensures Masked(v - v % 16, 0x1000) == Masked(v, 0x1000) <==> v % 16 == 0
    ensures Masked(v, 0x1000) < 0x1000 && Masked(v - v % 16, 0x1000) < 0x1000
  {
  }

  lemma OpenQuadrant1(f3: nat, b12: nat, mid: Reg, lo: Reg)
    requires b12 < 2
    ensures ExpandFields(f3, b12, mid, lo, 1) == ExpandQuadrant1(f3, b12, mid, lo)
  {
  }

  lemma SixteenRaw(v: int)
    ensures var u := Masked(v, 0x400);
            EncodeAddi16sp(v)
            == 0x6000 + Slice(u, 0x200, 2) * 0x1000 + 2 * 0x80 + Slice(u, 16, 2) * 0x40 + Slice(u, 64, 2) * 0x20
               + Slice(u, 128, 4) * 8 + Slice(u, 32, 2) * 4 + 1
  {
    hide Slice;
  }

  lemma SixteenOffset(v: int)
    requires -512 <= v < 512
    ensures var u := Masked(v, 0x400);
            Slice(u, 0x200, 2) * (0x1000 - 0x200) + Slice(u, 128, 4) * 128 + Slice(u, 64, 2) * 64 + Slice(u, 32, 2) * 32
            + Slice(u, 16, 2) * 16 == Masked(v - v % 16, 0x1000)
  {
    var u := Masked(v, 0x400);
    SixteenBits(u);
    SixteenSign(v, u);
  }

  lemma SixteenBits(u: nat)
    requires u < 0x400
    ensures Slice(u, 0x200, 2) * 0x200 + Slice(u, 128, 4) * 128 + Slice(u, 64, 2) * 64 + Slice(u, 32, 2) * 32
            + Slice(u, 16, 2) * 16 == u - u % 16
  {
    Telescope(u, 16, 2);
    Telescope(u, 32, 2);
    Telescope(u, 64, 2);
    Telescope(u, 128, 4);
    Telescope(u, 0x200, 2);
  }

  lemma SixteenSign(v: int, u: nat)
    requires -512 <= v < 512 && u == Masked(v, 0x400)
    ensures u < 0x400 && u - u % 16 + Slice(u, 0x200, 2) * (0x1000 - 0x400) == Masked(v - v % 16, 0x1000)
  {
  }

  lemma SixteenExpands(a: nat, b: nat, c: nat, d: nat, e: nat)
    requires a < 2 && b < 2 && c < 2 && d < 4 && e < 2
    ensures var lo := b * 16 + c * 8 + d * 2 + e;
            ExpandQuadrant1(3, a, 2, lo)
            == IType(OP_I, 0, 2, 2, a * (0x1000 - 0x200) + d * 128 + c * 64 + e * 32 + b * 16)
  {
    hide IType;
    var lo := b * 16 + c * 8 + d * 2 + e;
    assert lo / 16 == b && lo / 8 % 2 == c && lo / 2 % 4 == d && lo % 2 == e;
  }

  lemma Alu6(f2: nat, rd: Reg, v: int, next: nat)
    requires next < 0x1_0000 && f2 < 4 && Small(rd)
    ensures var u, mid := v % 64, f2 * 8 + (rd - 8);
            && Expand(next * 0x1_0000 + EncodeAlu6(f2, rd, v)) == ExpandQuadrant1(4, u / 32, mid, u % 32)
            && Creg(mid) == rd && mid / 8 == f2
  {
    var u := v % 64;
    assert EncodeAlu6(f2, rd, v) == 4 * 0x2000 + u / 32 * 0x1000 + (f2 * 8 + (rd - 8)) * 0x80 + u % 32 * 4 + 1;
    hide *;
    Unpack(EncodeAlu6(f2, rd, v), next, 4, u / 32, f2 * 8 + (rd - 8), u % 32, 1);
    OpenQuadrant1(4, u / 32, f2 * 8 + (rd - 8), u % 32);
    CregIs(f2, rd);
  }

  lemma CregIs(f2: nat, r: Reg)
    requires f2 < 4 && Small(r)
    ensures Creg(f2 * 8 + (r - 8)) == r && (f2 * 8 + (r - 8)) / 8 == f2
  {
  }

  lemma Alu6Forms(f2: nat, rd: Reg, v: int, next: nat)
    requires next < 0x1_0000 && f2 < 3 && Small(rd) && (if f2 == 2 then -32 <= v < 32 else 0 <= v < 64)
    ensures Expand(next * 0x1_0000 + EncodeAlu6(f2, rd, v))
         == if f2 == 0 then IType(OP_I, 5, rd, rd, Masked(v, 64))
            else if f2 == 1 then IType(OP_I, 5, rd, rd, 0x400 + Masked(v, 64))
            else IType(OP_I, 7, rd, rd, Masked(v, 0x1000))
  {
    hide Expand, EncodeAlu6, IType, Sext6, Creg;
    Alu6(f2, rd, v, next);
    Sext6Is(v);
    assert v % 64 / 32 * 32 + v % 64 % 32 == v % 64;
  }

  lemma PairForms(bit12: nat, f2: nat, rd: Reg, rs2: Reg, next: nat)
    requires next < 0x1_0000 && bit12 < 2 && f2 < 4 && (bit12 == 1 ==> f2 < 2) && Small(rd) && Small(rs2)
    ensures Expand(next * 0x1_0000 + EncodePair(bit12, f2, rd, rs2))
         == if bit12 == 1 then RType(OP_32, 0, if f2 == 0 then 32 else 0, rd, rd, rs2)
            else RType(OP_R, if f2 == 0 then 0 else if f2 == 1 then 4 else f2 + 4, if f2 == 0 then 32 else 0, rd, rd, rs2)
  {
    var mid, lo := 24 + (rd - 8), f2 * 8 + (rs2 - 8);
    hide Expand, RType;
    Unpack(EncodePair(bit12, f2, rd, rs2), next, 4, bit12, mid, lo, 1);
    assert mid / 8 == 3 && Creg(mid) == rd && Creg(lo) == rs2 && lo / 8 == f2;
  }

  // ---- Jumps and branches -------------------------------------------------

  lemma JumpRaw(off: int)
    ensures var o := Masked(off, 0x1000);
            EncodeJump(off)
            == 0xA000 + Slice(o, 0x800, 2) * 0x1000 + Slice(o, 16, 2) * 0x800 + Slice(o, 0x100, 4) * 0x200
               + Slice(o, 0x400, 2) * 0x100 + Slice(o, 0x40, 2) * 0x80 + Slice(o, 0x80, 2) * 0x40 + Slice(o, 2, 8) * 8
               + Slice(o, 32, 2) * 4 + 1
  {
    hide Slice;
  }

  lemma SliceStep(x: nat, lo: nat, size: nat)
    requires lo > 0 && size > 0
    ensures lo * size > 0 && x / lo * lo == x / (lo * size) * (lo * size) + Slice(x, lo, size) * lo
  {
    Telescope(x, lo, size);
  }

  lemma JumpBits(o: nat)
    requires o < 0x1000
    ensures Slice(o, 0x800, 2) * 0x800 + Slice(o, 0x400, 2) * 0x400 + Slice(o, 0x100, 4) * 0x100 + Slice(o, 0x80, 2) * 0x80
            + Slice(o, 0x40, 2) * 0x40 + Slice(o, 32, 2) * 32 + Slice(o, 16, 2) * 16 + Slice(o, 2, 8) * 2 == o - o % 2
  {
    hide Slice;
    SliceStep(o, 2, 8);
    SliceStep(o, 16, 2);
    SliceStep(o, 32, 2);
    SliceStep(o, 64, 2);
    SliceStep(o, 128, 2);
    SliceStep(o, 256, 4);
    SliceStep(o, 0x400, 2);
    SliceStep(o, 0x800, 2);
  }

  lemma JumpSign(off: int, o: nat)
    requires -0x800 <= off < 0x800 && o == Masked(off, 0x1000)
    ensures o < 0x1000
    ensures o - o % 2 + Slice(o, 0x800, 2) * (0x20_0000 - 0x1000) == Masked(off - off % 2, 0x20_0000)
  {
  }

  lemma JumpOffsetIs(b11: nat, b10: nat, b98: nat, b7: nat, b6: nat, b5: nat, b4: nat, b31: nat)
    requires b11 < 2 && b10 < 2 && b98 < 4 && b7 < 2 && b6 < 2 && b5 < 2 && b4 < 2 && b31 < 8
    ensures JumpOffset(b11, b4 * 16 + b98 * 4 + b10 * 2 + b6, b7 * 16 + b31 * 2 + b5)
         == b11 * (0x20_0000 - 0x800) + b10 * 0x400 + b98 * 0x100 + b7 * 0x80 + b6 * 0x40 + b5 * 0x20 + b4 * 0x10 + b31 * 2
  {
    var mid, lo := b4 * 16 + b98 * 4 + b10 * 2 + b6, b7 * 16 + b31 * 2 + b5;
    assert mid / 2 % 2 == b10 && mid / 4 % 4 == b98 && mid % 2 == b6 && mid / 16 == b4;
    assert lo / 16 == b7 && lo % 2 == b5 && lo / 2 % 8 == b31;
  }

  /** The fields of a packed jump, and the offset they rebuild. */
  lemma JumpFields(off: int) returns (b12: nat, mid: Reg, lo: Reg)
    requires -0x800 <= off < 0x800
    ensures b12 < 2 && EncodeJump(off) == 5 * 0x2000 + b12 * 0x1000 + mid * 0x80 + lo * 4 + 1
    ensures JumpOffset(b12, mid, lo) == Masked(off - off % 2, 0x20_0000)
  {
    hide *;
    var o := Masked(off, 0x1000);
    var b10, b98, b7 := Slice(o, 0x400, 2), Slice(o, 0x100, 4), Slice(o, 0x80, 2);
    var b6, b5, b4, b31 := Slice(o, 0x40, 2), Slice(o, 32, 2), Slice(o, 16, 2), Slice(o, 2, 8);
    b12 := Slice(o, 0x800, 2);
    mid, lo := b4 * 16 + b98 * 4 + b10 * 2 + b6, b7 * 16 + b31 * 2 + b5;
    JumpRaw(off);
    JumpOffsetIs(b12, b10, b98, b7, b6, b5, b4, b31);
    JumpSign(off, o);
    JumpBits(o);
  }

  lemma JumpForm(off: int, next: nat)
    requires next < 0x1_0000 && -0x800 <= off < 0x800
    ensures Expand(next * 0x1_0000 + EncodeJump(off)) == JType(OP_JAL, 0, Masked(off, 0x20_0000))
  {
    hide *;
    var b12, mid, lo := JumpFields(off);
    Unpack(EncodeJump(off), next, 5, b12, mid, lo, 1);
    OpenQuadrant1(5, b12, mid, lo);
    OpenJump(b12, mid, lo);
    LowBitDropped(off);
  }

  lemma OpenJump(b12: nat, mid: Reg, lo: Reg)
    requires b12 < 2
    ensures ExpandQuadrant1(5, b12, mid, lo) == JType(OP_JAL, 0, JumpOffset(b12, mid, lo))
    ensures ExpandQuadrant1(6, b12, mid, lo) == BType(OP_B, 0, Creg(mid), 0, BranchOffset(b12, mid, lo))
    ensures ExpandQuadrant1(7, b12, mid, lo) == BType(OP_B, 1, Creg(mid), 0, BranchOffset(b12, mid, lo))
  {
    hide JumpOffset, BranchOffset, JType, BType;
  }

  /** Both formats leave out bit 0 of the offset. */
  lemma LowBitDropped(off: int)
    ensures JType(OP_JAL, 0, Masked(off - off % 2, 0x20_0000)) == JType(OP_JAL, 0, Masked(off, 0x20_0000))
  {
    EvenSlices(off, 0x20_0000);
  }

  lemma EvenSlices(off: int, size: nat)
    requires size == 0x20_0000 || size == 0x2000
    ensures var x, y := Masked(off - off % 2, size), Masked(off, size);
            && Slice(x, 2, 1024) == Slice(y, 2, 1024) && Slice(x, 2, 16) == Slice(y, 2, 16)
            && Slice(x, 0x20, 64) == Slice(y, 0x20, 64) && Slice(x, 0x800, 2) == Slice(y, 0x800, 2)
            && Slice(x, 0x1000, 256) == Slice(y, 0x1000, 256) && Slice(x, 0x1000, 2) == Slice(y, 0x1000, 2)
            && Slice(x, 0x10_0000, 2) == Slice(y, 0x10_0000, 2)
  {
    hide *;
    var x, y := Masked(off - off % 2, size), Masked(off, size);
    SameHalves(off, size);
    SlicesOfHalves(x, y);
  }

  lemma SameHalves(off: int, size: nat)
    requires size == 0x20_0000 || size == 0x2000
    ensures Masked(off - off % 2, size) / 2 == Masked(off, size) / 2
  {
    var q, x := off / size, off % size;
    var h := if size == 0x2000 then 0x1000 else 0x10_0000;
    assert off == q * size + x;
    assert q * size == 2 * (q * h);
    SameParity(off, q * h, x);
    ModUnique(off - off % 2, q, x - x % 2, size);
  }

  lemma SameParity(off: int, k: int, x: int)
    requires off == 2 * k + x
    ensures off % 2 == x % 2
  {
  }

  lemma SlicesOfHalves(x: nat, y: nat)
    requires x / 2 == y / 2
    ensures Slice(x, 2, 1024) == Slice(y, 2, 1024) && Slice(x, 2, 16) == Slice(y, 2, 16)
    ensures Slice(x, 0x20, 64) == Slice(y, 0x20, 64) && Slice(x, 0x800, 2) == Slice(y, 0x800, 2)
    ensures Slice(x, 0x1000, 256) == Slice(y, 0x1000, 256) && Slice(x, 0x1000, 2) == Slice(y, 0x1000, 2)
    ensures Slice(x, 0x10_0000, 2) == Slice(y, 0x10_0000, 2)
  {
    SameAbove(x, y, 16);
    SameAbove(x, y, 0x400);
    SameAbove(x, y, 0x800);
    SameAbove(x, y, 0x8_0000);
  }

  lemma SameAbove(x: nat, y: nat, size: nat)
    requires x / 2 == y / 2 && size > 0
    ensures x / (2 * size) == y / (2 * size)
  {
    Telescope(x, 2, size);
    Telescope(y, 2, size);
  }

  lemma BranchRaw(f3: Field3, rs1: Reg, off: int)
    requires Small(rs1)
    ensures var o := Masked(off, 0x200);
            EncodeBranch(f3, rs1, off)
            == f3 * 0x2000 + Slice(o, 0x100, 2) * 0x1000 + Slice(o, 8, 4) * 0x400 + (rs1 - 8) * 0x80
               + Slice(o, 0x40, 4) * 0x20 + Slice(o, 2, 4) * 8 + Slice(o, 32, 2) * 4 + 1
  {
    hide Slice;
  }

  lemma BranchBits(o: nat)
    requires o < 0x200
    ensures Slice(o, 0x100, 2) * 0x100 + Slice(o, 0x40, 4) * 0x40 + Slice(o, 32, 2) * 32 + Slice(o, 8, 4) * 8
            + Slice(o, 2, 4) * 2 == o - o % 2
  {
    hide Slice;
    SliceStep(o, 2, 4);
    SliceStep(o, 8, 4);
    SliceStep(o, 32, 2);
    SliceStep(o, 64, 4);
    SliceStep(o, 256, 2);
  }

  lemma BranchSign(off: int, o: nat)
    requires -0x100 <= off < 0x100 && o == Masked(off, 0x200)
    ensures o < 0x200
    ensures o - o % 2 + Slice(o, 0x100, 2) * (0x2000 - 0x200) == Masked(off - off % 2, 0x2000)
  {
  }

  lemma BranchOffsetIs(b8: nat, b76: nat, b5: nat, b43: nat, b21: nat, rs1: Reg)
    requires b8 < 2 && b76 < 4 && b5 < 2 && b43 < 4 && b21 < 4 && Small(rs1)
    ensures BranchOffset(b8, b43 * 8 + (rs1 - 8), b76 * 8 + b21 * 2 + b5)
         == b8 * (0x2000 - 0x100) + b76 * 0x40 + b5 * 0x20 + b43 * 8 + b21 * 2
  {
    var mid, lo := b43 * 8 + (rs1 - 8), b76 * 8 + b21 * 2 + b5;
    assert mid / 8 == b43 && lo / 8 == b76 && lo % 2 == b5 && lo / 2 % 4 == b21;
  }

  lemma BranchFields(f3: Field3, rs1: Reg, off: int) returns (b12: nat, mid: Reg, lo: Reg)
    requires -0x100 <= off < 0x100 && Small(rs1)
    ensures b12 < 2 && Creg(mid) == rs1
    ensures EncodeBranch(f3, rs1, off) == f3 * 0x2000 + b12 * 0x1000 + mid * 0x80 + lo * 4 + 1
    ensures BranchOffset(b12, mid, lo) == Masked(off - off % 2, 0x2000)
  {
    var o := Masked(off, 0x200);
    var b76, b5, b43, b21 := Slice(o, 0x40, 4), Slice(o, 32, 2), Slice(o, 8, 4), Slice(o, 2, 4);
    b12 := Slice(o, 0x100, 2);
    mid, lo := b43 * 8 + (rs1 - 8), b76 * 8 + b21 * 2 + b5;
    hide *;
    BranchRaw(f3, rs1, off);
    BranchOffsetIs(b12, b76, b5, b43, b21, rs1);
    BranchSign(off, o);
    BranchBits(o);
    CregIs(b43, rs1);
  }

  lemma BranchForm(equal: bool, rs1: Reg, off: int, next: nat)
    requires next < 0x1_0000 && Small(rs1) && -0x100 <= off < 0x100
    ensures Expand(next * 0x1_0000 + EncodeBranch(if equal then 6 else 7, rs1, off))
         == BType(OP_B, if equal then 0 else 1, rs1, 0, Masked(off, 0x2000))
  {
    hide *;
    var f3 := if equal then 6 else 7;
    var b12, mid, lo := BranchFields(f3, rs1, off);
    Unpack(EncodeBranch(f3, rs1, off), next, f3, b12, mid, lo, 1);
    OpenQuadrant1(f3, b12, mid, lo);
    OpenJump(b12, mid, lo);
    BranchLowBit(if equal then 0 else 1, rs1, off);
  }

  lemma BranchLowBit(f3: Field3, rs1: Reg, off: int)
    ensures BType(OP_B, f3, rs1, 0, Masked(off - off % 2, 0x2000)) == BType(OP_B, f3, rs1, 0, Masked(off, 0x2000))
  {
    EvenSlices(off, 0x2000);
  }

  // ---- Quadrant two -------------------------------------------------------

  lemma OpenQuadrant2(f3: nat, b12: nat, mid: Reg, lo: Reg)
    requires b12 < 2
    ensures ExpandFields(f3, b12, mid, lo, 2) == ExpandQuadrant2(f3, b12, mid, lo)
  {
  }

  lemma SlliForm(rd: Reg, s: int, next: nat)
    requires next < 0x1_0000 && 0 <= s < 64
    ensures Expand(next * 0x1_0000 + EncodeSlli(rd, s)) == IType(OP_I, 1, rd, rd, Masked(s, 64))
  {
    hide Expand, ExpandFields, IType;
    Unpack(EncodeSlli(rd, s), next, 0, s / 32, rd, s % 32, 2);
    OpenQuadrant2(0, s / 32, rd, s % 32);
  }

  /** What the stack-pointer forms expand to. */
  lemma OpenStack(b12: nat, mid: Reg, lo: Reg)
    requires b12 < 2
    ensures ExpandQuadrant2(2, b12, mid, lo) == IType(OP_LOAD, 2, mid, 2, lo % 4 * 64 + b12 * 32 + lo / 4 * 4)
    ensures ExpandQuadrant2(3, b12, mid, lo) == IType(OP_LOAD, 3, mid, 2, lo % 8 * 64 + b12 * 32 + lo / 8 * 8)
    ensures ExpandQuadrant2(6, b12, mid, lo) == SType(OP_S, 2, 2, lo, mid % 4 * 64 + (b12 * 8 + mid / 4) * 4)
    ensures ExpandQuadrant2(7, b12, mid, lo) == SType(OP_S, 3, 2, lo, mid % 8 * 64 + (b12 * 4 + mid / 8) * 8)
  {
    hide IType, SType;
  }

  lemma StackRaw(r: Reg, off: int)
    ensures 0 <= off < 0x100 ==>
            EncodeLwsp(r, off) == 0x4000 + Slice(off, 32, 2) * 0x1000 + r * 0x80 + Slice(off, 4, 8) * 0x10
                                  + Slice(off, 64, 4) * 4 + 2
    ensures 0 <= off < 0x200 ==>
            EncodeLdsp(r, off) == 0x6000 + Slice(off, 32, 2) * 0x1000 + r * 0x80 + Slice(off, 8, 4) * 0x20
                                  + Slice(off, 64, 8) * 4 + 2
    ensures 0 <= off < 0x100 ==>
            EncodeSwsp(r, off) == 0xC000 + Slice(off, 4, 16) * 0x200 + Slice(off, 64, 4) * 0x80 + r * 4 + 2
    ensures 0 <= off < 0x200 ==>
            EncodeSdsp(r, off) == 0xE000 + Slice(off, 8, 8) * 0x400 + Slice(off, 64, 8) * 0x80 + r * 4 + 2
  {
    hide Slice;
  }

  /** A word offset of eight bits, a doubleword offset of nine. */
  lemma StackOffsets(off: nat)
    ensures off < 0x100 ==> Slice(off, 64, 4) * 64 + Slice(off, 4, 16) * 4 == off - off % 4
    ensures off < 0x100 ==> Slice(off, 64, 4) * 64 + Slice(off, 32, 2) * 32 + Slice(off, 4, 8) * 4 == off - off % 4
    ensures off < 0x200 ==> Slice(off, 64, 8) * 64 + Slice(off, 8, 8) * 8 == off - off % 8
    ensures off < 0x200 ==> Slice(off, 64, 8) * 64 + Slice(off, 32, 2) * 32 + Slice(off, 8, 4) * 8 == off - off % 8
  {
    hide Slice;
    SliceStep(off, 4, 16);
    SliceStep(off, 4, 8);
    SliceStep(off, 8, 8);
    SliceStep(off, 8, 4);
    SliceStep(off, 32, 2);
    SliceStep(off, 64, 4);
    SliceStep(off, 64, 8);
  }

  /** Two fields side by side in five bits. */
  lemma Beside(hi: nat, lo: nat, size: nat)
    requires size == 4 || size == 8
    requires lo < size && hi * size < 32
    ensures 0 <= hi * size + lo < 32 && (hi * size + lo) % size == lo && (hi * size + lo) / size == hi
  {
    if size == 8 { assert hi < 4; } else { assert hi < 8; }
  }

  lemma HighPart(x: nat, size: nat)
    requires (size == 4 && x < 8) || (size == 8 && x < 16)
    ensures x == x / size * size + x % size && 0 <= x / size < 2
  {
  }

  lemma LwspForm(rd: Reg, off: int, next: nat)
    requires next < 0x1_0000 && 0 <= off < 0x100
    ensures (Expand(next * 0x1_0000 + EncodeLwsp(rd, off)) == IType(OP_LOAD, 2, rd, 2, Masked(off, 0x1000))) <==> off % 4 == 0
  {
    hide *;
    StackRaw(rd, off);
    StackOffsets(off);
    Beside(Slice(off, 4, 8), Slice(off, 64, 4), 4);
    var b12, lo := Slice(off, 32, 2), Slice(off, 4, 8) * 4 + Slice(off, 64, 4);
    Unpack(EncodeLwsp(rd, off), next, 2, b12, rd, lo, 2);
    OpenQuadrant2(2, b12, rd, lo);
    OpenStack(b12, rd, lo);
    SmallMask(off, 0x1000);
    ImmediatesDiffer(OP_LOAD, 2, rd, 2, off - off % 4, off);
  }

  lemma LdspForm(rd: Reg, off: int, next: nat)
    requires next < 0x1_0000 && 0 <= off < 0x200
    ensures (Expand(next * 0x1_0000 + EncodeLdsp(rd, off)) == IType(OP_LOAD, 3, rd, 2, Masked(off, 0x1000))) <==> off % 8 == 0
  {
    hide *;
    StackRaw(rd, off);
    StackOffsets(off);
    Beside(Slice(off, 8, 4), Slice(off, 64, 8), 8);
    var b12, lo := Slice(off, 32, 2), Slice(off, 8, 4) * 8 + Slice(off, 64, 8);
    Unpack(EncodeLdsp(rd, off), next, 3, b12, rd, lo, 2);
    OpenQuadrant2(3, b12, rd, lo);
    OpenStack(b12, rd, lo);
    SmallMask(off, 0x1000);
    ImmediatesDiffer(OP_LOAD, 3, rd, 2, off - off % 8, off);
  }

  lemma SwspForm(rs2: Reg, off: int, next: nat)
    requires next < 0x1_0000 && 0 <= off < 0x100
    ensures (Expand(next * 0x1_0000 + EncodeSwsp(rs2, off)) == SType(OP_S, 2, 2, rs2, Masked(off, 0x1000))) <==> off % 4 == 0
  {
    hide *;
    var b52 := Slice(off, 4, 16);
    StackRaw(rs2, off);
    StackOffsets(off);
    HighPart(b52, 8);
    Beside(b52 % 8, Slice(off, 64, 4), 4);
    var b12, mid := b52 / 8, b52 % 8 * 4 + Slice(off, 64, 4);
    Unpack(EncodeSwsp(rs2, off), next, 6, b12, mid, rs2, 2);
    OpenQuadrant2(6, b12, mid, rs2);
    OpenStack(b12, mid, rs2);
    SmallMask(off, 0x1000);
    ImmediatesDiffer(OP_S, 2, rs2, 2, off - off % 4, off);
  }

  lemma SdspForm(rs2: Reg, off: int, next: nat)
    requires next < 0x1_0000 && 0 <= off < 0x200
    ensures (Expand(next * 0x1_0000 + EncodeSdsp(rs2, off)) == SType(OP_S, 3, 2, rs2, Masked(off, 0x1000))) <==> off % 8 == 0
  {
    hide *;
    var b53 := Slice(off, 8, 8);
    StackRaw(rs2, off);
    StackOffsets(off);
    HighPart(b53, 4);
    Beside(b53 % 4, Slice(off, 64, 8), 8);
    var b12, mid := b53 / 4, b53 % 4 * 8 + Slice(off, 64, 8);
    Unpack(EncodeSdsp(rs2, off), next, 7, b12, mid, rs2, 2);
    OpenQuadrant2(7, b12, mid, rs2);
    OpenStack(b12, mid, rs2);
    SmallMask(off, 0x1000);
    ImmediatesDiffer(OP_S, 3, rs2, 2, off - off % 8, off);
  }

  lemma CrForm(top: nat, r: Reg, rs2: Reg, next: nat)
    requires next < 0x1_0000 && (top == 8 || top == 9)
    ensures Expand(next * 0x1_0000 + EncodeCr(top, r, rs2)) == ExpandQuadrant2(4, top - 8, r, rs2)
  {
    hide Expand, ExpandFields, ExpandQuadrant2;
    Unpack(EncodeCr(top, r, rs2), next, 4, top - 8, r, rs2, 2);
    OpenQuadrant2(4, top - 8, r, rs2);
  }

  /** With rs2 zero the register-register encodings mean something else. */
  lemma ReservedDiffer(r: Reg)
    ensures ExpandQuadrant2(4, 0, r, 0) != RType(OP_R, 0, 0, r, 0, 0)
    ensures ExpandQuadrant2(4, 1, r, 0) != RType(OP_R, 0, 0, r, r, 0)
    ensures r == 0 ==> ExpandQuadrant2(4, 1, r, 0) != IType(OP_JALR, 0, 1, r, 0)
  {
    assert OP_R % 128 != OP_JALR % 128 && OP_SYSTEM % 128 != OP_R % 128 && OP_JALR != OP_SYSTEM;
    LowOpcode(0, 0, r, 0);
    LowOpcode(0, 0, r, r);
    LowOpcode(1, 0, 0, r);
  }

  lemma LowOpcode(rd: Reg, rs2: Reg, r: Reg, rs1: Reg)
    ensures RType(OP_R, 0, 0, r, rs1, rs2) % 128 == OP_R
    ensures IType(OP_JALR, 0, rd, r, 0) % 128 == OP_JALR
    ensures IType(OP_JALR, 0, 0, r, 0) % 128 == OP_JALR
    ensures IType(OP_SYSTEM, 0, 0, 0, 1) % 128 == OP_SYSTEM
  {
  }

  lemma CrForms(i: Compressed, next: nat)
    requires next < 0x1_0000 && (i.CJr? || i.CJalr? || i.CMv? || i.CAdd? || i.CEbreak?)
    ensures Expand(next * 0x1_0000 + EncodeC(i)) == Equivalent(i) <==> Faithful(i)
  {
    hide Expand, EncodeCr, RType, IType;
    match i
    case CJr(rs1) => CrForm(8, rs1, 0, next);
    case CJalr(rs1) => CrForm(9, rs1, 0, next); ReservedDiffer(rs1);
    case CMv(rd, rs2) => CrForm(8, rd, rs2, next); ReservedDiffer(rd);
    case CAdd(rd, rs2) => CrForm(9, rd, rs2, next); ReservedDiffer(rd);
    case CEbreak => CrForm(9, 0, 0, next);
  }

  // ---- All of them --------------------------------------------------------

  /** Loads, stores and stack-pointer arithmetic. */
  predicate Addressing(i: Compressed) {
    || i.CAddi4spn? || i.CLw? || i.CLd? || i.CSw? || i.CSd? || i.CAddi16sp?
    || i.CLwsp? || i.CLdsp? || i.CSwsp? || i.CSdsp?
  }

  lemma AddressingExpandsIff(i: Compressed, next: nat)
    requires next < 0x1_0000 && Encodable(i) && Addressing(i)
    ensures Expand(next * 0x1_0000 + EncodeC(i)) == Equivalent(i) <==> Faithful(i)
  {
    hide Expand, EncodeImm6, EncodeAlu6, EncodePair, EncodeAddi4spn, EncodeAddi16sp, EncodeJump, EncodeBranch,
      EncodeLwsp, EncodeLdsp, EncodeSwsp, EncodeSdsp, EncodeSlli, EncodeCr, EncodeWordMem, EncodeDoubleMem,
      IType, SType, BType, UType, JType, RType, Signed6;
    match i
    case CAddi4spn(rd, v) => Addi4spnForm(rd, v, next);
    case CLw(rd, rs1, off) => WordForms(true, rd, rs1, off, next);
    case CLd(rd, rs1, off) => DoubleForms(true, rd, rs1, off, next);
    case CSw(rs2, rs1, off) => WordForms(false, rs2, rs1, off, next);
    case CSd(rs2, rs1, off) => DoubleForms(false, rs2, rs1, off, next);
    case CAddi16sp(v) => Addi16spForm(v, next);
    case CLwsp(rd, off) => LwspForm(rd, off, next);
    case CLdsp(rd, off) => LdspForm(rd, off, next);
    case CSwsp(rs2, off) => SwspForm(rs2, off, next);
    case CSdsp(rs2, off) => SdspForm(rs2, off, next);
  }

  lemma OtherExpandsIff(i: Compressed, next: nat)
    requires next < 0x1_0000 && Encodable(i) && !Addressing(i)
    ensures Expand(next * 0x1_0000 + EncodeC(i)) == Equivalent(i) <==> Faithful(i)
  {
    hide Expand, EncodeImm6, EncodeAlu6, EncodePair, EncodeAddi4spn, EncodeAddi16sp, EncodeJump, EncodeBranch,
      EncodeLwsp, EncodeLdsp, EncodeSwsp, EncodeSdsp, EncodeSlli, EncodeCr, EncodeWordMem, EncodeDoubleMem,
      IType, SType, BType, UType, JType, RType, Signed6;
    match i
    case CNop => Imm6Forms(0, 0, 0, next);
    case CAddi(rd, v) => Imm6Forms(0, rd, v, next);
    case CAddiw(rd, v) => Imm6Forms(1, rd, v, next);
    case CLi(rd, v) => Imm6Forms(2, rd, v, next);
    case CLui(rd, v) => LuiForm(rd, v, next);
    case CSrli(rd, s) => Alu6Forms(0, rd, s, next);
    case CSrai(rd, s) => Alu6Forms(1, rd, s, next);
    case CAndi(rd, v) => Alu6Forms(2, rd, v, next);
    case CSub(rd, rs2) => PairForms(0, 0, rd, rs2, next);
    case CXor(rd, rs2) => PairForms(0, 1, rd, rs2, next);
    case COr(rd, rs2) => PairForms(0, 2, rd, rs2, next);
    case CAnd(rd, rs2) => PairForms(0, 3, rd, rs2, next);
    case CSubw(rd, rs2) => PairForms(1, 0, rd, rs2, next);
    case CAddw(rd, rs2) => PairForms(1, 1, rd, rs2, next);
    case CJ(off) => JumpForm(off, next);
    case CBeqz(rs1, off) => BranchForm(true, rs1, off, next);
    case CBnez(rs1, off) => BranchForm(false, rs1, off, next);
    case CSlli(rd, s) => SlliForm(rd, s, next);
    case _ => CrForms(i, next);
  }

  /** Whatever halfword follows, the hardware recovers exactly the 32-bit
      equivalent of an encodable form, if and only if its offset is a multiple
      of its scale and its registers select no other instruction. */
  lemma ExpandsIff(i: Compressed, next: nat)
    requires next < 0x1_0000 && Encodable(i)
    ensures Expand(next * 0x1_0000 + EncodeC(i)) == Equivalent(i) <==> Faithful(i)
  {
    hide *;
    if Addressing(i) {
      AddressingExpandsIff(i, next);
    } else {
      OtherExpandsIff(i, next);
    }
  }
}
