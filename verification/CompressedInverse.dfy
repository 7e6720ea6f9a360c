/** The other direction of the compressed round trip: every halfword the
    hardware gives a meaning to is one the assembler can write. */
module CompressedInverse {
  import opened Words
  import opened Tags
  import opened Encode
  import opened Compressed
  import opened CompressedProofs

  /** A signed six-bit field. */
  function Six(b12: nat, lo: Reg): int
    requires b12 < 2
  {
    lo - 32 * b12
  }

  function Disassemble0(f3: nat, b12: nat, mid: Reg, lo: Reg): Option<Compressed>
    requires b12 < 2
  {
    var rs1, r := Creg(mid), Creg(lo);
    var wordOff := lo / 8 % 2 * 64 + (b12 * 4 + mid / 8) * 8 + lo / 16 * 4;
    var doubleOff := lo / 8 * 64 + (b12 * 4 + mid / 8) * 8;
    if f3 == 0 then Some(CAddi4spn(r, mid % 16 * 64 + (b12 * 2 + mid / 16) * 16 + lo / 8 % 2 * 8 + lo / 16 * 4))
    else if f3 == 2 then Some(CLw(r, rs1, wordOff))
    else if f3 == 3 then Some(CLd(r, rs1, doubleOff))
    else if f3 == 6 then Some(CSw(r, rs1, wordOff))
    else if f3 == 7 then Some(CSd(r, rs1, doubleOff))
    else None
  }

  function JumpDistance(b12: nat, mid: Reg, lo: Reg): int
    requires b12 < 2
  {
    mid / 2 % 2 * 0x400 + mid / 4 % 4 * 0x100 + lo / 16 * 0x80 + mid % 2 * 0x40 + lo % 2 * 0x20 + mid / 16 * 0x10
    + lo / 2 % 8 * 2 - b12 * 0x800
  }

  function BranchDistance(b12: nat, mid: Reg, lo: Reg): int
    requires b12 < 2
  {
    lo / 8 * 0x40 + lo % 2 * 0x20 + mid / 8 * 8 + lo / 2 % 4 * 2 - b12 * 0x100
  }

  function Disassemble1(f3: nat, b12: nat, mid: Reg, lo: Reg): Option<Compressed>
    requires b12 < 2
  {
    var r, rs2 := Creg(mid), Creg(lo);
    if f3 == 0 then Some(CAddi(mid, Six(b12, lo)))
    else if f3 == 1 then Some(CAddiw(mid, Six(b12, lo)))
    else if f3 == 2 then Some(CLi(mid, Six(b12, lo)))
    else if f3 == 3 then
      if mid == 2 then Some(CAddi16sp(lo / 2 % 4 * 128 + lo / 8 % 2 * 64 + lo % 2 * 32 + lo / 16 * 16 - b12 * 0x200))
      else Some(CLui(mid, Six(b12, lo)))
    else if f3 == 4 then
      if mid / 8 == 0 then Some(CSrli(r, b12 * 32 + lo))
      else if mid / 8 == 1 then Some(CSrai(r, b12 * 32 + lo))
      else if mid / 8 == 2 then Some(CAndi(r, Six(b12, lo)))
      else if b12 == 0 then
        Some(if lo / 8 == 0 then CSub(r, rs2) else if lo / 8 == 1 then CXor(r, rs2) else if lo / 8 == 2 then COr(r, rs2)
             else CAnd(r, rs2))
      else if lo / 8 == 0 then Some(CSubw(r, rs2))
      else if lo / 8 == 1 then Some(CAddw(r, rs2))
      else None
    else if f3 == 5 then Some(CJ(JumpDistance(b12, mid, lo)))
    else if f3 == 6 then Some(CBeqz(r, BranchDistance(b12, mid, lo)))
    else Some(CBnez(r, BranchDistance(b12, mid, lo)))
  }

  function Disassemble2(f3: nat, b12: nat, mid: Reg, lo: Reg): Option<Compressed>
    requires b12 < 2
  {
    if f3 == 0 then Some(CSlli(mid, b12 * 32 + lo))
    else if f3 == 2 then Some(CLwsp(mid, lo % 4 * 64 + b12 * 32 + lo / 4 * 4))
    else if f3 == 3 then Some(CLdsp(mid, lo % 8 * 64 + b12 * 32 + lo / 8 * 8))
    else if f3 == 4 then
      if b12 == 0 then Some(if lo == 0 then CJr(mid) else CMv(mid, lo))
      else if mid == 0 && lo == 0 then Some(CEbreak)
      else if lo == 0 then Some(CJalr(mid))
      else Some(CAdd(mid, lo))
    else if f3 == 6 then Some(CSwsp(lo, mid % 4 * 64 + (b12 * 8 + mid / 4) * 4))
    else if f3 == 7 then Some(CSdsp(lo, mid % 8 * 64 + (b12 * 4 + mid / 8) * 8))
    else None
  }

  /** The assembler form of a halfword, if it has one. */
  function Disassemble(c: nat): Option<Compressed> {
    var f3, b12, mid, lo := c / 0x2000, c / 0x1000 % 2, c / 0x80 % 32, c / 4 % 32;
    if c % 4 == 0 then Disassemble0(f3, b12, mid, lo)
    else if c % 4 == 1 then Disassemble1(f3, b12, mid, lo)
    else Disassemble2(f3, b12, mid, lo)
  }

  /** The form can be written, without loss, and is written as that halfword. */
  predicate Writes(i: Option<Compressed>, c: int) {
    i.Some? ==> Encodable(i.value) && Faithful(i.value) && EncodeC(i.value) == c
  }

  // ---- Packed fields -------------------------------------------------------

  function Halfword(f3: nat, b12: nat, mid: Reg, lo: Reg, op: nat): int {
    f3 * 0x2000 + b12 * 0x1000 + mid * 0x80 + lo * 4 + op
  }

  lemma HalfwordFields(c: nat)
    requires c < 0x1_0000
    ensures c / 0x2000 < 8 && c == Halfword(c / 0x2000, c / 0x1000 % 2, c / 0x80 % 32, c / 4 % 32, c % 4)
  {
    Telescope(c, 4, 32);
    Telescope(c, 0x80, 32);
    Telescope(c, 0x1000, 2);
    Division(c, 4);
  }

  /** One field of a sum of fields. */
  lemma Sliced(w: nat, unit: nat, size: nat, hi: nat, mid: nat, low: nat)
    requires w == (hi * size + mid) * unit + low && mid < size && low < unit
    ensures Slice(w, unit, size) == mid
  {
    FieldIs(w, unit, size, hi, mid, low);
  }

  lemma CregPart(x: Reg)
    ensures Small(Creg(x)) && Creg(x) - 8 == x % 8 && x == x / 8 * 8 + x % 8 && x / 8 < 4
  {
  }

  lemma SameMasked(v: int, size: nat)
    requires 0 <= v < size
    ensures Masked(v, size) == v
  {
    ModUnique(v, 0, v, size);
  }

  lemma NegativeMasked(v: int, size: nat)
    requires 0 - size <= v < 0
    ensures Masked(v, size) == v + size
  {
    ModUnique(v, -1, v + size, size);
  }

  // ---- Quadrant zero -------------------------------------------------------

  lemma WritesWord(f3: Field3, b12: nat, mid: Reg, lo: Reg)
    requires b12 < 2
    ensures var off := lo / 8 % 2 * 64 + (b12 * 4 + mid / 8) * 8 + lo / 16 * 4;
            && 0 <= off < 0x80 && off % 4 == 0
            && EncodeWordMem(f3, Creg(lo), Creg(mid), off) == Halfword(f3, b12, mid, lo, 0)
  {
    hide Slice, Masked, Creg;
    CregPart(mid);
    CregPart(lo);
    HighParts(lo);
    var a, m, h := lo / 8 % 2, b12 * 4 + mid / 8, lo / 16;
    var off := a * 64 + m * 8 + h * 4;
    SameMasked(off, 0x80);
    Sliced(off, 8, 8, a, m, h * 4);
    Sliced(off, 4, 2, a * 8 + m, h, 0);
    Sliced(off, 0x40, 2, 0, a, m * 8 + h * 4);
  }

  lemma WritesDouble(f3: Field3, b12: nat, mid: Reg, lo: Reg)
    requires b12 < 2
    ensures var off := lo / 8 * 64 + (b12 * 4 + mid / 8) * 8;
            && 0 <= off < 0x100 && off % 8 == 0
            && EncodeDoubleMem(f3, Creg(lo), Creg(mid), off) == Halfword(f3, b12, mid, lo, 0)
  {
    hide Slice, Masked, Creg;
    CregPart(mid);
    CregPart(lo);
    var a, m := lo / 8, b12 * 4 + mid / 8;
    var off := a * 64 + m * 8;
    SameMasked(off, 0x100);
    Sliced(off, 8, 8, a, m, 0);
    Sliced(off, 0x40, 4, 0, a, m * 8);
  }

  lemma Addi4spnLayout(r: Reg, a: nat, m: nat, x: nat, h: nat)
    requires a < 16 && m < 4 && x < 2 && h < 2
    ensures var v := a * 64 + m * 16 + x * 8 + h * 4;
            && v < 0x400 && v % 4 == 0
            && EncodeAddi4spn(r, v) == m * 0x800 + a * 0x80 + h * 0x40 + x * 0x20 + (r - 8) * 4
  {
    hide Slice, Masked;
    var v := a * 64 + m * 16 + x * 8 + h * 4;
    SameMasked(v, 0x400);
    Sliced(v, 16, 4, a, m, x * 8 + h * 4);
    Sliced(v, 64, 16, 0, a, m * 16 + x * 8 + h * 4);
    Sliced(v, 4, 2, (a * 4 + m) * 2 + x, h, 0);
    Sliced(v, 8, 2, a * 4 + m, x, h * 4);
    ModUnique(v, a * 16 + m * 4 + x * 2 + h, 0, 4);
  }

  lemma WritesAddi4spn(b12: nat, mid: Reg, lo: Reg)
    requires b12 < 2
    ensures var v := mid % 16 * 64 + (b12 * 2 + mid / 16) * 16 + lo / 8 % 2 * 8 + lo / 16 * 4;
            && 0 <= v < 0x400 && v % 4 == 0 && EncodeAddi4spn(Creg(lo), v) == Halfword(0, b12, mid, lo, 0)
  {
    hide EncodeAddi4spn, Creg;
    CregPart(lo);
    HighParts(lo);
    Nibble(mid);
    Addi4spnLayout(Creg(lo), mid % 16, b12 * 2 + mid / 16, lo / 8 % 2, lo / 16);
  }

  lemma HighParts(lo: Reg)
    ensures lo == lo / 16 * 16 + lo / 8 % 2 * 8 + lo % 8 && lo / 16 < 2
  {
  }

  lemma Nibble(mid: Reg)
    ensures mid == mid / 16 * 16 + mid % 16 && mid / 16 < 2
  {
  }

  lemma Writes0(f3: Field3, b12: nat, mid: Reg, lo: Reg)
    requires b12 < 2
    ensures Writes(Disassemble0(f3, b12, mid, lo), Halfword(f3, b12, mid, lo, 0))
    ensures Disassemble0(f3, b12, mid, lo).None? ==> ExpandQuadrant0(f3, b12, mid, lo) == NOP
  {
    hide Creg, EncodeWordMem, EncodeDoubleMem, EncodeAddi4spn, Halfword, IType, SType, Small;
    CregPart(mid);
    CregPart(lo);
    WritesWord(f3, b12, mid, lo);
    WritesDouble(f3, b12, mid, lo);
    WritesAddi4spn(b12, mid, lo);
  }

  // ---- Quadrant one --------------------------------------------------------

  lemma SixIs(b12: nat, lo: Reg)
    requires b12 < 2
    ensures -32 <= Six(b12, lo) < 32 && Masked(Six(b12, lo), 64) == b12 * 32 + lo && Masked(b12 * 32 + lo, 64) == b12 * 32 + lo
    ensures Slice(b12 * 32 + lo, 32, 2) == b12 && (b12 * 32 + lo) % 32 == lo
  {
    hide Masked, Slice;
    var u: nat := b12 * 32 + lo;
    if b12 == 0 { SameMasked(lo, 64); } else { NegativeMasked(lo - 32, 64); }
    SixSplit(u, b12, lo);
  }

  lemma SixSplit(u: nat, b12: nat, lo: nat)
    requires b12 < 2 && lo < 32 && u == b12 * 32 + lo
    ensures Masked(u, 64) == u && Slice(u, 32, 2) == b12 && u % 32 == lo
  {
    hide Masked, Slice;
    SameMasked(u, 64);
    Sliced(u, 32, 2, 0, b12, lo);
    DivModIs(u, b12, lo, 32);
  }

  lemma WritesSix(f3: Field3, b12: nat, mid: Reg, lo: Reg)
    requires b12 < 2
    ensures EncodeImm6(f3, mid, Six(b12, lo)) == Halfword(f3, b12, mid, lo, 1)
    ensures mid / 8 < 3 ==> EncodeAlu6(mid / 8, Creg(mid), Six(b12, lo)) == Halfword(4, b12, mid, lo, 1)
    ensures mid / 8 < 3 ==> EncodeAlu6(mid / 8, Creg(mid), b12 * 32 + lo) == Halfword(4, b12, mid, lo, 1)
    ensures EncodeSlli(mid, b12 * 32 + lo) == Halfword(0, b12, mid, lo, 2)
  {
    hide Masked, Slice, Six, Creg;
    SixIs(b12, lo);
    CregPart(mid);
  }

  lemma WritesPair(b12: nat, mid: Reg, lo: Reg)
    requires b12 < 2 && mid / 8 == 3
    ensures EncodePair(b12, lo / 8, Creg(mid), Creg(lo)) == Halfword(4, b12, mid, lo, 1)
  {
    hide Creg;
    CregPart(mid);
    CregPart(lo);
  }

  lemma Addi16spLayout(b12: nat, a: nat, x: nat, y: nat, h: nat)
    requires b12 < 2 && a < 4 && x < 2 && y < 2 && h < 2
    ensures var v := a * 128 + x * 64 + y * 32 + h * 16 - b12 * 0x200;
            && -512 <= v < 512 && v % 16 == 0
            && EncodeAddi16sp(v) == 0x6000 + b12 * 0x1000 + 2 * 0x80 + h * 0x40 + x * 0x20 + a * 8 + y * 4 + 1
  {
    hide Slice, Masked;
    var low := a * 128 + x * 64 + y * 32 + h * 16;
    var u, v := b12 * 512 + low, low - b12 * 0x200;
    if b12 == 0 { SameMasked(v, 0x400); } else { NegativeMasked(v, 0x400); }
    Sliced(u, 0x200, 2, 0, b12, low);
    Sliced(u, 16, 2, b12 * 16 + a * 4 + x * 2 + y, h, 0);
    Sliced(u, 64, 2, b12 * 4 + a, x, y * 32 + h * 16);
    Sliced(u, 128, 4, b12, a, x * 64 + y * 32 + h * 16);
    Sliced(u, 32, 2, b12 * 8 + a * 2 + x, y, h * 16);
    SixteenTimes(v, b12, a, x, y, h);
  }

  lemma WritesAddi16sp(b12: nat, lo: Reg)
    requires b12 < 2
    ensures var v := lo / 2 % 4 * 128 + lo / 8 % 2 * 64 + lo % 2 * 32 + lo / 16 * 16 - b12 * 0x200;
            && -512 <= v < 512 && v % 16 == 0 && EncodeAddi16sp(v) == Halfword(3, b12, 2, lo, 1)
  {
    hide EncodeAddi16sp;
    StackParts(lo);
    Addi16spLayout(b12, lo / 2 % 4, lo / 8 % 2, lo % 2, lo / 16);
  }

  lemma StackParts(lo: Reg)
    ensures lo == lo / 16 * 16 + lo / 8 % 2 * 8 + lo / 2 % 4 * 2 + lo % 2 && lo / 16 < 2
  {
  }

  lemma SixteenTimes(v: int, b12: int, a: int, x: int, y: int, h: int)
    requires v == a * 128 + x * 64 + y * 32 + h * 16 - b12 * 0x200
    ensures v % 16 == 0
  {
    ModUnique(v, a * 8 + x * 4 + y * 2 + h - b12 * 32, 0, 16);
  }

  lemma JumpParts5(lo: Reg)
    ensures lo == lo / 16 * 16 + lo / 2 % 8 * 2 + lo % 2 && lo / 16 < 2
  {
  }

  lemma MidParts(mid: Reg)
    ensures mid == mid / 16 * 16 + mid / 4 % 4 * 4 + mid / 2 % 2 * 2 + mid % 2 && mid / 16 < 2
  {
  }

  lemma WritesJump(b12: nat, mid: Reg, lo: Reg)
    requires b12 < 2
    ensures var off := JumpDistance(b12, mid, lo);
            -0x800 <= off < 0x800 && EncodeJump(off) == Halfword(5, b12, mid, lo, 1)
  {
    hide Slice, Masked;
    JumpParts5(lo);
    MidParts(mid);
    var b10, b98, b7, b6 := mid / 2 % 2, mid / 4 % 4, lo / 16, mid % 2;
    var b5, b4, b31 := lo % 2, mid / 16, lo / 2 % 8;
    JumpLayout(b12, b10, b98, b7, b6, b5, b4, b31);
  }

  lemma JumpLayout(b12: nat, b10: nat, b98: nat, b7: nat, b6: nat, b5: nat, b4: nat, b31: nat)
    requires b12 < 2 && b10 < 2 && b98 < 4 && b7 < 2 && b6 < 2 && b5 < 2 && b4 < 2 && b31 < 8
    ensures var off := b10 * 0x400 + b98 * 0x100 + b7 * 0x80 + b6 * 0x40 + b5 * 0x20 + b4 * 0x10 + b31 * 2 - b12 * 0x800;
            && -0x800 <= off < 0x800
            && EncodeJump(off)
               == 0xA000 + b12 * 0x1000 + b4 * 0x800 + b98 * 0x200 + b10 * 0x100 + b6 * 0x80 + b7 * 0x40 + b31 * 8 + b5 * 4 + 1
  {
    hide Slice, Masked;
    var t := b31 * 2;
    var u4 := b4 * 0x10 + t;
    var u5 := b5 * 0x20 + u4;
    var u6 := b6 * 0x40 + u5;
    var u7 := b7 * 0x80 + u6;
    var u8 := b98 * 0x100 + u7;
    var u10 := b10 * 0x400 + u8;
    var o := b12 * 0x800 + u10;
    if b12 == 0 { SameMasked(u10, 0x1000); } else { NegativeMasked(u10 - 0x800, 0x1000); }
    Sliced(o, 0x800, 2, 0, b12, u10);
    Sliced(o, 0x400, 2, b12, b10, u8);
    Sliced(o, 0x100, 4, b12 * 2 + b10, b98, u7);
    Sliced(o, 0x80, 2, b12 * 8 + b10 * 4 + b98, b7, u6);
    Sliced(o, 0x40, 2, b12 * 16 + b10 * 8 + b98 * 2 + b7, b6, u5);
    Sliced(o, 32, 2, b12 * 32 + b10 * 16 + b98 * 4 + b7 * 2 + b6, b5, u4);
    Sliced(o, 16, 2, b12 * 64 + b10 * 32 + b98 * 8 + b7 * 4 + b6 * 2 + b5, b4, t);
    Sliced(o, 2, 8, b12 * 128 + b10 * 64 + b98 * 16 + b7 * 8 + b6 * 4 + b5 * 2 + b4, b31, 0);
  }

  lemma BranchLayout(f3: Field3, rs1: Reg, b12: nat, b76: nat, b5: nat, b43: nat, b21: nat)
    requires b12 < 2 && b76 < 4 && b5 < 2 && b43 < 4 && b21 < 4
    ensures var off := b76 * 0x40 + b5 * 0x20 + b43 * 8 + b21 * 2 - b12 * 0x100;
            && -0x100 <= off < 0x100
            && EncodeBranch(f3, rs1, off)
               == f3 * 0x2000 + b12 * 0x1000 + b43 * 0x400 + (rs1 - 8) * 0x80 + b76 * 0x20 + b21 * 8 + b5 * 4 + 1
  {
    hide Slice, Masked;
    var u3 := b43 * 8 + b21 * 2;
    var u5 := b5 * 0x20 + u3;
    var u6 := b76 * 0x40 + u5;
    var o := b12 * 0x100 + u6;
    if b12 == 0 { SameMasked(u6, 0x200); } else { NegativeMasked(u6 - 0x100, 0x200); }
    Sliced(o, 0x100, 2, 0, b12, u6);
    Sliced(o, 0x40, 4, b12, b76, u5);
    Sliced(o, 32, 2, b12 * 4 + b76, b5, u3);
    Sliced(o, 8, 4, b12 * 8 + b76 * 2 + b5, b43, b21 * 2);
    Sliced(o, 2, 4, b12 * 32 + b76 * 8 + b5 * 4 + b43, b21, 0);
  }

  lemma WritesBranch(f3: Field3, b12: nat, mid: Reg, lo: Reg)
    requires b12 < 2
    ensures var off := BranchDistance(b12, mid, lo);
            -0x100 <= off < 0x100 && EncodeBranch(f3, Creg(mid), off) == Halfword(f3, b12, mid, lo, 1)
  {
    hide EncodeBranch, Creg;
    BranchParts5(lo);
    CregPart(mid);
    BranchLayout(f3, Creg(mid), b12, lo / 8, lo % 2, mid / 8, lo / 2 % 4);
  }

  lemma BranchParts5(lo: Reg)
    ensures lo == lo / 8 * 8 + lo / 2 % 4 * 2 + lo % 2 && lo / 8 < 4
  {
  }

  lemma WritesAlu(b12: nat, mid: Reg, lo: Reg)
    requires b12 < 2
    ensures Writes(Disassemble1(4, b12, mid, lo), Halfword(4, b12, mid, lo, 1))
    ensures Disassemble1(4, b12, mid, lo).None? ==> ExpandQuadrant1(4, b12, mid, lo) == NOP
  {
    hide Creg, Six, Halfword, EncodeImm6, EncodeAlu6, EncodePair, EncodeAddi16sp, EncodeJump, EncodeBranch, JumpDistance,
      BranchDistance, IType, RType, UType, JType, BType, Sext6, JumpOffset, BranchOffset, Small;
    CregPart(mid);
    CregPart(lo);
    SixIs(b12, lo);
    SixBound(b12, lo);
    if mid / 8 == 3 { WritesPair(b12, mid, lo); }
    WritesSix(4, b12, mid, lo);
  }

  lemma WritesImmediate(f3: Field3, b12: nat, mid: Reg, lo: Reg)
    requires b12 < 2 && f3 < 4
    ensures Writes(Disassemble1(f3, b12, mid, lo), Halfword(f3, b12, mid, lo, 1)) && Disassemble1(f3, b12, mid, lo).Some?
  {
    hide Creg, Six, Halfword, EncodeImm6, EncodeAlu6, EncodePair, EncodeAddi16sp, EncodeJump, EncodeBranch, JumpDistance,
      BranchDistance, IType, RType, UType, JType, BType, Sext6, JumpOffset, BranchOffset, Small;
    SixIs(b12, lo);
    WritesAddi16sp(b12, lo);
    WritesSix(f3, b12, mid, lo);
  }

  lemma WritesFlow(f3: Field3, b12: nat, mid: Reg, lo: Reg)
    requires b12 < 2 && f3 >= 5
    ensures Writes(Disassemble1(f3, b12, mid, lo), Halfword(f3, b12, mid, lo, 1)) && Disassemble1(f3, b12, mid, lo).Some?
  {
    hide Creg, Six, Halfword, EncodeImm6, EncodeAlu6, EncodePair, EncodeAddi16sp, EncodeJump, EncodeBranch, JumpDistance,
      BranchDistance, IType, RType, UType, JType, BType, Sext6, JumpOffset, BranchOffset, Small;
    CregPart(mid);
    WritesJump(b12, mid, lo);
    WritesBranch(f3, b12, mid, lo);
  }

  lemma Writes1(f3: Field3, b12: nat, mid: Reg, lo: Reg)
    requires b12 < 2
    ensures Writes(Disassemble1(f3, b12, mid, lo), Halfword(f3, b12, mid, lo, 1))
    ensures Disassemble1(f3, b12, mid, lo).None? ==> ExpandQuadrant1(f3, b12, mid, lo) == NOP
  {
    hide *;
    if f3 == 4 {
      WritesAlu(b12, mid, lo);
    } else if f3 < 4 {
      WritesImmediate(f3, b12, mid, lo);
    } else {
      WritesFlow(f3, b12, mid, lo);
    }
  }

  // ---- Quadrant two --------------------------------------------------------

  lemma LoadSpLayout(r: Reg, top: nat, b12: nat, low: nat)
    requires b12 < 2
    ensures top < 4 && low < 8 ==>
      var off := top * 64 + b12 * 32 + low * 4;
      && off < 0x100 && off % 4 == 0
      && EncodeLwsp(r, off) == 0x4000 + b12 * 0x1000 + r * 0x80 + low * 0x10 + top * 4 + 2
    ensures top < 8 && low < 4 ==>
      var off := top * 64 + b12 * 32 + low * 8;
      && off < 0x200 && off % 8 == 0
      && EncodeLdsp(r, off) == 0x6000 + b12 * 0x1000 + r * 0x80 + low * 0x20 + top * 4 + 2
  {
    hide Slice, Masked;
    if top < 4 && low < 8 {
      var w := top * 64 + b12 * 32 + low * 4;
      SameMasked(w, 0x100);
      Sliced(w, 32, 2, top, b12, low * 4);
      Sliced(w, 4, 8, top * 2 + b12, low, 0);
      Sliced(w, 64, 4, 0, top, b12 * 32 + low * 4);
      ModUnique(w, top * 16 + b12 * 8 + low, 0, 4);
    }
    if top < 8 && low < 4 {
      var d := top * 64 + b12 * 32 + low * 8;
      SameMasked(d, 0x200);
      Sliced(d, 32, 2, top, b12, low * 8);
      Sliced(d, 8, 4, top * 2 + b12, low, 0);
      Sliced(d, 64, 8, 0, top, b12 * 32 + low * 8);
      ModUnique(d, top * 8 + b12 * 4 + low, 0, 8);
    }
  }

  lemma LowParts(x: Reg)
    ensures x == x / 4 * 4 + x % 4 && x / 4 < 8 && x == x / 8 * 8 + x % 8 && x / 8 < 4
  {
  }

  lemma WritesLoadSp(b12: nat, mid: Reg, lo: Reg)
    requires b12 < 2
    ensures var off := lo % 4 * 64 + b12 * 32 + lo / 4 * 4;
            0 <= off < 0x100 && off % 4 == 0 && EncodeLwsp(mid, off) == Halfword(2, b12, mid, lo, 2)
    ensures var off := lo % 8 * 64 + b12 * 32 + lo / 8 * 8;
            0 <= off < 0x200 && off % 8 == 0 && EncodeLdsp(mid, off) == Halfword(3, b12, mid, lo, 2)
  {
    hide EncodeLwsp, EncodeLdsp;
    LowParts(lo);
    LoadSpLayout(mid, lo % 4, b12, lo / 4);
    LoadSpLayout(mid, lo % 8, b12, lo / 8);
  }

  lemma StoreSpLayout(r: Reg, top: nat, low: nat)
    ensures top < 4 && low < 16 ==>
      var off := top * 64 + low * 4;
      off < 0x100 && off % 4 == 0 && EncodeSwsp(r, off) == 0xC000 + low * 0x200 + top * 0x80 + r * 4 + 2
    ensures top < 8 && low < 8 ==>
      var off := top * 64 + low * 8;
      off < 0x200 && off % 8 == 0 && EncodeSdsp(r, off) == 0xE000 + low * 0x400 + top * 0x80 + r * 4 + 2
  {
    hide Slice, Masked;
    if top < 4 && low < 16 {
      var w := top * 64 + low * 4;
      SameMasked(w, 0x100);
      Sliced(w, 4, 16, top, low, 0);
      Sliced(w, 64, 4, 0, top, low * 4);
      ModUnique(w, top * 16 + low, 0, 4);
    }
    if top < 8 && low < 8 {
      var d := top * 64 + low * 8;
      SameMasked(d, 0x200);
      Sliced(d, 8, 8, top, low, 0);
      Sliced(d, 64, 8, 0, top, low * 8);
      ModUnique(d, top * 8 + low, 0, 8);
    }
  }

  lemma WritesStoreSp(b12: nat, mid: Reg, lo: Reg)
    requires b12 < 2
    ensures var off := mid % 4 * 64 + (b12 * 8 + mid / 4) * 4;
            0 <= off < 0x100 && off % 4 == 0 && EncodeSwsp(lo, off) == Halfword(6, b12, mid, lo, 2)
    ensures var off := mid % 8 * 64 + (b12 * 4 + mid / 8) * 8;
            0 <= off < 0x200 && off % 8 == 0 && EncodeSdsp(lo, off) == Halfword(7, b12, mid, lo, 2)
  {
    hide EncodeSwsp, EncodeSdsp;
    LowParts(mid);
    StoreSpLayout(lo, mid % 4, b12 * 8 + mid / 4);
    StoreSpLayout(lo, mid % 8, b12 * 4 + mid / 8);
  }

  lemma Writes2(f3: Field3, b12: nat, mid: Reg, lo: Reg)
    requires b12 < 2
    ensures Writes(Disassemble2(f3, b12, mid, lo), Halfword(f3, b12, mid, lo, 2))
    ensures Disassemble2(f3, b12, mid, lo).None? ==> ExpandQuadrant2(f3, b12, mid, lo) == NOP
  {
    hide EncodeImm6, EncodeSlli, EncodeLwsp, EncodeLdsp, EncodeSwsp, EncodeSdsp, IType, RType, SType, Six, EncodeAlu6, Creg,
      EncodeCr, Halfword;
    WritesCr(b12, mid, lo);
    SixBound(b12, lo);
    WritesSix(0, b12, mid, lo);
    WritesLoadSp(b12, mid, lo);
    WritesStoreSp(b12, mid, lo);
  }

  lemma WritesCr(b12: nat, mid: Reg, lo: Reg)
    requires b12 < 2
    ensures EncodeCr(8 + b12, mid, lo) == Halfword(4, b12, mid, lo, 2)
  {
  }

  lemma SixBound(b12: nat, lo: Reg)
    requires b12 < 2
    ensures 0 <= b12 * 32 + lo < 64
  {
  }

  // ---- Every halfword ------------------------------------------------------

  /** A halfword that is not the start of a full-size word either is the exact
      encoding of a form the assembler accepts, and expands to that form's
      equivalent, or is reserved and expands to a no-op. */
  lemma EveryHalfword(c: nat, next: nat)
    requires c < 0x1_0000 && c % 4 != 3 && next < 0x1_0000
    ensures match Disassemble(c)
            case Some(i) => Encodable(i) && Faithful(i) && EncodeC(i) == c && Expand(next * 0x1_0000 + c) == Equivalent(i)
            case None => Expand(next * 0x1_0000 + c) == NOP
  {
    hide Disassemble0, Disassemble1, Disassemble2, ExpandQuadrant0, ExpandQuadrant1, ExpandQuadrant2, Encodable, Faithful, EncodeC,
      Equivalent, Halfword;
    var f3, b12, mid, lo := c / 0x2000, c / 0x1000 % 2, c / 0x80 % 32, c / 4 % 32;
    HalfwordFields(c);
    FetchedParts(next, c);
    Writes0(f3, b12, mid, lo);
    Writes1(f3, b12, mid, lo);
    Writes2(f3, b12, mid, lo);
    if Disassemble(c).Some? { ExpandsIff(Disassemble(c).value, next); }
  }
}
