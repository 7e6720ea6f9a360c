/** What an assembly line means, read from the hardware's side: the fields and
    immediates the decoder extracts from the words the line becomes. Nothing
    here mentions an encoder but for the eight words of `li`. */
module AssemblerMeaning {
  import opened Words
  import opened Tags
  import opened Encode
  import opened Compressed
  import opened CompressedProofs
  import opened Assembler
  import opened AssemblerTheorems

  /** The offset a jump operand stands for: a label's distance, else its number. */
  function Operand(t: Target, labels: map<string, nat>, addr: nat): Option<int> {
    if t.text in labels then Some(labels[t.text] - addr) else t.number
  }

  predicate IsBranch(w: Half, f3: Field3, rs1: Reg, rs2: Reg, off: int) {
    Opcode(w) == OP_B && Func3(w) == f3 && Rs1(w) == rs1 && Rs2(w) == rs2 && ImmB(w) == Wrap(off - off % 2)
  }

  predicate IsJump(w: Half, rd: Reg, off: int) {
    Opcode(w) == OP_JAL && Rd(w) == rd && ImmJ(w) == Wrap(off - off % 2)
  }

  /** The shift amount and the bits above it, for both widths. */
  predicate IsShift(w: Half, high: nat, shamt: int, width: nat) {
    && (width == 64 ==> ImmI(w) % 64 == shamt % 64 && Func7(w) / 2 == high % 64)
    && (width == 32 ==> ImmI(w) % 32 == shamt % 32 && Rs2(w) == shamt % 32 && Func7(w) == high % 128)
  }

  /** One word, decoded. */
  predicate ReadsWord(op: Op, addr: nat, labels: map<string, nat>, w: Half) {
    match op
    case Reg3(opc, f3, f7, rd, rs1, rs2) =>
      Opcode(w) == opc && Func3(w) == f3 && Func7(w) == f7 && Rd(w) == rd && Rs1(w) == rs1 && Rs2(w) == rs2
    case Imm12(opc, f3, rd, rs1, v) =>
      && Opcode(w) == opc && Func3(w) == f3 && Rd(w) == rd && Rs1(w) == rs1
      && if opc == OP_I && f3 == 3 then (Signed(ImmI(w)) - v) % 0x1000 == 0 else Signed(ImmI(w)) == v
    case ShiftImm(opc, f3, rd, rs1, high, shamt, width) =>
      Opcode(w) == opc && Func3(w) == f3 && Rd(w) == rd && Rs1(w) == rs1 && IsShift(w, high, shamt, width)
    case Store(opc, f3, rs1, rs2, v) =>
      Opcode(w) == opc && Func3(w) == f3 && Rs1(w) == rs1 && Rs2(w) == rs2 && Signed(ImmS(w)) == v
    case Branch(f3, rs1, rs2, target) =>
      Operand(target, labels, addr).Some? && IsBranch(w, f3, rs1, rs2, Operand(target, labels, addr).value)
    case Jump(rd, target) =>
      Operand(target, labels, addr).Some? && IsJump(w, rd, Operand(target, labels, addr).value)
    case Upper(opc, rd, v) =>
      var x := if v <= 0xF_FFFF then v * 0x1000 else v;
      Opcode(w) == opc && Rd(w) == rd && ImmU(w) == SignExtend(WrapHalf(x - x % 0x1000))
    case Raw(v) => w == WrapHalf(v)
    case Short(c) => w == Equivalent(c)
    case ShortJump(target) =>
      Operand(target, labels, addr).Some? && IsJump(w, 0, Operand(target, labels, addr).value)
    case ShortBranch(equal, rs1, target) =>
      Operand(target, labels, addr).Some? && IsBranch(w, if equal then 0 else 1, rs1, 0, Operand(target, labels, addr).value)
    case Li(_, _) => false
  }

  function WordCount(op: Op): nat {
    if op.Li? then 8 else 1
  }

  predicate Reads(op: Op, addr: nat, labels: map<string, nat>, words: seq<Half>) {
    && |words| == WordCount(op)
    && if op.Li? then words == Li64Words(op.rd, op.v) else ReadsWord(op, addr, labels, words[0])
  }

  // ---- The fields of each format -------------------------------------------

  lemma ImmediateFields(op: Field7, f3: Field3, rd: Reg, rs1: Reg, x: nat)
    ensures var w := IType(op, f3, rd, rs1, x);
            && Opcode(w) == op && Rd(w) == rd && Func3(w) == f3 && Rs1(w) == rs1 && w / 0x10_0000 == x % 0x1000
            && ImmI(w) == Extend(x % 0x1000, 0x800)
            && Func7(w) == x % 0x1000 / 32 && Rs2(w) == x % 0x1000 % 32
  {
    var y := x % 0x1000;
    hide Extend;
    assert y == y / 32 * 32 + y % 32;
    SharedFields(IType(op, f3, rd, rs1, x), y / 32, y % 32, rs1, f3, rd, op);
    FieldIs(IType(op, f3, rd, rs1, x), 0x10_0000, 0x1000, 0, y, rs1 * 0x8000 + f3 * 0x1000 + rd * 0x80 + op);
  }

  lemma Extended12(x: nat)
    requires x < 0x1000
    ensures (Signed(Extend(x, 0x800)) - x) % 0x1000 == 0 && -0x800 <= Signed(Extend(x, 0x800)) < 0x800
    ensures Extend(x, 0x800) % 64 == x % 64 && Extend(x, 0x800) % 32 == x % 32
  {
  }

  lemma SameResidue(x: int, y: int)
    requires -0x800 <= x < 0x800 && -0x800 <= y < 0x800 && (x - y) % 0x1000 == 0
    ensures x == y
  {
  }

  lemma ImmediateReads(op: Field7, f3: Field3, rd: Reg, rs1: Reg, v: int)
    ensures var w := IType(op, f3, rd, rs1, Masked(v, 0x1000));
            (Signed(ImmI(w)) - v) % 0x1000 == 0 && (-0x800 <= v < 0x800 ==> Signed(ImmI(w)) == v)
  {
    hide IType, ImmI, Extend, Signed;
    var x := v % 0x1000;
    ImmediateFields(op, f3, rd, rs1, x);
    Residue(v);
    Extended12(x);
    var s := Signed(Extend(x, 0x800));
    SumOfMultiples(s - x, x - v);
    if -0x800 <= v < 0x800 { SameResidue(s, v); }
  }

  lemma Residue(v: int)
    ensures (v % 0x1000 - v) % 0x1000 == 0 && v % 0x1000 % 0x1000 == v % 0x1000
  {
  }

  lemma SumOfMultiples(x: int, y: int)
    requires x % 0x1000 == 0 && y % 0x1000 == 0
    ensures (x + y) % 0x1000 == 0
  {
  }

  lemma ShiftReads(op: Field7, f3: Field3, rd: Reg, rs1: Reg, high: nat, shamt: int, width: nat)
    requires width > 0
    ensures IsShift(IType(op, f3, rd, rs1, high * width + Masked(shamt, width)), high, shamt, width)
  {
    hide IType, ImmI, Extend, Func7, Rs2;
    var x := high * width + Masked(shamt, width);
    ImmediateFields(op, f3, rd, rs1, x);
    Extended12(x % 0x1000);
    if width == 64 { ShiftField(high, shamt % 64, 64, 64); }
    if width == 32 { ShiftField(high, shamt % 32, 32, 128); }
  }

  lemma ShiftField(high: nat, s: nat, width: nat, rest: nat)
    requires (width == 64 && rest == 64) || (width == 32 && rest == 128)
    requires s < width
    ensures var x := (high * width + s) % 0x1000;
            x % width == s && x / width == high % rest && (width == 64 ==> x / 32 / 2 == high % rest)
  {
    Division(high, rest);
    var q, r := high / rest, high % rest;
    assert high * width + s == q * 0x1000 + (r * width + s);
    DivModIs(high * width + s, q, r * width + s, 0x1000);
    DivModIs(r * width + s, r, s, width);
  }

  lemma StoreReads(op: Field7, f3: Field3, rs1: Reg, rs2: Reg, v: int)
    requires -0x800 <= v < 0x800
    ensures Signed(ImmS(SType(op, f3, rs1, rs2, v % 0x1000))) == v
  {
    hide SType, ImmS;
    DecodeS(op, f3, rs1, rs2, v);
  }

  lemma UpperReads(op: Field7, rd: Reg, x: int)
    ensures ImmU(UType(op, rd, Masked(x, TWO32))) == SignExtend(WrapHalf(x - x % 0x1000))
  {
    hide UType, ImmU, SignExtend;
    DecodeU(op, rd, Masked(x, TWO32));
    UpperPart(x);
  }

  lemma UpperPart(x: int)
    ensures x % TWO32 / 0x1000 * 0x1000 % TWO32 == WrapHalf(x - x % 0x1000)
  {
    var y, q := x % TWO32, x / TWO32;
    var k := q * 0x10_0000 + y / 0x1000;
    ModUnique(x, k, y % 0x1000, 0x1000);
    ModUnique(x - x % 0x1000, q, y / 0x1000 * 0x1000, TWO32);
  }

  // ---- One line ------------------------------------------------------------

  /** The words a line stands for decode to exactly what the line says. */
  lemma LineReads(op: Op, addr: nat, labels: map<string, nat>)
    requires EncodeOp(op, addr, labels).Some?
    ensures Reads(op, addr, labels, Meaning(op, addr, labels))
  {
    hide RType, IType, SType, BType, UType, JType, Resolve, Masked, Operand, Li64Words, Wrap, WrapHalf, SignExtend,
      Opcode, Func3, Func7, Rd, Rs1, Rs2, ImmI, ImmS, ImmB, ImmU, ImmJ, IsShift, EncodeC, Encodable, Signed;
    match op
    case Reg3(opc, f3, f7, rd, rs1, rs2) => DecodeR(opc, f3, f7, rd, rs1, rs2);
    case Imm12(opc, f3, rd, rs1, v) =>
      MaskedIs(v, 0x1000);
      ImmediateFields(opc, f3, rd, rs1, Masked(v, 0x1000));
      ImmediateReads(opc, f3, rd, rs1, v);
    case ShiftImm(opc, f3, rd, rs1, high, shamt, width) =>
      ImmediateFields(opc, f3, rd, rs1, high * width + Masked(shamt, width));
      ShiftReads(opc, f3, rd, rs1, high, shamt, width);
    case Store(opc, f3, rs1, rs2, v) =>
      MaskedIs(v, 0x1000);
      DecodeS(opc, f3, rs1, rs2, v);
      StoreReads(opc, f3, rs1, rs2, v);
    case Branch(f3, rs1, rs2, target) =>
      var off := OperandIs(target, labels, addr);
      MaskedIs(off, 0x2000);
      DecodeB(OP_B, f3, rs1, rs2, off);
      assert IsBranch(Meaning(op, addr, labels)[0], f3, rs1, rs2, off);
    case Jump(rd, target) =>
      var off := OperandIs(target, labels, addr);
      MaskedIs(off, 0x20_0000);
      DecodeJ(OP_JAL, rd, off);
      assert IsJump(Meaning(op, addr, labels)[0], rd, off);
    case Upper(opc, rd, v) =>
      var x := if v <= 0xF_FFFF then v * 0x1000 else v;
      DecodeU(opc, rd, Masked(x, TWO32));
      UpperReads(opc, rd, x);
    case Li(_, _) =>
    case Raw(_) =>
    case Short(_) =>
    case ShortJump(target) => ShortJumpReads(target, addr, labels);
    case ShortBranch(equal, rs1, target) => ShortBranchReads(equal, rs1, target, addr, labels);
  }

  lemma MaskedIs(v: int, size: nat)
    requires size > 0
    ensures Masked(v, size) == v % size
  {
  }

  lemma OperandIs(t: Target, labels: map<string, nat>, addr: nat) returns (off: int)
    requires Resolve(t, labels, addr).Some?
    ensures Resolve(t, labels, addr) == Some(off) && Operand(t, labels, addr) == Some(off)
  {
    off := Resolve(t, labels, addr).value;
  }

  lemma ShortJumpReads(target: Target, addr: nat, labels: map<string, nat>)
    requires EncodeOp(ShortJump(target), addr, labels).Some?
    ensures Reads(ShortJump(target), addr, labels, Meaning(ShortJump(target), addr, labels))
  {
    hide JType, Resolve, Operand, Wrap, Opcode, Rd, ImmJ, EncodeC;
    var off := OperandIs(target, labels, addr);
    DecodeJ(OP_JAL, 0, off);
    assert IsJump(Equivalent(CJ(off)), 0, off);
  }

  lemma ShortBranchReads(equal: bool, rs1: Reg, target: Target, addr: nat, labels: map<string, nat>)
    requires EncodeOp(ShortBranch(equal, rs1, target), addr, labels).Some?
    ensures var op := ShortBranch(equal, rs1, target);
            Reads(op, addr, labels, Meaning(op, addr, labels))
  {
    hide BType, Resolve, Operand, Wrap, Opcode, Func3, Rs1, Rs2, ImmB, EncodeC;
    var off := OperandIs(target, labels, addr);
    var f3: Field3 := if equal then 0 else 1;
    DecodeB(OP_B, f3, rs1, 0, off);
    assert IsBranch(Equivalent(BranchOf(equal, rs1, off)), f3, rs1, 0, off);
  }

  // ---- Which lines are refused ---------------------------------------------

  /** The decoder's immediates cover exactly their signed ranges. */
  lemma ImmediateRanges(w: Half)
    ensures -0x800 <= Signed(ImmI(w)) < 0x800 && -0x800 <= Signed(ImmS(w)) < 0x800
    ensures -0x1000 <= Signed(ImmB(w)) < 0x1000 && -0x10_0000 <= Signed(ImmJ(w)) < 0x10_0000
  {
  }

  /** A line with an immediate is refused exactly when no word of its format
      decodes to that immediate; an unsigned sltiu, a shift or a raw word never
      is. */
  lemma AcceptedIff(op: Op, addr: nat, labels: map<string, nat>)
    ensures op.Imm12? && !(op.op == OP_I && op.f3 == 3)
        ==> (EncodeOp(op, addr, labels).Some? <==> exists w: Half :: Signed(ImmI(w)) == op.v)
    ensures op.Store? ==> (EncodeOp(op, addr, labels).Some? <==> exists w: Half :: Signed(ImmS(w)) == op.v)
    ensures op.Branch? ==>
      var off := Operand(op.target, labels, addr);
      (EncodeOp(op, addr, labels).Some? <==> off.Some? && exists w: Half :: Signed(ImmB(w)) == off.value - off.value % 2)
    ensures op.Jump? ==>
      var off := Operand(op.target, labels, addr);
      (EncodeOp(op, addr, labels).Some? <==> off.Some? && exists w: Half :: Signed(ImmJ(w)) == off.value - off.value % 2)
    ensures op.Reg3? || op.Upper? || op.Li? || op.Raw? || (op.Imm12? && op.op == OP_I && op.f3 == 3)
        ==> EncodeOp(op, addr, labels).Some?
    ensures op.ShiftImm? && op.width > 0 ==> EncodeOp(op, addr, labels).Some?
  {
    hide RType, IType, SType, BType, UType, JType, Masked, Li64Words, Wrap, WrapHalf, ImmI, ImmS, ImmB, ImmJ, EncodeC, Encodable,
      Signed;
    match op
    case Imm12(_, _, _, _, v) => TwelveReached(v);
    case Store(_, _, _, _, v) => TwelveReached(v);
    case Branch(_, _, _, target) =>
      if Operand(target, labels, addr).Some? { OffsetReached(Operand(target, labels, addr).value); }
    case Jump(_, target) =>
      if Operand(target, labels, addr).Some? { OffsetReached(Operand(target, labels, addr).value); }
    case _ =>
  }

  lemma TwelveReached(v: int)
    ensures -0x800 <= v < 0x800 <==> exists w: Half :: Signed(ImmI(w)) == v
    ensures -0x800 <= v < 0x800 <==> exists w: Half :: Signed(ImmS(w)) == v
  {
    hide IType, SType, ImmI, ImmS, Signed;
    forall w: Half ensures -0x800 <= Signed(ImmI(w)) < 0x800 && -0x800 <= Signed(ImmS(w)) < 0x800 { ImmediateRanges(w); }
    if -0x800 <= v < 0x800 {
      ImmediateReads(OP_I, 0, 0, 0, v);
      assert Signed(ImmI(IType(OP_I, 0, 0, 0, Masked(v, 0x1000)))) == v;
      StoreReads(OP_S, 0, 0, 0, v);
      assert Signed(ImmS(SType(OP_S, 0, 0, 0, v % 0x1000))) == v;
    }
  }

  lemma OffsetReached(off: int)
    ensures -0x1000 <= off < 0x1000 <==> exists w: Half :: Signed(ImmB(w)) == off - off % 2
    ensures -0x10_0000 <= off < 0x10_0000 <==> exists w: Half :: Signed(ImmJ(w)) == off - off % 2
  {
    hide ImmB, ImmJ, Signed;
    forall w: Half ensures -0x1000 <= Signed(ImmB(w)) < 0x1000 && -0x10_0000 <= Signed(ImmJ(w)) < 0x10_0000 { ImmediateRanges(w); }
    if -0x1000 <= off < 0x1000 { var w := BranchWord(off); }
    if -0x10_0000 <= off < 0x10_0000 { var w := JumpWord(off); }
  }

  lemma BranchWord(off: int) returns (w: Half)
    requires -0x1000 <= off < 0x1000
    ensures Signed(ImmB(w)) == off - off % 2
  {
    hide BType, ImmB, Signed, Wrap;
    w := BType(OP_B, 0, 0, 0, off % 0x2000);
    DecodeB(OP_B, 0, 0, 0, off);
    SignedOfWrap(off - off % 2);
  }

  lemma JumpWord(off: int) returns (w: Half)
    requires -0x10_0000 <= off < 0x10_0000
    ensures Signed(ImmJ(w)) == off - off % 2
  {
    hide JType, ImmJ, Signed, Wrap;
    w := JType(OP_JAL, 0, off % 0x20_0000);
    DecodeJ(OP_JAL, 0, off);
    SignedOfWrap(off - off % 2);
  }

  lemma SignedOfWrap(x: int)
    requires -TWO63 <= x < TWO63
    ensures Signed(Wrap(x)) == x
  {
    if x < 0 { ModUnique(x, -1, x + TWO64, TWO64); } else { ModUnique(x, 0, x, TWO64); }
  }

  // ---- Whatever is fetched -------------------------------------------------

  lemma FormatsAreFullSize()
    ensures forall op: Field7, f3: Field3, f7: Field7, rd: Reg, rs1: Reg, rs2: Reg :: op % 4 == 3 ==>
      RType(op, f3, f7, rd, rs1, rs2) % 4 == 3
    ensures forall op: Field7, f3: Field3, rd: Reg, rs1: Reg, v: nat :: op % 4 == 3 ==> IType(op, f3, rd, rs1, v) % 4 == 3
    ensures forall op: Field7, f3: Field3, rs1: Reg, rs2: Reg, v: nat :: op % 4 == 3 ==>
      SType(op, f3, rs1, rs2, v) % 4 == 3 && BType(op, f3, rs1, rs2, v) % 4 == 3
    ensures forall op: Field7, rd: Reg, v: nat :: op % 4 == 3 ==> UType(op, rd, v) % 4 == 3 && JType(op, rd, v) % 4 == 3
  {
    hide *;
    forall op: Field7, f3: Field3, f7: Field7, rd: Reg, rs1: Reg, rs2: Reg | op % 4 == 3
      ensures RType(op, f3, f7, rd, rs1, rs2) % 4 == 3
    {
      LowBits(op, f3, f7, rd, rs1, rs2, 0);
    }
    forall op: Field7, f3: Field3, rd: Reg, rs1: Reg, v: nat | op % 4 == 3
      ensures IType(op, f3, rd, rs1, v) % 4 == 3
    {
      LowBits(op, f3, 0, rd, rs1, 0, v);
    }
    forall op: Field7, f3: Field3, rs1: Reg, rs2: Reg, v: nat | op % 4 == 3
      ensures SType(op, f3, rs1, rs2, v) % 4 == 3 && BType(op, f3, rs1, rs2, v) % 4 == 3
    {
      LowBits(op, f3, 0, 0, rs1, rs2, v);
    }
    forall op: Field7, rd: Reg, v: nat | op % 4 == 3
      ensures UType(op, rd, v) % 4 == 3 && JType(op, rd, v) % 4 == 3
    {
      LowBits(op, 0, 0, rd, 0, 0, v);
    }
  }

  lemma Quadrant0IsFullSize(f3: nat, b12: nat, mid: Reg, lo: Reg)
    requires b12 < 2
    ensures ExpandQuadrant0(f3, b12, mid, lo) % 4 == 3
  {
    hide RType, IType, SType, BType, UType, JType, JumpOffset, BranchOffset, Sext6, Creg;
    FormatsAreFullSize();
  }

  lemma Quadrant1IsFullSize(f3: nat, b12: nat, mid: Reg, lo: Reg)
    requires b12 < 2
    ensures ExpandQuadrant1(f3, b12, mid, lo) % 4 == 3
  {
    hide RType, IType, SType, BType, UType, JType, JumpOffset, BranchOffset, Sext6, Creg;
    FormatsAreFullSize();
  }

  lemma Quadrant2IsFullSize(f3: nat, b12: nat, mid: Reg, lo: Reg)
    requires b12 < 2
    ensures ExpandQuadrant2(f3, b12, mid, lo) % 4 == 3
  {
    hide RType, IType, SType, BType, UType, JType, JumpOffset, BranchOffset, Sext6, Creg;
    FormatsAreFullSize();
  }

  /** Every fetch, reserved halfwords included, expands to a full-size word. */
  lemma ExpandIsFullSize(fetch: Half)
    ensures Expand(fetch) % 4 == 3
  {
    hide ExpandQuadrant0, ExpandQuadrant1, ExpandQuadrant2;
    var c := fetch % 0x1_0000;
    var f3, b12, mid, lo := c / 0x2000, c / 0x1000 % 2, c / 0x80 % 32, c / 4 % 32;
    Quadrant0IsFullSize(f3, b12, mid, lo);
    Quadrant1IsFullSize(f3, b12, mid, lo);
    Quadrant2IsFullSize(f3, b12, mid, lo);
  }

  // ---- A line in the running program ---------------------------------------

  lemma {:induction false} WalkPart(imem: seq<Short16>, items: seq<Item>, k: nat, n: nat)
    requires ItemsOk(items) && Loaded(imem, items) && k + n <= |items|
    ensures Walk(imem, Bytes(items[..k]), n) == Canonicals(items[k..k + n])
    decreases n
  {
    hide Expand, Fetch, Canonical;
    if n > 0 {
      FetchItem(imem, items, k);
      assert ItemOk(items[k]);
      assert items[..k + 1][..k] == items[..k];
      WalkPart(imem, items, k + 1, n - 1);
      assert Canonicals(items[k..k + n]) == [Canonical(items[k])] + Canonicals(items[k + 1..k + n]);
    }
  }

  /** The items of the lines before n come first, and those of line n next. */
  lemma {:induction false} EmittedPrefix(lines: seq<Line>, n: nat, m: nat, labels: map<string, nat>)
    requires n <= m <= |lines| && Emitted(lines, m, labels).Some?
    ensures Emitted(lines, n, labels).Some?
    ensures Emitted(lines, n, labels).value <= Emitted(lines, m, labels).value
    decreases m
  {
    hide LineItems;
    if n < m { EmittedPrefix(lines, n, m - 1, labels); }
  }

  /** In the assembled program, the words the hardware fetches and expands from
      a line's own address on decode to exactly what that line says. */
  lemma LineRunsAsMeant(lines: seq<Line>, imem: seq<Short16>, n: nat)
    requires Assembled(lines).Some? && LinesOk(lines) && Loaded(imem, Assembled(lines).value)
    requires n < |lines| && lines[n].op.Some?
    ensures var op, at := lines[n].op.value, Address(lines, n);
            |imem| > 0 && Reads(op, at, LabelsUpTo(lines, |lines|), Walk(imem, at, WordCount(op)))
  {
    hide EncodeOp, Meaning, Reads, Address, LabelsUpTo, Walk, Canonicals, ItemOk, LineOk, ItemsOk, Loaded, Size, Bytes;
    var labels, op := LabelsUpTo(lines, |lines|), lines[n].op.value;
    var items := Assembled(lines).value;
    EmittedPrefix(lines, n + 1, |lines|, labels);
    var before, mine := Emitted(lines, n, labels).value, LineItems(lines, n, labels).value;
    assert items[..|before|] == before && items[|before|..|before| + |mine|] == mine;
    EmittedIsProgram(lines, |lines|, labels);
    AddressIsPosition(lines, n, labels);
    LineIsEncoded(lines, n, labels);
    LineIsMeant(op, Address(lines, n), labels);
    LineReads(op, Address(lines, n), labels);
    MeaningLength(op, Address(lines, n), labels, mine);
    WalkPart(imem, items, |before|, |mine|);
    LoadedSome(imem, items);
  }

  lemma LoadedSome(imem: seq<Short16>, items: seq<Item>)
    requires Loaded(imem, items)
    ensures |imem| > 0
  {
  }

  lemma MeaningLength(op: Op, addr: nat, labels: map<string, nat>, items: seq<Item>)
    requires EncodeOp(op, addr, labels) == Some(items)
    ensures |items| == WordCount(op)
  {
    hide Li64Words, EncodeC, Encodable, Resolve, RType, IType, SType, BType, UType, JType;
  }
}
