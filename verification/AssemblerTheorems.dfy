/** The assembler undone by the hardware: pass-one addresses are the emitted
    positions, fetching and expanding recovers the instruction list, and every
    jump the hardware decodes lands on its label. */
module AssemblerTheorems {
  import opened Words
  import opened Encode
  import opened Compressed
  import opened CompressedProofs
  import opened Assembler

  function Bytes(items: seq<Item>): nat {
    if items == [] then 0 else Bytes(items[..|items| - 1]) + items[|items| - 1].size
  }

  lemma {:induction false} BytesAppend(a: seq<Item>, b: seq<Item>)
    ensures Bytes(a + b) == Bytes(a) + Bytes(b)
    decreases |b|
  {
    if b == [] {
      assert a + b == a;
    } else {
      BytesAppend(a, b[..|b| - 1]);
      assert (a + b)[..|a + b| - 1] == a + b[..|b| - 1];
    }
  }

  // ---- Addresses are positions ---------------------------------------------

  lemma FullBytes(w: seq<Half>)
    ensures Bytes(Full(w)) == 4 * |w|
  {
    if w != [] {
      FullBytes(w[..|w| - 1]);
      assert Full(w)[..|w| - 1] == Full(w[..|w| - 1]);
    }
  }

  lemma OneBytes(i: Item)
    ensures Bytes([i]) == i.size
  {
    assert [i][..0] == [];
  }

  /** Pass one reserves exactly what pass two emits. */
  lemma SizeIsEmitted(op: Op, addr: nat, labels: map<string, nat>)
    requires EncodeOp(op, addr, labels).Some?
    ensures Bytes(EncodeOp(op, addr, labels).value) == Size(op)
  {
    hide Li64Words, EncodeC, Encodable, RType, IType, SType, BType, UType, JType, Resolve, Masked, Bytes, Full, WrapHalf;
    var items := EncodeOp(op, addr, labels).value;
    if op.Li? { FullBytes(Li64Words(op.rd, op.v)); } else { OneBytes(items[0]); }
  }

  /** Whatever the labels, line n's first item is emitted at its address. */
  lemma {:induction false} AddressIsPosition(lines: seq<Line>, n: nat, labels: map<string, nat>)
    requires n <= |lines| && Emitted(lines, n, labels).Some?
    ensures Bytes(Emitted(lines, n, labels).value) == Address(lines, n)
  {
    if n > 0 {
      hide EncodeOp, Size;
      AddressIsPosition(lines, n - 1, labels);
      var items := LineItems(lines, n - 1, labels).value;
      BytesAppend(Emitted(lines, n - 1, labels).value, items);
      if lines[n - 1].op.Some? { SizeIsEmitted(lines[n - 1].op.value, Address(lines, n - 1), labels); }
    }
  }

  /** A label's value is the address of the last line that defines it. */
  lemma {:induction false} LabelIsLine(lines: seq<Line>, n: nat, name: string) returns (k: nat)
    requires n <= |lines| && name in LabelsUpTo(lines, n)
    ensures k < n && lines[k].name == Some(name) && LabelsUpTo(lines, n)[name] == Address(lines, k)
    ensures forall j :: k < j < n ==> lines[j].name != Some(name)
  {
    if lines[n - 1].name == Some(name) {
      k := n - 1;
    } else {
      k := LabelIsLine(lines, n - 1, name);
    }
  }

  lemma {:induction false} AddressIsEven(lines: seq<Line>, n: nat)
    requires n <= |lines|
    ensures Address(lines, n) % 2 == 0
  {
    if n > 0 { AddressIsEven(lines, n - 1); }
  }

  // ---- Fetch and expand ----------------------------------------------------

  predicate ItemOk(i: Item) {
    if i.size == 2 then i.value < 0x1_0000 && i.value % 4 != 3 else i.size == 4 && i.value % 4 == 3
  }

  predicate ItemsOk(items: seq<Item>) {
    forall k :: 0 <= k < |items| ==> ItemOk(items[k])
  }

  /** What the expander makes of an item on its own. */
  function Canonical(i: Item): Half {
    if i.size == 2 then Expand(i.value) else i.value
  }

  function Canonicals(items: seq<Item>): seq<Half> {
    seq(|items|, i requires 0 <= i < |items| => Canonical(items[i]))
  }

  lemma {:induction false} HalfwordsAppend(a: seq<Item>, b: seq<Item>)
    ensures Halfwords(a + b) == Halfwords(a) + Halfwords(b)
  {
    if a == [] {
      assert a + b == b;
    } else {
      assert (a + b)[1..] == a[1..] + b;
      HalfwordsAppend(a[1..], b);
    }
  }

  lemma {:induction false} ImageLength(items: seq<Item>)
    requires ItemsOk(items)
    ensures 2 * |Halfwords(items)| == Bytes(items)
  {
    if items != [] {
      var last := |items| - 1;
      assert items == items[..last] + [items[last]];
      HalfwordsAppend(items[..last], [items[last]]);
      ImageLength(items[..last]);
      assert [items[last]][1..] == [];
      assert Halfwords([items[last]]) == ItemHalfwords(items[last]) + Halfwords([]);
    }
  }

  /** The image from item k's position on starts with that item. */
  lemma ImageAt(items: seq<Item>, k: nat)
    requires k < |items| && ItemsOk(items)
    ensures var at := Bytes(items[..k]);
            && at % 2 == 0 && at / 2 + |ItemHalfwords(items[k])| <= |Halfwords(items)|
            && Halfwords(items)[at / 2..at / 2 + |ItemHalfwords(items[k])|] == ItemHalfwords(items[k])
  {
    hide Bytes, ItemHalfwords;
    ImageLength(items[..k]);
    assert items == items[..k] + items[k..];
    HalfwordsAppend(items[..k], items[k..]);
    assert items[k..][0] == items[k];
  }

  /** The expander looks at the second halfword only for a 32-bit one. */
  lemma NextIsIgnored(c: int, next: int)
    requires 0 <= c < 0x1_0000 && 0 <= next < 0x1_0000 && c % 4 != 3
    ensures Expand(next * 0x1_0000 + c) == Expand(c)
    ensures (next * 0x1_0000 + c) % 4 != 3
  {
    hide ExpandHalfword;
    FetchedParts(next, c);
    FetchedParts(0, c);
  }

  ghost predicate Loaded(imem: seq<Short16>, items: seq<Item>) {
    && |Halfwords(items)| <= |imem| && |imem| > 0
    && imem[..|Halfwords(items)|] == Halfwords(items)
  }

  /** Fetching at an item's position yields that item, expanded, and the
      compressed flag says its size. */
  lemma FetchItem(imem: seq<Short16>, items: seq<Item>, k: nat)
    requires ItemsOk(items) && Loaded(imem, items) && k < |items|
    ensures var w := Fetch(imem, Bytes(items[..k]));
            && Expand(w) == Canonical(items[k]) && (w % 4 != 3 <==> items[k].size == 2)
  {
    hide Expand, Halfwords, Bytes, Fetch;
    ImageAt(items, k);
    assert ItemOk(items[k]);
    var h := Bytes(items[..k]) / 2;
    ImageElements(imem, Halfwords(items), ItemHalfwords(items[k]), h);
    FetchAt(imem, Bytes(items[..k]), h);
    if items[k].size == 2 {
      NextIsIgnored(items[k].value, imem[(h + 1) % |imem|]);
    } else {
      FullWord(items[k].value);
    }
  }

  lemma FetchAt(imem: seq<Short16>, pc: nat, h: nat)
    requires pc == 2 * h && h < |imem|
    ensures var low: int, next: int := imem[h], imem[(h + 1) % |imem|];
            Fetch(imem, pc) == next * 0x1_0000 + low
    ensures h + 1 < |imem| ==> (h + 1) % |imem| == h + 1
  {
    hide *;
    FetchIs(imem, pc);
    SmallIndex(h, |imem|);
    if h + 1 < |imem| { SmallIndex(h + 1, |imem|); }
  }

  lemma SmallIndex(h: nat, n: nat)
    requires h < n
    ensures h % n == h
  {
  }

  lemma FetchIs(imem: seq<Short16>, pc: nat)
    requires |imem| > 0
    ensures var index := pc / 2 % |imem|;
            var low: int, next: int := imem[index], imem[(index + 1) % |imem|];
            Fetch(imem, pc) == next * 0x1_0000 + low
  {
  }

  lemma FullWord(w: Half)
    requires w % 4 == 3
    ensures Expand(w) == w && w / 0x1_0000 * 0x1_0000 + w % 0x1_0000 == w
  {
  }

  lemma ImageElements(imem: seq<Short16>, image: seq<Short16>, item: seq<Short16>, h: nat)
    requires |image| <= |imem| && imem[..|image|] == image
    requires h + |item| <= |image| && image[h..h + |item|] == item
    ensures forall j :: 0 <= j < |item| ==> imem[h + j] == item[j]
  {
    forall j | 0 <= j < |item| ensures imem[h + j] == item[j] {
      assert imem[h + j] == image[h + j] == image[h..h + |item|][j];
    }
  }

  /** Fetch, expand and step by two or four, n times. */
  function Walk(imem: seq<Short16>, pc: nat, n: nat): seq<Half>
    requires |imem| > 0
    decreases n
  {
    if n == 0 then []
    else
      var w := Fetch(imem, pc);
      [Expand(w)] + Walk(imem, pc + (if w % 4 != 3 then 2 else 4), n - 1)
  }

  lemma {:induction false} WalkRecovers(imem: seq<Short16>, items: seq<Item>, k: nat)
    requires ItemsOk(items) && Loaded(imem, items) && k <= |items|
    ensures Walk(imem, Bytes(items[..k]), |items| - k) == Canonicals(items[k..])
    decreases |items| - k
  {
    hide Expand, Fetch, Canonical;
    if k < |items| {
      FetchItem(imem, items, k);
      assert ItemOk(items[k]);
      assert items[..k + 1][..k] == items[..k];
      WalkRecovers(imem, items, k + 1);
      assert Canonicals(items[k..]) == [Canonical(items[k])] + Canonicals(items[k + 1..]);
    }
  }

  // ---- The instruction list ------------------------------------------------

  /** The 32-bit words a line stands for. */
  function Meaning(op: Op, addr: nat, labels: map<string, nat>): seq<Half>
    requires EncodeOp(op, addr, labels).Some?
  {
    match op
    case Short(c) => [Equivalent(c)]
    case ShortJump(target) => [Equivalent(CJ(Resolve(target, labels, addr).value))]
    case ShortBranch(equal, rs1, target) =>
      [Equivalent(BranchOf(equal, rs1, Resolve(target, labels, addr).value))]
    case _ => Values(EncodeOp(op, addr, labels).value)
  }

  function BranchOf(equal: bool, rs1: Reg, off: int): Compressed {
    if equal then CBeqz(rs1, off) else CBnez(rs1, off)
  }

  function Values(items: seq<Item>): seq<Half> {
    seq(|items|, i requires 0 <= i < |items| => items[i].value)
  }

  /** Full-size opcodes and raw words end in 11; compressed operands are
      aligned and avoid the reserved registers. */
  predicate LineOk(op: Op) {
    match op
    case Reg3(opc, _, _, _, _, _) => opc % 4 == 3
    case Imm12(opc, _, _, _, _) => opc % 4 == 3
    case ShiftImm(opc, _, _, _, _, _, _) => opc % 4 == 3
    case Store(opc, _, _, _, _) => opc % 4 == 3
    case Upper(opc, _, _) => opc % 4 == 3
    case Raw(v) => v % 4 == 3
    case Short(c) => Faithful(c)
    case _ => true
  }

  lemma HalfwordKind(c: Compressed)
    requires Encodable(c)
    ensures EncodeC(c) % 4 != 3
  {
    hide Slice, Masked;
  }

  /** The formats leave the opcode in the low bits. */
  lemma LowBits(opc: Field7, f3: Field3, f7: Field7, rd: Reg, rs1: Reg, rs2: Reg, v: nat)
    requires opc % 4 == 3
    ensures RType(opc, f3, f7, rd, rs1, rs2) % 4 == 3 && IType(opc, f3, rd, rs1, v) % 4 == 3
    ensures SType(opc, f3, rs1, rs2, v) % 4 == 3 && BType(opc, f3, rs1, rs2, v) % 4 == 3
    ensures UType(opc, rd, v) % 4 == 3 && JType(opc, rd, v) % 4 == 3
  {
    hide *;
    LowTwo(opc, f3, f7, rd, rs1, rs2);
    LowImmediate(opc, f3, rd, rs1, rs2, v);
  }

  lemma LowTwo(opc: Field7, f3: Field3, f7: Field7, rd: Reg, rs1: Reg, rs2: Reg)
    requires opc % 4 == 3
    ensures RType(opc, f3, f7, rd, rs1, rs2) % 4 == 3
  {
  }

  lemma LowImmediate(opc: Field7, f3: Field3, rd: Reg, rs1: Reg, rs2: Reg, v: nat)
    requires opc % 4 == 3
    ensures IType(opc, f3, rd, rs1, v) % 4 == 3 && SType(opc, f3, rs1, rs2, v) % 4 == 3
    ensures BType(opc, f3, rs1, rs2, v) % 4 == 3 && UType(opc, rd, v) % 4 == 3 && JType(opc, rd, v) % 4 == 3
  {
    hide *;
    LowTwelve(opc, f3, rd, rs1, rs2, v);
    LowBranch(opc, f3, rs1, rs2, v);
    LowTwenty(opc, rd, v);
  }

  lemma LowTwelve(opc: Field7, f3: Field3, rd: Reg, rs1: Reg, rs2: Reg, v: nat)
    requires opc % 4 == 3
    ensures IType(opc, f3, rd, rs1, v) % 4 == 3 && SType(opc, f3, rs1, rs2, v) % 4 == 3
  {
    hide Slice;
  }

  lemma LowBranch(opc: Field7, f3: Field3, rs1: Reg, rs2: Reg, v: nat)
    requires opc % 4 == 3
    ensures BType(opc, f3, rs1, rs2, v) % 4 == 3
  {
    hide Slice;
  }

  lemma LowTwenty(opc: Field7, rd: Reg, v: nat)
    requires opc % 4 == 3
    ensures UType(opc, rd, v) % 4 == 3 && JType(opc, rd, v) % 4 == 3
  {
    hide Slice;
    OpcodeBits(Slice(v, 0x1000, 0x10_0000) * 32 + rd, opc);
    OpcodeBits(Slice(v, 0x10_0000, 2) * 0x100_0000 + Slice(v, 2, 1024) * 0x4000 + Slice(v, 0x800, 2) * 0x2000
               + Slice(v, 0x1000, 256) * 32 + rd, opc);
  }

  lemma OpcodeBits(above: nat, opc: Field7)
    ensures (above * 0x80 + opc) % 4 == opc % 4
  {
  }

  lemma PairOk(rd: Reg, v: Half)
    ensures forall k :: 0 <= k < 2 ==> Build32Pair(rd, v)[k] % 4 == 3
  {
    hide Build32Pair, UType, IType;
    var upper, lower := PairIs(rd, v);
    LowBits(OP_LUI, 0, 0, rd, rd, 0, upper);
    LowBits(OP_I, 0, 0, rd, rd, 0, lower);
  }

  lemma PairIs(rd: Reg, v: Half) returns (upper: nat, lower: nat)
    ensures Build32Pair(rd, v) == [UType(OP_LUI, rd, upper), IType(OP_I, 0, rd, rd, lower)]
  {
    hide UType, IType;
    upper := (v + 0x800) / 0x1000 * 0x1000 % TWO32;
    lower := (v - upper) % 0x1000;
  }

  lemma LiWordsOk(rd: Reg, v: int)
    ensures forall k :: 0 <= k < 8 ==> Li64Words(rd, v)[k] % 4 == 3
  {
    hide Build32Pair, IType, RType;
    var u := Wrap(v);
    PairOk(rd, u / TWO32);
    PairOk(SCRATCH, u % TWO32);
    LowBits(OP_I, 1, 0, rd, rd, 0, 32);
    LowBits(OP_I, 1, 0, SCRATCH, SCRATCH, 0, 32);
    LowBits(OP_I, 5, 0, SCRATCH, SCRATCH, 0, 32);
    LowBits(OP_R, 6, 0, rd, rd, SCRATCH, 0);
  }

  lemma ShortIsOk(c: Compressed)
    requires EncodeShort(c).Some? && Faithful(c)
    ensures ItemsOk(EncodeShort(c).value) && Canonicals(EncodeShort(c).value) == [Equivalent(c)]
  {
    hide EncodeC, Expand, Equivalent, Encodable, Faithful;
    HalfwordKind(c);
    ExpandsIff(c, 0);
  }

  lemma RawOk(v: int)
    requires v % 4 == 3
    ensures WrapHalf(v) % 4 == 3
  {
  }

  /** The opcode, or the raw word, of a full-size line ends in 11. */
  lemma FullLineOk(op: Op, addr: nat, labels: map<string, nat>)
    requires EncodeOp(op, addr, labels).Some? && LineOk(op)
    requires !op.Short? && !op.ShortJump? && !op.ShortBranch?
    ensures ItemsOk(EncodeOp(op, addr, labels).value)
    ensures Canonicals(EncodeOp(op, addr, labels).value) == Values(EncodeOp(op, addr, labels).value)
  {
    hide Li64Words, RType, IType, SType, BType, UType, JType, Resolve, Masked, WrapHalf, Expand, Faithful;
    match op
    case Reg3(opc, f3, f7, rd, rs1, rs2) => LowBits(opc, f3, f7, rd, rs1, rs2, 0);
    case Imm12(opc, f3, rd, rs1, v) => LowBits(opc, f3, 0, rd, rs1, 0, Masked(v, 0x1000));
    case ShiftImm(opc, f3, rd, rs1, high, shamt, width) =>
      LowBits(opc, f3, 0, rd, rs1, 0, high * width + Masked(shamt, width));
    case Store(opc, f3, rs1, rs2, v) => LowBits(opc, f3, 0, 0, rs1, rs2, Masked(v, 0x1000));
    case Branch(f3, rs1, rs2, target) =>
      LowBits(OP_B, f3, 0, 0, rs1, rs2, Masked(Resolve(target, labels, addr).value, 0x2000));
    case Jump(rd, target) => LowBits(OP_JAL, 0, 0, rd, 0, 0, Masked(Resolve(target, labels, addr).value, 0x20_0000));
    case Upper(opc, rd, v) => LowBits(opc, 0, 0, rd, 0, 0, Masked(if v <= 0xF_FFFF then v * 0x1000 else v, TWO32));
    case Li(rd, v) => LiWordsOk(rd, v);
    case Raw(v) => RawOk(v);
  }

  lemma LineIsMeant(op: Op, addr: nat, labels: map<string, nat>)
    requires EncodeOp(op, addr, labels).Some? && LineOk(op)
    ensures ItemsOk(EncodeOp(op, addr, labels).value)
    ensures Canonicals(EncodeOp(op, addr, labels).value) == Meaning(op, addr, labels)
  {
    hide EncodeShort, Equivalent, Expand, ItemOk, Canonicals;
    match op
    case Short(c) => ShortIsOk(c);
    case ShortJump(target) => ShortIsOk(CJ(Resolve(target, labels, addr).value));
    case ShortBranch(equal, rs1, target) => ShortIsOk(BranchOf(equal, rs1, Resolve(target, labels, addr).value));
    case _ => FullLineOk(op, addr, labels);
  }

  predicate LinesOk(lines: seq<Line>) {
    forall k :: 0 <= k < |lines| && lines[k].op.Some? ==> LineOk(lines[k].op.value)
  }

  /** The words the first n lines stand for. */
  function Program(lines: seq<Line>, n: nat, labels: map<string, nat>): seq<Half>
    requires n <= |lines| && Emitted(lines, n, labels).Some?
  {
    if n == 0 then []
    else
      Program(lines, n - 1, labels)
      + if lines[n - 1].op.Some? then Meaning(lines[n - 1].op.value, Address(lines, n - 1), labels) else []
  }

  lemma CanonicalsAppend(a: seq<Item>, b: seq<Item>)
    ensures Canonicals(a + b) == Canonicals(a) + Canonicals(b)
    ensures ItemsOk(a) && ItemsOk(b) ==> ItemsOk(a + b)
    ensures Canonicals([]) == [] && ItemsOk([])
  {
    hide Canonical, ItemOk;
  }

  lemma {:induction false} EmittedIsProgram(lines: seq<Line>, n: nat, labels: map<string, nat>)
    requires n <= |lines| && Emitted(lines, n, labels).Some? && LinesOk(lines)
    ensures ItemsOk(Emitted(lines, n, labels).value)
    ensures Canonicals(Emitted(lines, n, labels).value) == Program(lines, n, labels)
  {
    if n > 0 {
      hide EncodeOp, Meaning, ItemOk, LineOk, Canonical, Canonicals, ItemsOk, Address;
      EmittedIsProgram(lines, n - 1, labels);
      var before, items := Emitted(lines, n - 1, labels).value, LineItems(lines, n - 1, labels).value;
      CanonicalsAppend(before, items);
      if lines[n - 1].op.Some? { LineIsMeant(lines[n - 1].op.value, Address(lines, n - 1), labels); }
    }
  }

  /** The round trip: from pc 0, fetch and expand recover the program's 32-bit
      instruction list, whatever lies beyond the image in memory. */
  lemma AssembledRunsAsWritten(lines: seq<Line>, imem: seq<Short16>)
    requires Assembled(lines).Some? && LinesOk(lines) && Loaded(imem, Assembled(lines).value)
    ensures Walk(imem, 0, |Assembled(lines).value|) == Program(lines, |lines|, LabelsUpTo(lines, |lines|))
  {
    hide EncodeOp, Meaning;
    var items := Assembled(lines).value;
    EmittedIsProgram(lines, |lines|, LabelsUpTo(lines, |lines|));
    WalkRecovers(imem, items, 0);
    assert items[..0] == [] && items[0..] == items;
  }

  // ---- Jump targets --------------------------------------------------------

  /** The operand of a control transfer. */
  function JumpTarget(op: Op): Option<Target> {
    match op
    case Branch(_, _, _, target) => Some(target)
    case Jump(_, target) => Some(target)
    case ShortJump(target) => Some(target)
    case ShortBranch(_, _, target) => Some(target)
    case _ => None
  }

  lemma WrapTarget(addr: nat, at: nat, off: int)
    requires off == at - addr
    ensures Wrap(addr + Wrap(off)) == Wrap(at)
  {
  }

  /** The immediate the decoder extracts from a jump or branch line, added to
      the line's own address, is the label's value. */
  lemma JumpLandsOnLabel(lines: seq<Line>, n: nat, labels: map<string, nat>)
    requires n < |lines| && labels == LabelsUpTo(lines, |lines|)
    requires lines[n].op.Some? && LineItems(lines, n, labels).Some?
    requires JumpTarget(lines[n].op.value).Some? && JumpTarget(lines[n].op.value).value.text in labels
    ensures var addr := Address(lines, n);
            var words := Meaning(lines[n].op.value, addr, labels);
            |words| == 1 && Wrap(addr + Imm(words[0])) == Wrap(labels[JumpTarget(lines[n].op.value).value.text])
  {
    hide EncodeOp, Meaning, Address, LabelsUpTo, Imm, JumpTarget, Wrap, LineItems, Resolve;
    var op, addr := lines[n].op.value, Address(lines, n);
    var name := JumpTarget(op).value.text;
    OffsetIsEven(lines, n, name);
    var at: int, here: int := labels[name], addr;
    var off := at - here;
    WrapTarget(addr, labels[name], off);
    ResolvesTo(JumpTarget(op).value, labels, addr, off);
    LineIsEncoded(lines, n, labels);
    MeantImmediate(op, addr, labels, off);
  }

  lemma ResolvesTo(t: Target, labels: map<string, nat>, addr: nat, off: int)
    requires t.text in labels && off == labels[t.text] - addr
    ensures Resolve(t, labels, addr) == Some(off)
  {
  }

  lemma LineIsEncoded(lines: seq<Line>, n: nat, labels: map<string, nat>)
    requires n < |lines| && lines[n].op.Some? && LineItems(lines, n, labels).Some?
    ensures EncodeOp(lines[n].op.value, Address(lines, n), labels).Some?
  {
    hide EncodeOp, Address;
  }

  lemma OffsetIsEven(lines: seq<Line>, n: nat, name: string)
    requires n < |lines| && name in LabelsUpTo(lines, |lines|)
    ensures var at: int, here: int := LabelsUpTo(lines, |lines|)[name], Address(lines, n);
            (at - here) % 2 == 0
  {
    hide Address, LabelsUpTo;
    var k := LabelIsLine(lines, |lines|, name);
    AddressIsEven(lines, n);
    AddressIsEven(lines, k);
  }

  lemma MeantImmediate(op: Op, addr: nat, labels: map<string, nat>, off: int)
    requires EncodeOp(op, addr, labels).Some? && JumpTarget(op).Some? && off % 2 == 0
    requires Resolve(JumpTarget(op).value, labels, addr) == Some(off)
    ensures |Meaning(op, addr, labels)| == 1 && Imm(Meaning(op, addr, labels)[0]) == Wrap(off)
  {
    hide JType, BType, ImmJ, ImmB, Wrap, Resolve, EncodeC, Opcode;
    match op
    case Branch(f3, rs1, rs2, _) => DecodeB(OP_B, f3, rs1, rs2, off);
    case Jump(rd, _) => DecodeJ(OP_JAL, rd, off);
    case ShortJump(_) => DecodeJ(OP_JAL, 0, off);
    case ShortBranch(equal, rs1, _) => DecodeB(OP_B, if equal then 0 else 1, rs1, 0, off);
  }
}
