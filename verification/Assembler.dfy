/** The two-pass assembler: addresses and labels first, then the encoding of
    each line at its address, and the halfword image written for fetch. */
module Assembler {
  import opened Words
  import opened Encode
  import opened Compressed

  /** A jump operand: its text, and the number it parses to if it is one. */
  datatype Target = Target(text: string, number: Option<int>)

  datatype Op =
    | Reg3(op: Field7, f3: Field3, f7: Field7, rd: Reg, rs1: Reg, rs2: Reg)
    | Imm12(op: Field7, f3: Field3, rd: Reg, rs1: Reg, v: int)
    | ShiftImm(op: Field7, f3: Field3, rd: Reg, rs1: Reg, high: nat, shamt: int, width: nat)
    | Store(op: Field7, f3: Field3, rs1: Reg, rs2: Reg, v: int)
    | Branch(f3: Field3, rs1: Reg, rs2: Reg, target: Target)
    | Jump(rd: Reg, target: Target)
    | Upper(op: Field7, rd: Reg, v: int)
    | Li(rd: Reg, v: int)
    | Raw(v: int)
    | Short(c: Compressed)
    | ShortJump(target: Target)
    | ShortBranch(equal: bool, rs1: Reg, target: Target)

  datatype Line = Line(name: Option<string>, op: Option<Op>)

  /** An encoded value and its size in bytes. */
  datatype Item = Item(value: Half, size: nat)

  /** `_instr_size` */
  function Size(op: Op): nat {
    match op
    case Li(_, _) => 32
    case Short(_) => 2
    case ShortJump(_) => 2
    case ShortBranch(_, _, _) => 2
    case _ => 4
  }

  // ---- Load-immediate ------------------------------------------------------

  /** lui and addi for a 32-bit value. */
  function Build32Pair(rd: Reg, v32: Half): (r: seq<Half>)
    ensures |r| == 2
  {
    var upper := (v32 + 0x800) / 0x1000 * 0x1000 % TWO32;
    var lower := (v32 - upper) % 0x1000;
    [UType(OP_LUI, rd, upper), IType(OP_I, 0, rd, rd, lower)]
  }

  const SCRATCH: Reg := 28

  /** The fixed eight words that load any 64-bit constant. */
  function Li64Words(rd: Reg, v: int): (r: seq<Half>)
    ensures |r| == 8
  {
    var u := Wrap(v);
    Build32Pair(rd, u / TWO32)
    + [IType(OP_I, 1, rd, rd, 32)]
    + Build32Pair(SCRATCH, u % TWO32)
    + [IType(OP_I, 1, SCRATCH, SCRATCH, 32), IType(OP_I, 5, SCRATCH, SCRATCH, 32), RType(OP_R, 6, 0, rd, rd, SCRATCH)]
  }

  // ---- Encoding one line ---------------------------------------------------

  /** `_resolve`: a label wins over a number. */
  function Resolve(t: Target, labels: map<string, nat>, addr: nat): Option<int> {
    if t.text in labels then Some(labels[t.text] - addr) else t.number
  }

  function Full(words: seq<Half>): seq<Item> {
    seq(|words|, i requires 0 <= i < |words| => Item(words[i], 4))
  }

  function One(w: Half): Option<seq<Item>> {
    Some([Item(w, 4)])
  }

  function EncodeShort(c: Compressed): Option<seq<Item>> {
    if Encodable(c) && 0 <= EncodeC(c) < 0x1_0000 then Some([Item(EncodeC(c), 2)]) else None
  }

  /** `_encode`; None where it raises an error. */
  function EncodeOp(op: Op, addr: nat, labels: map<string, nat>): Option<seq<Item>> {
    match op
    case Reg3(opc, f3, f7, rd, rs1, rs2) => One(RType(opc, f3, f7, rd, rs1, rs2))
    case Imm12(opc, f3, rd, rs1, v) =>
      if opc == OP_I && f3 == 3 then One(IType(opc, f3, rd, rs1, Masked(v, 0x1000)))
      else if -0x800 <= v < 0x800 then One(IType(opc, f3, rd, rs1, Masked(v, 0x1000)))
      else None
    case ShiftImm(opc, f3, rd, rs1, high, shamt, width) =>
      if width == 0 then None else One(IType(opc, f3, rd, rs1, high * width + Masked(shamt, width)))
    case Store(opc, f3, rs1, rs2, v) =>
      if -0x800 <= v < 0x800 then One(SType(opc, f3, rs1, rs2, Masked(v, 0x1000))) else None
    case Branch(f3, rs1, rs2, target) =>
      var off := Resolve(target, labels, addr);
      if off.Some? && -0x1000 <= off.value < 0x1000 then One(BType(OP_B, f3, rs1, rs2, Masked(off.value, 0x2000))) else None
    case Jump(rd, target) =>
      var off := Resolve(target, labels, addr);
      if off.Some? && -0x10_0000 <= off.value < 0x10_0000 then One(JType(OP_JAL, rd, Masked(off.value, 0x20_0000))) else None
    case Upper(opc, rd, v) => One(UType(opc, rd, Masked(if v <= 0xF_FFFF then v * 0x1000 else v, TWO32)))
    case Li(rd, v) => Some(Full(Li64Words(rd, v)))
    case Raw(v) => One(WrapHalf(v))
    case Short(c) => EncodeShort(c)
    case ShortJump(target) =>
      var off := Resolve(target, labels, addr);
      if off.Some? then EncodeShort(CJ(off.value)) else None
    case ShortBranch(equal, rs1, target) =>
      var off := Resolve(target, labels, addr);
      if off.Some? then EncodeShort(if equal then CBeqz(rs1, off.value) else CBnez(rs1, off.value)) else None
  }

  // ---- The two passes ------------------------------------------------------

  function LineSize(line: Line): nat {
    if line.op.Some? then Size(line.op.value) else 0
  }

  /** The address of line n. */
  function Address(lines: seq<Line>, n: nat): nat
    requires n <= |lines|
  {
    if n == 0 then 0 else Address(lines, n - 1) + LineSize(lines[n - 1])
  }

  /** The labels of the first n lines; a later definition replaces an earlier. */
  function LabelsUpTo(lines: seq<Line>, n: nat): map<string, nat>
    requires n <= |lines|
  {
    if n == 0 then map[]
    else
      var before := LabelsUpTo(lines, n - 1);
      if lines[n - 1].name.Some? then before[lines[n - 1].name.value := Address(lines, n - 1)] else before
  }

  /** What the first pass hands to the second. */
  function Addressed(lines: seq<Line>): (r: seq<(nat, Option<Op>)>)
    ensures |r| == |lines|
  {
    seq(|lines|, i requires 0 <= i < |lines| => (Address(lines, i), lines[i].op))
  }

  function EncodeAt(entry: (nat, Option<Op>), labels: map<string, nat>): Option<seq<Item>> {
    if entry.1.Some? then EncodeOp(entry.1.value, entry.0, labels) else Some([])
  }

  function LineItems(lines: seq<Line>, n: nat, labels: map<string, nat>): Option<seq<Item>>
    requires n < |lines|
  {
    EncodeAt((Address(lines, n), lines[n].op), labels)
  }

  /** The items of the first n lines, or None at the first error. */
  function Emitted(lines: seq<Line>, n: nat, labels: map<string, nat>): Option<seq<Item>>
    requires n <= |lines|
  {
    if n == 0 then Some([])
    else
      var before := Emitted(lines, n - 1, labels);
      var items := LineItems(lines, n - 1, labels);
      if before.Some? && items.Some? then Some(before.value + items.value) else None
  }

  function Assembled(lines: seq<Line>): Option<seq<Item>> {
    Emitted(lines, |lines|, LabelsUpTo(lines, |lines|))
  }

  /** The assembler object: the label table it fills, and the two loops. */
  class Assembler64 {
    var labels: map<string, nat>

    constructor ()
      ensures labels == map[]
    {
      labels := map[];
    }

    /** Addresses and labels. */
    method FirstPass(lines: seq<Line>) returns (expanded: seq<(nat, Option<Op>)>)
      requires labels == map[]
      modifies this
      ensures labels == LabelsUpTo(lines, |lines|)
      ensures expanded == Addressed(lines)
    {
      var addr := 0;
      expanded := [];
      for i := 0 to |lines|
        invariant labels == LabelsUpTo(lines, i)
        invariant addr == Address(lines, i)
        invariant expanded == Addressed(lines)[..i]
      {
        if lines[i].name.Some? {
          labels := labels[lines[i].name.value := addr];
        }
        expanded := expanded + [(addr, lines[i].op)];
        addr := addr + LineSize(lines[i]);
      }
    }

    /** Encoding, stopping at the first error. */
    method SecondPass(ghost lines: seq<Line>, expanded: seq<(nat, Option<Op>)>) returns (result: Option<seq<Item>>)
      requires expanded == Addressed(lines)
      ensures result == Emitted(lines, |lines|, labels)
    {
      var items: seq<Item> := [];
      for i := 0 to |expanded|
        invariant Emitted(lines, i, labels) == Some(items)
      {
        var encoded := EncodeAt(expanded[i], labels);
        if encoded.None? {
          ErrorSticks(lines, i + 1, |lines|, labels);
          return None;
        }
        items := items + encoded.value;
      }
      return Some(items);
    }

    method Assemble(lines: seq<Line>) returns (result: Option<seq<Item>>)
      requires labels == map[]
      modifies this
      ensures labels == LabelsUpTo(lines, |lines|)
      ensures result == Assembled(lines)
    {
      var expanded := FirstPass(lines);
      result := SecondPass(lines, expanded);
    }
  }

  lemma {:induction false} ErrorSticks(lines: seq<Line>, n: nat, m: nat, labels: map<string, nat>)
    requires n <= m <= |lines| && Emitted(lines, n, labels).None?
    ensures Emitted(lines, m, labels).None?
    decreases m
  {
    if n < m { ErrorSticks(lines, n, m - 1, labels); }
  }

  // ---- The image and fetch -------------------------------------------------

  type Short16 = x: int | 0 <= x < 0x1_0000

  /** The halfwords of one item, low half first. */
  function ItemHalfwords(i: Item): seq<Short16> {
    if i.size == 2 then [i.value % 0x1_0000] else [i.value % 0x1_0000, i.value / 0x1_0000]
  }

  function Halfwords(items: seq<Item>): seq<Short16> {
    if items == [] then [] else ItemHalfwords(items[0]) + Halfwords(items[1..])
  }

  /** `write_imem_halfwords` */
  method WriteHalfwords(items: seq<Item>) returns (file: seq<Short16>)
    ensures file == Halfwords(items)
  {
    file := [];
    for i := 0 to |items|
      invariant file + Halfwords(items[i..]) == Halfwords(items)
    {
      file := file + ItemHalfwords(items[i]);
      assert items[i..][0] == items[i] && items[i..][1..] == items[i + 1..];
    }
    assert items[|items|..] == [];
  }

  /** The halfword at pc and the next one, in an instruction memory whose size
      the index wraps around at. */
  function Fetch(imem: seq<Short16>, pc: nat): Half
    requires |imem| > 0
  {
    var index := pc / 2 % |imem|;
    var low: int, next: int := imem[index], imem[(index + 1) % |imem|];
    next * 0x1_0000 + low
  }
}
