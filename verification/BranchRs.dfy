/** The branch reservation station: one slot per thread for conditional
    branches, JAL and JALR. One clock edge of branch_rs.v at a time. */
module BranchRs {
  import opened Words
  import opened Encode
  import opened AluRs
  import Execute
  import DecodeOoo

  /** `class_` stands for the three one-hot flags. */
  datatype Entry = Entry(class_: DecodeOoo.Class, f3: Field3, pc: Word, imm: Word, s1: Operand, s2: Operand, dest: nat)

  datatype Inputs = Inputs(allocReq: bool, alloc: Entry, buses: Buses, grant: bool)

  datatype Rs = Rs(busy: bool, entry: Entry)

  predicate HasResult(e: Entry) {
    e.class_ == DecodeOoo.ToJal || e.class_ == DecodeOoo.ToJalr
  }

  predicate OperandsIn(e: Entry) {
    && (e.class_ == DecodeOoo.ToJal || e.s1.ready)
    && (e.class_ == DecodeOoo.ToBranch ==> e.s2.ready)
  }

  predicate Ready(s: Rs) {
    s.busy && OperandsIn(s.entry)
  }

  predicate ReqValid(s: Rs) {
    Ready(s) && HasResult(s.entry)
  }

  /** The return address. */
  function ReqValue(s: Rs): Word {
    Wrap(s.entry.pc + 4)
  }

  function NextPc(s: Rs): Word {
    DecodeOoo.Target(s.entry.class_, s.entry.f3, s.entry.pc, s.entry.imm, s.entry.s1.val, s.entry.s2.val)
  }

  predicate Vacates(s: Rs, inp: Inputs) {
    Ready(s) && (!HasResult(s.entry) || inp.grant)
  }

  predicate Accepts(s: Rs, inp: Inputs) {
    inp.allocReq && !s.busy
  }

  function SnoopedEntry(e: Entry, tid: bool, buses: Buses): Entry {
    e.(s1 := SnoopOperand(e.s1, tid, buses), s2 := SnoopOperand(e.s2, tid, buses))
  }

  function RsStep(s: Rs, inp: Inputs, tid: bool): Rs {
    Rs((s.busy || inp.allocReq) && !Vacates(s, inp),
       if Accepts(s, inp) then inp.alloc else if s.busy then SnoopedEntry(s.entry, tid, inp.buses) else s.entry)
  }

  /** The clocked station of one thread. */
  class Station {
    const tid: bool
    var busy: bool
    var entry: Entry

    constructor (tid: bool, entry: Entry)
      ensures this.tid == tid && View() == Rs(false, entry)
    {
      this.tid, this.busy, this.entry := tid, false, entry;
    }

    function View(): Rs
      reads this
    {
      Rs(busy, entry)
    }

    method Tick(inp: Inputs)
      modifies this
      ensures View() == RsStep(old(View()), inp, tid)
    {
      var was := View();
      if busy {
        entry := SnoopedEntry(entry, tid, inp.buses);
      }
      if inp.allocReq && !was.busy {
        busy, entry := true, inp.alloc;
      }
      if Vacates(was, inp) {
        busy := false;
      }
    }
  }
}
