/** The divide reservation station: one entry around the divider, which cannot
    be aborted. One clock edge of div_rs.v at a time. */
module DivRs {
  import opened Words
  import opened Divide
  import opened DivFu
  import opened AluRs

  datatype Entry = Entry(tid: bool, op: DivOp, wordOp: bool, s1: Operand, s2: Operand, dest: nat)

  datatype Inputs = Inputs(allocReq: bool, alloc: Entry, buses: Buses, grant: bool,
                           head0: nat, head1: nat, squash0: SquashPort, squash1: SquashPort)

  /** Every register of the station and of the divider inside it. */
  datatype Rs = Rs(busy: bool, entry: Entry, started: bool, haveResult: bool,
                   resultQ: Word, resultR: Word, fu: Fu)

  /** What dispatch sees: also full while a disowned division is finishing. */
  predicate Full(s: Rs) {
    s.busy || s.fu.busy
  }

  function JobOf(op: DivOp, wordOp: bool, a: Word, b: Word): Job {
    Job(op == Div || op == Rem, wordOp, a, b)
  }

  function EntryJob(e: Entry): Job {
    JobOf(e.op, e.wordOp, e.s1.val, e.s2.val)
  }

  predicate Start(s: Rs) {
    s.busy && s.entry.s1.ready && s.entry.s2.ready && !s.started && !s.fu.busy
  }

  predicate ReqValid(s: Rs) {
    s.busy && s.haveResult
  }

  function ReqValue(s: Rs): Word {
    if s.entry.op == Rem || s.entry.op == Remu then s.resultR else s.resultQ
  }

  predicate Accepts(s: Rs, inp: Inputs) {
    inp.allocReq && !s.busy
  }

  predicate SquashedBy(s: Rs, tid: bool, port: SquashPort, head: nat, span: nat)
    requires span > 0
  {
    && port.valid && s.busy && s.entry.tid == tid
    && Age(s.entry.dest, head, span) > Age(port.tag, head, span)
  }

  predicate EntrySquashed(s: Rs, inp: Inputs, span: nat)
    requires span > 0
  {
    || SquashedBy(s, false, inp.squash0, inp.head0, span)
    || SquashedBy(s, true, inp.squash1, inp.head1, span)
  }

  function SnoopedEntry(e: Entry, buses: Buses): Entry {
    e.(s1 := SnoopOperand(e.s1, e.tid, buses), s2 := SnoopOperand(e.s2, e.tid, buses))
  }

  function NextEntry(s: Rs, inp: Inputs): Entry {
    if Accepts(s, inp) then inp.alloc
    else if s.busy then SnoopedEntry(s.entry, inp.buses) else s.entry
  }

  function RsStep(s: Rs, inp: Inputs, span: nat): Rs
    requires span > 0
  {
    Rs((s.busy || Accepts(s, inp)) && !(ReqValid(s) && inp.grant) && !EntrySquashed(s, inp, span),
       NextEntry(s, inp),
       Start(s) || (s.started && !Accepts(s, inp)),
       s.fu.done || (s.haveResult && !Accepts(s, inp)),
       if s.fu.done then s.fu.quotient else s.resultQ,
       if s.fu.done then s.fu.remainder else s.resultR,
       FuStep(s.fu, FuIn(Start(s), EntryJob(s.entry))))
  }

  /** The clocked station. */
  class Station {
    var busy: bool
    var entry: Entry
    var started: bool
    var haveResult: bool
    var resultQ: Word
    var resultR: Word
    const fu: Divider

    constructor (fu: Divider, entry: Entry)
      ensures this.fu == fu && !busy && !started && !haveResult
    {
      this.fu, this.entry := fu, entry;
      busy, started, haveResult, resultQ, resultR := false, false, false, 0, 0;
    }

    function View(): Rs
      reads this, fu
    {
      Rs(busy, entry, started, haveResult, resultQ, resultR, fu.View())
    }

    /** One rising edge; `was` is what every right-hand side reads. */
    method Tick(inp: Inputs, span: nat)
      requires span > 0
      modifies this, fu
      ensures View() == RsStep(old(View()), inp, span)
    {
      var was := View();
      if busy {
        entry := SnoopedEntry(entry, inp.buses);
      }
      if inp.allocReq && !was.busy {
        busy, entry, started, haveResult := true, inp.alloc, false, false;
      }
      if Start(was) {
        started := true;
      }
      if was.fu.done {
        resultQ, resultR, haveResult := was.fu.quotient, was.fu.remainder, true;
      }
      if ReqValid(was) && inp.grant {
        busy := false;
      }
      if EntrySquashed(was, inp, span) {
        busy := false;
      }
      fu.Tick(FuIn(Start(was), EntryJob(was.entry)));
    }
  }
}
