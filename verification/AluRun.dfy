/** Whole runs of the ALU bank inside its out-of-order environment. Each
    thread's program is an unbounded history of dispatched instructions; a ROB
    tag is a history position modulo `span`. The environment (ROB, RAT, CDB
    arbiter, other banks) is the contract `Allowed` and `Wired`. */
module AluRun {
  import opened Words
  import opened Alu
  import opened AluRs
  import opened Tags

  /** Where a source operand comes from: a known value, or an older
      instruction of the same thread. */
  datatype Source = Given(value: Word) | From(producer: nat)

  datatype Instr =
    | AluInstr(op: AluOp, wordOp: bool, src1: Source, src2: Source)
    | Elsewhere  // a result broadcast by another bank
    | Silent     // no result: stores, conditional branches

  datatype Entry = Entry(instr: Instr, result: Option<Word>)

  /** One thread: everything on its current path, and its ROB head. */
  datatype Thread = Thread(hist: seq<Entry>, head: nat)

  /** `owner[i]` is the history position of the instruction in slot `i`. */
  datatype World = World(slots: seq<Slot>, owner: seq<nat>, t0: Thread, t1: Thread)

  function Of(w: World, tid: bool): Thread {
    if tid then w.t1 else w.t0
  }

  // ---- One cycle of the environment -------------------------------------

  /** Who drives one result bus. */
  datatype Drive = Quiet | BankPort(port: nat) | OtherUnit(tid: bool, n: nat, value: Word)

  datatype Lane = Idle | Dispatch(tid: bool, instr: Instr)

  datatype Cycle = Cycle(driveA: Drive, driveB: Drive, driveC: Drive,
                         lane1: Lane, lane2: Lane, lane3: Lane,
                         squash0: Option<nat>, squash1: Option<nat>,
                         head0: nat, head1: nat)

  datatype Cast = Cast(tid: bool, n: nat, value: Word)

  function SquashOf(c: Cycle, tid: bool): Option<nat> {
    if tid then c.squash1 else c.squash0
  }

  function NewHead(c: Cycle, tid: bool): nat {
    if tid then c.head1 else c.head0
  }

  function Port(w: World, span: nat, k: nat): Pick
    requires span > 0
  {
    var (p1, p2, p3) := IssuePicks(w.slots, w.t0.head % span, w.t1.head % span);
    if k == 1 then p1 else if k == 2 then p2 else p3
  }

  predicate ValidPort(w: World, span: nat, k: nat)
    requires span > 0
  {
    var p := Port(w, span, k);
    1 <= k <= 3 && p.have && p.idx < |w.slots| && p.idx < |w.owner|
  }

  /** The instruction and value a bus carries. */
  function CastOn(w: World, span: nat, d: Drive): Option<Cast>
    requires span > 0
  {
    match d
    case Quiet => None
    case OtherUnit(tid, n, value) => Some(Cast(tid, n, value))
    case BankPort(k) =>
      if ValidPort(w, span, k) then
        var i := Port(w, span, k).idx;
        Some(Cast(w.slots[i].tid, w.owner[i], ReqValue(w.slots[i])))
      else None
  }

  predicate Targets(cast: Option<Cast>, tid: bool, n: nat) {
    cast.Some? && cast.value.tid == tid && cast.value.n == n
  }

  /** The value broadcast this cycle for position `n` of a thread. */
  function CastFor(w: World, span: nat, c: Cycle, tid: bool, n: nat): Option<Word>
    requires span > 0
  {
    var a, b, d := CastOn(w, span, c.driveA), CastOn(w, span, c.driveB), CastOn(w, span, c.driveC);
    if Targets(a, tid, n) then Some(a.value.value)
    else if Targets(b, tid, n) then Some(b.value.value)
    else if Targets(d, tid, n) then Some(d.value.value)
    else None
  }

  function Recorded(w: World, span: nat, c: Cycle, tid: bool, n: nat): Entry
    requires span > 0 && n < |Of(w, tid).hist|
  {
    var e := Of(w, tid).hist[n];
    var v := CastFor(w, span, c, tid, n);
    if v.Some? then e.(result := v) else e
  }

  /** How much of the history survives this cycle's squash. */
  function KeptLength(w: World, c: Cycle, tid: bool): (r: nat)
    ensures r <= |Of(w, tid).hist|
  {
    var b := SquashOf(c, tid);
    if b.Some? && b.value < |Of(w, tid).hist| then b.value + 1 else |Of(w, tid).hist|
  }

  function Kept(w: World, span: nat, c: Cycle, tid: bool): (r: seq<Entry>)
    requires span > 0
    ensures |r| == KeptLength(w, c, tid)
  {
    seq(KeptLength(w, c, tid), n requires 0 <= n < KeptLength(w, c, tid) => Recorded(w, span, c, tid, n))
  }

  function LanePart(l: Lane, tid: bool): seq<Entry> {
    if l.Dispatch? && l.tid == tid then [Entry(l.instr, None)] else []
  }

  function NextThread(w: World, span: nat, c: Cycle, tid: bool): Thread
    requires span > 0
  {
    Thread(Kept(w, span, c, tid) + LanePart(c.lane1, tid) + LanePart(c.lane2, tid) + LanePart(c.lane3, tid),
           NewHead(c, tid))
  }

  function LaneOf(c: Cycle, k: nat): Lane {
    if k == 1 then c.lane1 else if k == 2 then c.lane2 else c.lane3
  }

  /** The history position lane `k`'s instruction takes. */
  function Position(w: World, c: Cycle, k: nat): nat {
    var l := LaneOf(c, k);
    if l.Idle? then 0
    else KeptLength(w, c, l.tid)
         + (if k > 1 then |LanePart(c.lane1, l.tid)| else 0)
         + (if k > 2 then |LanePart(c.lane2, l.tid)| else 0)
  }

  predicate ToBank(l: Lane) {
    l.Dispatch? && l.instr.AluInstr?
  }

  /** The slot lane `k` gets when it dispatches to this bank. */
  function LaneSlot(w: World, c: Cycle, k: nat): Pick {
    var (f1, f2, f3) := FreePicks(w.slots, ToBank(c.lane1), ToBank(c.lane2));
    if k == 1 then f1 else if k == 2 then f2 else f3
  }

  predicate Fills(w: World, c: Cycle, k: nat, i: nat) {
    ToBank(LaneOf(c, k)) && Took(LaneSlot(w, c, k), i)
  }

  function NextOwner(w: World, c: Cycle, i: nat): nat
    requires i < |w.owner|
  {
    if Fills(w, c, 3, i) then Position(w, c, 3)
    else if Fills(w, c, 2, i) then Position(w, c, 2)
    else if Fills(w, c, 1, i) then Position(w, c, 1)
    else w.owner[i]
  }

  function Next(w: World, span: nat, c: Cycle, inp: Inputs): World
    requires span > 0
  {
    World(Step(w.slots, inp, span),
          seq(|w.owner|, i requires 0 <= i < |w.owner| => NextOwner(w, c, i)),
          NextThread(w, span, c, false), NextThread(w, span, c, true))
  }

  // ---- The environment contract -----------------------------------------

  function SourceValue(hist: seq<Entry>, src: Source): Option<Word> {
    match src
    case Given(v) => Some(v)
    case From(p) => if p < |hist| then hist[p].result else None
  }

  /** Ready with the producer's own value, or waiting for its tag because it
      has not broadcast. */
  predicate OperandOk(o: Operand, src: Source, hist: seq<Entry>, span: nat)
    requires span > 0
  {
    var v := SourceValue(hist, src);
    if v.Some? then o.ready && o.val == v.value
    else !o.ready && src.From? && o.tag == src.producer % span
  }

  predicate SourceLegal(src: Source, hist: seq<Entry>, n: nat)
    requires n <= |hist|
  {
    src.From? ==> src.producer < n && !hist[src.producer].instr.Silent?
  }

  predicate Done(e: Entry) {
    e.instr.Silent? || e.result.Some?
  }

  predicate DriveAllowed(w: World, span: nat, d: Drive)
    requires span > 0
  {
    match d
    case Quiet => true
    case BankPort(k) => 1 <= k <= 3 && Port(w, span, k).have
    case OtherUnit(tid, n, _) =>
      var t := Of(w, tid);
      t.head <= n < |t.hist| && t.hist[n].instr.Elsewhere? && t.hist[n].result.None?
  }

  predicate DifferentSource(d: Drive, e: Drive) {
    && (d.BankPort? && e.BankPort? ==> d.port != e.port)
    && (d.OtherUnit? && e.OtherUnit? ==> d.tid != e.tid || d.n != e.n)
  }

  predicate LaneAllowed(w: World, span: nat, c: Cycle, k: nat)
    requires span > 0
  {
    var l := LaneOf(c, k);
    l.Dispatch? ==>
      && SquashOf(c, l.tid).None?
      && (l.instr.AluInstr? ==>
            && LaneSlot(w, c, k).have
            && var hist := NextThread(w, span, c, l.tid).hist;
               Position(w, c, k) <= |hist| &&
               SourceLegal(l.instr.src1, hist, Position(w, c, k)) &&
               SourceLegal(l.instr.src2, hist, Position(w, c, k)))
  }

  predicate ThreadAllowed(w: World, span: nat, c: Cycle, tid: bool)
    requires span > 0
  {
    var t, t' := Of(w, tid), NextThread(w, span, c, tid);
    && (SquashOf(c, tid).Some? ==> t.head <= SquashOf(c, tid).value < |t.hist|)
    && t.head <= t'.head <= |t'.hist|
    && |t'.hist| <= t'.head + span
    && forall n :: t.head <= n < t'.head ==> Done(t'.hist[n])
  }

  /** What the rest of the machine may do in one cycle. */
  predicate Allowed(w: World, span: nat, c: Cycle)
    requires span > 0
  {
    && DriveAllowed(w, span, c.driveA) && DriveAllowed(w, span, c.driveB) && DriveAllowed(w, span, c.driveC)
    && DifferentSource(c.driveA, c.driveB) && DifferentSource(c.driveA, c.driveC)
    && DifferentSource(c.driveB, c.driveC)
    && LaneAllowed(w, span, c, 1) && LaneAllowed(w, span, c, 2) && LaneAllowed(w, span, c, 3)
    && ThreadAllowed(w, span, c, false) && ThreadAllowed(w, span, c, true)
  }

  predicate BusWired(bus: Bus, cast: Option<Cast>, span: nat)
    requires span > 0
  {
    && bus.valid == cast.Some?
    && (cast.Some? ==> bus.tid == cast.value.tid && bus.tag == cast.value.n % span && bus.value == cast.value.value)
  }

  predicate GrantWired(w: World, span: nat, c: Cycle, k: nat, grant: bool)
    requires span > 0
  {
    (grant && Port(w, span, k).have) <==>
      (c.driveA == BankPort(k) || c.driveB == BankPort(k) || c.driveC == BankPort(k))
  }

  predicate LaneWired(w: World, span: nat, c: Cycle, k: nat, a: AllocPort)
    requires span > 0
  {
    var l := LaneOf(c, k);
    && a.req == ToBank(l)
    && (a.req ==>
          && a.tid == l.tid && a.op == l.instr.op && a.wordOp == l.instr.wordOp
          && a.dest == Position(w, c, k) % span
          && OperandOk(a.s1, l.instr.src1, NextThread(w, span, c, l.tid).hist, span)
          && OperandOk(a.s2, l.instr.src2, NextThread(w, span, c, l.tid).hist, span))
  }

  predicate SquashWired(port: SquashPort, squash: Option<nat>, span: nat)
    requires span > 0
  {
    port.valid == squash.Some? && (squash.Some? ==> port.tag == squash.value % span)
  }

  /** The pins carry exactly this cycle's events; unused pins are free. */
  predicate Wired(w: World, span: nat, c: Cycle, inp: Inputs)
    requires span > 0
  {
    && inp.head0 == w.t0.head % span && inp.head1 == w.t1.head % span
    && BusWired(inp.buses.A, CastOn(w, span, c.driveA), span)
    && BusWired(inp.buses.B, CastOn(w, span, c.driveB), span)
    && BusWired(inp.buses.C, CastOn(w, span, c.driveC), span)
    && GrantWired(w, span, c, 1, inp.grant1) && GrantWired(w, span, c, 2, inp.grant2)
    && GrantWired(w, span, c, 3, inp.grant3)
    && LaneWired(w, span, c, 1, inp.a1) && LaneWired(w, span, c, 2, inp.a2) && LaneWired(w, span, c, 3, inp.a3)
    && SquashWired(inp.squash0, c.squash0, span) && SquashWired(inp.squash1, c.squash1, span)
  }

  // ---- The invariant ----------------------------------------------------

  /** Slot `s` holds exactly the un-broadcast instruction at position `n`. */
  predicate SlotOk(s: Slot, n: nat, t: Thread, span: nat)
    requires span > 0
  {
    && t.head <= n < |t.hist|
    && t.hist[n].result.None?
    && s.dest == n % span
    && var instr := t.hist[n].instr;
       instr.AluInstr? && s.op == instr.op && s.wordOp == instr.wordOp &&
       OperandOk(s.s1, instr.src1, t.hist, span) && OperandOk(s.s2, instr.src2, t.hist, span)
  }

  /** A recorded ALU result is the operation applied to the producers' results. */
  predicate ResultOk(hist: seq<Entry>, n: nat)
    requires n < |hist|
  {
    var e := hist[n];
    e.instr.AluInstr? && e.result.Some? ==>
      var v1, v2 := SourceValue(hist, e.instr.src1), SourceValue(hist, e.instr.src2);
      v1.Some? && v2.Some? && e.result.value == AluExec(e.instr.op, e.instr.wordOp, v1.value, v2.value)
  }

  predicate EntryLegal(hist: seq<Entry>, n: nat)
    requires n < |hist|
  {
    hist[n].instr.AluInstr? ==>
      SourceLegal(hist[n].instr.src1, hist, n) && SourceLegal(hist[n].instr.src2, hist, n)
  }

  ghost predicate ThreadOk(t: Thread, span: nat) {
    && t.head <= |t.hist| <= t.head + span
    && (forall n :: 0 <= n < t.head ==> Done(t.hist[n]))
    && (forall n :: 0 <= n < |t.hist| ==> EntryLegal(t.hist, n))
    && (forall n :: 0 <= n < |t.hist| ==> ResultOk(t.hist, n))
  }

  predicate Holds(w: World, i: nat, tid: bool, n: nat)
    requires |w.owner| == |w.slots|
  {
    i < |w.slots| && w.slots[i].busy && w.slots[i].tid == tid && w.owner[i] == n
  }

  predicate Pending(t: Thread, n: nat) {
    n < |t.hist| && t.hist[n].instr.AluInstr? && t.hist[n].result.None?
  }

  ghost predicate Resident(w: World, tid: bool, n: nat)
    requires |w.owner| == |w.slots|
  {
    exists i: nat :: Holds(w, i, tid, n)
  }

  /** Resident slots and un-broadcast ALU instructions correspond one to one. */
  ghost predicate Inv(w: World, span: nat)
    requires span > 0
  {
    && |w.owner| == |w.slots|
    && ThreadOk(w.t0, span) && ThreadOk(w.t1, span)
    && (forall i :: 0 <= i < |w.slots| && w.slots[i].busy ==>
          SlotOk(w.slots[i], w.owner[i], Of(w, w.slots[i].tid), span))
    && (forall i: nat, j: nat, tid, n :: Holds(w, i, tid, n) && Holds(w, j, tid, n) ==> i == j)
    && (forall tid, n: nat :: Pending(Of(w, tid), n) ==> Resident(w, tid, n))
  }
}
