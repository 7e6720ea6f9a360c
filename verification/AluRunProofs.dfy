/** The ALU bank keeps its invariant in every allowed cycle, hence over every
    run: right operands, no lost slot, exact squash. */
module AluRunProofs {
  import opened Words
  import opened Alu
  import opened AluRs
  import opened AluPicks
  import opened AluRun
  import opened Tags

  // ---- Histories --------------------------------------------------------

  lemma KeptEntry(w: World, span: nat, c: Cycle, tid: bool, n: nat)
    requires span > 0 && n < KeptLength(w, c, tid)
    ensures var hist := NextThread(w, span, c, tid).hist;
            n < |hist| && hist[n] == Recorded(w, span, c, tid, n)
  {
  }

  lemma LaneEntry(w: World, span: nat, c: Cycle, k: nat)
    requires span > 0 && 1 <= k <= 3 && LaneOf(c, k).Dispatch?
    ensures var l := LaneOf(c, k);
            var hist := NextThread(w, span, c, l.tid).hist;
            && KeptLength(w, c, l.tid) <= Position(w, c, k) < |hist|
            && hist[Position(w, c, k)] == Entry(l.instr, None)
  {
  }

  /** Every position of the next history is an old one or a lane's. */
  lemma NextPositions(w: World, span: nat, c: Cycle, tid: bool, n: nat) returns (k: nat)
    requires span > 0 && KeptLength(w, c, tid) <= n < |NextThread(w, span, c, tid).hist|
    ensures 1 <= k <= 3 && LaneOf(c, k).Dispatch? && LaneOf(c, k).tid == tid && Position(w, c, k) == n
  {
    var len := KeptLength(w, c, tid);
    var n1, n2 := |LanePart(c.lane1, tid)|, |LanePart(c.lane2, tid)|;
    k := if n < len + n1 then 1 else if n < len + n1 + n2 then 2 else 3;
  }

  lemma PositionsDiffer(w: World, c: Cycle, j: nat, k: nat)
    requires 1 <= j < k <= 3 && LaneOf(c, j).Dispatch? && LaneOf(c, k).Dispatch?
    requires LaneOf(c, j).tid == LaneOf(c, k).tid
    ensures Position(w, c, j) < Position(w, c, k)
  {
  }

  // ---- Broadcasts -------------------------------------------------------

  predicate Live(w: World, tid: bool, n: nat) {
    Of(w, tid).head <= n < |Of(w, tid).hist|
  }

  /** A bus carries a live result that was not broadcast before. */
  lemma CastIsLive(w: World, span: nat, d: Drive)
    requires span > 0 && Inv(w, span) && DriveAllowed(w, span, d)
    requires CastOn(w, span, d).Some?
    ensures var cast := CastOn(w, span, d).value;
            Live(w, cast.tid, cast.n) && Of(w, cast.tid).hist[cast.n].result.None?
  {
    IssuePickRange(w.slots, w.t0.head % span, w.t1.head % span);
  }

  lemma BusHits(w: World, span: nat, d: Drive, bus: Bus, tid: bool, p: nat)
    requires span > 0 && Inv(w, span) && DriveAllowed(w, span, d)
    requires BusWired(bus, CastOn(w, span, d), span) && Live(w, tid, p)
    ensures Hit(bus, tid, p % span) <==> Targets(CastOn(w, span, d), tid, p)
  {
    if CastOn(w, span, d).Some? {
      CastIsLive(w, span, d);
      var cast := CastOn(w, span, d).value;
      if cast.tid == tid && cast.n % span == p % span {
        TagIsUnique(cast.n, p, Of(w, tid).head, span);
      }
    }
  }

  /** Snooping by tag captures exactly the producer's own broadcast. */
  lemma SnoopFollowsProducer(w: World, span: nat, c: Cycle, inp: Inputs, tid: bool, o: Operand, p: nat)
    requires span > 0 && Inv(w, span) && Allowed(w, span, c) && Wired(w, span, c, inp)
    requires Live(w, tid, p) && !o.ready && o.tag == p % span
    ensures var v := CastFor(w, span, c, tid, p);
            SnoopOperand(o, tid, inp.buses) == if v.Some? then o.(ready := true, val := v.value) else o
  {
    BusHits(w, span, c.driveA, inp.buses.A, tid, p);
    BusHits(w, span, c.driveB, inp.buses.B, tid, p);
    BusHits(w, span, c.driveC, inp.buses.C, tid, p);
  }

  lemma CastForUnsettled(w: World, span: nat, c: Cycle, tid: bool, n: nat)
    requires span > 0 && Inv(w, span) && Allowed(w, span, c)
    requires CastFor(w, span, c, tid, n).Some?
    ensures Live(w, tid, n) && Of(w, tid).hist[n].result.None?
  {
    if Targets(CastOn(w, span, c.driveA), tid, n) { CastIsLive(w, span, c.driveA); }
    if Targets(CastOn(w, span, c.driveB), tid, n) { CastIsLive(w, span, c.driveB); }
    if Targets(CastOn(w, span, c.driveC), tid, n) { CastIsLive(w, span, c.driveC); }
  }

  /** An operand that was right stays right across the cycle. */
  lemma OperandStaysOk(w: World, span: nat, c: Cycle, inp: Inputs, tid: bool, n: nat, o: Operand, src: Source)
    requires span > 0 && Inv(w, span) && Allowed(w, span, c) && Wired(w, span, c, inp)
    requires n < KeptLength(w, c, tid) && SourceLegal(src, Of(w, tid).hist, n)
    requires OperandOk(o, src, Of(w, tid).hist, span)
    ensures OperandOk(SnoopOperand(o, tid, inp.buses), src, NextThread(w, span, c, tid).hist, span)
  {
    var t := Of(w, tid);
    if src.From? {
      var p := src.producer;
      KeptEntry(w, span, c, tid, p);
      if t.hist[p].result.Some? {
        if CastFor(w, span, c, tid, p).Some? { CastForUnsettled(w, span, c, tid, p); }
      } else {
        assert Live(w, tid, p);
        SnoopFollowsProducer(w, span, c, inp, tid, o, p);
      }
    }
  }

  lemma SourceValueStays(w: World, span: nat, c: Cycle, tid: bool, n: nat, src: Source)
    requires span > 0 && Inv(w, span) && Allowed(w, span, c)
    requires n < KeptLength(w, c, tid) && SourceLegal(src, Of(w, tid).hist, n)
    requires SourceValue(Of(w, tid).hist, src).Some?
    ensures SourceValue(NextThread(w, span, c, tid).hist, src) == SourceValue(Of(w, tid).hist, src)
  {
    if src.From? {
      KeptEntry(w, span, c, tid, src.producer);
      if CastFor(w, span, c, tid, src.producer).Some? { CastForUnsettled(w, span, c, tid, src.producer); }
    }
  }

  // ---- Grants -----------------------------------------------------------

  predicate Driven(c: Cycle, k: nat) {
    c.driveA == BankPort(k) || c.driveB == BankPort(k) || c.driveC == BankPort(k)
  }

  /** A broadcast for an ALU instruction comes from this bank's own offer. */
  lemma AluCastIsOffer(w: World, span: nat, c: Cycle, tid: bool, n: nat) returns (k: nat)
    requires span > 0 && Inv(w, span) && Allowed(w, span, c)
    requires n < |Of(w, tid).hist| && Of(w, tid).hist[n].instr.AluInstr?
    requires CastFor(w, span, c, tid, n).Some?
    ensures ValidPort(w, span, k) && Driven(c, k)
    ensures Holds(w, Port(w, span, k).idx, tid, n) && Ready(w.slots[Port(w, span, k).idx])
    ensures CastFor(w, span, c, tid, n).value == ReqValue(w.slots[Port(w, span, k).idx])
  {
    IssuePickRange(w.slots, w.t0.head % span, w.t1.head % span);
    var d := if Targets(CastOn(w, span, c.driveA), tid, n) then c.driveA
             else if Targets(CastOn(w, span, c.driveB), tid, n) then c.driveB
             else c.driveC;
    assert d.BankPort?;
    k := d.port;
  }

  lemma GrantedIsCast(w: World, span: nat, c: Cycle, inp: Inputs, i: nat)
    requires span > 0 && |w.owner| == |w.slots| && Wired(w, span, c, inp)
    requires i < |w.slots| && Granted(w.slots, inp, i)
    ensures CastFor(w, span, c, w.slots[i].tid, w.owner[i]).Some?
  {
    var k := if inp.grant1 && Took(Port(w, span, 1), i) then 1
             else if inp.grant2 && Took(Port(w, span, 2), i) then 2 else 3;
    assert Took(Port(w, span, k), i);
    assert Driven(c, k) && ValidPort(w, span, k);
    DrivenIsCast(w, span, c, k);
  }

  lemma DrivenIsCast(w: World, span: nat, c: Cycle, k: nat)
    requires span > 0 && Driven(c, k) && ValidPort(w, span, k)
    ensures var i := Port(w, span, k).idx;
            CastFor(w, span, c, w.slots[i].tid, w.owner[i]).Some?
  {
    var d := BankPort(k);
    assert CastOn(w, span, d).Some?;
  }

  lemma CastIsGranted(w: World, span: nat, c: Cycle, inp: Inputs, i: nat)
    requires span > 0 && Inv(w, span) && Allowed(w, span, c) && Wired(w, span, c, inp)
    requires i < |w.slots| && w.slots[i].busy
    requires CastFor(w, span, c, w.slots[i].tid, w.owner[i]).Some?
    ensures Granted(w.slots, inp, i)
  {
    var tid, n := w.slots[i].tid, w.owner[i];
    var k := AluCastIsOffer(w, span, c, tid, n);
    assert Holds(w, i, tid, n);
    assert Port(w, span, k).idx == i;
    DrivenIsGranted(w, span, c, inp, k, i);
  }

  lemma DrivenIsGranted(w: World, span: nat, c: Cycle, inp: Inputs, k: nat, i: nat)
    requires span > 0 && Wired(w, span, c, inp)
    requires ValidPort(w, span, k) && Driven(c, k) && Port(w, span, k).idx == i
    ensures Granted(w.slots, inp, i)
  {
  }

  /** A slot is granted exactly when its own instruction is broadcast. */
  lemma GrantedIffCast(w: World, span: nat, c: Cycle, inp: Inputs, i: nat)
    requires span > 0 && Inv(w, span) && Allowed(w, span, c) && Wired(w, span, c, inp)
    requires i < |w.slots| && w.slots[i].busy
    ensures Granted(w.slots, inp, i) <==> CastFor(w, span, c, w.slots[i].tid, w.owner[i]).Some?
  {
    if CastFor(w, span, c, w.slots[i].tid, w.owner[i]).Some? { CastIsGranted(w, span, c, inp, i); }
    if Granted(w.slots, inp, i) { GrantedIsCast(w, span, c, inp, i); }
  }

  // ---- Squash -----------------------------------------------------------

  /** The wrapped tag comparison clears a slot exactly when its instruction is
      younger than its own thread's mispredicted branch. */
  lemma SquashIsExact(w: World, span: nat, c: Cycle, inp: Inputs, i: nat)
    requires span > 0 && Inv(w, span) && Allowed(w, span, c) && Wired(w, span, c, inp)
    requires i < |w.slots| && w.slots[i].busy
    ensures var squash := SquashOf(c, w.slots[i].tid);
            Squashed(w.slots[i], inp, span) <==> squash.Some? && w.owner[i] > squash.value
  {
    var tid := w.slots[i].tid;
    var t := Of(w, tid);
    TagAge(w.owner[i], t.head, span);
    if SquashOf(c, tid).Some? { TagAge(SquashOf(c, tid).value, t.head, span); }
  }

  // ---- Slots ------------------------------------------------------------

  predicate Leaves(w: World, span: nat, c: Cycle, inp: Inputs, i: nat)
    requires span > 0 && i < |w.slots|
  {
    Granted(w.slots, inp, i) || Squashed(w.slots[i], inp, span)
  }

  /** A resident slot is snooped, and cleared when it leaves. */
  lemma BusySlotNext(w: World, span: nat, c: Cycle, inp: Inputs, i: nat)
    requires span > 0 && |w.owner| == |w.slots| && Wired(w, span, c, inp)
    requires i < |w.slots| && w.slots[i].busy
    ensures !Fills(w, c, 1, i) && !Fills(w, c, 2, i) && !Fills(w, c, 3, i)
    ensures var w' := Next(w, span, c, inp);
            w'.owner[i] == w.owner[i] &&
            w'.slots[i] == Clear(Snooped(w.slots[i], inp), Leaves(w, span, c, inp, i))
  {
    FreePickRange(w.slots, inp.a1.req, inp.a2.req);
    assert Next(w, span, c, inp).slots[i] == NextSlot(w.slots, inp, span, i);
  }

  /** A free slot is filled by the last lane that took it, or stays free. */
  lemma FreeSlotNext(w: World, span: nat, c: Cycle, inp: Inputs, i: nat)
    requires span > 0 && |w.owner| == |w.slots| && Wired(w, span, c, inp)
    requires i < |w.slots| && !w.slots[i].busy
    ensures var w' := Next(w, span, c, inp);
            if Fills(w, c, 3, i) then w'.owner[i] == Position(w, c, 3) && w'.slots[i] == Filled(inp.a3)
            else if Fills(w, c, 2, i) then w'.owner[i] == Position(w, c, 2) && w'.slots[i] == Filled(inp.a2)
            else if Fills(w, c, 1, i) then w'.owner[i] == Position(w, c, 1) && w'.slots[i] == Filled(inp.a1)
            else !w'.slots[i].busy
  {
    assert !Granted(w.slots, inp, i) by { IssuePickRange(w.slots, inp.head0, inp.head1); }
    assert Next(w, span, c, inp).slots[i] == NextSlot(w.slots, inp, span, i);
  }

  /** Two lanes never share a slot. */
  lemma LanesTakeDistinctSlots(w: World, span: nat, c: Cycle, inp: Inputs, j: nat, k: nat, i: nat)
    requires span > 0 && Wired(w, span, c, inp) && 1 <= j < k <= 3
    requires Fills(w, c, j, i)
    ensures !Fills(w, c, k, i)
  {
    var mask1 := FreeMask(w.slots);
    var (f1, f2, f3) := FreePicks(w.slots, inp.a1.req, inp.a2.req);
    var mask2 := Without(mask1, inp.a1.req, f1);
    LowestFromIsLowest(mask1, 0);
    LowestFromIsLowest(mask2, 0);
    LowestFromIsLowest(Without(mask2, inp.a2.req, f2), 0);
  }

  lemma FilledSlot(w: World, span: nat, c: Cycle, inp: Inputs, k: nat, i: nat)
    requires span > 0 && Inv(w, span) && Wired(w, span, c, inp)
    requires 1 <= k <= 3 && i < |w.slots| && Fills(w, c, k, i)
    ensures var w' := Next(w, span, c, inp);
            && !w.slots[i].busy && w'.owner[i] == Position(w, c, k)
            && w'.slots[i] == Filled(if k == 1 then inp.a1 else if k == 2 then inp.a2 else inp.a3)
  {
    FreePickRange(w.slots, inp.a1.req, inp.a2.req);
    FreeSlotNext(w, span, c, inp, i);
    if k < 3 { LanesTakeDistinctSlots(w, span, c, inp, k, 3, i); }
    if k < 2 { LanesTakeDistinctSlots(w, span, c, inp, k, 2, i); }
  }

  /** A busy slot of the next bank is a survivor or was filled by a lane. */
  lemma BusyNext(w: World, span: nat, c: Cycle, inp: Inputs, i: nat) returns (k: nat)
    requires span > 0 && Inv(w, span) && Wired(w, span, c, inp)
    requires i < |w.slots| && Next(w, span, c, inp).slots[i].busy
    ensures if k == 0 then w.slots[i].busy && !Leaves(w, span, c, inp, i)
            else k <= 3 && Fills(w, c, k, i)
  {
    if w.slots[i].busy { BusySlotNext(w, span, c, inp, i); } else { FreeSlotNext(w, span, c, inp, i); }
    k := if w.slots[i].busy then 0
         else if Fills(w, c, 3, i) then 3 else if Fills(w, c, 2, i) then 2 else 1;
  }

  lemma SurvivorKept(w: World, span: nat, c: Cycle, inp: Inputs, i: nat)
    requires span > 0 && Inv(w, span) && Allowed(w, span, c) && Wired(w, span, c, inp)
    requires i < |w.slots| && w.slots[i].busy && !Squashed(w.slots[i], inp, span)
    ensures w.owner[i] < KeptLength(w, c, w.slots[i].tid)
  {
    SquashIsExact(w, span, c, inp, i);
  }

  lemma SurvivorOk(w: World, span: nat, c: Cycle, inp: Inputs, i: nat)
    requires span > 0 && Inv(w, span) && Allowed(w, span, c) && Wired(w, span, c, inp)
    requires i < |w.slots| && w.slots[i].busy && !Leaves(w, span, c, inp, i)
    ensures var w' := Next(w, span, c, inp);
            w'.slots[i].tid == w.slots[i].tid && w'.owner[i] == w.owner[i] &&
            SlotOk(w'.slots[i], w'.owner[i], Of(w', w.slots[i].tid), span)
  {
    assert Next(w, span, c, inp).slots[i] == Snooped(w.slots[i], inp)
        && Next(w, span, c, inp).owner[i] == w.owner[i] by { BusySlotNext(w, span, c, inp, i); }
    assert CastFor(w, span, c, w.slots[i].tid, w.owner[i]).None? by { GrantedIffCast(w, span, c, inp, i); }
    SurvivorKept(w, span, c, inp, i);
    SnoopedOk(w, span, c, inp, w.slots[i], w.owner[i]);
  }

  /** A kept, un-broadcast instruction's slot is right after the snoop. */
  lemma SnoopedOk(w: World, span: nat, c: Cycle, inp: Inputs, s: Slot, n: nat)
    requires span > 0 && Inv(w, span) && Allowed(w, span, c) && Wired(w, span, c, inp)
    requires s.busy && SlotOk(s, n, Of(w, s.tid), span)
    requires n < KeptLength(w, c, s.tid) && CastFor(w, span, c, s.tid, n).None?
    ensures SlotOk(Snooped(s, inp), n, NextThread(w, span, c, s.tid), span)
  {
    var t, t' := Of(w, s.tid), NextThread(w, span, c, s.tid);
    var instr := t.hist[n].instr;
    KeptEntry(w, span, c, s.tid, n);
    assert EntryLegal(t.hist, n);
    OperandStaysOk(w, span, c, inp, s.tid, n, s.s1, instr.src1);
    OperandStaysOk(w, span, c, inp, s.tid, n, s.s2, instr.src2);
    assert ThreadAllowed(w, span, c, s.tid) && !Done(t'.hist[n]);
  }

  lemma FilledOk(w: World, span: nat, c: Cycle, inp: Inputs, k: nat, i: nat)
    requires span > 0 && Inv(w, span) && Allowed(w, span, c) && Wired(w, span, c, inp)
    requires 1 <= k <= 3 && i < |w.slots| && Fills(w, c, k, i)
    ensures var w' := Next(w, span, c, inp);
            w'.slots[i].busy && w'.slots[i].tid == LaneOf(c, k).tid &&
            SlotOk(w'.slots[i], w'.owner[i], Of(w', w'.slots[i].tid), span)
  {
    FilledSlot(w, span, c, inp, k, i);
    LaneEntry(w, span, c, k);
    var t' := NextThread(w, span, c, LaneOf(c, k).tid);
    assert !Done(t'.hist[Position(w, c, k)]);
  }

  // ---- Threads ----------------------------------------------------------

  lemma EntryStaysOk(w: World, span: nat, c: Cycle, tid: bool, n: nat)
    requires span > 0 && Inv(w, span) && Allowed(w, span, c)
    requires n < |NextThread(w, span, c, tid).hist|
    ensures EntryLegal(NextThread(w, span, c, tid).hist, n)
    ensures ResultOk(NextThread(w, span, c, tid).hist, n)
  {
    var t, t' := Of(w, tid), NextThread(w, span, c, tid);
    if n >= KeptLength(w, c, tid) {
      var k := NextPositions(w, span, c, tid, n);
      LaneEntry(w, span, c, k);
    } else {
      KeptEntry(w, span, c, tid, n);
      var instr := t.hist[n].instr;
      assert EntryLegal(t.hist, n) && ResultOk(t.hist, n);
      if instr.AluInstr? {
        SourceStaysLegal(w, span, c, tid, n, instr.src1);
        SourceStaysLegal(w, span, c, tid, n, instr.src2);
        if t'.hist[n].result.Some? {
          ResultStaysOk(w, span, c, tid, n);
        }
      }
    }
  }

  lemma SourceStaysLegal(w: World, span: nat, c: Cycle, tid: bool, n: nat, src: Source)
    requires span > 0 && n < KeptLength(w, c, tid) && SourceLegal(src, Of(w, tid).hist, n)
    ensures SourceLegal(src, NextThread(w, span, c, tid).hist, n)
  {
    if src.From? { KeptEntry(w, span, c, tid, src.producer); }
  }

  lemma ResultStaysOk(w: World, span: nat, c: Cycle, tid: bool, n: nat)
    requires span > 0 && Inv(w, span) && Allowed(w, span, c)
    requires n < KeptLength(w, c, tid) && Of(w, tid).hist[n].instr.AluInstr?
    ensures ResultOk(NextThread(w, span, c, tid).hist, n)
  {
    var t := Of(w, tid);
    var instr := t.hist[n].instr;
    KeptEntry(w, span, c, tid, n);
    assert EntryLegal(t.hist, n) && ResultOk(t.hist, n);
    var v := CastFor(w, span, c, tid, n);
    if v.Some? {
      CastForUnsettled(w, span, c, tid, n);
      var k := AluCastIsOffer(w, span, c, tid, n);
      var s := w.slots[Port(w, span, k).idx];
      assert SlotOk(s, n, t, span);
    }
    if v.Some? || t.hist[n].result.Some? {
      SourceValueStays(w, span, c, tid, n, instr.src1);
      SourceValueStays(w, span, c, tid, n, instr.src2);
    }
  }

  lemma ThreadStaysOk(w: World, span: nat, c: Cycle, tid: bool)
    requires span > 0 && Inv(w, span) && Allowed(w, span, c)
    ensures ThreadOk(NextThread(w, span, c, tid), span)
  {
    var t, t' := Of(w, tid), NextThread(w, span, c, tid);
    assert ThreadAllowed(w, span, c, tid);
    forall n | 0 <= n < |t'.hist|
      ensures EntryLegal(t'.hist, n) && ResultOk(t'.hist, n)
    {
      EntryStaysOk(w, span, c, tid, n);
    }
    forall n | 0 <= n < t.head
      ensures Done(t'.hist[n])
    {
      KeptEntry(w, span, c, tid, n);
    }
  }

  // ---- Residency --------------------------------------------------------

  lemma NextOwnersDistinct(w: World, span: nat, c: Cycle, inp: Inputs, i: nat, j: nat, tid: bool, n: nat)
    requires span > 0 && Inv(w, span) && Allowed(w, span, c) && Wired(w, span, c, inp)
    requires |w.owner| == |w.slots|
    requires Holds(Next(w, span, c, inp), i, tid, n) && Holds(Next(w, span, c, inp), j, tid, n)
    ensures i == j
  {
    var ki := BusyNext(w, span, c, inp, i);
    var kj := BusyNext(w, span, c, inp, j);
    OwnerRange(w, span, c, inp, i, ki);
    OwnerRange(w, span, c, inp, j, kj);
    if ki == 0 && kj == 0 {
      assert Holds(w, i, tid, n) && Holds(w, j, tid, n);
    } else if 0 < ki < kj {
      PositionsDiffer(w, c, ki, kj);
    } else if 0 < kj < ki {
      PositionsDiffer(w, c, kj, ki);
    }
  }

  lemma OwnerRange(w: World, span: nat, c: Cycle, inp: Inputs, i: nat, k: nat)
    requires span > 0 && Inv(w, span) && Allowed(w, span, c) && Wired(w, span, c, inp)
    requires i < |w.slots|
    requires if k == 0 then w.slots[i].busy && !Leaves(w, span, c, inp, i) else k <= 3 && Fills(w, c, k, i)
    ensures var w' := Next(w, span, c, inp);
            if k == 0
            then w'.owner[i] == w.owner[i] < KeptLength(w, c, w'.slots[i].tid) && w'.slots[i].tid == w.slots[i].tid
            else w'.owner[i] == Position(w, c, k) >= KeptLength(w, c, w'.slots[i].tid)
                 && w'.slots[i].tid == LaneOf(c, k).tid
  {
    if k == 0 {
      BusySlotNext(w, span, c, inp, i);
      SurvivorKept(w, span, c, inp, i);
    } else {
      FilledSlot(w, span, c, inp, k, i);
      LaneEntry(w, span, c, k);
    }
  }

  /** No dispatched ALU instruction is lost before it broadcasts. */
  lemma PendingStaysResident(w: World, span: nat, c: Cycle, inp: Inputs, tid: bool, n: nat)
    requires span > 0 && Inv(w, span) && Allowed(w, span, c) && Wired(w, span, c, inp)
    requires Pending(NextThread(w, span, c, tid), n)
    ensures Resident(Next(w, span, c, inp), tid, n)
  {
    var w' := Next(w, span, c, inp);
    if n < KeptLength(w, c, tid) {
      KeptEntry(w, span, c, tid, n);
      assert Pending(Of(w, tid), n);
      var i: nat :| Holds(w, i, tid, n);
      BusySlotNext(w, span, c, inp, i);
      GrantedIffCast(w, span, c, inp, i);
      SquashIsExact(w, span, c, inp, i);
      assert Holds(w', i, tid, n);
    } else {
      var k := NextPositions(w, span, c, tid, n);
      LaneEntry(w, span, c, k);
      FreePickRange(w.slots, inp.a1.req, inp.a2.req);
      var i := LaneSlot(w, c, k).idx;
      FilledSlot(w, span, c, inp, k, i);
      assert Holds(w', i, tid, n);
    }
  }

  /** One clock edge keeps the invariant, whatever the environment does. */
  lemma StepKeepsInv(w: World, span: nat, c: Cycle, inp: Inputs)
    requires span > 0 && Inv(w, span) && Allowed(w, span, c) && Wired(w, span, c, inp)
    ensures Inv(Next(w, span, c, inp), span)
  {
    var w' := Next(w, span, c, inp);
    ThreadStaysOk(w, span, c, false);
    ThreadStaysOk(w, span, c, true);
    forall i | 0 <= i < |w'.slots| && w'.slots[i].busy
      ensures SlotOk(w'.slots[i], w'.owner[i], Of(w', w'.slots[i].tid), span)
    {
      var k := BusyNext(w, span, c, inp, i);
      if k == 0 { SurvivorOk(w, span, c, inp, i); } else { FilledOk(w, span, c, inp, k, i); }
    }
    forall i: nat, j: nat, tid, n | Holds(w', i, tid, n) && Holds(w', j, tid, n)
      ensures i == j
    {
      NextOwnersDistinct(w, span, c, inp, i, j, tid, n);
    }
    forall tid, n: nat | Pending(Of(w', tid), n)
      ensures Resident(w', tid, n)
    {
      PendingStaysResident(w, span, c, inp, tid, n);
    }
  }
}
