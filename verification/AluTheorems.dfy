/** What every run of the shared ALU bank guarantees. */
module AluTheorems {
  import opened Words
  import opened Alu
  import opened AluRs
  import opened AluPicks
  import opened AluRun
  import opened AluRunProofs
  import opened Tags

  /** A run: an empty bank and empty programs, then allowed cycles only. */
  ghost predicate Run(ws: seq<World>, cs: seq<Cycle>, ins: seq<Inputs>, span: nat)
    requires span > 0
  {
    && |ws| == |cs| + 1 && |ins| == |cs|
    && |ws[0].owner| == |ws[0].slots|
    && (forall i :: 0 <= i < |ws[0].slots| ==> !ws[0].slots[i].busy)
    && ws[0].t0 == Thread([], 0) && ws[0].t1 == Thread([], 0)
    && forall k :: 0 <= k < |cs| ==>
         Allowed(ws[k], span, cs[k]) && Wired(ws[k], span, cs[k], ins[k]) &&
         ws[k + 1] == Next(ws[k], span, cs[k], ins[k])
  }

  lemma {:induction false} RunKeepsInv(ws: seq<World>, cs: seq<Cycle>, ins: seq<Inputs>, span: nat, k: nat)
    requires span > 0 && Run(ws, cs, ins, span) && k < |ws|
    ensures Inv(ws[k], span)
    decreases k
  {
    if k > 0 {
      RunKeepsInv(ws, cs, ins, span, k - 1);
      StepKeepsInv(ws[k - 1], span, cs[k - 1], ins[k - 1]);
    }
  }

  // ---- Out-of-order results are the in-order results --------------------

  function InOrderSource(hist: seq<Entry>, src: Source, n: nat): Option<Word>
    decreases n, 0
  {
    match src
    case Given(v) => Some(v)
    case From(p) => if p < n && p < |hist| then InOrder(hist, p) else None
  }

  /** One instruction evaluated in program order, taking other banks' results
      as they were broadcast. It never looks at the bank. */
  function InOrder(hist: seq<Entry>, n: nat): Option<Word>
    requires n < |hist|
    decreases n, 1
  {
    match hist[n].instr
    case AluInstr(op, wordOp, src1, src2) =>
      var a, b := InOrderSource(hist, src1, n), InOrderSource(hist, src2, n);
      if a.Some? && b.Some? then Some(AluExec(op, wordOp, a.value, b.value)) else None
    case Elsewhere => hist[n].result
    case Silent => None
  }

  lemma {:induction false} SettledIsInOrder(t: Thread, span: nat, n: nat)
    requires ThreadOk(t, span) && n < |t.hist|
    requires !t.hist[n].instr.Silent? && t.hist[n].result.Some?
    ensures InOrder(t.hist, n) == t.hist[n].result
    decreases n
  {
    assert EntryLegal(t.hist, n) && ResultOk(t.hist, n);
    if t.hist[n].instr.AluInstr? {
      SourceIsInOrder(t, span, t.hist[n].instr.src1, n);
      SourceIsInOrder(t, span, t.hist[n].instr.src2, n);
    }
  }

  lemma {:induction false} SourceIsInOrder(t: Thread, span: nat, src: Source, n: nat)
    requires ThreadOk(t, span) && n <= |t.hist|
    requires SourceLegal(src, t.hist, n) && SourceValue(t.hist, src).Some?
    ensures InOrderSource(t.hist, src, n) == SourceValue(t.hist, src)
    decreases n, 0
  {
    if src.From? { SettledIsInOrder(t, span, src.producer); }
  }

  /** Every broadcast ALU result in any run is the in-order result. */
  lemma ResultsAreInOrder(ws: seq<World>, cs: seq<Cycle>, ins: seq<Inputs>, span: nat, k: nat, tid: bool, n: nat)
    requires span > 0 && Run(ws, cs, ins, span) && k < |ws|
    requires n < |Of(ws[k], tid).hist|
    requires Of(ws[k], tid).hist[n].instr.AluInstr? && Of(ws[k], tid).hist[n].result.Some?
    ensures InOrder(Of(ws[k], tid).hist, n) == Of(ws[k], tid).hist[n].result
  {
    RunKeepsInv(ws, cs, ins, span, k);
    SettledIsInOrder(Of(ws[k], tid), span, n);
  }

  /** Every value an issue port offers in any run, under (tid, tag), is the
      in-order result of the one live instruction that tag names. */
  lemma OffersAreInOrder(ws: seq<World>, cs: seq<Cycle>, ins: seq<Inputs>, span: nat, k: nat, port: nat)
    requires span > 0 && Run(ws, cs, ins, span) && k < |ws|
    requires 1 <= port <= 3 && Port(ws[k], span, port).have
    ensures var i := Port(ws[k], span, port).idx;
            && i < |ws[k].slots| && i < |ws[k].owner|
            && var s, n := ws[k].slots[i], ws[k].owner[i];
               && Live(ws[k], s.tid, n) && s.dest == n % span
               && Of(ws[k], s.tid).hist[n].result.None?
               && InOrder(Of(ws[k], s.tid).hist, n) == Some(ReqValue(s))
  {
    var w := ws[k];
    RunKeepsInv(ws, cs, ins, span, k);
    IssuePickRange(w.slots, w.t0.head % span, w.t1.head % span);
    var i := Port(w, span, port).idx;
    var s, n := w.slots[i], w.owner[i];
    var t := Of(w, s.tid);
    assert EntryLegal(t.hist, n);
    SourceIsInOrder(t, span, t.hist[n].instr.src1, n);
    SourceIsInOrder(t, span, t.hist[n].instr.src2, n);
  }

  // ---- Residency, squash and priority in every run ----------------------

  /** In any run an instruction is in the bank exactly while it is dispatched,
      on the current path and not broadcast. */
  lemma ResidentIffPending(ws: seq<World>, cs: seq<Cycle>, ins: seq<Inputs>, span: nat, k: nat, tid: bool, n: nat)
    requires span > 0 && Run(ws, cs, ins, span) && k < |ws|
    ensures |ws[k].owner| == |ws[k].slots|
    ensures Resident(ws[k], tid, n) <==> Pending(Of(ws[k], tid), n)
  {
    RunKeepsInv(ws, cs, ins, span, k);
  }

  /** A resident slot survives a cycle exactly when it was not granted and is
      not younger than a branch its own thread squashes in that cycle, also
      when both threads squash on one edge. */
  lemma SurvivesIffNotYounger(ws: seq<World>, cs: seq<Cycle>, ins: seq<Inputs>, span: nat, k: nat, i: nat)
    requires span > 0 && Run(ws, cs, ins, span) && k < |cs|
    requires i < |ws[k].slots| && ws[k].slots[i].busy
    ensures |ws[k + 1].slots| == |ws[k].slots| == |ws[k].owner|
    ensures var squash := SquashOf(cs[k], ws[k].slots[i].tid);
            ws[k + 1].slots[i].busy <==>
              !Granted(ws[k].slots, ins[k], i) && !(squash.Some? && ws[k].owner[i] > squash.value)
  {
    RunKeepsInv(ws, cs, ins, span, k);
    SquashIsExact(ws[k], span, cs[k], ins[k], i);
    BusySlotNext(ws[k], span, cs[k], ins[k], i);
  }

  /** In any run a ready slot that is its thread's ROB head is offered on
      issue port 1 or 2. */
  lemma HeadIsOffered(ws: seq<World>, cs: seq<Cycle>, ins: seq<Inputs>, span: nat, k: nat, h: nat)
    requires span > 0 && Run(ws, cs, ins, span) && k < |ws|
    requires h < |ws[k].slots| && h < |ws[k].owner| && Ready(ws[k].slots[h])
    requires ws[k].owner[h] == Of(ws[k], ws[k].slots[h].tid).head
    ensures Took(Port(ws[k], span, 1), h) || Took(Port(ws[k], span, 2), h)
  {
    var w := ws[k];
    RunKeepsInv(ws, cs, ins, span, k);
    var head0, head1 := w.t0.head % span, w.t1.head % span;
    forall i, j | 0 <= i < j < |w.slots| && w.slots[i].busy && w.slots[j].busy && w.slots[i].tid == w.slots[j].tid
      ensures !(AtHead(w.slots, i, head0, head1) && AtHead(w.slots, j, head0, head1))
    {
      var tid := w.slots[i].tid;
      if AtHead(w.slots, i, head0, head1) && AtHead(w.slots, j, head0, head1) {
        var t := Of(w, tid);
        TagIsUnique(w.owner[i], t.head, t.head, span);
        TagIsUnique(w.owner[j], t.head, t.head, span);
        assert Holds(w, i, tid, t.head) && Holds(w, j, tid, t.head);
      }
    }
    HeadIsNeverStarved(w.slots, head0, head1, h);
  }

  /** In any run a resident slot is ready exactly when both its sources are
      known: given at dispatch, or broadcast by their producers since. */
  lemma ReadyIffKnown(ws: seq<World>, cs: seq<Cycle>, ins: seq<Inputs>, span: nat, k: nat, i: nat)
    requires span > 0 && Run(ws, cs, ins, span) && k < |ws|
    requires i < |ws[k].slots| && ws[k].slots[i].busy
    ensures |ws[k].owner| == |ws[k].slots|
    ensures var hist, n := Of(ws[k], ws[k].slots[i].tid).hist, ws[k].owner[i];
            && n < |hist| && hist[n].instr.AluInstr?
            && (Ready(ws[k].slots[i])
                <==> SourceValue(hist, hist[n].instr.src1).Some? && SourceValue(hist, hist[n].instr.src2).Some?)
  {
    RunKeepsInv(ws, cs, ins, span, k);
  }

  /** So an ALU instruction at the head of its ROB whose sources are known is
      on issue port 1 or 2 in that very cycle. */
  lemma KnownHeadIsOffered(ws: seq<World>, cs: seq<Cycle>, ins: seq<Inputs>, span: nat, k: nat, tid: bool) returns (i: nat)
    requires span > 0 && Run(ws, cs, ins, span) && k < |ws|
    requires var t := Of(ws[k], tid);
             && Pending(t, t.head)
             && SourceValue(t.hist, t.hist[t.head].instr.src1).Some? && SourceValue(t.hist, t.hist[t.head].instr.src2).Some?
    ensures |ws[k].owner| == |ws[k].slots| && Holds(ws[k], i, tid, Of(ws[k], tid).head)
    ensures Took(Port(ws[k], span, 1), i) || Took(Port(ws[k], span, 2), i)
  {
    RunKeepsInv(ws, cs, ins, span, k);
    assert Resident(ws[k], tid, Of(ws[k], tid).head);
    i :| Holds(ws[k], i, tid, Of(ws[k], tid).head);
    ReadyIffKnown(ws, cs, ins, span, k, i);
    HeadIsOffered(ws, cs, ins, span, k, i);
  }
}
