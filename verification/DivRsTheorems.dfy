/** Result ownership in the divide station, over whole runs. */
module DivRsTheorems {
  import opened Words
  import opened Divide
  import opened DivFu
  import opened DivFuProofs
  import opened DivFuTheorems
  import AluRs
  import opened Snooping
  import opened Tags
  import opened DivRs

  // ---- The ownership invariant ------------------------------------------

  predicate FuQuiet(fu: Fu) {
    fu.state == Idle && !fu.busy
  }

  ghost predicate FuWorking(fu: Fu, job: Job) {
    exists left :: 0 <= left && Phase(fu, job, left)
  }

  predicate OperandsReady(e: Entry) {
    e.s1.ready && e.s2.ready
  }

  /** Whatever the divider is doing for a resident entry, it does for it. */
  ghost predicate Owned(s: Rs) {
    && (FuQuiet(s.fu) || exists job :: FuWorking(s.fu, job))
    && (s.busy && !s.started ==> !s.haveResult && FuQuiet(s.fu) && !s.fu.done)
    && (s.busy && s.started && !s.haveResult ==> OperandsReady(s.entry) && FuWorking(s.fu, EntryJob(s.entry)))
    && (s.busy && s.started && s.haveResult ==>
          && OperandsReady(s.entry) && FuQuiet(s.fu) && !s.fu.done
          && s.resultQ == Quotient(EntryJob(s.entry)) && s.resultR == Remainder(EntryJob(s.entry)))
  }

  lemma FuAdvances(fu: Fu, inp: FuIn)
    requires FuQuiet(fu) || exists job :: FuWorking(fu, job)
    ensures FuQuiet(FuStep(fu, inp)) || exists job :: FuWorking(FuStep(fu, inp), job)
  {
    if FuQuiet(fu) {
      if inp.start {
        AcceptStarts(fu, inp);
        assert FuWorking(FuStep(fu, inp), inp.job);
      }
    } else {
      var job :| FuWorking(fu, job);
      var left :| 0 <= left && Phase(fu, job, left);
      if left > 0 {
        PhaseAdvances(fu, job, left, inp);
        assert FuWorking(FuStep(fu, inp), job);
      }
    }
  }

  lemma ResidentAdvances(s: Rs, inp: Inputs, span: nat)
    requires span > 0 && Owned(s) && s.busy
    ensures Owned(RsStep(s, inp, span))
  {
    var t := RsStep(s, inp, span);
    var fin := FuIn(Start(s), EntryJob(s.entry));
    FuAdvances(s.fu, fin);
    if t.busy {
      if Start(s) {
        AcceptStarts(s.fu, fin);
        assert FuWorking(t.fu, EntryJob(t.entry));
      } else if s.started && !s.haveResult {
        var left :| 0 <= left && Phase(s.fu, EntryJob(s.entry), left);
        if left > 0 {
          PhaseAdvances(s.fu, EntryJob(s.entry), left, fin);
          assert FuWorking(t.fu, EntryJob(t.entry));
        }
      }
    }
  }

  /** The gap, exactly: an allocation that `full` lets through keeps ownership
      if and only if the divider is not pulsing `done` in that cycle; if it is,
      the new entry claims the finished division at once. */
  lemma AllocationOwnedIffNotDone(s: Rs, inp: Inputs, span: nat)
    requires span > 0 && Owned(s) && inp.allocReq && !Full(s)
    ensures Owned(RsStep(s, inp, span)) <==> !s.fu.done
    ensures var t := RsStep(s, inp, span);
            && t.busy && t.entry == inp.alloc
            && (ReqValid(t) <==> s.fu.done)
            && (s.fu.done ==> t.resultQ == s.fu.quotient && t.resultR == s.fu.remainder)
  {
    FuAdvances(s.fu, FuIn(Start(s), EntryJob(s.entry)));
  }

  lemma IdleAdvances(s: Rs, inp: Inputs, span: nat)
    requires span > 0 && Owned(s) && !s.busy && !inp.allocReq
    ensures Owned(RsStep(s, inp, span))
  {
    FuAdvances(s.fu, FuIn(Start(s), EntryJob(s.entry)));
  }

  // ---- Runs -------------------------------------------------------------

  /** Dispatch honours `full`, and never allocates under a `done` pulse. */
  predicate Guarded(s: Rs, inp: Inputs) {
    inp.allocReq ==> !Full(s) && !s.fu.done
  }

  ghost predicate Run(ss: seq<Rs>, ins: seq<Inputs>, span: nat)
    requires span > 0
  {
    && |ss| == |ins| + 1
    && !ss[0].busy && FuQuiet(ss[0].fu) && !ss[0].fu.done
    && forall k :: 0 <= k < |ins| ==> ss[k + 1] == RsStep(ss[k], ins[k], span)
  }

  ghost predicate GuardedRun(ss: seq<Rs>, ins: seq<Inputs>, span: nat)
    requires span > 0
  {
    Run(ss, ins, span) && forall k :: 0 <= k < |ins| ==> Guarded(ss[k], ins[k])
  }

  lemma {:induction false} RunKeepsOwned(ss: seq<Rs>, ins: seq<Inputs>, span: nat, k: nat)
    requires span > 0 && GuardedRun(ss, ins, span) && k < |ss|
    ensures Owned(ss[k])
    decreases k
  {
    if k > 0 {
      RunKeepsOwned(ss, ins, span, k - 1);
      var s, inp := ss[k - 1], ins[k - 1];
      assert Guarded(s, inp);
      if s.busy {
        ResidentAdvances(s, inp, span);
      } else if inp.allocReq {
        AllocationOwnedIffNotDone(s, inp, span);
      } else {
        IdleAdvances(s, inp, span);
      }
    }
  }

  // ---- Which operands an entry holds ------------------------------------

  /** The result buses of cycles j to k - 1. */
  function BusesOf(ins: seq<Inputs>, j: nat, k: nat): seq<AluRs.Buses>
    requires j <= k <= |ins|
  {
    seq(k - j, i requires 0 <= i < k - j => ins[j + i].buses)
  }

  /** The entry dispatched in cycle `j`, as it must look in cycle `k`. */
  function Dispatched(ins: seq<Inputs>, j: nat, k: nat): Entry
    requires j < k <= |ins|
  {
    var a := ins[j].alloc;
    var cycles := BusesOf(ins, j + 1, k);
    a.(s1 := Received(a.s1, cycles, a.tid), s2 := Received(a.s2, cycles, a.tid))
  }

  /** Cycle `j` dispatched the entry resident in cycle `k`, and nothing has
      vacated or replaced it since. */
  ghost predicate DispatchedAt(ss: seq<Rs>, ins: seq<Inputs>, j: nat, k: nat)
    requires |ss| == |ins| + 1
  {
    && j < k < |ss| && Accepts(ss[j], ins[j])
    && (forall i :: j < i <= k ==> ss[i].busy)
    && ss[k].entry == Dispatched(ins, j, k)
  }

  lemma {:induction false} ResidentWasDispatched(ss: seq<Rs>, ins: seq<Inputs>, span: nat, k: nat) returns (j: nat)
    requires span > 0 && Run(ss, ins, span) && k < |ss| && ss[k].busy
    ensures DispatchedAt(ss, ins, j, k)
    decreases k
  {
    assert ss[k] == RsStep(ss[k - 1], ins[k - 1], span);
    if ss[k - 1].busy {
      j := ResidentWasDispatched(ss, ins, span, k - 1);
      var a := ins[j].alloc;
      assert BusesOf(ins, j + 1, k) == BusesOf(ins, j + 1, k - 1) + [ins[k - 1].buses];
      ReceivedStep(a.s1, BusesOf(ins, j + 1, k - 1), a.tid, ins[k - 1].buses);
      ReceivedStep(a.s2, BusesOf(ins, j + 1, k - 1), a.tid, ins[k - 1].buses);
    } else {
      j := k - 1;
      assert BusesOf(ins, j + 1, k) == [];
    }
  }

  /** In every guarded run each offered result is the division of exactly the
      operands given to that entry at dispatch or broadcast to it since; a
      squashed division's result is never offered. */
  lemma OffersOwnDivision(ss: seq<Rs>, ins: seq<Inputs>, span: nat, k: nat) returns (j: nat)
    requires span > 0 && GuardedRun(ss, ins, span) && k < |ss| && ReqValid(ss[k])
    ensures DispatchedAt(ss, ins, j, k)
    ensures var e := Dispatched(ins, j, k);
            && e.s1.ready && e.s2.ready
            && ReqValue(ss[k]) == UnitResult(e.op, e.wordOp, e.s1.val, e.s2.val)
  {
    RunKeepsOwned(ss, ins, span, k);
    j := ResidentWasDispatched(ss, ins, span, k);
  }

  // ---- Squash -----------------------------------------------------------

  /** Against unbounded sequence numbers, for every head position: the entry is
      squashed exactly when its own thread's port names an older instruction.
      The other thread's port is left unconstrained. */
  lemma SquashIsExact(s: Rs, inp: Inputs, span: nat, head: nat, n: nat, branch: nat)
    requires span > 0 && s.busy && s.entry.dest == n % span
    requires head <= n < head + span && head <= branch < head + span
    requires var port := if s.entry.tid then inp.squash1 else inp.squash0;
             var tag := if s.entry.tid then inp.head1 else inp.head0;
             tag == head % span && (port.valid ==> port.tag == branch % span)
    ensures EntrySquashed(s, inp, span) <==> (if s.entry.tid then inp.squash1 else inp.squash0).valid && n > branch
  {
    TagAge(n, head, span);
    TagAge(branch, head, span);
  }

  /** A granted or squashed entry is gone: nothing is offered again until the
      station accepts another. */
  lemma {:induction false} GoneStaysGone(ss: seq<Rs>, ins: seq<Inputs>, span: nat, j: nat, k: nat)
    requires span > 0 && Run(ss, ins, span) && j < k < |ss|
    requires (ReqValid(ss[j]) && ins[j].grant) || EntrySquashed(ss[j], ins[j], span)
    requires forall i :: j < i < k ==> !Accepts(ss[i], ins[i])
    ensures !ss[k].busy && !ReqValid(ss[k])
    decreases k
  {
    hide EntrySquashed, NextEntry, FuStep;
    if k > j + 1 { GoneStaysGone(ss, ins, span, j, k - 1); }
    assert ss[k] == RsStep(ss[k - 1], ins[k - 1], span);
  }

  // ---- Progress ---------------------------------------------------------

  /** A resident entry with both operands that is not squashed offers its
      result exactly `Latency` + 1 edges after the divider starts it. */
  lemma {:induction false} OfferedOnSchedule(ss: seq<Rs>, ins: seq<Inputs>, span: nat, k: nat, n: nat)
    requires span > 0 && GuardedRun(ss, ins, span) && k + n < |ss|
    requires ss[k].busy && !ss[k].started && OperandsReady(ss[k].entry)
    requires forall i :: k <= i < k + n ==> !EntrySquashed(ss[i], ins[i], span)
    requires 1 <= n <= Latency(EntryJob(ss[k].entry)) + 1
    ensures var s, job := ss[k + n], EntryJob(ss[k].entry);
            && s.busy && s.started && EntryJob(s.entry) == job && OperandsReady(s.entry)
            && (n <= Latency(job) ==> !ReqValid(s) && Phase(s.fu, job, Latency(job) - n))
            && (n == Latency(job) + 1 ==> ReqValid(s))
    decreases n
  {
    var job := EntryJob(ss[k].entry);
    var s, inp := ss[k + n - 1], ins[k + n - 1];
    assert ss[k + n] == RsStep(s, inp, span);
    if n == 1 {
      RunKeepsOwned(ss, ins, span, k);
      AcceptStarts(s.fu, FuIn(true, job));
    } else {
      OfferedOnSchedule(ss, ins, span, k, n - 1);
      if n <= Latency(job) {
        PhaseAdvances(s.fu, job, Latency(job) - (n - 1), FuIn(Start(s), EntryJob(s.entry)));
      }
    }
  }

  // ---- The gap as it stands ---------------------------------------------

  function Waiting(tid: bool, dest: nat, a: Word, b: Word): Entry {
    Entry(tid, Divu, false, AluRs.Operand(true, a, 0), AluRs.Operand(true, b, 0), dest)
  }

  function Pins(alloc: Option<Entry>, squash0: AluRs.SquashPort, idle: Entry): Inputs {
    var quiet := AluRs.Bus(false, false, 0, 0);
    Inputs(alloc.Some?, if alloc.Some? then alloc.value else idle, AluRs.Buses(quiet, quiet, quiet), false,
           0, 0, squash0, AluRs.SquashPort(false, 0))
  }

  /** A run that honours `full` in every cycle and still broadcasts a squashed
      division under another instruction: 7 divu 0 with tag 1 is squashed as it
      finishes, 6 divu 3 with tag 2 is allocated under the `done` pulse, and is
      offered all-ones instead of 2. */
  lemma StaleCaptureIsReachable(held: Held, path: Path) returns (ss: seq<Rs>, ins: seq<Inputs>)
    ensures Run(ss, ins, 8) && |ss| == 5
    ensures forall k :: 0 <= k < |ins| && ins[k].allocReq ==> !Full(ss[k])
    ensures ReqValid(ss[4]) && ss[4].entry == Waiting(false, 2, 6, 3)
    ensures ReqValue(ss[4]) == TWO64 - 1 && UnitResult(Divu, false, 6, 3) == 2
  {
    var first, second := Waiting(false, 1, 7, 0), Waiting(false, 2, 6, 3);
    var none, branch := AluRs.SquashPort(false, 0), AluRs.SquashPort(true, 0);
    var s0 := Rs(false, first, false, false, 0, 0, Fu(Idle, false, false, 0, 0, held, path));
    ins := [Pins(Some(first), none, first), Pins(None, none, first), Pins(None, branch, first),
            Pins(Some(second), none, first)];
    var s1 := RsStep(s0, ins[0], 8);
    var s2 := RsStep(s1, ins[1], 8);
    var s3 := RsStep(s2, ins[2], 8);
    var s4 := RsStep(s3, ins[3], 8);
    ss := [s0, s1, s2, s3, s4];
    assert s1.busy && Start(s1) && s1.fu.state == Idle;
    assert s2.busy && s2.fu.state == Finish;
    assert !s3.busy && s3.fu.done && !s3.fu.busy && s3.fu.quotient == TWO64 - 1;
  }
}
