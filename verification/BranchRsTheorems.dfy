/** Over every run of the branch station: acceptances and resolutions
    alternate, a pending return address is never lost, and each redirect is
    the one execute.v computes from the operands that instruction received. */
module BranchRsTheorems {
  import opened Words
  import opened Encode
  import AluRs
  import opened BranchRs
  import opened Snooping
  import Execute
  import DecodeOoo

  ghost predicate Run(ss: seq<Rs>, ins: seq<Inputs>, tid: bool) {
    && |ss| == |ins| + 1 && !ss[0].busy
    && forall k :: 0 <= k < |ins| ==> ss[k + 1] == RsStep(ss[k], ins[k], tid)
  }

  function BusesOf(ins: seq<Inputs>, j: nat, k: nat): seq<AluRs.Buses>
    requires j <= k <= |ins|
  {
    seq(k - j, i requires 0 <= i < k - j => ins[j + i].buses)
  }

  /** The instruction dispatched in cycle j, with what it has received by k. */
  function Dispatched(ins: seq<Inputs>, tid: bool, j: nat, k: nat): Entry
    requires j < k <= |ins|
  {
    var a := ins[j].alloc;
    a.(s1 := Received(a.s1, BusesOf(ins, j + 1, k), tid), s2 := Received(a.s2, BusesOf(ins, j + 1, k), tid))
  }

  lemma {:induction false} ResidentWasDispatched(ss: seq<Rs>, ins: seq<Inputs>, tid: bool, k: nat) returns (j: nat)
    requires Run(ss, ins, tid) && k < |ss| && ss[k].busy
    ensures j < k && Accepts(ss[j], ins[j]) && ss[k].entry == Dispatched(ins, tid, j, k)
    ensures forall i :: j < i <= k ==> ss[i].busy
    decreases k
  {
    assert ss[k] == RsStep(ss[k - 1], ins[k - 1], tid);
    if ss[k - 1].busy {
      j := ResidentWasDispatched(ss, ins, tid, k - 1);
      var a := ins[j].alloc;
      assert BusesOf(ins, j + 1, k) == BusesOf(ins, j + 1, k - 1) + [ins[k - 1].buses];
      ReceivedStep(a.s1, BusesOf(ins, j + 1, k - 1), tid, ins[k - 1].buses);
      ReceivedStep(a.s2, BusesOf(ins, j + 1, k - 1), tid, ins[k - 1].buses);
    } else {
      j := k - 1;
      assert BusesOf(ins, j + 1, k) == [];
    }
  }

  lemma {:induction false} StaysBusy(ss: seq<Rs>, ins: seq<Inputs>, tid: bool, j: nat, k: nat)
    requires Run(ss, ins, tid) && j < k < |ss| && Accepts(ss[j], ins[j])
    requires forall i :: j < i < k ==> !Vacates(ss[i], ins[i])
    ensures ss[k].busy
    decreases k
  {
    assert ss[k] == RsStep(ss[k - 1], ins[k - 1], tid);
    if k - 1 > j { StaysBusy(ss, ins, tid, j, k - 1); }
  }

  lemma {:induction false} StaysIdle(ss: seq<Rs>, ins: seq<Inputs>, tid: bool, j: nat, k: nat)
    requires Run(ss, ins, tid) && j < k < |ss| && Vacates(ss[j], ins[j])
    requires forall i :: j < i < k ==> !Accepts(ss[i], ins[i])
    ensures !ss[k].busy
    decreases k
  {
    assert ss[k] == RsStep(ss[k - 1], ins[k - 1], tid);
    if k - 1 > j { StaysIdle(ss, ins, tid, j, k - 1); }
  }

  /** Between two acceptances there is a resolution, and between two
      resolutions an acceptance: nothing is overwritten or resolved twice. */
  lemma Alternate(ss: seq<Rs>, ins: seq<Inputs>, tid: bool, j: nat, k: nat)
    requires Run(ss, ins, tid) && j < k < |ins|
    ensures Accepts(ss[j], ins[j]) && Accepts(ss[k], ins[k]) ==> exists i :: j < i < k && Vacates(ss[i], ins[i])
    ensures Vacates(ss[j], ins[j]) && Vacates(ss[k], ins[k]) ==> exists i :: j < i < k && Accepts(ss[i], ins[i])
  {
    if Accepts(ss[j], ins[j]) && Accepts(ss[k], ins[k]) && forall i :: j < i < k ==> !Vacates(ss[i], ins[i]) {
      StaysBusy(ss, ins, tid, j, k);
    }
    if Vacates(ss[j], ins[j]) && Vacates(ss[k], ins[k]) && forall i :: j < i < k ==> !Accepts(ss[i], ins[i]) {
      StaysIdle(ss, ins, tid, j, k);
    }
  }

  /** A return address on offer stays on offer, unchanged, until granted. */
  lemma {:induction false} OfferStands(ss: seq<Rs>, ins: seq<Inputs>, tid: bool, j: nat, k: nat)
    requires Run(ss, ins, tid) && j <= k < |ss| && ReqValid(ss[j])
    requires forall i :: j <= i < k ==> !ins[i].grant
    ensures ReqValid(ss[k]) && ReqValue(ss[k]) == ReqValue(ss[j]) && ss[k].entry.dest == ss[j].entry.dest
    ensures NextPc(ss[k]) == NextPc(ss[j])
    decreases k
  {
    if j < k {
      OfferStands(ss, ins, tid, j, k - 1);
      assert ss[k] == RsStep(ss[k - 1], ins[k - 1], tid);
      assert !ins[k - 1].grant;
    }
  }

  /** What dispatch hands the station for a branch-class instruction. */
  predicate Presents(a: Entry, w: Half, pc: Word) {
    && a.class_ == DecodeOoo.Classify(w).class_ && a.f3 == Func3(w) && a.pc == pc && a.imm == DecodeOoo.ScalarImm(w)
    && a.class_ in {DecodeOoo.ToBranch, DecodeOoo.ToJal, DecodeOoo.ToJalr}
  }

  /** Each resolution redirects to exactly where the single-cycle core would
      go, with the operand values this instruction was given at dispatch or
      received from its own thread's broadcasts; the link value agrees too. */
  lemma ResolvesAsExecuted(ss: seq<Rs>, ins: seq<Inputs>, tid: bool, k: nat) returns (j: nat)
    requires Run(ss, ins, tid) && k < |ins| && Vacates(ss[k], ins[k])
    ensures j < k && Accepts(ss[j], ins[j]) && ss[k].entry == Dispatched(ins, tid, j, k)
    ensures forall w: Half, pc: Word :: Presents(ins[j].alloc, w, pc) ==> Executed(ss[k], w, pc)
  {
    j := ResidentWasDispatched(ss, ins, tid, k);
    forall w: Half, pc: Word | Presents(ins[j].alloc, w, pc) ensures Executed(ss[k], w, pc) {
      SlotIsExecuted(ss[k], w, pc);
    }
  }

  /** The slot's redirect and link are what the single-cycle core does with the
      operands it holds. */
  ghost predicate Executed(s: Rs, w: Half, pc: Word) {
    var e := s.entry;
    var effect := DecodeOoo.InOrder(w, e.s1.val, e.s2.val, pc);
    Settled(e, w, pc) && NextPc(s) == effect.nextPc && (HasResult(e) ==> effect.rdValue == Some(ReqValue(s)))
  }

  /** Whatever an operand still awaited turns out to be, the core would go to
      the same place. */
  ghost predicate Settled(e: Entry, w: Half, pc: Word) {
    forall x: Word, y: Word :: (e.s1.ready ==> x == e.s1.val) && (e.s2.ready ==> y == e.s2.val) ==>
      DecodeOoo.InOrder(w, x, y, pc).nextPc == DecodeOoo.InOrder(w, e.s1.val, e.s2.val, pc).nextPc
  }

  lemma SlotIsExecuted(s: Rs, w: Half, pc: Word)
    requires Ready(s) && Presents(s.entry, w, pc)
    ensures Executed(s, w, pc)
  {
    var a, b := s.entry.s1.val, s.entry.s2.val;
    BranchClass(w);
    forall x: Word, y: Word | (s.entry.s1.ready ==> x == a) && (s.entry.s2.ready ==> y == b)
      ensures DecodeOoo.InOrder(w, x, y, pc).nextPc == DecodeOoo.InOrder(w, a, b, pc).nextPc
    {
      DecodeOoo.SameNextPc(w, x, y, pc);
      DecodeOoo.SameNextPc(w, a, b, pc);
      OooBranch(w, x, y, pc);
      OooBranch(w, a, b, pc);
      UnreadOperand(s.entry, pc, x, y);
    }
    DecodeOoo.SameNextPc(w, a, b, pc);
    DecodeOoo.SameLink(w, a, b, pc);
    OooBranch(w, a, b, pc);
    hide DecodeOoo.InOrder, DecodeOoo.OutOfOrder, DecodeOoo.Classify, DecodeOoo.Target, DecodeOoo.ScalarImm, Func3;
  }

  lemma UnreadOperand(e: Entry, pc: Word, x: Word, y: Word)
    requires OperandsIn(e) && e.class_ in {DecodeOoo.ToBranch, DecodeOoo.ToJal, DecodeOoo.ToJalr}
    requires (e.s1.ready ==> x == e.s1.val) && (e.s2.ready ==> y == e.s2.val)
    ensures DecodeOoo.Target(e.class_, e.f3, pc, e.imm, x, y) == DecodeOoo.Target(e.class_, e.f3, pc, e.imm, e.s1.val, e.s2.val)
  {
  }

  /** Nothing waits without cause: a branch resolves in the first cycle that
      finds both operands in, a jump in the first that finds what it reads in
      and is granted; and a jump never resolves ungranted. */
  lemma ResolvesOnceReady(s: Rs, inp: Inputs)
    requires s.busy
    ensures s.entry.class_ == DecodeOoo.ToBranch && s.entry.s1.ready && s.entry.s2.ready ==> Vacates(s, inp)
    ensures s.entry.class_ == DecodeOoo.ToJalr && s.entry.s1.ready ==> (Vacates(s, inp) <==> inp.grant)
    ensures s.entry.class_ == DecodeOoo.ToJal ==> (Vacates(s, inp) <==> inp.grant)
  {
  }

  lemma BranchClass(w: Half)
    requires DecodeOoo.Classify(w).class_ in {DecodeOoo.ToBranch, DecodeOoo.ToJal, DecodeOoo.ToJalr}
    ensures DecodeOoo.Covered(w)
  {
    hide Opcode, Func3, Func7;
  }

  lemma OooBranch(w: Half, a: Word, b: Word, pc: Word)
    requires DecodeOoo.Classify(w).class_ in {DecodeOoo.ToBranch, DecodeOoo.ToJal, DecodeOoo.ToJalr}
    ensures DecodeOoo.OutOfOrder(w, a, b, pc).nextPc
         == DecodeOoo.Target(DecodeOoo.Classify(w).class_, Func3(w), pc, DecodeOoo.ScalarImm(w), a, b)
    ensures DecodeOoo.Classify(w).class_ != DecodeOoo.ToBranch
        ==> DecodeOoo.OutOfOrder(w, a, b, pc).rdValue == Some(Wrap(pc + 4))
  {
    hide Opcode, Func3, Func7, DecodeOoo.Target, DecodeOoo.ScalarImm;
  }
}
