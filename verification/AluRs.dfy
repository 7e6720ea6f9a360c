/** The shared ALU reservation-station bank: one clock edge of alu_rs.v.
    `span` is 2^TAG_BITS, the number of distinct ROB tags of one thread. */
module AluRs {
  import opened Words
  import opened Alu

  /** One operand of a slot: its value once ready, else the tag it waits for. */
  datatype Operand = Operand(ready: bool, val: Word, tag: nat)

  datatype Slot = Slot(busy: bool, tid: bool, op: AluOp, wordOp: bool,
                       s1: Operand, s2: Operand, dest: nat)

  datatype AllocPort = AllocPort(req: bool, tid: bool, op: AluOp, wordOp: bool,
                                 s1: Operand, s2: Operand, dest: nat)

  datatype Bus = Bus(valid: bool, tid: bool, tag: nat, value: Word)

  /** The three result buses every bank snoops. */
  datatype Buses = Buses(A: Bus, B: Bus, C: Bus)

  datatype SquashPort = SquashPort(valid: bool, tag: nat)

  /** Every input pin of the bank in one cycle. */
  datatype Inputs = Inputs(a1: AllocPort, a2: AllocPort, a3: AllocPort,
                           buses: Buses,
                           grant1: bool, grant2: bool, grant3: bool,
                           head0: nat, head1: nat,
                           squash0: SquashPort, squash1: SquashPort)

  /** The result of a search loop: whether anything was found, and where. */
  datatype Pick = Pick(have: bool, idx: nat)

  predicate Took(p: Pick, i: int) {
    p.have && i == p.idx
  }

  // ---- Allocation: lowest free slots ------------------------------------

  /** The lowest index at or above `i` whose bit is set. */
  function LowestFrom(mask: seq<bool>, i: nat): Pick
    requires i <= |mask|
    decreases |mask| - i
  {
    if i == |mask| then Pick(false, 0)
    else if mask[i] then Pick(true, i)
    else LowestFrom(mask, i + 1)
  }

  lemma {:induction false} LowestFromIsLowest(mask: seq<bool>, i: nat)
    requires i <= |mask|
    ensures var p := LowestFrom(mask, i);
            if p.have
            then i <= p.idx < |mask| && mask[p.idx] && (forall j :: i <= j < p.idx ==> !mask[j])
            else p == Pick(false, 0) && forall j :: i <= j < |mask| ==> !mask[j]
    decreases |mask| - i
  {
    if i < |mask| && !mask[i] {
      LowestFromIsLowest(mask, i + 1);
    }
  }

  function FreeMask(slots: seq<Slot>): seq<bool> {
    seq(|slots|, i requires 0 <= i < |slots| => !slots[i].busy)
  }

  /** The mask with the slot another lane really consumes taken out. */
  function Without(mask: seq<bool>, taken: bool, p: Pick): seq<bool> {
    seq(|mask|, i requires 0 <= i < |mask| => mask[i] && !(taken && Took(p, i)))
  }

  /** The three allocation picks; a lane reserves its slot only when it asks. */
  function FreePicks(slots: seq<Slot>, req1: bool, req2: bool): (Pick, Pick, Pick) {
    var mask1 := FreeMask(slots);
    var p1 := LowestFrom(mask1, 0);
    var mask2 := Without(mask1, req1, p1);
    var p2 := LowestFrom(mask2, 0);
    var p3 := LowestFrom(Without(mask2, req2, p2), 0);
    (p1, p2, p3)
  }

  /** The downward scan of the bank: the last hit is the lowest one. */
  method FindLowest(mask: seq<bool>) returns (p: Pick)
    ensures p == LowestFrom(mask, 0)
  {
    p := Pick(false, 0);
    var i := |mask|;
    while i > 0
      invariant 0 <= i <= |mask|
      invariant p == LowestFrom(mask, i)
    {
      i := i - 1;
      if mask[i] {
        p := Pick(true, i);
      }
    }
  }

  // ---- Issue: own-thread ROB head first, then lowest index --------------

  predicate EntryIsHead(tid: bool, tag: nat, head0: nat, head1: nat) {
    if tid then tag == head1 else tag == head0
  }

  predicate Ready(s: Slot) {
    s.busy && s.s1.ready && s.s2.ready
  }

  function ReadyMask(slots: seq<Slot>): seq<bool> {
    seq(|slots|, i requires 0 <= i < |slots| => Ready(slots[i]))
  }

  function HeadMask(slots: seq<Slot>, mask: seq<bool>, head0: nat, head1: nat): seq<bool>
    requires |mask| == |slots|
  {
    seq(|slots|, i requires 0 <= i < |slots| =>
      mask[i] && EntryIsHead(slots[i].tid, slots[i].dest, head0, head1))
  }

  /** The lowest candidate at its own thread's ROB head, else the lowest one. */
  function IssuePick(slots: seq<Slot>, mask: seq<bool>, head0: nat, head1: nat): Pick
    requires |mask| == |slots|
  {
    var atHead := LowestFrom(HeadMask(slots, mask, head0, head1), 0);
    if atHead.have then atHead else LowestFrom(mask, 0)
  }

  function IssuePicks(slots: seq<Slot>, head0: nat, head1: nat): (Pick, Pick, Pick) {
    var mask1 := ReadyMask(slots);
    var p1 := IssuePick(slots, mask1, head0, head1);
    var mask2 := Without(mask1, true, p1);
    var p2 := IssuePick(slots, mask2, head0, head1);
    var p3 := IssuePick(slots, Without(mask2, true, p2), head0, head1);
    (p1, p2, p3)
  }

  /** The upward scan that keeps a running best and lets a ROB head displace
      a candidate that is not one. */
  method FindIssue(slots: seq<Slot>, mask: seq<bool>, head0: nat, head1: nat) returns (p: Pick)
    requires |mask| == |slots|
    ensures p == IssuePick(slots, mask, head0, head1)
  {
    p := Pick(false, 0);
    var isHead := false;
    var heads := HeadMask(slots, mask, head0, head1);
    var i := 0;
    while i < |slots|
      invariant 0 <= i <= |slots|
      invariant !p.have ==> p == Pick(false, 0) && !isHead && forall j :: 0 <= j < i ==> !mask[j]
      invariant p.have ==> p.idx < i && mask[p.idx]
      invariant isHead ==> p.have && heads[p.idx] && forall j :: 0 <= j < p.idx ==> !heads[j]
      invariant p.have && !isHead ==> forall j :: 0 <= j < i ==> !heads[j]
      invariant p.have && !isHead ==> forall j :: 0 <= j < p.idx ==> !mask[j]
    {
      if mask[i] {
        var head := EntryIsHead(slots[i].tid, slots[i].dest, head0, head1);
        if !p.have || (head && !isHead) {
          p := Pick(true, i);
          isHead := head;
        }
      }
      i := i + 1;
    }
    LowestFromIsLowest(heads, 0);
    LowestFromIsLowest(mask, 0);
    assert forall j :: 0 <= j < |heads| && heads[j] ==> mask[j];
    var atHead, any := LowestFrom(heads, 0), LowestFrom(mask, 0);
    if p.have {
      assert any.have;
      if isHead { assert atHead.have; } else { assert !atHead.have; }
    }
  }

  /** What an issue port offers: the ALU result of the picked slot. */
  function ReqValue(s: Slot): Word {
    AluExec(s.op, s.wordOp, s.s1.val, s.s2.val)
  }

  function Clear(s: Slot, when: bool): Slot {
    if when then s.(busy := false) else s
  }

  // ---- The clock edge ---------------------------------------------------

  predicate Hit(bus: Bus, tid: bool, tag: nat) {
    bus.valid && tid == bus.tid && tag == bus.tag
  }

  /** A waiting operand captures the first matching bus. */
  function SnoopOperand(o: Operand, tid: bool, buses: Buses): Operand {
    if o.ready then o
    else if Hit(buses.A, tid, o.tag) then o.(ready := true, val := buses.A.value)
    else if Hit(buses.B, tid, o.tag) then o.(ready := true, val := buses.B.value)
    else if Hit(buses.C, tid, o.tag) then o.(ready := true, val := buses.C.value)
    else o
  }

  function Snooped(s: Slot, inp: Inputs): Slot {
    if s.busy
    then s.(s1 := SnoopOperand(s.s1, s.tid, inp.buses), s2 := SnoopOperand(s.s2, s.tid, inp.buses))
    else s
  }

  function Filled(a: AllocPort): Slot {
    Slot(true, a.tid, a.op, a.wordOp, a.s1, a.s2, a.dest)
  }

  /** Age of a tag behind the head, in TAG_BITS-wide unsigned arithmetic. */
  function Age(tag: nat, head: nat, span: nat): nat
    requires span > 0
  {
    (tag - head) % span
  }

  predicate SquashHit(s: Slot, tid: bool, port: SquashPort, head: nat, span: nat)
    requires span > 0
  {
    port.valid && s.busy && s.tid == tid && Age(s.dest, head, span) > Age(port.tag, head, span)
  }

  predicate Squashed(s: Slot, inp: Inputs, span: nat)
    requires span > 0
  {
    || SquashHit(s, false, inp.squash0, inp.head0, span)
    || SquashHit(s, true, inp.squash1, inp.head1, span)
  }

  predicate Granted(slots: seq<Slot>, inp: Inputs, i: int) {
    var (p1, p2, p3) := IssuePicks(slots, inp.head0, inp.head1);
    (inp.grant1 && Took(p1, i)) || (inp.grant2 && Took(p2, i)) || (inp.grant3 && Took(p3, i))
  }

  /** The slot a lane writes this cycle, if any (the textually last one wins). */
  function Placed(slots: seq<Slot>, inp: Inputs, i: int, s: Slot): Slot {
    var (f1, f2, f3) := FreePicks(slots, inp.a1.req, inp.a2.req);
    if inp.a3.req && Took(f3, i) then Filled(inp.a3)
    else if inp.a2.req && Took(f2, i) then Filled(inp.a2)
    else if inp.a1.req && Took(f1, i) then Filled(inp.a1)
    else s
  }

  function NextSlot(slots: seq<Slot>, inp: Inputs, span: nat, i: int): Slot
    requires span > 0 && 0 <= i < |slots|
  {
    var placed := Placed(slots, inp, i, Snooped(slots[i], inp));
    Clear(placed, Granted(slots, inp, i) || Squashed(slots[i], inp, span))
  }

  function Step(slots: seq<Slot>, inp: Inputs, span: nat): (r: seq<Slot>)
    requires span > 0
    ensures |r| == |slots|
  {
    seq(|slots|, i requires 0 <= i < |slots| => NextSlot(slots, inp, span, i))
  }

  /** The clocked bank. */
  class Bank {
    const span: nat
    const slots: array<Slot>

    constructor (depth: nat, span: nat, blank: Slot)
      requires span > 0
      ensures this.span == span && fresh(slots) && slots.Length == depth
      ensures forall i :: 0 <= i < depth ==> !slots[i].busy
    {
      this.span := span;
      slots := new Slot[depth](_ => blank.(busy := false));
    }

    method SnoopAll(inp: Inputs)
      modifies slots
      ensures forall j :: 0 <= j < slots.Length ==> slots[j] == Snooped(old(slots[j]), inp)
    {
      for i := 0 to slots.Length
        invariant forall j :: 0 <= j < i ==> slots[j] == Snooped(old(slots[j]), inp)
        invariant forall j :: i <= j < slots.Length ==> slots[j] == old(slots[j])
      {
        slots[i] := Snooped(slots[i], inp);
      }
    }

    /** The three allocation writes, in textual order. */
    method PlaceAll(was: seq<Slot>, inp: Inputs)
      requires |was| == slots.Length
      modifies slots
      ensures forall j :: 0 <= j < slots.Length ==> slots[j] == Placed(was, inp, j, old(slots[j]))
    {
      var mask1 := FreeMask(was);
      var f1 := FindLowest(mask1);
      var mask2 := Without(mask1, inp.a1.req, f1);
      var f2 := FindLowest(mask2);
      var f3 := FindLowest(Without(mask2, inp.a2.req, f2));
      FreePickRange(was, inp.a1.req, inp.a2.req);
      if inp.a1.req && f1.have { slots[f1.idx] := Filled(inp.a1); }
      if inp.a2.req && f2.have { slots[f2.idx] := Filled(inp.a2); }
      if inp.a3.req && f3.have { slots[f3.idx] := Filled(inp.a3); }
    }

    /** The three grants vacate the slots that were offered. */
    method VacateAll(was: seq<Slot>, inp: Inputs)
      requires |was| == slots.Length
      modifies slots
      ensures forall j :: 0 <= j < slots.Length ==> slots[j] == Clear(old(slots[j]), Granted(was, inp, j))
    {
      var ready1 := ReadyMask(was);
      var p1 := FindIssue(was, ready1, inp.head0, inp.head1);
      var ready2 := Without(ready1, true, p1);
      var p2 := FindIssue(was, ready2, inp.head0, inp.head1);
      var p3 := FindIssue(was, Without(ready2, true, p2), inp.head0, inp.head1);
      IssuePickRange(was, inp.head0, inp.head1);
      if inp.grant1 && p1.have { slots[p1.idx] := slots[p1.idx].(busy := false); }
      if inp.grant2 && p2.have { slots[p2.idx] := slots[p2.idx].(busy := false); }
      if inp.grant3 && p3.have { slots[p3.idx] := slots[p3.idx].(busy := false); }
    }

    /** One thread's squash port clears the slots younger than its branch. */
    method SquashAll(was: seq<Slot>, tid: bool, port: SquashPort, head: nat)
      requires |was| == slots.Length && span > 0
      modifies slots
      ensures forall j :: 0 <= j < slots.Length ==>
        slots[j] == Clear(old(slots[j]), SquashHit(was[j], tid, port, head, span))
    {
      if port.valid {
        for i := 0 to slots.Length
          invariant forall j :: 0 <= j < i ==>
            slots[j] == Clear(old(slots[j]), SquashHit(was[j], tid, port, head, span))
          invariant forall j :: i <= j < slots.Length ==> slots[j] == old(slots[j])
        {
          if was[i].busy && was[i].tid == tid && Age(was[i].dest, head, span) > Age(port.tag, head, span) {
            slots[i] := slots[i].(busy := false);
          }
        }
      }
    }

    /** One rising edge out of reset. Every right-hand side reads `was`. */
    method Tick(inp: Inputs)
      requires span > 0
      modifies slots
      ensures slots[..] == Step(old(slots[..]), inp, span)
    {
      var was := slots[..];
      SnoopAll(inp);
      PlaceAll(was, inp);
      VacateAll(was, inp);
      SquashAll(was, false, inp.squash0, inp.head0);
      SquashAll(was, true, inp.squash1, inp.head1);
      assert forall j :: 0 <= j < |was| ==> slots[j] == NextSlot(was, inp, span, j);
    }
  }

  // ---- Where the picks point --------------------------------------------

  lemma FreePickRange(slots: seq<Slot>, req1: bool, req2: bool)
    ensures var (p1, p2, p3) := FreePicks(slots, req1, req2);
            && (p1.have ==> p1.idx < |slots| && !slots[p1.idx].busy)
            && (p2.have ==> p2.idx < |slots| && !slots[p2.idx].busy)
            && (p3.have ==> p3.idx < |slots| && !slots[p3.idx].busy)
  {
    var mask1 := FreeMask(slots);
    var mask2 := Without(mask1, req1, LowestFrom(mask1, 0));
    var mask3 := Without(mask2, req2, LowestFrom(mask2, 0));
    LowestFromIsLowest(mask1, 0);
    LowestFromIsLowest(mask2, 0);
    LowestFromIsLowest(mask3, 0);
  }

  lemma IssuePickRange(slots: seq<Slot>, head0: nat, head1: nat)
    ensures var (p1, p2, p3) := IssuePicks(slots, head0, head1);
            && (p1.have ==> p1.idx < |slots| && Ready(slots[p1.idx]))
            && (p2.have ==> p2.idx < |slots| && Ready(slots[p2.idx]))
            && (p3.have ==> p3.idx < |slots| && Ready(slots[p3.idx]))
  {
    var mask1 := ReadyMask(slots);
    var mask2 := Without(mask1, true, IssuePick(slots, mask1, head0, head1));
    var mask3 := Without(mask2, true, IssuePick(slots, mask2, head0, head1));
    IssuePickFromMask(slots, mask1, head0, head1);
    IssuePickFromMask(slots, mask2, head0, head1);
    IssuePickFromMask(slots, mask3, head0, head1);
  }

  /** An issue pick is the best candidate of its mask. */
  lemma IssuePickFromMask(slots: seq<Slot>, mask: seq<bool>, head0: nat, head1: nat)
    requires |mask| == |slots|
    ensures var p := IssuePick(slots, mask, head0, head1);
            var heads := HeadMask(slots, mask, head0, head1);
            if p.have
            then && p.idx < |slots| && mask[p.idx]
                 && ((forall j :: 0 <= j < |slots| && heads[j] ==> heads[p.idx] && p.idx <= j))
                 && (!heads[p.idx] ==> forall j :: 0 <= j < p.idx ==> !mask[j])
            else p == Pick(false, 0) && forall j :: 0 <= j < |slots| ==> !mask[j]
  {
    LowestFromIsLowest(HeadMask(slots, mask, head0, head1), 0);
    LowestFromIsLowest(mask, 0);
  }
}
