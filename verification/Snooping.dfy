/** What an operand holds after watching the three result buses for some
    cycles, said without the station's registers. */
module Snooping {
  import opened Words
  import opened AluRs

  /** The value of the first bus, over the cycles given, that carries (tid, tag). */
  function FirstHit(cycles: seq<Buses>, tid: bool, tag: nat): Option<Word> {
    if cycles == [] then None
    else if Hit(cycles[0].A, tid, tag) then Some(cycles[0].A.value)
    else if Hit(cycles[0].B, tid, tag) then Some(cycles[0].B.value)
    else if Hit(cycles[0].C, tid, tag) then Some(cycles[0].C.value)
    else FirstHit(cycles[1..], tid, tag)
  }

  /** An operand given ready keeps its value; a waiting one takes the first
      broadcast of its own thread's tag after dispatch. */
  function Received(o: Operand, cycles: seq<Buses>, tid: bool): Operand {
    var hit := FirstHit(cycles, tid, o.tag);
    if !o.ready && hit.Some? then o.(ready := true, val := hit.value) else o
  }

  lemma {:induction false} ReceivedStep(o: Operand, cycles: seq<Buses>, tid: bool, last: Buses)
    ensures Received(o, cycles + [last], tid) == SnoopOperand(Received(o, cycles, tid), tid, last)
  {
    FirstHitSnoc(cycles, tid, o.tag, last);
  }

  lemma {:induction false} FirstHitSnoc(cycles: seq<Buses>, tid: bool, tag: nat, last: Buses)
    ensures FirstHit(cycles + [last], tid, tag)
         == if FirstHit(cycles, tid, tag).Some? then FirstHit(cycles, tid, tag) else FirstHit([last], tid, tag)
  {
    if cycles == [] {
      assert cycles + [last] == [last];
    } else {
      assert (cycles + [last])[1..] == cycles[1..] + [last];
      FirstHitSnoc(cycles[1..], tid, tag, last);
    }
  }
}
