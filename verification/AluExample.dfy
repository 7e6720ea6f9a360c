/** The environment contract is not empty: two dependent instructions are
    dispatched together, the first broadcasts, the second captures it, issues
    and broadcasts in its turn. */
module AluExample {
  import opened Words
  import opened Alu
  import opened AluRs
  import opened AluPicks
  import opened AluRun
  import opened AluTheorems

  const SPAN := 4

  const FIRST: Instr := AluInstr(Add, false, Given(1), Given(2))
  const SECOND: Instr := AluInstr(Add, false, From(0), From(0))

  /** The slots of the two instructions. */
  function FirstSlot(busy: bool): Slot {
    Slot(busy, false, Add, false, Operand(true, 1, 0), Operand(true, 2, 0), 0)
  }

  function SecondSlot(busy: bool, operand: Operand): Slot {
    Slot(busy, false, Add, false, operand, operand, 1)
  }

  const WAITING: Operand := Operand(false, 0, 0)
  const CAPTURED: Operand := Operand(true, 3, 0)
  const NOBODY: Thread := Thread([], 0)

  function Stage(k: nat): World
    requires k < 4
  {
    var first, second := Entry(FIRST, if k < 2 then None else Some(3)), Entry(SECOND, if k < 3 then None else Some(6));
    World([FirstSlot(k == 1), SecondSlot(k == 1 || k == 2, if k < 2 then WAITING else CAPTURED)], [0, if k == 0 then 0 else 1],
          if k == 0 then NOBODY else Thread([first, second], 0), NOBODY)
  }

  function Event(k: nat): Cycle
    requires k < 3
  {
    var lane1, lane2 := if k == 0 then Dispatch(false, FIRST) else Idle, if k == 0 then Dispatch(false, SECOND) else Idle;
    Cycle(if k == 0 then Quiet else BankPort(1), Quiet, Quiet, lane1, lane2, Idle, None, None, 0, 0)
  }

  function Pins(k: nat): Inputs
    requires k < 3
  {
    var unused := AllocPort(false, false, NoAluOp, false, WAITING, WAITING, 0);
    var quiet, none := Bus(false, false, 0, 0), SquashPort(false, 0);
    Inputs(if k == 0 then AllocPort(true, false, Add, false, Operand(true, 1, 0), Operand(true, 2, 0), 0) else unused,
           if k == 0 then AllocPort(true, false, Add, false, WAITING, WAITING, 1) else unused, unused,
           Buses(if k == 0 then quiet else if k == 1 then Bus(true, false, 0, 3) else Bus(true, false, 1, 6), quiet, quiet),
           k > 0, false, false, 0, 0, none, none)
  }

  /** The first is ready at once, the second once it has captured. */
  lemma Picks(k: nat)
    requires k < 4
    ensures var (p1, p2, p3) := IssuePicks(Stage(k).slots, 0, 0);
            && (p1.have <==> k == 1 || k == 2) && (p1.have ==> p1.idx == k - 1)
            && !p2.have && !p3.have
  {
    var slots := Stage(k).slots;
    assert Ready(slots[0]) <==> k == 1;
    assert Ready(slots[1]) <==> k == 2;
    IssueOrder(slots, 0, 0);
  }

  lemma Frees()
    ensures var (f1, f2, f3) := FreePicks(Stage(0).slots, true, true);
            f1 == Pick(true, 0) && f2 == Pick(true, 1) && !f3.have
  {
    var mask1 := FreeMask(Stage(0).slots);
    var mask2 := Without(mask1, true, Pick(true, 0));
    LowestFromIsLowest(mask1, 0);
    LowestFromIsLowest(mask2, 0);
    LowestFromIsLowest(Without(mask2, true, Pick(true, 1)), 0);
  }

  lemma Casts(k: nat)
    requires k < 3
    ensures CastOn(Stage(k), SPAN, Event(k).driveA)
         == if k == 0 then None else Some(Cast(false, k - 1, if k == 1 then 3 else 6))
    ensures CastOn(Stage(k), SPAN, Quiet) == None
  {
    hide IssuePicks;
    Picks(k);
  }

  lemma Threads(k: nat, tid: bool)
    requires k < 3
    ensures NextThread(Stage(k), SPAN, Event(k), tid) == Of(Stage(k + 1), tid)
  {
    hide CastOn;
    Casts(k);
    var t, n := NextThread(Stage(k), SPAN, Event(k), tid), Of(Stage(k + 1), tid);
    var kept := Kept(Stage(k), SPAN, Event(k), tid);
    if k > 0 && !tid {
      assert kept[0] == n.hist[0] && kept[1] == n.hist[1];
    }
    assert t.hist == n.hist;
  }

  lemma Slots(k: nat)
    requires k < 3
    ensures Step(Stage(k).slots, Pins(k), SPAN) == Stage(k + 1).slots
  {
    hide IssuePicks, FreePicks;
    Picks(k);
    Frees();
    forall i | 0 <= i < 2 ensures NextSlot(Stage(k).slots, Pins(k), SPAN, i) == Stage(k + 1).slots[i] {
    }
  }

  lemma Owners(k: nat, i: nat)
    requires k < 3 && i < 2
    ensures NextOwner(Stage(k), Event(k), i) == Stage(k + 1).owner[i]
  {
    hide FreePicks;
    Frees();
  }

  lemma Permitted(k: nat)
    requires k < 3
    ensures Allowed(Stage(k), SPAN, Event(k)) && Wired(Stage(k), SPAN, Event(k), Pins(k))
  {
    hide IssuePicks, FreePicks, CastOn, NextThread;
    Picks(k);
    Frees();
    Casts(k);
    Threads(k, false);
    Threads(k, true);
  }

  lemma Advances(k: nat)
    requires k < 3
    ensures Next(Stage(k), SPAN, Event(k), Pins(k)) == Stage(k + 1)
  {
    hide Step, NextOwner, NextThread;
    Slots(k);
    Threads(k, false);
    Threads(k, true);
    Owners(k, 0);
    Owners(k, 1);
    assert Next(Stage(k), SPAN, Event(k), Pins(k)).owner == Stage(k + 1).owner;
  }

  /** An allowed run from reset in which a result passes from one instruction to
      another through the bus: 1 + 2 is 3, and 3 + 3 is broadcast as 6. */
  lemma ChainRuns() returns (ws: seq<World>, cs: seq<Cycle>, ins: seq<Inputs>)
    ensures Run(ws, cs, ins, SPAN) && |cs| == 3
    ensures ws[3].t0.hist == [Entry(FIRST, Some(3)), Entry(SECOND, Some(6))]
  {
    hide Allowed, Wired, Next;
    ws := [Stage(0), Stage(1), Stage(2), Stage(3)];
    cs, ins := [Event(0), Event(1), Event(2)], [Pins(0), Pins(1), Pins(2)];
    forall k | 0 <= k < 3
      ensures Allowed(ws[k], SPAN, cs[k]) && Wired(ws[k], SPAN, cs[k], ins[k]) && ws[k + 1] == Next(ws[k], SPAN, cs[k], ins[k])
    {
      Permitted(k);
      Advances(k);
    }
  }
}
