/** What the search loops of the ALU bank guarantee in every cycle: allocation
    never collides or drops a gated lane, issue order is a strict priority. */
module AluPicks {
  import opened Words
  import opened AluRs

  ghost function BusySet(slots: seq<Slot>): set<int> {
    set i | 0 <= i < |slots| && slots[i].busy
  }

  ghost function FreeSet(slots: seq<Slot>): set<int> {
    set i | 0 <= i < |slots| && !slots[i].busy
  }

  ghost function TakenBy(req: bool, p: Pick): set<int> {
    if req && p.have then {p.idx} else {}
  }

  /** The slots the three lanes really write this cycle. */
  ghost function Arriving(slots: seq<Slot>, inp: Inputs): set<int> {
    var (f1, f2, f3) := FreePicks(slots, inp.a1.req, inp.a2.req);
    TakenBy(inp.a1.req, f1) + TakenBy(inp.a2.req, f2) + TakenBy(inp.a3.req, f3)
  }

  /** The resident slots that leave this cycle, granted or squashed. */
  ghost function Leaving(slots: seq<Slot>, inp: Inputs, span: nat): set<int>
    requires span > 0
  {
    set i | 0 <= i < |slots| && (Granted(slots, inp, i) || Squashed(slots[i], inp, span))
  }

  function Accepted(slots: seq<Slot>, inp: Inputs): nat {
    var (f1, f2, f3) := FreePicks(slots, inp.a1.req, inp.a2.req);
    (if inp.a1.req && f1.have then 1 else 0) +
    (if inp.a2.req && f2.have then 1 else 0) +
    (if inp.a3.req && f3.have then 1 else 0)
  }

  /** full, has_2_free and has_3_free say exactly whether room remains after
      the earlier lanes' real allocations, and the slots taken are distinct
      and free. */
  lemma AllocationIsExact(slots: seq<Slot>, inp: Inputs)
    ensures var (f1, f2, f3) := FreePicks(slots, inp.a1.req, inp.a2.req);
            var used1 := if inp.a1.req && f1.have then 1 else 0;
            var used2 := if inp.a2.req && f2.have then 1 else 0;
            && (f1.have <==> |FreeSet(slots)| > 0)
            && (f2.have <==> |FreeSet(slots)| > used1)
            && (f3.have <==> |FreeSet(slots)| > used1 + used2)
    ensures Arriving(slots, inp) <= FreeSet(slots)
    ensures |Arriving(slots, inp)| == Accepted(slots, inp)
  {
    var (f1, f2, f3) := FreePicks(slots, inp.a1.req, inp.a2.req);
    var mask1 := FreeMask(slots);
    var mask2 := Without(mask1, inp.a1.req, f1);
    var mask3 := Without(mask2, inp.a2.req, f2);
    var free1 := FreeSet(slots);
    var free2 := free1 - TakenBy(inp.a1.req, f1);
    var free3 := free2 - TakenBy(inp.a2.req, f2);
    PickFromSet(mask1, free1, f1);
    PickFromSet(mask2, free2, f2);
    PickFromSet(mask3, free3, f3);
    ThreeTakes(free1, f1, inp.a1.req, f2, inp.a2.req, f3, inp.a3.req);
  }

  lemma ThreeTakes(free: set<int>, f1: Pick, r1: bool, f2: Pick, r2: bool, f3: Pick, r3: bool)
    requires f1.have ==> f1.idx in free
    requires f2.have ==> f2.idx in free - TakenBy(r1, f1)
    requires f3.have ==> f3.idx in free - TakenBy(r1, f1) - TakenBy(r2, f2)
    ensures |free - TakenBy(r1, f1)| == |free| - (if r1 && f1.have then 1 else 0)
    ensures |free - TakenBy(r1, f1) - TakenBy(r2, f2)| ==
            |free| - (if r1 && f1.have then 1 else 0) - (if r2 && f2.have then 1 else 0)
    ensures TakenBy(r1, f1) + TakenBy(r2, f2) + TakenBy(r3, f3) <= free
    ensures |TakenBy(r1, f1) + TakenBy(r2, f2) + TakenBy(r3, f3)| ==
            (if r1 && f1.have then 1 else 0) + (if r2 && f2.have then 1 else 0) + (if r3 && f3.have then 1 else 0)
  {
    TakeOne(free, f1, r1);
    TakeOne(free - TakenBy(r1, f1), f2, r2);
    TakeOne(free - TakenBy(r1, f1) - TakenBy(r2, f2), f3, r3);
    var t1, t2, t3 := TakenBy(r1, f1), TakenBy(r2, f2), TakenBy(r3, f3);
    assert t1 !! t2 !! t3;
    assert |t1 + t2 + t3| == |t1| + |t2| + |t3|;
  }

  lemma TakeOne(members: set<int>, p: Pick, req: bool)
    requires p.have ==> p.idx in members
    ensures TakenBy(req, p) <= members
    ensures |members - TakenBy(req, p)| == |members| - |TakenBy(req, p)|
  {
  }

  lemma PickFromSet(mask: seq<bool>, members: set<int>, p: Pick)
    requires p == LowestFrom(mask, 0)
    requires forall i :: i in members <==> 0 <= i < |mask| && mask[i]
    ensures p.have <==> |members| > 0
    ensures p.have ==> p.idx in members
  {
    LowestFromIsLowest(mask, 0);
    if !p.have {
      forall i: int
        ensures i !in members
      {
      }
      assert members == {};
    }
  }

  /** Occupancy changes by what was accepted minus what left. */
  lemma Occupancy(slots: seq<Slot>, inp: Inputs, span: nat)
    requires span > 0
    ensures BusySet(Step(slots, inp, span)) == BusySet(slots) - Leaving(slots, inp, span) + Arriving(slots, inp)
    ensures |BusySet(Step(slots, inp, span))| ==
            |BusySet(slots)| + Accepted(slots, inp) - |Leaving(slots, inp, span)|
  {
    var busy, out, into := BusySet(slots), Leaving(slots, inp, span), Arriving(slots, inp);
    assert into <= FreeSet(slots) && |into| == Accepted(slots, inp) by { AllocationIsExact(slots, inp); }
    NextBusySet(slots, inp, span);
    assert out <= busy by {
      forall i | i in out ensures i in busy { NextBusy(slots, inp, span, i); }
    }
    CountMoves(busy, out, into);
  }

  lemma NextBusySet(slots: seq<Slot>, inp: Inputs, span: nat)
    requires span > 0 && Arriving(slots, inp) <= FreeSet(slots)
    ensures BusySet(Step(slots, inp, span)) == BusySet(slots) - Leaving(slots, inp, span) + Arriving(slots, inp)
  {
    var next := Step(slots, inp, span);
    forall i: int
      ensures i in BusySet(next) <==> i in BusySet(slots) - Leaving(slots, inp, span) + Arriving(slots, inp)
    {
      if 0 <= i < |slots| {
        NextBusy(slots, inp, span, i);
        assert next[i] == NextSlot(slots, inp, span, i);
      }
    }
  }

  lemma NextBusy(slots: seq<Slot>, inp: Inputs, span: nat, i: nat)
    requires span > 0 && i < |slots|
    ensures i in Leaving(slots, inp, span) ==> slots[i].busy
    ensures NextSlot(slots, inp, span, i).busy <==>
            (slots[i].busy && i !in Leaving(slots, inp, span)) || i in Arriving(slots, inp)
  {
    FreePickRange(slots, inp.a1.req, inp.a2.req);
    IssuePickRange(slots, inp.head0, inp.head1);
  }

  lemma CountMoves(busy: set<int>, out: set<int>, into: set<int>)
    requires out <= busy && busy !! into
    ensures |busy - out + into| == |busy| + |into| - |out|
  {
    assert |busy - out| == |busy| - |out|;
    assert (busy - out) !! into;
  }

  // ---- Issue priority ---------------------------------------------------

  predicate AtHead(slots: seq<Slot>, i: int, head0: nat, head1: nat)
    requires 0 <= i < |slots|
  {
    EntryIsHead(slots[i].tid, slots[i].dest, head0, head1)
  }

  /** The issue order: own-thread heads first, then the lower index. */
  predicate Before(slots: seq<Slot>, i: int, j: int, head0: nat, head1: nat)
    requires 0 <= i < |slots| && 0 <= j < |slots|
  {
    var hi, hj := AtHead(slots, i, head0, head1), AtHead(slots, j, head0, head1);
    (hi && !hj) || (hi == hj && i < j)
  }

  /** `p` is the first ready slot outside `seen`, or none is left. */
  ghost predicate FirstOutside(slots: seq<Slot>, p: Pick, seen: set<int>, head0: nat, head1: nat) {
    if p.have then
      && p.idx < |slots| && Ready(slots[p.idx]) && p.idx !in seen
      && forall j :: 0 <= j < |slots| && Ready(slots[j]) && j !in seen && j != p.idx
           ==> Before(slots, p.idx, j, head0, head1)
    else
      forall j :: 0 <= j < |slots| && Ready(slots[j]) ==> j in seen
  }

  ghost function Seen(p: Pick): set<int> {
    if p.have then {p.idx} else {}
  }

  /** The three mask-and-repeat passes are the first three ready slots. */
  lemma IssueOrder(slots: seq<Slot>, head0: nat, head1: nat)
    ensures var (p1, p2, p3) := IssuePicks(slots, head0, head1);
            && FirstOutside(slots, p1, {}, head0, head1)
            && FirstOutside(slots, p2, Seen(p1), head0, head1)
            && FirstOutside(slots, p3, Seen(p1) + Seen(p2), head0, head1)
  {
    var (p1, p2, p3) := IssuePicks(slots, head0, head1);
    var mask1 := ReadyMask(slots);
    var mask2 := Without(mask1, true, p1);
    var mask3 := Without(mask2, true, p2);
    PickIsFirst(slots, mask1, {}, head0, head1);
    PickIsFirst(slots, mask2, Seen(p1), head0, head1);
    PickIsFirst(slots, mask3, Seen(p1) + Seen(p2), head0, head1);
  }

  lemma PickIsFirst(slots: seq<Slot>, mask: seq<bool>, seen: set<int>, head0: nat, head1: nat)
    requires |mask| == |slots|
    requires forall j :: 0 <= j < |slots| ==> (mask[j] <==> Ready(slots[j]) && j !in seen)
    ensures FirstOutside(slots, IssuePick(slots, mask, head0, head1), seen, head0, head1)
  {
    IssuePickFromMask(slots, mask, head0, head1);
    var p := IssuePick(slots, mask, head0, head1);
    var heads := HeadMask(slots, mask, head0, head1);
    if p.have {
      forall j | 0 <= j < |slots| && Ready(slots[j]) && j !in seen && j != p.idx
        ensures Before(slots, p.idx, j, head0, head1)
      {
        assert mask[j];
        if heads[j] {
          assert heads[p.idx];
        }
      }
    }
  }

  /** No two resident slots of one thread carry that thread's head tag. */
  ghost predicate HeadsUnique(slots: seq<Slot>, head0: nat, head1: nat) {
    forall i, j :: 0 <= i < j < |slots| && slots[i].busy && slots[j].busy && slots[i].tid == slots[j].tid ==>
      !(AtHead(slots, i, head0, head1) && AtHead(slots, j, head0, head1))
  }

  /** A ready ROB head of either thread is always on issue port 1 or 2. */
  lemma HeadIsNeverStarved(slots: seq<Slot>, head0: nat, head1: nat, h: nat)
    requires HeadsUnique(slots, head0, head1)
    requires h < |slots| && Ready(slots[h]) && AtHead(slots, h, head0, head1)
    ensures var (p1, p2, _) := IssuePicks(slots, head0, head1);
            Took(p1, h) || Took(p2, h)
  {
    var (p1, p2, _) := IssuePicks(slots, head0, head1);
    IssueOrder(slots, head0, head1);
    if !Took(p1, h) && !Took(p2, h) {
      assert false;
    }
  }
}
