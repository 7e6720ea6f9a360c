# RISC-V cores: a Dafny model and its proofs

A model of the RISC-V hardware and its tool chain: the reservation stations,
divider and second decoder of the two-thread out-of-order core
(`RV64I_OOO/src`), the single-cycle core with its compressed, multiply, atomic,
float-conversion and vector parts (`RV64I/src`), the two-pass assembler and the
vector benchmark loops (`RV64I/verify`), and the AXI4-Lite loader. Each clocked
module is a step function on a state record; where the Verilog updates
registers, a class with the same registers has a method for one clock edge,
proved equal to that step, and whole runs are then reasoned about as lemmas.

## How the model reads the source

- A machine word is an integer below 2^64 (`Words.Word`), a 32-bit one is
  `Words.Half`. Wrap-around, truncation, sign extension and shifts are written
  out. Only two-valued bits are modelled.
- On a clock edge every right-hand side reads the old state, and the textually
  last non-blocking assignment to a register wins.
- `span` is 2^TAG_BITS and the station depth is a parameter, so the theorems
  hold for every depth and tag width. `lanes` is any even positive width in the
  vector theorems.
- The reorder buffer, register alias table, result-bus arbiter and the other
  banks are one environment contract, `AluRun.Allowed` and `AluRun.Wired`:
  an operand is dispatched not-ready exactly while its producer of the same
  thread has not broadcast; each live instruction broadcasts once and the three
  buses carry distinct instructions; live tags of a thread fit in one window of
  `span`; a thread that squashes does not dispatch in that cycle; dispatch
  asks for a slot only when the bank says it has one; an entry retires only when
  its result is known. The contract allows any interleaving of both threads'
  dispatches, broadcasts, grants and squashes, and recovers unbounded sequence
  numbers from tags only through these rules.
- Rounding theorems are over integers: the value of a pattern is counted in
  units of the least subnormal (`Rounding.Value`), and `Rounding.NearestEven`
  compares distances to all patterns, so it covers mantissa carry into the next
  binade without saying how rounding is done.

## Where the code differs from what is written about it

Each is kept as the code has it, with a lemma that exhibits it and one that
says exactly when the code is right.

- REMUW by zero with bit 31 set: `div_fu.v` returns the zero-extended dividend,
  `execute.v` the sign-extended one, as section 7.2 of the RISC-V Unprivileged
  ISA 20191213 asks. `DivFuTheorems.UnitMatchesExecute`,
  `DivFuTheorems.RemuwByZeroDiffers`, `DecodeOoo.CoresAgreeIff`.
- The comment on `full` in `div_rs.v` says no stale completion can land on a new
  entry. It can when the entry is allocated in the cycle of the `done` pulse of
  a squashed division. `DivRsTheorems.AllocationOwnedIffNotDone`,
  `DivRsTheorems.StaleCaptureIsReachable`.
- `f32_to_f64` is described as exact. A subnormal single whose normalised
  fraction is not zero loses its top fraction bit. `FpuWidthTheorems.WidenIsExactIff`,
  `FpuClamp.WidenSubnormalIs`.
- `f64_to_f32` halves results below the least normal single.
  `FpuWidth.SubnormalIsHalved`, `FpuWidthTheorems.NarrowIsNearestIff`. The carry
  test of that path never fires. `FpuWidth.CarryIsDead`.
- `int_to_f32` reads bit -1 of the magnitude when the top bit is bit 23; the
  value read is a parameter. `FpuInt.IntToSingleIsNearestIff`.
- The reservation comment says any store invalidates; a vector store does not.
  `Atomics.ScSucceedsIff`, `Atomics.VectorStoreKeepsReservation`.
- The compressed encoders accept offsets that are not multiples of their scale,
  and registers that select another instruction (c.lui of x2, c.jalr of x0,
  c.mv and c.add from x0). `CompressedProofs.ExpandsIff`.

## Model

| member | source | states |
|---|---|---|
| AluRs.FindLowest | RV64I_OOO/src/alu_rs.v:210-214 | the downward scan whose last hit wins finds the lowest set bit, or nothing exactly when there is none |
| AluRs.LowestFromIsLowest | RV64I_OOO/src/alu_rs.v:205-247 | the pick used as reference is in range, set, and no lower candidate is set; an empty pick means no candidate |
| AluRs.FindIssue | RV64I_OOO/src/alu_rs.v:266-282 | the upward scan with a displaced running best ends on the lowest own-thread ROB head if any candidate is one, else on the lowest candidate |
| AluRs.IssuePickFromMask | RV64I_OOO/src/alu_rs.v:270-326 | an issue pick beats every candidate of its mask in head-first, then lowest-index order |
| AluRs.Bank.constructor | RV64I_OOO/src/alu_rs.v:379-382 | after reset no slot is busy |
| AluRs.Bank.SnoopAll | RV64I_OOO/src/alu_rs.v:391-414 | every busy slot, and no other, captures the first bus that matches its thread and tag |
| AluRs.Bank.PlaceAll | RV64I_OOO/src/alu_rs.v:416-454 | each accepted lane fills its own slot with its own operands and every other slot is untouched |
| AluRs.Bank.VacateAll | RV64I_OOO/src/alu_rs.v:456-468 | exactly the granted slots are vacated |
| AluRs.Bank.SquashAll | RV64I_OOO/src/alu_rs.v:470-481 | exactly the slots of that thread whose wrapped age exceeds the branch's are vacated |
| AluRs.Bank.Tick | RV64I_OOO/src/alu_rs.v:379-483 | one clock edge in the source's textual order equals the slot-by-slot next state the run theorems use |
| AluPicks.AllocationIsExact | RV64I_OOO/src/alu_rs.v:205-254 | full, has_2_free and has_3_free hold exactly when room remains after the earlier lanes' real allocations; slots taken are distinct and were free, so a gated lane is never dropped and nothing resident is overwritten |
| AluPicks.Occupancy | RV64I_OOO/src/alu_rs.v:416-481 | the busy set loses exactly granted or squashed slots and gains exactly accepted ones; the count changes by accepted minus the size of that union |
| AluPicks.IssueOrder | RV64I_OOO/src/alu_rs.v:266-326 | the three mask-and-repeat passes return the first three ready slots of the priority order, each distinct |
| AluPicks.HeadIsNeverStarved | RV64I_OOO/src/alu_rs.v:256-326 | with per-thread unique tags a ready ROB head of either thread is on issue port 1 or 2 |
| Tags.TagIsUnique | RV64I_OOO/src/alu_rs.v:256-264 | inside one window a circular tag names one sequence number |
| Tags.TagAge | RV64I_OOO/src/alu_rs.v:470-474 | the wrapped difference from the head is the true distance, for every head position |
| AluRunProofs.SnoopFollowsProducer | RV64I_OOO/src/alu_rs.v:391-414 | a waiting operand becomes ready exactly when its own producer broadcasts, with that value, never on the other thread's same-numbered tag |
| AluRunProofs.GrantedIffCast | RV64I_OOO/src/alu_rs.v:456-468 | a resident slot leaves by grant exactly in the cycle its instruction is on a bus |
| AluRunProofs.LanesTakeDistinctSlots | RV64I_OOO/src/alu_rs.v:205-254 | two lanes that dispatch together never fill the same slot |
| AluRunProofs.SquashIsExact | RV64I_OOO/src/alu_rs.v:470-481 | against unbounded sequence numbers a slot is squashed exactly when its thread's branch is older |
| AluRunProofs.StepKeepsInv | RV64I_OOO/src/alu_rs.v:379-483 | every allowed cycle keeps the one-to-one match of resident slots and pending instructions, with operands that are the producers' values or wait for them |
| AluTheorems.RunKeepsInv | RV64I_OOO/src/alu_rs.v:379-483 | the invariant holds at every point of every run from reset |
| AluTheorems.ResultsAreInOrder | RV64I_OOO/src/alu_rs.v:328-483 | in every run each recorded ALU result equals evaluating the program in order |
| AluTheorems.OffersAreInOrder | RV64I_OOO/src/alu_rs.v:364-377 | every value on an issue port, under (thread, tag), is the in-order result of the one live instruction that tag names |
| AluTheorems.ResidentIffPending | RV64I_OOO/src/alu_rs.v:416-481 | an instruction is in the bank exactly while it is dispatched, on the current path and not broadcast: none lost, none kept |
| AluTheorems.SurvivesIffNotYounger | RV64I_OOO/src/alu_rs.v:470-481 | in every run an ungranted slot survives an edge exactly when it is not younger than its own thread's branch, also when both threads squash |
| AluTheorems.HeadIsOffered | RV64I_OOO/src/alu_rs.v:256-326 | in every run a ready ROB head of either thread is offered on port 1 or 2 |
| AluTheorems.ReadyIffKnown | RV64I_OOO/src/alu_rs.v:266-282 | in every run a resident slot is ready exactly when both its sources are known, at dispatch or by their producers' broadcasts |
| AluTheorems.KnownHeadIsOffered | RV64I_OOO/src/alu_rs.v:256-326 | in every run an instruction at its ROB head whose sources are known is on port 1 or 2 in that cycle |
| AluExample.ChainRuns | RV64I_OOO/src/alu_rs.v:379-483 | the environment contract is met by a concrete run in which one result reaches a waiting operand over the bus and its dependent broadcasts in turn |
| AluLaws.LogicalBits | RV64I_OOO/src/alu_rs.v:342-344 | AND, OR and XOR act on each bit of every operand pair |
| AluLaws.LeftShiftBits | RV64I_OOO/src/alu_rs.v:345 | SLL moves every bit up by the low six bits of the amount, zeros enter below, the top is lost |
| AluLaws.RightShiftBits | RV64I_OOO/src/alu_rs.v:346 | SRL moves every bit down and zeros enter above |
| AluLaws.ArithmeticShiftBits | RV64I_OOO/src/alu_rs.v:347 | SRA moves every bit down and the sign bit enters above |
| AluLaws.AddSubCompare | RV64I_OOO/src/alu_rs.v:340-349 | SUB undoes ADD; SLT is SLTU with both sign bits flipped |
| AluLaws.CarryAndBorrow | RV64I_OOO/src/alu_rs.v:340-349 | SUB is the exact difference plus 2^64 times the SLTU bit, and ADD the exact sum minus 2^64 times the SLTU bit of sum and operand |
| BranchLaws.EqualityBranches | RV64I/src/execute.v:178-179 | BEQ is taken exactly when the SUB of its operands is zero, BNE exactly when it is not |
| BranchLaws.OrderBranches | RV64I/src/execute.v:180-184 | BLTU and BGEU are taken exactly on a borrow and on none, BLT and BGE exactly when SLT is 1 and 0, and the two other codes never |
| BranchLaws.SignedBranches | RV64I/src/execute.v:180-181 | the signed branches are the unsigned ones with both sign bits flipped |
| AluLaws.WordForms | RV64I_OOO/src/alu_rs.v:352-360 | each W form is the full form on extended operands, cut to 32 bits and sign-extended |
| Divide.TruncatedDivision | RV64I/src/execute.v:96-105 | truncated division: identity, remainder smaller than the divisor and with the dividend's sign |
| DivFu.Divider.constructor | RV64I_OOO/src/div_fu.v:89-95 | reset leaves the unit idle with busy and done low |
| DivFu.Divider.Tick | RV64I_OOO/src/div_fu.v:89-181 | one clock edge of the unit in all three states equals the step the schedule is proved about |
| DivFuProofs.IterateShifts | RV64I_OOO/src/div_fu.v:132-149 | while R is below D the borrow test keeps the difference exactly when it is not negative |
| DivFuProofs.ShiftKeepsPartial | RV64I_OOO/src/div_fu.v:132-149 | each iteration keeps: dividend prefix = q*D + R with R < D, and the unread dividend bits left-justified in Q |
| DivFuProofs.LoopResult | RV64I_OOO/src/div_fu.v:132-149 | when all bits are read Q and R are quotient and remainder of the magnitudes |
| DivFuProofs.SignFix | RV64I_OOO/src/div_fu.v:163-177 | negating by the recorded signs turns the magnitudes' results into truncated division |
| DivFuProofs.AcceptStarts | RV64I_OOO/src/div_fu.v:99-130 | an accepted start puts the unit at the beginning of that job's schedule |
| DivFuProofs.PhaseAdvances | RV64I_OOO/src/div_fu.v:97-178 | every later edge moves the schedule on by one whatever the inputs are |
| DivFuTheorems.DividerSchedule | RV64I_OOO/src/div_fu.v:89-181 | from an idle unit: busy and silent until edge 2, 34 or 66, then one done pulse with the right quotient and remainder, ignoring inputs meanwhile |
| DivFuTheorems.EarlyIff | RV64I_OOO/src/div_fu.v:76-78 | the two-edge path is taken exactly for a zero divisor or the most negative number by minus one, in the job's own width |
| DivFuTheorems.UnitMatchesExecute | RV64I_OOO/src/div_fu.v:70-178 | for all operands, widths and signedness the unit equals the direct divide if and only if it is not REMUW by zero with bit 31 set |
| DivFuTheorems.RemuwByZeroDiffers | RV64I_OOO/src/div_fu.v:156-158 | the differing case in numbers |
| DivFuTheorems.SignedDivideIdentity | RV64I/src/execute.v:89-108 | the 64-bit signed results satisfy the division identity and remainder bounds off the two special inputs |
| DivRs.Station.constructor | RV64I_OOO/src/div_rs.v:115-119 | reset leaves no entry, not started, no result |
| DivRs.Station.Tick | RV64I_OOO/src/div_rs.v:115-173 | one edge of the station and the unit inside it, in textual order, equals the step of the run theorems |
| Snooping.ReceivedStep | RV64I_OOO/src/div_rs.v:121-134 | one more cycle of snooping extends "the first broadcast of this thread's tag since dispatch" by one cycle |
| DivRsTheorems.AllocationOwnedIffNotDone | RV64I_OOO/src/div_rs.v:84-91 | an allocation that full lets through keeps result ownership if and only if done is low; otherwise the new entry offers the finished division at once |
| DivRsTheorems.RunKeepsOwned | RV64I_OOO/src/div_rs.v:115-173 | in every guarded run whatever the unit does for a resident entry it does for that entry |
| DivRsTheorems.ResidentWasDispatched | RV64I_OOO/src/div_rs.v:121-150 | in every run the resident entry is one dispatched earlier, with exactly the operands dispatched or first broadcast since |
| DivRsTheorems.OffersOwnDivision | RV64I_OOO/src/div_rs.v:110-113 | in every guarded run each offered result divides that entry's own operands, so a squashed division's result is never offered |
| DivRsTheorems.SquashIsExact | RV64I_OOO/src/div_rs.v:166-171 | the entry is squashed exactly when its own thread's branch is older, under tag wrap-around, whatever the other thread does |
| DivRsTheorems.GoneStaysGone | RV64I_OOO/src/div_rs.v:162-171 | once granted or squashed nothing is offered again until another entry is accepted |
| DivRsTheorems.OfferedOnSchedule | RV64I_OOO/src/div_rs.v:152-160 | an unsquashed entry with its operands offers its result exactly one edge after the unit's latency |
| DivRsTheorems.StaleCaptureIsReachable | RV64I_OOO/src/div_rs.v:156-160 | a concrete run that honours full and offers 2^64-1 for 6 divu 3 |
| DecodeOoo.SameAluOpIff | RV64I_OOO/src/decode_ooo.v:107-281 | both decoders pick the same ALU operation exactly off the reserved shift encodings |
| DecodeOoo.SameImmediate | RV64I_OOO/src/decode_ooo.v:107-281 | both decoders extract the same immediate |
| DecodeOoo.DivideAgrees | RV64I_OOO/src/decode_ooo.v:107-281 | the divide classes agree exactly off REMUW by zero with bit 31 set |
| DecodeOoo.ClassesAgree | RV64I_OOO/src/decode_ooo.v:107-281 | both decoders see loads, stores, multiplies and divides in the same words, with the same width, operation, immediate and destination |
| DecodeOoo.CoresAgreeIff | RV64I_OOO/src/decode_ooo.v:107-281 | for every covered unreserved encoding, register state and pc, second decoder plus ALU, divider or branch target gives the same rd value and next pc as the single-cycle core, if and only if it is not that case |
| BranchRs.Station.constructor | RV64I_OOO/src/branch_rs.v:162-164 | reset leaves the slot empty |
| BranchRs.Station.Tick | RV64I_OOO/src/branch_rs.v:162-202 | one edge of the slot equals the step of the run theorems |
| BranchRsTheorems.ResidentWasDispatched | RV64I_OOO/src/branch_rs.v:166-196 | the resident branch is one accepted earlier, with the operands given or first broadcast to its thread since |
| BranchRsTheorems.Alternate | RV64I_OOO/src/branch_rs.v:181-200 | acceptances and resolutions alternate: nothing is overwritten or resolved twice |
| BranchRsTheorems.OfferStands | RV64I_OOO/src/branch_rs.v:147-153 | an offered return address stays on offer unchanged until granted |
| BranchRsTheorems.ResolvesAsExecuted | RV64I_OOO/src/branch_rs.v:129-161 | each resolution redirects to where the single-cycle core would go on those operands, whatever an operand still awaited turns out to be, and links the same value |
| BranchRsTheorems.ResolvesOnceReady | RV64I_OOO/src/branch_rs.v:124-153 | a branch resolves in the first cycle that finds its operands in, a jump in the first that also grants it, and never ungranted |
| Encode.DecodeR | verify/asm.py:48-49 | the decoder reads back every field of an R-type word |
| Encode.DecodeI | verify/asm.py:52-53 | the decoder reads back every field and the signed immediate of an I-type word |
| Encode.DecodeS | verify/asm.py:56-59 | likewise for the split S-type immediate |
| Encode.DecodeB | verify/asm.py:62-69 | likewise for the scattered branch offset, without its lowest bit |
| Encode.DecodeU | verify/asm.py:72-73 | likewise for the upper immediate, sign-extended |
| Encode.DecodeJ | verify/asm.py:76-81 | likewise for the scattered jump offset, without its lowest bit |
| Encode.KnownWords | verify/asm.py:84-93 | one word of each opcode equals the published machine word |
| CompressedProofs.ExpandsIff | RV64I/src/compressed_decoder.v:67-177 | for every compressed form its encoders accept and any following halfword, the expander yields the documented 32-bit equivalent if and only if the offset is a multiple of its scale and the registers select no other instruction |
| CompressedInverse.EveryHalfword | RV64I/src/compressed_decoder.v:67-177 | the converse: every halfword that starts no full-size word is the exact encoding of a form the assembler accepts and expands to its equivalent, or is reserved and expands to a no-op |
| AssemblerMeaning.ExpandIsFullSize | RV64I/src/compressed_decoder.v:67-177 | whatever is fetched expands to a word of full size |
| Assembler.Assembler64.constructor | RV64I/verify/asm64.py:359-361 | a new assembler knows no labels |
| Assembler.Assembler64.FirstPass | RV64I/verify/asm64.py:396-404 | the first loop leaves each line's byte address and the label table |
| Assembler.Assembler64.SecondPass | RV64I/verify/asm64.py:406-409 | the second loop concatenates the lines' encodings, or fails where the first line fails |
| Assembler.Assembler64.Assemble | RV64I/verify/asm64.py:391-409 | both passes together give the items the round-trip theorems are about |
| Assembler.WriteHalfwords | RV64I/verify/asm64.py:787-802 | the written file is the items' halfwords, low half first |
| AssemblerTheorems.SizeIsEmitted | RV64I/verify/asm64.py:384-389 | pass one reserves exactly the bytes pass two emits, for every operation |
| AssemblerTheorems.AddressIsPosition | RV64I/verify/asm64.py:391-409 | each line's pass-one address is the byte position it is emitted at |
| AssemblerTheorems.LabelIsLine | RV64I/verify/asm64.py:399-401 | a label's value is the address of the last line that defines it |
| AssemblerTheorems.FetchItem | RV64I/src/instruction_fetch.v:27-28 | fetching at an item's position and expanding gives that item, and its low bits tell its size |
| AssemblerTheorems.WalkRecovers | RV64I/src/instruction_fetch.v:27-28 | stepping by 2 or 4 from any item's position recovers the rest of the list |
| AssemblerTheorems.AssembledRunsAsWritten | RV64I/verify/asm64.py:391-450 | assemble, write, fetch and expand from pc 0 recovers exactly the program's 32-bit instructions, compressed ones as their equivalents, whatever lies beyond the image |
| AssemblerTheorems.JumpLandsOnLabel | RV64I/verify/asm64.py:447-450 | the immediate hardware decodes from any label operand, plus the line's own address, is the label's address |
| AssemblerMeaning.LineReads | RV64I/verify/asm64.py:452-669 | every field and immediate the decoder extracts from a line's words is the one the line names: registers, function codes, signed immediates, shift amounts, branch and jump distances, upper immediates, for every format |
| AssemblerMeaning.LineRunsAsMeant | RV64I/verify/asm64.py:391-450 | in the assembled program, what is fetched and expanded from each line's own address decodes to exactly what that line says |
| AssemblerMeaning.AcceptedIff | verify/asm.py:30-41 | a line with an immediate is refused if and only if no word of its format decodes to that immediate |
| Li64.LoadsConstant | RV64I/verify/asm64.py:411-445 | running the eight words leaves rd equal to the constant, x28 its zero-extended low half, pc 32 further and every other register and memory unchanged, for every 64-bit value and rd other than x0 and x28 |
| Multiply.MulhAndMul | RV64I/src/execute.v:74-84 | MULH above MUL is the exact signed product |
| Multiply.MulhsuAndMul | RV64I/src/execute.v:74-84 | MULHSU above MUL is the exact signed-by-unsigned product |
| Multiply.MulhuAndMul | RV64I/src/execute.v:74-84 | MULHU above MUL is the exact unsigned product |
| Multiply.MulIsLow | RV64I/src/execute.v:136-147 | MUL is the low half under every reading of the operands |
| Multiply.MulwIsWordProduct | RV64I/src/execute.v:148-153 | the low 32 bits of the 64-bit signed product are the product of the low words |
| Rounding.NearestEvenIsUnique | RV64I/src/fpu.v:231-275 | at most one pattern is nearest with ties to even |
| Rounding.BracketRounds | RV64I/src/fpu.v:260-266 | choosing between the two neighbours by the half-ulp rule is nearest-even among all patterns |
| Rounding.OtherNeighbour | RV64I/src/fpu.v:260-266 | choosing the other neighbour never is |
| Rounding.NearestEvenIsMonotone | RV64I/src/fpu.v:271-275 | nearest-even rounding never reverses order |
| Rounding.GuardSticky | RV64I/src/fpu.v:254-255 | the guard bit and the sticky OR compare the dropped part with one half |
| Fpu.FindMsb | RV64I/src/fpu.v:288-290 | the bit scan finds the top set bit |
| Fpu.IntToFloat | RV64I/src/fpu.v:236-308 | the conversion with scan, shift, guard, sticky and carry, for both formats, equals the pattern the rounding theorems are about |
| FpuInt.IncrementCarries | RV64I/src/fpu.v:299-305 | the two ways of packing the fields both add the increment to the whole pattern, carry-out included |
| FpuInt.IntToDoubleIsNearest | RV64I/src/fpu.v:275-308 | integer to double is round-to-nearest-even for every 64-bit magnitude |
| FpuInt.IntToDoubleIsMonotone | RV64I/src/fpu.v:275-308 | a larger magnitude never converts to a smaller double |
| FpuInt.IntToSingleIsNearestIff | RV64I/src/fpu.v:236-269 | integer to single is round-to-nearest-even if and only if the magnitude is not an odd number with top bit 23 for which the read of bit -1 gives one |
| FpuTrunc.IntegerPartIsFloor | RV64I/src/fpu.v:428-442 | the shifted significand is the floor of the double's value, saturated at 64 ones |
| FpuTrunc.SignedRoundTripIff | RV64I/src/fpu.v:404-453 | converting a signed integer to double and back returns it if and only if it has at most 53 significant bits or is 2^63-1 |
| FpuTrunc.UnsignedRoundTripIff | RV64I/src/fpu.v:404-453 | likewise for unsigned, with 2^64-1 the saturated case |
| FpuTrunc.SmallIsRepresentable | RV64I/src/fpu.v:404-453 | so every magnitude up to 2^53 survives the round trip |
| FpuClamp.FiniteIsClamped | RV64I/src/fpu.v:425-451 | for every finite double and all four targets the result is the value truncated toward zero and clamped to the target's range |
| FpuClamp.SpecialIsClamped | RV64I/src/fpu.v:420-424 | an infinity becomes the bound of its sign, a NaN of either sign the greatest value |
| FpuClamp.NarrowKeepsClass | RV64I/src/fpu.v:87-97 | narrowing makes a NaN exactly from a NaN, keeping its top payload bits or the quiet bit, and keeps infinity |
| FpuClamp.WidenKeepsClass | RV64I/src/fpu.v:58-59 | widening keeps infinities and NaNs with their payload |
| FpuWidth.NarrowIncrements | RV64I/src/fpu.v:112-122 | the normal path adds the rounding increment to the whole pattern, into the next binade and up to infinity |
| FpuWidth.NarrowNormalIsNearest | RV64I/src/fpu.v:95-123 | every double at or above the least normal single narrows to nearest even, overflow to infinity included |
| FpuWidth.SubnormalIsHalved | RV64I/src/fpu.v:98-110 | below it the result is exactly half the value, rounded to nearest even |
| FpuWidth.HalvedIsUnique | RV64I/src/fpu.v:98-110 | at most one pattern is half the value rounded to nearest even |
| FpuWidth.CarryIsDead | RV64I/src/fpu.v:108-110 | no subnormal result reaches bit 23, so the carry branch never runs |
| FpuWidthTheorems.NarrowIsNearestIff | RV64I/src/fpu.v:76-126 | narrowing a finite double is correctly rounded if and only if its exponent and mantissa lie outside the halved range |
| FpuWidthTheorems.Normalise | RV64I/src/fpu.v:63-64 | the normalising loop ends after 22 minus the top bit shifts, with bit 22 set |
| FpuWidthTheorems.WidenIsExactIff | RV64I/src/fpu.v:50-73 | widening a finite single keeps its value if and only if it is zero, normal or a subnormal power of two |
| FpuClamp.WidenSubnormalIs | RV64I/src/fpu.v:62-67 | what a subnormal single widens to, exactly: the first bit below its top one is dropped and the others move up one place |
| FpuWidthTheorems.RoundTripIff | RV64I/src/fpu.v:50-126 | widening then narrowing returns the single bit for bit, infinities and NaN payloads included, if and only if it is not a nonzero subnormal |
| DataMemory.Bank.constructor | RV64I/src/data_memory.v:53-55 | the array starts as zeros |
| DataMemory.Bank.Clock | RV64I/src/data_memory.v:62-81 | one edge commits the patched doubleword and then the vector's doublewords, and nothing else |
| DataMemory.LaneOfVWrite | RV64I/src/data_memory.v:76-78 | after a vector write the covered elements are the data and no other element changed |
| MemoryBytes.StoreWritesBytes | RV64I/src/data_memory.v:63-72 | a scalar store changes exactly its own bytes, to the data's |
| MemoryBytes.LoadReadsBytes | RV64I/src/data_memory.v:94-112 | a scalar load returns the little-endian bytes at its address, extended as its function asks |
| MemoryBytes.LaneIsBytes | RV64I/src/data_memory.v:87-92 | a vector element is the four bytes at its address |
| MemoryBytes.VectorStoreWritesBytes | RV64I/src/data_memory.v:76-78 | a vector store changes exactly its own bytes |
| MemoryBytes.RunRefines | RV64I/src/data_memory.v:47-81 | after any sequence of in-range stores through both ports the doubleword array is the byte memory the same stores leave |
| MemoryBytes.LoadsSeeLatest | RV64I/src/data_memory.v:47-119 | every load after any such sequence returns the latest bytes |
| MemoryBytes.PackedReadsBack | RV64I/verify/bench_common.py:86-97 | every packed value is found at its element, odd lengths included |
| MemoryBytes.PackedPadding | RV64I/verify/bench_common.py:95-97 | an odd array's last doubleword is filled up with zero |
| MemoryBytes.PreloadMem | RV64I/verify/bench_common.py:100-115 | after preloading any non-overlapping arrays in any order every array is in place and every doubleword outside them is zero |
| VectorLaws.ArithmeticLanes | RV64I/src/vector_alu.v:57-62 | vsub undoes vadd, the logical operations act bit by bit, vmul is the scalar word product |
| VectorLaws.OrderLanes | RV64I/src/vector_alu.v:63-66 | minimum and maximum are the two operands in order, and the six compares are consistent with them and each other |
| VectorLaws.DivideLanes | RV64I/src/vector_alu.v:74-81 | quotient times divisor plus remainder is the dividend for every operand pair, special cases included |
| VectorLaws.CompareLanes | RV64I/src/vector_alu.v:94-99 | the unsigned compare is the borrow of vsub, equality a zero difference, the signed compare the unsigned one with sign bits flipped |
| VectorLaws.UnsignedDivideLanes | RV64I/src/vector_alu.v:74-78 | the unsigned quotient and remainder are exact, without wrapping |
| VectorLaws.SignedDivideLanes | RV64I/src/vector_alu.v:75-81 | the signed ones are the truncated quotient and remainder of the signed readings off the overflow |
| VectorLaws.ShiftLanes | RV64I/src/vector_alu.v:88-90 | the three shifts move every bit by the low five bits of the amount, with zeros below, zeros above and copies of bit 31 above |
| VectorInstructions.DecodesOperation | RV64I/src/decode_control_unit.v:498-566 | the two decode tables undo the assembler's funct6 and form tables for all 23 operations and three operand forms |
| VectorInstructions.DecodesReduction | RV64I/src/decode_control_unit.v:514-527 | likewise for the eight reductions |
| VectorInstructions.ElementwiseInstruction | RV64I/src/riscv64_proc.v:144-215 | one assembled elementwise instruction, in any form and masked or not, sets each enabled lane to the operation of its operands and the others to zero, changing nothing else |
| VectorInstructions.CompareInstruction | RV64I/src/riscv64_proc.v:207-218 | one assembled compare sets bit i of vd exactly when lane i is enabled and passes |
| VectorInstructions.ReductionInstruction | RV64I/src/riscv64_proc.v:220-244 | one assembled reduction folds the enabled elements of vs2 from element 0 of vs1 into element 0 and zeroes the rest |
| VectorInstructions.VsetvliInstruction | RV64I/src/riscv64_proc.v:163-174 | vl and rd become the smaller of request and lanes, all lanes for x0 |
| VectorInstructions.VectorLoadInstruction | RV64I/src/riscv64_proc.v:191-192 | each lane below vl is the four bytes at its address, every other lane zero |
| VectorInstructions.VectorStoreInstruction | RV64I/src/riscv64_proc.v:194-198 | exactly the bytes of the lanes below vl are stored |
| Masks.CompareSelects | RV64I/src/riscv64_proc.v:207-218 | the mask register a compare writes selects, when read back as v0, exactly the lanes that were active and passed, for every width |
| Reduce.ReduceLanes | RV64I/src/riscv64_proc.v:225-244 | the lane loop folds exactly the active elements, below vl and selected by the mask, in order |
| Reduce.ReduceGroups | RV64I/verify/bench_rvv.py:184-207 | feeding vd back as the seed, group after group, under any masks and lengths, folds the active elements of all groups in order |
| Reduce.ChainedIsSequential | RV64I/verify/bench_rvv.py:184-207 | for every length, width and operation the chained reduction of a stripmined array is one sequential fold over it |
| ReductionLoop.VectorReduction | RV64I/verify/bench_rvv.py:115-207 | the reduction loop and the dot-product loop over memory end on one sequential fold of the array, or of the lane products, for every n > 0, even width and operation |
| ReductionLoop.FoldIsDotProduct | RV64I/verify/bench_rvv.py:129-146 | the dot-product fold is the exact integer dot product, wrapped once to 32 bits |
| Reduce.FoldIsSum | RV64I/src/riscv64_proc.v:232 | the sum fold is the sum modulo 2^32 |
| Reduce.FoldIsExtreme | RV64I/src/riscv64_proc.v:236-239 | the minimum and maximum folds give an element no other beats, signed and unsigned |
| Reduce.FoldBits | RV64I/src/riscv64_proc.v:233-235 | the and fold keeps a bit all elements have, the or fold one that any has, the xor fold one an odd number have |
| Core.Processor.constructor | RV64I/src/riscv64_proc.v:167-174 | the reset state, with vl all lanes |
| Core.Processor.Clock | RV64I/src/riscv64_proc.v:133-370 | one edge of fetch, expand, decode, execute, memory, vector unit and write-back equals the step the program theorems use |
| CoreLaws.StoreInstruction | RV64I/src/riscv64_proc.v:320-344 | a scalar store leaves the low bytes of rs2 at rs1 plus the immediate and every other byte and register as it was |
| CoreLaws.LoadInstruction | RV64I/src/riscv64_proc.v:336-353 | a scalar load leaves in rd the extended little-endian bytes at rs1 plus the immediate and nothing else changes |
| CoreLaws.StepIsOutOfOrder | RV64I/src/execute.v:162-231 | an arithmetic, divide, branch or jump step of the core does to registers and pc what the second decoder and the stations do, and nothing more |
| CoreLaws.MultiplyInstruction | RV64I/src/execute.v:136-160 | a multiply writes its half of the product, MULW the extended product of the low words |
| CoreLaws.SizeOnlyMovesPc | RV64I/src/execute.v:168-190 | a compressed instruction's step differs from the same 32-bit one only in the fall-through address and the link value |
| CoreLaws.OtherInstruction | RV64I/src/decode_control_unit.v:569 | any other supported opcode only moves on |
| Stripmine.GroupLane | RV64I/src/riscv64_proc.v:191-198 | one load, operate, merged-store group sets the elements below vl and leaves every other memory element, the tail of the register included |
| Stripmine.GroupMemAfter | RV64I/src/riscv64_proc.v:176-198 | a group extends the finished prefix of the destination even where arrays coincide |
| Stripmine.VectorLoop | RV64I/verify/bench_rvv.py:62-81 | the vector loop ends and sets c[i] to the lane operation of the original a[i] and b[i] for every i below n, changing no other element, for every n > 0 and even width; with y as destination it is axpy |
| Vadd.Iteration | RV64I/verify/bench_compiler_vadd.py:42-56 | one trip of the compiled machine code round its loop has the group's memory effect and register updates |
| VaddTheorem.OneTrip | RV64I/verify/bench_compiler_vadd.py:42-56 | a trip finishes at least one more element and either leaves the loop or is at its head again |
| VaddTheorem.VaddIsCorrect | RV64I/verify/bench_compiler_vadd.py:42-56 | the compiled words, fetched, expanded and decoded by the core, return to the caller for every length (zero and negative too) and even width, with c[i] the wrapped sum of the original elements, no other element and no register outside a0 to a5 changed |
| Atomics.AmoWordIsHalf | RV64I/src/riscv64_proc.v:298-318 | the low word an AMO.W stores is the 32-bit operation on the low words, for all nine operations |
| AtomicsLaws.AmoDoubleIs | RV64I/src/riscv64_proc.v:304-318 | the doubleword operations are the scalar ALU's, and minimum and maximum are the operands in order under either reading |
| AtomicsLaws.OperationDecoded | RV64I/verify/asm64.py:57-67 | the core's funct5 cases undo the assembler's table |
| AtomicsLaws.AmoEffect | RV64I/src/riscv64_proc.v:280-344 | the bytes at an AMO's address become its operation on the old bytes and rs2, in its own width, and no other byte changes |
| AtomicsLaws.ScEffect | RV64I/src/riscv64_proc.v:264-278 | in every run an SC stores its bytes and returns 0 exactly when the reservation stands, else stores nothing and returns 1; the reservation is gone either way |
| AtomicsLaws.StoreEffect | RV64I/src/riscv64_proc.v:267 | a scalar store of a run leaves exactly its bytes |
| Atomics.ReservationFollows | RV64I/src/riscv64_proc.v:269-278 | the machine's reservation follows the clocked registers, with mem_write raised by AMOs and stores but not vector stores |
| Atomics.Reservation.constructor | RV64I/src/riscv64_proc.v:270-271 | reset leaves no reservation |
| Atomics.Reservation.Clock | RV64I/src/riscv64_proc.v:269-278 | one edge of the two reservation registers |
| Atomics.LrMeansReserved | RV64I/src/riscv64_proc.v:264-278 | a reservation stands from its LR on, and without a vector store memory is as the LR saw it |
| Atomics.ReservedMeansLr | RV64I/src/riscv64_proc.v:264-278 | a standing reservation has such an LR |
| Atomics.ScSucceedsIff | RV64I/src/riscv64_proc.v:264-278 | in every run an SC succeeds if and only if the last LR, SC, AMO or scalar or float store before it was an LR of its own address |
| Atomics.VectorStoreKeepsReservation | RV64I/src/riscv64_proc.v:267-278 | a concrete run where a vector store changes the reserved doubleword and the SC succeeds |
| Axi.Controller.constructor | RV64I_OOO/src/axi_ooo_ctrl.v:114-176 | reset holds the cores and lowers every ready, valid and write enable |
| Axi.Controller.Tick | RV64I_OOO/src/axi_ooo_ctrl.v:110-283 | one edge of the handshakes, staging, latches and write pulses equals the step of the protocol theorems |
| AxiRun.WriteStep | RV64I_OOO/src/axi_ooo_ctrl.v:110-227 | each cycle keeps: commits and answers match what the master issued, by the state of the one write in flight |
| AxiRun.ReadStep | RV64I_OOO/src/axi_ooo_ctrl.v:229-283 | likewise for the one read in flight |
| AxiRun.ReadReturnsRegister | RV64I_OOO/src/axi_ooo_ctrl.v:244-283 | a read is answered with the register at its own address as it stood on acceptance, and the data holds until taken |
| AxiRun.ProtocolHolds | RV64I_OOO/src/axi_ooo_ctrl.v:110-283 | over every run every issued write is committed once, in order, with its own address and data, and answered once; reads likewise |
| AxiRun.IdleMeansAllAnswered | RV64I_OOO/src/axi_ooo_ctrl.v:216-227 | when the master is idle everything issued was committed and answered |
| AxiRun.WriteProgress | RV64I_OOO/src/axi_ooo_ctrl.v:110-133 | a write with address and data up is committed within two cycles |
| AxiRun.ReadProgress | RV64I_OOO/src/axi_ooo_ctrl.v:229-283 | a read that is up is accepted within two cycles |
| AxiRun.ControlHolds | RV64I_OOO/src/axi_ooo_ctrl.v:171-186 | in every run the cores are held in reset exactly while bit 0 of the last control write says so, set at first, and a control read returns that bit |
| AxiRun.UnmappedIsInert | RV64I_OOO/src/axi_ooo_ctrl.v:184-268 | a write to no window changes nothing and a read of no register returns zero |
| AxiRun.DeliveredIsEffects | RV64I_OOO/src/axi_ooo_ctrl.v:170-214 | the memories behind the ports are what the committed writes leave, one after another |
| AxiRun.ScriptLoads | RV64I_OOO/src/axi_ooo_ctrl.v:184-212 | the writes of a low-then-high script decode to exactly the intended items |
| AxiRun.ScriptBuildsImage | RV64I_OOO/src/axi_ooo_ctrl.v:135-214 | any run that issued such a script and is idle has built exactly the intended instruction and data images with the cores still in reset, however handshakes stretched |
| AxiRun.LatchIff | RV64I_OOO/src/axi_ooo_ctrl.v:142-168 | a latch is set exactly when its thread has halted since the cores were last in reset |
| AxiRun.StatusReportsHalts | RV64I_OOO/src/axi_ooo_ctrl.v:246-269 | in every run bit t of the status read says exactly that for thread t, and the two program-counter reads make up its pc |

## Left out

- ROB, RAT, LSQ, caches, mul_rs and the out-of-order top level: not part of this model; they appear only as the environment contract of `AluRun`.
- Floating add, subtract, multiply, divide, square root, fused multiply-add and comparisons: they use the simulator's `real` type.
- f32_to_int and fclass: no claim is made; f32_to_int saturates some values that fit.
- FpuClamp.FiniteIsClamped: the unsigned word result is read as the 64-bit register it is, zero-extended as the code leaves it.
- AtomicsLaws.AmoEffect: the register result of LR and AMO is the load path of `CoreLaws.LoadInstruction` and is not part of the reservation machine.
- FpuInt.IntToDoubleIsNearest: sign and magnitude are split by the caller, so the theorems are about magnitudes; both conversions copy the sign bit.
- FpuInt.IntToSingleIsNearestIff: the value of the out-of-range bit read is a parameter, because Verilog leaves it unknown.
- DivRsTheorems.OffersOwnDivision: guarded by "no allocation in a cycle with done high", because without that guard it is false.
- DecodeOoo.CoresAgreeIff: the values of multiplies, loads and stores are not compared, because their stations are not part of this model (`DecodeOoo.ClassesAgree` compares how they are decoded); vector and system instructions are not compared; reserved shift encodings are excluded, where the decoders differ.
- BranchRs.Station.Tick: the three one-hot class flags are one value, so several flags set at once are not modelled.
- BranchRsTheorems.ResolvesAsExecuted: for uncompressed instructions, as the station itself assumes.
- Assembler.Assembler64.FirstPass: text parsing, mnemonic tables, register names and number syntax are not modelled; an operation is its format with its fields, a jump operand its text and the number it parses to.
- Assembler.Assembler64.SecondPass: float, atomic and vector formats appear only as raw words, because their encoders only concatenate fields; the vector arithmetic format and its tables are `VectorInstructions`.
- AssemblerTheorems.AssembledRunsAsWritten: raw words must end in 11 and compressed forms must satisfy `CompressedProofs.Faithful`; with other raw words the size is read wrongly and the list is not recovered.
- Core.Processor.Clock: atomic and floating opcodes are excluded by `Core.Supported`; the atomic state is the separate machine of `Atomics`.
- ReductionLoop.VectorReduction: as for the element-wise loop, the registers are variables; the seed is a parameter rather than the memory word the benchmark loads it from.
- Stripmine.VectorLoop: the loop's registers are variables rather than encoded words; the machine-code form of the same loop is `VaddTheorem.VaddIsCorrect`.
- Stripmine.VectorLoop: each array must be doubleword-aligned and inside the memory up to whole groups, and its destination must not start inside a source past that source's beginning.
- Axi.Controller.Tick: the five write enables, of which at most one is up, are one optional pulse; byte strobes are ignored as the source ignores them.
- AxiRun.ProtocolHolds: for a master with one write and one read outstanding that holds its signals until accepted.
- X values, asynchronous reset timing, messages and memory initialisation files; branch predictor, program counter and register-file modules, whose effect is a plain update.
