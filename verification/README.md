# SemASM in Dafny

SemASM checks assembly routines against contracts and reports a verdict.  This project
models the parts its "verified" verdict rests on and proves what they promise, or
exactly when they keep the promise:

- the x86 memory-effect collector: a one-pass abstract state and four loop recognisers
  (Fb7, Fb8, Fb9a, Fb9b), set against a small-step machine with 64-bit registers, flags
  and byte-addressed memory (`X86`, `Machine`, `Recognisers`, `Recognition`,
  `LoopSoundness`, `LoopEntry`, `Countdown`, `MemoryEffects`, `AccessRecords`,
  `AbstractSoundness`, `Precision`, `Gaps`), the region report built on it
  (`RegionAccess`, `RegionSoundness`, `RegionVerdicts`, `RegionFrame`) and the source's
  own loops as instances (`Examples`);
- the control-flow graph builder, its reachability worklist and the leaf policy (`Cfg`,
  `ControlFlow`, `CfgOrder`, `CfgSoundness`, `CfgReach`, `LeafPolicy`);
- the canonical JSON encoder behind content hashes, with a reader that inverts it
  (`CanonicalJson`, `KeyOrder`, `JsonRoundTrip`);
- the harness protocol: shapes, fixtures, oracles and the evaluator (`Shapes`,
  `ShapeMeaning`, `Fixtures`, `ShapeCoherence`, `IntegerOracles`, `Evaluator`,
  `WritePayloads`);
- alias evidence, contract expressions, verdict composition and the staged run
  (`AliasEvidence`, `ContractExpr`, `Verdict`, `Pipeline`);
- the calendar conversion, the AAPCS64 walk and bounded process capture (`Calendar`,
  `Aapcs64`, `CalleeSaved`, `Capture`).

Loops and in-place updates of the source are methods and a class proved against
specification functions; the theorems are lemmas about those functions.  `dafny verify
dfyconfig.toml` checks everything.

Some promises do not hold for all the code accepts.  There the code is modelled as it
is, a lemma names the input that breaks the promise, and another says when it holds:

- Fb9a records accesses after the increment, where the index reaches N (`PreTestExact`).
  The Fb8 recogniser takes `jns`, whose loop wraps (`CountdownExact`); the lowering lists
  no `jns`, so this is a gap of the recogniser alone (`LoweredCountdownBounded`).  Fb7
  does not look for other ways into the loop; `EntryExact` says which ones do harm.
- The abstract state does not forget after conditional moves, pointer arithmetic, `lea`
  with a displacement, narrow guards, narrow copies and immediate stores to a slot; for
  each, one lemma says exactly when it stays right (`ConditionalMoveExact`,
  `MovedPointerExact`, `LeaExact`, `GuardWidthExact`, `NarrowCopyExact`, `SlotSetExact`).
  `AbstractSoundness.Tracked` is the fragment in which it does.
- A passing range row can leave the middle of the range uncovered: exactly when the
  declared regions leave a gap (`RangeExact`, `RangeGap`).  Saturated arithmetic can call
  an access inside or outside (`InsideIsContainment`, `SaturatedInside`,
  `SaturatedOutside`).
- A `pop` to memory is recorded as a load and a `push` of memory as a store; an update is
  recorded as a store alone (`ModeExact`, `LoadRecorded`, `PopIntoReadOnly`,
  `UpdateOfWriteOnly`).
- The graph builder says callers need not sort their instructions
  (crates/semasm-cfg/src/lib.rs:125); its index ranges are right exactly when the list
  ascends block by block (`RangesExact`, `UnsortedRangeEmpty`).
- The `sum_range` closed form is first wrong at 3037000500 (`SumRangeExact`), the scan and
  replace fixtures are wrong for a few needles (`ScanFixturesExact`,
  `ReplaceFixturesExact`), fixtures can exceed the contract's own length bound
  (`ScanFitsBound` and its companions), and external cases read the wrong inputs unless
  the two `usize` parameters come first (`UnsignedExternalExact`).
- Contract expressions can be judged from one operand alone: a conjunction proven, a
  disjunction or an implication refuted (`DroppedOperandExact`, `DroppedConjunct`,
  `DroppedDisjunct`, `DroppedAntecedent`), and a precondition can be lost through a refuted
  implication (`PreconditionLost`, `JudgeUnconditional`).  Containment atoms are misread
  in three ways (`RowExact`): of equal regions, of a declared containment read backwards, and of a right
  region around the left one, which is observed as a partial overlap
  (`EqualRegionsContain`, `ReversedContainment`, `ReversedPartialOverlap`).  Empty
  regions, say of length parameter 0, are disjoint and judged not to be
  (`RefutedDisjointExact`).
- The AAPCS64 walk counts plain SP loads as pops and trusts SP set from other registers
  (`DeltaExact`, `PlainLoadHidesFrame`); a clean report does not say that a callee-saved
  register keeps its value (`WriteAfterRestore`); `PreservedExact` says when it does.
- The run's exit status and timeout do not enter the verdict (`EndingIgnored`,
  `TimedOutAdmitted`).

## Model

| member | source | states |
|---|---|---|
| Recognisers.IndexWasZeroInitialized | crates/semasm-cli/src/memory_effects.rs:320-361 | the backward scan answers whether the last instruction it regards as a writer of the register zeroes it |
| Recognisers.ZeroInitMeaning | crates/semasm-cli/src/memory_effects.rs:320-361 | the scan says yes if and only if an earlier `xor gp, gp`, `mov gp, 0` or `movabs gp, 0` has no listed write of the register after it (an `xor` with an immediate is no write to it) |
| Recognisers.PostTestBoundAfter | crates/semasm-cli/src/memory_effects.rs:363-433 | the forward scan returns the bound of its specification function |
| Recognisers.PostTestBoundMeaning | crates/semasm-cli/src/memory_effects.rs:363-433 | a bound N found is that of a `cmp gp, N` directly followed by a below-branch, after one increment of the register, with no writer the scan lists in between |
| Recognisers.DiscoverPostTest | crates/semasm-cli/src/memory_effects.rs:296-318 | the Fb7 pass: the map it builds gives each access the fact of its last indexed operand that has one |
| Recognisers.CountdownBoundForAccess | crates/semasm-cli/src/memory_effects.rs:463-546 | the three scans (dec before, branch after, initialiser before) compose to the bound of the specification |
| Recognisers.DecBeforeMeaning | crates/semasm-cli/src/memory_effects.rs:463-488 | the dec found lies before the access with no other writer of the register between them |
| Recognisers.BackBranchMeaning | crates/semasm-cli/src/memory_effects.rs:489-517 | the branch found is a `jnz`, `jne` or `jns` with no writer of the register between access and branch |
| Recognisers.DecBeforeFound | crates/semasm-cli/src/memory_effects.rs:463-488 | conversely the nearest dec within five instructions is found if nothing writes the register after it |
| Recognisers.BackBranchFound | crates/semasm-cli/src/memory_effects.rs:489-517 | conversely the nearest such branch is found if no writer and no other listed branch, call or return comes first |
| Recognisers.CountdownInitFound | crates/semasm-cli/src/memory_effects.rs:518-546 | conversely a last writer that moves a positive constant is found |
| Recognisers.CountdownInitMeaning | crates/semasm-cli/src/memory_effects.rs:518-546 | the initialiser found is the last writer before the dec and moves a positive constant |
| Recognisers.DiscoverCountdown | crates/semasm-cli/src/memory_effects.rs:441-461 | the Fb8 pass builds the map of countdown facts |
| Recognisers.PreTestHeaderMeaning | crates/semasm-cli/src/memory_effects.rs:88-136 | a header accepted has a zeroed index, `cmp gp, N`, a guard leaving past a `jmp` back to the header |
| Recognisers.ScanBody | crates/semasm-cli/src/memory_effects.rs:138-163 | the body scan accepts exactly the bodies with one increment and no other writer of the index |
| Recognisers.DiscoverPreTest | crates/semasm-cli/src/memory_effects.rs:88-174 | the Fb9a pass builds the map of pre-test facts, later headers overriding earlier ones |
| Recognisers.DiscoverCfgPostTest | crates/semasm-cli/src/memory_effects.rs:192-275 | the Fb9b pass builds the map of post-test facts confirmed by the back edge's target |
| Recognisers.Discover | crates/semasm-cli/src/memory_effects.rs:54-63 | the merge of the four maps keeps the first fact for every access |
| Recognition.PostTestExact | crates/semasm-cli/src/memory_effects.rs:363-433 | a bound N is found if and only if ahead lie one `inc` or `add 1` and then `cmp gp, N` with `jb`, `jnae`, `jl` or `jnge` behind it, and no other listed write before and no other compare between |
| Recognition.CountdownExact | crates/semasm-cli/src/memory_effects.rs:463-546 | a countdown bound N is found if and only if `mov gp, N`, a `dec` within five instructions and a `jnz`, `jne` or `jns` stand around the access with no listed write or branch between |
| Recognition.PreTestExact | crates/semasm-cli/src/memory_effects.rs:88-174 | a header records N for an access if and only if it heads a loop of zeroed index, `cmp gp, N`, guard over the back jump, and one `inc` as the body's only listed write, with the indexed access in the body |
| Recognition.TightExact | crates/semasm-cli/src/memory_effects.rs:192-275 | Fb9b records N if and only if increment, compare and a branch back to the access close a loop within its window |
| Recognition.PostTestRecorded | crates/semasm-cli/src/memory_effects.rs:54-63 | a post-test loop of these instructions around an access leaves its register and bound in the merged map |
| Recognition.CountdownRecorded | crates/semasm-cli/src/memory_effects.rs:54-63 | so does a countdown, unless Fb7 claims the access |
| Recognition.PreTestRecorded | crates/semasm-cli/src/memory_effects.rs:54-63 | so does a pre-test loop, unless an earlier pass claims the access or a later header's loop lies around it |
| Recognition.RecordedExact | crates/semasm-cli/src/memory_effects.rs:54-63 | for every program: the merged map has an entry for exactly the accesses in a loop of one of the three shapes |
| LoopSoundness.PreTestFactOrigin | crates/semasm-cli/src/memory_effects.rs:88-174 | every Fb9a fact comes from a recognised loop around its access, with that loop's register and bound |
| LoopSoundness.PreTestSound | crates/semasm-cli/src/memory_effects.rs:88-174 | on every run of any length that starts outside a confined pre-test loop, the index is below N at every place between guard and increment |
| LoopSoundness.PreTestVisits | crates/semasm-cli/src/memory_effects.rs:88-174 | entered with index 0, iteration k reaches every place of the body with index k (k + 1 after the increment) |
| LoopSoundness.PreTestLeaves | crates/semasm-cli/src/memory_effects.rs:88-174 | the loop leaves after exactly N iterations with the index equal to N |
| LoopSoundness.PreTestOverrun | crates/semasm-cli/src/memory_effects.rs:141-163 | an access after the increment is visited with index N: the recorded bound is wrong for it |
| LoopSoundness.PreTestExact | crates/semasm-cli/src/memory_effects.rs:141-163 | the recorded bound holds at every visit of every run if and only if the access precedes the increment or the guard never lets the loop start, as a signed guard with a bound negative at its width |
| LoopSoundness.PostTestFactOrigin | crates/semasm-cli/src/memory_effects.rs:296-318 | every Fb7 fact comes from a recognised post-test loop |
| LoopEntry.PostTestSound | crates/semasm-cli/src/memory_effects.rs:296-433 | on every run that starts outside a confined post-test loop, each visit to the access has index below N, for signed and unsigned branches |
| LoopEntry.PostTestBounded | crates/semasm-cli/src/memory_effects.rs:296-433 | the same for all runs at once: the recorded bound holds at every visit |
| LoopSoundness.PostTestCount | crates/semasm-cli/src/memory_effects.rs:363-433 | after k turns the index is k, and the loop leaves on turn N |
| LoopSoundness.PostTestVisits | crates/semasm-cli/src/memory_effects.rs:296-433 | the access is visited once per turn with the turn number as index, so exactly N times |
| LoopSoundness.CfgFactRecorded | crates/semasm-cli/src/memory_effects.rs:192-275 | every Fb9b access already has an Fb7 fact; with one memory operand it is the same register and bound |
| LoopSoundness.CfgPostTestRedundant | crates/semasm-cli/src/memory_effects.rs:54-63 | for every program, leaving out the Fb9b merge gives the same induction map |
| Countdown.CountdownFactOrigin | crates/semasm-cli/src/memory_effects.rs:441-461 | every Fb8 fact comes from a recognised countdown around its access |
| Countdown.CountdownSound | crates/semasm-cli/src/memory_effects.rs:441-546 | on every run that starts outside a confined countdown with a branch that does not wrap, each visit has index below N |
| Countdown.CountdownCount | crates/semasm-cli/src/memory_effects.rs:441-546 | after k turns the index is N - k and the `jnz` loop leaves on the turn that reaches zero |
| Countdown.CountdownVisits | crates/semasm-cli/src/memory_effects.rs:441-546 | turn k visits the access with index N - 1 - k: every value of 0..N once, descending |
| Countdown.CountdownOverrun | crates/semasm-cli/src/memory_effects.rs:493-514 | with `jns` the turn after zero visits the access with the wrapped index |
| Countdown.CountdownExact | crates/semasm-cli/src/memory_effects.rs:493-514 | the recorded bound holds at every visit if and only if the branch is not a wrapping `jns` |
| Countdown.LoweredCountdownBounded | crates/semasm-x86/src/lower.rs:316-340 | the lowering lists no `jns`, so in every program it accepts each confined countdown fact is right |
| MemoryEffects.Tracker.constructor | crates/semasm-cli/src/memory_effects.rs:565-582 | parameter registers of the calling convention start out as pointer bases, everything else unknown |
| MemoryEffects.Tracker.UpdateMov | crates/semasm-cli/src/memory_effects.rs:759-831 | moves copy, set, spill, reload or forget, exactly as the transfer function on the old state says |
| MemoryEffects.Tracker.Update | crates/semasm-cli/src/memory_effects.rs:725-905 | one instruction takes the mutable maps to the transfer of their old contents, nothing else changes |
| MemoryEffects.Collect | crates/semasm-cli/src/memory_effects.rs:39-86 | the pass records the accesses of every instruction under the state before it and the merged loop facts |
| AccessRecords.StoreRecorded | crates/semasm-cli/src/memory_effects.rs:584-639 | every store of the machine except a push is recorded, with its address, its full width and mode store (load for `pop`) |
| AccessRecords.LoadRecorded | crates/semasm-cli/src/memory_effects.rs:584-639 | every memory operand whose value is taken is recorded at its width, as a load unless it is stored to as well or pushed |
| AccessRecords.RecordedExact | crates/semasm-cli/src/memory_effects.rs:610-639 | for encodable instructions, a memory operand is recorded if and only if the machine reads or writes it (or the instruction is `nop`) |
| AccessRecords.ModeExact | crates/semasm-cli/src/memory_effects.rs:610-639 | the recorded mode says whether the machine writes if and only if the instruction is neither `push` nor `pop` |
| AccessRecords.UntouchedIrrelevant | crates/semasm-cli/src/memory_effects.rs:610-639 | an operand neither read nor written does not matter: the step is the same with any other there |
| Precision.CopyExact | crates/semasm-cli/src/memory_effects.rs:759-831 | after a 64-bit copy the claims about the destination hold exactly where those about the source did |
| Precision.ConstantExact | crates/semasm-cli/src/memory_effects.rs:759-831 | after `mov dst, n` the one claim is that the register holds n |
| Precision.ZeroExact | crates/semasm-cli/src/memory_effects.rs:852-880 | after `xor g, g` the one claim is that the register holds 0 |
| Precision.SpillReload | crates/semasm-cli/src/memory_effects.rs:759-831 | a pointer parameter spilled to a frame slot and loaded back is known under the same name |
| Precision.GuardAdds | crates/semasm-cli/src/memory_effects.rs:735-754 | a compare and a guard not taken add exactly the claim that the register is below the immediate |
| Precision.IndexRecorded | crates/semasm-cli/src/memory_effects.rs:642-699 | the record of an indexed access claims of the index exactly what is known: loop fact first, then constant, then bound |
| AbstractSoundness.TransferSound | crates/semasm-cli/src/memory_effects.rs:725-905 | for the tracked 64-bit fragment, one machine step keeps every constant, upper bound, pointer base, spill slot and pending compare right |
| AbstractSoundness.LinearSound | crates/semasm-cli/src/memory_effects.rs:39-86 | by induction over any fall-through run: each `consts` entry equals its register, each `uppers` entry strictly bounds it |
| AbstractSoundness.ClassifySound | crates/semasm-cli/src/memory_effects.rs:642-699 | a recorded address is the machine's: base plus offset, with the index equal to `index_const` or below `index_max_exclusive` |
| AbstractSoundness.InitialSound | crates/semasm-cli/src/memory_effects.rs:565-582 | the seeded state is right about any machine state at entry |
| AbstractSoundness.InitialExact | crates/semasm-cli/src/memory_effects.rs:565-582 | a register is taken for a parameter if and only if that parameter is a pointer passed in it |
| RegionAccess.ScanCandidates | crates/semasm-contract/src/region_access.rs:368-439 | the candidate scan finds the containing regions, in order, and whether every candidate lies outside |
| RegionAccess.JudgeAffineAccess | crates/semasm-contract/src/region_access.rs:368-439 | the row for one offset is that of its specification function |
| RegionAccess.Evaluate | crates/semasm-contract/src/region_access.rs:142-209 | rows and status by the source's loops: passed, failed and passed under preconditions each exactly characterised over the rows |
| RegionSoundness.InsideIsContainment | crates/semasm-contract/src/region_access.rs:511-536 | for all signed 64-bit offsets: inside is containment in a region of literal length if and only if the region and access ends do not saturate |
| RegionSoundness.AffineRowExact | crates/semasm-contract/src/region_access.rs:368-439 | a row about one offset passes if and only if a declared region of the base allows and contains the access |
| RegionSoundness.SaturatedInside | crates/semasm-contract/src/region_access.rs:511-536 | past the largest offset an access can be judged inside and not be contained |
| RegionVerdicts.OutsideExact | crates/semasm-contract/src/region_access.rs:511-536 | an access is outside a region if and only if it shares no byte with it, whatever length a parameter has; only an empty region within the access is not called outside |
| RegionVerdicts.SaturatedOutside | crates/semasm-contract/src/region_access.rs:511-536 | an access that reaches past the largest offset can be called outside of a region it overlaps |
| RegionVerdicts.OutsideRowExact | crates/semasm-contract/src/region_access.rs:368-439 | a row is proven outside if and only if the base has regions and the access meets none of them |
| RegionVerdicts.DeniedRowExact | crates/semasm-contract/src/region_access.rs:368-507 | a row is denied if and only if what contains the access, or else what it can meet, forbids its mode |
| RegionVerdicts.RelyingRowExact | crates/semasm-contract/src/region_access.rs:475-507 | a row leans on a declared length if and only if the access is not contained, meets a region, and the first region allowing its mode has a length parameter |
| RegionVerdicts.IndexedRowExact | crates/semasm-contract/src/region_access.rs:303-366 | a row about an unbounded index fails if and only if the base has regions and none allows the mode, and relies on the caller if one does |
| RegionVerdicts.NamedRegion | crates/semasm-contract/src/region_access.rs:441-473 | the region a passing row names allows and contains the access |
| RegionVerdicts.NamedRange | crates/semasm-contract/src/region_access.rs:263-301 | the region a passing range row names contains the access at the last index |
| RegionVerdicts.PermissionExact | crates/semasm-contract/src/alias.rs:461-469 | loads need a region that may be read, stores one that may be written |
| RegionVerdicts.JudgedExact | crates/semasm-contract/src/region_access.rs:211-301 | for every representable access: passing, failing and relying in terms of the declared regions and the access alone |
| RegionVerdicts.StatusExact | crates/semasm-contract/src/region_access.rs:142-209 | the report fails if and only if some access fails, passes if and only if all pass, and passes under preconditions if and only if all pass or rely and some relies, without mentioning rows |
| RegionVerdicts.StrayAccessFails | crates/semasm-cli/src/memory_effects.rs:39-86 | for every program: an access at a fixed offset from an untouched pointer parameter that meets no region of that parameter makes the report fail |
| RegionSoundness.RangeRowExact | crates/semasm-contract/src/region_access.rs:263-301 | a row about a range passes if and only if declared regions admit the access at both its ends |
| RegionSoundness.RangeExact | crates/semasm-contract/src/region_access.rs:263-301 | at any scale, every passing row is right about every index if and only if the declared regions that allow the access leave no gap that an index reaches in steps of the scale |
| RegionSoundness.RangeFilled | crates/semasm-contract/src/region_access.rs:263-301 | without a gap at its scale a passing row is right about every index |
| RegionSoundness.SingleRegionNoGap | crates/semasm-contract/src/region_access.rs:263-301 | one allowing region for the base leaves no gap at any scale |
| RegionSoundness.RangeGap | crates/semasm-contract/src/region_access.rs:263-301 | two regions, one at each end of a range: the row passes and the middle lies in neither |
| RegionSoundness.JudgedCovered | crates/semasm-contract/src/region_access.rs:211-256 | a passing row is right about every machine address its record describes |
| RegionSoundness.PassedAccessCovered | crates/semasm-cli/src/memory_effects.rs:39-86 | end to end on fall-through runs: when the report of a tracked program passes, whatever is about to be read or written through a memory operand is recorded and touches only bytes of a declared region allowing the recorded mode; a loop fact at the access must come from a sound loop |
| RegionSoundness.FactHolds | crates/semasm-cli/src/memory_effects.rs:54-63 | a fact from a sound loop of any of the recognisers holds at every visit of every run from entry |
| RegionSoundness.LoopVisitCovered | crates/semasm-cli/src/memory_effects.rs:39-86 | for every program whose report passes: every read or write at every visit of every run from entry to an access bounded by a sound loop is recorded by the collector and touches only bytes of a declared region |
| RegionSoundness.LoopAccessCovered | crates/semasm-cli/src/memory_effects.rs:584-608 | a record with a bound that holds at every visit, judged inside, covers every visit of the loop |
| RegionFrame.OnlyRegionsWritten | crates/semasm-cli/src/memory_effects.rs:39-86 | after every tracked fall-through run under a passing report, each byte of memory is as it was, lies in a declared region that may be written, or was stored to the stack |
| RegionFrame.PopIntoReadOnly | crates/semasm-cli/src/memory_effects.rs:636-638 | `pop [rdi]` writes a read-only region and its row passes |
| RegionFrame.UpdateOfWriteOnly | crates/semasm-cli/src/memory_effects.rs:626-635 | `add [rdi], rax` reads a write-only region and its row passes |
| Examples.PreTestExample | crates/semasm-cli/src/memory_effects.rs:1326-1360 | the collector's own pre-test example meets every hypothesis of the pre-test theorems |
| Examples.PostTestExample | crates/semasm-cli/src/memory_effects.rs:1217-1250 | so does its post-test example |
| Examples.CountdownExample | crates/semasm-cli/src/memory_effects.rs:1272-1300 | so does its countdown example |
| Examples.PreTestFactRecorded | crates/semasm-cli/src/memory_effects.rs:1326-1380 | the merged passes record the bound 8 for the load of that example |
| Examples.PreTestExampleCovered | crates/semasm-cli/src/memory_effects.rs:1326-1380 | every load of the pre-test example, on every run from entry, stays within its eight-byte region, by the collector's own record and report |
| Gaps.ConditionalMoveRecorded | crates/semasm-cli/src/memory_effects.rs:901-903 | after `mov rax, 3; cmovb rax, rcx` the constant 3 is still recorded for the index |
| Gaps.ConditionalMoveUnseen | crates/semasm-cli/src/memory_effects.rs:901-903 | the machine's register is then whatever `rcx` held |
| Gaps.ConditionalMoveExact | crates/semasm-cli/src/memory_effects.rs:901-903 | a conditional move from a register without facts keeps the pass right in every state if and only if its destination has none |
| Gaps.MovedPointerExact | crates/semasm-cli/src/memory_effects.rs:888-900 | `add g, n` keeps a parameter pointer right in every state if and only if n is 0 modulo 2^64 |
| Gaps.LeaExact | crates/semasm-cli/src/memory_effects.rs:832-848 | `lea` from a parameter pointer is right in every state if and only if its displacement is 0 modulo 2^64 |
| Gaps.NarrowCopyExact | crates/semasm-cli/src/memory_effects.rs:759-831 | a 32-bit copy of a known constant is right in every state if and only if the constant is below 2^32 |
| Gaps.GuardWidthExact | crates/semasm-cli/src/memory_effects.rs:735-754 | a guard of any width bounds the whole register if and only if it is unsigned and 64 bits wide |
| Gaps.MovedPointerUnseen | crates/semasm-cli/src/memory_effects.rs:888-900 | the machine's pointer has moved by 100 |
| Gaps.MovedPointerRecorded | crates/semasm-cli/src/memory_effects.rs:888-900 | `add rdi, 100` leaves the pointer recorded as the parameter at offset 0 |
| Gaps.LeaDropsDisplacement | crates/semasm-cli/src/memory_effects.rs:832-848 | `lea rdi, [rdi + 8]` keeps the pointer base and loses the 8 |
| Gaps.NarrowGuardRecorded | crates/semasm-cli/src/memory_effects.rs:735-754 | a 32-bit compare and guard record a bound on the whole register |
| Gaps.NarrowGuard | crates/semasm-cli/src/memory_effects.rs:735-754 | the guard falls through with the whole register above that bound |
| Gaps.GuardExact | crates/semasm-cli/src/memory_effects.rs:735-754 | for bounds below 2^63, a bare guard bounds its register whatever it held if and only if it is not the signed `jge` |
| Gaps.NarrowCopy | crates/semasm-cli/src/memory_effects.rs:759-831 | a 32-bit register copy keeps a 64-bit constant the machine truncates |
| Gaps.XorImmediateUnseen | crates/semasm-cli/src/memory_effects.rs:320-361 | `xor rax, 5` is not seen as a writer, so a non-zero index counts as zeroed |
| Gaps.SidewaysVisit | crates/semasm-cli/src/memory_effects.rs:296-318 | a recorded loop entered past its initialiser is visited with any index: one entry that `EntryExact` calls harmful |
| LoopEntry.EntryExact | crates/semasm-cli/src/memory_effects.rs:290-318 | for every straight loop Fb7 matches, however it can be entered: the bound holds at every visit of every run if and only if each branch into it lands after the access with the test stopping every index it may bring (landing on the back branch: its condition rules the back branch out) |
| LoopEntry.LeaksExact | crates/semasm-cli/src/memory_effects.rs:403-419 | what the test lets through: some index from the bound up to a limit goes round again if and only if the limit passes the width of the compare, or its sign for `jl` |
| LoopEntry.EarlyEntryBreaks | crates/semasm-cli/src/memory_effects.rs:296-318 | any loop entered where only plain instructions lie before the access has a visit at the bound or above |
| LoopEntry.SealedHarmless | crates/semasm-cli/src/memory_effects.rs:296-318 | a sealed loop has no such entry, so `Sealed` is a special case of the exact condition |
| Gaps.SlotSetExact | crates/semasm-cli/src/memory_effects.rs:759-830 | an immediate store to a frame slot passes `Tracked` and leaves the slot's record; the pass stays right about the slot if and only if it had no record of it |
| Gaps.RetestedWraps | crates/semasm-cli/src/memory_effects.rs:493-514 | a branch on other flags keeps a recorded countdown going past zero: the flag hypothesis is needed |
| Gaps.SidewaysRecorded | crates/semasm-cli/src/memory_effects.rs:296-318 | Fb7 records the bound for a loop that another jump enters in the middle |
| Gaps.RetestedRecorded | crates/semasm-cli/src/memory_effects.rs:463-546 | Fb8 records the bound for a loop whose branch tests another register |
| Gaps.ConstantOnBackEdge | crates/semasm-cli/src/memory_effects.rs:888-900 | five steps after entry the strided program is at that access again, with index 16 |
| Gaps.ConstantRecorded | crates/semasm-cli/src/memory_effects.rs:642-699 | a constant of the first pass is recorded for an access that a later visit makes with another index |
| Cfg.CutBlocks | crates/semasm-cfg/src/lib.rs:154-229 | the first pass cuts the sorted instructions at terminators, collecting every instruction's edges |
| Cfg.MapInstructions | crates/semasm-cfg/src/lib.rs:234-240 | the instruction map gives each index the last block whose range holds it, and no entry to others |
| Cfg.ResolveOne | crates/semasm-cfg/src/lib.rs:244-288 | edges are resolved to blocks and the block end is rebuilt from the last edge of each kind |
| Cfg.Build | crates/semasm-cfg/src/lib.rs:128-303 | no graph for no instructions, otherwise the resolved blocks and the first block of lowest start address as entry |
| ControlFlow.ClassifyExact | crates/semasm-cfg/src/lib.rs:310-395 | the classification is what groups, mnemonic and decoded target make of control: return, call, jump, condition and destination, case by case |
| CfgSoundness.BuiltPartition | crates/semasm-cfg/src/lib.rs:154-242 | for strictly increasing addresses the blocks tile the instruction indices, are cut exactly at terminators, and block 0 is the entry |
| CfgOrder.RangesExact | crates/semasm-cfg/src/lib.rs:123-242 | for distinct addresses in any order: the index range and the address range of every block name the same instructions, in address order, if and only if below each terminator the next instruction in memory is the next in the list |
| CfgOrder.AscendingPartition | crates/semasm-cfg/src/lib.rs:231-240 | under that condition every instruction lies in the index range of exactly one block |
| CfgOrder.OrderSorts | crates/semasm-cfg/src/lib.rs:134-136 | for distinct addresses the order lists exactly the indices, strictly ascending by address |
| CfgSoundness.BuiltWellFormed | crates/semasm-cfg/src/lib.rs:244-303 | for every non-empty list, sorted or not, every resolved edge and the entry are in range |
| CfgSoundness.EdgesExact | crates/semasm-cfg/src/lib.rs:154-291 | for sorted input a block has an edge to another if and only if an instruction of the one can branch to one of the other |
| CfgSoundness.FlowReachesBlock | crates/semasm-cfg/src/lib.rs:154-291 | every instruction a path of fall-through, jump, taken branch or direct call reaches lies in a block reachable from the entry |
| CfgSoundness.UnreachedBlockIsDead | crates/semasm-cfg/src/lib.rs:502-523 | no path of control reaches an instruction of a block that is not reachable in the graph |
| CfgSoundness.UnsortedRangeEmpty | crates/semasm-cfg/src/lib.rs:123-133 | two instructions in descending address order end up in one block with an empty range: the internal sort is not enough |
| CfgReach.MarkReachable | crates/semasm-cfg/src/lib.rs:502-518 | the worklist marks exactly the reachable blocks and terminates, each block entering the queue at most once |
| CfgReach.UnreachableBlocks | crates/semasm-cfg/src/lib.rs:500-523 | the result is the ascending list of exactly the blocks outside the closure of the resolved edges from the entry |
| LeafPolicy.CheckCfgLeaf | crates/semasm-cli/src/commands.rs:1701-1814 | accepts exactly when no instruction and no block is refused; otherwise the error of the first refused instruction, else the first refused block |
| LeafPolicy.AcceptsExact | crates/semasm-cli/src/commands.rs:1709-1814 | for sorted input: accepted if and only if there is an instruction and none, by its groups, mnemonic and target, can pass control to an address that is neither decoded nor still to be linked |
| LeafPolicy.AcceptedRunsStayInside | crates/semasm-cli/src/commands.rs:1701-1814 | every run of an accepted listing is at decoded instructions until it returns, calls directly, takes a placeholder or falls off the end |
| LeafPolicy.AcceptedRunReaches | crates/semasm-cli/src/commands.rs:1701-1814 | every place a run of an accepted listing visits lies in a block the graph reports reachable |
| LeafPolicy.InstrErrorExact | crates/semasm-cli/src/commands.rs:1709-1748 | the error of an instruction names its address and whether it jumps or calls to an unknown place |
| LeafPolicy.BlockErrorNamed | crates/semasm-cli/src/commands.rs:1757-1814 | the error of a block names its closing instruction and the address that was not decoded |
| CanonicalJson.WriteCanonical | crates/semasm-agent/src/lib.rs:285-339 | the recursive writer appends exactly the canonical bytes of the value to the buffer |
| CanonicalJson.Canonical | crates/semasm-agent/src/lib.rs:278-283 | a fresh buffer ends up holding the canonical bytes |
| JsonRoundTrip.CharBack | crates/semasm-agent/src/lib.rs:294-313 | every scalar value, escaped or in UTF-8, is read back, and no encoded character starts with the closing quote |
| JsonRoundTrip.ValueBack | crates/semasm-agent/src/lib.rs:285-339 | a JSON reader gives back the value, members as a map, and leaves exactly what followed it, if that cannot continue a number |
| JsonRoundTrip.SortedUnique | crates/semasm-agent/src/lib.rs:326-327 | a set of keys has one sorted listing, whatever order the map yields them in |
| KeyOrder.LessIsByteOrder | crates/semasm-agent/src/lib.rs:326-327 | keys compare as the bytes of their UTF-8 do |
| JsonRoundTrip.EscapesExact | crates/semasm-agent/src/lib.rs:294-313 | exactly quotes, backslashes and control characters are escaped, and no encoded byte is a control character |
| JsonRoundTrip.SameMeaningSameBytes | crates/semasm-agent/src/lib.rs:324-336 | values equal up to the order of their members encode to the same bytes |
| JsonRoundTrip.EncInjective | crates/semasm-agent/src/lib.rs:278-339 | equal bytes if and only if equal values up to key order |
| JsonRoundTrip.EncUniquelyDecodable | crates/semasm-agent/src/lib.rs:285-339 | if two encodings followed by delimited rests are the same stream, the values and the rests are the same |
| Evaluator.EvaluateWordsOnly | crates/semasm-agent/src/harness.rs:4719-4753 | one case per vector by name; all pass if and only if stdout begins with the little-endian expected words |
| Evaluator.EvaluateCountAndBuffer | crates/semasm-agent/src/harness.rs:4785-4847 | all pass if and only if stdout begins with the expected words followed by every expected guarded region in order |
| Evaluator.Evaluate | crates/semasm-agent/src/harness.rs:4701-4716 | for every shape: all pass if and only if stdout begins with the whole expected stream |
| Evaluator.HarnessPasses | crates/semasm-agent/src/harness.rs:2784-2833 | the output of a complete harness run passes if and only if every result word and every region byte is the expected one |
| Evaluator.GuardsIntact | crates/semasm-agent/src/harness.rs:4755-4762 | a region is the expected one if and only if both guard bytes and each payload byte are |
| WritePayloads.ReplacePayload | crates/semasm-agent/src/harness.rs:1972-1989 | for every replace vector: guards, the buffer's length, the replacement wherever the needle was and every other byte untouched |
| WritePayloads.ReplaceWordIsChanges | crates/semasm-agent/src/harness.rs:1884-1989 | the expected result word is the number of bytes the expected payload changes |
| WritePayloads.IdleReplaceExact | crates/semasm-agent/src/harness.rs:1884-1989 | leaving every buffer alone meets the replace fixtures if and only if needle and replacement are the same |
| WritePayloads.IdleReplaceRunFails | crates/semasm-agent/src/harness.rs:4785-4847 | otherwise the complete output of such a routine does not pass, whatever words it returns |
| WritePayloads.FillPayload | crates/semasm-agent/src/harness.rs:2133-2145 | for every vector: as many bytes as asked for, each the fill byte, between guards |
| WritePayloads.FillFixtures | crates/semasm-agent/src/harness.rs:2065-2131 | the memset fixtures ask for the whole buffer to hold the value, and the result 0 |
| WritePayloads.CopyPayload | crates/semasm-agent/src/harness.rs:2295-2304 | for every copy of bytes: the destination holds the source and the source is as it was, each between guards |
| WritePayloads.CopyRegions | crates/semasm-agent/src/harness.rs:4772-4782 | for every vector: the destination is read modulo 256 and comes first, the source is capped at 255 |
| WritePayloads.CopyFixtures | crates/semasm-agent/src/harness.rs:2231-2287 | the memcpy fixtures copy between buffers of one length, given as such, and ask for the result 0 |
| WritePayloads.IdleCopyFails | crates/semasm-agent/src/harness.rs:2231-2287 | a copy routine that leaves its destination alone disagrees with a fixture |
| Evaluator.CopyExpectationConsistent | crates/semasm-agent/src/harness.rs:4772-4782 | the two expectations for a copied byte agree if and only if every item is at most 255 or ends in 0xff |
| IntegerOracles.WrappedSumIsTriangle | crates/semasm-agent/src/harness.rs:414-424 | the running 64-bit sum 0+1+..+n is the wrapped triangular number |
| IntegerOracles.SumRangeExact | crates/semasm-agent/src/harness.rs:414-424 | the closed form equals the running sum if and only if n(n+1)/2 + 2^62 modulo 2^64 is below 2^63 |
| IntegerOracles.SumRangeCorrect | crates/semasm-agent/src/harness.rs:414-424 | the closed form is the unwrapped sum for every n up to 3037000499 |
| IntegerOracles.SumRangeWrong | crates/semasm-agent/src/harness.rs:178-192 | it is wrong for every n from 3037000500 to 5260239168, which external cases may name |
| IntegerOracles.AddThenDoubleWraps | crates/semasm-agent/src/harness.rs:357-366 | doubling the wrapped sum is the wrapped double of the sum |
| IntegerOracles.SignedMeaning | crates/semasm-agent/src/harness.rs:358-366 | sum, difference and double sum are the one signed word congruent to them, minimum and maximum the bound attained |
| IntegerOracles.UnaryMeaning | crates/semasm-agent/src/harness.rs:414-424 | likewise for one operand; the magnitude of the least word is itself |
| Fixtures.NonNeedleBytes | crates/semasm-agent/src/harness.rs:1684-1696 | the loop finds the three smallest bytes other than the needle |
| Fixtures.ScanFixturesExact | crates/semasm-agent/src/harness.rs:861-1175 | count, find-first and find-last fixtures expect what their oracle claims if and only if the needle is not 0 |
| Fixtures.ReplaceFixturesExact | crates/semasm-agent/src/harness.rs:1884-1969 | replace fixtures expect the number of needles if and only if the needle is not 1 or 2, nor 7 unless that is also the replacement |
| Fixtures.CompareFixturesCorrect | crates/semasm-agent/src/harness.rs:1179-1258 | every memcmp fixture expects the sign of the first unsigned difference |
| Fixtures.SumFixturesCorrect | crates/semasm-agent/src/harness.rs:1284-1340 | every sum fixture expects the wrapped sum of its values |
| Fixtures.IdleMemsetFails | crates/semasm-agent/src/harness.rs:2065-2131 | a routine that leaves its buffer alone disagrees with a memset fixture |
| Fixtures.CellFixturesCorrect | crates/semasm-agent/src/harness.rs:1661-1682 | a cell load is to return the cell and a cell store the stored value |
| Fixtures.ExpectedMeaning | crates/semasm-agent/src/harness.rs:4560-4570 | the result word of an integer is its residue modulo 2^64 |
| ShapeCoherence.SynthesizedIffRecognised | crates/semasm-agent/src/harness.rs:94-132 | a contract gets vectors if and only if it has a recognised oracle |
| ShapeMeaning.TokenExact | crates/semasm-agent/src/harness.rs:1572-1580 | a token of a name is a part of it that stands between underscores or the ends |
| ShapeMeaning.UnsignedExact | crates/semasm-agent/src/harness.rs:1349-1430 | `usize` minimum or maximum is recognised if and only if the types fit, name or promises speak for it and neither speaks for the other |
| ShapeMeaning.PromiseKept | crates/semasm-agent/src/harness.rs:1404-1430 | the operation read from the promises keeps them, whatever the operands |
| ShapeMeaning.SignedNameExact | crates/semasm-agent/src/harness.rs:1542-1570 | a name gives a signed operation if and only if it is a combined name or has tokens of that operation alone |
| ShapeMeaning.SignedExact | crates/semasm-agent/src/harness.rs:1507-1599 | a signed operation is recognised if and only if the types fit, name or promises speak for it and neither disagrees |
| ShapeMeaning.UnaryExact | crates/semasm-agent/src/harness.rs:1601-1651 | a one-operand operation is recognised if and only if the types fit and the name mentions it and no other |
| ShapeMeaning.ScanExact | crates/semasm-agent/src/harness.rs:2306-2358 | a scan, its direction, needle, length bound and nullability, in terms of the first parameters by type, the words of the name, the conditions and the read effect |
| ShapeMeaning.ReplaceExact | crates/semasm-agent/src/harness.rs:1831-1882 | a replacement: the first byte parameter is the needle, the second the replacement |
| ShapeMeaning.MemsetExact | crates/semasm-agent/src/harness.rs:2014-2063 | a memset: exactly one byte parameter, a write effect, and so on, if and only if |
| ShapeMeaning.MemcpyExact | crates/semasm-agent/src/harness.rs:2168-2229 | a memcpy, if and only if: three parameters of the right types, one `usize` result, a write effect |
| ShapeMeaning.MemCmpExact | crates/semasm-agent/src/harness.rs:1729-1773 | a memcmp, if and only if: two distinct byte pointers, a length, one `isize` result |
| ShapeMeaning.SumExact | crates/semasm-agent/src/harness.rs:1775-1829 | a sum, if and only if: a pointer to words, a length and a word result |
| ShapeMeaning.CellExact | crates/semasm-agent/src/harness.rs:1653-1659 | the single-cell routines go by name alone |
| ShapeMeaning.OracleWrites | crates/semasm-agent/src/harness.rs:741-785 | exactly the replace, memset and memcpy oracles have guarded regions read back |
| ShapeMeaning.AdmittedExact | crates/semasm-agent/src/harness.rs:140-215 | an external case is admitted if and only if it has an id, a value for each parameter and no other, and words in range |
| ShapeCoherence.ResolutionCoherent | crates/semasm-agent/src/harness.rs:714-738 | whenever vectors exist, resolution succeeds with the recognised oracle's shape, whatever vectors are appended |
| ShapeCoherence.ResolveExact | crates/semasm-agent/src/harness.rs:714-858 | resolution yields a shape if and only if it is the oracle's and buffers and numbers stand in the first vector as that shape has them |
| ShapeCoherence.IntegerOracleRecognised | crates/semasm-agent/src/harness.rs:442-534 | a contract that admits external cases is recognised as exactly that integer oracle |
| ShapeCoherence.ExternalExpected | crates/semasm-agent/src/harness.rs:140-205 | an accepted case of a contract without surplus parameters passes the caller's inputs in order and expects the oracle's value |
| ShapeCoherence.UnsignedExternalExact | crates/semasm-agent/src/harness.rs:140-177 | for every two-usize contract with distinct names: every accepted case expects the oracle's value of its two usize inputs if and only if those parameters come first |
| ShapeCoherence.SurplusParameter | crates/semasm-agent/src/harness.rs:168-177 | with a surplus leading parameter the expectation is the minimum of the wrong pair |
| ShapeCoherence.LengthBoundSound | crates/semasm-agent/src/harness.rs:2360-2401 | no length that meets the contract's conditions exceeds the bound taken from them |
| ShapeCoherence.LengthBoundLeast | crates/semasm-agent/src/harness.rs:2360-2371 | the bound is the least the conditions give, and there is one if any gives one |
| ShapeCoherence.BoundOfExact | crates/semasm-agent/src/harness.rs:2373-2401 | a condition that gives a bound says exactly that the length respects it, unless it excludes length 0 |
| ShapeCoherence.BoundSpellings | crates/semasm-agent/src/harness.rs:2373-2401 | the four spellings of an upper bound are recognised |
| ShapeCoherence.RequiredByteExact | crates/semasm-agent/src/harness.rs:2403-2436 | a byte is recognised from the first condition that sets it equal to a byte, either way round, and only so |
| ShapeCoherence.ScanFitsBound | crates/semasm-agent/src/harness.rs:861-1175 | scan fixtures obey the contract's length bound if and only if it allows three bytes |
| ShapeCoherence.ReplaceFitsBound | crates/semasm-agent/src/harness.rs:1884-1968 | replace fixtures, if and only if it allows five |
| ShapeCoherence.MemsetFitsBound | crates/semasm-agent/src/harness.rs:2065-2129 | memset fixtures, if and only if it allows five |
| ShapeCoherence.MemcpyFitsBound | crates/semasm-agent/src/harness.rs:2231-2287 | memcpy fixtures, if and only if it allows five |
| ShapeCoherence.CompareFitsBound | crates/semasm-agent/src/harness.rs:1179-1258 | memcmp fixtures, if and only if it allows four |
| ShapeCoherence.SumFitsBound | crates/semasm-agent/src/harness.rs:1284-1341 | sum fixtures, if and only if it allows four words |
| ShapeCoherence.CappedExact | crates/semasm-agent/src/harness.rs:861-905 | the longest fixtures have the largest length that 256 and the contract's bound allow, and at least 1 |
| ShapeCoherence.LongestRows | crates/semasm-agent/src/harness.rs:861-1175 | the longest scan fixture holds nothing but needles, the longest memset fixture no byte of the value |
| ShapeCoherence.LongestReplace | crates/semasm-agent/src/harness.rs:1944-1968 | the longest replace fixture has one byte to keep, where there is room, and needles after it |
| ShapeCoherence.LongestCopy | crates/semasm-agent/src/harness.rs:2265-2287 | the longest memcpy fixture copies 0, 1, 2 and so on over a buffer of 0xEE |
| ShapeCoherence.FixtureOutsideContract | crates/semasm-agent/src/harness.rs:891-905 | under a tighter bound the three-byte fixture is a call the contract's own conditions exclude |
| ContractExpr.JudgeSound | crates/semasm-contract/src/eval.rs:312-563 | in every world that agrees with bindings, alias rows and declared preconditions and has no empty region, judged true means true and judged false means false, where no operand is dropped and no row misread |
| ContractExpr.JudgeUnconditional | crates/semasm-contract/src/eval.rs:312-563 | without implications, judged true or false is right even where the declared preconditions fail |
| AliasEvidence.AtomUnconditional | crates/semasm-contract/src/eval.rs:616-717 | a region atom proven or refuted is so whether or not the caller keeps the preconditions |
| ContractExpr.PreconditionLost | crates/semasm-contract/src/eval.rs:398-433 | through a refuted implication a precondition is lost: the negation is proven without a word about it, and right if and only if the caller keeps it |
| ContractExpr.KnownJudged | crates/semasm-contract/src/eval.rs:312-563 | an expression of literals and bound names is always judged, and by its truth |
| ContractExpr.AtomsJudged | crates/semasm-contract/src/eval.rs:312-563 | where there is alias evidence, an expression over regions is never passed over without a judgement |
| ContractExpr.HasAtomExact | crates/semasm-contract/src/eval.rs:762-790 | an expression counts as one over regions if and only if a region atom, or a call or path over one, is among its parts |
| ContractExpr.ForcedJudged | crates/semasm-contract/src/eval.rs:312-563 | under force every expression is judged |
| ContractExpr.ObligationExact | crates/semasm-contract/src/eval.rs:229-309 | a caller obligation is exactly a comparison of an unbound parameter with a literal, either way round |
| ContractExpr.DroppedOperandExact | crates/semasm-contract/src/eval.rs:398-562 | where an operand is dropped, the verdict is the other side's, and right in a world if and only if the dropped side is true there (false, for a refuted disjunction) |
| ContractExpr.DroppedAntecedent | crates/semasm-contract/src/eval.rs:413-433 | an implication with an unevaluated antecedent is refuted although it holds wherever the antecedent fails |
| AliasEvidence.ObserveExact | crates/semasm-contract/src/alias.rs:373-459 | what is observed of two declared regions is right wherever they lie, if and only if their ends do not saturate at the largest offset in a way that decides |
| AliasEvidence.UnobservedExact | crates/semasm-contract/src/alias.rs:373-459 | nothing is observed exactly across bases, or where a length is a parameter and the two regions are not the same |
| AliasEvidence.RowOfTrue | crates/semasm-contract/src/alias.rs:259-300 | the rows of the alias pass hold wherever unsaturated regions lie and the caller keeps the preconditions |
| AliasEvidence.RowExact | crates/semasm-contract/src/eval.rs:660-717 | for every row the pass can produce, a region atom is judged right about all non-empty regions that meet the row if and only if the row is not misread: equality asked for containment, or containment or partial overlap read backwards |
| AliasEvidence.RefutedDisjointExact | crates/semasm-contract/src/eval.rs:660-717 | a refuted `disjoint` is right if and only if both regions have an address |
| AliasEvidence.AtomSound | crates/semasm-contract/src/eval.rs:616-657 | an atom judged from the first row of its pair, not misread, is right about the regions |
| AliasEvidence.RelatedMeaning | crates/semasm-contract/src/alias.rs:346-371 | disjoint, equal and contains are relations between the sets of addresses |
| ContractExpr.RequiresSound | crates/semasm-contract/src/eval.rs:229-309 | a requires row judged true or false is so wherever callers keep their obligations; a bound on a parameter is always such an obligation |
| ContractExpr.DroppedConjunct | crates/semasm-contract/src/eval.rs:505-523 | `x < y && true` is judged proven and false in every world where x is not below y |
| ContractExpr.DroppedDisjunct | crates/semasm-contract/src/eval.rs:545-562 | `x < y || false` is judged refuted and true in every world where x is below y |
| AliasEvidence.EqualRegionsContain | crates/semasm-contract/src/eval.rs:660-717 | two equal regions contain each other, yet the atom is judged false |
| AliasEvidence.ReversedPartialOverlap | crates/semasm-contract/src/alias.rs:417-425 | a right region around the left one is observed as a partial overlap, and asking whether it contains the left one is judged false |
| AliasEvidence.ReversedContainment | crates/semasm-contract/src/eval.rs:783-803 | a declared containment also passes the reversed atom |
| ContractExpr.Aggregate | crates/semasm-contract/src/eval.rs:170-210 | the slice status in terms of the rows: none, failed, passed and passed under preconditions, each exactly characterised |
| Verdict.FromParts | crates/semasm-agent/src/verify.rs:564-603 | a report starts as Verified if and only if all gates passed, the executable did not fail and behaviour passed |
| Verdict.VerifiedExact | crates/semasm-agent/src/verify.rs:564-603 | that, gate by gate and with coverage spelled out |
| Verdict.AttachFolds | crates/semasm-agent/src/verify.rs:646-722 | any sequence of evidence amounts to a closed form: failed if any fails, demoted if any demotes |
| Verdict.AttachOrderFree | crates/semasm-agent/src/verify.rs:646-722 | the order and repetition of attachments do not matter |
| Verdict.AttachNeverRaises | crates/semasm-agent/src/verify.rs:646-722 | evidence never raises a verdict; it stays positive exactly if it was and nothing fails |
| Verdict.GateErrorsFail | crates/semasm-agent/src/verify.rs:163-253 | a report from any gate error is SemanticFailed under every sequence of attachments |
| Verdict.ErrorStops | crates/semasm-agent/src/verify.rs:163-253 | an error leaves the gates before its stage passed, its own failed or incomplete, and the rest skipped |
| Pipeline.BindExternal | crates/semasm-cli/src/commands.rs:624-663 | the binding loop accepts exactly distinct ids with derivable vectors; vectors, names and ids line up with builtins as a prefix |
| Pipeline.PlanVectors | crates/semasm-cli/src/commands.rs:526-671 | a vector set exists exactly for admitted documents, with the counts of builtin and external cases |
| Pipeline.AdmissionExact | crates/semasm-cli/src/commands.rs:526-671 | vectors are admitted if and only if the contract has builtin ones and a given document is well-formed, bound to this run, not empty, free of repeated ids and derivable |
| Pipeline.OrdersAgree | crates/semasm-cli/src/commands.rs:713-723 | attaching evidence in the static order and in the run order gives the same status |
| Pipeline.Prepare | crates/semasm-cli/src/commands.rs:420-688 | the early stages succeed exactly when inputs are readable and vectors admitted; the shape then always resolves |
| Pipeline.RunCore | crates/semasm-cli/src/commands.rs:420-1098 | the verdict is positive if and only if every stage succeeded, all gates passed, execution was allowed, stdout begins with everything expected and no evidence failed; exit status, results, bindings and vectors agree |
| Pipeline.NoVacuousVerdict | crates/semasm-cli/src/commands.rs:1010-1098 | a positive verdict rests on at least one executed vector, on decoding and lowering that modelled everything with nothing unknown, and on at least eight output bytes a vector |
| Pipeline.Attainable | crates/semasm-cli/src/commands.rs:420-1098 | every contract that gets vectors has an admitted run: the conditions are not contradictory |
| Pipeline.EndingIgnored | crates/semasm-cli/src/commands.rs:1040-1057 | whether the candidate succeeded or timed out never changes whether its run is admitted |
| Pipeline.TimedOutAdmitted | crates/semasm-cli/src/commands.rs:1040-1057 | every contract with vectors has an admitted run that failed and was killed by timeout |
| Calendar.DaysBeforeYearClosed | crates/semasm-cli/src/commands.rs:170-179 | counting days year by year agrees with the closed form with leap days every 4, not 100, but 400 years |
| Calendar.DaysBeforeMonthClosed | crates/semasm-cli/src/commands.rs:180-196 | the days before each month agree with the closed form (153(m-3)+2)/5 from March on, which pins every length |
| Calendar.SplitYear | crates/semasm-cli/src/commands.rs:170-179 | the year loop ends with the days left inside the year and none lost |
| Calendar.SplitMonth | crates/semasm-cli/src/commands.rs:180-201 | the month index stays within the twelve lengths and no day is lost |
| Calendar.EpochToUtc | crates/semasm-cli/src/commands.rs:162-206 | all fields are in range, and they encode back to the same seconds if and only if the year fits 32 bits |
| Calendar.EncodeInjective | crates/semasm-cli/src/commands.rs:162-206 | no two dates stand for the same second, so the fields are the only ones |
| Aapcs64.WrittenNonVolatile | crates/semasm-aarch64/src/abi.rs:160-173 | the scan collects exactly the non-volatile registers some instruction names |
| Aapcs64.PrologueSaved | crates/semasm-aarch64/src/abi.rs:179-198 | the scan collects exactly the registers of the first block of consecutive SP stores |
| Aapcs64.EpilogueRestored | crates/semasm-aarch64/src/abi.rs:262-283 | the backward scan collects exactly the registers of the last stretch of SP loads and skipped kinds |
| Aapcs64.NonVolatileExact | crates/semasm-aarch64/src/abi.rs:156-173 | the registers to keep are 19 to 28, the frame pointer and LR |
| Aapcs64.SpChangeForms | crates/semasm-aarch64/src/abi.rs:296-339 | every form that moves SP is charged its amount, with its sign |
| Aapcs64.Walk | crates/semasm-aarch64/src/abi.rs:377-428 | the running delta is the prefix sum of step effects; findings and call sites are exactly those it gives |
| Aapcs64.Analyze | crates/semasm-aarch64/src/abi.rs:377-458 | the report is clean if and only if the stack rule and the saved-register rule hold; the LR check never decides |
| Aapcs64.LrRedundant | crates/semasm-aarch64/src/abi.rs:433-450 | a register in the save block was saved somewhere |
| Aapcs64.DeltaExact | crates/semasm-aarch64/src/abi.rs:296-339 | the delta follows SP on every straight-line run if and only if every SP access with an offset writes back and SP is set from nothing but itself |
| Aapcs64.DeltaIsSp | crates/semasm-aarch64/src/abi.rs:296-339 | up to any point before which that holds, SP has moved by exactly the delta |
| Aapcs64.StackRuleMeaning | crates/semasm-aarch64/src/abi.rs:377-428 | there the stack rule holds if and only if SP is 16-byte aligned at every `bl` and back at its entry value at every `ret` |
| Aapcs64.PlainLoadHidesFrame | crates/semasm-aarch64/src/abi.rs:303-318 | without write-back a load is counted as a pop: a body that keeps its frame is reported clean |
| CalleeSaved.WriteAfterRestore | crates/semasm-aarch64/src/abi.rs:343-374 | a register written after its restore: the report is clean and the value is lost |
| CalleeSaved.PreservedExact | crates/semasm-aarch64/src/abi.rs:343-374 | in a body the walk reads faithfully, every straight-line run from an SP leaves a register as it was if and only if the body alone keeps its entry value in it, through saves, restores and overwrites |
| Capture.Drain | crates/semasm-build/src/exec.rs:625-644 | the capture is the prefix of length min(limit, total) of the stream, all of it is counted, truncation and read errors are exactly reported |
| Capture.CaptureFailsClosed | crates/semasm-build/src/exec.rs:625-644 | the capture begins with what is expected if and only if the stream does and the limit leaves room for it |
| Capture.Poll | crates/semasm-build/src/exec.rs:526-571 | the loop ends in the first turn that is broken, complete or late; a result that is not a timeout has seen the exit and both drains |
| Capture.CompletesInTime | crates/semasm-build/src/exec.rs:526-571 | whatever the interleaving, exit and both drains arriving before the deadline are returned without a timeout |

## Left out

- Operand and mnemonic text: x86 and AArch64 operands arrive parsed, mnemonics as an enumeration with one case per spelling the code distinguishes; case folding and number parsing are not modelled.
- LoopSoundness.PreTestSound: assumes what the recogniser does not check (`ConfinedPreTest`: full-width views of the index, branch-free stretches, no other branch into the loop), because without these the claim can be false; the same holds for the post-test and countdown theorems.  For post-test loops `LoopEntry.EntryExact` replaces the last of these by the exact condition.
- AbstractSoundness.LinearSound: covers fall-through runs of the `Tracked` fragment, with stores clear of live spill slots (`FrameSafe`), because the code neither tracks aliasing between `rsp` and `rbp` slots nor forgets a slot that an immediate is stored to (`SlotSetExact`).
- RegionSoundness.PassedAccessCovered: speaks of regions of literal length, the only ones the report judges inside; accesses of regions with a length parameter pass under preconditions and are not covered.
- ContractExpr.JudgeSound: assumes non-empty regions, because a refuted `disjoint` is wrong about empty ones (`RefutedDisjointExact`).
- AliasEvidence.RowOfTrue: assumes that no two ends saturate, because the observation is wrong otherwise (`ObserveExact`).
- AccessRecords.StoreRecorded: speaks of memory operands; the stack bytes a `push` or `call` writes have none, and the source records nothing for them.
- RegionFrame.OnlyRegionsWritten: speaks of fall-through runs without `pop` into memory, whose row is judged as a load; runs around loops are covered access by access (`RegionSoundness.LoopVisitCovered`).
- ControlFlow.ClassifyExact: the decoder's groups are taken as given; a `jmp` or `b` it does not tag as a jump counts as falling through, as in the source.
- Unlisted mnemonics and branches without a decoded target may go anywhere in the machine; the theorems under `Sealed` ask that code outside the loop has none, `LoopEntry.EntryExact` counts them as entries to every place.  Other mnemonics outside the lowered subset fall through with arbitrary effect.
- CfgSoundness.FlowReachesBlock: assumes strictly increasing addresses, the order in which the decoder lists instructions; ranges of other lists are right exactly under `RangesExact`.
- Aapcs64.StackRuleMeaning: speaks of straight-line bodies with write-back SP accesses; stack deltas are unbounded integers.
- CalleeSaved.PreservedExact: speaks of straight-line runs of bodies whose SP accesses the walk reads faithfully; the source looks at no addresses.
- CanonicalJson: a finite double stands for its printed form, whose injectivity belongs to the number printer; keys are compared by scalar values, which is the byte order of their UTF-8.
- Evaluator: the report's expected and observed texts are formatting; an empty expected region, which no shape produces, is not modelled.
- Harness assembly per ABI is abstracted to "write every result word, then every guarded region"; linking, loading and calling are not modelled.
- Fixtures: fixture names are an enumeration, not display texts; the cell fixtures share one name each.
- Shapes: contract names and condition texts arrive lower-cased and without white space; parsing and checking of contracts are not modelled.
- Capture: after a timeout the drains are still awaited; what they then deliver, and the termination of process trees, are not modelled.
- Pipeline: alias, region and expression results enter as statuses; digests, findings and file clean-up are not modelled, and staging a prebuilt object counts as assembling it.
- Hashing, evidence cards, report rendering, the RISC-V lowering, the x86 ABI walkers, read-only and write leaf policies and the command line are not modelled.
