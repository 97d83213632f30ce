# A verified model of SymCC

SymCC rewrites a program so that every value carries an optional symbolic
expression (null means "concrete"), and links it with a runtime that builds the
expressions and keeps those of memory in a paged shadow. This project models the
compiler passes and the runtime in Dafny and proves that they fit together: the
rewritten program does what the original one did; it has an expression for exactly
those values and bytes that depend on the input; under the actual input every
expression evaluates to the value it stands for; and the pushed constraints are the
path condition: they hold of exactly the inputs that lead to the same decisions, and
under each of these every expression evaluates to the value that this input leads to.

Verify everything with `dafny verify dfyconfig.toml`.

## How the project is organised

| files | what they model |
|---|---|
| `Bits`, `Exprs` | fixed-width integers and their byte images; bit-vector expressions, their sorts and their value under an input |
| `Builders`, `Intrinsics`, `Saturation`, `WithOverflow` | the runtime's builders: insertion, extraction, byte swap, absolute value, saturating arithmetic, arithmetic with overflow |
| `ShadowMaps`, `ShadowPages`, `RuntimeMemory` | the shadow as a flat map, the pages and iterators that implement it, and the memory operations of the runtime |
| `IR` | a single-function SSA language with control flow, memory and input, and its concrete semantics |
| `Handlers`, `Symbolizer`, `Instrumentation`, `SymbolizerPass` | the code the pass emits, short-circuiting, PHI finalisation, the loop guard, and the instrumented semantics |
| `Describing`, `Addresses`, `Concolic`, `ConcolicRuns` | concolic consistency, from single builders to whole runs |
| `Awareness` | what the pass knows statically: operands it takes for concrete never get an expression |
| `Taints`, `TaintRuns` | a semantics of the original program that marks what depends on the input, and the proof that the instrumented program has expressions and pushes constraints exactly there |
| `Decisions` | what branches, loop conditions and switches push, and what that says of any input |
| `Replays`, `ReplayRuns` | two runs side by side: the constraints of a run are its path condition |
| `Structs` | structure values in registers |
| `OverflowChecks`, `OverflowPass`, `OverflowSplit`, `OverflowRuns`, `RangeChecks`, `OverflowProgram`, `LayoutOrder` | the conditions of the integer overflow checker and its range checks, its block splitting, the whole pass, and the layout it leaves |
| `QueryLog`, `QueryMeaning`, `InputTracker`, `LibcWrappers`, `Coverage` | the logging backend and what its log means, input tracking, wrappers of C functions, and the fuzzing helper's coverage map |
| `Pipeline` | both passes and the logging backend together |

Conventions. A `w`-bit value is a natural number below `2^w`; wrap-around is always
written out (`Wrap`), and signed readings are explicit (`ToSigned`). `Denotes(e, s,
v, input)` says that expression `e` has sort `s` and value `v`; `Shows(e, bytes,
input)` says the same of its big-endian byte image. A machine that runs into
undefined behaviour or leaves the modelled subset is `Stuck`. Code that changes
things in place (shadow pages and iterators, the two compiler passes, the logger,
the input tracker, the coverage map) is a class or a method with loops, proved
equal to a function of the old state; the laws are then proved of that function.

## Where the code departs from its intent

Each departure has its exact condition proved, for all inputs.

- Address computations extend narrow indices with zeros, so a negative index that is
  narrower than a pointer gives a wrong expression: `Addresses.GepChainExact` says for
  which indices, and `Addresses.NegativeNarrowIndexSkews` gives one.
- Saturation bounds at 64 bits depend on an undefined shift, and the unsigned saturating
  shift uses the signed overflow test: `Saturation.SignedSatExactly`, `UAddSatExactly`,
  `SShlSatExactly` and `UShlSatExactly` give the condition per operands,
  `Saturation.UAddSatAt64` and `SAddSatAt64` for all operands, and
  `Saturation.OnePlusOneIsZero` an input.
- Whole runs are consistent wherever these two do not strike: the instrumented machine
  carries a monitor `misled` that no emitted code reads. `ConcolicRuns.ConcolicConsistency`
  gives a condition on the trace of the original run under which it stays down,
  `ConcolicRuns.PlainConsistency` a condition on the function alone, and
  `ConcolicRuns.MisledExactlyOverRuns` shows that it is up exactly when the run has been
  inconsistent.
- The overflow checker's division after a multiplication is undefined for -1 times the
  smallest integer (`OverflowChecks.MulConditionExact`); the instrumented function then
  stops, and only then (`OverflowProgram.OverflowPassPreserves`).
- Unsigned multiplication with overflow misses products between `2^w` and `2^(2w-1)`
  (`WithOverflow.UnsignedFlagExactly`, `WithOverflow.UnsignedMulMisses`).
- The flag of arithmetic with overflow is in the wrong byte for big-endian layouts
  (`WithOverflow.PairFlag`).
- Both funnel shifts are rejected by the solver (`Saturation.FunnelShiftRejected`), and so
  are ordered comparisons of Booleans (`Describing.OrderedBoolRejected`) and arithmetic with
  constants of 65 to 127 bits (`Describing.WideConstantRejected`); the machine stops there.
- A string comparison that is logged before any size check can be logged as a formula that
  the input does not satisfy: `QueryLog.LoggedExactly` says when,
  `QueryLog.UncheckedBatchIsWrong` gives an input.
- Input variables are named after the number of offsets seen, not after the offset
  (`InputTracker.NamesExactly`, `InputTracker.GapExample`).
- Instructions are visited in layout order, so a use that is laid out before its definition
  is missed and its result stays concrete: `Awareness.LateDefinitionIsMissed` gives a function,
  and `Awareness.InstrumentAware` shows that nothing is missed where definitions come first.
- What the constraints of a run leave open: addresses and lengths are fixed to their values
  without a constraint, and a loop condition is pushed the first time only
  (`Decisions.LoopBranchOnce`). `ReplayRuns.Comparable` names these conditions; under them
  `ReplayRuns.PathConditionIsExact` holds.
- The setter for the tolerance of the range checks sets the threshold, so the tolerance has no
  defined value; the constants are therefore arbitrary, and `RangeChecks.RangeChecksMean` says
  what the checks compare for parameters in range.
- The tracked descriptor is never given up, so another file that gets its number counts as
  input (`InputTracker.TrackerFollows`).

## Model

| member | source | states |
|---|---|---|
| `Handlers.ArithmeticAgrees` | compiler/Symbolizer.cpp:400-431 | for every operator and width, where the bitcode defines a result, the builder chosen by the handler table computes the same pattern (signed division, remainder and arithmetic shift included) |
| `Handlers.LogicAgrees` | compiler/Symbolizer.cpp:400-431 | on i1 the Boolean connectives agree with and, or, xor |
| `Handlers.BitwiseAt` | compiler/Symbolizer.cpp:400-431 | bit k of a bitwise and, or, xor is that connective of the two bits k, at every width |
| `Handlers.ComparisonAgrees` | compiler/Symbolizer.cpp:485-495 | every comparison handler agrees with its predicate; "not equal" is a negated equality |
| `Describing.ValueExprDescribes` | compiler/Symbolizer.cpp:1153-1182 | the expression built for a concrete integer denotes it, for Booleans, up to 64 bits, and 128 bits assembled from two halves |
| `Describing.BinaryDescribes` | compiler/Symbolizer.cpp:400-431 | applied to describing operands, the binary builder describes the result of the instruction |
| `Describing.CastDescribes` | compiler/Symbolizer.cpp:959-1006 | extensions and truncations, also from and to i1, describe the converted value |
| `Describing.OrderedBoolRejected` | compiler/Symbolizer.cpp:485-495 | the solver rejects every ordered comparison of two Booleans |
| `Describing.WideConstantRejected` | compiler/Symbolizer.cpp:1171-1181 | a constant between 65 and 127 bits is built with 128 bits, and arithmetic with operands of the right width is rejected |
| `Addresses.MergedMeaning` | compiler/Symbolizer.h:191-201 | appending a whole chain of calls keeps all earlier results, adds the result of each call computed over both chains, and joins the inputs |
| `Symbolizer.OnlyUnknownIsSymbolic` | compiler/Symbolizer.cpp:120-139 | with one input of unknown concreteness the slow path is entered only if that input is symbolic, so its check may be left out |
| `Symbolizer.ShortCircuitMeaning` | compiler/Symbolizer.cpp:86-181 | the rewritten code yields null exactly when all inputs are null, otherwise the computation with every null input replaced by the constant of its concrete value; no null ever reaches the runtime (that the inputs are complete is `MeaningReadsInputs`) |
| `Symbolizer.MeaningReadsInputs` | compiler/Symbolizer.cpp:1279-1296 | the recorded inputs are complete: operand lists that agree on them give the same expression, so every operand that a chain of calls depends on is checked for null |
| `Symbolizer.SkippedExactly` | compiler/Symbolizer.cpp:86-181 | a computation is skipped if no operand is symbolic, and never if a symbolic operand makes a difference to its value |
| `TaintRuns.OneSkipped` | compiler/Symbolizer.cpp:95-105 | a single call with two operands is skipped if and only if both are null, one with a single operand if and only if that is |
| `SymbolizerPass.PlanInputs` | compiler/Symbolizer.cpp:120-165 | the two loops over the inputs count the unknown ones and decide per input between keeping, checking and building |
| `SymbolizerPass.AllInputsNull` | compiler/Symbolizer.cpp:95-105 | the accumulated conjunction of null checks holds iff every input is null |
| `SymbolizerPass.BuildAddress` | compiler/Symbolizer.cpp:776-841 | the loop over the indices builds exactly the specified chain, zero indices skipped |
| `SymbolizerPass.Pass.VisitBasicBlock` | compiler/Pass.cpp:209-210 | visiting a block updates the map of expressions and records its PHI nodes as specified |
| `SymbolizerPass.Pass.FinalizePHINodes` | compiler/Symbolizer.cpp:50-84 | PHI nodes that receive no expression are erased everywhere, the others get their inputs, and the map is invalidated |
| `SymbolizerPass.Pass.InstrumentFunction` | compiler/Pass.cpp:197-213 | the imperative pass computes the specified instrumentation of the whole function |
| `Addresses.GepChainExact` | compiler/Symbolizer.cpp:752-841 | for any list of struct and array indices the emitted chain denotes the concrete address modulo 2^ptrBits if and only if zero extension of narrow negative indices adds a multiple of 2^ptrBits |
| `Addresses.ZeroStepsAddNothing` | compiler/Symbolizer.cpp:766-774 | indices that are all zero add nothing, so reusing the pointer's expression is right |
| `Addresses.NoNarrowNegative` | compiler/Symbolizer.cpp:811-828 | pointer-wide indices of any sign and narrower non-negative ones are never skewed |
| `Addresses.NegativeNarrowIndexSkews` | compiler/Symbolizer.cpp:812-822 | a concrete negative 32-bit index for which the chain is wrong |
| `Concolic.IntrinsicMeans` | compiler/Symbolizer.cpp:268-343 | the call emitted for a saturating intrinsic, a byte swap or an absolute value describes the result if and only if the builder gets it right on these operands |
| `Concolic.CodeGood` | compiler/Symbolizer.cpp:400-841 | for every instruction of the subset, the emitted code run on a consistent state describes the result and leaves shadow and log true of the input, wherever the builder does not depart from the instruction (that there is an expression at all is `InstrMarked`) |
| `TaintRuns.InstrMarked` | compiler/Symbolizer.cpp:400-841 | for every instruction of the subset the emitted code leaves an expression if and only if some operand has one (a load: some byte; a select: the chosen arm), shadow bytes exactly where marked values are stored, moved, filled or read from the input, and a constraint exactly for a select on a symbolic condition |
| `Awareness.EmitsNothingExactly` | compiler/Symbolizer.h:244-256 | no code is emitted if and only if no operand can be symbolic, except for memory accesses and conversions of Booleans |
| `Concolic.ExecErases` | compiler/Symbolizer.cpp:400-841 | an instrumented instruction changes concrete state exactly as the original does, and gets stuck exactly when it does |
| `Concolic.ExecConsistent` | compiler/Symbolizer.cpp:400-841 | every step keeps consistency, unless it raises the monitor |
| `TaintRuns.ExecExactly` | compiler/Symbolizer.cpp:400-841 | one step: the values and bytes with an expression, and the directions pushed, are those that the marking semantics of the original instruction gives |
| `Concolic.InputShadowFaithful` | runtime/src/RuntimeCommon.cpp:464-472 | symbolic input bytes describe the bytes read from the file |
| `ConcolicRuns.PhisPickDescriptions` | compiler/Symbolizer.cpp:50-84 | after finalisation the symbolic PHI nodes pick expressions that describe the values picked by the concrete ones, erased nodes included |
| `ConcolicRuns.CasesTruthful` | compiler/Symbolizer.cpp:1088-1137 | every case constraint pushed by a switch evaluates to whether the case was taken |
| `Decisions.BranchPushes` | compiler/Symbolizer.cpp:583-681 | a branch on a condition with an expression pushes exactly one constraint, that expression with the direction taken, unless it is a loop condition passed before; otherwise nothing |
| `Decisions.BranchConstraintMeans` | compiler/Symbolizer.cpp:674-681 | under any input where the condition is described, the constraint holds if and only if the branch goes the same way |
| `Decisions.LoopBranchOnce` | compiler/Symbolizer.cpp:590-671 | the branch of a loop's header or latch of which exactly one way stays in the loop is pushed at most once in a whole run |
| `Decisions.OtherBranchAlways` | compiler/Symbolizer.cpp:583-681 | every other branch pushes its condition each time that it has an expression |
| `Decisions.SwitchPushes` | compiler/Symbolizer.cpp:1088-1137 | a switch on a value with an expression pushes one constraint per case, in order; each holds of exactly the inputs that agree about that case |
| `Decisions.SwitchConstraintsMean` | compiler/Symbolizer.cpp:1126-1136 | all of them together hold of exactly the inputs that agree about every case, and these take the same case |
| `Replays.SelectLog` | compiler/Symbolizer.cpp:442-483 | a select pushes one constraint if its condition has an expression, with the arm taken, and nothing otherwise |
| `ConcolicRuns.LeaveConsistent` | compiler/Symbolizer.cpp:512-682 | constraints pushed by branches, behind the loop guard or not, evaluate to their taken flag under the actual input (what is pushed, and what it says of other inputs, are `BranchPushes` and `BranchConstraintMeans`) |
| `ConcolicRuns.InstrumentSound` | compiler/Pass.cpp:197-213 | the result of the pass relates to the original block by block, with no expression claimed for a value that has none |
| `Awareness.InstrumentAware` | compiler/Pass.cpp:197-213 | for functions laid out with definitions first, an operand that the pass takes for concrete, or whose PHI node it erases, never gets an expression |
| `Awareness.LateDefinitionIsMissed` | compiler/Pass.cpp:197-213 | a function with a use laid out before its definition, which the pass takes for concrete |
| `Awareness.ErasedNowhereHeld` | compiler/Symbolizer.cpp:50-84 | no instruction or branch refers to a PHI node that receives only concrete values |
| `ConcolicRuns.RunsAgree` | compiler/Pass.cpp:173-220 | any two related runs stay related for any number of blocks |
| `ConcolicRuns.ConcolicConsistency` | compiler/Pass.cpp:173-220 | for every function, loop analysis, input, initial state and number of blocks: the instrumented run is in the state of the original one, and if every address computation and intrinsic function in the trace of the original run was on operands that its builder gets right, then every register expression, shadow byte and pushed constraint is true of the actual input |
| `TaintRuns.TaintIsExact` | compiler/Pass.cpp:173-220 | precision, for every function laid out with definitions first, loop analysis, input and number of blocks: the instrumented run has an expression for a value or a byte if and only if the original program computed it from input bytes, and has pushed one constraint for each decision on such a value, in order and with the direction taken |
| `Replays.StepTogether` | compiler/Symbolizer.cpp:400-841 | one instruction on two inputs: if the second input satisfies what was pushed, the symbolic states stay equal, values and bytes without an expression stay equal, and the expressions describe the second run |
| `ReplayRuns.SatisfyingInputsReplay` | compiler/Pass.cpp:173-220 | any input that satisfies the constraints of a run leads to the same block with the same expressions and constraints, and every expression evaluates to the value that this input leads to, as long as addresses, lengths and repeated loop conditions come out the same |
| `ReplayRuns.PathConditionIsExact` | compiler/Pass.cpp:173-220 | under the same proviso an input satisfies all pushed constraints if and only if the original program makes the same decisions on it wherever a decision depends on the input |
| `ConcolicRuns.PlainConsistency` | compiler/Pass.cpp:173-220 | for functions whose indices are pointer-wide or constants that are not negative, and whose saturating intrinsics are narrower than 64 bits and no unsigned shifts, every run is consistent |
| `ConcolicRuns.MisledExactlyOverRuns` | compiler/Pass.cpp:173-220 | over whole runs: the state was consistent after every instruction if and only if the monitor is down |
| `ConcolicRuns.ConcolicConsistencyWithin` | compiler/Pass.cpp:173-220 | consistency after any number of instructions inside a block, under the condition on the trace so far |
| `ConcolicRuns.MisledExactly` | compiler/Symbolizer.cpp:812-828 | a step from a consistent state leads to a consistent one if and only if the monitor stays down |
| `ShadowPages.PageOffset` | runtime/include/Shadow.h:44-52 | address = page start + offset, offset below the page size |
| `ShadowPages.ShadowMemory.GetShadow` | runtime/include/Shadow.h:111-117 | the page of an address, null if there is none |
| `ShadowPages.ShadowMemory.GetOrCreateShadow` | runtime/include/Shadow.h:166-175 | creating a page changes no byte of the flat map and moves no existing page |
| `ShadowPages.ReadShadowIterator.Increment` | runtime/include/Shadow.h:77-84 | the cached pointer is refreshed at page crossings only and, when not null, always points at the current byte |
| `ShadowPages.ReadShadowIterator.Decrement` | runtime/include/Shadow.h:86-93 | the same backwards |
| `ShadowPages.ReadShadowIterator.Deref` | runtime/include/Shadow.h:95-100 | the byte's shadow, or null when the cached pointer is null |
| `ShadowPages.WriteShadowIterator.Increment` | runtime/include/Shadow.h:147-153 | moves on, creating pages that are invisible in the flat map |
| `ShadowPages.WriteShadowIterator.Decrement` | runtime/include/Shadow.h:155-161 | the same backwards |
| `ShadowPages.WriteShadowIterator.Assign` | runtime/include/Shadow.h:163-163 | writes one byte of the flat map and no other |
| `RuntimeMemory.IsConcrete` | runtime/include/Shadow.h:213-225 | true if and only if every byte of the range is null, fast path included |
| `RuntimeMemory.NonNullDeref` | runtime/include/Shadow.h:123-136 | the shadow or a constant of the concrete byte |
| `RuntimeMemory.CopyForward` | runtime/src/RuntimeCommon.cpp:134-135 | forward copy over overlapping ranges, with pages created while the reader holds a cached null, is a simultaneous copy |
| `RuntimeMemory.CopyBackward` | runtime/src/RuntimeCommon.cpp:132-133 | the same backwards |
| `RuntimeMemory.MemMove` | runtime/src/RuntimeCommon.cpp:122-136 | for all dest, src and length, shadow(dest+i) = old shadow(src+i), everything else unchanged |
| `RuntimeMemory.MemCopy` | runtime/src/RuntimeCommon.cpp:105-112 | the same for ranges that do not overlap |
| `RuntimeMemory.MemSet` | runtime/src/RuntimeCommon.cpp:114-120 | every byte of the range gets the value, nothing else changes |
| `RuntimeMemory.FillRange` | runtime/src/RuntimeCommon.cpp:178-190 | assigning along a range, with the one-past-the-end page that end() may create, lays the values over the flat map |
| `RuntimeMemory.WriteMemory` | runtime/src/RuntimeCommon.cpp:165-191 | splits the expression into bytes in either byte order, or clears the range |
| `RuntimeMemory.ReadMemory` | runtime/src/RuntimeCommon.cpp:138-163 | null for a concrete range, otherwise all bytes joined |
| `ShadowMaps.ReadIsFaithful` | runtime/src/RuntimeCommon.cpp:138-163 | a read over any mix of symbolic and concrete bytes denotes the integer stored in memory |
| `ShadowMaps.ReadMeans` | runtime/src/RuntimeCommon.cpp:138-163 | null exactly for a concrete range; otherwise the expression denotes the stored integer in every memory that differs only where there is a shadow, under every input |
| `ShadowMaps.WriteIsFaithful` | runtime/src/RuntimeCommon.cpp:165-191 | storing a value and its expression keeps the shadow faithful |
| `ShadowMaps.FillIsFaithful` | runtime/src/RuntimeCommon.cpp:114-120 | so does filling |
| `ShadowMaps.MoveIsFaithful` | runtime/src/RuntimeCommon.cpp:122-136 | so does moving, overlap included |
| `ShadowMaps.ReadAfterWrite` | runtime/src/RuntimeCommon.cpp:138-191 | write then read is the identity in meaning; opposite byte order gives the byte reversal |
| `Builders.BuildExtract` | runtime/src/RuntimeCommon.cpp:193-214 | the loop builds the specified member expression |
| `Builders.ShowsExtract` | runtime/src/RuntimeCommon.cpp:193-214 | extraction selects exactly the member's bytes, reversed for little-endian |
| `Builders.ByteSwapInvolution` | runtime/src/RuntimeCommon.cpp:216-220 | byte swapping reverses the byte image, and twice it is the identity |
| `Builders.ShowsInsert` | runtime/src/RuntimeCommon.cpp:222-252 | insertion conserves the width and overwrites exactly the member's bytes |
| `Builders.GetAfterPut` | runtime/src/RuntimeCommon.cpp:193-252 | lens law: reading a member right after writing it gives the written value |
| `Builders.PutAfterGet` | runtime/src/RuntimeCommon.cpp:193-252 | lens law: writing back what was read changes nothing |
| `Builders.PutAfterPut` | runtime/src/RuntimeCommon.cpp:193-252 | lens law: the second write hides the first |
| `Builders.PutElsewhere` | runtime/src/RuntimeCommon.cpp:193-252 | members that do not overlap are untouched |
| `Builders.BuildZeroBytes` | runtime/src/RuntimeCommon.cpp:254-263 | the loop builds the specified expression |
| `Builders.ShowsZeroBytes` | runtime/src/RuntimeCommon.cpp:254-263 | which is that many zero bytes |
| `Saturation.TopSignedIsRight` | runtime/src/RuntimeCommon.cpp:41-53 | the signed upper bound is right below 64 bits, and at 64 if and only if the undefined shift yields 0 or all ones |
| `Saturation.SignedSatExactly` | runtime/src/RuntimeCommon.cpp:265-321 | signed saturating addition and subtraction clamp the exact result if and only if it does not exceed the bound that was built or that bound is right; every width up to 64 |
| `Saturation.SignedSatClamps` | runtime/src/RuntimeCommon.cpp:265-321 | below 64 bits they clamp for all operands |
| `Saturation.UAddSatExactly` | runtime/src/RuntimeCommon.cpp:286-299 | unsigned saturating addition clamps if and only if the sum fits or the bound is right |
| `Saturation.USubSatClamps` | runtime/src/RuntimeCommon.cpp:323-333 | unsigned saturating subtraction clamps at zero |
| `Saturation.SShlSatExactly` | runtime/src/RuntimeCommon.cpp:335-355 | signed saturating shift clamps a*2^b, for every shift below the width, if and only if the product does not overflow upwards or the bound is right |
| `Saturation.UShlSatExactly` | runtime/src/RuntimeCommon.cpp:357-367 | the unsigned saturating shift clamps if and only if the shift is 0, the result stays below the sign bit, or the signed test reports an overflow and the bound that is built is the answer |
| `Saturation.UAddSatAt64` | runtime/src/RuntimeCommon.cpp:50-53 | at 64 bits unsigned addition is right for all operands if and only if the undefined shift yields 0 |
| `Saturation.SAddSatAt64` | runtime/src/RuntimeCommon.cpp:41-53 | at 64 bits signed addition is right for all operands if and only if the undefined shift yields 0 or all ones |
| `Saturation.OnePlusOneIsZero` | runtime/src/RuntimeCommon.cpp:265-284 | where the undefined shift yields 1, the 64-bit sum of 1 and 1 saturates to 0 |
| `Saturation.IntrinsicExactly` | compiler/Symbolizer.cpp:268-343 | every modelled intrinsic function: what is built denotes the result if and only if the operands satisfy its condition |
| `Saturation.FunnelShiftRejected` | runtime/src/RuntimeCommon.cpp:436-451 | no funnel shift is well-sorted |
| `WithOverflow.PairResult` | runtime/src/RuntimeCommon.cpp:60-84 | extracting offset 0 of the pair gives the result, in either byte order |
| `WithOverflow.PairFlag` | runtime/src/RuntimeCommon.cpp:60-84 | the byte behind the result is the flag if and only if the layout is little-endian, the result is one byte, or the flag is clear |
| `WithOverflow.SignedFlagExact` | runtime/src/RuntimeCommon.cpp:369-434 | the signed flags of add, sub and mul hold if and only if the exact result is out of range |
| `WithOverflow.UnsignedFlag` | runtime/src/RuntimeCommon.cpp:369-434 | the unsigned flags are a carry, a borrow, and a product of at least 2^(2w-1) |
| `WithOverflow.UnsignedFlagExactly` | runtime/src/RuntimeCommon.cpp:413-434 | a set flag always means overflow; it is exact if and only if the operation is no product between 2^w and 2^(2w-1) |
| `WithOverflow.UnsignedMulMisses` | runtime/src/RuntimeCommon.cpp:413-434 | operands at every width above one whose overflow is missed |
| `WithOverflow.OverflowPair` | runtime/src/RuntimeCommon.cpp:369-434 | little-endian: the wrapped result at offset 0 and the flag behind it |
| `Structs.CreateValueExpression` | compiler/Symbolizer.cpp:1195-1274 | the recursive loop with padding builds the specified expression |
| `Structs.StructShows` | compiler/Symbolizer.cpp:1195-1274 | for every nested structure the expression has 8 times the store size in bits and is the memory image, zeros as padding |
| `Structs.ImageRepresents` | compiler/Symbolizer.cpp:1195-1274 | that image holds every scalar of the structure at its place |
| `Structs.AggregateMemberOffset` | compiler/Symbolizer.cpp:1335-1356 | the loop adds up structure offsets and element sizes along the path |
| `Structs.ArraysAreLaid` | compiler/Symbolizer.cpp:1346-1352 | arrays whose elements fit their distance are among the layouts covered |
| `Structs.MemberRepresented` | compiler/Symbolizer.cpp:1335-1356 | the bytes at the offset of a nested member or element hold it, whatever the padding |
| `Structs.ExtractValueDescribes` | compiler/Symbolizer.cpp:1066-1086 | extracting a scalar describes the member's value, Booleans converted |
| `Structs.ExtractStructShows` | compiler/Symbolizer.cpp:1066-1086 | extracting a nested structure or array gives its bytes |
| `Structs.InsertValueShows` | compiler/Symbolizer.cpp:1029-1064 | inserting a member gives the expression of the updated structure |
| `Structs.ConstantMembers` | compiler/Symbolizer.cpp:1195-1274 | round trip: each member of a structure constant can be read back |
| `OverflowChecks.AddConditionExact` | compiler/Overflow.cpp:179-228 | at every width the emitted condition is true if and only if the signed or the unsigned sum overflows, for all operands |
| `OverflowChecks.SubConditionExact` | compiler/Overflow.cpp:230-281 | the same for differences |
| `OverflowChecks.MulConditionExact` | compiler/Overflow.cpp:283-330 | the condition has a value unless the operands are -1 and the smallest integer, and is then true if and only if the signed or the unsigned product overflows |
| `OverflowSplit.CheckedExactly` | compiler/Overflow.cpp:5-74 | the checked instructions are exactly the 32-bit operations that can overflow or divide by zero on some operands |
| `OverflowPass.EmitComputes` | compiler/Overflow.cpp:179-330 | the straight-line code of a condition binds its value to fresh registers and touches nothing else, or gets stuck exactly when the condition has no value |
| `OverflowSplit.ChainRuns` | compiler/Overflow.cpp:81-176 | the check blocks are run through once, in order, and lead to the continuation whatever the conditions say |
| `OverflowSplit.StepElsewhere` | compiler/Overflow.cpp:29-31 | blocks that were not split behave as before, with PHI edges renamed |
| `OverflowRuns.SplitBlocks` | compiler/Overflow.cpp:29-51 | the split leaves the head up to the operation, the continuation behind it, the chain of checks between them, and every other block with its PHI edges renamed |
| `OverflowRuns.FirstCheckDecides` | compiler/Overflow.cpp:53-88 | the branch condition of the first check block is whether the operation overflowed |
| `RangeChecks.EveryCheckDecides` | compiler/Overflow.cpp:53-176 | the seven checks behind an operation run in order, and the branch of each is whether its condition holds of the operands and the result |
| `RangeChecks.RangeChecksMean` | compiler/Overflow.cpp:341-397 | for threshold and tolerance in range, the six range checks compare the signed or unsigned result with the plain integers |
| `OverflowRuns.StepSplit` | compiler/Overflow.cpp:5-177 | one pass through a split block takes nine blocks and ends like the original, or gets stuck in the check of -1 times the smallest integer |
| `OverflowRuns.SplitSimulates` | compiler/Overflow.cpp:5-177 | every run of the original is followed by the split function: to the same block and state, or stuck exactly when that multiplication was executed |
| `OverflowProgram.SplitBelow` | compiler/Overflow.cpp:29-48 | the split function is closed again: fresh labels and values, nothing reads what it defines |
| `OverflowProgram.SplitAtItsTurn` | compiler/Pass.cpp:231-237 | at its turn an instruction of the snapshot is split if and only if it is a checked instruction of the original function |
| `OverflowProgram.SplitsOriginalOnly` | compiler/Pass.cpp:231-237 | the pass adds nine blocks for each of them and no others, so inserted arithmetic is never split |
| `OverflowProgram.SnapshotChecks` | compiler/Overflow.cpp:29-88 | after the pass every checked instruction of the original ends its block and branches to its own chain of checks |
| `OverflowProgram.SnapshotMembers` | compiler/Pass.cpp:231-234 | the snapshot lists exactly the instructions of the function |
| `OverflowProgram.SnapshotDistinct` | compiler/Pass.cpp:231-237 | and lists each of them once |
| `OverflowProgram.Checker.VisitInstruction` | compiler/Overflow.cpp:5-177 | the step-by-step edit of the graph computes the specified split |
| `OverflowProgram.Checker.RunOnFunction` | compiler/Pass.cpp:224-240 | the snapshot-then-visit loops compute the specified pass |
| `OverflowProgram.OverflowPassPreserves` | compiler/Pass.cpp:277-283 | for every well-formed function, input and number of blocks, the instrumented function reaches the same block with the same memory, input position and values and the same sequence of original instructions; it is stuck if and only if the original is or has multiplied -1 by the smallest integer |
| `LayoutOrder.SplitDefsFirst` | compiler/Overflow.cpp:25-48 | one split keeps the layout in order: every value, those of the checks included, is still defined once and before it is used |
| `LayoutOrder.PassDefsFirst` | compiler/Pass.cpp:231-237 | so does the whole pass, so the symbolizing pass misses nothing behind it |
| `QueryLog.Logger.PushPathConstraint` | runtime/src/backends/simple/Runtime.cpp:676-779 | the method computes the specified step: decided constraints, single branches, string batches (what a step logs is `QueryMeaning.EntryMeans`) |
| `QueryLog.Logger.ResetConstraints` | runtime/src/backends/simple/Runtime.cpp:933-933 | a reset empties the solver |
| `QueryLog.RunSound` | runtime/src/backends/simple/Runtime.cpp:676-779 | over every run of truthful constraints: no impossible branch, an empty assertion set between calls, and a stack as deep as there are incomplete string events since the last reset |
| `QueryLog.LoggedExactly` | runtime/src/backends/simple/Runtime.cpp:706-775 | what a call of a truthful run logs is satisfied by the actual input if and only if it is a single branch, a size check has started a batch, or some undecided string comparison was taken |
| `QueryLog.EntryExactly` | runtime/src/backends/simple/Runtime.cpp:706-775 | the same for every single entry of the log of a whole run |
| `QueryLog.WholeLogExactly` | runtime/src/backends/simple/Runtime.cpp:676-779 | the whole log is satisfied by the actual input if and only if every entry was written under that condition |
| `QueryMeaning.EntryMeans` | runtime/src/backends/simple/Runtime.cpp:676-779 | for any run and every input that the simplifier respects: a call writes exactly one entry or none, and which; the entry of a single branch is satisfied by the inputs that go its way, that of a batch by those for which none of its comparisons is true if none was taken, and otherwise by those for which some is |
| `QueryMeaning.LogMeans` | runtime/src/backends/simple/Runtime.cpp:676-779 | the whole log has one entry for each call that writes one, in order, with that meaning |
| `QueryMeaning.ImpossibleExactly` | runtime/src/backends/simple/Runtime.cpp:688-704 | an impossible branch is reported if and only if some constraint was simplified to the truth value opposite to the direction taken |
| `QueryLog.UncheckedBatchIsWrong` | runtime/src/backends/simple/Runtime.cpp:723-763 | an input for the failing side: the first comparison before any size check, not taken |
| `InputTracker.Wrappers.GetInputByte` | runtime/src/backends/simple/Runtime.cpp:201-214 | the variable cache as specified |
| `InputTracker.Wrappers.MakeSymbolic` | runtime/src/RuntimeCommon.cpp:464-472 | the loop fills the shadow with the variables of consecutive offsets |
| `InputTracker.Wrappers.Read` | runtime/src/LibcWrappers.cpp:174-195 | reads of the input descriptor make the buffer symbolic and advance the offset, other reads make it concrete, failed ones do nothing |
| `InputTracker.Wrappers.MaybeSetInputFile` | runtime/src/LibcWrappers.cpp:78-94 | opening the input file moves the tracked descriptor and resets the offset; other files change nothing |
| `InputTracker.Wrappers.Lseek` | runtime/src/LibcWrappers.cpp:210-223 | a successful seek on the input descriptor sets the offset |
| `InputTracker.TrackerFollows` | runtime/src/LibcWrappers.cpp:78-223 | over any run of opens, reads and seeks, whichever descriptors the input file gets: the tracked offset is always the position of the tracked descriptor if and only if no other file is opened under its number while the offset is not 0 |
| `InputTracker.CacheFollows` | runtime/src/RuntimeCommon.cpp:464-472 | the variables are those that the offsets read so far ask for |
| `InputTracker.SequentialReads` | runtime/src/RuntimeCommon.cpp:464-472 | reading on where the last read ended gives the shadow that the machine of the compiler model assigns |
| `InputTracker.OneOffsetOneVariable` | runtime/src/backends/simple/Runtime.cpp:201-214 | all requests for one offset get the same answer |
| `InputTracker.DistinctVariables` | runtime/src/backends/simple/Runtime.cpp:207-213 | different offsets never share a variable |
| `InputTracker.NamesExactly` | runtime/src/backends/simple/Runtime.cpp:201-214 | every answer is the variable named after its offset if and only if no request leaves a gap |
| `InputTracker.SymbolicReadFaithful` | runtime/src/LibcWrappers.cpp:184-187 | after gap-free reads the shadow of the buffer describes the bytes of the file |
| `LibcWrappers.MemCmp` | runtime/src/LibcWrappers.cpp:529-590 | pushes nothing for concrete regions, otherwise the conjunction of all byte equalities with the concrete result as direction |
| `LibcWrappers.MemCmpTruthful` | runtime/src/LibcWrappers.cpp:529-590 | which evaluates to its taken flag under the actual input |
| `LibcWrappers.MemCmpMeans` | runtime/src/LibcWrappers.cpp:529-590 | under every input, in every memory that differs only where there is a shadow: the expression says whether the regions are equal there, and the constraint holds if and only if they compare as they did |
| `LibcWrappers.ConcreteCompares` | runtime/src/LibcWrappers.cpp:529-538 | where nothing is pushed, both regions are the same in all such memories, and so is the result |
| `LibcWrappers.StrChr` | runtime/src/LibcWrappers.cpp:497-527 | one inequality per byte that was searched |
| `LibcWrappers.StrChrTruthful` | runtime/src/LibcWrappers.cpp:497-527 | all of which hold under the actual input |
| `LibcWrappers.StrChrMeans` | runtime/src/LibcWrappers.cpp:497-527 | the constraints of a search hold of exactly those inputs for which none of the searched bytes is the character |
| `LibcWrappers.StrNCpy` | runtime/src/LibcWrappers.cpp:472-495 | the shadow is copied up to the terminator and cleared behind it |
| `LibcWrappers.StrNCpyFaithful` | runtime/src/LibcWrappers.cpp:472-495 | and stays faithful |
| `LibcWrappers.StrNCpyExactly` | runtime/src/LibcWrappers.cpp:472-495 | which byte has which expression afterwards: the copied ones those of their source, the padding none, all others their own |
| `LibcWrappers.StrNCpyAlike` | runtime/src/LibcWrappers.cpp:472-495 | memories that differ only where there is a shadow still do after the copy |
| `Coverage.MergeVec` | util/symcc_fuzzing_helper/src/symcc.rs:67-82 | in place: the bitwise or and whether anything changed; an error on different sizes |
| `Coverage.AflMap.Merge` | util/symcc_fuzzing_helper/src/symcc.rs:84-98 | all four cases of absent and present maps |
| `Coverage.MapIsUnion` | util/symcc_fuzzing_helper/src/symcc.rs:67-98 | over any run a bit is set if and only if some merged map of that size has it |
| `Coverage.ReportsBounded` | util/symcc_fuzzing_helper/src/symcc.rs:67-98 | over any run of merges into a map of L bytes, new coverage is reported at most 8*L + 1 times |
| `Pipeline.CompiledRuns` | compiler/Pass.cpp:173-240 | both passes in sequence: the compiled function follows every run of the original; if the original run used its builders only where they are right, all expressions are true of the input, the backend never sees an impossible branch, and its log is satisfied by the input if and only if every entry was fair |
| `Pipeline.CompiledPlainRuns` | compiler/Pass.cpp:173-240 | for functions that use only such builders this needs no condition on the run |
| `Pipeline.QueriesArePathCondition` | runtime/src/backends/simple/Runtime.cpp:676-779 | end to end, for programs without string comparisons: among comparable inputs, exactly those satisfy every query in the backend's log on which the original program makes the same decisions wherever a decision depends on the input |
| `Pipeline.CompiledIsPrecise` | compiler/Pass.cpp:173-240 | both passes in sequence are precise: the compiled program has expressions and has pushed constraints, those of the overflow checks included, exactly where the function with its checks depends on the input |
| `Pipeline.CompiledPathCondition` | compiler/Pass.cpp:173-240 | and the backend's log is the path condition of the function with its checks |

## Left out

- Calls between functions: parameter and return slots are global in the runtime and can be stale after uninstrumented code; the model is one function.
- Floating point, including the floating-point overflow checker and the float builders: IEEE semantics would dominate the model.
- Solver internals: simplification is a parameter that is assumed to preserve meaning; reference counting and the expression garbage collector are not modelled.
- The second backend (QSYM), and the constraints that the wrappers push for alternative parameter values; the simple backend discards constraints that come without a location.
- Block splitting by the short-circuiting phase and by the loop guard is modelled as structured code (a guarded computation), so the instrumented function keeps the original's labels; the overflow checker's splitting is modelled on the graph.
- Structure values are not part of the SSA machine, so neither are arithmetic with overflow, extractvalue and insertvalue; their expressions are related to memory images and members instead. Constants with arrays inside are rejected by the builder.
- The machine stops at integer widths that the runtime cannot express: 65 to 127 bits, ordered comparisons and intrinsic functions of Booleans, and saturating arithmetic above 64 bits.
- A structure with an undefined scalar inside gets the constant 0 for it; the source passes whatever the undefined value happens to be.
- Reuse of the pointer's expression for an all-zero address computation is modelled as a copy made at the instruction.
- The conditions of the overflow checker are trees, so the tests for zero of the multiplication check are emitted twice instead of being shared.
- The tuning functions of the range checks are left out; the constants are parameters. Values inside the pass are numbered, and the numbers of the unreachable check come last.
- Branch locations and slot numbers are opaque parameters of pushed constraints.
- Addresses are unbounded: a range that wraps around the end of the address space is not modelled.
- Partial bytes: integers are stored in whole bytes, except Booleans.
- RuntimeMemory.MemCopy: only for ranges that do not overlap, as the C function demands of its callers.
- LibcWrappers.StrNCpy: only for ranges that do not overlap, as the C function demands of its callers.
- Structs.StructShows: only for structures without empty structures or arrays inside, and scalars of one byte or an even number of bytes, which the byte swap asserts.
- WithOverflow.OverflowPair: only for little-endian layouts and widths that are multiples of 16, which the byte swap asserts; `WithOverflow.PairFlag` says what happens otherwise.
- TaintRuns.TaintIsExact: only for functions laid out with definitions first; elsewhere late uses are missed (`Awareness.LateDefinitionIsMissed`).
- ReplayRuns.PathConditionIsExact: only for inputs of the same length, because the length of the input is nothing that a constraint speaks of, and only where addresses, lengths and repeated loop conditions come out the same, which the pass does not constrain.
- Addresses.GepChainExact: indices no wider than a pointer, and member 0 of a structure at offset 0, as the data layout guarantees.
- Memory mapping, `fgets`, `fread` and mixing of buffered and unbuffered input; the wrapper of `memset`, which stores an expression of the wrong width.
- The fuzzing helper apart from the coverage map: processes, files, test case ranking.
- Configuration, logging of debug output, loop unrolling, inline assembly, intrinsics other than those named above, and language bindings.
