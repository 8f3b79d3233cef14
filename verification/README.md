# pskynet in Dafny

A model of the hard parts of pskynet, a C++ port of the skynet actor server, and of the LPeg compiler and the Lua
collector it ships, with proofs. `dafny verify dfyconfig.toml` checks everything.

## What is modelled

**LPeg** (`Lpeg*.dfy`). `LpegTree` has patterns and PEG matching, `LpegAnalysis` the compiler's analyses with their
meaning, `LpegMachine` the virtual machine, `LpegCodegen` the code of a pattern as a function and `LpegCompiler` the
compiler that appends to and patches its code array. `LpegCorrectness` proves that the code of a subtree does what
matching does, relative to what follows it; `LpegLayout` and `LpegPeephole` prove jump optimisation correct;
`LpegPatterns` joins them with the interpreter and its growing backtrack stack. `LpegAssociativity` treats the in-place
rotation of encoded trees, `LpegCharset` the classification of bit sets. `LpegOptDefect` shows where the compiler is
wrong: it passes the flag for "a choice is already on the stack" into the body of a tested loop, where a nested optional
pattern or loop then commits to the wrong choice. Correctness is proved for all patterns in which no such nesting uses
the flag (`OptSafe`, a check on the pattern), which includes all patterns without an optional part. The condition is
sufficient; it is not necessary because the affected code may be unreachable (`UnsafeButCorrect`). `LpegFixed` shows that
the rotation keeps all the compiler relies on, `LpegHeights` that the backtrack stack of a pattern is bounded by its
nesting.

**Lua's incremental collector** (`Gc*.dfy`). Strings, strong tables and the main thread, all phases, both barriers.
`GcModel` and `GcCycle` give every operation as a function of the collector's state, `GcMutator` the operations of a
program, `GcStores` what these store and fetch, `GcCollector` the collector's operations in place with their loops. `GcInvariant` states what holds between any two
actions; `GcSteps` and `GcBarriers` prove that the collector and the program keep it; `GcSafety` concludes that no run
frees a reachable object, `GcExact` that an uninterrupted cycle keeps exactly the reachable ones.

**The timing wheel** (`Timer*.dfy`). 256 near lists and four levels of 64 over a wrapping 32-bit clock, against a map
from deadlines on a clock that never wraps to queues (`TimerSchedule`). `TimerSlots` has the arithmetic of levels and
carries, `TimerWheel` the code, `TimerRuns` whole runs with additions from other threads between critical sections.
Runs have delays whose deadline is ahead in the sense of `Ahead`, which includes all from 1 to 2^31-1; `TimerJourney`
follows a timer with any deadline through the lists and says exactly when it is dispatched on time.

**Streams** (`Harbor*`, `Netpack*`, `HashId`, `DataBuffer`, `Gate*`, `SocketBuffer`). Each turns chunks, cut anywhere,
into messages or lines and is proved to agree with parsing the concatenated bytes; `HarborRelay`, `NetpackRuns` and
`GateRuns` do so over whole runs, `GateLives` for connections whose destination is set late. `RingQueue` and `LinkChains` have the
rings and index-linked lists they use, `ByteCodes` numbers in network byte order.

**Codecs** (`Des*`, `DiffieHellman`, `Sha1*`, `WordBits`, `Seri*`) and **shared tables** (`Share*`). `DesBlock` and
`Sha1Block` have the code, with what it has in common with the standards; `DesStandard` and `Sha1Standard` say what that is
by the tables, bit numbers and arithmetic of FIPS 46-3 and FIPS 180-4. `DesTables` has the program's arrays, `DesBoxes` the
S-boxes.

## Where the code and expectations differ

- LPeg: `LpegOptDefect.OptMatters`, see above.
- netpack accepts payloads of 65536 bytes and frames them with size 0 (`NetpackFrames.PackParses`).
- netpack returns a frame that comes alone at once, also while earlier frames of the same descriptor are queued
  (`NetpackRuns.OrderIff`).
- `powmodp` returns the prime itself for the prime to the first power (`DiffieHellman.PowMod`), and never returns for
  exponent 0, which eight zero bytes as a key give (`DiffieHellman.ReturnsIff`).
- The harbor never clears the socket number of a slave, so the branch of `remote_send_handle` that answers for a dead
  harbor (service-src/service_harbor.c:511-516) cannot be reached: after a close, messages are still written to the old
  socket. `HarborSlave.Slave.SendHandle` does what the code does.
- `ldesdecode` compares a signed index with an unsigned bound; for a single block that decrypts to eight zeros it reads
  before its buffer, and for no other text (`DesText.LeavesIff`). No encoded text leads to it.
- A complete frame shorter than a message header, which `send_remote` never produces, makes the harbor read before its
  buffer (`HarborWire.ShortIff`, `HarborSlave.Slave.Receive`).
- A timer whose deadline is behind the clock can be dispatched on time, much too early or never (`TimerJourney.OnTimeIff`,
  `NearTooEarly`, `NeverFires`).
- The gate does not read a frame that it has nowhere to send, and then takes its content for sizes
  (`Gate.Connections.DispatchNowhere`, `SkimWitness`); the stream is cut wrongly from there on, but for the streams that
  `Gate.SkimIff` describes.
- `pop_lstring` computes a negative length when a chunk lies strictly inside the separator, and `lreadline` leaves its
  buffers when it passes an empty chunk (`SocketBuffer.Buffer.ReadLine`).
- SHA-1 counts a carry too many in some updates of 2^29 bytes and more (`Sha1Stream.Context.Count`, `BitsRight`).
- sharedata keeps the low 32 bits of integer keys but counts slots by the whole key (`ShareKeys.SlotsExact`,
  `LookupIff`).

## Model

| member | source | states |
|---|---|---|
| LpegCharset.ClassifyBits | deps/lpeg/lpcode.c:41-82 | the byte-by-byte scan of a 256-bit set classifies it as the set it denotes: empty, full, a single character (which one) or generic |
| LpegAnalysis.NullableSound | deps/lpeg/lpcode.c:172-206 | a pattern that matches the empty string somewhere is nullable |
| LpegAnalysis.NoFailSound | deps/lpeg/lpcode.c:172-206 | a pattern classified as "no fail" never fails, on any subject and position |
| LpegAnalysis.FixedLenSound | deps/lpeg/lpcode.c:213-246 | if a fixed length is computed, every match consumes exactly that many characters |
| LpegAnalysis.FirstSound | deps/lpeg/lpcode.c:267-343 | a match on a character that consumes it, or whose follow set has it, implies that the first set has it |
| LpegAnalysis.FirstRejectsEnd | deps/lpeg/lpcode.c:267-343 | a pattern whose first set does not accept the empty string fails at the end of the subject |
| LpegAnalysis.NoFailFirstIsFull | deps/lpeg/lpcode.c:267-343 | the first set of a pattern that cannot fail, with a full follow set, is full |
| LpegAnalysis.HeadFailExact | deps/lpeg/lpcode.c:350-372 | a "head fail" pattern matches if and only if the next character exists and is in its first set with full follow |
| LpegAnalysis.TestExcludesMatch | deps/lpeg/lpcode.c:587-608 | when the test on the first set fails, the pattern cannot match |
| LpegCompiler.CompileState.AddInstruction | deps/lpeg/lpcode.c:467-472 | appends exactly one instruction slot |
| LpegCompiler.CompileState.AddOffsetInst | deps/lpeg/lpcode.c:478-483 | appends an instruction and its offset slot |
| LpegCompiler.CompileState.AddCharset | deps/lpeg/lpcode.c:546-553 | appends the slots of a set |
| LpegCompiler.CompileState.JumpToThere | deps/lpeg/lpcode.c:516-519 | patches one offset and nothing else |
| LpegCompiler.CompileState.JumpToHere | deps/lpeg/lpcode.c:525-527 | patches one offset to the end of the code |
| LpegCompiler.CompileState.CodeChar | deps/lpeg/lpcode.c:534-540 | appends the code of a character, `IAny` where a test has already read it |
| LpegCompiler.CompileState.CodeCharset | deps/lpeg/lpcode.c:561-578 | appends the cheapest code for a set |
| LpegCompiler.CompileState.CodeTestSet | deps/lpeg/lpcode.c:587-608 | appends the test on a first set, none if the pattern can match the empty string |
| LpegCompiler.CompileState.CodeBehind | deps/lpeg/lpcode.c:632-636 | appends the code of a look-behind |
| LpegCompiler.CompileState.CodeChoice | deps/lpeg/lpcode.c:650-685 | appends the code of a choice in each of its three forms |
| LpegCompiler.CompileState.CodeAnd | deps/lpeg/lpcode.c:693-709 | appends the code of an and-predicate, short or long |
| LpegCompiler.CompileState.CodeRep | deps/lpeg/lpcode.c:749-785 | appends the code of a repetition: span, tested loop or loop with a choice |
| LpegCompiler.CompileState.CodeNot | deps/lpeg/lpcode.c:795-809 | appends the code of a not-predicate |
| LpegCompiler.CompileState.CodeSeq1 | deps/lpeg/lpcode.c:871-883 | appends the code of the first part of a sequence and returns the test its second part may rely on |
| LpegCompiler.CompileState.CodeGen | deps/lpeg/lpcode.c:891-916 | after any tree, the emitted and patched code is exactly the code the recursive definition gives |
| LpegCompiler.CompileState.FinalTarget | deps/lpeg/lpcode.c:614-618 | follows a chain of jumps to the instruction where it ends |
| LpegCompiler.CompileState.Peephole | deps/lpeg/lpcode.c:928-967 | terminates and leaves code that differs from the old only by redirected labels and jumps replaced by their targets |
| LpegCompiler.CompileState.Compile | deps/lpeg/lpcode.c:973-982 | compiling a pattern yields an optimised form of its generated code |
| LpegLayout.PatternWellLaid | deps/lpeg/lpcode.c:891-916 | generated code of every pattern is a row of complete instructions whose labels stay inside and whose jump chains end |
| LpegPeephole.OptimisedAgrees | deps/lpeg/lpcode.c:928-967 | optimised code reaches exactly the answers of the code it was made from, on every subject |
| LpegPeephole.Simulates | deps/lpeg/lpcode.c:928-967 | every run of the original code is simulated by the optimised code |
| LpegCorrectness.GenCorrect | deps/lpeg/lpcode.c:891-916 | code of a subtree, placed anywhere in a program, behaves as the subtree matches; it may fail early only when what follows must fail, which is what lets choices be dropped |
| LpegCorrectness.GeneratedCodeMatches | deps/lpeg/lpcode.c:891-982 | the code of a whole pattern halts with the PEG answer, success or failure and end position, for every subject and start |
| LpegPatterns.NoOptionalSafe | deps/lpeg/lpcode.c:650-785 | patterns without a choice with an empty second alternative are all compiled correctly: the flag is never set |
| LpegOptDefect.UnsafeButCorrect | deps/lpeg/lpcode.c:891-982 | the condition is not necessary: behind a pattern that always fails every pattern, safe or not, is compiled correctly |
| LpegHeights.GenHeights | deps/lpeg/lpcode.c:891-916 | code of every subtree starts and ends at the same height of the backtrack stack and rises by at most the nesting of choices, loops and predicates |
| LpegHeights.OptimisedLeveled | deps/lpeg/lpcode.c:928-967 | jump optimisation keeps the height of every address |
| LpegOptDefect.OptMatters | deps/lpeg/lpcode.c:749-785 | for all characters a and c that differ, the pattern ((a (a c)*)*)? on "aa" should match two characters and its code matches one: the flag passed at line 762 reaches a nested loop |
| LpegCharset.WithCharAdds | deps/lpeg/lptypes.h:110 | setting bit c & 7 of byte c >> 3 adds exactly the character c |
| LpegPatterns.CompiledCodeMatches | deps/lpeg/lpvm.c:147-351 | compiled and optimised code of a pattern halts in the PEG answer |
| LpegPatterns.Machine.DoubleStack | deps/lpeg/lpvm.c:64-81 | the backtrack stack grows up to its limit and keeps its entries |
| LpegPatterns.Machine.Match | deps/lpeg/lpvm.c:147-351 | the interpreter with its growing stack returns what the machine computes; it reports too many pending calls if and only if the run needs more entries than the limit and the initial stack allow |
| LpegHeights.BoundedStack | deps/lpeg/lpvm.c:147-351 | a run of a compiled pattern never has more entries than the pattern is nested, and one |
| LpegPatterns.MatchPattern | deps/lpeg/lpvm.c:147-351 | compiling a pattern and running it returns the PEG answer; too many pending calls are reported only for patterns nested as deep as the limit |
| LpegAssociativity.CorrectAssociativity | deps/lpeg/lptree.c:78-90 | the in-place rotation terminates, keeps the size of the encoding and leaves the right-associated tree |
| LpegAssociativity.RightAssocMatches | deps/lpeg/lptree.c:71-90 | right association preserves matching on every subject and position |
| LpegAssociativity.RightAssocLeaves | deps/lpeg/lptree.c:71-90 | it keeps the operands, in order |
| LpegAssociativity.RightAssocShape | deps/lpeg/lptree.c:71-90 | no first operand has the same operator any more |
| LpegAssociativity.FinalFix | deps/lpeg/lptree.c:100-126 | the walk over a whole encoded tree rotates every sequence and choice in place |
| LpegAssociativity.FixedMatches | deps/lpeg/lptree.c:100-126 | a fixed tree matches as the original one |
| LpegFixed.FixedAlike | deps/lpeg/lptree.c:100-126 | all analyses of the compiler give the same on a fixed tree |
| LpegFixed.FixedWellFormed | deps/lpeg/lptree.c:100-126 | a fixed tree is well formed if the original is |
| LpegFixed.FixedSafe | deps/lpeg/lptree.c:100-126 | a fixed tree is as safe for the `opt` flag as the original |
| LpegPatterns.FixedCodeMatches | deps/lpeg/lptree.c:100-126 | fixing, compiling and optimising a pattern and running the code gives the answer of the pattern itself |
| LpegPatterns.MatchFixed | deps/lpeg/lptree.c:100-126 | the same for the compiler and the interpreter as programs |
| GcMarking.TraverseTableMarks | deps/lua/lgc.c:419-457 | traversing a table marks all it refers to, keeps contents but for keys of empty entries, and links each new gray object once |
| GcCycle.PropagateMarkTriColour | deps/lua/lgc.c:545-586 | one traversal keeps the tri-colour invariant and moves threads to the list to be visited again |
| GcCycle.PropagateAllTriColour | deps/lua/lgc.c:589-591 | propagation to the end empties the gray list, scans every listed object and keeps the invariant |
| GcSteps.AtomicScanned | deps/lua/lgc.c:971-1014 | after the atomic phase everything marked has all its references marked, the roots included |
| GcSteps.FlipBase | deps/lua/lgc.c:971-1014 | flipping the white turns exactly the unmarked objects dead, and no live object refers to a dead one |
| GcSteps.SweepListKeeps | deps/lua/lgc.c:719-736 | sweeping frees dead objects only, whitens the rest up to its position, and makes progress |
| GcSteps.SweepToLiveKeeps | deps/lua/lgc.c:742-751 | sweeping to a live object ends inside the list or at its end |
| GcSteps.EnterSweepInv | deps/lua/lgc.c:946-953 | entering the sweep, after the atomic phase or in mid-cycle, keeps the invariant |
| GcSteps.SingleStepInv | deps/lua/lgc.c:1033-1086 | every single step of the collector is possible in, and keeps, the invariant |
| GcSteps.AbortInv | deps/lua/lgc.c:1145-1161 | giving up a cycle for a full collection keeps the invariant |
| GcBarriers.BarrierBackInv | deps/lua/lgc.c:161-166 | the backward barrier restores the invariant after a store of a white value into a black table |
| GcBarriers.BarrierInv | deps/lua/lgc.c:145-154 | the forward barrier does so while marking and while sweeping |
| GcBarriers.NewObjectInv | deps/lua/lgc.c:198-206 | a new object fits in any phase |
| GcSafety.NeverFreed | deps/lua/lgc.c:719-736 | over every run of program operations, single steps and aborted cycles from a new state, a reachable object is there, is not dead, and is neither freed nor robbed by the next action |
| GcSafety.MarkingOverRuns | deps/lua/lgc.c:545-591 | over every such run, while marking: no black object refers to a white one, the gray objects are exactly those on the two gray lists, each once, and nothing is dead |
| GcSafety.FrameReachable | deps/lua/lgc.c:1033-1086 | a step of the collector changes neither what is reachable nor what reachable objects hold |
| GcExact.CycleStarts | deps/lua/lgc.c:323-330 | the first step of a cycle marks reachable objects only |
| GcExact.CollectingStep | deps/lua/lgc.c:1033-1086 | every further step marks or keeps alive only objects reachable at the start |
| GcExact.CycleEnds | deps/lua/lgc.c:1033-1086 | when an uninterrupted cycle ends, the heap is exactly the set of reachable objects |
| GcExact.StepProgress | deps/lua/lgc.c:1033-1086 | every step but the first of a cycle brings its end closer |
| GcCollector.Collector.ReallyMarkObject | deps/lua/lgc.c:225-269 | marks in place: strings black, other objects gray and linked |
| GcCollector.Collector.MarkMt | deps/lua/lgc.c:275-279 | marks the global metatables |
| GcCollector.Collector.TraverseStrongTable | deps/lua/lgc.c:419-457 | the two loops over a table do what its specification says |
| GcCollector.Collector.Propagate | deps/lua/lgc.c:545-586 | one traversal in place |
| GcCollector.Collector.PropagateToEnd | deps/lua/lgc.c:589-591 | the loop terminates and does all traversals |
| GcCollector.Collector.RestartCollection | deps/lua/lgc.c:323-330 | clears the lists and marks the roots |
| GcCollector.Collector.AtomicPhase | deps/lua/lgc.c:971-1014 | roots, propagation, the saved gray-again list, flip |
| GcCollector.Collector.Sweep | deps/lua/lgc.c:719-736 | the sweep loop from a position, for a number of objects |
| GcCollector.Collector.SweepUntilLive | deps/lua/lgc.c:742-751 | repeats sweeping one object until one is left or the list ends |
| GcCollector.Collector.StartSweep | deps/lua/lgc.c:946-953 | enters the sweep phase |
| GcCollector.Collector.SweepSome | deps/lua/lgc.c:1017-1030 | one sweep step, or the change to the next phase |
| GcCollector.Collector.Step | deps/lua/lgc.c:1033-1086 | one single step in place |
| GcCollector.Collector.BarrierForward | deps/lua/lgc.c:145-154 | the forward barrier in place |
| GcCollector.Collector.BarrierBackward | deps/lua/lgc.c:161-166 | the backward barrier in place |
| GcCollector.Collector.RunTil | deps/lua/lgc.c:1093-1097 | running to a phase terminates, keeps the invariant and what is reachable |
| GcCollector.Collector.FullGc | deps/lua/lgc.c:1145-1161 | a full collection from any valid state leaves exactly the reachable objects, with everything they hold |
| GcSafety.InternInv | deps/lua/lstring.c:122-134 | a string found in the string table, dead or not, can be used again in every phase |
| GcSafety.SetArrInv | deps/lua/lapi.c:786-798 | a store into the array part keeps the invariant |
| GcSafety.RawSetInv | deps/lua/lapi.c:770-783 | a store under a key, new or not, keeps the invariant |
| GcSafety.SetMetaInv | deps/lua/lapi.c:818-853 | setting a metatable keeps the invariant |
| GcSafety.SetMtInv | deps/lua/lapi.c:818-853 | setting a global metatable needs no barrier |
| GcStores.StackKept | deps/lua/lapi.c:770-853 | an operation changes the contents of no object but the main thread and the table it stores into, and no global metatable but its own; objects are only added |
| GcStores.SetGetArr | deps/lua/lapi.c:639-798 | after a store into the array part the value is fetched from there; every other element, entry and the metatable are as before |
| GcStores.RawSetGet | deps/lua/lapi.c:628-783 | after a store under a key the value is fetched from the entry of that key, which is new only if the key was; all other entries, elements and the metatable are as before |
| GcStores.SetGetMeta | deps/lua/lapi.c:678-853 | after setting a metatable that one is fetched, after nil none; elements and entries are as before |
| GcStores.SetGetMt | deps/lua/lapi.c:678-853 | the same for the global metatables |
| GcStores.Pushes | deps/lua/lapi.c:172-245 | copies are pushed from their index, constants and references as they are; popping takes the newest value |
| GcStores.NewTableEmpty | deps/lua/lapi.c:665-676 | a new table has as many empty elements as asked for, no entry and no metatable |
| GcSafety.MutateInv | deps/lua/lapi.c:770-853 | every operation of the program keeps the invariant in every phase |
| GcStores.RehashKeeps | deps/lua/ltable.c:335-393 | rehashing keeps exactly the entries with a value |
| TimerSlots.MoveSlots | src/sn_timer.cpp:78-145 | when a tick cascades a list, exactly the timers of the new block are in it, they go to lower lists, and every other timer stays where it is |
| TimerSlots.MoveSeparate | src/sn_timer.cpp:78-145 | a list that receives cascaded timers holds no others |
| TimerSlots.PositiveAhead | src/sn_timer.cpp:99-110 | delays from 1 to 2^31-1 are ahead of the clock, across its wrap too |
| TimerSlots.DueSlot | src/sn_timer.cpp:165-179 | the near list of the current time holds exactly the timers that are due |
| TimerSchedule.Cascade | src/sn_timer.cpp:112-145 | cascading puts every pending timer where it would be added now, in order of addition |
| TimerSchedule.DispatchedOnce | src/sn_timer.cpp:147-179 | dispatched and pending timers together are all timers ever added, each once |
| TimerSchedule.DueList | src/sn_timer.cpp:147-179 | the list executed at a time is the queue of that deadline, in order |
| TimerWheel.TopDigit | src/sn_timer.cpp:122-145 | the cascade loop stops at level 3 at the latest |
| TimerWheel.Wheel.constructor | src/sn_timer.cpp:193-214 | a new wheel is empty |
| TimerWheel.Wheel.FindSlot | src/sn_timer.cpp:78-97 | the loop over levels finds the list for a deadline |
| TimerWheel.Wheel.AddNode | src/sn_timer.cpp:78-97 | one list grows by one node at its end, the others are unchanged |
| TimerWheel.Wheel.MoveList | src/sn_timer.cpp:112-120 | a list is spread over the lists of its nodes, in order |
| TimerWheel.Wheel.TimerAdd | src/sn_timer.cpp:99-110 | for every number of ticks, one list gains the timer at its end; the schedule gains it if its deadline is ahead of the clock |
| TimerJourney.OnTimeIff | src/sn_timer.cpp:78-145 | a timer with any deadline but the current time is dispatched at that time first if and only if the deadline is ahead of the clock, or behind it with no zero among the digits that it has to pass |
| TimerJourney.NearTooEarly | src/sn_timer.cpp:78-145 | a deadline behind the clock in the current 256 ticks is dispatched 256 ticks after itself |
| TimerJourney.NeverFires | src/sn_timer.cpp:78-145 | any other deadline behind the clock, with a zero digit to pass, is never dispatched |
| TimerJourney.EarlyWitness | src/sn_timer.cpp:99-110 | -1 ticks at time 300: dispatched at 555 |
| TimerJourney.NeverWitness | src/sn_timer.cpp:99-110 | -512 ticks at time 512: never dispatched |
| TimerJourney.RecoveryWitness | src/sn_timer.cpp:99-110 | deadline 0x100000 at time 0x200000: behind the clock and on time |
| TimerWheel.Wheel.ShiftLists | src/sn_timer.cpp:122-145 | with any timers in the lists, a tick takes every one of them one step further on its way |
| TimerWheel.Wheel.FindMoved | src/sn_timer.cpp:122-145 | the loop finds the list that cascades; the mask stays below 2^31 |
| TimerWheel.Wheel.TimerShift | src/sn_timer.cpp:122-145 | the clock ticks; timers that were added ahead of it are where they would be added now |
| TimerWheel.Wheel.DispatchList | src/sn_timer.cpp:147-163 | pushes all events of a list in order |
| TimerWheel.Wheel.TimerExecute | src/sn_timer.cpp:165-179 | dispatches exactly what is due |
| TimerWheel.Wheel.TimerUpdate | src/sn_timer.cpp:181-191 | one tick and what is due then |
| TimerWheel.Wheel.UpdateTime | src/sn_timer.cpp:288-309 | as many ticks as the system clock advanced modulo 2^32, with the wrap of the centisecond counter; a clock set back causes none |
| TimerRuns.Replay | src/sn_timer.cpp:78-191 | after any run with additions between any two critical sections, exactly the timers with reached deadlines have been dispatched, deadline by deadline and in order of addition |
| TimerRuns.UpdateDisciplined | src/sn_timer.cpp:181-191 | an update with additions before, between and after its sections is such a run |
| RingQueue.Queue.Expand | service-src/service_harbor.c:92-111 | a full ring doubles and keeps its messages in order |
| RingQueue.Queue.Push | service-src/service_harbor.c:92-111 | appends one message |
| RingQueue.Queue.Pop | service-src/service_harbor.c:122-130 | takes the oldest message, or reports an empty queue |
| RingQueue.Queue.Release | service-src/service_harbor.c:143-153 | empties the queue |
| ByteCodes.Big32RoundTrip | service-src/service_harbor.c:275-298 | 32-bit numbers survive network byte order |
| ByteCodes.Big32Order | service-src/service_harbor.c:275-281 | larger numbers have later byte strings, which only network byte order does |
| HarborWire.HeaderFields | service-src/service_harbor.c:283-305 | source, destination and session each have four bytes of the header, in network byte order, and no other |
| HarborWire.FrameLayout | service-src/service_harbor.c:326-336 | a frame is its length in network byte order, 0, 0, 0, 12 without payload, then the payload, then the header |
| HarborWire.KindByte | service-src/service_harbor.c:500-537 | on the wire the type is the first byte of the destination, and the handle the others |
| HarborWire.HeaderRoundTrip | service-src/service_harbor.c:283-305 | a header survives its twelve bytes |
| HarborWire.ParseAppend | service-src/service_harbor.c:391-484 | parsing in two parts is parsing the whole stream |
| HarborWire.FramesParse | service-src/service_harbor.c:326-336 | the frames of any messages parse to their contents, in order, with nothing left |
| HarborWire.DeliverOutgoing | service-src/service_harbor.c:309-336 | source, handle, type, session and payload arrive as sent |
| HarborSlave.Slave.SendRemote | service-src/service_harbor.c:326-336 | the wire grows by one frame |
| HarborSlave.Slave.SendHandle | service-src/service_harbor.c:500-537 | queued while unconnected or shaking hands, sent afterwards; what reaches the wire is in the order of acceptance |
| HarborSlave.Slave.DispatchQueue | service-src/service_harbor.c:373-389 | everything queued goes out, oldest first |
| HarborSlave.Slave.Connect | service-src/service_harbor.c:564-630 | the own id goes first; a second connection is refused |
| HarborSlave.Slave.Close | service-src/service_harbor.c:231-242 | closing empties the queue and keeps the socket number |
| HarborWire.ShortIff | service-src/service_harbor.c:309-324 | parsing meets a short frame if and only if some frame of the stream is complete and has fewer bytes than a header |
| HarborWire.ShortWitness | service-src/service_harbor.c:434-477 | four zero bytes wait for a fifth; with it, the header is looked for before the buffer |
| HarborSlave.Slave.TakeHeader | service-src/service_harbor.c:434-459 | collects the four length bytes, closes on a length of 2^24 or more, and waits on any other |
| HarborSlave.Slave.TakeContent | service-src/service_harbor.c:461-477 | collects a content and delivers it when complete; one that is shorter than a header leads before the buffer |
| HarborSlave.Slave.Receive | service-src/service_harbor.c:391-484 | after any chunk of any stream, exactly the complete frames have been delivered and the fields hold the rest; the code reads before its buffer if and only if the stream has a short frame; the right id ends the handshake and sends the queue, a wrong one closes |
| HarborRelay.FramesDeliver | service-src/service_harbor.c:309-336 | the frames of any requests deliver exactly these requests |
| HarborRelay.Relay | service-src/service_harbor.c:391-484 | however the id byte and the frames are cut, exactly the framed requests are delivered, in order |
| NetpackFrames.ParseAppend | lualib-src/lua-netpack.c:184-293 | parsing in two parts is parsing the whole stream |
| NetpackFrames.PackParses | lualib-src/lua-netpack.c:413-429 | packing then parsing is the identity if and only if the payload has at most 65535 bytes; 65536 is accepted and written as size 0 |
| NetpackFrames.PackAllParses | lualib-src/lua-netpack.c:413-429 | a stream of packed payloads parses to these payloads |
| NetpackQueue.Ring.Expand | lualib-src/lua-netpack.c:129-144 | the larger ring has the same items in order |
| NetpackQueue.Ring.Push | lualib-src/lua-netpack.c:146-163 | appends one item, growing a ring that becomes full |
| NetpackQueue.Ring.Pop | lualib-src/lua-netpack.c:373-387 | takes the oldest item |
| NetpackQueue.Netpack.FindUncomplete | lualib-src/lua-netpack.c:88-110 | unlinks the one part saved for a descriptor and no other |
| NetpackQueue.Netpack.Link | lualib-src/lua-netpack.c:165-176 | saves a part for a descriptor that has none |
| NetpackQueue.Netpack.Save | lualib-src/lua-netpack.c:184-203 | what is saved encodes exactly the bytes of the incomplete frame |
| NetpackQueue.Netpack.PushMore | lualib-src/lua-netpack.c:184-211 | queues the complete frames of some bytes and saves the rest |
| NetpackQueue.Netpack.FilterData | lualib-src/lua-netpack.c:213-293 | reports nothing, one frame, or queued frames, exactly as the saved bytes and the chunk parse; other descriptors are untouched |
| ByteCodes.Big16Order | lualib-src/lua-netpack.c:407-411 | larger sizes have later byte pairs: network byte order |
| NetpackQueue.ReportExact | lualib-src/lua-netpack.c:213-293 | a frame is returned at once exactly when the saved bytes and the chunk are one packed frame and nothing else; nothing is reported exactly when they are an incomplete one |
| NetpackRuns.Kept | lualib-src/lua-netpack.c:213-387 | over every run of chunks and pops, each frame of a descriptor has been returned, popped, or is queued, once |
| NetpackRuns.OrderIff | lualib-src/lua-netpack.c:213-387 | the frames of a descriptor are handed out in the order of its stream if and only if none was returned directly while others of it were queued |
| NetpackRuns.OvertakeWitness | lualib-src/lua-netpack.c:213-387 | two frames in one chunk and a third in the next: the third comes out first |
| NetpackRuns.FilterAll | lualib-src/lua-netpack.c:213-387 | for any interleaving of chunks and pops, the frames returned, popped and still queued for a descriptor are those of its stream, in order if none is overtaken; its saved part is the rest |
| DesBlock.FinalInitial | lualib-src/lua-crypt.c:208-230 | the final permutation undoes the initial one |
| DesBlock.InitialFinal | lualib-src/lua-crypt.c:208-230 | and the other way round |
| DesStandard.InitialBits | lualib-src/lua-crypt.c:208-217 | bit by bit, the initial permutation is that of FIPS 46-3, with both halves rotated left by one |
| DesStandard.Box1 | lualib-src/lua-crypt.c:20-37 | at the number of six bits, the array has what S-box 1 gives at their row and column, put where the permutation P wants it |
| DesStandard.Box2 | lualib-src/lua-crypt.c:39-56 | at the number of six bits, the array has what S-box 2 gives at their row and column, put where the permutation P wants it |
| DesStandard.Box3 | lualib-src/lua-crypt.c:58-75 | at the number of six bits, the array has what S-box 3 gives at their row and column, put where the permutation P wants it |
| DesStandard.Box4 | lualib-src/lua-crypt.c:77-94 | at the number of six bits, the array has what S-box 4 gives at their row and column, put where the permutation P wants it |
| DesStandard.Box5 | lualib-src/lua-crypt.c:96-113 | at the number of six bits, the array has what S-box 5 gives at their row and column, put where the permutation P wants it |
| DesStandard.Box6 | lualib-src/lua-crypt.c:115-132 | at the number of six bits, the array has what S-box 6 gives at their row and column, put where the permutation P wants it |
| DesStandard.Box7 | lualib-src/lua-crypt.c:134-151 | at the number of six bits, the array has what S-box 7 gives at their row and column, put where the permutation P wants it |
| DesStandard.Box8 | lualib-src/lua-crypt.c:153-170 | at the number of six bits, the array has what S-box 8 gives at their row and column, put where the permutation P wants it |
| DesStandard.MixIsF | lualib-src/lua-crypt.c:234-247 | what a round mixes in is f(R, K) = P(S(E(R) + K)): each box is read at the bits that E selects, added to those of the key |
| DesBlock.RoundsUndone | lualib-src/lua-crypt.c:234-247 | rounds with reversed keys undo rounds, for all tables and keys |
| DesBlock.CryptUndone | lualib-src/lua-crypt.c:320-342 | decryption undoes encryption of a block |
| DesBlock.ReverseSchedule | lualib-src/lua-crypt.c:400-408 | the decoder uses the pairs of subkeys backwards |
| DesBlock.DesCrypt | lualib-src/lua-crypt.c:320-342 | sixteen rounds in place are the textbook Feistel rounds |
| DesText.BlockBytes | lualib-src/lua-crypt.c:190-204 | the first byte of a block is the highest of its first word |
| DesText.PadForm | lualib-src/lua-crypt.c:383-396 | padding is a byte 0x80 and zeros, one to eight bytes in all |
| DesText.CryptAllUndone | lualib-src/lua-crypt.c:365-418 | decryption undoes encryption of any number of blocks |
| DesText.StripIsPad | lualib-src/lua-crypt.c:419-436 | removing the padding succeeds exactly on padded texts |
| DesText.DecodeEncode | lualib-src/lua-crypt.c:365-438 | a text is decoded from a cipher text if and only if that is its encoding, for every schedule and length |
| DesText.EncodingDecodable | lualib-src/lua-crypt.c:365-438 | every encoding is inside what decoding handles, and gives back its text |
| DesText.DesEncode | lualib-src/lua-crypt.c:365-398 | the loops over blocks and tail compute the encoding |
| DesText.ScanStrips | lualib-src/lua-crypt.c:419-436 | the scan, with its index compared as unsigned, removes the padding except on one block of zeros, where it leaves the buffer |
| DesText.LeavesIff | lualib-src/lua-crypt.c:400-436 | decoding reads before its buffer if and only if the text is one block, the encryption of eight zeros |
| DesText.LeavesWitness | lualib-src/lua-crypt.c:400-436 | that block, for every key |
| DesText.DesDecode | lualib-src/lua-crypt.c:400-438 | decoding of every text, with its two errors and the read before the buffer |
| DiffieHellman.Modulus | lualib-src/lua-crypt.c:634-634 | the modulus is 2^64 - 59 |
| DiffieHellman.MulModP | lualib-src/lua-crypt.c:636-656 | the product modulo the prime, in 64-bit arithmetic whose overflow cancels out |
| DiffieHellman.ReturnsIff | lualib-src/lua-crypt.c:658-669 | the recursion reaches its end if and only if the exponent is not 0 |
| DiffieHellman.EvalIs | lualib-src/lua-crypt.c:658-669 | what it then returns |
| DiffieHellman.PowModP | lualib-src/lua-crypt.c:658-669 | powers by squaring, for exponents that are not 0 |
| DiffieHellman.PowMod | lualib-src/lua-crypt.c:672-677 | never returns exactly for exponent 0; otherwise the result is the power modulo the prime if and only if it is not asked for the prime to the first power |
| DiffieHellman.SecretsAgree | lualib-src/lua-crypt.c:694-722 | both sides compute the same secret |
| DiffieHellman.Exchange | lualib-src/lua-crypt.c:694-722 | the code of both sides returns that secret, unless a key is 0, when it does not return |
| HashId.Table.constructor | service-src/hashid.h:21-39 | a new index has no ids and at least as many buckets as slots |
| HashId.Table.Lookup | service-src/hashid.h:52-62 | the slot of a live id, -1 otherwise |
| HashId.Table.Remove | service-src/hashid.h:64-89 | frees the slot of a live id; all other ids keep their slots |
| HashId.Table.Insert | service-src/hashid.h:91-113 | takes the first free slot from the id on, which exists while not full; all other ids keep their slots |
| HashId.ProbeNext | service-src/hashid.h:91-113 | slots are tried one after the other, from the id modulo the capacity on, round the table |
| HashId.Table.Full | service-src/hashid.h:115-118 | full if and only if every slot is live |
| DataBuffer.Buffers.TakeNode | service-src/databuffer.h:91-110 | a free node, or the first of a new block of 1023 whose others become free |
| DataBuffer.Buffers.Push | service-src/databuffer.h:91-123 | the unread bytes of one connection grow by the chunk; every node stays on exactly one list |
| DataBuffer.Buffers.DropFirst | service-src/databuffer.h:48-62 | a read chunk returns to the free list |
| DataBuffer.Buffers.Read | service-src/databuffer.h:64-89 | returns exactly the next bytes across chunks and leaves the rest |
| DataBuffer.Buffers.ReadHeader | service-src/databuffer.h:125-144 | the size of the next frame, or -1, as the bytes present say |
| DataBuffer.Buffers.Conserved | service-src/databuffer.h:48-123 | the lengths of the free list and of all lists of connections add up to the number of nodes ever allocated |
| DataBuffer.Buffers.Clear | service-src/databuffer.h:151-157 | all chunks return to the free list |
| Gate.StreamCut | service-src/service_gate.c:198-218 | what is forwarded for two chunks is what their concatenation contains |
| Gate.Connections.Dispatch | service-src/service_gate.c:177-218 | terminates; forwards exactly the non-empty frames of the connection and keeps the rest |
| Gate.Connections.DispatchNowhere | service-src/service_gate.c:177-218 | without broker, agent and watchdog nothing is forwarded and of every complete frame only the size is read |
| Gate.SkimWitness | service-src/service_gate.c:177-218 | the content of such a frame is then read as the next size |
| Gate.SkimIff | service-src/service_gate.c:177-218 | what is left is the rest of the stream if and only if its frames take an even number of bytes and a complete frame seems to begin at every second of them |
| Gate.SkimRecovers | service-src/service_gate.c:177-218 | a frame of two zeros is lost and the rest is right all the same |
| Gate.SkimRight | service-src/service_gate.c:177-218 | the rest is that of the stream if all its frames are empty |
| Gate.LossIff | service-src/service_gate.c:177-218 | nothing is sent, so what is sent and the rest are both those of the stream if and only if all its frames are empty |
| GateLives.SentFrom | service-src/service_gate.c:177-235 | from any point on where there is always a destination, it gets the non-empty frames of what was left and what follows |
| GateLives.SentNone | service-src/service_gate.c:177-235 | without a destination, chunks leave what skimming their concatenation leaves |
| GateLives.InStep | service-src/service_gate.c:177-235 | if what is left is the rest of the stream, a destination gets exactly the frames completed from there on |
| GateLives.SetLate | service-src/service_gate.c:177-235 | a destination that is set late gets the frames of what skimming left and what follows; they are the frames completed since if skimming left the rest of the stream |
| GateLives.InStepIff | service-src/service_gate.c:177-235 | whatever a connection sends later, the right frames of it are cut if and only if what is left is the rest of the stream |
| Gate.Service.Accept | service-src/service_gate.c:263-278 | refused exactly when all slots are in use; a new connection starts with an empty stream |
| Gate.Service.Close | service-src/service_gate.c:251-262 | gives back the slot with an empty buffer; others are untouched |
| Gate.Service.Data | service-src/service_gate.c:220-235 | data of a known id goes to its own slot and its frames out under that id if there is a destination; other data is dropped |
| GateRuns.OutIs | service-src/service_gate.c:220-278 | over every run of accepts, data with or without a destination, and closes, what is forwarded for a socket is what each of its lives, one for each accept, has got |
| GateRuns.OutFrames | service-src/service_gate.c:220-278 | for a socket whose data always finds a destination, it is the non-empty frames of its streams |
| GateRuns.SinceAccept | service-src/service_gate.c:220-278 | since an accept, it is what the parts sent since then get |
| GateRuns.RunAll | service-src/service_gate.c:220-278 | the gate forwards exactly that, whichever slots are used and used again |
| ShareTable.FillNoColliding | lualib-src/lua-sharedata.cpp:211-234 | after the first pass every main position is taken by an entry that belongs there |
| ShareTable.FillColliding | lualib-src/lua-sharedata.cpp:236-271 | the second pass always finds a free slot and places every entry |
| ShareIndex.PlaceColliding | lualib-src/lua-sharedata.cpp:236-271 | a colliding entry joins the chain of its main position; chains stay acyclic and disjoint |
| ShareConf.Index.constructor | lualib-src/lua-sharedata.cpp:275-324 | the finished hash part has all entries, each in one slot |
| ShareConf.Index.Lookup | lualib-src/lua-sharedata.cpp:499-528 | terminates; finds the slot of a key, a 32-bit integer or a string, that is there and nothing otherwise |
| ShareKeys.LowIs | lualib-src/lua-sharedata.cpp:190-197 | the low word is the number modulo 2^32, in the range of a C int |
| ShareKeys.CountSize | lualib-src/lua-sharedata.cpp:66-88 | counts the keys that are not indices of the array part, as 64-bit integers |
| ShareKeys.StraysIff | lualib-src/lua-sharedata.cpp:190-209 | the counting test and the filling test disagree exactly on keys beyond 32 bits whose low word is an index of the array part |
| ShareKeys.SlotsExact | lualib-src/lua-sharedata.cpp:66-209 | there is one slot for every key of the hash part if and only if no two keys have the same low word and none strays; otherwise there are too many slots |
| ShareKeys.LookupIff | lualib-src/lua-sharedata.cpp:530-564 | looking a key up by its low word gives what the Lua table has if and only if the table has the key or no other key with its low word; it gives nil exactly when there is no key with its low word |
| ShareKeys.WideLookup | lualib-src/lua-sharedata.cpp:530-564 | if all keys fit 32 bits, a key that does not gives what the Lua table has for its low word |
| ShareKeys.WideWitness | lualib-src/lua-sharedata.cpp:66-209 | 2^32+1 finds element 1; as a key of the table it is counted for a slot that nothing fills |
| ShareData.Table.constructor | lualib-src/lua-sharedata.cpp:275-324 | for tables whose keys have different low words and do not stray, the array part and the hash part together hold the Lua table under the low words of its keys, in exactly the slots that were counted |
| ShareData.Table.IndexConf | lualib-src/lua-sharedata.cpp:530-564 | for every 64-bit integer or string key, what is held for its low word; the Lua table has the same if and only if it has the key or no other key with its low word |
| ShareData.Table.NextKey | lualib-src/lua-sharedata.cpp:577-644 | the key after a key given by its low word, in a fixed order |
| ShareData.Table.OrderExact | lualib-src/lua-sharedata.cpp:587-644 | that order has the low word of every key of the Lua table exactly once |
| ShareData.Table.AllKeys | lualib-src/lua-sharedata.cpp:587-644 | asking for the next key visits all of them and stops |
| SeriCode.LittleAt | lualib-src/lua-seri.c:140-172 | byte i of a number has its digit of 256^i |
| SeriCode.IntForm | lualib-src/lua-seri.c:140-172 | type 2; zero, one, two, four or eight bytes in two's complement, as few as the value needs; the cookie says how many |
| SeriCode.ValueForm | lualib-src/lua-seri.c:128-227 | type number, cookie and payload of every kind of value |
| SeriCode.IntRoundTrip | lualib-src/lua-seri.c:140-172 | every 64-bit integer is read back from its shortest form |
| SeriCode.StrRoundTrip | lualib-src/lua-seri.c:188-211 | every string is read back |
| SeriCode.RoundTrip | lualib-src/lua-seri.c:266-310 | every value is read back and exactly its bytes are consumed, whatever follows |
| SeriCode.AllRoundTrip | lualib-src/lua-seri.c:524-581 | unpacking a packed sequence gives that sequence and uses all bytes |
| SeriBlocks.Writer.Push | lualib-src/lua-seri.c:63-83 | the block chain flattened grows by exactly the bytes pushed |
| SeriBlocks.Writer.WriteInteger | lualib-src/lua-seri.c:140-172 | writes the code of an integer |
| SeriBlocks.Writer.WriteString | lualib-src/lua-seri.c:188-211 | writes the code of a string |
| SeriBlocks.Writer.PackTable | lualib-src/lua-seri.c:215-264 | writes size, array part, other entries and a nil |
| SeriBlocks.Writer.PackOne | lualib-src/lua-seri.c:266-310 | writes the code of a value; fails exactly on values nested too deep |
| SeriBlocks.Writer.Seri | lualib-src/lua-seri.c:503-522 | copies the blocks to one buffer |
| SeriBlocks.Pack | lualib-src/lua-seri.c:568-581 | packs all values unless one is nested too deep |
| SeriReader.Reader.ReadBytes | lualib-src/lua-seri.c:116-126 | the next bytes, or nothing if there are too few |
| SeriReader.Reader.GetInteger | lualib-src/lua-seri.c:329-370 | reads an integer of each size |
| SeriReader.Reader.UnpackTable | lualib-src/lua-seri.c:404-434 | reads a table |
| SeriReader.Reader.UnpackOne | lualib-src/lua-seri.c:436-501 | reads one value, or reports an invalid stream |
| SeriReader.Unpack | lualib-src/lua-seri.c:524-566 | reads values until the bytes end |
| SocketBuffer.Buffer.Push | lualib-src/lua-socket.c:100-148 | the contents grow by the message, which may be empty |
| SocketBuffer.Buffer.DropFirst | lualib-src/lua-socket.c:150-167 | the first chunk goes |
| SocketBuffer.Buffer.PopString | lualib-src/lua-socket.c:169-206 | takes a prefix off the contents and returns it without the skipped end, across chunks; fails if and only if a chunk lies strictly inside the skipped end |
| SocketBuffer.InsideWitness | lualib-src/lua-socket.c:184-206 | a separator of three bytes whose middle byte is a chunk of its own |
| SocketBuffer.EmptyWitness | lualib-src/lua-socket.c:320-357 | with an empty chunk in front the search leaves its buffers, although the separator is at position 1 |
| SocketBuffer.Buffer.PopBuffer | lualib-src/lua-socket.c:232-249 | exactly a prefix, or nothing if there are too few bytes; a length that is negative if and only if the size is |
| SocketBuffer.Buffer.ReadAll | lualib-src/lua-socket.c:269-286 | returns and drains everything |
| SocketBuffer.Buffer.CheckSep | lualib-src/lua-socket.c:296-313 | compares a separator across chunks |
| SocketBuffer.Buffer.FindSep | lualib-src/lua-socket.c:320-357 | the earliest separator, or none; leaves its buffers if and only if it has to pass an empty chunk |
| SocketBuffer.Buffer.ReadLine | lualib-src/lua-socket.c:320-357 | for every separator, the empty one included, the text before the earliest one, leaving the text after it; checking changes nothing; goes wrong if and only if an empty chunk is passed or a chunk lies strictly inside the separator |
| Sha1Standard.Rotations | lualib-src/lsha1.c:103-103 | rotating by n brings bit i - n, modulo 32, to bit i |
| Sha1Standard.WordParts | lualib-src/lsha1.c:105-112 | a word has its bytes most significant first, and gives them back so |
| Sha1Standard.FirstWords | lualib-src/lsha1.c:105-112 | the first sixteen words of the schedule are those of the block |
| Sha1Standard.ScheduleBits | lualib-src/lsha1.c:114-115 | bit i of every later word is the sum of the bits i - 1 of the words 3, 8, 14 and 16 places before |
| Sha1Standard.LogicBits | lualib-src/lsha1.c:118-122 | bit by bit: choice, sum, majority, sum |
| Sha1Standard.ConstantRoots | lualib-src/lsha1.c:118-122 | the constants are the square roots of 2, 3, 5 and 10 times 2^30, rounded down |
| Sha1Standard.StartBytes | lualib-src/lsha1.c:182-190 | the bytes of the initial state |
| Sha1Block.Blk0IsBig | lualib-src/lsha1.c:111-112 | the byte swap of a loaded word gives the big-endian word |
| Sha1Block.LogicSame | lualib-src/lsha1.c:118-122 | the boolean functions of the macros are those of the standard |
| Sha1Block.WindowMoves | lualib-src/lsha1.c:114-115 | sixteen words in a circle hold the last sixteen of the eighty-word schedule |
| Sha1Block.MacroStep | lualib-src/lsha1.c:118-175 | a macro call on renamed registers is a step of the standard |
| Sha1Block.Transform | lualib-src/lsha1.c:126-175 | the compression in place is that of FIPS 180-4, section 6.1.2 |
| Sha1Stream.Context.Update | lualib-src/lsha1.c:192-217 | for every length, the context stands for the whole message so far, wherever blocks begin, and for the carries counted too many |
| Sha1Stream.Context.Count | lualib-src/lsha1.c:200-203 | one carry too many is counted if and only if the bits of the update fill more than a word and its low word does not carry |
| Sha1Stream.BitsRight | lualib-src/lsha1.c:200-203 | the count of bits is right if and only if no carry, modulo 2^32, was counted too many |
| Sha1Stream.CountWitness | lualib-src/lsha1.c:200-203 | the first update of 2^29 bytes is counted as 2^32 bits too many |
| Sha1Stream.Context.Final | lualib-src/lsha1.c:221-246 | the digest of the message padded as in FIPS 180-4, section 5.1.1, with the count as it is |
| Sha1Standard.PaddingForm | lualib-src/lsha1.c:221-234 | a byte 0x80, as few zeros as make full blocks, and eight bytes of length, most significant first |
| Sha1Stream.Digest | lualib-src/lsha1.c:235-239 | the words of the state in order, each most significant byte first |
| Sha1Stream.CodeDigestRight | lualib-src/lsha1.c:192-246 | with the right count, the digest is that of the concatenation |
| Sha1Stream.HashParts | lualib-src/lsha1.c:192-246 | any updates give the digest with the count as it is, which is that of the concatenation where the count is right |
| Sha1Stream.Hash | lualib-src/lsha1.c:251-263 | the digest of a message, where its length is counted right |
| Sha1Stream.XorKey | lualib-src/lsha1.c:267-274 | every byte of the block is combined with the pad |
| Sha1Stream.HmacSha1 | lualib-src/lsha1.c:276-314 | two digests with the counts as they are, over the padded keys |
| Sha1Stream.HmacRight | lualib-src/lsha1.c:276-314 | HMAC as in RFC 2104, section 2, where the counts are right; they are for keys and texts below 2^29 bytes |

## Left out

- LPeg captures, run-time captures, grammars and calls; patterns made of character sets are given as sets.
- LpegPatterns.Machine.Match: the number of steps is a ghost argument; that runs halt is proved by `LpegCorrectness.GeneratedCodeMatches` and `LpegPeephole.OptimisedAgrees`.
- LpegCorrectness.GeneratedCodeMatches: requires `OptSafe`, because the code can be wrong without it (`LpegOptDefect.OptMatters`); the converse does not hold (`LpegOptDefect.UnsafeButCorrect`).
- Collector: userdata, closures, prototypes, upvalues, coroutines, weak tables, ephemerons and finalizers; memory accounting and pacing; shrinking of stacks and of the string table. The finalizer lists are always empty.
- Collector: the gray-again list that is left over after the atomic phase is a sequence here; the program reuses its links, and does not read it before the next cycle clears it.
- Program operations of the collector's model work on a stack of values and on table entries as a list; hashing of tables is not part of this model.
- Timers: reading the system clock, locks, and the immediate message for a delay of 0. Lists are sequences, so the head and tail pointers of `link` and `link_clear` are not part of this model.
- TimerRuns.Replay: runs have timers whose deadline is ahead in the sense of `Ahead` when they are added; the others are followed one by one in `TimerJourney`.
- Harbor: global names and their queues, messages to the own harbor, finding a slave by its socket, reports of closed sockets. A queue is created on demand in the program and always there in the model.
- netpack: events other than data and pops; a closed descriptor keeps its saved part, as in the program.
- Gate: headers of four bytes and the limit of 16 megabytes that only they can reach; text commands; sending to clients.
- Gate: how a destination comes about; every chunk comes with the one that is set then, or with none.
- SocketBuffer.Buffer.PopString: what the program does with a negative length is not modelled; nor is, for `FindSep`, what it finds outside its buffers.
- SocketBuffer: the pool of nodes (that of the gate is modelled).
- SocketBuffer.Buffer.PopBuffer: what the program does with a negative size, which has no meaning, is not modelled beyond that it happens.
- DES: the key schedule; all results hold for every schedule of sixteen pairs of words. Base64, hexadecimal, the 64-bit HMAC and the hash for keys.
- DiffieHellman: keys are numbers; reading them from eight bytes is not modelled.
- DiffieHellman.PowModP: is the recursion for exponents of 1 and more, where it ends; for 0 it does not, which `DiffieHellman.ReturnsIff` proves and `DiffieHellman.PowMod` reports.
- DesText.DesDecode: texts of 2^31 bytes and more, where the C index itself overflows, are treated like shorter ones; what is read before the buffer is not modelled.
- Sha1Stream.BitsRight: compares with the true count of bits below 2^61 bytes only, where the standard defines it.
- seri: lengths of 2^31 and more; numbers that are not integers and pointers are eight opaque bytes. Byte order is that of a little-endian machine.
- SeriCode.RoundTrip: tables are an array part and a list of entries in the order of iteration.
- sharedata: nested tables are values; the string index is represented by the strings themselves; keys are integers or strings; reference counts and updates.
- ShareData.Table.constructor: requires different low words and no stray key; otherwise slots stay unfilled or keys are lost (`ShareKeys.SlotsExact`), and what is read from an unfilled slot is not modelled.
- ShareConf.Index.constructor: the array entries have been separated before; the program skips them in each pass.
- Sockets, threads, module loading, logging, the message queues and scheduler, and all Lua stack traffic.
- BSON, Mongo, cluster, MySQL, multicast, STM and the debug channel, which would only add easier members of the same kinds.
