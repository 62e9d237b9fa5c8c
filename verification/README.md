# Azmuth: formal model of the algorithmic core

A Dafny model of the parts of the Azmuth (Xcew) processor repository whose behaviour is an
algorithm rather than wiring, with proofs about all inputs, all runs and all reachable states.
`dafny verify dfyconfig.toml` checks the whole project.

| file | what it models |
|---|---|
| Prelude.dfy | shared by all: `Option`, the 32-bit modulus, two's complement |
| ByteBits.dfy | bytes and bits of numbers, exclusive or and parity |
| EmlUnit.dfy | the EML accelerator `exp(rs1) - ln(rs2)`: a six-state clocked machine over a direct-mapped memo table |
| MachineCode.dfy | machine code as points, operands, control flow, dominance, and executions along a path |
| CsePass.dfy | the common-subexpression pass of the compiler back end, as tables and as the loops that erase in place |
| CseSoundness.dfy | what the pass's record means: when it is right, when erasing is sound, what is missed |
| BootCrc.dfy | the boot ROM checksum, and polynomial division over GF(2) |
| Djb2.dfy | the rolling hash shared by the compiler pass and the profiler |
| Profiler.dfy | the expression profiler: 256 slots, an occupancy bit vector, linear search, eviction, statistics |
| SnnNeuron.dfy | the golden leaky integrate-and-fire neuron and the firmware neuron that should refine it |
| SnnEncoder.dfy | the I/Q-to-spike encoder and the spike-timing learning rule |
| JtagTap.dfy | the JTAG test access port: state machine, instruction and data scan paths |
| FirmwareHex.dfy | the binary-to-hex converter and the loader that reads its output |
| Startup.dfy | clearing `.bss` and copying `.data` |
| TrapHandler.dfy | the machine-mode trap handler, and programs interrupted by it |

Each stateful part has the source's form, a class or a method with loops over its registers,
arrays or fields, and is proved equal to a function on values. The theorems are about that
function. Hardware registers are sampled and written once per `Tick`; memory arrays are Dafny arrays.

## Where the code and its documents differ

The model follows the code. Each difference below is stated by a lemma.

- The memo tag is an 8-bit XOR of the operand bytes, so a hit need not be the recomputed value. The
  unit is right on every run exactly when the result is a function of the hash
  (`CorrectIffResultFactorsThroughHash`), and on one run exactly when no operation finds a stale
  entry (`RefinesUncachedUnit`); `WrongWordPresented` is a concrete failure.
- `sby/eml_fv.sv` claims `o_ready == ~o_valid`. Since `o_valid` is held until the next acceptance
  this is false from the first request on (`ReadyComplementsValidIff`). The depth exception
  cannot be raised (`DepthExceptionNeverRaised`).
- The compiler pass records a register for every erased instruction but never rewrites a use. With
  the remap applied it is sound exactly when every survivor that is reached and reads an erased
  destination finds the leader executed, with the same operands (`RemapSoundIff`); as written it is
  sound exactly when there is no such survivor (`ErasureAloneSoundIff`). The record itself is right
  behind the erased instruction exactly under dominance and equal operands (`RecordRightIff`).
  Registers and immediates share one number list (`ImmediateCollision`), tables survive from block to
  block (`BranchArmErased`), one instruction is skipped after each erasure (`MissedIffAfterErasure`)
  and the result flag overlooks erasures at the end of a block (`ChangedIff`).
- The boot ROM document names CRC-32/ISO-HDLC. The routine is not reflected, takes each byte in at
  the low end of the register, and ends with the complement of `crc ^ poly` (`EmptyImageChecksum`).
  It still detects every error burst of up to 32 bits.
- A profiler expression hashing to 0 matches an unused slot: it is counted there, never stored, and
  its identifier 0 means failure to the caller (`PrecompileKeepsPrefix`). The eviction routine is dead
  code (`EvictionNeverRuns`).
- The default neuron window of 1000 microseconds is 0 cycles at any clock below 1000 MHz, so no
  neuron fires (`DefaultWindowIsZero`, `ZeroWindowSilent`).
- The learning rule truncates, so while its updates are small it moves weights only toward zero, and
  potentiation never raises a non-negative weight (`LearnMovesTowardZero`, `TowardZeroIff`).
- `UPDATE_IR` and `TEST_LOGIC_RESET` share code 0000, so staying in reset keeps reloading the
  instruction register from its shift register (`FiveOnesReset`); the bypass path has 32 cells.
- The hex converter writes no address line and the loader needs one (`OutputAloneLoadsIffEmpty`).

## Model

| member | source | states |
|---|---|---|
| EmlUnit.ConstantTime | rtl/eml/eml_unit.v:254-338 | Two runs from equal control registers with equal reset, `i_valid` and configuration show the same `o_ready`, `o_valid`, `o_exc` at every clock, for any operands, any memo contents and even different arithmetic |
| EmlUnit.ControlDeterminesTiming | rtl/eml/eml_unit.v:254-338 | Stage, depth counter, exception and valid registers of such runs stay equal |
| EmlUnit.StepControl | rtl/eml/eml_unit.v:272-336 | One clock moves the control registers by a rule in which no operand, result or table word occurs |
| EmlUnit.AcceptedOperationCompletes | azmuth_improvements.patch:17-155 | An accepted operation raises `o_valid` exactly five edges after the accepting edge whatever `i_valid` does, is neither ready nor valid before that, and finishes once |
| EmlUnit.ResultHeld | rtl/eml/eml_unit.v:279-292 | Result, valid flag and table do not change until the next acceptance or reset, over any number of clocks |
| EmlUnit.LookupFindsLeader | rtl/eml/eml_unit.v:298-304 | The lookup hits exactly when the last finished operation on that slot had the same hash, and then holds the result of its leader |
| EmlUnit.WriteBackKeepsMemo | rtl/eml/eml_unit.v:320-332 | Writing back on a miss, and not on a hit, keeps the table in step with the history of finished operations |
| EmlUnit.StepKeepsInvariant | rtl/eml/eml_unit.v:223-336 | Every clock, resets included, keeps the invariant relating table, in-flight registers and outputs to the operations asked for |
| EmlUnit.RunKeepsInvariant | rtl/eml/eml_unit.v:223-336 | The invariant holds after every run |
| EmlUnit.ResultIsOfSameHash | rtl/eml/eml_unit.v:298-332 | In every run from power-on a presented result is `exp - ln` of a finished operation with the same hash |
| EmlUnit.MemoInvisible | rtl/eml/eml_unit.v:298-332 | When finished operations of equal hash have equal results, every presented result is the uncached one |
| EmlUnit.ResultsAreServed | rtl/eml/eml_unit.v:283-334 | The clocks that raise `o_valid` present one result per finished operation, in order, on every run |
| EmlUnit.RefinesUncachedUnit | rtl/eml/eml_unit.v:283-334 | Without resets the accepted operations finish one by one and in order, all of them when idle and all but the last when busy; the results are the uncached ones if and only if no operation finds a stale entry, that is, whenever the last earlier operation on its slot has its hash the two exact results are equal |
| EmlUnit.ResultsExactIff | rtl/eml/eml_unit.v:283-334 | The same equivalence on every run, resets included, for the operations that finished |
| EmlUnit.HashSafeNoStale | rtl/eml/eml_unit.v:294-332 | No entry is ever stale when operations of equal hash have equal exact results, in particular when no two share a hash |
| EmlUnit.CollidingPairServed | rtl/eml/eml_unit.v:298-332 | Two requests of equal hash: the second is answered with the first one's result |
| EmlUnit.CorrectIffResultFactorsThroughHash | rtl/eml/eml_unit.v:294-332 | The unit is right on every run if and only if equal hashes imply equal exact results |
| EmlUnit.HashIgnoresOrder | rtl/eml/eml_unit.v:60-67 | The hash of (a, b) is the hash of (b, a) |
| EmlUnit.OperandBytesIff | rtl/eml/eml_unit.v:60-67 | The eight operand bytes are those numbers below 256 that make up the two words with weights 1, 2^8, 2^16 and 2^24, and no others |
| EmlUnit.HashBit | rtl/eml/eml_unit.v:60-67 | Bit k of the hash says whether an odd number of the eight operand bytes has bit k set |
| EmlUnit.SameHashIff | rtl/eml/eml_unit.v:242-248 | Two operand pairs have one hash if and only if in all eight bit positions their bytes have an even or odd number of ones alike, and one table slot if and only if that holds of positions 0 to 6 |
| EmlUnit.SecondRequest | rtl/eml/eml_unit.v:294-332 | Of two requests from power-on the second is answered with the first one's result if those eight parities agree, and with its own exact result otherwise, for every datapath |
| EmlUnit.OneByteApartExact | rtl/eml/eml_unit.v:60-67 | Two requests that differ in exactly one of the eight operand bytes are both answered exactly |
| EmlUnit.EvictedIff | rtl/eml/eml_unit.v:242-248 | A request between two of one hash takes their slot away, so that the last is computed afresh, exactly when its hash differs from theirs in bit 7 alone |
| EmlUnit.ExactIsDifference | rtl/eml/eml_unit.v:315-318 | The exact result is the one word congruent to `exp - ln` modulo 2^32 |
| EmlUnit.ResetKeepsMemo | rtl/eml/eml_unit.v:254-266 | After a reset edge the unit is ready with outputs and depth zero and the table as it was |
| EmlUnit.SwappedOperandsCollide | rtl/eml/eml_unit.v:60-67 | Asking for (a, b) and then (b, a) returns `exp a - ln b` both times, which is right if and only if `exp a - exp b` equals `ln b - ln a` |
| EmlUnit.WrongWordPresented | rtl/eml/eml_unit.v:83-157 | With the source's values of exp(0), ln(1.0) and the logarithm of a negative number, a request is answered 0x00010000 although its exact result is 0x80010000 |
| EmlUnit.DepthExceptionNeverRaised | rtl/eml/eml_unit.v:272-277 | No run from power-on raises the depth exception; the depth counter stays at most 1 |
| EmlUnit.ReadyComplementsValidIff | sby/eml_fv.sv:35-39 | `o_ready == ~o_valid` holds at exactly the clocks with no `i_valid` since the last reset |
| EmlUnit.Unit.Tick | rtl/eml/eml_unit.v:223-336 | One clock edge of the registers and the three memo arrays is one step of the state machine, and keeps the invariant |
| EmlUnit.Unit.LookUp | rtl/eml/eml_unit.v:298-305 | A hit loads the stored word and sets the hit flag, a miss leaves the result register |
| EmlUnit.Unit.StoreMiss | rtl/eml/eml_unit.v:327-329 | Exactly the indexed entry becomes valid with the latched hash and the fresh result |
| CsePass.XcewOptPass.RunOnMachineFunction | toolchain/XcewOptPass.cpp:107-189 | Tables, changed flag and the blocks left after erasing in place are those of the scan, for every list of distinct blocks |
| CsePass.XcewOptPass.VisitBlock | toolchain/XcewOptPass.cpp:122-179 | The iterator loop with erase, early break and skipped increment leaves the kept instructions and the tables of the scan of the original block |
| CsePass.XcewOptPass.VisitInstr | toolchain/XcewOptPass.cpp:125-178 | An EML instruction with a known node is to be erased, one with a new node is recorded, others leave the tables alone |
| CsePass.XcewOptPass.CollectOperands | toolchain/XcewOptPass.cpp:127-137 | The node holds the opcode and, in order, the numbers of the used registers and immediates |
| CsePass.EraseVisited | toolchain/XcewOptPass.cpp:162-166 | After an erasure the iterator and the loop increment together resume two original instructions later, or the block is finished |
| CsePass.ScanBlocksErasesAhead | toolchain/XcewOptPass.cpp:121-180 | Scanning later blocks never erases an earlier instruction |
| CsePass.SurvivorsInOrder | toolchain/XcewOptPass.cpp:162-166 | What is left of every block: each survivor, moved up by the number of erased instructions before it, and nothing else |
| CseSoundness.VisitBacked | toolchain/XcewOptPass.cpp:147-177 | Each visit keeps: every node has a surviving leader with that node and its destination recorded, every erased instruction an earlier leader with its node |
| CseSoundness.AnalyseBacked | toolchain/XcewOptPass.cpp:107-180 | That holds of the tables of every function |
| CseSoundness.NodesEqualIff | toolchain/XcewOptPass.cpp:46-54 | Two instructions have one node if and only if their opcodes are equal and their used registers and immediates agree in number and, modulo 2^32, position by position |
| CseSoundness.NodeLists | toolchain/XcewOptPass.cpp:131-137 | A node lists, in order, a used register's number and for an immediate v the n from 0 to 2^32 - 1 with v - n a multiple of 2^32 |
| CseSoundness.OperandStable | toolchain/XcewOptPass.cpp:158-159 | In SSA code whose definitions dominate their reads, what an EML instruction read is unchanged wherever that instruction is known to have been executed, loops included |
| CseSoundness.EmlValue | toolchain/XcewOptPass.cpp:150-160 | Wherever an EML instruction is known to have been executed, its destination is its operation on the present values of its operands, in every semantics |
| CseSoundness.TwinHolds | toolchain/XcewOptPass.cpp:150-160 | Where an erased instruction and its leader are both known to have been executed and have the same operands, their destinations are equal |
| CseSoundness.RewriteSound | toolchain/XcewOptPass.cpp:158-163 | If every survivor that is reached and reads an erased destination finds the leader executed, with the same operands, then dropping erased instructions and reading through the recorded registers keeps the world and every other register, along every path, in every semantics, from every state |
| CseSoundness.RemapSoundIff | toolchain/XcewOptPass.cpp:153-163 | The remapped code behaves like the original along every path if and only if that condition on the reads holds; the leader need not dominate the erased instruction |
| CseSoundness.DominatedCovered | toolchain/XcewOptPass.cpp:153-163 | The condition holds when every leader dominates what was erased for it and has the same operands |
| CseSoundness.PassSound | toolchain/XcewOptPass.cpp:107-189 | Under the same exact condition the tables a run of the pass produces keep the function's meaning, along every path, in every semantics |
| CseSoundness.NodeDeterminesUses | toolchain/XcewOptPass.cpp:46-54 | If among EML operands no register number doubles as an immediate, no two immediates agree modulo 2^32 and no operand is of another kind, equal nodes have equal operands |
| CseSoundness.BlockSound | toolchain/XcewOptPass.cpp:121-180 | On any SSA block with such operands the remap is sound, and each erased destination's value is in `node_to_reg[cse_map[node]]`, in spite of the skipped instructions |
| CseSoundness.RecordRightIff | toolchain/XcewOptPass.cpp:131-160 | Behind an erased instruction its destination equals the recorded register on every path if and only if the leader dominates it and, where reachable, has the same operands |
| CseSoundness.BlockRecordRightIff | toolchain/XcewOptPass.cpp:131-160 | Inside one SSA block: if and only if the operands are the same and not merely their numbers |
| CseSoundness.BlockRemapIff | toolchain/XcewOptPass.cpp:121-166 | Inside one SSA block the remap is sound if and only if every erased instruction whose destination a survivor reads has its leader's operands |
| CseSoundness.ImmediateCollision | toolchain/XcewOptPass.cpp:131-137 | `add r5, r6` and `add r5, 6` get one node; the second is erased, its record is wrong, and a store of its result behind them is remapped wrongly |
| CseSoundness.BranchArmErased | toolchain/XcewOptPass.cpp:115-121 | A repeat in the other arm of a branch is erased, its record is wrong, and a store behind it is remapped to a register never written |
| CseSoundness.MissedIffAfterErasure | toolchain/XcewOptPass.cpp:162-166 | In every function an EML instruction is neither recorded nor erased if and only if the instruction before it in its block was erased |
| CseSoundness.ErasedIff | toolchain/XcewOptPass.cpp:125-166 | In every function an instruction is erased if and only if it has one of the six EML opcodes, is not skipped behind an erasure, and an earlier such instruction that survives agrees with it in opcode and numbers; there is exactly one such and it is the leader |
| CseSoundness.ErasedImmediatesEqual | toolchain/XcewOptPass.cpp:131-163 | An erased instruction and its leader never have different immediates from 0 to 2^32 - 1 in one position |
| CseSoundness.RegistersIff | toolchain/XcewOptPass.cpp:153-176 | After a run `node_to_reg` holds for each node its leader's first operand register, 0 where the leader has none but an instruction erased for it has, and nothing otherwise |
| CseSoundness.ChangedIff | toolchain/XcewOptPass.cpp:163-188 | The result is true if and only if some erased instruction was not the last of its block |
| CseSoundness.ErasureAloneSoundIff | toolchain/XcewOptPass.cpp:153-163 | Without the remap, as written, the code left behaves like the original on every path if and only if no survivor that is reached reads an erased destination |
| BootCrc.Crc32Check | firmware/boot.S:103-123 | The loop nest returns the checksum of the bytes between two 32-bit addresses in the signed order the comparison uses, none when the range is empty or reversed |
| BootCrc.ImageBytes | firmware/boot.S:105-118 | The bytes fed are one per address from start up to end, in order, with the address taken modulo 2^32 |
| BootCrc.ChecksumBits | firmware/boot.S:104-123 | Bit by bit the value returned is the remainder, complemented where the generator has no term; the generator has the exponents 26, 23, 22, 16, 12, 11, 10, 8, 7, 5, 4, 2, 1, 0 below 32 |
| Prelude.SignedIsRepresentative | firmware/boot.S:105-107 | Two's complement is the representative modulo 2^32 from -2^31 to 2^31 - 1, and no other |
| BootCrc.FeedIsRemainder | firmware/boot.S:105-119 | The register is the remainder of init * x^(8n) + x^8 * M(x) modulo the generator |
| BootCrc.FeedDividesOut | firmware/boot.S:104-119 | The register value is the only one for which some quotient times the generator plus it is that dividend |
| BootCrc.FeedLinear | firmware/boot.S:105-119 | XOR-linear in initial value and image together |
| BootCrc.FeedComposes | firmware/boot.S:105-119 | Feeding a concatenation is feeding one image after the other |
| BootCrc.SameChecksumIff | firmware/boot.S:103-123 | Two images of one length share a checksum if and only if the generator divides their difference |
| BootCrc.BurstsDetected | firmware/boot.S:103-123 | Images that differ, and only within some 32 consecutive bits, never share a checksum |
| BootCrc.FourByteChangesDetected | firmware/boot.S:103-123 | Images that differ, and only within four consecutive bytes, never share a checksum |
| BootCrc.EmptyImageChecksum | firmware/boot.S:120-123 | From all ones the empty image's checksum is the generator, not the zero of CRC-32/ISO-HDLC |
| Gf2.RemIsRemainder | firmware/boot.S:104-117 | Shift-and-XOR computes the remainder of schoolbook polynomial division, and nothing else is a remainder |
| Gf2.ShiftKeepsNonZero | firmware/boot.S:110-117 | Shifting never turns a non-zero register into zero |
| Gf2.BurstNotDivisible | firmware/boot.S:104-117 | A non-zero burst of at most 32 bits, anywhere, is no multiple of the generator |
| Djb2.RollIsPolynomial | firmware/eml_optimizer.c:129-135 | The loop computes hash * 33^n + sum of x_i * 33^(n-1-i) modulo 2^32 |
| Djb2.GetEmlHash | toolchain/XcewOptPass.cpp:291-303 | The loop over opcode and operands returns the low byte of the rolled hash |
| Djb2.TagIsPolynomial | toolchain/XcewOptPass.cpp:291-303 | The tag is that polynomial, from the seed 5381 over opcode and operands, modulo 256 |
| Djb2.PowerOf33IsUnit | toolchain/XcewOptPass.cpp:295-302 | Multiplying by a power of 33 keeps divisibility by 256 both ways |
| Djb2.TagChangesIff | toolchain/XcewOptPass.cpp:291-303 | Changing one operand changes the tag if and only if the change is not a multiple of 256 |
| Profiler.ComputeHash | firmware/eml_optimizer.c:126-144 | The loop hashes up to the first zero or the depth and folds to eight bits; 0 for a null tree or depth |
| Profiler.TagOfWords | firmware/eml_optimizer.c:126-144 | The tag of the first n words, n being the depth or the place of the first zero, is the polynomial 5381 * 33^n + sum of w_i * 33^(n-1-i) modulo 2^32, folded |
| Profiler.FoldIsParity | firmware/eml_optimizer.c:137-143 | Bit k of the folded tag is the parity of bit k over the four bytes; changing one byte of the hash changes the tag |
| Profiler.SlotAlwaysFree | firmware/eml_optimizer.c:81-94 | Distinct hashes from 1 to 255 leave a slot free, and the search finds it behind the prefix |
| Profiler.PrecompileKeepsPrefix | firmware/eml_optimizer.c:57-121 | Precompiling keeps the used slots a prefix with distinct non-zero hashes and extends it exactly for a new hash |
| Profiler.RunKeepsPrefix | firmware/eml_optimizer.c:57-186 | After every run used slots are a prefix of at most 255 with distinct non-zero hashes, all other slots keep hash 0 |
| Profiler.EvictionNeverRuns | firmware/eml_optimizer.c:90-94 | Whenever a hash is missing a free slot exists; the identifier returned is always the hash |
| Profiler.RunRefinesMap | firmware/eml_optimizer.c:72-106 | In every run slots, bits and linear search are a plain map from non-zero hashes to entries |
| Profiler.EntriesFaithful | firmware/eml_optimizer.c:72-174 | An entry exists exactly for precompiled hashes and counts the calls modulo 2^32; its rate is a multiple of 5 up to 100 that never returns to 0 after a recorded hit |
| Profiler.HotOnlyAfterUse | firmware/eml_optimizer.c:165-186 | A non-zero hash is reported hot only after more than 100 precompile calls and at least 17 recorded hits for it |
| Profiler.EntriesReplayed | firmware/eml_optimizer.c:72-174 | Every entry of every run, exactly: calls modulo 2^32, and average cycles, rate and mark replayed from what was recorded for that hash while profiling was on |
| Profiler.HotIff | firmware/eml_optimizer.c:149-186 | A non-zero hash is reported hot if and only if some operation so far was a record of it, with profiling on and after a precompile of it, at which its calls modulo 2^32 exceeded 100 and its replayed rate exceeded 80 |
| Profiler.SeventeenHitsMakeHot | firmware/eml_optimizer.c:158-168 | More than 100 and fewer than 2^32 calls followed by 17 recorded hits in a row make a hash hot, whatever came before |
| Profiler.AverageSettles | firmware/eml_optimizer.c:155-156 | The moving average of n cycle counts from lo to hi, below 2^31, is at most hi and at least lo - 1 - lo / 2^n |
| Profiler.HotStays | firmware/eml_optimizer.c:165-186 | Once hot, a hash stays hot whatever calls follow |
| Profiler.SplitLosesAtMostOne | firmware/eml_optimizer.c:270-271 | Rounding the two shares of e executions down loses at most one |
| Profiler.StatsConserve | firmware/eml_optimizer.c:263-278 | For every reachable table in which nothing wraps, hits plus misses lie between executions minus used slots and executions |
| Profiler.StatsMean | firmware/eml_optimizer.c:263-278 | For every reachable table the hot count is the number of hot used slots, and unless something wraps hits and misses are each the rate-weighted executions in percent, short by less than one per used slot |
| Profiler.Optimizer.PrecompileTree | firmware/eml_optimizer.c:57-121 | On the arrays: the new table, occupancy bytes included, and the identifier are those of the operation on values; bit 5 of EML_CFG is set exactly when an entry is stored |
| Profiler.Optimizer.ProfileRecord | firmware/eml_optimizer.c:149-174 | On the arrays: likewise for recording, nothing while profiling is off |
| Profiler.Optimizer.IsHotPath | firmware/eml_optimizer.c:179-186 | Reports the mark of the first slot with the hash, false without one |
| Profiler.Optimizer.SetProfiling | firmware/eml_optimizer.c:283-285 | Switches recording for the calls that follow and touches no entry |
| Profiler.Optimizer.FindColdSlot | firmware/eml_optimizer.c:203-223 | Picks the first least executed used cold slot, if any, and clears exactly its occupancy bit |
| Profiler.ColdSlotIff | firmware/eml_optimizer.c:203-223 | The victim is, exactly, the first least executed of the used slots that are not hot and below 2^32 - 1 executions; -1 when there is none |
| Profiler.Optimizer.GetStats | firmware/eml_optimizer.c:263-278 | The loop returns the 32-bit sums over the used slots and the number of hot ones |
| Profiler.SetSlotBit | firmware/eml_optimizer.c:105-106 | Or-ing the mask into the byte sets that slot's flag and no other |
| Profiler.ClearSlotBit | firmware/eml_optimizer.c:217-220 | And-ing the complemented mask clears that slot's flag and no other |
| SnnGolden.ReferenceModel.LifNeuron | sim/golden/snn_golden.py:18-36 | Each neuron decays, adds its weighted sum, spikes at or above the threshold and is then reset, in any arithmetic |
| SnnGolden.LayerIsScalar | sim/golden/snn_golden.py:18-36 | Over any sequence of calls of the golden object each neuron's states and spikes are those of one scalar neuron on its own weighted sums |
| SnnGolden.GoldenFiresIff | sim/golden/snn_golden.py:18-36 | The golden neuron spikes at a call exactly when the leaky sum of the inputs since its last spike reaches the threshold, and holds that sum otherwise |
| SnnNeuron.TemporalCoder.ProcessTemporalCycle | firmware/snn_temporal.c:147-195 | One call moves exactly the addressed neuron by the step function and returns its spike |
| SnnNeuron.NeuronsIndependent | firmware/snn_temporal.c:147-195 | For any interleaving of calls a neuron's state and spikes are those of the neuron alone on its own inputs |
| SnnNeuron.NeuronRefinesGolden | firmware/snn_temporal.c:160-194 | With a window of at least one cycle the gate never blocks, and spikes are the golden neuron's on the inputs left after dropping the refractory calls behind each spike, in any arithmetic the two share |
| SnnNeuron.RefinesIffWindow | firmware/snn_temporal.c:172-192 | That refinement holds for all inputs if and only if the window is at least one cycle or the golden neuron never fires at all |
| SnnNeuron.BankRefinesGolden | sim/golden/snn_golden.py:18-36 | The same for every neuron of the bank under any interleaving, membrane potential included |
| SnnNeuron.BankRefinesModel | sim/golden/snn_golden.py:18-36 | The same against a run of the golden object whose neuron receives what the firmware neuron receives outside its refractory calls |
| SnnNeuron.WindowCounts | firmware/snn_temporal.c:172-192 | With a window of at least one cycle the window register counts the calls outside refractory periods since the last spike, modulo the window |
| SnnNeuron.WindowIs | firmware/snn_temporal.c:172-173 | The window is the number of whole millions in microseconds times MHz modulo 2^32; it is at least one cycle exactly when that product reaches one million |
| SnnNeuron.ZeroWindowSums | firmware/snn_temporal.c:165-192 | With a window of zero cycles the membrane is the leaky sum of all inputs |
| SnnNeuron.ZeroWindowSilent | firmware/snn_temporal.c:173-174 | With a window of zero cycles nothing ever fires |
| SnnNeuron.DefaultWindowIsZero | firmware/snn_temporal.c:128-133 | The default window is zero cycles at any clock below 1000 MHz |
| SnnEncoder.EncodeRf | firmware/snn_temporal.c:67-123 | For any sample count below 0xFFFFFFFF, odd ones included, the loop returns the number of spikes of the pair-wise encoding, writes their sample indices modulo 256 and nothing behind them; null buffers give 0 |
| SnnEncoder.SpikesSpaced | firmware/snn_temporal.c:89-119 | Consecutive spikes are at least the refractory period apart in I/Q pairs, at most the buffer size in number, none without a window |
| SnnEncoder.SpikesIff | firmware/snn_temporal.c:82-119 | While the buffer has room a pair is a spike if and only if it is at least the refractory period behind the last one, is not the last of its window of window + 1 pairs counted from that spike, and brings the leaky sum since window start or refractory end to the threshold |
| SnnEncoder.SpikeCountBounded | firmware/snn_temporal.c:82-119 | n spikes need more than (n - 1) refractory periods of pairs |
| Stdp.ApplyStdpLearning | firmware/snn_temporal.c:237-288 | Every weight in range is updated by the rule from its own times, the others are unchanged, null buffers change nothing |
| Stdp.LearnMovesTowardZero | firmware/snn_temporal.c:249-287 | An update whose magnitude added to 126 does not reach 127 leaves a weight or moves it one step toward zero; potentiation never raises a non-negative weight, depression never lowers one from -127 to 0 |
| Stdp.LearnMovesIff | firmware/snn_temporal.c:249-287 | Under a small update a weight changes exactly when both times are there and it is -128, or the pre time is earlier, it is negative and the rounded potentiated sum is above it, or the pre time is not earlier, it is positive and the rounded depressed sum is below it |
| Stdp.TowardZeroIff | firmware/snn_temporal.c:250-286 | In each sound arithmetic: updates for two times move every weight toward zero if and only if a time is missing or that one sum stays below 127 |
| Stdp.SmallBetween | firmware/snn_temporal.c:268-286 | The sum stays below 127 for updates below one half, and does not for updates of one or more, which then move even weight 0 away |
| Stdp.CloseIsSmall | firmware/snn_temporal.c:255-274 | Times closer than 2^31 always give such a small update |
| Stdp.SmallUpward | firmware/snn_temporal.c:255-274 | The small updates of either order are those from one signed time difference upward |
| Stdp.FarTimesCanSaturate | firmware/snn_temporal.c:257-286 | Under a sound arithmetic whose curve explodes at negative differences, times 2^31 or more apart take weight 0 to 127 or -127 |
| Stdp.TrainingConserves | firmware/snn_temporal.c:249-287 | Over any training run of small updates the initial total magnitude equals what is left plus the number of weight changes |
| JtagTap.Tap.Tck | dft/jtag_tap.v:81-213 | One clock of the registers is one step of the port, bypass register included |
| JtagTap.Tap.Trst | dft/jtag_tap.v:82-153 | Reset puts IDCODE in the shift register, zero in the data registers, and leaves the instruction register |
| JtagTap.ScanIsDelayLine | dft/jtag_tap.v:160-182 | For any order and number of shifts and pauses in a scan column TDO plays the chain followed by the TDI bits, and the chain holds the rest |
| JtagTap.DataScan | dft/jtag_tap.v:170-190 | From CAPTURE_DR to UPDATE_DR TDO is captured bits then TDI bits, and `data_register` receives the last 32 of them |
| JtagTap.InstructionScan | dft/jtag_tap.v:156-168 | From CAPTURE_IR to the update clock the instruction register receives the last 4 bits of old instruction then TDI |
| JtagTap.Routes | dft/jtag_tap.v:90-143 | TMS sequences, with any number of repeated lows, that reach every state of either column from RUN_TEST_IDLE and lead back |
| JtagTap.DataTransaction | dft/jtag_tap.v:156-205 | A whole scan from RUN_TEST_IDLE and back: TDO plays 0x04ECE001 for code 1, the bypass register for code 15, the debug input for code 4, 0xDEADBEEF otherwise, and then the TDI bits; data, debug output and bypass register afterwards |
| JtagTap.InstructionTransaction | dft/jtag_tap.v:156-168 | The same for the instruction column: the next instruction is the last 4 of the old one's bits and the TDI bits |
| JtagTap.TdoBetweenScans | dft/jtag_tap.v:192-200 | Outside capture, shift and update TDO shows the first cell for codes 1 and 4, TDI for 15, and is undriven otherwise |
| JtagTap.TmsHighApproaches | dft/jtag_tap.v:90-143 | Each clock with TMS high reduces the distance to code 0000 by one until it is reached |
| JtagTap.FiveOnesReset | dft/jtag_tap.v:90-168 | Five clocks with TMS high reach 0000 from anywhere, from SHIFT_DR no fewer do, and the next clock copies the instruction shift register |
| FirmwareHex.PadBytes | toolchain/riscof/bin2hex.py:11-12 | Appends zeros to the next multiple of four |
| FirmwareHex.Bin2Hex | toolchain/riscof/bin2hex.py:11-16 | The text has one eight-digit line per little-endian word of the padded bytes |
| FirmwareHex.LoadFirmwareHex | sim/co_sim_harness.py:90-104 | The dictionary, or the first error, of the line-by-line reading of any lines; numbers with signs, prefixes and underscores included |
| FirmwareHex.HexRoundTrip | sim/co_sim_harness.py:98-101 | Parsing printed digits gives the number back |
| FirmwareHex.RoundTrip | toolchain/riscof/bin2hex.py:11-16 | For every byte string and base, the output behind an address line loads to exactly the consecutive word addresses, whose little-endian bytes are the padded input |
| FirmwareHex.SegmentsRoundTrip | sim/co_sim_harness.py:90-104 | For any list of segments, overlapping ones included, each behind its address line: the words loaded are those some segment covers, and each byte is found unless a later segment covers its word |
| FirmwareHex.CommentIgnored | sim/co_sim_harness.py:96-99 | Blank lines and comment lines, indented ones included, change nothing |
| FirmwareHex.OtherLineFails | sim/co_sim_harness.py:99-101 | A line whose first character starts no number, address or comment is an error |
| FirmwareHex.ParseDigitsIff | sim/co_sim_harness.py:98-101 | A digit string parses exactly when underscores stand only one by one between hexadecimal digits, to the number its digits spell |
| FirmwareHex.NumberForms | sim/co_sim_harness.py:98-101 | White space around, a sign and a prefix, with or without underscore, change only the sign of the number |
| FirmwareHex.OutputAloneLoadsIffEmpty | sim/co_sim_harness.py:94-103 | Without an address line the output loads only when it is empty |
| Startup.Start | firmware/crt0.S:20-42 | Both loops on all of memory, comparing addresses as signed numbers, for every layout, reversed and overlapping ones included |
| Startup.CopiedContents | firmware/crt0.S:35-41 | The contents after the word copy for every overlap: with the destination inside the source the copy repeats its beginning |
| Startup.CopyFaithfulIff | firmware/crt0.S:30-42 | `.data` equals the load image if and only if the image is not overwritten before it is read, or repeats itself at the distance of the move |
| Startup.StartupCorrect | firmware/crt0.S:20-42 | For empty and reversed regions too, with the image and `.data` clear of `.bss` and a safe move: `.bss` zero, `.data` the original image, every other word unchanged |
| Startup.StartupAtSymbols | firmware/crt0.S:20-42 | The same read at the addresses of the loader symbols |
| TrapHandler.Hart.Trap | firmware/trap_handler.S:12-125 | The code from entry to `mret` is the composition of save, select, call, advance and restore, whatever the routines do |
| TrapHandler.Hart.SaveContext | firmware/trap_handler.S:15-31 | The stack move and the sixteen stores are the save function |
| TrapHandler.Hart.RestoreContext | firmware/trap_handler.S:106-125 | The sixteen loads, the stack move and the return are the restore function |
| TrapHandler.Hart.SelectCause | firmware/trap_handler.S:33-75 | The comparisons select the routine of the cause, interrupt codes cut to five bits, and change only a0 and t0 |
| TrapHandler.FrameContents | firmware/trap_handler.S:15-31 | The frame holds the saved registers slot by slot and no other word of memory changes |
| TrapHandler.LoadedRegisters | firmware/trap_handler.S:106-121 | Loading gives every saved register its slot and leaves the others |
| TrapHandler.CalledMachine | firmware/trap_handler.S:12-103 | The routine starts with sp 64 lower, the interrupted registers in its caller's frame, and everything but saved registers as interrupted |
| TrapHandler.Dispatch | firmware/trap_handler.S:33-103 | Which routine runs in the middle: external, timer, software for interrupt codes 11, 7, 3, none for others; illegal, ecall, ebreak, load and store misaligned for exceptions 2, 11, 3, 4, 6 and the default for others |
| TrapHandler.DependsOnOwnRoutine | firmware/trap_handler.S:33-103 | The handler depends, for each of these causes, on that routine alone, and for an unknown interrupt on none |
| TrapHandler.RoutineRuns | firmware/trap_handler.S:12-103 | Memory at `mret` is what that routine left when called with the code in a0, the last comparison in t0, its return address in ra, the sixteen registers in the frame in their order and the rest as interrupted |
| TrapHandler.UnknownInterruptIgnored | firmware/trap_handler.S:39-47 | Other interrupt codes leave registers, mepc and all memory but the frame unchanged |
| TrapHandler.RegistersBackIff | firmware/trap_handler.S:12-125 | All 32 registers are back at `mret` if and only if the called routine brought back the callee-saved registers and the sixteen frame words |
| TrapHandler.TrapTransparent | firmware/trap_handler.S:12-125 | If the routine called by this trap does that and leaves mepc, execution continues at mepc, moved by 4 exactly for exceptions 2, 3 and 11, with memory as the routine left it |
| TrapHandler.SlotsDistinct | firmware/trap_handler.S:15-31 | The sixteen slots are distinct for every sp, wrap-around included |
| Interruption.InterruptInvisible | firmware/trap_handler.S:12-125 | An interrupt whose routine keeps the context and mepc and writes only dead memory leaves registers, program counter and live memory as they were |
| Interruption.InterruptsInvisible | firmware/trap_handler.S:12-125 | Any number of such interrupts anywhere in a run leave the program's trace of registers and program counters, and its live memory, as without them; the program is constrained only along its uninterrupted run, the routines only at the calls that happen |

## Left out

- EML arithmetic: `compute_exp`, `compute_ln` are parameters of every theorem; their numerical accuracy is not modelled, nor `o_stage`, `fetch_valid` and the unused registers (`memo_hit_d1`, `stage1_*`, `overflow_flag`, `nan_flag`).
- EML power-up: reset does not clear the memo table, so its being empty at the start is an assumption about the device (`PowerOn`); `ConstantTime` does not need it.
- SSA is asked of the registers that EML instructions write or read; other registers, physical ones among them, may be written anywhere.
- PHI nodes are modelled, those at the head of a block together as one point that copies in parallel; a PHI node reads on the edge it is reached by, so joins and loop-carried values are covered. Critical edges and block numbers are abstracted to program points.
- Machine-code hashing (`DAGNodeHash`, `hash_value`), `estimateCost` and the second loop `rebuildDAGWithCSE`: no effect on the code.
- CsePass.XcewOptPass.RunOnMachineFunction: models `std::unordered_map` and `DenseMap` as finite maps; operand kinds other than registers and immediates are opaque symbols. Opcode numbers are uninterpreted.
- The boot code around `_crc32_check` is not part of this model.
- `eml_perform_optimization`: the placeholder returns true; the counters it sets, which nothing reads, are left out.
- `eml_recompile_hot_paths`, `eml_aggressive_optimization`: placeholders.
- SNN floating point: the neurons and the encoder use uninterpreted operations, so their theorems hold for any rounding the firmware and the golden model share; that numpy and the C compiler round alike is not claimed. The square root is an arbitrary function, and the learning rule assumes of rounding what `Stdp.Sound` lists.
- SnnEncoder.EncodeRf: its window in cycles is a parameter, computed as in `SnnNeuron.Window`; the buffer must hold the sample behind an odd last one, which the loop reads. At sample count 0xFFFFFFFF the 32-bit index wraps and the loop ends only by filling the output; that count is excluded.
- The configuration is fixed during a run; CSR field writes, `snn_encode_ttfs_continuous`, statistics constants and the classifier are not modelled. The per-call neuron and the batch encoder count their refractory periods differently and are not equated.
- JTAG debug outputs, the instruction capture and update outputs, `instruction_reg`, and `jtag_instruction_decoder`; no conformance to IEEE 1149.1 is claimed.
- FirmwareHex.LoadFirmwareHex: decimal digits outside ASCII, which Python's `int(s, 16)` accepts, are treated as unparsable; file encoding and newline translation are left out.
- Startup.Start: unaligned regions and a load image that crosses 0x80000000, where its pointer leaves the signed order; stack, gp and mtvec set-up are left out.
- TrapHandler.Hart.Trap: memory cells are words at their addresses, for a word-aligned stack pointer; the weak default handlers spin forever and are no routine of the model. Nested traps and mstatus are not modelled.
- The RTL other than the EML unit (memory controller with SECDED, interconnect, debug module, clock-domain crossings, RV32 core), `dft/bist_wrapper.v`, the SDK wrappers and the flow scripts are not modelled.
