# Verified models of the SoC's core logic and its Python tooling

This Dafny project models the parts of the repository with the most intricate behaviour and proves
what they are for. Every clocked module is a class whose registers are its fields and whose tick
method, written with the assignments and cases of the source, is proved equal to a next-state function; the theorems are about that function, over every run
and every input the environment may give. Combinational circuits and value computations are functions,
Python code that changes lists in place is methods over arrays, sequences and maps.

`dafny verify dfyconfig.toml` checks the whole project.

| file | what it models |
|---|---|
| `Arith.dfy`, `Bits.dfy`, `Wrappers.dfy` | products and quotients; bit vectors, their values, reversal and shifts; optional values |
| `LeadingOne.dfy`, `BitCount.dfy` | the leading-one tree `alu_ff`, the population count `alu_popcnt`, and the bit-counting results of `riscv_alu` |
| `Divider.dfy` | the serial divider `riscv_alu_div` |
| `Division.dfy`, `DivisionRuns.dfy` | the normalisation of the divisor in `riscv_alu`, the pair against the RISC-V M extension, and sequences of requests to it |
| `LaneAdder.dfy`, `LaneCompare.dfy`, `LaneShift.dfy` | the partitioned adder, comparators and shifter of `riscv_alu` |
| `FetchFifo.dfy`, `FetchStream.dfy`, `FetchBytes.dfy` | the instruction realigner `riscv_fetch_fifo`, the parser it refines, and the same in byte addresses |
| `Ucode.dfy`, `UcodeRegisters.dfy`, `UcodeBytecode.dfy` | the microcode loop engine, executor and packer of `ucode_common.py` |
| `Sram.dfy`, `SramControls.dfy` | the taint-tracking memory `ift_sram`, and what its flags cover when the controls are tainted |
| `Controller.dfy`, `ControllerPaths.dfy` | the core controller, and the ways through its state machine |
| `DebugUnit.dfy`, `HaltHandshake.dfy`, `DebugSession.dfy` | the debug unit, the controller and it on one clock, and what a debugger sees of the two |
| `OrderedDict.dfy` | the linked-list dictionary of `ordereddict.py` |
| `GenericFifo.dfy` | `generic_fifo` and `generic_fifo_adv` |
| `EdgePropagator.dfy` | `edge_propagator` with its `pulp_sync_wedge` |
| `ClockDivider.dfy` | `clock_divider_counter` |
| `Conflicts.dfy`, `ConflictTable.dfy` | `flattenize_children` and `get_conflicts` of `IPTreeNode.py`, and what its table means |

## Where the code does not do what it is for

Each of these is stated as an exact condition for all inputs, beside the theorem that holds.

- The result port of the divider reverses the quotient register with an index that is one too high
  (`riscv_alu_div.sv:90`). As written it yields the quotient shifted left by one, with a bit read out
  of range at the bottom (`AsWrittenIsShifted`), so a quotient comes out right only if it is 0 or all ones
  and that bit happens to agree (`AsWrittenCorrectExactly`). With the index the shift direction at line 183
  asks for, the pair computes section 7.2 of the RISC-V Unprivileged ISA (`DividesAsSpecified`).
- The stored-only valid flag of the realigner looks at a word register that may be stale
  (`riscv_fetch_fifo.sv:118-125`); `StoredFlagExactly` says when it is wrong, and
  `StoredFlagWrongAfterReset` that this happens in the first cycle after reset.
- The flag that taints the whole memory combines byte enables with the address taint
  (`ift_sram.sv:57`), so it only sees the address bits whose numbers are those of enabled bytes
  (`TaintedWriteExactly`, and `CoveredExactly` with the controls tainted too); and the address taint of
  a read protects only the next cycle (`ift_sram.sv:68`, `StaleReadExactly`).
- The EMPTY-state push of the FIFOs relies on the pointer width (`generic_fifo.sv:124`), so they are
  queues exactly for depths that are powers of two (`RefinesExactlyPowersOfTwo`).
- The comment on `out_valid_stored_o` says that it must not depend on signals from outside
  (`riscv_fetch_fifo.sv:113`); `StoredFlagDependsExactly` says when it does: nothing is buffered and the
  stale first register looks like a compressed instruction.

## Reading the model

- A bit vector is a sequence of Booleans with index 0 the least significant; its unsigned value is `Val`.
  Words are unsigned numbers below 2^32, and every wrap-around is written out.
- `Run`, `Emitted`, `Trace` and the like fold a next-state function over a sequence of inputs of any length.
- Signals the modelled block does not compute (pipeline state, bus accesses, timing) are inputs, and the
  theorems hold for every value of them that meets the stated contract.
- A fetched word is a pair of 16-bit halves, and a fetch address its word index with bits 1 and 0, as the RTL slices them.

## Model

| member | source | states |
|---|---|---|
| LeadingOne.TreeNodeCovers | ips/riscv/riscv_alu.sv:1071-1106 | every node of the selection tree, at every level and for every length >= 2, selects the least set index among its leaves, and is off exactly if none is set |
| LeadingOne.FirstOneIsLeast | ips/riscv/riscv_alu.sv:1042-1115 | for every length >= 2, powers of two or not, `first_one_o` is the least set index when there is one and `no_ones_o` is raised exactly for the zero vector |
| LeadingOne.PairSumsKeepSum | ips/riscv/riscv_alu.sv:1129-1152 | one level of the adder tree keeps the total as long as its sums fit its width |
| LeadingOne.PopcntCountsOnes | ips/riscv/riscv_alu.sv:1118-1156 | the five-level adder tree counts the ones, and is zero exactly for the zero word |
| BitCount.FirstAndLastOne | ips/riscv/riscv_alu.sv:807-846 | FF1 and FL1 are the indices of the lowest and of the highest one, 32 for zero |
| BitCount.CountsOnes | ips/riscv/riscv_alu.sv:801-847 | CNT is the number of ones |
| BitCount.ClbIsGreatestShift | ips/riscv/riscv_alu.sv:818-857 | CLB is the greatest number of places by which the signed operand can be shifted left within 32 bits, for every operand but zero, which gives 0 |
| Divider.RiscvAluDiv.constructor | ips/riscv/riscv_alu_div.sv:185-194 | reset enters IDLE with every register zero |
| Divider.RiscvAluDiv.Tick | ips/riscv/riscv_alu_div.sv:81-205 | one clock cycle of the registers is the next-state function; the handshake output is that of the cycle |
| Divider.RiscvAluDiv.Load | ips/riscv/riscv_alu_div.sv:132-142 | the loading cycle: operands with the sign-dependent negation, counter and flags |
| Divider.RiscvAluDiv.Subtract | ips/riscv/riscv_alu_div.sv:144-155 | a DIVIDE cycle: compare, conditionally subtract, halve the divisor, push the quotient bit |
| Divider.CompComparesMagnitudes | ips/riscv/riscv_alu_div.sv:98-102 | the one unsigned comparator, inverted for negative divisors, compares the magnitudes of same-sign operands, and the subtraction then stays within that sign |
| Divider.DivideCycle | ips/riscv/riscv_alu_div.sv:98-155 | a DIVIDE cycle moves the loop invariant n = q * 2cur + r, r < 2cur down by one quotient bit |
| Divider.DivideRun | ips/riscv/riscv_alu_div.sv:108-155 | from any state satisfying the invariant, the remaining cycles end in FINISH with n = q*d + r and r < d |
| Divider.StaysInDivide | ips/riscv/riscv_alu_div.sv:144-155 | whatever the inputs, the machine stays in DIVIDE for exactly counter + 1 cycles |
| Divider.LoadEstablishesInvariant | ips/riscv/riscv_alu_div.sv:81-142 | loading normalised operands establishes the loop invariant with the flags of the request |
| Divider.DivideAll | ips/riscv/riscv_alu_div.sv:81-205 | from IDLE, a request with normalised ports reaches FINISH with quotient and remainder of the magnitudes, after shift + 2 cycles |
| Divider.ZeroDivisorRun | ips/riscv/riscv_alu_div.sv:98-155 | with a zero divisor every comparison succeeds: the quotient register fills with ones from the top and the dividend stays |
| Divider.DivideAllByZero | ips/riscv/riscv_alu_div.sv:98-178 | division by zero ends with an all-ones quotient and the dividend as remainder, uninverted quotient |
| Divider.AsWrittenIsShifted | ips/riscv/riscv_alu_div.sv:89-92 | the reversal as written is the quotient shifted left by one, its bottom bit being the one read out of range |
| Divider.AsWrittenCorrectIff | ips/riscv/riscv_alu_div.sv:89-92 | it equals the quotient exactly if the quotient is 0, or all ones, to match that bit |
| Division.TopBitOf | ips/riscv/riscv_alu.sv:807-834 | the reversed word through the leading-one tree gives the top bit of the word |
| Division.NormaliseNonNegative | ips/riscv/riscv_alu.sv:807-926 | the shift of a nonnegative nonzero divisor brings its top bit to bit 31 |
| Division.NormaliseNegative | ips/riscv/riscv_alu.sv:807-926 | the shift of a negative divisor brings its magnitude into (2^30, 2^31] |
| Division.NormaliseZero | ips/riscv/riscv_alu.sv:807-926 | the shift of a zero divisor is 32, and the shifter, which sees its low five bits, leaves it zero |
| Division.Normalised | ips/riscv/riscv_alu.sv:807-926 | for every nonzero divisor and every dividend, the shifted magnitude lies in the range of its sign and twice it exceeds the dividend's magnitude |
| Division.DivisorPort | ips/riscv/riscv_alu.sv:208-297 | the shifter delivers that magnitude in the divisor's own sign |
| Division.DriveIsNormalised | ips/riscv/riscv_alu.sv:801-953 | every pair of operands drives the divider with ports that meet its contract; the population count is the zero test |
| Division.ResultFromMagnitudes | ips/riscv/riscv_alu_div.sv:92-178 | the recorded flags turn quotient and remainder of the magnitudes into the signed result of section 7.2 |
| Division.DividesAsSpecified | ips/riscv/riscv_alu_div.sv:81-205 | for DIV, DIVU, REM, REMU and all operands, from IDLE the pair offers the result of section 7.2 of the RISC-V Unprivileged ISA |
| Division.SignedResultsSplit | ips/riscv/riscv_alu_div.sv:81-205 | the delivered signed quotient and remainder are the only numbers with dividend = q * divisor + r, remainder smaller than the divisor and of the dividend's sign; all ones and the dividend for a zero divisor; itself and 0 for the most negative number by -1 |
| Division.UnsignedResultsSplit | ips/riscv/riscv_alu_div.sv:81-205 | the same for unsigned division |
| Division.BusyUntilDone | ips/riscv/riscv_alu_div.sv:108-163 | it offers no result in any of the first shift + 2 cycles, and one after exactly those |
| Division.ResultHeld | ips/riscv/riscv_alu_div.sv:157-163 | an offered result does not change until it is taken |
| DivisionRuns.EveryRequestAnswered | ips/riscv/riscv_alu_div.sv:81-205 | for every sequence of requests, with any idle cycles before each and however long each result waits: the results taken are those of section 7.2 for their own operands, in order; the output is invalid exactly for the shift + 2 cycles of each; the unit is idle again behind each |
| Division.AsWrittenCorrectExactly | ips/riscv/riscv_alu_div.sv:89-95 | with the reversal as written, the result is right exactly for remainders, and for quotients 0 or all ones that match the bit read out of range, told from the operands |
| Division.AsWrittenIsWrong | ips/riscv/riscv_alu_div.sv:89-95 | two divided by one comes out wrong whatever that bit is |
| LaneAdder.AdditionRipples | ips/riscv/riscv_alu.sv:114-168 | the one wide addition with guard bits is the byte-wise addition in which the guards decide what carries pass |
| LaneAdder.OpenRippleAdds | ips/riscv/riscv_alu.sv:117-133 | inside a lane of any number of bytes the carries make it one addition |
| LaneAdder.LaneAddition | ips/riscv/riscv_alu.sv:114-172 | in every vector mode each lane of the result is the sum of the lanes, plus one with an injected carry, modulo its width |
| LaneAdder.LaneSubtraction | ips/riscv/riscv_alu.sv:105-151 | with the complement of b each lane of the result is the difference of the lanes modulo its width |
| LaneCompare.NumberIsTwosComplement | ips/riscv/riscv_alu.sv:324-346 | the value of a lane is two's complement or unsigned |
| LaneCompare.LaneOrder | ips/riscv/riscv_alu.sv:350-390 | the combined byte flags are the signed or unsigned order and the equality of the lanes, in every mode |
| LaneCompare.LaneComparison | ips/riscv/riscv_alu.sv:324-413 | every integer comparison of every mode compares the lane values, in the flag of each of its bytes |
| LaneShift.LaneShiftLeft | ips/riscv/riscv_alu.sv:210-297 | reverse, shift right by reordered amounts, reverse: each lane is multiplied by two to its own amount, modulo its width |
| LaneShift.LaneShiftRight | ips/riscv/riscv_alu.sv:262-286 | each lane is divided by two to its own amount, rounding down, signed for an arithmetic shift |
| LaneShift.ScalarShiftLeft | ips/riscv/riscv_alu.sv:208-297 | the scalar left shift is the one the normalisation of a divisor uses |
| LaneShift.LanesAgree | ips/riscv/riscv_alu.sv:117-286 | the lanes that the adder and the comparators see as bytes have the values, unsigned and signed, of those the shifter sees as bits |
| FetchFifo.RiscvFetchFifo.constructor | ips/riscv/riscv_fetch_fifo.sv:241-249 | reset empties the queue |
| FetchFifo.RiscvFetchFifo.Output | ips/riscv/riscv_fetch_fifo.sv:72-126 | all outputs of the aligner as functions of the queue and the incoming word |
| FetchFifo.RiscvFetchFifo.Append | ips/riscv/riscv_fetch_fifo.sv:150-159 | the search for the first free entry appends to the queue, and drops the word if it is full |
| FetchFifo.RiscvFetchFifo.Replace | ips/riscv/riscv_fetch_fifo.sv:161-174 | a replacement keeps the prealigned current instruction and drops every other word |
| FetchFifo.RiscvFetchFifo.Shift | ips/riscv/riscv_fetch_fifo.sv:195-216 | moving the entries down drops the head of the queue |
| FetchFifo.RiscvFetchFifo.Push | ips/riscv/riscv_fetch_fifo.sv:143-180 | the input port's effect on the queue |
| FetchFifo.RiscvFetchFifo.Pop | ips/riscv/riscv_fetch_fifo.sv:185-235 | the effect of an accepted instruction on the queue |
| FetchFifo.RiscvFetchFifo.Tick | ips/riscv/riscv_fetch_fifo.sv:72-264 | one clock cycle of the registers is the next state of the queue, with the outputs of the cycle |
| FetchStream.AcceptIsRead | ips/riscv/riscv_fetch_fifo.sv:72-111 | an accepted instruction is the one the parser is at, in any state of the queue |
| FetchStream.CycleKeepsInv | ips/riscv/riscv_fetch_fifo.sv:143-264 | every cycle keeps the queue in step with memory and parser |
| FetchStream.StreamIsParse | ips/riscv/riscv_fetch_fifo.sv:72-264 | for every memory, even start address and timing of words and consumer, the accepted instructions are the sequential parse, redirects included; a clear at the end leads back to the start of such a run |
| FetchStream.PlainStreamIsParse | ips/riscv/riscv_fetch_fifo.sv:72-235 | without redirects: the parse of section 1.5 of the RISC-V Unprivileged ISA from the start, nothing lost, duplicated or torn |
| FetchStream.RedirectedStream | ips/riscv/riscv_fetch_fifo.sv:90-235 | around a redirect the accepted instructions are the parse from the start up to and including the current instruction, then the parse from the loop target; older queued words are dropped, whether the pop comes in that cycle or later |
| FetchBytes.AddressesInBytes | ips/riscv/riscv_fetch_fifo.sv:182-219 | the address arithmetic on bit slices in bytes: the next word is four bytes on, modulo 2^32 |
| FetchBytes.PlainStreamInBytes | ips/riscv/riscv_fetch_fifo.sv:72-235 | the accepted instructions are those of a parser on byte addresses that reads two or four bytes by the low two bits and goes on by as many, modulo 2^32 |
| FetchBytes.RedirectedStreamInBytes | ips/riscv/riscv_fetch_fifo.sv:90-235 | the same around a redirect, the second part from the byte address of the loop target |
| FetchBytes.AddressIsSumOfLengths | ips/riscv/riscv_fetch_fifo.sv:182-219 | the address of the k-th accepted instruction is the start plus the lengths of the first k, modulo 2^32 |
| FetchStream.LoopFlagsMarkTargets | ips/riscv/riscv_fetch_fifo.sv:111-196 | in every run, exactly the first instruction behind each redirect is marked as coming from a loop |
| FetchStream.RedirectTearsExactly | ips/riscv/riscv_fetch_fifo.sv:95-174 | a redirect while only half of the current instruction is buffered: the next instruction accepted, whenever that is, has its address, and its contents exactly if the target's word begins with the missing half |
| FetchStream.OfferedWhenThere | ips/riscv/riscv_fetch_fifo.sv:72-108 | an instruction is offered exactly if all its bytes are buffered or arriving |
| FetchStream.LengthFlagTells | ips/riscv/riscv_fetch_fifo.sv:87-105 | for an unaligned instruction the flag is raised exactly if it is compressed |
| FetchStream.CapacityKept | ips/riscv/riscv_fetch_fifo.sv:150-159 | in every run, whatever is pushed, four registers are enough |
| FetchStream.ReadyConsumerDrains | ips/riscv/riscv_fetch_fifo.sv:72-235 | in every run, a ready consumer takes an instruction in each cycle, whatever arrives meanwhile, until all those have been taken whose words had arrived; these are at most two for each buffered word |
| FetchStream.ReadyMeansRoom | ips/riscv/riscv_fetch_fifo.sv:133-136 | the ready flag leaves room for a word after the one now arriving |
| FetchStream.StoredFlagExactly | ips/riscv/riscv_fetch_fifo.sv:113-126 | when the stored-only valid flag agrees with validity without input, both directions |
| FetchStream.StoredFlagDependsExactly | ips/riscv/riscv_fetch_fifo.sv:110-126 | the stored-only valid flag is free of signals from outside exactly unless nothing is buffered and the stale first register looks like a compressed instruction |
| FetchStream.StoredFlagWrongAfterReset | ips/riscv/riscv_fetch_fifo.sv:113-249 | it does not in the first cycle after reset with an unaligned address |
| Ucode.UcodeStateMachine | ips/hwpe-mac-engine/ucode/ucode_common.py:38-98 | the step as written, and that except at the end the returned index list is the given one, changed in place |
| Ucode.BusyUntilNextTuple | ips/hwpe-mac-engine/ucode/ucode_common.py:38-98 | the busy flag falls exactly when the machine has come to the next tuple or to the end |
| Ucode.BlockRun | ips/hwpe-mac-engine/ucode/ucode_common.py:48-75 | an iteration of a loop executes its whole block in order and restarts the loops inside it |
| Ucode.NestRun | ips/hwpe-mac-engine/ucode/ucode_common.py:38-98 | the inner loops run from all zeros to all maxima, doing what nested loops do |
| Ucode.MachineRunsNest | ips/hwpe-mac-engine/ucode/ucode_common.py:38-98 | from the zero state the machine ends, having visited the tuples and executed the blocks of the plain nested for loops, in order, back in the zero state |
| UcodeRegisters.VisitsEveryTupleInOrder | ips/hwpe-mac-engine/ucode/ucode_common.py:38-98 | the n-th visited tuple is the mixed-radix representation of n, loop 0 fastest, and every tuple in range is visited exactly once |
| UcodeRegisters.TotalOps | ips/hwpe-mac-engine/ucode/ucode_common.py:38-98 | the executed operations number the sum of nb_ops * (range - 1) * product of the ranges above |
| UcodeRegisters.RegistersInClosedForm | ips/hwpe-mac-engine/ucode/ucode_common.py:100-107 | for add-only code with constant sources, at linear step n each register is its start plus, per loop, stride * (n / P_j - n / P_(j+1)) |
| UcodeRegisters.RegistersBetweenMoves | ips/hwpe-mac-engine/ucode/ucode_common.py:100-107 | for code that adds and moves constant sources: a step that iterates a loop whose block moves to a register leaves there the source of the last move and what is added behind it; between such steps the register grows as in the closed form |
| UcodeRegisters.MachineComputesClosedForm | ips/hwpe-mac-engine/ucode/ucode_common.py:38-107 | the same for what the machine itself executes until it ends |
| UcodeRegisters.MachineComputesMoves | ips/hwpe-mac-engine/ucode/ucode_common.py:38-107 | the same with moves |
| UcodeRegisters.OnlyTargetsChange | ips/hwpe-mac-engine/ucode/ucode_common.py:100-107 | over any ops and any code, a register that no op writes keeps its value |
| UcodeBytecode.UcodeLoad | ips/hwpe-mac-engine/ucode/ucode_common.py:146-150 | the flattened code and the block lengths |
| UcodeBytecode.BlockInPlace | ips/hwpe-mac-engine/ucode/ucode_common.py:146-179 | the block of each loop lies where the lengths of the blocks before it end |
| UcodeBytecode.UcodeGetLoops | ips/hwpe-mac-engine/ucode/ucode_common.py:169-179 | each loop gets the prefix sum of the lengths as its address; the shorter list decides |
| UcodeBytecode.LoopsInMemory | ips/hwpe-mac-engine/ucode/ucode_common.py:140-179 | loops made for flattened blocks lie inside the code, which is what the closed form needs |
| UcodeBytecode.PackCode | ips/hwpe-mac-engine/ucode/ucode_common.py:114-126 | the code word holds the ops in order from its low end, and packing fails exactly if an operand does not fit |
| UcodeBytecode.PackLoops | ips/hwpe-mac-engine/ucode/ucode_common.py:127-137 | the loop word likewise |
| UcodeBytecode.UcodeBytecode | ips/hwpe-mac-engine/ucode/ucode_common.py:112-138 | both words, or the error, exactly if some field does not fit |
| UcodeBytecode.BytecodeRoundTrip | ips/hwpe-mac-engine/ucode/ucode_common.py:112-179 | op i is recovered from bits 11i to 11i+10, loop j from byte j, with the address `ucode_get_loops` gives it |
| UcodeBytecode.CodeWordWidth | ips/hwpe-mac-engine/ucode/ucode_common.py:125-126 | the ops take 11 bits each, and fit 176 bits exactly up to sixteen |
| UcodeBytecode.WordLengths | ips/hwpe-mac-engine/ucode/ucode_common.py:112-138 | the code word has 176 bits, or 11 for each op beyond sixteen ops; the loop word has 8 for each loop |
| Sram.IftSram.WriteBits | cellift/src/ift_sram.sv:140-142 | the bit-by-bit write replaces exactly the bits of enabled bytes of one word |
| Sram.IftSram.Tick | cellift/src/ift_sram.sv:54-203 | one clock cycle of both memories, the read registers and the two flags |
| Sram.ReadsLastWrite | cellift/src/ift_sram.sv:135-203 | in every run from every contents, each bit a read delivers is that of the last write to its address that enabled it, or the initial one; the same for its taint |
| Sram.OutputHeld | cellift/src/ift_sram.sv:135-203 | the delivered word and its stored taint stay until the next read |
| Sram.StepKeepsRelated | cellift/src/ift_sram.sv:54-203 | a cycle keeps two runs in agreement on everything untainted |
| Sram.ReadAgrees | cellift/src/ift_sram.sv:66-203 | what a read delivers agrees wherever the taint output is 0 |
| Sram.NonInterference | cellift/src/ift_sram.sv:54-203 | after every pair of runs from reset, the words delivered in the cycle after a read agree on every bit with taint output 0 |
| Sram.UntaintedReadStays | cellift/src/ift_sram.sv:54-202 | after every pair of runs from reset, a read at an untainted address and any later writes and idle cycles, even writes that line 57 does not see, the words agree on every bit with taint output 0 |
| Sram.StaleReadExactly | cellift/src/ift_sram.sv:66-78 | one idle cycle later a read is still protected exactly if its address was untainted |
| Sram.TaintedWriteExactly | cellift/src/ift_sram.sv:53-64 | a write is handled safely exactly if its address is untainted, or it writes nothing, or an enabled byte has the number of a tainted address bit |
| SramControls.ControlNonInterference | cellift/src/ift_sram.sv:54-203 | non-interference with request, write and byte enables tainted too, for runs whose cycles are covered, and whichever ports of the read are tainted |
| SramControls.CoveredExactly | cellift/src/ift_sram.sv:53-64 | a cycle with any ports tainted is safe exactly if no write can differ in it, or an enabled or enable-tainted byte has the number of a tainted address bit; every other cycle has a second run that a later read tells apart |
| Controller.RiscvController.constructor | ips/riscv/riscv_controller.sv:802-809 | reset |
| Controller.RiscvController.Tick | ips/riscv/riscv_controller.sv:203-817 | one clock cycle: the next state of the machine, its cases written as in the source, and all outputs of that block |
| Controller.RiscvController.DecodeInstr | ips/riscv/riscv_controller.sv:375-432 | the decode block: jumps, flushes, status writes and events with their halts, and a debug request that overrides them |
| Controller.RiscvController.FlushWbState | ips/riscv/riscv_controller.sv:625-696 | the last flush cycle: exceptions before returns before breakpoints, with causes and handlers, and sleep or debug behind it |
| Controller.TrapsAreConsistent | ips/riscv/riscv_controller.sv:252-704 | trap state is saved exactly when the PC moves to the handler, from one stage only, and restored exactly when the PC returns; an interrupt is acknowledged only with its save; saved cause and handler are those of an interrupt exactly for an interrupt |
| Controller.HandlerOfCause | ips/riscv/riscv_controller.sv:571-650 | handler and saved cause agree for every trap: illegal instruction, ecall of either level, and interrupt |
| Controller.JumpMovesPcOnce | ips/riscv/riscv_controller.sv:384-395 | however long a jump waits in decode, it moves the PC once, as soon as its target register is not stalled |
| ControllerPaths.BootsOnce | ips/riscv/riscv_controller.sv:254-276 | in every run from reset the PC is moved to the boot address once, and nothing is decoded or trapped before |
| ControllerPaths.FetchEnableBoots | ips/riscv/riscv_controller.sv:254-276 | it boots exactly after fetching is enabled, and then begins to fetch |
| ControllerPaths.FirstFetchWaits | ips/riscv/riscv_controller.sv:313-331 | the first fetch lasts exactly until decode is ready and the core is not held by the debugger |
| ControllerPaths.SourceOfMove | ips/riscv/riscv_controller.sv:252-704 | whenever the PC moves, its source tells why: boot, jump, taken branch, debugger, trap or return |
| ControllerPaths.FlushPath | ips/riscv/riscv_controller.sv:396-696 | a flush, however long the execute stage stalls: both stages are held, the PC moves in its last cycle only, and there to the handler of the flushed instruction with its cause and saved PC, or back by mret or uret, or not at all; behind it decoding, sleep or the debugger |
| ControllerPaths.TakenExactly | ips/riscv/riscv_controller.sv:313-545 | an interrupt is taken from the flush of the decode stage or from the first fetch, exactly if it is enabled then |
| ControllerPaths.DecodeInterrupt | ips/riscv/riscv_controller.sv:364-595 | an interrupt in decode halts both stages and, if it is still there, saves the PC of decode with its own cause and moves the PC to the vector of its level; otherwise decoding goes on |
| ControllerPaths.FetchInterrupt | ips/riscv/riscv_controller.sv:313-620 | one in the first fetch saves the PC of fetch, in the next cycle |
| ControllerPaths.MaskedWaits | ips/riscv/riscv_controller.sv:313-620 | in every run in which interrupts are masked at the privilege level of the core, none is taken |
| ControllerPaths.TakenOrDropped | ips/riscv/riscv_controller.sv:360-380 | a request during decoding is either taken or killed, killed exactly if masked |
| ControllerPaths.KeptOutExactly | ips/riscv/riscv_controller.sv:333-440 | with a ready decode stage, instructions are kept out exactly if the machine leaves decoding |
| ControllerPaths.HeldExactly | ips/riscv/riscv_controller.sv:333-440 | the instruction in decode is held exactly if it is flushed or interrupted |
| ControllerPaths.HeldMeansKeptOut | ips/riscv/riscv_controller.sv:252-704 | in every state, an instruction is held only if others are kept out |
| ControllerPaths.BranchSquashes | ips/riscv/riscv_controller.sv:336-358 | a taken branch moves the PC, and what decode shows then has no effect |
| ControllerPaths.StepTrapsExactly | ips/riscv/riscv_controller.sv:289-440 | outside the end of a flush the debug trap is raised only for stepping: in sleep, on a taken branch, and on every decoded instruction that is not flushed |
| ControllerPaths.EventLoadPath | ips/riscv/riscv_controller.sv:415-569 | an event load waits with both stages held, and then lets an interrupt in before the next instruction |
| ControllerPaths.EventLoadResumed | ips/riscv/riscv_controller.sv:476-569 | after a halt during an event load it waits again, unless the debugger moved the PC |
| ControllerPaths.SleepIsQuiet | ips/riscv/riscv_controller.sv:278-311 | the core is idle exactly while asleep; it then fetches and decodes nothing |
| ControllerPaths.SleepsUntilWoken | ips/riscv/riscv_controller.sv:289-311 | it sleeps for any number of cycles, until a pending interrupt, masked or not, or the debugger wakes it |
| DebugUnit.RiscvDebugUnit.constructor | ips/riscv/riscv_debug_unit.sv:420-425 | reset |
| DebugUnit.RiscvDebugUnit.Decode | ips/riscv/riscv_debug_unit.sv:121-282 | the decoding of an access: grants, halt and resume, jump request, settings, step-hit clear, and the accesses to CSRs and general registers |
| DebugUnit.RiscvDebugUnit.TickStall | ips/riscv/riscv_debug_unit.sv:367-431 | the stall machine with its outputs, cause and step hit; a resume withdraws a request even as it is acknowledged |
| DebugUnit.RiscvDebugUnit.Tick | ips/riscv/riscv_debug_unit.sv:121-527 | one clock cycle of access decoding, stall machine, settings and latched requests |
| HaltHandshake.ReachableInv | ips/riscv/riscv_controller.sv:252-704 | in every reachable state of the pair a halted core waits, and a pending debug jump was granted the cycle before |
| HaltHandshake.HaltIsSafe | ips/riscv/riscv_controller.sv:457-518 | in every run, while halted the controller is in a waiting state, lets no instruction in, does not decode, acknowledge interrupts, save or restore trap state, and moves the PC exactly for a debug jump |
| HaltHandshake.HaltedExactly | ips/riscv/riscv_debug_unit.sv:376-414 | in every run, the core is halted next exactly if it is not resumed and either is halted or acknowledges a pending request; a waiting controller leaves exactly if the debug unit is not holding it in HALT |
| HaltHandshake.CauseOfTheHalt | ips/riscv/riscv_debug_unit.sv:376-429 | the reported cause is that of the request that began the halt, the controller's for a trap, and no later trap or request changes it |
| HaltHandshake.BreakpointHalts | ips/riscv/riscv_controller.sv:671-694 | a breakpoint with its setting on halts the core in two cycles and is the reported cause |
| HaltHandshake.AccessesNeedHalt | ips/riscv/riscv_debug_unit.sv:148-280 | in every run, accesses to CSRs and general registers begin only while the core is halted |
| HaltHandshake.DebugJumpOnce | ips/riscv/riscv_debug_unit.sv:200-524 | writing the next PC makes the halted core jump in the next cycle and once only, exactly if it is not resumed in the cycle of the write |
| HaltHandshake.RequestIsHonoured | ips/riscv/riscv_controller.sv:252-704 | from every state of the controller, a request that is not withdrawn halts the core after at most nine cycles with a ready pipeline, plus three for each interrupt taken in the decode stage, where it outranks the request |
| HaltHandshake.InterruptsDelay | ips/riscv/riscv_controller.sv:364-620 | those three are needed: for every n, n interrupts can keep a request waiting through 3n ready cycles |
| HaltHandshake.SingleStep | ips/riscv/riscv_controller.sv:375-463 | with the step setting on, an instruction that leaves decode without a flush is the last one: the core is halted two cycles later, three after a conditional branch |
| HaltHandshake.StepOverFlush | ips/riscv/riscv_controller.sv:396-696 | so is one that flushes the pipeline or writes a status register, however long the execute stage stalls |
| DebugSession.SettingsAsWritten | ips/riscv/riscv_debug_unit.sv:179-195 | in every run the settings are the bits last written to DBG_CTRL and DBG_IE |
| DebugSession.TrapHaltsExactly | ips/riscv/riscv_controller.sv:625-682 | in every run, the end of a flush halts the core exactly if stepping was last switched on, or the bit last written for its ecall, illegal instruction or breakpoint is one |
| DebugSession.StepHitOfTheHalt | ips/riscv/riscv_debug_unit.sv:374-431 | the step hit tells from the request on whether a trap with stepping on began the halt, until it is cleared |
| DebugSession.EveryGrantAnswered | ips/riscv/riscv_debug_unit.sv:353-362 | in every run, granted accesses and answers balance up to the one granted last |
| DebugSession.CsrWriteTakesTwo | ips/riscv/riscv_debug_unit.sv:146-166 | a held access is granted at once, a CSR write in its second cycle, which is the one that writes |
| DebugSession.RegisterAccess | ips/riscv/riscv_debug_unit.sv:204-262 | general registers are written and read through their two pages, exactly while the core is halted; CSR accesses touch no debug register |
| DebugSession.NoRequestNoAccess | ips/riscv/riscv_debug_unit.sv:121-282 | without a request an access has no effect, and what one has begun lasts a cycle |
| DebugSession.StallExactly | ips/riscv/riscv_debug_unit.sv:146-414 | in terms of the written address and data: when a running core is asked to halt, when a request is withdrawn or honoured, and when a halted core runs again |
| DebugSession.HaltAndResume | ips/riscv/riscv_debug_unit.sv:146-414 | a running core on which HALT is set is halted within the bound, stays halted whatever the debugger does until it clears HALT or raises the resume line, and then runs again from the next cycle |
| DebugSession.DebuggerMovesPcExactly | ips/riscv/riscv_debug_unit.sv:197-524 | in every run from reset the debugger moves the PC exactly in the cycle after DNPC was written to a halted core that was not let go |
| OrderedDict.OrderedDict.constructor | ipstools/ipstools/ordereddict.py:27-40 | an empty dictionary around its sentinel |
| OrderedDict.OrderedDict.Clear | ipstools/ipstools/ordereddict.py:36-40 | the dictionary becomes empty, with a fresh sentinel |
| OrderedDict.OrderedDict.Link | ipstools/ipstools/ordereddict.py:44-46 | a new cell is linked in before the sentinel, the list staying doubly linked |
| OrderedDict.OrderedDict.SetItem | ipstools/ipstools/ordereddict.py:42-47 | a new key goes last, an existing one keeps its place; the heap invariant holds |
| OrderedDict.OrderedDict.Unlink | ipstools/ipstools/ordereddict.py:51-53 | a cell is taken out, its neighbours linked in both directions |
| OrderedDict.OrderedDict.DelItem | ipstools/ipstools/ordereddict.py:49-53 | a present key disappears, the others keep their order; a missing one is an error and changes nothing |
| OrderedDict.OrderedDict.Iter | ipstools/ipstools/ordereddict.py:55-60 | walking the next pointers yields the keys in order, once each, and ends at the sentinel |
| OrderedDict.OrderedDict.Reversed | ipstools/ipstools/ordereddict.py:62-67 | walking the prev pointers yields exactly the reverse |
| OrderedDict.OrderedDict.PopItem | ipstools/ipstools/ordereddict.py:69-77 | the last or first entry is returned and removed; an empty dictionary is an error |
| OrderedDict.KeysInInsertionOrder | ipstools/ipstools/ordereddict.py:36-77 | after any sequence of operations the keys are the live ones, once each, ordered by when they were last inserted |
| OrderedDict.RefinesStamped | ipstools/ipstools/ordereddict.py:36-77 | after any sequence of operations the dictionary has the entries of a map with insertion times, in the order of these times: deletion takes its own key and no other, popping the one inserted last or first |
| OrderedDict.PopsExtreme | ipstools/ipstools/ordereddict.py:69-77 | what is popped is the key inserted last or first, with its value; nothing exactly from an empty dictionary |
| GenericFifo.GenericFifo.constructor | ips/common_cells/generic_fifo_adv.sv:84-254 | reset |
| GenericFifo.GenericFifo.Tick | ips/common_cells/generic_fifo_adv.sv:84-262 | one clock cycle of machine, pointers and clock-gated storage |
| GenericFifo.PointersStay | ips/common_cells/generic_fifo.sv:103-235 | for every depth the pop pointer stays inside the storage and the push pointer inside its width |
| GenericFifo.StepRefines | ips/common_cells/generic_fifo_adv.sv:111-262 | for a power-of-two depth, a cycle is a cycle of the bounded queue: grant iff not full, valid iff not empty, data the head, and the storage is clocked exactly on an accepted push |
| GenericFifo.PowersOfTwo | ips/common_cells/generic_fifo.sv:124 | the pointer width fits the depth exactly for the powers of two |
| GenericFifo.LosesWord | ips/common_cells/generic_fifo.sv:124 | for every other depth, the run that loses a word |
| GenericFifo.RefinesExactlyPowersOfTwo | ips/common_cells/generic_fifo.sv:83-252 | every run from reset behaves as the bounded queue exactly if the depth is a power of two |
| EdgePropagator.PulpSyncWedge.TickWedge | ips/common_cells/pulp_sync_wedge.sv:27-38 | the three-stage shift register with its edge outputs |
| EdgePropagator.EdgePropagator.TickClocks | ips/common_cells/edge_propagator.sv:29-53 | a tick of either clock, or of both at once |
| EdgePropagator.TickKeepsWave | ips/common_cells/edge_propagator.sv:29-43 | a tick keeps at most one value change on the six-flop ring and accounts for every pulse |
| EdgePropagator.EveryPulseSeenOnce | ips/common_cells/edge_propagator.sv:29-53 | for every interleaving of the clocks, the receive cycles with the output high number the raised pulses, up to the one in flight |
| EdgePropagator.SeenFromReset | ips/common_cells/edge_propagator.sv:29-53 | from reset, every pulse but the one in flight has been seen |
| EdgePropagator.PulseArrives | ips/common_cells/pulp_sync_wedge.sv:27-38 | a pulse in flight is seen within two receive ticks, whatever the transmit clock does |
| EdgePropagator.PulseSafeExactly | ips/common_cells/edge_propagator.sv:29-41 | in every state of the wave, a pulse can be raised without any continuation losing or inventing one if and only if the transmit flop and the first acknowledge flop are low |
| EdgePropagator.AcknowledgedIsSendable | ips/common_cells/edge_propagator.sv:29-41 | which holds whenever the transmit flop and the last acknowledge flop are low |
| EdgePropagator.SendableAgain | ips/common_cells/edge_propagator.sv:29-43 | the acknowledge comes back: from every state of the wave a pulse can be raised again after at most ten rounds in which both clocks tick, in any order and number |
| ClockDivider.ClockDividerCounter.constructor | ips/common_cells/clock_divider_counter.sv:45-120 | reset, for all values of the two parameters |
| ClockDivider.ClockDividerCounter.TickRise | ips/common_cells/clock_divider_counter.sv:84-157 | the rising edge: counter, toggle and divisor load |
| ClockDivider.ClockDividerCounter.TickFall | ips/common_cells/clock_divider_counter.sv:102-194 | the falling edge: the second toggle |
| ClockDivider.BypassedCounterIsZero | ips/common_cells/clock_divider_counter.sv:123-124 | in every run, while bypassed the counter rests at zero, so every load starts a whole period |
| ClockDivider.DividesExactly | ips/common_cells/clock_divider_counter.sv:84-201 | after loading any divisor n >= 2, odd or even, half-cycle h is high exactly if h / n is even |
| ClockDivider.BypassPassesClock | ips/common_cells/clock_divider_counter.sv:127-209 | loading 0 or 1 passes the input clock through until the next load |
| ClockDivider.ResetLevel | ips/common_cells/clock_divider_counter.sv:45-201 | from reset until the first load the output is the input clock with BYPASS_INIT, and otherwise divided by 2 * (DIV_INIT + 1), in every half-cycle |
| ClockDivider.PeriodIsDivisor | ips/common_cells/clock_divider_counter.sv:84-201 | the output repeats every n input cycles, until the next load |
| ClockDivider.HalfOfThePeriodHigh | ips/common_cells/clock_divider_counter.sv:84-201 | of any 2n consecutive half-cycles exactly n are high |
| Conflicts.FlattenizeChildren | ipstools/ipstools/IPTreeNode.py:87-98 | the flat list is the post-order of the descendants |
| Conflicts.PostOrderComplete | ipstools/ipstools/IPTreeNode.py:87-98 | flattening neither loses nor repeats a descendant |
| Conflicts.PostOrderBelow | ipstools/ipstools/IPTreeNode.py:95-97 | every node comes right after its own descendants |
| Conflicts.SiblingsInOrder | ipstools/ipstools/IPTreeNode.py:87-98 | a node and its descendants come behind its elder siblings and theirs, and before its younger ones |
| Conflicts.PopulateOne | ipstools/ipstools/IPTreeNode.py:113-119 | the inner loop of one node completes the group of its name, and leaves a complete one alone |
| Conflicts.Collapse | ipstools/ipstools/IPTreeNode.py:127-137 | the in-place removal keeps exactly the first node of each distinct commit |
| Conflicts.Evict | ipstools/ipstools/IPTreeNode.py:120-126 | no name is ever evicted: every list is nonempty |
| Conflicts.KeptGroup | ipstools/ipstools/IPTreeNode.py:109-137 | grouping and collapsing equals keeping the first node of each name and commit |
| Conflicts.GetConflicts | ipstools/ipstools/IPTreeNode.py:100-138 | for every tree, each descendant name in order of first occurrence with the first descendant of each of its commits, in post-order |
| ConflictTable.TableMeans | ipstools/ipstools/IPTreeNode.py:100-138 | the names stand in the order of the first node of each, and each list holds, in flat order, exactly the nodes before which none has the same name and commit |

## Left out

- X values, metastability, clock-tree cells and test modes: every flop samples a definite bit, and the bit the divider reads out of range is an input of the theorems.
- The divider at other widths than 32 bits, and the shared divider variant of the ALU (SHARED_INT_DIV = 1).
- Vector modes other than the scalar one during a division; the ALU operations ABS, CLIP, rounding, rotation, bit insert and extract, shuffle and packing, and the floating-point ones.
- The realigner at odd addresses, which no instruction has. A replacement word is taken to be flagged as a loop target and to come behind a complete instruction (RedirectTearsExactly says what happens otherwise).
- The loop engine is proved for ranges and block sizes of at least 1, the only ones a loop can have; the nest may have any number of loops, six of them in UcodeStateMachine. YAML loading and mnemonic lookup: blocks of ops are the input.
- The memory with other byte widths than 8, with more than one taint, and the preload of program and taints. A partly written taint entry that did not exist before is read as 0 elsewhere.
- Controller.RiscvController.Tick: leaves out the register-file forwarding and the stall logic between the state machine and the registers, whose results (jr_stall and the like) are inputs.
- DebugUnit.RiscvDebugUnit.Tick: leaves out the data read back, the latched addresses and data of register accesses, and the tracking of the next and previous PC.
- HaltHandshake.StepOverFlush: takes the decoder to show the same instruction to the last flush cycle, as the halted decode stage does.
- FIFO depth 1, whose pointers have no bits. The plain FIFO is the clearable one with its clear input low.
- Keyword arguments, update, pickling, comparison and copying of the ordered dictionary, and iteration while it is being changed.
- Building the dependency tree (files, git, prompting): the tree is the input of FlattenizeChildren and GetConflicts.
- The compressed decoder, the CSR file, the APU dispatcher, the hardware-loop registers and the prefetch buffers: finite tables, or dependent on neighbours that are not part of this model.
