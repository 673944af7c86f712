# A verified model of the Rocket 68 CPU core

This project models the Motorola 68000/68010 core of Rocket 68 in Dafny and proves what its code
relies on: that nested bus faults always end and leave the processor as they found it, that
exceptions and RTE undo each other over whole runs, that the bit-at-a-time arithmetic loops compute
the numbers they stand for, that a faulted MOVE is precise, that the scheduler terminates and
accounts for every cycle, and that save states and record files survive the trip out and back.

Run `dafny verify dfyconfig.toml`.

## How the model is laid out

- `Words`, `StatusRegister`: bounded integers with every wrap-around written out as a modulus, and
  the status register as a bit-vector with the arithmetic meaning of its flags.
- `MachineState`: the processor as a value, and the closed forms the code is proved against
  (`Raise` is an exception entry in one piece, `SetSr` a write of the status register, `EaAddress`
  an effective address). Fields of the C structure are grouped into small records (fault latch,
  nesting flags, interrupt lines, control registers, time slice). `history` has no counterpart in
  the code: it records the vectors raised and the deepest nesting, so that contracts can speak about
  them.
- `Core`: the class `Cpu` with the memory array, bus accessors, exception entry, instruction fetch,
  effective addresses and interrupts. The non-local exit out of a faulted instruction is the
  `Abort` case of `Outcome`.
- `Interrupts`, `Exceptions`: properties of whole runs.
- `OpsControl`, `OpsLogic` (over `Shifts`), `OpsArith` (over `Divider`, `Bcd`, `MultiPrecision`),
  `OpsMove`, `OpsMovem`, `OpsLink`: the instruction handlers. `Chains` runs the multi-precision instructions
  one after the other.
- `Execution`: one step and the scheduler.
- `SaveState`, `Loader`: the portable save-state codec, and the S-record and Intel HEX loaders.

Recurring contract terms:

- `BusKeeps` and `StepKeeps` say what any bus access, and any part of an instruction, leaves alone
  (memory size, interrupt lines, control registers, both re-entry guards and the exception depth,
  implemented status bits, at most three nested exceptions, the supervisor bit set only by an
  exception) and how many cycles it has charged at least.
- `Raised` says that an exception was taken in exactly the given state: its closed form when the
  stack and the vector are mapped, and otherwise what every entry does, the vector's PC included.
  `AfterFault` says the same of an access fault.
- `Stop` names the one access at which something is abandoned, with the state of the machine at
  that access. Each part of the core has a function that gives its stop, if it has one, and its
  contract (`Ends`) says that it completes exactly when there is none, and that otherwise the fault
  of that access is all that happened. A contract beside it gives the exact state it completes in.

- A name that ends in `Shown` states the same effect over again in numbers: addresses modulo 2^24,
  operands as the big-endian number of their bytes (`Number`), registers as signed numbers, flags
  one by one. Contracts and lemmas of that kind do not use the helper functions that the code calls,
  so they fix what those helpers have to compute.

Byte, word and long accessors of the bus are one method with a size. Cycle tables, constants
and edge cases follow the code.

## Model

| member | source | states |
|---|---|---|
| Words.SignedPinned | src/m68k/ops_control.c:236-237 | the signed reading of an operand is the one number of its range with its low bits |
| Words.ExtendSigned | src/m68k/ops_arith.c:631 | sign extension to a long word keeps the number |
| Words.MergeParts | src/m68k/ops_move.c:81-84 | a register takes the operand's low part and keeps its high part |
| StatusRegister.AddFlags | src/m68k/m68k.c:701-721 | the sign-bit formulas of the ADD update are the true carry and the true signed overflow of the n-bit operands, whatever lies above the operand size |
| StatusRegister.SubFlags | src/m68k/m68k.c:723-743 | the SUB update reports the true borrow and signed overflow |
| StatusRegister.CompareFlags | src/m68k/m68k.c:745-764 | the CMP update reports borrow, signed overflow, zero and sign of the difference and keeps X |
| StatusRegister.ConditionsAfterCompare | src/m68k/ops_control.c:7-49 | after a comparison each of the sixteen conditions is its unsigned or signed comparison of the two n-bit operands |
| StatusRegister.MaskWritten | src/m68k/m68k.c:909-910 | replacing the interrupt mask sets that level and disturbs neither S, T nor the unimplemented bits |
| StatusRegister.MaskKeepsRest | src/m68k/m68k.c:909-910 | and neither the condition codes nor any other bit |
| StatusRegister.ByteLevelWritten | src/m68k/m68k.c:909-910 | a level byte beyond 7 reaches the system byte when serviced: SR stays within its implemented bits exactly when none of bits 3, 4 and 6 of the level is set |
| StatusRegister.StatusBits | include/m68k.h:206-222 | each flag and the interrupt mask is its numbered bit of the status word that is stacked and saved |
| StatusRegister.WithCcrFlags | src/m68k/ops_control.c:265-272 | the five codes are those of the popped word, S, T and the mask those of before |
| MachineState.SetSrConserves | src/m68k/m68k.c:798-813 | writing SR keeps the user and the supervisor stack pointer, wherever the S bit makes them live |
| MachineState.SetSrAllConserves | src/m68k/m68k.c:798-813 | any sequence of SR writes conserves the pair of stack pointers and ends with the last value, masked |
| MachineState.ExceptionExact | src/m68k/m68k.c:815-867 | the pushes and the vector fetch of exception entry compose to one closed form when stack and table are mapped |
| MachineState.FaultKeeps | src/m68k/m68k.c:220-268 | raising a fault under its guard and clearing the guard again is invisible to the enclosing access |
| MachineState.EaStopNone | src/m68k/m68k.c:469-593 | a resolution completes exactly when its mode exists and its extension words and operand can be read |
| MachineState.RaiseShown | src/m68k/m68k.c:815-867 | the closed form of an exception entry in numbers: frame, table entry, stack pointers, mask and codes |
| MachineState.AddressNumbers | src/m68k/m68k.c:469-537 | the address of each mode as a number made of the register, the PC and the signed extension words |
| MachineState.BriefWord | src/m68k/m68k.c:547-591 | a brief extension word names D or A, one of eight registers, whole or its signed low word, and a signed byte displacement; bits 10 to 8 do not matter |
| MachineState.OperandNumbers | src/m68k/m68k.c:469-593 | the operand of each mode: a register, the big-endian number in memory, or the immediate of the instruction stream |
| MachineState.EaCyclesCount | src/m68k/m68k_internal.h:50-96 | the cycle tables are four for each extension and operand word and two to decrement or index; the control tables follow the same count |
| Core.Cpu.SetStatus | src/m68k/m68k.c:798-813 | writes the implemented bits and swaps A7 with USP or SSP exactly when S changes |
| Core.Cpu.CaptureAccessFault | src/m68k/m68k.c:151-165 | latches the address and the instruction or bus word, marks a group-0 fault, and builds a status word of the word's upper bits, the read bit, and function code 1 or 2 for user, 5 or 6 for supervisor data or program space |
| Core.Cpu.TakeFault | src/m68k/m68k.c:241-254 | raises the fault's vector once in the state of the access, restores guards and depth, and unwinds exactly when an instruction is executing outside exception processing; recursion ends because a clear guard is used up |
| Core.Cpu.Read | src/m68k/m68k.c:220-298 | an odd word or long raises vector 3, otherwise a place outside memory vector 2; otherwise the value is the big-endian number of the bytes at the address modulo 2^24; everything else is kept for every memory size, stack and vector base |
| Core.Cpu.Write | src/m68k/m68k.c:300-378 | faults like a read, or leaves the big-endian bytes of the value's low part at the address modulo 2^24 and every other byte as it was |
| Core.Cpu.Push | src/m68k/m68k.c:776-790 | predecrements A7 and writes; a faulted write faults with A7 already moved |
| Core.Cpu.PushGroup0Frame | src/m68k/m68k.c:837-848 | the 14-byte frame lies below the stack pointer in its documented order |
| Core.Cpu.PushShortFrame | src/m68k/m68k.c:849-856 | the 6-byte frame, or the 8-byte one of the 68010 with its format word |
| Core.Cpu.Exception | src/m68k/m68k.c:815-867 | nesting ends and is at most one deeper than the clear guards, guards and depth come back, S is set; with room, the PC is the long word the table held at VBR + 4 * vector, the frame just below the supervisor stack holds the old SR and the stacked PC (that of the instruction itself for vectors 4, 8, 10 and 11), mask and codes stay, and no other byte changes |
| Core.Cpu.Fetch | src/m68k/m68k.c:380-412 | the number of the two bytes at the PC and the PC advanced by two, or a program-space read fault at the PC, vector 3 when odd and else 2, in exactly that state |
| Core.Cpu.SetFaultPc | src/m68k/m68k.c:437-467 | latches the PC of each addressing mode and nothing else |
| Core.Cpu.RaiseIllegalEa | src/m68k/m68k.c:167-172 | an addressing mode that does not exist raises vector 4 in the state it is found in |
| Core.Cpu.CalcEaEx | src/m68k/m68k.c:469-593 | resolves every mode to its address or value, or stops at the first word or operand that cannot be read with the registers committed by then; a completed (An)+ or -(An) moves An by 1, 2 or 4, by 2 for a byte of A7, no other register moves, and an even A7 stays even |
| Core.Cpu.CalcEa | src/m68k/m68k.c:595-605 | the same with the table cost; a faulted long operand has spent the word share of it |
| Core.Cpu.CalcEaAddr | src/m68k/m68k.c:607-610 | the address without the read, with the table cost, or the extension word that stopped it |
| Core.Cpu.CalcEaCtl | src/m68k/m68k.c:654-664 | control addressing only, with its own cost table; other modes are illegal and cost nothing |
| Core.Cpu.RaiseTargetFault | src/m68k/m68k.c:174-201 | a transfer to a bad target costs 50 cycles and raises a program-space fault with the given stacked PC |
| Core.Cpu.SetIrq | src/m68k/m68k.c:869-874 | stores the level and latches a transition into level 7; one request event of the interrupt protocol |
| Core.Cpu.CheckInterrupts | src/m68k/m68k.c:876-922 | services exactly the due requests, strictly above the mask or a latched edge for level 7: the PC comes from VBR + 4 * (24 + level), from the spurious vector 24, or from the vector the host names, and the mask is the level |
| Interrupts.EdgesBoundNmi | src/m68k/m68k.c:869-922 | over every run level 7 is serviced at most as often as the line moved into it |
| Interrupts.RequestsBoundServices | src/m68k/m68k.c:912-916 | without an acknowledge callback services never exceed nonzero requests |
| Interrupts.ServicesClimb | src/m68k/m68k.c:876-917 | while nothing lowers the mask, each serviced level is above all serviced before it |
| Interrupts.StoppedStays | src/m68k/m68k.c:970-977 | a stopped processor keeps PC and registers until an interrupt is accepted |
| Interrupts.ServicedShown | src/m68k/m68k.c:876-920 | a service in numbers: vector 24 plus the level unless the host names another, the frame it stacks, a mask equal to the level, and the condition codes kept |
| Exceptions.ReturnUndoesRaise | src/m68k/ops_control.c:192-223 | RTE after any handler that kept its frame restores SR, both stack pointers and the stacked PC, on both models |
| Exceptions.NestRestores | src/m68k/ops_control.c:192-223 | every well-nested run of exceptions and returns, of any shape and depth, meets no fault and restores everything but the memory of its frames |
| Exceptions.FaultIsPrecise | src/m68k/m68k.c:815-867 | every access fault with room for its frame changes 14 bytes of memory and the stack pointer, shows the access in its frame part by part, charges nothing, and leaves the PC that the table holds at VBR + 4 * vector |
| Exceptions.OperandFaultIsPrecise | src/m68k/m68k.c:437-605 | a faulted operand of any addressing mode commits what its mode and size commit before the read, stacks the PC after the opcode, or one or two words on for the absolute modes and a short predecrement, has paid for its extension words and one bus cycle, and continues at its vector |
| OpsControl.Trap | src/m68k/ops_control.c:187-190 | an instruction's own exception is raised once, in its state, and the instruction completes |
| OpsControl.ExecRte | src/m68k/ops_control.c:192-223 | privilege violation, exact return, or format error 14 with the frame kept; stopped only by the reads of its frame, in order |
| OpsControl.ExecBcc | src/m68k/ops_control.c:51-92 | taken, untaken and subroutine forms with their targets and costs, the exact fault of a bad target, and the extension word or push that stops it |
| OpsControl.BranchIsShown | src/m68k/ops_control.c:51-92 | a branch goes to the word after the opcode plus the signed byte, or the signed next word when that is zero; 10, 8, 12 or 18 cycles; BSR stacks the next instruction's address |
| OpsControl.ExecDbcc | src/m68k/ops_control.c:94-128 | ends on the condition or on the counter; a faulting branch leaves the counter alone and stacks the next PC |
| OpsControl.LoopIsShown | src/m68k/ops_control.c:94-128 | the low word of Dn counts down and wraps at 0, where the loop ends, the high word stays; 12, 14 or 10 cycles |
| OpsControl.ExecJmp | src/m68k/ops_control.c:153-180 | JSR faults on its target before it pushes and stacks the PC after its operand, JMP leaves an odd target to the step; the exact state of each |
| OpsControl.JumpIsShown | src/m68k/ops_control.c:153-180 | the PC is the operand's address, JSR leaves the address of the next instruction on the stack, and the cost counts words and an index |
| OpsControl.ExecChk | src/m68k/ops_control.c:225-256 | traps exactly out of bounds, with the data-dependent cost spent and N showing the sign |
| OpsControl.CheckIsShown | src/m68k/ops_control.c:225-256 | a word within 0 to the bound costs nothing extra and clears N, Z, V and C; otherwise the trap costs 40 cycles exactly for a negative word at most 0x7FFF below the bound, else 38 |
| OpsControl.ExecRtr | src/m68k/ops_control.c:265-272 | condition codes and PC from the stack, system byte kept; stopped exactly by its two reads |
| OpsControl.RtrIsShown | src/m68k/ops_control.c:265-272 | the codes are the five low bits of the popped word, the system byte stays, the PC is the long word above it |
| OpsControl.ExecStop | src/m68k/ops_control.c:274-286 | privileged; loads SR and stops, unless its immediate cannot be fetched |
| Shifts.LsrLoop | src/m68k/ops_logic.c:392-398 | unsigned floor division by a power of two, carry the last bit out |
| Shifts.AsrLoop | src/m68k/ops_logic.c:364-371 | signed floor division by a power of two |
| Shifts.LslLoop | src/m68k/ops_logic.c:399-405 | multiplication modulo the operand size |
| Shifts.AslLoop | src/m68k/ops_logic.c:373-390 | multiplication modulo the operand size, V exactly when the signed product leaves its range |
| Shifts.RolLoop | src/m68k/ops_logic.c:444-455 | modular rotation by the count modulo n |
| Shifts.RorLoop | src/m68k/ops_logic.c:438-455 | the opposite rotation |
| Shifts.RoxlLoop | src/m68k/ops_logic.c:423-436 | rotation of the n+1-bit word X:value by the count modulo n+1 |
| Shifts.RoxrLoop | src/m68k/ops_logic.c:414-436 | the opposite rotation of X:value |
| Shifts.Shift | src/m68k/ops_logic.c:363-455 | each of the eight loops refines its arithmetic, for every count |
| Shifts.RotateThereAndBack | src/m68k/ops_logic.c:413-455 | the opposite rotate by the same count restores the value, and X for the extended rotates |
| OpsLogic.ComputeShift | src/m68k/ops_logic.c:345-457 | a zero count leaves value and X, and C shows X for the extended rotates only |
| OpsLogic.ExecShiftRegister | src/m68k/ops_logic.c:327-362 | shifts the low part of Dn by an immediate of 1 to 8 or a register modulo 64 |
| OpsLogic.ExecShiftMemory | src/m68k/ops_logic.c:311-325 | shifts one word in memory by one and changes nothing else; only its read can fault |
| OpsLogic.CcrAfterFlags | src/m68k/ops_logic.c:470-475 | the CCR forms touch the five condition codes only |
| OpsLogic.ShiftCount | src/m68k/ops_logic.c:327-341 | a count of 1 to 8, where field 0 stands for 8, or the register modulo 64 |
| OpsLogic.CombinedBits | src/m68k/ops_logic.c:459-486 | every bit of the result is AND, OR or exclusive OR of the two bits in its place |
| OpsLogic.CcrIsShown | src/m68k/ops_logic.c:467-475 | bits 0 to 4 of SR are joined with those of the immediate, every other bit stays |
| OpsLogic.SrIsShown | src/m68k/ops_logic.c:477-486 | every implemented bit of SR is joined with that of the immediate, the others are clear, and neither stack pointer is lost |
| OpsLogic.ExecLogicCcr | src/m68k/ops_logic.c:467-475 | the new SR and PC of ANDI, ORI and EORI to CCR, unless the immediate cannot be fetched |
| OpsLogic.ExecLogicSr | src/m68k/ops_logic.c:477-486 | privileged, and a write of S swaps the stack pointers; stopped exactly by its immediate |
| Divider.RestoringStep | src/m68k/ops_arith.c:526-543 | after i steps the partial remainder is dividend*2^i modulo divisor*2^16, and the subtracting branch is taken exactly at the set quotient bits |
| Divider.WalkStep | src/m68k/ops_arith.c:530-541 | the 32-bit step, wrap-around included, is a restoring division step |
| Divider.DivuWalk | src/m68k/ops_arith.c:523-544 | the charge of the timing walk, exactly and within 76 to 136 |
| Divider.EarlyExit | src/m68k/ops_arith.c:523-524 | the ten-cycle exit is taken exactly when the quotient exceeds 0xFFFF |
| Divider.CountZeros | src/m68k/ops_arith.c:495-499 | counts the zeros in bits 15 to 1 of the quotient |
| Divider.DivsCharge | src/m68k/ops_arith.c:483-502 | the exact DIVS cost from the signs and the quotient bits |
| Divider.DivsCostRange | src/m68k/ops_arith.c:483-502 | at least 16 cycles, and 120 to 156 off the cheap exit |
| Divider.CheapExitOverflows | src/m68k/ops_arith.c:490-504 | the cheap DIVS exit implies overflow |
| Divider.TruncatedDivision | src/m68k/ops_arith.c:478-481 | dividend = quotient * divisor + remainder, remainder smaller than the divisor and with the dividend's sign |
| Bcd.AbcdAdds | src/m68k/ops_arith.c:782-791 | on packed decimals the corrected sum is two-digit addition with carry |
| Bcd.SbcdSubtracts | src/m68k/ops_arith.c:828-841 | on packed decimals the corrected difference is two-digit subtraction with borrow |
| Bcd.CorrectionOverflow | src/m68k/ops_arith.c:782-841 | V for every pair of bytes, packed or not: bit 7 of the binary result turned on by the correction of ABCD, or off by that of SBCD unless it borrows with bit 7 set in the destination alone |
| MultiPrecision.LimbLaw | src/m68k/ops_arith.c:329-349 | one limb of ADDX, SUBX, ABCD or SBCD in its base, with carry and zero |
| MultiPrecision.ChainComputes | src/m68k/ops_arith.c:283-406 | k limb steps over disjoint regions compute the exact k-limb sum or difference, the final carry, the sticky zero, and change nothing else |
| MultiPrecision.CombinedModulo | src/m68k/ops_arith.c:283-406 | the same result as a modulus, and the carry as a comparison |
| MultiPrecision.ChainUndone | src/m68k/ops_arith.c:762-860 | SUBX undoes ADDX and SBCD undoes ABCD, limb by limb, with the same source and initial X |
| OpsArith.ReadPredecrement | src/m68k/ops_arith.c:283-294 | a long operand is read low word first and commits after the reads, others commit before; the exact state of the read that faults; a completed one moves its pointer by 1, 2 or 4, by 2 for a byte of A7 |
| OpsArith.ExtendedFaultIsPrecise | src/m68k/ops_arith.c:283-323 | a faulted operand of ADDX or SUBX faults on its low word first, has moved its register only for byte and word, and has spent 6, 10 or 14 cycles |
| OpsArith.ExtendedFlags | src/m68k/ops_arith.c:339-349 | true carry and overflow, and a Z that only clears |
| OpsArith.ExecExtended | src/m68k/ops_arith.c:296-406 | register form exactly; the memory form exactly, one limb of a chain when its operands are mapped and aligned, or stopped at a read or the write in the state of that access |
| OpsArith.ExtendedRegisterShown | src/m68k/ops_arith.c:335-349 | the register forms in numbers: d + s + X or d - s - X modulo the size, with the carry in X and C and a sticky Z; the rest of Dn stays |
| OpsArith.ExecDecimal | src/m68k/ops_arith.c:762-860 | the same for ABCD and SBCD, whose write never faults once both bytes were read |
| OpsArith.DecimalRegisterShown | src/m68k/ops_arith.c:762-860 | the register forms on packed decimals: the two-digit sum or difference with its carry, a sticky Z, and the rest of Dn kept |
| OpsArith.Divide | src/m68k/ops_arith.c:477-557 | the defining equations of quotient and remainder; within -0x8000 to 0x7FFF, or up to 0xFFFF unsigned, the remainder over the quotient with N and Z, otherwise Dn unchanged with V and N; at the exact cost |
| OpsArith.ExecDiv | src/m68k/ops_arith.c:453-557 | illegal operand traps 4, zero divisor traps 5 after the operand is paid for, otherwise the division; completes exactly when its operand can be read |
| OpsArith.ExactProduct | src/m68k/ops_arith.c:424-434 | the product of two words is exact in 32 bits, signed and unsigned |
| OpsArith.MulCycles | src/m68k/ops_arith.c:439-446 | the cost loop counts the one bits, so the cost is 38 to 70 |
| OpsArith.PatternCounts | src/m68k/ops_arith.c:439-446 | an unsigned multiplication pays for the one bits of its operand, a signed one for its bit transitions |
| OpsArith.ExecMul | src/m68k/ops_arith.c:408-451 | exact product, flags, data-dependent cost, nothing else changed; completes exactly when its operand can be read |
| OpsArith.ExecCmp | src/m68k/ops_arith.c:620-646 | EQ, NE, GE, LT, GT and LE compare the signed register (for CMPA the whole of An) with the signed operand of its size, the unsigned conditions compare their residues, and only N, Z, V and C move; completes exactly when its operand can be read |
| OpsArith.ExecCmpi | src/m68k/ops_arith.c:649-688 | the same conditions for an operand and the immediate, which is fetched and paid for first |
| Chains.PoisedReady | src/m68k/ops_arith.c:314-333 | as long as limbs are left, the next instruction meets no fault |
| Chains.BinaryValid | src/m68k/ops_arith.c:283-406 | any memory is a valid operand of ADDX and SUBX chains |
| Chains.RunChain | src/m68k/ops_arith.c:283-406 | running the handler k times on a machine completes and does k-limb arithmetic, for any k and size |
| OpsMove.ResolveDestination | src/m68k/ops_move.c:44-69 | the destination's address; only byte and word predecrements are committed here |
| OpsMove.FaultSrKeeps | src/m68k/ops_move.c:103-127 | the codes a faulted write shows never touch X or the system byte, and the final codes overwrite them |
| OpsMove.FaultSrShown | src/m68k/ops_move.c:103-127 | the codes a faulted write shows, flag by flag: of the whole value, its low word, its high word with V and C kept, or none |
| OpsMove.WriteSpends | src/m68k/ops_move.c:129-146 | by a fault a write has spent 8 cycles for a predecrement, else its extension words and one bus cycle, less the second absolute word after a memory source |
| OpsMove.PrepareWrite | src/m68k/ops_move.c:92-162 | exactly the fault PC, prefetched word, flags and refund in force while the write can fault |
| OpsMove.WriteDestination | src/m68k/ops_move.c:148-164 | a long predecrement goes low word first and faults on its higher address, or on the lower one with the low word already written |
| OpsMove.CommitWrite | src/m68k/ops_move.c:152-172 | refund taken back, increment committed, final flags, latched word dropped |
| OpsMove.RefundCovered | src/m68k/ops_move.c:129-138 | the refund never exceeds the destination cost it gives back |
| OpsMove.MoveValue | src/m68k/ops_move.c:37-173 | the destination half: Dn takes the low part, An the same signed number with no flag moved, memory the big-endian operand and nothing beside it; N and Z are of the value; or the addressing or write that stops it, odd or unmapped |
| OpsMove.ExecMove | src/m68k/ops_move.c:7-173 | a completed move leaves X, N and Z of the source value with V and C clear, MOVEA leaves SR and the operand's signed number in An, both pointers have moved by their operand, and an even A7 stays even unless it is what is written; or the source or destination that stops it |
| OpsMove.WriteFaultIsPrecise | src/m68k/ops_move.c:40-173 | an odd or unmapped destination changes only the 14-byte frame, leaves data registers, never commits (An)+, commits -(An) for byte and word but not long, stacks the codes flag by flag and the PC of its mode, shows address + 2 for a long predecrement, has spent 8 cycles for a predecrement and else its words, and continues at its vector |
| OpsMovem.MovemRoundTrip | src/m68k/ops_move.c:228-336 | storing a list to -(An) and loading it from (An)+ with the reversed mask restores every listed register and An, for all masks, An in the list and A7 included |
| OpsMovem.ReversedExists | src/m68k/ops_move.c:304-306 | every mask has a mask that lists the same registers backwards |
| OpsMovem.BlockSize | src/m68k/ops_move.c:260-263 | a block is as many operands as the mask has one bits, in either direction |
| OpsMovem.OnlyBlockChanges | src/m68k/ops_move.c:299-324 | only the bytes of the listed registers change, as many operands as the mask has one bits |
| OpsMovem.BlockEntry | src/m68k/ops_move.c:299-324 | the block holds the listed registers in ascending order |
| OpsMovem.TransferIsShown | src/m68k/ops_move.c:275-335 | register k is listed by bit k, or 15 - k for -(An), and lies after as many operands as registers are listed before it; a load leaves the operand's signed number in the whole register |
| OpsMovem.LeadCount | src/m68k/m68k.c:670-700 | the lead-in table is two words, the extension words, two for an index and four for the trailing read |
| OpsMovem.StoreDescending | src/m68k/ops_move.c:299-324 | the predecrement loop stores that block, with the initial An, at its exact cost; a faulting transfer stops it with the earlier ones done and An not moved |
| OpsMovem.StoreAscending | src/m68k/ops_move.c:325-335 | the other store loop stores it upwards, or stops at the first transfer that faults |
| OpsMovem.LoadAscending | src/m68k/ops_move.c:275-297 | the load loop reads the block into the listed registers and no others, or stops with the earlier registers loaded |
| OpsMovem.ExecMovem | src/m68k/ops_move.c:228-336 | both directions with lead-in, cost and writeback; with room each listed register is stored at, or takes the signed number of, the operand at its place in the block and no other register changes; stopped exactly by its mask word, its operand or a transfer |
| OpsLink.ExecLink | src/m68k/ops_move.c:202-209 | stopped exactly by its displacement or its push; otherwise An points at the frame that saved it and A7 is displaced |
| OpsLink.ExecUnlk | src/m68k/ops_move.c:211-226 | the frame pointer is read before A7 moves, so a faulted read leaves both registers and stacks its frame on the original stack |
| OpsLink.FramesRestore | src/m68k/ops_move.c:202-226 | any nesting of LINK and UNLK on frame pointers other than A7 meets no fault, restores every register and writes only below the stack it found |
| OpsLink.StackPointerFrame | src/m68k/ops_move.c:202-226 | with A7 as its own frame pointer UNLK undoes LINK exactly when the displacement is zero or the displaced memory, overlapping the frame or not, held A7 |
| Execution.Dispatch | src/m68k/m68k.c:1014-1639 | the handler of the decoded instruction completes exactly when nothing stops it, with its exact effect, or is abandoned in the state of its stop; with its dispatch charge and any override it has used at least four cycles |
| Execution.InstructionTiming | src/m68k/m68k.c:1014-1662 | every instruction of the model that raises no exception costs, handler and dispatch together, what its words and internal cycles add up to |
| Execution.TrapTiming | src/m68k/m68k.c:1643-1662 | an instruction that traps for its encoding or its privilege, TRAP and the unassigned opcodes cost 34 cycles |
| Execution.ZeroDivideTiming | src/m68k/m68k.c:1652-1654 | a division by zero costs 38 cycles on top of its operand |
| Execution.FinishStep | src/m68k/m68k.c:1641-1677 | the odd-target fault, the trace exception, or the plain charge, each in its exact state |
| Execution.RunInstruction | src/m68k/m68k.c:984-1012 | the opcode fetch and the handler as one; an abandoned instruction costs 54 or 34 on top of the state its stop leaves, a completed one is finished with its final cycles |
| Execution.FetchFaultIsPrecise | src/m68k/m68k.c:984-1012 | a faulted opcode fetch stacks the PC it was made at, as a program-space read, whatever the latches of earlier faults held, and moves no register but A7 |
| Execution.TryInterrupt | src/m68k/m68k.c:970-982 | a due interrupt raises its vector, moves the mask and costs 44 cycles; one service event |
| Execution.StepEx | src/m68k/m68k.c:960-1678 | a step is the service of a due interrupt, four idle cycles of STOP, or an instruction; every path charges at least four cycles, keeps SR clean, nests at most three exceptions, enters supervisor state only by an exception, and is one event of the interrupt protocol |
| Execution.CostsAddUp | src/m68k/m68k.c:1682-1697 | the cycles of the single steps add up to the cycles of the run |
| Execution.Execute | src/m68k/m68k.c:1682-1693 | terminates; each state of the run leads to the next by one step taken with cycles left; returns the sum of the step costs and overshoots by less than the last; its steps form a run of the interrupt protocol |
| Execution.ModifyTimeslice | src/m68k/m68k.c:1699-1702 | the cycles run so far stay |
| Execution.EndTimeslice | src/m68k/m68k.c:1704-1707 | the cycles run so far stay and nothing remains |
| SaveState.Serialize | src/m68k/m68k.c:1808-1874 | writes exactly the saved blob, laid out field by field at fixed indices, and nothing beyond it, or reports what is needed |
| SaveState.Deserialize | src/m68k/m68k.c:1876-1970 | restores field by field; a rejected blob keeps what came before the bad field; memory is untouched |
| SaveState.SavedLength | src/m68k/m68k.c:1808-1814 | every blob is 146 bytes long |
| SaveState.SavedLayout | src/m68k/m68k.c:1808-1874 | every field stands at its own index with its own tag and length, as big-endian numbers |
| SaveState.RoundTrip | src/m68k/m68k.c:1808-1970 | restoring a saved state brings back every architectural field and clears the fault latches |
| SaveState.UnknownTagsSkipped | src/m68k/m68k.c:1952-1953 | unknown fields anywhere make no difference |
| SaveState.ParseCut | src/m68k/m68k.c:1884-1956 | a prefix of any encoding is accepted exactly on a field boundary and restores the fields before it |
| SaveState.BoundaryMeaning | src/m68k/m68k.c:1884-1956 | the boundaries of an encoding are exactly the lengths of its first whole fields |
| SaveState.CutBlob | src/m68k/m68k.c:1876-1956 | a cut saved blob is accepted exactly at the fourteen field boundaries, and without its header restores nothing |
| SaveState.RestoredReady | src/m68k/m68k.c:1876-1970 | a restored machine can be stepped exactly when the level byte it was given last is at most 7 |
| SaveState.SavedReady | src/m68k/m68k.c:1808-1970 | a saved state with a level of the interrupt lines can be run again |
| Loader.IsValidHex | src/loader.c:19-24 | all of the given characters are hexadecimal digits |
| Loader.LoaderStore | src/loader.c:31-38 | one byte on the 24-bit bus, or nothing |
| Loader.StoreRecord | src/loader.c:128-139 | consecutive bytes, ending at the first one outside memory |
| Loader.StoreOverruns | src/loader.c:128-139 | a record that runs past the end of memory stores the bytes that fit and no others |
| Loader.SrecLine | src/loader.c:53-145 | one line asks for nothing, for bytes, or for the entry point |
| Loader.LoadSrec | src/loader.c:40-146 | loading is the fold of the valid records up to the first start record |
| Loader.HexLine | src/loader.c:197-289 | one record applied under the current base; what each type does to an image is SegmentImageLoads and HexImageLoads |
| Loader.LoadIhex | src/loader.c:183-294 | loading is the fold of the valid records up to the end-of-file record |
| Loader.CorruptSrecSkipped | src/loader.c:65-85 | a record with one wrong address, data or checksum byte is skipped |
| Loader.SkippedSrecLine | src/loader.c:50-146 | a file loads as if a skipped line were not in it |
| Loader.SrecLineEnds | src/loader.c:40-64 | a record may end its line with a line feed, a carriage return, or both |
| Loader.CorruptHexSkipped | src/loader.c:210-236 | a record with one wrong byte after its count is skipped |
| Loader.SkippedHexLine | src/loader.c:194-290 | a file loads as if a skipped line were not in it |
| Loader.HexLineEnds | src/loader.c:183-209 | a record may end its line with any line feeds and carriage returns |
| Loader.SrecImageLoads | src/loader.c:40-146 | an image encoded with any address length and piece size loads back to itself |
| Loader.HexImageLoads | src/loader.c:183-294 | the same for Intel HEX with linear base records |
| Loader.SegmentImageLoads | src/loader.c:183-294 | an image cut into pieces at any segments S and offsets O with 16 * S + O their address loads back to itself, and a type-03 record makes the PC 16 * CS + IP |
| Loader.SegmentedImageLoads | src/loader.c:183-294 | every image below one megabyte can be so encoded, in pieces of any size |
| Loader.SegmentWritten | src/loader.c:253-259 | a segment record read character by character |
| Loader.ContentsWritten | src/loader.c:237-249 | a data record read character by character, digits of both cases |
| Loader.EndWritten | src/loader.c:250-252 | the end-of-file record read character by character |
| Loader.SrecDataWritten | src/loader.c:53-139 | an S-record of data read character by character |
| Loader.SrecStartWritten | src/loader.c:140-145 | an S-record of an entry point read character by character |

## Left out

- The opcode decoder is a parameter of the step: a function from opcodes to a chosen set of instructions; their dispatch charges are modelled, the 65536 encodings are not.
- Instructions outside that set (bit operations, ADD/SUB/AND/OR/EOR, NEG, EXT, LEA, PEA, MOVEP, MOVES, MOVEC, CMPM and the like): straight-line handlers that would add easy members.
- Host callbacks (wait states, function codes, hooks, memory, TAS, illegal instruction) are absent; the answer of the interrupt acknowledge callback is a parameter.
- Core.Cpu.SetIrq: a level outside 0 to 7 is stored, but is no event of the interrupt protocol; see StatusRegister.ByteLevelWritten for what servicing one would do.
- Core.Cpu.CheckInterrupts: the function code of the acknowledge cycle is not visible without a callback.
- OpsMove.WriteFaultIsPrecise: needs room for the frame and a mapped vector, as the other precise-fault lemmas do; a double fault keeps what every bus access keeps and loads the vector, but its memory is not described.
- OpsArith.ExecExtended: with Ax equal to Ay the exact state is given but not its reading as a limb.
- OpsMovem.MovemRoundTrip: is about long transfers; word transfers sign-extend and do not round-trip.
- Chains.RunChain: A7 as a byte pointer moves by two, so its limbs lie on every other byte.
- Execution.StepEx: needs an interrupt level of 0 to 7; SaveState.RestoredReady says which restored states have one.
- SaveState.RoundTrip: needs an interrupt level of one byte and cycle counters of 32 bits, which is what the fields hold; elsewhere the counters are unbounded integers.
- OpsLink.FramesRestore: displacements are even and not positive, as frames for locals are; a positive one would let the body overwrite the saved register.
- OpsLink.StackPointerFrame: displacements are even; after an odd one UNLK faults on its read.
- Reset and initialisation, the raw context copy, disassembly, file buffering and line length limits, error messages, and the binary loader.
- The test for a group-0 fault right after the opcode fetch is dropped: a faulted fetch has already unwound by then.
