/**
 One instruction step, and the scheduler that runs steps until its cycles are used up.
 */
module Execution {
  import opened Words
  import opened StatusRegister
  import opened MachineState
  import opened Interrupts
  import opened Core
  import opened Shifts
  import opened OpsControl
  import opened OpsLogic
  import opened OpsArith
  import opened OpsMove
  import opened OpsMovem
  import opened OpsLink
  import Exceptions

  /** A three-bit field of an opcode. */
  type Field = x: int | 0 <= x < 8

  /** Opcodes that are no instruction: illegal, line A and line F. */
  type UnassignedVector = x: int | x == 4 || x == 10 || x == 11 witness 4

  /** The instructions of this model, as the opcode decoder hands them to their handlers. */
  datatype Instr =
    | Nop
    | Move(size: Size, srcMode: Field, srcReg: Field, mode: Field, reg: Field)
    | Movem(toRegisters: bool, long: bool, mode: Field, reg: Field)
    | Bcc(condition: int, disp8: Byte)
    | Dbcc(condition: int, reg: Field)
    | Jmp(mode: Field, reg: Field)
    | Jsr(mode: Field, reg: Field)
    | Rte | Rtr | Stop
    | Link(reg: Field) | Unlk(reg: Field)
    | TrapNumber(number: nat)
    | Chk(dn: Field, mode: Field, reg: Field)
    | Div(isSigned: bool, dn: Field, mode: Field, reg: Field)
    | Mul(isSigned: bool, dn: Field, mode: Field, reg: Field)
    | ShiftRegister(kind: ShiftKind, size: Size, byRegister: bool, field: Field, reg: Field)
    | ShiftMemory(kind: ShiftKind, mode: Field, reg: Field)
    | Extended(subtract: bool, size: Size, ry: Field, rx: Field, memoryForm: bool)
    | Decimal(subtract: bool, ry: Field, rx: Field, memoryForm: bool)
    | Cmp(size: Size, dn: Field, mode: Field, reg: Field)
    | Cmpa(long: bool, an: Field, mode: Field, reg: Field)
    | Cmpi(size: Size, mode: Field, reg: Field)
    | LogicCcr(op: LogicOp)
    | LogicSr(op: LogicOp)
    | Unassigned(vector: UnassignedVector)

  function WordOrLong(long: bool): Size {
    if long then LongSize else WordSize
  }

  /** What the dispatcher charges on top of the handler, before an exception overrides it. */
  function DispatchCycles(i: Instr, d: Registers): int {
    match i {
      case Nop => 4
      case Move(size, _, _, mode, _) => if mode == 4 then (if size == LongSize then 2 else 0) else 4
      case Movem(_, _, _, _) => 0
      case Bcc(_, _) => 0
      case Dbcc(_, _) => 0
      case Jmp(_, _) => 0
      case Jsr(_, _) => 8
      case Rte => 20
      case Rtr => 20
      case Link(_) => 16
      case Unlk(_) => 8
      case Stop => 4
      case TrapNumber(_) => 34
      case Chk(_, _, _) => 10
      case Div(_, _, _, _) => 0
      case Mul(_, _, _, _) => 0
      case ShiftRegister(_, size, byRegister, field, _) =>
        (if size == LongSize then 8 else 6)
          + 2 * (if byRegister then d[field] % 64 else if field == 0 then 8 else field)
      case ShiftMemory(_, _, _) => 8
      case Extended(_, size, _, _, memoryForm) =>
        if memoryForm then (if size == LongSize then 16 else 8) else if size == LongSize then 8 else 4
      case Decimal(_, _, _, memoryForm) => if memoryForm then 18 else 6
      case Cmp(size, _, _, _) => if size == LongSize then 6 else 4
      case Cmpa(_, _, _, _) => 6
      case Cmpi(size, mode, _) => if size == LongSize && mode == 0 then 6 else 4
      case LogicCcr(_) => 20
      case LogicSr(_) => 20
      case Unassigned(_) => 34
    }
  }

  /** The charge at the end of a step: an exception raised on the way replaces the instruction's own. */
  function FinalCycles(i: Instr, cycles: int, thrown: int): int {
    if thrown == 4 || thrown == 7 || thrown == 8 then 34
    else if thrown == 5 then 38
    else if thrown == 6 then 0
    else if i.Jsr? && (thrown == 2 || thrown == 3) then 0
    else cycles
  }

  /** A completed handler together with its dispatch charge has used at least four cycles. */
  predicate Paid(m: Machine, m': Machine, i: Instr, cycles: int) {
    StepKeeps(m, m', 4 - FinalCycles(i, cycles, m'.nesting.thrown))
  }

  lemma PaidWhen(m: Machine, m': Machine, i: Instr, cycles: int, charge: int)
    requires charge + FinalCycles(i, cycles, m'.nesting.thrown) >= 4
    ensures StepKeeps(m, m', charge) ==> Paid(m, m', i, cycles)
  {
    StepKeepsLess(m, m', charge, 4 - FinalCycles(i, cycles, m'.nesting.thrown));
  }

  // ------------------------------------------------- what an instruction does

  predicate IsMove(i: Instr) {
    i.Move? || i.Movem? || i.Nop?
  }

  predicate IsBranch(i: Instr) {
    i.Bcc? || i.Dbcc? || i.Jmp? || i.Jsr?
  }

  predicate IsArithmetic(i: Instr) {
    i.Chk? || i.Div? || i.Mul? || IsCompare(i)
  }

  predicate IsCompare(i: Instr) {
    i.Cmp? || i.Cmpa? || i.Cmpi?
  }

  predicate IsData(i: Instr) {
    i.ShiftRegister? || i.ShiftMemory? || i.Extended? || i.Decimal?
  }

  // What stops each class of instructions, and what a completed one leaves. Every step is
  // from the state after the opcode fetch.

  function MoveStops(i: Instr, m: Machine): Option<Stop>
    requires IsMove(i)
  {
    match i
    case Nop => None
    case Move(size, srcMode, srcReg, mode, reg) => MoveStop(m, size, srcMode, srcReg, mode, reg)
    case Movem(toRegisters, long, mode, reg) => MovemStop(m, toRegisters, WordOrLong(long), mode, reg)
  }

  ghost predicate MoveEffect(i: Instr, m: Machine, m': Machine)
    requires IsMove(i)
  {
    match i
    case Nop => m' == m
    case Move(size, srcMode, srcReg, mode, reg) => MoveDone(m, size, srcMode, srcReg, mode, reg, m')
    case Movem(toRegisters, long, mode, reg) => MovemDone(m, toRegisters, WordOrLong(long), mode, reg, m')
  }

  function BranchStops(i: Instr, m: Machine): Option<Stop>
    requires IsBranch(i)
  {
    match i
    case Bcc(condition, disp8) => BccStop(m, condition, disp8)
    case Dbcc(_, _) => FetchStop(m, 1)
    case Jmp(mode, reg) => JmpStop(m, mode, reg, false)
    case Jsr(mode, reg) => JmpStop(m, mode, reg, true)
  }

  predicate BranchEffect(i: Instr, m: Machine, m': Machine)
    requires IsBranch(i)
  {
    match i
    case Bcc(condition, disp8) => BccDone(m, condition, disp8, m')
    case Dbcc(condition, reg) => DbccDone(m, condition, reg, m')
    case Jmp(mode, reg) => JmpDone(m, mode, reg, false, m')
    case Jsr(mode, reg) => JmpDone(m, mode, reg, true, m')
  }

  function ArithmeticStops(i: Instr, m: Machine): Option<Stop>
    requires IsArithmetic(i)
  {
    match i
    case Chk(_, mode, reg) => DataStop(m, mode, reg)
    case Div(_, _, mode, reg) => DataStop(m, mode, reg)
    case Mul(_, _, mode, reg) => DataStop(m, mode, reg)
    case Cmp(size, _, mode, reg) => CmpStop(m, size, mode, reg)
    case Cmpa(long, _, mode, reg) => CmpStop(m, WordOrLong(long), mode, reg)
    case Cmpi(size, mode, reg) => CmpiStop(m, size, mode, reg)
  }

  predicate ArithmeticEffect(i: Instr, m: Machine, m': Machine)
    requires IsArithmetic(i)
  {
    match i
    case Chk(dn, mode, reg) => ChkDone(m, dn, mode, reg, m')
    case Div(isSigned, dn, mode, reg) => DivDone(isSigned, dn, mode, reg, m, m')
    case Mul(isSigned, dn, mode, reg) => MulDone(isSigned, dn, mode, reg, m, m')
    case Cmp(size, dn, mode, reg) => CmpDone(false, size, dn, mode, reg, m, m')
    case Cmpa(long, an, mode, reg) => CmpDone(true, WordOrLong(long), an, mode, reg, m, m')
    case Cmpi(size, mode, reg) => CmpiDone(size, mode, reg, m, m')
  }

  function DataStops(i: Instr, m: Machine): Option<Stop>
    requires IsData(i)
  {
    match i
    case ShiftRegister(_, _, _, _, _) => None
    case ShiftMemory(_, mode, reg) => MemoryStop(m, mode, reg)
    case Extended(_, size, ry, rx, memoryForm) => ExtendedFormStop(m, size, ry, rx, memoryForm)
    case Decimal(_, ry, rx, memoryForm) => DecimalFormStop(m, ry, rx, memoryForm)
  }

  ghost predicate DataEffect(i: Instr, m: Machine, m': Machine)
    requires IsData(i)
  {
    match i
    case ShiftRegister(kind, size, byRegister, field, reg) => RegisterShifted(m, kind, size, byRegister, field, reg, m')
    case ShiftMemory(kind, mode, reg) => MemoryShifted(m, kind, mode, reg, m')
    case Extended(subtract, size, ry, rx, memoryForm) => ExtendedForm(subtract, size, ry, rx, memoryForm, m, m')
    case Decimal(subtract, ry, rx, memoryForm) => DecimalForm(subtract, ry, rx, memoryForm, m, m')
  }

  predicate IsSystem(i: Instr) {
    !IsMove(i) && !IsBranch(i) && !IsArithmetic(i) && !IsData(i)
  }

  function SystemStops(i: Instr, m: Machine): Option<Stop>
    requires IsSystem(i)
  {
    match i
    case Rte => RteStop(m)
    case Rtr => PopStop(m)
    case Link(_) => LinkStop(m)
    case Unlk(reg) => UnlkStop(m, reg)
    case Stop => PrivilegedStop(m)
    case TrapNumber(_) => None
    case LogicCcr(_) => FetchStop(m, 1)
    case LogicSr(_) => PrivilegedStop(m)
    case Unassigned(_) => None
  }

  predicate SystemEffect(i: Instr, m: Machine, m': Machine)
    requires IsSystem(i)
  {
    match i
    case Rte => RteDone(m, m')
    case Rtr => RtrDone(m, m')
    case Link(reg) => LinkDone(m, reg, m')
    case Unlk(reg) => UnlkDone(m, reg, m')
    case Stop => StopDone(m, m')
    case TrapNumber(number) => Raised(m, 32 + number, m')
    case LogicCcr(op) => CcrDone(m, op, m')
    case LogicSr(op) => SrDone(m, op, m')
    case Unassigned(vector) => Raised(m, vector, m')
  }

  /** Where the handler of an instruction is abandoned, if it is. */
  function StopOf(i: Instr, m: Machine): Option<Stop> {
    if IsMove(i) then MoveStops(i, m)
    else if IsBranch(i) then BranchStops(i, m)
    else if IsArithmetic(i) then ArithmeticStops(i, m)
    else if IsData(i) then DataStops(i, m)
    else SystemStops(i, m)
  }

  /** The effect of a handler that completes. */
  ghost predicate Effect(i: Instr, m: Machine, m': Machine) {
    if IsMove(i) then MoveEffect(i, m, m')
    else if IsBranch(i) then BranchEffect(i, m, m')
    else if IsArithmetic(i) then ArithmeticEffect(i, m, m')
    else if IsData(i) then DataEffect(i, m, m')
    else SystemEffect(i, m, m')
  }

  /** The handler of an instruction: whether it completes, and what it leaves in either case. */
  ghost predicate Performed(i: Instr, m: Machine, ok: bool, m': Machine) {
    Ends(StopOf(i, m), ok, m') && (ok ==> Effect(i, m, m'))
  }

  lemma PaidIs(m: Machine, m': Machine, i: Instr, cycles: int)
    ensures Paid(m, m', i, cycles) ==> StepKeeps(m, m', 4 - FinalCycles(i, cycles, m'.nesting.thrown))
  {
    hide StepKeeps;
  }

  method DispatchMoves(cpu: Cpu, i: Instr) returns (r: Outcome<()>)
    requires Executing(cpu.Abs()) && cpu.nesting.thrown == 0
    requires IsMove(i)
    modifies cpu, cpu.memory
    ensures Executing(cpu.Abs()) && StepKeeps(old(cpu.Abs()), cpu.Abs(), 0)
    ensures r.Ok? ==> Paid(old(cpu.Abs()), cpu.Abs(), i, DispatchCycles(i, old(cpu.d)))
    ensures Ends(MoveStops(i, old(cpu.Abs())), r.Ok?, cpu.Abs())
    ensures r.Ok? ==> MoveEffect(i, old(cpu.Abs()), cpu.Abs())
  {
    hide StepKeeps, StoppedAt, Paid, MoveStop, MoveDone, MovemStop, MovemDone;
    ghost var m := cpu.Abs();
    var cycles := DispatchCycles(i, cpu.d);
    ghost var charge := 0;
    match i {
      case Nop =>
        NothingKept(m, m);
        r := Ok(());
      case Move(size, srcMode, srcReg, mode, reg) =>
        r := ExecMove(cpu, size, srcMode, srcReg, mode, reg);
        charge := if r.Ok? && mode == 4 then 4 else 0;
      case Movem(toRegisters, long, mode, reg) =>
        r := ExecMovem(cpu, toRegisters, WordOrLong(long), mode, reg);
        charge := if r.Ok? && cpu.nesting.thrown == 0 then 8 else 0;
    }
    StepKeepsLess(m, cpu.Abs(), charge, 0);
    if r.Ok? {
      PaidWhen(m, cpu.Abs(), i, cycles, charge);
    }
  }

  method DispatchControl(cpu: Cpu, i: Instr) returns (r: Outcome<()>)
    requires Executing(cpu.Abs()) && cpu.nesting.thrown == 0
    requires IsBranch(i)
    modifies cpu, cpu.memory
    ensures Executing(cpu.Abs()) && StepKeeps(old(cpu.Abs()), cpu.Abs(), 0)
    ensures r.Ok? ==> Paid(old(cpu.Abs()), cpu.Abs(), i, DispatchCycles(i, old(cpu.d)))
    ensures Ends(BranchStops(i, old(cpu.Abs())), r.Ok?, cpu.Abs())
    ensures r.Ok? ==> BranchEffect(i, old(cpu.Abs()), cpu.Abs())
  {
    hide StepKeeps, StoppedAt, Paid, BccStop, FetchStop, JmpStop, BccDone, DbccDone, JmpDone;
    ghost var m := cpu.Abs();
    var cycles := DispatchCycles(i, cpu.d);
    match i {
      case Bcc(condition, disp8) => r := ExecBcc(cpu, condition, disp8);
      case Dbcc(condition, reg) => r := ExecDbcc(cpu, condition, reg);
      case Jmp(mode, reg) => r := ExecJmp(cpu, mode, reg, false);
      case Jsr(mode, reg) => r := ExecJmp(cpu, mode, reg, true);
    }
    if r.Ok? {
      StepKeepsLess(m, cpu.Abs(), 8, 0);
      PaidWhen(m, cpu.Abs(), i, cycles, 8);
    }
  }

  method DispatchSystem(cpu: Cpu, i: Instr) returns (r: Outcome<()>)
    requires Executing(cpu.Abs()) && cpu.nesting.thrown == 0
    requires IsSystem(i)
    modifies cpu, cpu.memory
    ensures Executing(cpu.Abs()) && StepKeeps(old(cpu.Abs()), cpu.Abs(), 0)
    ensures r.Ok? ==> Paid(old(cpu.Abs()), cpu.Abs(), i, DispatchCycles(i, old(cpu.d)))
    ensures Ends(SystemStops(i, old(cpu.Abs())), r.Ok?, cpu.Abs())
    ensures r.Ok? ==> SystemEffect(i, old(cpu.Abs()), cpu.Abs())
  {
    hide StepKeeps, StoppedAt, Paid, RteStop, PopStop, LinkStop, UnlkStop, PrivilegedStop, FetchStop, RteDone,
         RtrDone, LinkDone, UnlkDone, StopDone, CcrDone, SrDone, Raised;
    ghost var m := cpu.Abs();
    var cycles := DispatchCycles(i, cpu.d);
    match i {
      case Rte => r := ExecRte(cpu);
      case Rtr => r := ExecRtr(cpu);
      case Link(reg) => r := ExecLink(cpu, reg);
      case Unlk(reg) =>
        r := ExecUnlk(cpu, reg);
        StepKeepsLess(m, cpu.Abs(), 4, 0);
      case Stop => r := ExecStop(cpu);
      case TrapNumber(number) =>
        Trap(cpu, 32 + number);
        r := Ok(());
      case LogicCcr(op) => r := ExecLogicCcr(cpu, op);
      case LogicSr(op) => r := ExecLogicSr(cpu, op);
      case Unassigned(vector) =>
        Trap(cpu, vector);
        r := Ok(());
    }
    if r.Ok? {
      PaidWhen(m, cpu.Abs(), i, cycles, 0);
    }
  }

  method DispatchArithmetic(cpu: Cpu, i: Instr) returns (r: Outcome<()>)
    requires Executing(cpu.Abs()) && cpu.nesting.thrown == 0
    requires IsArithmetic(i) && !IsCompare(i)
    modifies cpu, cpu.memory
    ensures Executing(cpu.Abs()) && StepKeeps(old(cpu.Abs()), cpu.Abs(), 0)
    ensures r.Ok? ==> Paid(old(cpu.Abs()), cpu.Abs(), i, DispatchCycles(i, old(cpu.d)))
    ensures Ends(ArithmeticStops(i, old(cpu.Abs())), r.Ok?, cpu.Abs())
    ensures r.Ok? ==> ArithmeticEffect(i, old(cpu.Abs()), cpu.Abs())
  {
    hide StepKeeps, StoppedAt, Paid, DataStop, ChkDone, DivDone, MulDone;
    ghost var m := cpu.Abs();
    var cycles := DispatchCycles(i, cpu.d);
    ghost var charge := 0;
    match i {
      case Chk(dn, mode, reg) =>
        r := ExecChk(cpu, dn, mode, reg);
        charge := if r.Ok? && cpu.nesting.thrown == 6 then 38 else 0;
      case Div(isSigned, dn, mode, reg) =>
        r := ExecDiv(cpu, isSigned, dn, mode, reg);
        charge := if r.Ok? && cpu.nesting.thrown == 0 then 10 else 0;
      case Mul(isSigned, dn, mode, reg) =>
        r := ExecMul(cpu, isSigned, dn, mode, reg);
        charge := if r.Ok? && cpu.nesting.thrown == 0 then 38 else 0;
    }
    StepKeepsLess(m, cpu.Abs(), charge, 0);
    if r.Ok? {
      PaidWhen(m, cpu.Abs(), i, cycles, charge);
    }
  }

  method DispatchCompare(cpu: Cpu, i: Instr) returns (r: Outcome<()>)
    requires Executing(cpu.Abs()) && cpu.nesting.thrown == 0
    requires IsCompare(i)
    modifies cpu, cpu.memory
    ensures Executing(cpu.Abs()) && StepKeeps(old(cpu.Abs()), cpu.Abs(), 0)
    ensures r.Ok? ==> Paid(old(cpu.Abs()), cpu.Abs(), i, DispatchCycles(i, old(cpu.d)))
    ensures Ends(ArithmeticStops(i, old(cpu.Abs())), r.Ok?, cpu.Abs())
    ensures r.Ok? ==> ArithmeticEffect(i, old(cpu.Abs()), cpu.Abs())
  {
    hide StepKeeps, StoppedAt, Paid, CmpStop, CmpiStop, CmpDone, CmpiDone;
    ghost var m := cpu.Abs();
    var cycles := DispatchCycles(i, cpu.d);
    match i {
      case Cmp(size, dn, mode, reg) => r := ExecCmp(cpu, false, size, dn, mode, reg);
      case Cmpa(long, an, mode, reg) => r := ExecCmp(cpu, true, WordOrLong(long), an, mode, reg);
      case Cmpi(size, mode, reg) => r := ExecCmpi(cpu, size, mode, reg);
    }
    if r.Ok? {
      PaidWhen(m, cpu.Abs(), i, cycles, 0);
    }
  }

  method DispatchData(cpu: Cpu, i: Instr) returns (r: Outcome<()>)
    requires Executing(cpu.Abs()) && cpu.nesting.thrown == 0
    requires IsData(i)
    modifies cpu, cpu.memory
    ensures Executing(cpu.Abs()) && StepKeeps(old(cpu.Abs()), cpu.Abs(), 0)
    ensures r.Ok? ==> Paid(old(cpu.Abs()), cpu.Abs(), i, DispatchCycles(i, old(cpu.d)))
    ensures Ends(DataStops(i, old(cpu.Abs())), r.Ok?, cpu.Abs())
    ensures r.Ok? ==> DataEffect(i, old(cpu.Abs()), cpu.Abs())
  {
    hide StepKeeps, StoppedAt, Paid, MemoryStop, ExtendedFormStop, DecimalFormStop, RegisterShifted, MemoryShifted,
         ExtendedForm, DecimalForm, LimbReady;
    ghost var m := cpu.Abs();
    var cycles := DispatchCycles(i, cpu.d);
    match i {
      case ShiftRegister(kind, size, byRegister, field, reg) =>
        ExecShiftRegister(cpu, kind, size, byRegister, field, reg);
        r := Ok(());
      case ShiftMemory(kind, mode, reg) => r := ExecShiftMemory(cpu, kind, mode, reg);
      case Extended(subtract, size, ry, rx, memoryForm) => r := ExecExtended(cpu, subtract, size, ry, rx, memoryForm);
      case Decimal(subtract, ry, rx, memoryForm) => r := ExecDecimal(cpu, subtract, ry, rx, memoryForm);
    }
    if r.Ok? {
      PaidWhen(m, cpu.Abs(), i, cycles, 0);
    }
  }

  /** The handler of an instruction. */
  method Dispatch(cpu: Cpu, i: Instr) returns (r: Outcome<()>)
    requires Executing(cpu.Abs()) && cpu.nesting.thrown == 0
    modifies cpu, cpu.memory
    ensures Executing(cpu.Abs()) && StepKeeps(old(cpu.Abs()), cpu.Abs(), 0)
    ensures r.Ok? ==> Paid(old(cpu.Abs()), cpu.Abs(), i, DispatchCycles(i, old(cpu.d)))
    ensures Performed(i, old(cpu.Abs()), r.Ok?, cpu.Abs())
  {
    hide StepKeeps, StoppedAt, DispatchCycles, MoveStops, BranchStops, ArithmeticStops, DataStops, SystemStops,
         MoveEffect, BranchEffect, ArithmeticEffect, DataEffect, SystemEffect, Paid;
    if IsMove(i) {
      r := DispatchMoves(cpu, i);
    } else if IsBranch(i) {
      r := DispatchControl(cpu, i);
    } else if IsCompare(i) {
      r := DispatchCompare(cpu, i);
    } else if IsArithmetic(i) {
      r := DispatchArithmetic(cpu, i);
    } else if IsData(i) {
      r := DispatchData(cpu, i);
    } else {
      r := DispatchSystem(cpu, i);
    }
  }

  // ------------------------------------------------------ instruction timing

  /** The bus words of an operand in memory. */
  function MemoryWords(mode: int, reg: int, size: Size): int {
    if !MemoryMode(mode, reg) then 0 else if size == LongSize then 2 else 1
  }

  predicate Indexed(mode: int, reg: int) {
    mode == 6 || (mode == 7 && reg == 3)
  }

  /**
   What an instruction costs when it raises no exception: four cycles for each word it
   fetches, reads or writes, and its internal cycles.
   */
  function Timing(i: Instr, m: Machine): int {
    match i {
      case Nop => 4
      case Move(size, srcMode, srcReg, mode, reg) =>
        4 * (1 + ExtensionWords(srcMode, srcReg, size) + ExtensionWords(mode, reg, size)
             + MemoryWords(srcMode, srcReg, size) + MemoryWords(mode, reg, size))
        + (if srcMode == 4 || Indexed(srcMode, srcReg) then 2 else 0) + (if Indexed(mode, reg) then 2 else 0)
      case Movem(toRegisters, long, mode, reg) =>
        4 * (2 + ExtensionWords(mode, reg, WordSize) + (if toRegisters then 1 else 0))
        + (if Indexed(mode, reg) then 2 else 0) + (if long then 8 else 4) * Ones(WordAt(m, m.pc))
      case Bcc(condition, disp8) =>
        if condition == 1 then 18 else if Condition(m.sr, condition) then 10 else if disp8 == 0 then 12 else 8
      case Dbcc(condition, reg) =>
        if Condition(m.sr, condition) then 12 else if m.d[reg] % 0x1_0000 == 0 then 14 else 10
      case Jmp(mode, reg) => 8 + 2 * ExtensionWords(mode, reg, LongSize) + (if Indexed(mode, reg) then 4 else 0)
      case Jsr(mode, reg) => 16 + 2 * ExtensionWords(mode, reg, LongSize) + (if Indexed(mode, reg) then 4 else 0)
      case Rte => 20
      case Rtr => 20
      case Link(_) => 16
      case Unlk(_) => 12
      case Stop => 4
      case TrapNumber(_) => 34
      case Chk(_, mode, reg) => 10 + EaCycles(mode, reg, WordSize)
      case Div(isSigned, dn, mode, reg) =>
        var divisor := OperandValue(m, mode, reg, WordSize) % 0x1_0000;
        EaCycles(mode, reg, WordSize) + if divisor == 0 then 38 else DivCost(isSigned, m.d[dn], divisor)
      case Mul(isSigned, _, mode, reg) =>
        var w := OperandValue(m, mode, reg, WordSize) % 0x1_0000;
        38 + EaCycles(mode, reg, WordSize) + 2 * (if isSigned then Transitions(w, 16) else Ones(w))
      case ShiftRegister(_, size, byRegister, field, _) =>
        (if size == LongSize then 8 else 6)
        + 2 * (if byRegister then m.d[field] % 64 else if field == 0 then 8 else field)
      case ShiftMemory(_, mode, reg) => 8 + EaCycles(mode, reg, WordSize)
      case Extended(_, size, _, _, memoryForm) =>
        if memoryForm then (if size == LongSize then 30 else 18) else if size == LongSize then 8 else 4
      case Decimal(_, _, _, memoryForm) => if memoryForm then 18 else 6
      case Cmp(size, _, mode, reg) => (if size == LongSize then 6 else 4) + EaCycles(mode, reg, size)
      case Cmpa(long, _, mode, reg) => 6 + EaCycles(mode, reg, if long then LongSize else WordSize)
      case Cmpi(size, mode, reg) =>
        (if size != LongSize then 8 else if mode == 0 then 14 else 12) + EaCycles(mode, reg, size)
      case LogicCcr(_) => 20
      case LogicSr(_) => 20
      case Unassigned(_) => 34
    }
  }

  /** The cycles of a handler and its dispatch charge. */
  function Spent(i: Instr, m: Machine, m': Machine): int {
    m.slice.remaining - m'.slice.remaining + FinalCycles(i, DispatchCycles(i, m.d), m'.nesting.thrown)
  }

  /** The instruction completed and raised nothing. */
  predicate Plain(m: Machine, m': Machine) {
    m'.history.raised == m.history.raised && m'.nesting.thrown == 0
  }

  lemma RaisedIsNotPlain(m: Machine, n: Machine, vector: int, m': Machine)
    requires n.history == m.history
    ensures Raised(n, vector, m') ==> !Plain(m, m')
  {
    hide BusKeeps, VectorLoaded, Stackable, FlagS, Clean;
  }

  lemma FaultIsNotPlain(m: Machine, n: Machine, vector: int, address: Long, isWrite: bool, isProgram: bool, m': Machine)
    requires n.history == m.history
    ensures AfterFault(n, vector, address, isWrite, isProgram, m') ==> !Plain(m, m')
  {
    hide BusKeeps, VectorLoaded, Stackable, Guarded;
  }

  lemma MoveTiming(i: Instr, m: Machine, m': Machine)
    requires i.Move? && (ValidDestination(i.mode, i.reg, i.size) ==> ValidMode(i.srcMode, i.srcReg))
    ensures MoveEffect(i, m, m') && Plain(m, m') ==> Spent(i, m, m') == Timing(i, m)
  {
    hide OperandValue, EaRegisters, EaFault, EaAddress, Raised, Written, WriteLatch, CommitLatch, MoveSr, EaCycles,
         MemoryMode, Extend, Merge;
    RaisedIsNotPlain(m, m, 4, m');
    if ValidDestination(i.mode, i.reg, i.size) {
      EaCyclesCount(i.srcMode, i.srcReg, i.size);
      EaCyclesCount(i.mode, i.reg, i.size);
    }
  }

  lemma MovemTiming(i: Instr, m: Machine, m': Machine)
    requires i.Movem?
    ensures MoveEffect(i, m, m') && Plain(m, m') ==> Spent(i, m, m') == Timing(i, m)
  {
    hide Raised, MovemProgress, MovemEnd, Transferred, TransferRoom, Offset, Ones, WordAt, MovemLead, ExtensionWords;
    var size, down := WordOrLong(i.long), i.mode == 4;
    RaisedIsNotPlain(m, m, 4, m');
    if MovemMode(i.toRegisters, i.mode, i.reg) {
      LeadCount(i.mode, i.reg, i.toRegisters);
      BlockSize(WordAt(m, m.pc), down, size);
    }
  }

  lemma PlainThrown(m: Machine, m': Machine)
    ensures Plain(m, m') ==> m'.nesting.thrown == 0
  {
  }

  lemma TargetIsNotPlain(m: Machine, n: Machine, target: Long, faultPc: Long, cycles: int, m': Machine)
    requires n.history == m.history
    ensures TargetFault(n, target, faultPc, cycles, m') ==> !Plain(m, m')
  {
    hide AfterFault, Plain;
    FaultIsNotPlain(m, WithFaultPc(Charged(n, 50 + cycles), faultPc), if Odd(target) then 3 else 2, target, false, true,
                    m');
  }

  lemma BccTiming(i: Instr, m: Machine, m': Machine)
    requires i.Bcc?
    ensures BccDone(m, i.condition, i.disp8, m') && Plain(m, m') ==> Spent(i, m, m') == Timing(i, m)
  {
    hide Condition, BranchTarget, Pushed, TargetFault, Plus, Plain;
    var next, target := m.(pc := BranchNext(m, i.disp8)), BranchTarget(m, i.disp8);
    var pushed := Pushed(next, next.pc, LongSize);
    PushedRest(next, next.pc, LongSize);
    TargetIsNotPlain(m, next, target, Plus(m.ppc, 2), 10, m');
    TargetIsNotPlain(m, pushed, target, target, 18, m');
    PlainThrown(m, m');
  }

  lemma DbccTiming(i: Instr, m: Machine, m': Machine)
    requires i.Dbcc?
    ensures DbccDone(m, i.condition, i.reg, m') && Plain(m, m') ==> Spent(i, m, m') == Timing(i, m)
  {
    hide Condition, BranchTarget, TargetFault, Plus, Plain, Merge, Minus;
    var next := m.(pc := Plus(m.pc, 2));
    TargetIsNotPlain(m, next, BranchTarget(m, 0), next.pc, 10, m');
    PlainThrown(m, m');
  }

  lemma JumpTiming(i: Instr, m: Machine, m': Machine)
    requires (i.Jmp? || i.Jsr?) && ControlMode(i.mode, i.reg)
    ensures JmpDone(m, i.mode, i.reg, i.Jsr?, m') && Plain(m, m') ==> Spent(i, m, m') == Timing(i, m)
  {
    hide EaAddress, EaFault, EaRegisters, Pushed, TargetFault, Plus, Plain, ExtensionWords, ControlEaCycles;
    var e, target := AtTarget(m, i.mode, i.reg), EaAddress(m, i.mode, i.reg, LongSize);
    EaCyclesCount(i.mode, i.reg, LongSize);
    PushedRest(e, e.pc, LongSize);
    TargetIsNotPlain(m, e, target, e.pc, 0, m');
    TargetIsNotPlain(m, e, target, Plus(m.ppc, 2), 0, m');
    PlainThrown(m, m');
  }

  lemma CheckTiming(i: Instr, m: Machine, m': Machine)
    requires i.Chk?
    ensures ArithmeticEffect(i, m, m') && Plain(m, m') ==> Spent(i, m, m') == Timing(i, m)
  {
    hide OperandValue, EaRegisters, EaFault, EaCycles, Raised, Plain, FlagX, WithNZVC, Signed, ChkCost, DataMode;
    var src, bound := Signed(m.d[i.dn], WordSize), Signed(OperandValue(m, i.mode, i.reg, WordSize), WordSize);
    var e := AfterOperand(m, i.mode, i.reg, WordSize).(sr := WithNZVC(m.sr, src < 0, false, false, false));
    RaisedIsNotPlain(m, m, 4, m');
    RaisedIsNotPlain(m, Charged(e, ChkCost(src, bound)), 6, m');
    PlainThrown(m, m');
  }

  lemma DivTiming(i: Instr, m: Machine, m': Machine)
    requires i.Div?
    ensures ArithmeticEffect(i, m, m') && Plain(m, m') ==> Spent(i, m, m') == Timing(i, m)
  {
    hide OperandValue, EaRegisters, EaFault, EaCycles, Raised, Plain, Divided, DivCost, DataMode;
    RaisedIsNotPlain(m, m, 4, m');
    RaisedIsNotPlain(m, AfterOperand(m, i.mode, i.reg, WordSize), 5, m');
    PlainThrown(m, m');
  }

  lemma MulTiming(i: Instr, m: Machine, m': Machine)
    requires i.Mul?
    ensures ArithmeticEffect(i, m, m') && Plain(m, m') ==> Spent(i, m, m') == Timing(i, m)
  {
    hide OperandValue, EaRegisters, EaFault, EaCycles, Raised, Plain, FlagsAre, FlagX, MulPattern, Transitions, Ones,
         Signed, DataMode;
    var w := Low(OperandValue(m, i.mode, i.reg, WordSize), WordSize);
    RaisedIsNotPlain(m, m, 4, m');
    PatternCounts(w);
    PatternIs(w);
    PlainThrown(m, m');
  }

  lemma CompareTiming(i: Instr, m: Machine, m': Machine)
    requires IsCompare(i)
    ensures ArithmeticEffect(i, m, m') && Plain(m, m') ==> Spent(i, m, m') == Timing(i, m)
  {
    hide OperandValue, EaRegisters, EaFault, EaCycles, Raised, Plain, ComparedSr, Plus, Immediate;
    RaisedIsNotPlain(m, m, 4, m');
    PlainThrown(m, m');
  }

  lemma ShiftTiming(i: Instr, m: Machine, m': Machine)
    requires i.ShiftRegister? || i.ShiftMemory?
    ensures DataEffect(i, m, m') && Plain(m, m') ==> Spent(i, m, m') == Timing(i, m)
  {
    hide OperandValue, EaAddress, EaRegisters, EaFault, EaCycles, Raised, Plain, ShiftDone, Merge, Splice, BusValue,
         Mapped;
    RaisedIsNotPlain(m, m, 4, m');
    PlainThrown(m, m');
  }

  lemma ChainTiming(i: Instr, m: Machine, m': Machine)
    requires i.Extended? || i.Decimal?
    ensures DataEffect(i, m, m') && Plain(m, m') ==> Spent(i, m, m') == Timing(i, m)
  {
    hide Plain, Merge, LimbReady, ExtendedSr, ExtendedResult, DecimalSr, DecimalResult, PredecValue, PredecAddress,
         Stored, Plus;
    PlainThrown(m, m');
    if i.Extended? && i.memoryForm {
      var b := BothRead(m, i.ry, i.rx, i.size);
      var src, dest := PredecValue(m, i.ry, i.size), PredecValue(Predecremented(m, i.ry, i.size), i.rx, i.size);
      StoredRest(b, b.a[i.rx], ExtendedResult(i.subtract, src, dest, Carry(m.sr)), i.size);
    }
    if i.Decimal? && i.memoryForm {
      var m2 := Predecremented(Predecremented(m, i.ry, ByteSize), i.rx, ByteSize);
      var src, dest := PredecValue(m, i.ry, ByteSize), PredecValue(Predecremented(m, i.ry, ByteSize), i.rx, ByteSize);
      if src < 0x100 && dest < 0x100 {
        StoredRest(m2, m2.a[i.rx], DecimalResult(i.subtract, src, dest, m.sr).result, ByteSize);
      }
    }
  }

  lemma SystemTiming(i: Instr, m: Machine, m': Machine)
    requires IsSystem(i)
    ensures SystemEffect(i, m, m') && Plain(m, m') ==> Spent(i, m, m') == Timing(i, m)
  {
    hide Resumed, BusValue, Raised, Plain, SetSr, WithCcr, WordSr, CcrAfter, Combine, Pushed, Plus, WordAt, Signed,
         FlagS, BadFormat;
    RaisedIsNotPlain(m, OnInstruction(m), 8, m');
    RaisedIsNotPlain(m, OnInstruction(m), 14, m');
    if i.TrapNumber? {
      RaisedIsNotPlain(m, m, 32 + i.number, m');
    }
    if i.Unassigned? {
      RaisedIsNotPlain(m, m, i.vector, m');
    }
    PlainThrown(m, m');
    ResumedSlice(m);
    SetSrSlice(m.(pc := Plus(m.pc, 2), lines := m.lines.(stopped := true)), WordSr(WordAt(m, m.pc)));
    if i.LogicSr? {
      SetSrSlice(m.(pc := Plus(m.pc, 2)), Combine(i.op, m.sr, WordSr(WordAt(m, m.pc))));
    }
    if i.Link? {
      var next := m.(pc := Plus(m.pc, 2));
      PushedRest(next, next.a[i.reg], LongSize);
    }
  }

  lemma SetSrSlice(m: Machine, sr: bv16)
    ensures SetSr(m, sr).slice == m.slice
  {
  }

  /** A completed instruction has resolved its operand. */
  lemma CompletedSource(i: Instr, m: Machine)
    requires i.Move? && StopOf(i, m).None?
    ensures ValidDestination(i.mode, i.reg, i.size) ==> ValidMode(i.srcMode, i.srcReg)
  {
    hide ResolveStop, ValueStop, AfterOperand, OperandValue;
    EaStopNone(Charged(m, EaShare(i.srcMode, i.srcReg, i.size)), i.srcMode, i.srcReg, i.size, true);
  }

  lemma CompletedJump(i: Instr, m: Machine)
    requires (i.Jmp? || i.Jsr?) && StopOf(i, m).None?
    ensures ControlMode(i.mode, i.reg)
  {
    hide EaStop, PushStop, AtTarget;
  }

  /** Every instruction that completes without an exception costs what its words and internal cycles add up to. */
  lemma InstructionTiming(i: Instr, m: Machine, m': Machine)
    requires Performed(i, m, true, m') && Plain(m, m')
    ensures Spent(i, m, m') == Timing(i, m)
  {
    hide StopOf, MoveDone, MovemDone, BccDone, DbccDone, JmpDone, ArithmeticEffect, DataEffect, SystemEffect, Spent,
         Timing, Plain;
    match i
    case Nop => NopTiming(m, m');
    case Move(_, _, _, _, _) => CompletedSource(i, m); MoveTiming(i, m, m');
    case Movem(_, _, _, _) => MovemTiming(i, m, m');
    case Bcc(_, _) => BccTiming(i, m, m');
    case Dbcc(_, _) => DbccTiming(i, m, m');
    case Jmp(_, _) => CompletedJump(i, m); JumpTiming(i, m, m');
    case Jsr(_, _) => CompletedJump(i, m); JumpTiming(i, m, m');
    case Chk(_, _, _) => CheckTiming(i, m, m');
    case Div(_, _, _, _) => DivTiming(i, m, m');
    case Mul(_, _, _, _) => MulTiming(i, m, m');
    case Cmp(_, _, _, _) => CompareTiming(i, m, m');
    case Cmpa(_, _, _, _) => CompareTiming(i, m, m');
    case Cmpi(_, _, _) => CompareTiming(i, m, m');
    case ShiftRegister(_, _, _, _, _) => ShiftTiming(i, m, m');
    case ShiftMemory(_, _, _) => ShiftTiming(i, m, m');
    case Extended(_, _, _, _, _) => ChainTiming(i, m, m');
    case Decimal(_, _, _, _) => ChainTiming(i, m, m');
    case _ => SystemTiming(i, m, m');
  }

  lemma NopTiming(m: Machine, m': Machine)
    ensures m' == m && Plain(m, m') ==> Spent(Nop, m, m') == Timing(Nop, m)
  {
  }

  /** The instructions that trap instead: an encoding or a privilege that is not there, or a trap of their own. */
  predicate Traps(i: Instr, m: Machine) {
    match i
    case Move(size, _, _, mode, reg) => !ValidDestination(mode, reg, size)
    case Movem(toRegisters, _, mode, reg) => !MovemMode(toRegisters, mode, reg)
    case Rte => !FlagS(m.sr)
    case Stop => !FlagS(m.sr)
    case LogicSr(_) => !FlagS(m.sr)
    case TrapNumber(_) => true
    case Unassigned(_) => true
    case Chk(_, mode, reg) => !DataMode(mode, reg)
    case Div(_, _, mode, reg) => !DataMode(mode, reg)
    case Mul(_, _, mode, reg) => !DataMode(mode, reg)
    case ShiftMemory(_, mode, reg) => !AlterableMemory(mode, reg)
    case Cmp(size, _, mode, reg) => !CmpMode(mode, reg, size)
    case Cmpa(long, _, mode, reg) => !CmpMode(mode, reg, if long then LongSize else WordSize)
    case Cmpi(_, mode, reg) => !CmpiMode(mode, reg)
    case _ => false
  }

  lemma RaisedSpends(n: Machine, vector: int, m': Machine)
    ensures Raised(n, vector, m') && n.nesting.thrown == 0 && vector != 0 ==>
      m'.slice == n.slice && m'.nesting.thrown == vector
  {
    hide VectorLoaded, Stackable, FlagS, Clean, Raise, SrKeeps;
  }

  /** A trap costs 34 cycles, whatever the instruction. */
  lemma TrapTiming(i: Instr, m: Machine, m': Machine)
    requires Traps(i, m) && m.nesting.thrown == 0
    ensures Effect(i, m, m') ==> Spent(i, m, m') == 34
  {
    hide Raised, FlagS, DataMode, CmpMode, CmpiMode, AlterableMemory, MovemMode, ValidDestination, MovemMoved,
         ValueMoved, Divided, OperandValue, AfterOperand, SetSr, Resumed, BadFormat, FlagsAre, ComparedSr, ShiftDone;
    RaisedSpends(m, 4, m');
    RaisedSpends(OnInstruction(m), 8, m');
    if i.TrapNumber? {
      RaisedSpends(m, 32 + i.number, m');
    }
    if i.Unassigned? {
      RaisedSpends(m, i.vector, m');
    }
  }

  /** A division by zero costs 38 cycles on top of its operand. */
  lemma ZeroDivideTiming(i: Instr, m: Machine, m': Machine)
    requires i.Div? && DataMode(i.mode, i.reg) && OperandValue(m, i.mode, i.reg, WordSize) % 0x1_0000 == 0
    requires m.nesting.thrown == 0
    ensures Effect(i, m, m') ==> Spent(i, m, m') == 38 + EaCycles(i.mode, i.reg, WordSize)
  {
    hide Raised, OperandValue, EaRegisters, EaFault, EaCycles, Divided;
    RaisedSpends(AfterOperand(m, i.mode, i.reg, WordSize), 5, m');
  }

  // ------------------------------------------------------------------- steps

  /**
   What any stretch of a run keeps: the memory size, the control registers, the
   implemented bits of the status register, at most three nested exceptions, and
   supervisor state entered only by an exception. It has charged at least so many cycles.
   */
  predicate RunKeeps(m: Machine, m': Machine, charge: int) {
    && |m'.mem| == |m.mem| && m'.control == m.control && m'.slice.target == m.slice.target
    && m'.slice.remaining <= m.slice.remaining - charge
    && m.history.raised <= m'.history.raised && (Clean(m.sr) ==> Clean(m'.sr))
    && m'.history.peak <= Max(m.history.peak, 3)
    && (m'.history.raised == m.history.raised && FlagS(m'.sr) ==> FlagS(m.sr))
  }

  predicate LinesKept(m: Machine, m': Machine) {
    m'.lines == m.lines.(stopped := m'.lines.stopped)
  }

  /** Between steps nothing is nested. */
  predicate Ready(m: Machine) {
    m.nesting.depth == 0 && 0 <= m.lines.level < 8
  }

  lemma RunKeepsTransitive(a: Machine, b: Machine, c: Machine, x: int, y: int)
    ensures RunKeeps(a, b, x) && RunKeeps(b, c, y) ==> RunKeeps(a, c, x + y)
    ensures LinesKept(a, b) && LinesKept(b, c) ==> LinesKept(a, c)
  {
    hide FlagS, Clean;
  }

  lemma RunKeepsLess(a: Machine, b: Machine, more: int, less: int)
    requires less <= more
    ensures RunKeeps(a, b, more) ==> RunKeeps(a, b, less)
  {
    hide FlagS, Clean;
  }

  lemma StepIsRun(a: Machine, b: Machine, charge: int)
    requires a.nesting.depth == 0
    ensures StepKeeps(a, b, charge) ==> RunKeeps(a, b, charge) && LinesKept(a, b) && b.nesting.depth == 0
  {
    hide FlagS, Clean;
  }

  /** Flags and latches of the step, none of which a run is about. */
  lemma LatchesAreRun(a: Machine, b: Machine)
    requires b == a.(nesting := b.nesting, fault := b.fault, ppc := b.ppc, ir := b.ir)
    ensures RunKeeps(a, b, 0) && LinesKept(a, b) && ViewOf(b) == ViewOf(a)
  {
  }

  lemma ChargeIsRun(a: Machine, cycles: int)
    ensures RunKeeps(a, Charged(a, cycles), cycles) && LinesKept(a, Charged(a, cycles))
            && ViewOf(Charged(a, cycles)) == ViewOf(a)
  {
  }

  /** The transient flags a step starts with. */
  function Begun(m: Machine): Machine {
    m.(nesting := m.nesting.(thrown := 0, addressError := false, busError := false, group0 := false, trap := false),
       fault := m.fault.(programAccess := false, valid := false))
  }

  method BeginStep(cpu: Cpu)
    modifies cpu`nesting, cpu`fault
    ensures cpu.Abs() == Begun(old(cpu.Abs()))
  {
    cpu.nesting := cpu.nesting.(thrown := 0, addressError := false, busError := false, group0 := false, trap := false);
    cpu.fault := cpu.fault.(programAccess := false, valid := false);
  }

  /** A serviced step: the service, then its 44 cycles. */
  predicate ServiceStep(m: Machine, ack: Ack, entered: Machine, m': Machine)
    requires 0 <= m.lines.level < 8
  {
    Serviced(m, ack, entered, Charged(m', -44))
  }

  lemma ServiceIsRun(m: Machine, ack: Ack, entered: Machine, s: Machine)
    requires Ready(m) && Due(ViewOf(m))
    ensures Serviced(m, ack, entered, s) ==>
      var m' := Charged(s, 44);
      && RunKeeps(m, m', 44) && Ready(m') && ServiceStep(m, ack, entered, m')
      && Happens(ViewOf(m), Serve(m.lines.level, ack), ViewOf(m'))
  {
    MaskWritten(entered.sr, m.lines.level);
    hide FlagS, Clean, WithMask, VectorLoaded, Stackable, Raise;
  }

  /** Services a due interrupt for 44 cycles. */
  method TryInterrupt(cpu: Cpu, ack: Ack) returns (taken: bool, ghost entered: Machine)
    requires Ready(cpu.Abs())
    modifies cpu, cpu.memory
    ensures taken == Due(ViewOf(old(cpu.Abs())))
    ensures !taken ==> cpu.Abs() == old(cpu.Abs())
    ensures taken ==> RunKeeps(old(cpu.Abs()), cpu.Abs(), 44) && Ready(cpu.Abs())
    ensures taken ==> Happens(ViewOf(old(cpu.Abs())), Serve(old(cpu.lines.level), ack), ViewOf(cpu.Abs()))
    ensures taken ==> ServiceStep(old(cpu.Abs()), ack, entered, cpu.Abs())
  {
    hide BusKeeps, RunKeeps, Happens, Due, Serviced, ServiceStep;
    ghost var m := cpu.Abs();
    taken, entered := cpu.CheckInterrupts(ack);
    if taken {
      ServiceIsRun(m, ack, entered, cpu.Abs());
      cpu.Charge(44);
    }
  }

  /** The fault trap armed, before the opcode is fetched. */
  function Armed(m: Machine): Machine {
    m.(ppc := m.pc, fault := m.fault.(pcValid := false), nesting := m.nesting.(trap := true))
  }

  /** The state in which the handler of a fetched instruction starts. */
  function Started(a: Machine): Machine {
    a.(pc := Plus(a.pc, 2), ir := WordAt(a, a.pc))
  }

  function Disarmed(m: Machine): Machine {
    m.(nesting := m.nesting.(trap := false))
  }

  /** What stops an instruction from its opcode fetch on. */
  function InstructionStop(decoder: Word -> Instr, a: Machine): Option<Stop> {
    First(FetchStop(a, 1), StopOf(decoder(Started(a).ir), Started(a)))
  }

  /**
   The end of a completed instruction: an odd PC raises an address error that stacks the
   instruction's address plus two, tracing raises vector 9 unless a group-0 fault or STOP
   came first, and the charge is on top of either.
   */
  predicate Finished(done: Machine, cycles: int, traced: bool, m': Machine) {
    var d := Disarmed(done);
    if Odd(d.pc) then AfterFault(WithFaultPc(Charged(d, 50 + cycles), Plus(d.ppc, 2)), 3, d.pc, false, true, m')
    else if traced && !d.nesting.group0 && !d.lines.stopped then Raised(Charged(d, cycles), 9, m')
    else m' == Charged(d, cycles)
  }

  /**
   A whole instruction step from the armed state a to m': the opcode fetch and the handler
   of the decoded instruction leave done, and an abandoned instruction is then charged as an
   abort, a completed one finished with its final cycles.
   */
  ghost predicate Stepped(decoder: Word -> Instr, a: Machine, traced: bool, done: Machine, m': Machine) {
    var stop := InstructionStop(decoder, a);
    if stop.Some? then
      StoppedAt(stop.value, done) && m' == Charged(Disarmed(done), if done.nesting.group0 then 54 else 34)
    else
      var i, start := decoder(Started(a).ir), Started(a);
      && Effect(i, start, done)
      && Finished(done, FinalCycles(i, DispatchCycles(i, start.d), done.nesting.thrown), traced, m')
  }

  /**
   A faulted opcode fetch is precise: the frame shows a program-space read at the PC and
   stacks that PC, whatever the latches of earlier faults held, and no register but A7 moves.
   */
  lemma FetchFaultIsPrecise(decoder: Word -> Instr, m: Machine, vector: int, done: Machine)
    requires FaultVector(Begun(m), m.pc, WordSize) == Some(vector)
    requires Exceptions.FaultRoom(Armed(Begun(m)), vector)
    ensures InstructionStop(decoder, Armed(Begun(m))).Some?
    ensures StoppedAt(InstructionStop(decoder, Armed(Begun(m))).value, done) ==>
      var base := Minus(SupervisorSp(m), 14);
      var at := Mask24(base);
      && at + 14 <= |m.mem| && SameOutside(m.mem, done.mem, at, at + 14)
      && StatusShown(Get16(done.mem, at), BusWord(m), false, FlagS(m.sr), true)
      && Get32(done.mem, at + 2) == m.pc && Get16(done.mem, at + 8) == SrWord(m.sr) && Get32(done.mem, at + 10) == m.pc
      && done.d == m.d && done.a == SetRegister(m.a, 7, base) && Exceptions.Handled(m, vector, at, done)
  {
    hide StopOf, AfterFault, Mask24, Minus, Get16, Get32, SrWord, FlagS, StatusShown, Exceptions.Handled,
         Exceptions.FaultRoom, UserSp;
    var a := Armed(Begun(m));
    FaultNumber(Begun(m), m.pc, WordSize);
    Exceptions.FaultIsPrecise(a, vector, m.pc, false, true, done);
    Exceptions.HandledSame(m, a, vector, Mask24(Minus(SupervisorSp(m), 14)), done);
  }

  /** Fetch, decode and dispatch; the result is the charge still to come. */
  method Attempt(cpu: Cpu, decoder: Word -> Instr) returns (r: Outcome<int>)
    requires Executing(cpu.Abs()) && cpu.nesting.thrown == 0
    modifies cpu, cpu.memory
    ensures Executing(cpu.Abs()) && StepKeeps(old(cpu.Abs()), cpu.Abs(), if r.Ok? then 4 - r.value else 0)
    ensures Ends(InstructionStop(decoder, old(cpu.Abs())), r.Ok?, cpu.Abs())
    ensures r.Ok? ==>
      var start := Started(old(cpu.Abs()));
      var i := decoder(start.ir);
      Effect(i, start, cpu.Abs()) && r.value == FinalCycles(i, DispatchCycles(i, start.d), cpu.nesting.thrown)
  {
    hide StepKeeps, StoppedAt, FetchStop, WordAt, StopOf, Effect, Paid, Plus, DispatchCycles, FinalCycles,
         FaultVector;
    ghost var m := cpu.Abs();
    var opcode :- cpu.Fetch();
    ghost var m1 := cpu.Abs();
    cpu.ir := opcode;
    ghost var m2 := cpu.Abs();
    IrKeeps(m1, m2);
    StepKeepsTransitive(m, m1, m2, 0, 0);
    var i := decoder(opcode);
    var cycles := DispatchCycles(i, cpu.d);
    var done := Dispatch(cpu, i);
    StepKeepsTransitive(m, m2, cpu.Abs(), 0, 0);
    if done.Abort? {
      return Abort;
    }
    var final := FinalCycles(i, cycles, cpu.nesting.thrown);
    PaidIs(m2, cpu.Abs(), i, cycles);
    StepKeepsTransitive(m, m2, cpu.Abs(), 0, 4 - final);
    return Ok(final);
  }

  lemma IrKeeps(a: Machine, b: Machine)
    requires b == a.(ir := b.ir)
    ensures StepKeeps(a, b, 0)
  {
  }

  /** A completed instruction: the fault of an odd target, then trace, then the charge. */
  method FinishStep(cpu: Cpu, cycles: int, traced: bool)
    requires Executing(cpu.Abs())
    modifies cpu, cpu.memory
    ensures RunKeeps(old(cpu.Abs()), cpu.Abs(), cycles) && LinesKept(old(cpu.Abs()), cpu.Abs())
            && cpu.nesting.depth == 0
    ensures Finished(old(cpu.Abs()), cycles, traced, cpu.Abs())
  {
    hide RunKeeps, StepKeeps, LinesKept, BusKeeps, AfterFault, Raised, Plus;
    ghost var m := cpu.Abs();
    cpu.nesting := cpu.nesting.(trap := false);
    ghost var m1 := cpu.Abs();
    LatchesAreRun(m, m1);
    if Odd(cpu.pc) && !cpu.nesting.addressError {
      OddTarget(cpu, cycles);
      FaultSets(WithFaultPc(Charged(m1, 50), Plus(m1.ppc, 2)), 3, m1.pc, false, true, cpu.Abs());
      FaultCharged(WithFaultPc(Charged(m1, 50), Plus(m1.ppc, 2)), 3, m1.pc, false, true, cpu.Abs(), cycles);
      StepIsRun(m1, cpu.Abs(), 0);
    } else {
      NothingKept(m1, m1);
      StepIsRun(m1, m1, 0);
    }
    ghost var m2 := cpu.Abs();
    RunKeepsTransitive(m, m1, m2, 0, 0);
    if !cpu.nesting.group0 && traced && !cpu.lines.stopped {
      cpu.Exception(9);
      RaisedKeeps(m2, 9, cpu.Abs());
      RaisedCharged(m2, 9, cpu.Abs(), cycles);
      StepIsRun(m2, cpu.Abs(), 0);
      RunKeepsTransitive(m, m2, cpu.Abs(), 0, 0);
    }
    ghost var m3 := cpu.Abs();
    cpu.Charge(cycles);
    ChargeIsRun(m3, cycles);
    RunKeepsTransitive(m, m3, cpu.Abs(), 0, cycles);
  }

  lemma FaultSets(m: Machine, vector: int, address: Long, isWrite: bool, isProgram: bool, m': Machine)
    ensures AfterFault(m, vector, address, isWrite, isProgram, m') ==> m'.nesting.group0
  {
    hide BusKeeps, VectorLoaded, Stackable;
  }

  lemma RaisedKeeps(m: Machine, vector: int, m': Machine)
    ensures Raised(m, vector, m') ==> StepKeeps(m, m', 0) && m'.nesting.depth == m.nesting.depth
  {
    BusIsStep(m, m', 1);
    hide FlagS, Clean, VectorLoaded, Stackable, Raise, StepKeeps, SrKeeps;
  }

  method OddTarget(cpu: Cpu, ghost cycles: int)
    requires cpu.nesting.depth == 0 && !cpu.nesting.addressError && Odd(cpu.pc)
    modifies cpu, cpu.memory
    ensures StepKeeps(old(cpu.Abs()), cpu.Abs(), 0) && cpu.nesting.depth == 0
    ensures var m := old(cpu.Abs());
            AfterFault(WithFaultPc(Charged(m, 50), Plus(m.ppc, 2)), 3, m.pc, false, true, cpu.Abs())
  {
    ghost var m := cpu.Abs();
    cpu.RaiseTargetFault(3, cpu.pc, Plus(cpu.ppc, 2));
    StepKeepsLess(m, cpu.Abs(), 50, 0);
    hide AfterFault, SrKeeps;
  }

  /** The cost of an instruction that was abandoned: a group-0 fault, or an illegal encoding. */
  function AbortCycles(group0: bool): int {
    if group0 then 54 else 34
  }

  /** One instruction, from the armed fault trap to the final charge. */
  method RunInstruction(cpu: Cpu, decoder: Word -> Instr, check: bool) returns (ghost done: Machine)
    requires Ready(cpu.Abs()) && !cpu.nesting.addressError && !cpu.nesting.busError && cpu.nesting.thrown == 0
    modifies cpu, cpu.memory
    ensures RunKeeps(old(cpu.Abs()), cpu.Abs(), 4) && LinesKept(old(cpu.Abs()), cpu.Abs()) && Ready(cpu.Abs())
    ensures Stepped(decoder, Armed(old(cpu.Abs())), check && old(FlagT(cpu.sr)), done, cpu.Abs())
  {
    hide RunKeeps, StepKeeps, StoppedAt, InstructionStop, FlagT, Effect, DispatchCycles, FinalCycles, Finished,
         Started;
    ghost var m := cpu.Abs();
    var traced := FlagT(cpu.sr);
    cpu.ppc := cpu.pc;
    cpu.fault := cpu.fault.(pcValid := false);
    cpu.nesting := cpu.nesting.(trap := true);
    ghost var m1 := cpu.Abs();
    LatchesAreRun(m, m1);
    var attempt := Attempt(cpu, decoder);
    ghost var m2 := cpu.Abs();
    done := m2;
    StepIsRun(m1, m2, if attempt.Ok? then 4 - attempt.value else 0);
    RunKeepsTransitive(m, m1, m2, 0, if attempt.Ok? then 4 - attempt.value else 0);
    if attempt.Abort? {
      cpu.nesting := cpu.nesting.(trap := false);
      ghost var m3 := cpu.Abs();
      LatchesAreRun(m2, m3);
      RunKeepsTransitive(m, m2, m3, 0, 0);
      var cycles := AbortCycles(cpu.nesting.group0);
      cpu.Charge(cycles);
      ChargeIsRun(m3, cycles);
      RunKeepsTransitive(m, m3, cpu.Abs(), 0, cycles);
      RunKeepsLess(m, cpu.Abs(), cycles, 4);
    } else {
      FinishStep(cpu, attempt.value, check && traced);
      RunKeepsTransitive(m, m2, cpu.Abs(), 4 - attempt.value, attempt.value);
    }
  }

  /** A step that does not service an interrupt, as the interrupt protocol sees it. */
  lemma ProceedHappens(m: Machine, m': Machine)
    requires LinesKept(m, m') && (m.lines.stopped ==> ViewOf(m') == ViewOf(m))
    ensures Happens(ViewOf(m), Proceed, ViewOf(m'))
  {
  }

  /**
   One step from m to m': the service of a due interrupt, four idle cycles of a stopped
   processor, or an instruction. The witness is the machine between the service's exception
   and its acknowledgement, or the one the instruction's handler leaves.
   */
  ghost predicate StepWith(decoder: Word -> Instr, check: bool, ack: Ack, m: Machine, between: Machine, m': Machine)
    requires 0 <= m.lines.level < 8
  {
    if check && Due(ViewOf(m)) then ServiceStep(Begun(m), ack, between, m')
    else if m.lines.stopped then m' == Charged(Begun(m), 4)
    else Stepped(decoder, Armed(Begun(m)), check && FlagT(m.sr), between, m')
  }

  ghost predicate StepTo(decoder: Word -> Instr, check: bool, ack: Ack, m: Machine, m': Machine) {
    0 <= m.lines.level < 8 && exists between :: StepWith(decoder, check, ack, m, between, m')
  }

  function EventOf(check: bool, ack: Ack, v: View): Event {
    if check && Due(v) then Serve(v.lines.level, ack) else Proceed
  }

  /**
   One step. It charges at least four cycles on every path, and what it does to the
   interrupt lines is one event of the interrupt protocol.
   */
  method StepEx(cpu: Cpu, decoder: Word -> Instr, check: bool, ack: Ack)
    requires Ready(cpu.Abs())
    modifies cpu, cpu.memory
    ensures RunKeeps(old(cpu.Abs()), cpu.Abs(), 4) && Ready(cpu.Abs())
    ensures Happens(ViewOf(old(cpu.Abs())), EventOf(check, ack, ViewOf(old(cpu.Abs()))), ViewOf(cpu.Abs()))
    ensures StepTo(decoder, check, ack, old(cpu.Abs()), cpu.Abs())
  {
    hide RunKeeps, Due, Happens, Stepped, FlagT, ServiceStep, MaskLevel;
    ghost var m := cpu.Abs();
    BeginStep(cpu);
    ghost var m1 := cpu.Abs();
    LatchesAreRun(m, m1);
    if check {
      var taken, entered := TryInterrupt(cpu, ack);
      if taken {
        RunKeepsTransitive(m, m1, cpu.Abs(), 0, 44);
        RunKeepsLess(m, cpu.Abs(), 44, 4);
        assert StepWith(decoder, check, ack, m, entered, cpu.Abs());
        return;
      }
    }
    ghost var between := m1;
    if cpu.lines.stopped {
      cpu.Charge(4);
      ChargeIsRun(m1, 4);
    } else {
      between := RunInstruction(cpu, decoder, check);
    }
    assert StepWith(decoder, check, ack, m, between, cpu.Abs());
    RunKeepsTransitive(m, m1, cpu.Abs(), 0, 4);
    ProceedHappens(m, cpu.Abs());
  }

  // --------------------------------------------------------------- the scheduler

  function CyclesRun(m: Machine): int {
    m.slice.target - m.slice.remaining
  }

  function Sum(costs: seq<int>): int {
    if costs == [] then 0 else Sum(costs[..|costs| - 1]) + costs[|costs| - 1]
  }

  lemma SumAppend(costs: seq<int>, cost: int)
    ensures Sum(costs + [cost]) == Sum(costs) + cost
  {
    assert (costs + [cost])[..|costs|] == costs;
  }

  function Costs(states: seq<Machine>): seq<int>
    requires |states| > 0
  {
    seq(|states| - 1, i requires 0 <= i < |states| - 1 => states[i].slice.remaining - states[i + 1].slice.remaining)
  }

  function Views(states: seq<Machine>): seq<View> {
    seq(|states|, i requires 0 <= i < |states| => ViewOf(states[i]))
  }

  function Events(states: seq<Machine>, host: nat -> Ack): seq<Event>
    requires |states| > 0
  {
    seq(|states| - 1, i requires 0 <= i < |states| - 1 => EventOf(true, host(i), ViewOf(states[i])))
  }

  /** A run of the scheduler: each state leads to the next by one step, taken only while cycles remain. */
  ghost predicate StepsThrough(decoder: Word -> Instr, host: nat -> Ack, states: seq<Machine>) {
    && |states| > 0
    && forall i :: 0 <= i < |states| - 1 ==>
         StepTo(decoder, true, host(i), states[i], states[i + 1]) && OneStep(states, host, i)
  }

  /** What the scheduler relies on at each step: cycles are left before it, at least four are spent by it. */
  predicate OneStep(states: seq<Machine>, host: nat -> Ack, i: nat)
    requires i + 1 < |states|
  {
    && states[i].slice.remaining > 0 && states[i].slice.remaining - states[i + 1].slice.remaining >= 4
    && Happens(ViewOf(states[i]), EventOf(true, host(i), ViewOf(states[i])), ViewOf(states[i + 1]))
  }

  lemma StepsAppend(decoder: Word -> Instr, host: nat -> Ack, states: seq<Machine>, m: Machine)
    requires StepsThrough(decoder, host, states)
    requires var n := |states| - 1;
             StepTo(decoder, true, host(n), states[n], m) && OneStep(states + [m], host, n)
    ensures StepsThrough(decoder, host, states + [m])
  {
    hide StepTo, Happens;
    hide ViewOf, EventOf;
    var all := states + [m];
    forall i | 0 <= i < |all| - 1 ensures StepTo(decoder, true, host(i), all[i], all[i + 1]) && OneStep(all, host, i) {
      if i < |states| - 1 {
        assert StepTo(decoder, true, host(i), states[i], states[i + 1]) && OneStep(states, host, i);
      }
    }
  }

  /** The step costs of a run add up to the cycles it used. */
  lemma {:induction false} CostsAddUp(states: seq<Machine>)
    requires |states| > 0
    ensures Sum(Costs(states)) == states[0].slice.remaining - states[|states| - 1].slice.remaining
    decreases |states|
  {
    var n := |states| - 1;
    if n > 0 {
      var shorter, last := states[..n], states[n - 1].slice.remaining - states[n].slice.remaining;
      CostsAddUp(shorter);
      assert Costs(states) == Costs(shorter) + [last];
      SumAppend(Costs(shorter), last);
    }
  }

  lemma RunIsProtocol(decoder: Word -> Instr, host: nat -> Ack, states: seq<Machine>)
    requires StepsThrough(decoder, host, states)
    ensures IsRun(Views(states), Events(states, host))
  {
    hide StepTo, Happens, EventOf;
    forall i | 0 <= i < |states| - 1
      ensures Happens(Views(states)[i], Events(states, host)[i], Views(states)[i + 1])
    {
      assert OneStep(states, host, i);
    }
  }

  /**
   Runs steps until the requested cycles are used up. The states before, between and after
   the steps are given; the run terminates, returns the sum of the step costs, and overshoots
   by less than the last of them. The acknowledge answers of the host are given step by step.
   */
  method Execute(cpu: Cpu, decoder: Word -> Instr, requested: int, host: nat -> Ack)
    returns (cycles: int, ghost states: seq<Machine>)
    requires Ready(cpu.Abs())
    modifies cpu, cpu.memory
    ensures Ready(cpu.Abs()) && StepsThrough(decoder, host, states)
    ensures var m := old(cpu.Abs());
            states[0] == m.(slice := Slice(m.slice.target + requested, m.slice.remaining + requested))
    ensures states[|states| - 1] == cpu.Abs()
    ensures cycles == Sum(Costs(states)) == CyclesRun(cpu.Abs()) - CyclesRun(old(cpu.Abs()))
    ensures cpu.slice.remaining <= 0 && cpu.slice.remaining == old(cpu.slice.remaining) + requested - cycles
    ensures |states| > 1 ==> -cpu.slice.remaining < Costs(states)[|states| - 2]
    ensures cpu.slice.target == old(cpu.slice.target) + requested
    ensures IsRun(Views(states), Events(states, host))
    ensures var m := old(cpu.Abs());
            && (Clean(m.sr) ==> Clean(cpu.sr)) && cpu.history.peak <= Max(m.history.peak, 3)
            && m.history.raised <= cpu.history.raised
            && (cpu.history.raised == m.history.raised && FlagS(cpu.sr) ==> FlagS(m.sr))
  {
    hide Happens, IsRun, RunKeeps, Clean, FlagS, StepTo, OneStep, ViewOf, EventOf, Costs, Views, Events, Sum;
    ghost var m := cpu.Abs();
    cpu.slice := Slice(cpu.slice.target + requested, cpu.slice.remaining + requested);
    ghost var m1 := cpu.Abs();
    var start := cpu.slice.target - cpu.slice.remaining;
    states := [m1];
    RunKeepsSelf(m1);
    var n := 0;
    while cpu.slice.remaining > 0
      invariant Ready(cpu.Abs()) && RunKeeps(m1, cpu.Abs(), 0)
      invariant |states| == n + 1 && states[0] == m1 && states[n] == cpu.Abs() && StepsThrough(decoder, host, states)
      decreases cpu.slice.remaining
    {
      ghost var before := cpu.Abs();
      StepEx(cpu, decoder, true, host(n));
      RunKeepsMeans(before, cpu.Abs(), 4);
      OneMore(states, host, n, cpu.Abs());
      n := n + 1;
      RunKeepsTransitive(m1, before, cpu.Abs(), 0, 4);
      RunKeepsLess(m1, cpu.Abs(), 4, 0);
      StepsAppend(decoder, host, states, cpu.Abs());
      states := states + [cpu.Abs()];
    }
    RunKeepsMeans(m1, cpu.Abs(), 0);
    Overshoot(decoder, host, states);
    CostsAddUp(states);
    RunIsProtocol(decoder, host, states);
    cycles := cpu.slice.target - cpu.slice.remaining - start;
  }

  lemma RunKeepsMeans(m: Machine, m': Machine, charge: int)
    ensures RunKeeps(m, m', charge) ==>
      && m'.slice.remaining <= m.slice.remaining - charge && m'.slice.target == m.slice.target
      && (Clean(m.sr) ==> Clean(m'.sr)) && m'.history.peak <= Max(m.history.peak, 3)
      && m.history.raised <= m'.history.raised
      && (m'.history.raised == m.history.raised && FlagS(m'.sr) ==> FlagS(m.sr))
  {
    hide Clean, FlagS;
  }

  lemma OneMore(states: seq<Machine>, host: nat -> Ack, n: nat, m: Machine)
    requires |states| == n + 1 && states[n].slice.remaining > 0 && states[n].slice.remaining - m.slice.remaining >= 4
    requires Happens(ViewOf(states[n]), EventOf(true, host(n), ViewOf(states[n])), ViewOf(m))
    ensures OneStep(states + [m], host, n)
  {
    hide Happens, ViewOf, EventOf;
  }

  /** The last step was taken with cycles left, so a run overshoots by less than its cost. */
  lemma Overshoot(decoder: Word -> Instr, host: nat -> Ack, states: seq<Machine>)
    requires StepsThrough(decoder, host, states)
    ensures |states| > 1 ==> -states[|states| - 1].slice.remaining < Costs(states)[|states| - 2]
  {
    hide StepTo, Happens, ViewOf, EventOf;
    if |states| > 1 {
      assert OneStep(states, host, |states| - 2);
    }
  }

  lemma RunKeepsSelf(m: Machine)
    ensures RunKeeps(m, m, 0)
  {
  }

  /** Lengthening or shortening the slice in progress leaves the cycles run so far alone. */
  method ModifyTimeslice(cpu: Cpu, cycles: int)
    modifies cpu`slice
    ensures cpu.Abs() == old(cpu.Abs()).(slice := Slice(old(cpu.slice.target) + cycles,
                                                        old(cpu.slice.remaining) + cycles))
    ensures CyclesRun(cpu.Abs()) == CyclesRun(old(cpu.Abs()))
  {
    cpu.slice := Slice(cpu.slice.target + cycles, cpu.slice.remaining + cycles);
  }

  method EndTimeslice(cpu: Cpu)
    modifies cpu`slice
    ensures cpu.Abs() == old(cpu.Abs()).(slice := Slice(CyclesRun(old(cpu.Abs())), 0))
    ensures CyclesRun(cpu.Abs()) == CyclesRun(old(cpu.Abs()))
  {
    cpu.slice := Slice(cpu.slice.target - cpu.slice.remaining, 0);
  }
}
