/**
 Control flow and privileged instructions.
 */
module OpsControl {
  import opened Words
  import opened StatusRegister
  import opened MachineState
  import opened Exceptions
  import opened Core

  /** Vector 8 with the PC moved back onto the instruction. */
  method PrivilegeViolation(cpu: Cpu)
    requires Executing(cpu.Abs())
    modifies cpu, cpu.memory
    ensures Executing(cpu.Abs()) && StepKeeps(old(cpu.Abs()), cpu.Abs(), 0)
    ensures old(cpu.nesting.thrown) == 0 ==> cpu.nesting.thrown == 8
    ensures Raised(OnInstruction(old(cpu.Abs())), 8, cpu.Abs())
  {
    hide BusKeeps, StepKeeps, VectorLoaded, Stackable, Raise, FlagS, Clean;
    ghost var m := cpu.Abs();
    cpu.SetPc(Minus(cpu.pc, 2));
    ghost var m1 := cpu.Abs();
    cpu.Exception(8);
    BusIsStep(m1, cpu.Abs(), 1);
    PcKeeps(m, m1.pc);
    StepKeepsTransitive(m, m1, cpu.Abs(), 0, 0);
    ExecutingKept(m, cpu.Abs(), 0);
  }

  /** The PC moved back from the word after the opcode. */
  function OnInstruction(m: Machine): Machine {
    m.(pc := Minus(m.pc, 2))
  }

  /** An exception raised by the instruction itself, which then completes. */
  method Trap(cpu: Cpu, vector: nat)
    requires Executing(cpu.Abs()) && vector > 0
    modifies cpu, cpu.memory
    ensures Executing(cpu.Abs()) && StepKeeps(old(cpu.Abs()), cpu.Abs(), 0)
    ensures old(cpu.nesting.thrown) == 0 ==> cpu.nesting.thrown == vector
    ensures Raised(old(cpu.Abs()), vector, cpu.Abs())
  {
    hide BusKeeps, StepKeeps, VectorLoaded, Stackable, Raise, FlagS, Clean;
    ghost var m := cpu.Abs();
    cpu.Exception(vector);
    BusIsStep(m, cpu.Abs(), 1);
    ExecutingKept(m, cpu.Abs(), 0);
  }

  method Pop(cpu: Cpu, size: Size) returns (r: Outcome<Long>)
    requires Executing(cpu.Abs())
    modifies cpu, cpu.memory
    ensures Executing(cpu.Abs()) && StepKeeps(old(cpu.Abs()), cpu.Abs(), 0)
    ensures Ends(ReadStop(old(cpu.Abs()), old(cpu.a[7]), size), r.Ok?, cpu.Abs())
    ensures r.Ok? ==>
      var m := old(cpu.Abs());
      r.value == BusValue(m, m.a[7], size)
      && cpu.Abs() == m.(a := SetRegister(m.a, 7, Plus(m.a[7], size.Bytes())))
  {
    hide StepKeeps, StoppedAt, ReadStop, BusValue, Plus;
    ghost var m := cpu.Abs();
    r := ReadFrom(cpu, cpu.a[7], size);
    if r.Ok? {
      RegisterKeeps(m, 7, Plus(cpu.a[7], size.Bytes()));
      cpu.SetA(7, Plus(cpu.a[7], size.Bytes()));
    }
  }

  /** What stops RTE: its privilege and its format are checked first, and its frame is read in two or three accesses. */
  function RteStop(m: Machine): Option<Stop> {
    if !FlagS(m.sr) then None
    else if m.control.model == M68000 then PopStop(m)
    else
      var sp := m.a[7];
      First(ReadStop(m, Plus(sp, 6), WordSize),
            if BadFormat(m) then None else First(ReadStop(m, sp, WordSize), ReadStop(m, Plus(sp, 2), LongSize)))
  }

  /** The word and the long word that RTR and the 68000's RTE pop. */
  function PopStop(m: Machine): Option<Stop> {
    var sp := m.a[7];
    First(ReadStop(m, sp, WordSize), ReadStop(m.(a := SetRegister(m.a, 7, Plus(sp, 2))), Plus(sp, 2), LongSize))
  }

  /** The nonzero format nibble that the 68010 refuses. */
  predicate BadFormat(m: Machine) {
    m.control.model == M68010 && BusValue(m, Plus(m.a[7], 6), WordSize) >= 0x1000
  }

  /** The status register and PC of the frame on the stack, taken over. */
  function Resumed(m: Machine): Machine {
    SetSr(m.(a := SetRegister(m.a, 7, Plus(m.a[7], FrameSize(m.control.model))),
             pc := BusValue(m, Plus(m.a[7], 2), LongSize)),
          WordSr(BusValue(m, m.a[7], WordSize)))
  }

  lemma ResumedSlice(m: Machine)
    ensures Resumed(m).slice == m.slice
  {
    hide BusValue, Plus, WordSr;
  }

  /** RTE: the privilege violation, the format error of the 68010, and the return. */
  predicate RteDone(m: Machine, m': Machine) {
    if !FlagS(m.sr) then Raised(OnInstruction(m), 8, m')
    else if BadFormat(m) then Raised(OnInstruction(m), 14, m')
    else m' == Resumed(m)
  }

  /** A frame that lies in memory meets no fault, and is returned from in one piece. */
  lemma ResumedReturns(m: Machine)
    requires Returnable(m)
    ensures RteStop(m).None? && !BadFormat(m) && FlagS(m.sr) && Resumed(m) == Return(m)
  {
    FrameReads(m);
    hide Plus, Mask24, Get16, Get32, FlagS, SetSr, BusValue, FaultVector;
    assert forall a, b, size: Size :: FaultVector(m.(a := a), b, size) == FaultVector(m, b, size) by {
      forall a, b, size: Size ensures FaultVector(m.(a := a), b, size) == FaultVector(m, b, size) {
        FaultSame(m, m.(a := a), b, size);
      }
    }
  }

  method ExecRte(cpu: Cpu) returns (r: Outcome<()>)
    requires Executing(cpu.Abs())
    modifies cpu, cpu.memory
    ensures Executing(cpu.Abs()) && StepKeeps(old(cpu.Abs()), cpu.Abs(), 0)
    ensures r.Ok? && old(cpu.nesting.thrown) == 0 ==>
      cpu.nesting.thrown == 0 || cpu.nesting.thrown == 8 || cpu.nesting.thrown == 14
    ensures Ends(RteStop(old(cpu.Abs())), r.Ok?, cpu.Abs())
    ensures r.Ok? ==> RteDone(old(cpu.Abs()), cpu.Abs())
    ensures Returnable(old(cpu.Abs())) ==> r.Ok? && cpu.Abs() == Return(old(cpu.Abs()))
  {
    hide StepKeeps, StoppedAt, FlagS, Resumed, PopStop, ReadStop, BusValue, Plus, Raised, Returnable;
    ghost var m := cpu.Abs();
    if Returnable(m) {
      ResumedReturns(m);
    }
    if !FlagS(cpu.sr) {
      PrivilegeViolation(cpu);
      return Ok(());
    }
    if cpu.control.model == M68010 {
      r := ReturnChecked(cpu);
    } else {
      r := ReturnPlain(cpu);
    }
  }

  /** The word and the long word RTE and RTR pop, one read after the other. */
  method PopWordAndLong(cpu: Cpu) returns (r: Outcome<(Word, Long)>)
    requires Executing(cpu.Abs())
    modifies cpu, cpu.memory
    ensures Executing(cpu.Abs()) && StepKeeps(old(cpu.Abs()), cpu.Abs(), 0)
    ensures Ends(PopStop(old(cpu.Abs())), r.Ok?, cpu.Abs())
    ensures r.Ok? ==>
      var m := old(cpu.Abs());
      && cpu.Abs() == m.(a := SetRegister(m.a, 7, Plus(m.a[7], 6)))
      && r.value == (BusValue(m, m.a[7], WordSize), BusValue(m, Plus(m.a[7], 2), LongSize))
  {
    hide StepKeeps, StoppedAt, ReadStop, Mask24, Plus, Get16, Get32;
    ghost var m := cpu.Abs();
    PlusTwice(cpu.a[7], 2, 4);
    SetTwice(cpu.a, 7, Plus(cpu.a[7], 2), Plus(cpu.a[7], 6));
    var word :- Pop(cpu, WordSize);
    ghost var m1 := cpu.Abs();
    var long := Pop(cpu, LongSize);
    StepKeepsTransitive(m, m1, cpu.Abs(), 0, 0);
    if long.Abort? {
      return Abort;
    }
    return Ok((word, long.value));
  }

  method ReturnPlain(cpu: Cpu) returns (r: Outcome<()>)
    requires Executing(cpu.Abs()) && FlagS(cpu.sr) && cpu.control.model == M68000
    modifies cpu, cpu.memory
    ensures Executing(cpu.Abs()) && StepKeeps(old(cpu.Abs()), cpu.Abs(), 0)
    ensures Ends(PopStop(old(cpu.Abs())), r.Ok?, cpu.Abs())
    ensures r.Ok? ==> cpu.nesting.thrown == old(cpu.nesting.thrown) && cpu.Abs() == Resumed(old(cpu.Abs()))
  {
    hide StepKeeps, StoppedAt, PopStop, FlagS, SetSr, Plus, BusValue;
    ghost var m := cpu.Abs();
    var popped :- PopWordAndLong(cpu);
    ghost var m1 := cpu.Abs();
    Resume(cpu, WordSr(popped.0), popped.1);
    StepKeepsTransitive(m, m1, cpu.Abs(), 0, 0);
    return Ok(());
  }

  method ReturnChecked(cpu: Cpu) returns (r: Outcome<()>)
    requires Executing(cpu.Abs()) && FlagS(cpu.sr) && cpu.control.model == M68010
    modifies cpu, cpu.memory
    ensures Executing(cpu.Abs()) && StepKeeps(old(cpu.Abs()), cpu.Abs(), 0)
    ensures r.Ok? && old(cpu.nesting.thrown) == 0 ==> cpu.nesting.thrown == 0 || cpu.nesting.thrown == 14
    ensures Ends(RteStop(old(cpu.Abs())), r.Ok?, cpu.Abs())
    ensures r.Ok? ==> RteDone(old(cpu.Abs()), cpu.Abs())
  {
    hide StepKeeps, StoppedAt, ReadStop, FlagS, Plus, Minus, Resumed, BusValue, Raised;
    ghost var m := cpu.Abs();
    var format :- ReadFrom(cpu, Plus(cpu.a[7], 6), WordSize);
    if format >= 0x1000 {
      cpu.SetPc(Minus(cpu.pc, 2));
      PcKeeps(m, Minus(m.pc, 2));
      ghost var m1 := cpu.Abs();
      Trap(cpu, 14);
      StepKeepsTransitive(m, m1, cpu.Abs(), 0, 0);
      return Ok(());
    }
    r := ReturnFromEight(cpu);
  }

  /** The rest of the eight-byte frame, once its format word has been accepted. */
  method ReturnFromEight(cpu: Cpu) returns (r: Outcome<()>)
    requires Executing(cpu.Abs()) && FlagS(cpu.sr) && cpu.control.model == M68010
    modifies cpu, cpu.memory
    ensures Executing(cpu.Abs()) && StepKeeps(old(cpu.Abs()), cpu.Abs(), 0)
    ensures var m := old(cpu.Abs());
            Ends(First(ReadStop(m, m.a[7], WordSize), ReadStop(m, Plus(m.a[7], 2), LongSize)), r.Ok?, cpu.Abs())
    ensures r.Ok? ==> cpu.nesting.thrown == old(cpu.nesting.thrown) && cpu.Abs() == Resumed(old(cpu.Abs()))
  {
    hide StepKeeps, StoppedAt, ReadStop, FlagS, SetSr, Plus, BusValue;
    ghost var m := cpu.Abs();
    var sp := cpu.a[7];
    var newSr :- ReadFrom(cpu, sp, WordSize);
    var newPc :- ReadFrom(cpu, Plus(sp, 2), LongSize);
    WordValue(m, sp);
    cpu.SetA(7, Plus(sp, 8));
    ghost var m1 := cpu.Abs();
    RegisterKeeps(m, 7, Plus(sp, 8));
    Resume(cpu, WordSr(newSr), newPc);
    StepKeepsTransitive(m, m1, cpu.Abs(), 0, 0);
    return Ok(());
  }

  lemma WordValue(m: Machine, address: Long)
    ensures BusValue(m, address, WordSize) < 0x1_0000
  {
    hide Mask24;
  }

  /** The common end of RTE: the stacked status register, then the stacked PC. */
  method Resume(cpu: Cpu, newSr: bv16, newPc: Long)
    requires Executing(cpu.Abs()) && FlagS(cpu.sr)
    modifies cpu
    ensures StepKeeps(old(cpu.Abs()), cpu.Abs(), 0)
    ensures cpu.Abs() == SetSr(old(cpu.Abs()).(pc := newPc), newSr) && cpu.nesting == old(cpu.nesting)
  {
    hide StepKeeps, SetSr;
    ghost var m := cpu.Abs();
    SetSrKeeps(m, newSr);
    SetSrPc(m, newSr, newPc);
    cpu.SetStatus(newSr);
    ghost var m1 := cpu.Abs();
    cpu.SetPc(newPc);
    PcKeeps(m1, newPc);
    StepKeepsTransitive(m, m1, cpu.Abs(), 0, 0);
  }

  method ReadFrom(cpu: Cpu, address: Long, size: Size) returns (r: Outcome<Long>)
    requires Executing(cpu.Abs())
    modifies cpu, cpu.memory
    ensures Executing(cpu.Abs()) && StepKeeps(old(cpu.Abs()), cpu.Abs(), 0)
    ensures Ends(ReadStop(old(cpu.Abs()), address, size), r.Ok?, cpu.Abs())
    ensures r.Ok? ==> r.value == BusValue(old(cpu.Abs()), address, size) && cpu.Abs() == old(cpu.Abs())
  {
    r := cpu.ReadOperand(address, size, true);
    hide StepKeeps, StoppedAt, ReadStop, BusValue, FaultVector;
  }

  // ----------------------------------------------------------------- branches

  /** Where a Bcc or BSR goes: the displacement counts from the word after the opcode. */
  function BranchTarget(m: Machine, disp8: Byte): Long {
    Plus(m.pc, if disp8 == 0 then Signed(WordAt(m, m.pc), WordSize) else Signed(disp8, ByteSize))
  }

  function BranchNext(m: Machine, disp8: Byte): Long {
    if disp8 == 0 then Plus(m.pc, 2) else m.pc
  }

  predicate TargetMapped(m: Machine, target: Long) {
    Mask24(target) + 2 <= |m.mem|
  }

  /** The target can be fetched from. */
  predicate GoodTarget(m: Machine, target: Long) {
    !Odd(target) && TargetMapped(m, target)
  }

  /** A transfer to a bad target: a program-space fault for 50 cycles on top of the instruction's own. */
  predicate TargetFault(m: Machine, target: Long, faultPc: Long, cycles: int, m': Machine) {
    AfterFault(WithFaultPc(Charged(m, 50 + cycles), faultPc), if Odd(target) then 3 else 2, target, false, true, m')
  }

  /** The fault of a target, and then the instruction's own charge. */
  lemma TargetFaultCharged(m: Machine, target: Long, faultPc: Long, cycles: int, m': Machine)
    ensures TargetFault(m, target, faultPc, 0, m') ==> TargetFault(m, target, faultPc, cycles, Charged(m', cycles))
  {
    FaultCharged(WithFaultPc(Charged(m, 50), faultPc), if Odd(target) then 3 else 2, target, false, true, m', cycles);
    hide AfterFault;
  }

  method FetchDisplacement(cpu: Cpu, disp8: Byte) returns (r: Outcome<Long>)
    requires Executing(cpu.Abs())
    modifies cpu, cpu.memory
    ensures Executing(cpu.Abs()) && StepKeeps(old(cpu.Abs()), cpu.Abs(), 0)
    ensures Ends(FetchStop(old(cpu.Abs()), if disp8 == 0 then 1 else 0), r.Ok?, cpu.Abs())
    ensures r.Ok? ==> r.value == BranchTarget(old(cpu.Abs()), disp8)
    ensures r.Ok? ==> cpu.Abs() == old(cpu.Abs()).(pc := BranchNext(old(cpu.Abs()), disp8))
  {
    hide StoppedAt, StepKeeps, Signed, WordAt, Plus;
    ghost var m := cpu.Abs();
    NothingKept(m, m);
    var base := cpu.pc;
    if disp8 == 0 {
      var word :- cpu.Fetch();
      return Ok(Plus(base, Signed(word, WordSize)));
    }
    return Ok(Plus(base, Signed(disp8, ByteSize)));
  }

  lemma NothingKept(a: Machine, b: Machine)
    ensures a == b ==> StepKeeps(a, b, 0)
  {
  }

  /** What stops a branch: its extension word, and for BSR the push of the return address. */
  function BccStop(m: Machine, condition: int, disp8: Byte): Option<Stop> {
    First(FetchStop(m, if disp8 == 0 then 1 else 0),
          if condition == 1 then PushStop(m.(pc := BranchNext(m, disp8)), LongSize) else None)
  }

  /** A taken branch to an odd address faults at the end of the step, an unmapped one at once. */
  predicate BccDone(m: Machine, condition: int, disp8: Byte, m': Machine) {
    var target, next := BranchTarget(m, disp8), m.(pc := BranchNext(m, disp8));
    if condition == 1 then BsrDone(next, target, m')
    else if !Condition(m.sr, condition) then m' == Charged(next, if disp8 == 0 then 12 else 8)
    else if Odd(target) || TargetMapped(m, target) then m' == Charged(m.(pc := target), 10)
    else TargetFault(next, target, Plus(m.ppc, 2), 10, m')
  }

  /** BSR pushes the return address before its target can fault. */
  predicate BsrDone(m: Machine, target: Long, m': Machine) {
    var pushed := Pushed(m, m.pc, LongSize);
    if GoodTarget(m, target) then m' == Charged(pushed.(pc := target), 18)
    else TargetFault(pushed, target, target, 18, m')
  }

  method ExecBcc(cpu: Cpu, condition: int, disp8: Byte) returns (r: Outcome<()>)
    requires Executing(cpu.Abs())
    modifies cpu, cpu.memory
    ensures Executing(cpu.Abs()) && StepKeeps(old(cpu.Abs()), cpu.Abs(), if r.Ok? then 8 else 0)
    ensures r.Ok? && old(cpu.nesting.thrown) == 0 ==> cpu.nesting.thrown == 0 || Group0(cpu.nesting.thrown)
    ensures Ends(BccStop(old(cpu.Abs()), condition, disp8), r.Ok?, cpu.Abs())
    ensures r.Ok? ==> BccDone(old(cpu.Abs()), condition, disp8, cpu.Abs())
  {
    hide StepKeeps, StoppedAt, FetchStop, PushStop, Condition, BranchTarget, BranchNext, Mask24, AfterFault, BsrDone,
         Plus;
    ghost var m := cpu.Abs();
    var target :- FetchDisplacement(cpu, disp8);
    ghost var m1 := cpu.Abs();
    if condition == 1 {
      r := BranchToSubroutine(cpu, target);
      StepKeepsTransitive(m, m1, cpu.Abs(), 0, if r.Ok? then 18 else 0);
      StepKeepsLess(m, cpu.Abs(), 18, 8);
    } else if Condition(cpu.sr, condition) {
      if cpu.IsUnmappedTarget(target) && !Odd(target) {
        cpu.RaiseTargetFault(2, target, Plus(cpu.ppc, 2));
        StepKeepsTransitive(m, m1, cpu.Abs(), 0, 50);
        TargetFaultCharged(m1, target, Plus(m1.ppc, 2), 10, cpu.Abs());
      } else {
        cpu.SetPc(target);
        PcKeeps(m1, target);
        StepKeepsTransitive(m, m1, cpu.Abs(), 0, 0);
      }
      Finish(cpu, m, 10);
      return Ok(());
    } else {
      Finish(cpu, m, if disp8 == 0 then 12 else 8);
      return Ok(());
    }
  }

  /** The handler's own charge, on top of what the instruction has kept so far. */
  method Finish(cpu: Cpu, ghost m: Machine, cycles: int)
    requires cycles >= 8
    modifies cpu`slice
    ensures cpu.Abs() == Charged(old(cpu.Abs()), cycles)
    ensures StepKeeps(m, old(cpu.Abs()), 0) || StepKeeps(m, old(cpu.Abs()), 50) ==> StepKeeps(m, cpu.Abs(), 8)
  {
    hide StepKeeps;
    ghost var m1 := cpu.Abs();
    cpu.Charge(cycles);
    ChargeKeeps(m1, cycles);
    StepKeepsTransitive(m, m1, cpu.Abs(), 0, cycles);
    StepKeepsTransitive(m, m1, cpu.Abs(), 50, cycles);
    StepKeepsLess(m, cpu.Abs(), cycles, 8);
    StepKeepsLess(m, cpu.Abs(), 50 + cycles, 8);
  }

  /** BSR pushes the return address first; a faulting target then stacks itself as the PC. */
  method BranchToSubroutine(cpu: Cpu, target: Long) returns (r: Outcome<()>)
    requires Executing(cpu.Abs())
    modifies cpu, cpu.memory
    ensures Executing(cpu.Abs()) && StepKeeps(old(cpu.Abs()), cpu.Abs(), if r.Ok? then 18 else 0)
    ensures r.Ok? && old(cpu.nesting.thrown) == 0 ==> cpu.nesting.thrown == 0 || Group0(cpu.nesting.thrown)
    ensures Ends(PushStop(old(cpu.Abs()), LongSize), r.Ok?, cpu.Abs())
    ensures r.Ok? ==> BsrDone(old(cpu.Abs()), target, cpu.Abs())
  {
    hide StepKeeps, StoppedAt, PushStop, Pushed, Mask24, AfterFault;
    ghost var m := cpu.Abs();
    PushedRest(m, cpu.pc, LongSize);
    var _ :- PushOnto(cpu, cpu.pc, LongSize);
    ghost var m1 := cpu.Abs();
    if Odd(target) || cpu.IsUnmappedTarget(target) {
      cpu.RaiseTargetFault(if Odd(target) then 3 else 2, target, target);
      StepKeepsTransitive(m, m1, cpu.Abs(), 0, 50);
      TargetFaultCharged(m1, target, target, 18, cpu.Abs());
    } else {
      cpu.SetPc(target);
      PcKeeps(m1, target);
      StepKeepsTransitive(m, m1, cpu.Abs(), 0, 0);
    }
    ghost var m2 := cpu.Abs();
    StepKeepsLess(m, m2, 50, 0);
    cpu.Charge(18);
    ChargeKeeps(m2, 18);
    StepKeepsTransitive(m, m2, cpu.Abs(), 0, 18);
    return Ok(());
  }

  /** The displacement of a branch: the signed opcode byte, or the signed next word when that is zero. */
  function Displacement(m: Machine, disp8: Byte): int {
    if disp8 == 0 then SignedWord(WordAt(m, m.pc)) else if disp8 >= 0x80 then disp8 - 0x100 else disp8
  }

  /** A completed branch in numbers: its displacement counts from the word after the opcode. */
  predicate BranchShown(m: Machine, condition: int, disp8: Byte, m': Machine) {
    var target := (m.pc + Displacement(m, disp8)) % 0x1_0000_0000;
    var next := if disp8 == 0 then (m.pc + 2) % 0x1_0000_0000 else m.pc;
    var spent, mapped := m.slice.remaining - m'.slice.remaining, target % 0x100_0000 + 2 <= |m.mem|;
    if condition == 1 then
      target % 2 == 0 && mapped ==> m'.pc == target && spent == 18 && PushShown(m, next, m')
    else if Condition(m.sr, condition) then
      target % 2 == 1 || mapped ==> m'.pc == target && spent == 10 && m'.a == m.a && m'.mem == m.mem
    else m'.pc == next && spent == (if disp8 == 0 then 12 else 8) && m'.a == m.a && m'.mem == m.mem
  }

  /** A return address was pushed. */
  predicate PushShown(m: Machine, value: Long, m': Machine) {
    var sp: int := m.a[7] as int - 4;
    var at := sp % 0x100_0000;
    && m'.a[7] == sp % 0x1_0000_0000 && (forall k :: 0 <= k < 7 ==> m'.a[k] == m.a[k])
    && (at + 4 <= |m.mem| ==> |m'.mem| == |m.mem| && Number(m'.mem[at..at + 4]) == value)
  }

  lemma SignedReadings(w: Word, b: Byte)
    ensures Signed(w, WordSize) == SignedWord(w)
    ensures Signed(b, ByteSize) == if b >= 0x80 then b - 0x100 else b
  {
  }

  lemma TargetNumbers(m: Machine, disp8: Byte)
    ensures BranchTarget(m, disp8) == (m.pc + Displacement(m, disp8)) % 0x1_0000_0000
  {
    hide WordAt, Signed, SignedWord;
    SignedReadings(WordAt(m, m.pc), disp8);
  }

  lemma BranchIsShown(m: Machine, condition: int, disp8: Byte, m': Machine)
    ensures BccDone(m, condition, disp8, m') ==> BranchShown(m, condition, disp8, m')
  {
    hide Condition, BranchTarget, Displacement, Pushed, AfterFault, Number;
    TargetNumbers(m, disp8);
    var next := m.(pc := BranchNext(m, disp8));
    PushedInPlace(next, next.pc, LongSize);
    PushedRest(next, next.pc, LongSize);
  }

  method PushOnto(cpu: Cpu, value: Long, size: Size) returns (r: Outcome<()>)
    requires Executing(cpu.Abs())
    modifies cpu, cpu.memory
    ensures Executing(cpu.Abs()) && StepKeeps(old(cpu.Abs()), cpu.Abs(), 0)
    ensures Ends(PushStop(old(cpu.Abs()), size), r.Ok?, cpu.Abs())
    ensures r.Ok? ==> cpu.Abs() == Pushed(old(cpu.Abs()), value, size)
  {
    hide StepKeeps, StoppedAt, PushStop, Pushed, Pushable, BusKeeps;
    ghost var m := cpu.Abs();
    r := cpu.Push(value, size);
    BusIsStep(m, cpu.Abs(), 0);
    ExecutingKept(m, cpu.Abs(), 0);
  }

  /** DBcc stops at its condition or when the counter runs out; otherwise it branches. */
  predicate DbccDone(m: Machine, condition: int, reg: int, m': Machine)
    requires 0 <= reg < 8
  {
    var next, target := m.(pc := Plus(m.pc, 2)), BranchTarget(m, 0);
    var counter := Merge(m.d[reg], Minus(m.d[reg], 1), WordSize);
    if Condition(m.sr, condition) then m' == Charged(next, 12)
    else if Low(m.d[reg], WordSize) == 0 then m' == Charged(next.(d := SetRegister(m.d, reg, counter)), 14)
    else if GoodTarget(m, target) then m' == Charged(next.(d := SetRegister(m.d, reg, counter), pc := target), 10)
    else TargetFault(next, target, next.pc, 10, m')
  }

  /** DBcc: a faulting loop branch leaves the counter alone and stacks the next PC. */
  method ExecDbcc(cpu: Cpu, condition: int, reg: int) returns (r: Outcome<()>)
    requires Executing(cpu.Abs()) && 0 <= reg < 8
    modifies cpu, cpu.memory
    ensures Executing(cpu.Abs()) && StepKeeps(old(cpu.Abs()), cpu.Abs(), if r.Ok? then 8 else 0)
    ensures r.Ok? && old(cpu.nesting.thrown) == 0 ==> cpu.nesting.thrown == 0 || Group0(cpu.nesting.thrown)
    ensures Ends(FetchStop(old(cpu.Abs()), 1), r.Ok?, cpu.Abs())
    ensures r.Ok? ==> DbccDone(old(cpu.Abs()), condition, reg, cpu.Abs())
  {
    hide StepKeeps, StoppedAt, FetchStop, Condition, BranchTarget, Mask24, Merge, Minus, Low, AfterFault, FlagS,
         Clean, Plus;
    ghost var m := cpu.Abs();
    var target :- FetchDisplacement(cpu, 0);
    ghost var m1 := cpu.Abs();
    if Condition(cpu.sr, condition) {
      Finish(cpu, m, 12);
      return Ok(());
    }
    var counter := Merge(cpu.d[reg], Minus(cpu.d[reg], 1), WordSize);
    if Low(cpu.d[reg], WordSize) != 0 {
      if Odd(target) || cpu.IsUnmappedTarget(target) {
        cpu.Charge(10);
        ChargeKeeps(m1, 10);
        ghost var m2 := cpu.Abs();
        cpu.RaiseTargetFault(if Odd(target) then 3 else 2, target, cpu.pc);
        StepKeepsTransitive(m, m1, m2, 0, 10);
        StepKeepsTransitive(m, m2, cpu.Abs(), 10, 50);
        StepKeepsLess(m, cpu.Abs(), 60, 8);
        return Ok(());
      }
      cpu.SetD(reg, counter);
      RegisterKeeps(m1, reg, counter);
      ghost var m2 := cpu.Abs();
      cpu.SetPc(target);
      PcKeeps(m2, target);
      ghost var m3 := cpu.Abs();
      StepKeepsTransitive(m, m1, m2, 0, 0);
      StepKeepsTransitive(m, m2, m3, 0, 0);
      Finish(cpu, m, 10);
    } else {
      cpu.SetD(reg, counter);
      RegisterKeeps(m1, reg, counter);
      StepKeepsTransitive(m, m1, cpu.Abs(), 0, 0);
      Finish(cpu, m, 14);
    }
    return Ok(());
  }

  /** DBcc in numbers: the low word counts down, and 0 is where it stops. */
  predicate LoopShown(m: Machine, condition: int, reg: int, m': Machine)
    requires 0 <= reg < 8
  {
    var target := (m.pc + SignedWord(WordAt(m, m.pc))) % 0x1_0000_0000;
    var next, spent := (m.pc + 2) % 0x1_0000_0000, m.slice.remaining - m'.slice.remaining;
    var counter := m.d[reg] % 0x1_0000;
    var ends, mapped := counter == 0, target % 2 == 0 && target % 0x100_0000 + 2 <= |m.mem|;
    if Condition(m.sr, condition) then m'.d == m.d && m'.pc == next && spent == 12
    else
      ends || mapped ==>
        && m'.d[reg] % 0x1_0000 == (if ends then 0xFFFF else counter - 1)
        && m'.d[reg] / 0x1_0000 == m.d[reg] / 0x1_0000
        && m'.pc == (if ends then next else target) && spent == (if ends then 14 else 10)
  }

  lemma CountedDown(x: Long)
    ensures var r := Merge(x, Minus(x, 1), WordSize);
            r % 0x1_0000 == (if x % 0x1_0000 == 0 then 0xFFFF else x % 0x1_0000 - 1) && r / 0x1_0000 == x / 0x1_0000
  {
    MergeParts(x, Minus(x, 1), WordSize);
    LowDifference(x, 1, 0, WordSize);
    hide Merge;
  }

  lemma LoopIsShown(m: Machine, condition: int, reg: int, m': Machine)
    requires 0 <= reg < 8
    ensures DbccDone(m, condition, reg, m') ==> LoopShown(m, condition, reg, m')
  {
    hide Condition, BranchTarget, SignedWord, WordAt, AfterFault, Merge, Minus;
    TargetNumbers(m, 0);
    CountedDown(m.d[reg]);
  }

  /** The machine once the target of JMP or JSR has been resolved. */
  function AtTarget(m: Machine, mode: int, reg: int): Machine
    requires 0 <= reg < 8
  {
    Charged(EaAfter(m, mode, reg, LongSize, false), ControlEaCycles(mode, reg, true))
  }

  /** What stops a jump: its operand, and for JSR the push of the return address. */
  function JmpStop(m: Machine, mode: int, reg: int, isJsr: bool): Option<Stop>
    requires 0 <= reg < 8
  {
    First(ControlStop(m, mode, reg, true),
          if isJsr && GoodTarget(m, EaAddress(m, mode, reg, LongSize)) then PushStop(AtTarget(m, mode, reg), LongSize)
          else None)
  }

  /** JMP to an odd address faults at the end of the step; JSR faults at once and pushes nothing. */
  predicate JmpDone(m: Machine, mode: int, reg: int, isJsr: bool, m': Machine)
    requires 0 <= reg < 8
  {
    var e, target := AtTarget(m, mode, reg), EaAddress(m, mode, reg, LongSize);
    if isJsr then
      (if GoodTarget(m, target) then m' == Pushed(e, e.pc, LongSize).(pc := target)
       else TargetFault(e, target, e.pc, 0, m'))
    else if Odd(target) || TargetMapped(m, target) then m' == e.(pc := target)
    else TargetFault(e, target, Plus(m.ppc, 2), 0, m')
  }

  /** JMP and JSR: JSR faults on its target before pushing the return address. */
  method ExecJmp(cpu: Cpu, mode: int, reg: int, isJsr: bool) returns (r: Outcome<()>)
    requires Executing(cpu.Abs()) && 0 <= mode < 8 && 0 <= reg < 8
    modifies cpu, cpu.memory
    ensures Executing(cpu.Abs()) && StepKeeps(old(cpu.Abs()), cpu.Abs(), if r.Ok? then 8 else 0)
    ensures r.Ok? && old(cpu.nesting.thrown) == 0 ==> cpu.nesting.thrown == 0 || Group0(cpu.nesting.thrown)
    ensures Ends(JmpStop(old(cpu.Abs()), mode, reg, isJsr), r.Ok?, cpu.Abs())
    ensures r.Ok? ==> JmpDone(old(cpu.Abs()), mode, reg, isJsr, cpu.Abs())
  {
    hide StepKeeps, StoppedAt, ControlStop, PushStop, EaAfter, EaAddress, EaResolved, Mask24, ControlEaCycles, Pushed,
         AfterFault, Plus;
    ghost var m := cpu.Abs();
    var ea :- cpu.CalcEaCtl(mode, reg, true);
    ghost var m1 := cpu.Abs();
    var target := ea.address;
    ControlTarget(m, mode, reg, ea, m1);
    StepKeepsLess(m, m1, ControlEaCycles(mode, reg, true), 8);
    if isJsr {
      if Odd(target) || cpu.IsUnmappedTarget(target) {
        cpu.RaiseTargetFault(if Odd(target) then 3 else 2, target, cpu.pc);
        StepKeepsTransitive(m, m1, cpu.Abs(), 8, 50);
        StepKeepsLess(m, cpu.Abs(), 58, 8);
        return Ok(());
      }
      PushedRest(m1, cpu.pc, LongSize);
      var pushed := PushOnto(cpu, cpu.pc, LongSize);
      StepKeepsTransitive(m, m1, cpu.Abs(), 8, 0);
      if pushed.Abort? {
        StepKeepsLess(m, cpu.Abs(), 8, 0);
        return Abort;
      }
    } else if !Odd(target) && cpu.IsUnmappedTarget(target) {
      cpu.RaiseTargetFault(2, target, Plus(cpu.ppc, 2));
      StepKeepsTransitive(m, m1, cpu.Abs(), 8, 50);
      StepKeepsLess(m, cpu.Abs(), 58, 8);
      return Ok(());
    }
    ghost var m2 := cpu.Abs();
    cpu.SetPc(target);
    PcKeeps(m2, target);
    StepKeepsTransitive(m, m2, cpu.Abs(), 8, 0);
    return Ok(());
  }

  /** A completed jump in numbers; JSR leaves the address of the next instruction on the stack. */
  predicate JumpShown(m: Machine, mode: int, reg: int, isJsr: bool, m': Machine)
    requires 0 <= reg < 8
  {
    var target, words := EaAddress(m, mode, reg, LongSize), ExtensionWords(mode, reg, LongSize);
    var mapped := target % 0x100_0000 + 2 <= |m.mem|;
    (if isJsr then target % 2 == 0 && mapped else target % 2 == 1 || mapped) ==>
      && m'.pc == target
      && m.slice.remaining - m'.slice.remaining
         == 8 + 2 * words + (if mode == 6 || (mode == 7 && reg == 3) then 4 else 0)
      && if isJsr then PushShown(m, (m.pc + 2 * words) % 0x1_0000_0000, m') else m'.a == m.a && m'.mem == m.mem
  }

  lemma JumpIsShown(m: Machine, mode: int, reg: int, isJsr: bool, m': Machine)
    requires 0 <= mode < 8 && 0 <= reg < 8 && ControlMode(mode, reg)
    ensures JmpDone(m, mode, reg, isJsr, m') ==> JumpShown(m, mode, reg, isJsr, m')
  {
    hide EaAddress, EaFault, Pushed, AfterFault, Number, ExtensionWords, ControlEaCycles;
    var e := AtTarget(m, mode, reg);
    EaCyclesCount(mode, reg, LongSize);
    PushedInPlace(e, e.pc, LongSize);
    PushedRest(e, e.pc, LongSize);
  }

  lemma ControlTarget(m: Machine, mode: int, reg: int, ea: Ea, m': Machine)
    requires 0 <= reg < 8
    ensures ControlMode(mode, reg) && EaResolved(m, mode, reg, LongSize, false, ea, m') ==>
      && ea.address == EaAddress(m, mode, reg, LongSize)
      && m'.ppc == m.ppc && |m'.mem| == |m.mem| && m'.nesting == m.nesting
      && ControlEaCycles(mode, reg, true) >= 8
  {
    hide EaAddress, Plus;
  }

  /** The trap cost of CHK: the 40-cycle path is taken only when the raw difference is positive. */
  function ChkCost(src: int, bound: int): int {
    if src > bound || (bound - src) % 0x1_0000 >= 0x8000 then 38 else 40
  }

  predicate OutOfBounds(src: int, bound: int) {
    src < 0 || src > bound
  }

  /** What stops an instruction with one data operand: a mode that is no data mode traps instead. */
  function DataStop(m: Machine, mode: int, reg: int): Option<Stop>
    requires 0 <= reg < 8
  {
    if DataMode(mode, reg) then OperandStop(m, mode, reg, WordSize) else None
  }

  /** CHK traps exactly when the signed word is negative or above the bound. */
  predicate ChkDone(m: Machine, dn: int, mode: int, reg: int, m': Machine)
    requires 0 <= dn < 8 && 0 <= reg < 8
  {
    if !DataMode(mode, reg) then Raised(m, 4, m')
    else
      var src, bound := Signed(m.d[dn], WordSize), Signed(OperandValue(m, mode, reg, WordSize), WordSize);
      var e := AfterOperand(m, mode, reg, WordSize).(sr := WithNZVC(m.sr, src < 0, false, false, false));
      if OutOfBounds(src, bound) then Raised(Charged(e, ChkCost(src, bound)), 6, m') else m' == e
  }

  /**
   CHK in numbers: N shows the sign of the word, and the trap costs 40 cycles exactly when
   the word is negative and at most 0x7FFF below the bound, else 38.
   */
  predicate CheckShown(m: Machine, dn: int, mode: int, reg: int, m': Machine)
    requires 0 <= dn < 8 && 0 <= reg < 8
  {
    var src := SignedWord(m.d[dn] % 0x1_0000);
    var bound := SignedWord(OperandValue(m, mode, reg, WordSize) % 0x1_0000);
    var spent := m.slice.remaining - m'.slice.remaining - EaCycles(mode, reg, WordSize);
    if 0 <= src <= bound then
      spent == 0 && m'.history == m.history && FlagsAre(m'.sr, m.sr, FlagX(m.sr), false, false, false, false)
    else
      && spent == (if src < 0 && 0 <= bound - src < 0x8000 then 40 else 38)
      && m.history.raised + [6] <= m'.history.raised
  }

  lemma CheckIsShown(m: Machine, dn: int, mode: int, reg: int, m': Machine)
    requires 0 <= dn < 8 && 0 <= mode < 8 && 0 <= reg < 8 && DataMode(mode, reg)
    ensures ChkDone(m, dn, mode, reg, m') ==> CheckShown(m, dn, mode, reg, m')
  {
    hide OperandValue, EaRegisters, EaFault, EaCycles, Stackable, Raise, VectorLoaded, FlagS, Clean, FlagX, FlagN,
         FlagZ, FlagV, FlagC, Signed, SignedWord, ChkCost, WithNZVC, FlagsAre, NestingKeeps, SrKeeps;
    WordReading(m.d[dn]);
    WordReading(OperandValue(m, mode, reg, WordSize));
    var src, bound := Signed(m.d[dn], WordSize), Signed(OperandValue(m, mode, reg, WordSize), WordSize);
    CheckCost(src, bound);
    WithNZVCFlags(m.sr, false, false, false, false);
  }

  lemma WordReading(x: Long)
    ensures Signed(x, WordSize) == SignedWord(x % 0x1_0000) && -0x8000 <= Signed(x, WordSize) < 0x8000
  {
  }

  lemma CheckCost(src: int, bound: int)
    requires -0x8000 <= src < 0x8000 && -0x8000 <= bound < 0x8000
    ensures OutOfBounds(src, bound) ==>
      ChkCost(src, bound) == if src < 0 && 0 <= bound - src < 0x8000 then 40 else 38
  {
  }

  method ExecChk(cpu: Cpu, dn: int, mode: int, reg: int) returns (r: Outcome<()>)
    requires Executing(cpu.Abs()) && 0 <= dn < 8 && 0 <= mode < 8 && 0 <= reg < 8
    requires cpu.nesting.thrown == 0
    modifies cpu, cpu.memory
    ensures Executing(cpu.Abs())
    ensures StepKeeps(old(cpu.Abs()), cpu.Abs(), if r.Ok? && cpu.nesting.thrown == 6 then 38 else 0)
    ensures r.Ok? ==> cpu.nesting.thrown == 0 || cpu.nesting.thrown == 4 || cpu.nesting.thrown == 6
    ensures Ends(DataStop(old(cpu.Abs()), mode, reg), r.Ok?, cpu.Abs())
    ensures r.Ok? ==> ChkDone(old(cpu.Abs()), dn, mode, reg, cpu.Abs())
  {
    hide StepKeeps, StoppedAt, OperandStop, AfterOperand, EaResolved, EaCompletes, WithNZVC, EaCycles, OperandValue,
         Signed, Raised;
    ghost var m := cpu.Abs();
    if mode == 1 || (mode == 7 && reg > 4) {
      Trap(cpu, 4);
      return Ok(());
    }
    var ea := cpu.CalcEa(mode, reg, WordSize);
    ghost var m1 := cpu.Abs();
    StepKeepsLess(m, m1, EaCycles(mode, reg, WordSize), 0);
    if ea.Abort? {
      return Abort;
    }
    ResolvedRest(m, mode, reg, WordSize, true, ea.value, m1);
    var src := Signed(cpu.d[dn], WordSize);
    var bound := Signed(ea.value.value, WordSize);
    NzvcKeeps(m1, src < 0, false, false, false);
    cpu.SetCcr(WithNZVC(cpu.sr, src < 0, false, false, false));
    ghost var m2 := cpu.Abs();
    StepKeepsTransitive(m, m1, m2, 0, 0);
    if 0 <= src && src <= bound {
      return Ok(());
    }
    ChkTrap(cpu, src, bound);
    StepKeepsTransitive(m, m2, cpu.Abs(), 0, 38);
    return Ok(());
  }

  method ChkTrap(cpu: Cpu, src: int, bound: int)
    requires Executing(cpu.Abs()) && cpu.nesting.thrown == 0
    modifies cpu, cpu.memory
    ensures Executing(cpu.Abs()) && StepKeeps(old(cpu.Abs()), cpu.Abs(), 38) && cpu.nesting.thrown == 6
    ensures Raised(Charged(old(cpu.Abs()), ChkCost(src, bound)), 6, cpu.Abs())
  {
    hide StepKeeps, Raised;
    ghost var m := cpu.Abs();
    var cost := ChkCost(src, bound);
    cpu.Charge(cost);
    ChargeKeeps(m, cost);
    ghost var m1 := cpu.Abs();
    Trap(cpu, 6);
    StepKeepsTransitive(m, m1, cpu.Abs(), cost, 0);
    StepKeepsLess(m, cpu.Abs(), cost, 38);
  }

  /** RTR takes the condition codes and the PC from the stack. */
  predicate RtrDone(m: Machine, m': Machine) {
    var ccr := WordSr(BusValue(m, m.a[7], WordSize));
    m' == m.(sr := WithCcr(m.sr, ccr), pc := BusValue(m, Plus(m.a[7], 2), LongSize),
             a := SetRegister(m.a, 7, Plus(m.a[7], 6)))
  }

  /** RTR in numbers: the codes are the five low bits of the popped word, whose other bits do not matter. */
  lemma RtrIsShown(m: Machine, m': Machine)
    ensures var w := BusValue(m, m.a[7], WordSize);
            RtrDone(m, m') ==>
              && (FlagC(m'.sr) <==> w % 2 == 1) && (FlagV(m'.sr) <==> w / 2 % 2 == 1)
              && (FlagZ(m'.sr) <==> w / 4 % 2 == 1) && (FlagN(m'.sr) <==> w / 8 % 2 == 1)
              && (FlagX(m'.sr) <==> w / 0x10 % 2 == 1)
              && m'.sr & 0xFF00 == m.sr & 0xFF00 && (Clean(m.sr) ==> Clean(m'.sr))
              && m'.pc == BusValue(m, Plus(m.a[7], 2), LongSize) && m'.a[7] == Plus(m.a[7], 6)
  {
    hide BusValue, WithCcr, SrWord, WordSr, FlagC, FlagV, FlagZ, FlagN, FlagX, Clean;
    WordValue(m, m.a[7]);
    var w: Word := BusValue(m, m.a[7], WordSize);
    WithCcrFlags(m.sr, WordSr(w));
    WordRoundTrip(w);
    StatusBits(WordSr(w));
  }

  method ExecRtr(cpu: Cpu) returns (r: Outcome<()>)
    requires Executing(cpu.Abs())
    modifies cpu, cpu.memory
    ensures Executing(cpu.Abs()) && StepKeeps(old(cpu.Abs()), cpu.Abs(), 0)
    ensures r.Ok? ==> cpu.nesting == old(cpu.nesting)
    ensures Ends(PopStop(old(cpu.Abs())), r.Ok?, cpu.Abs())
    ensures r.Ok? ==> RtrDone(old(cpu.Abs()), cpu.Abs())
  {
    hide StepKeeps, StoppedAt, PopStop, Plus, BusValue, WordSr, WithCcr;
    ghost var m := cpu.Abs();
    var popped :- PopWordAndLong(cpu);
    ghost var m1 := cpu.Abs();
    LowByteKeeps(m1, WordSr(popped.0));
    cpu.SetCcr(WithCcr(cpu.sr, WordSr(popped.0)));
    ghost var m2 := cpu.Abs();
    StepKeepsTransitive(m, m1, m2, 0, 0);
    cpu.SetPc(popped.1);
    PcKeeps(m2, popped.1);
    StepKeepsTransitive(m, m2, cpu.Abs(), 0, 0);
    return Ok(());
  }

  /** What stops a privileged instruction with an immediate word. */
  function PrivilegedStop(m: Machine): Option<Stop> {
    if FlagS(m.sr) then FetchStop(m, 1) else None
  }

  /** STOP is privileged; it loads the status register and stops. */
  predicate StopDone(m: Machine, m': Machine) {
    if !FlagS(m.sr) then Raised(OnInstruction(m), 8, m')
    else m' == SetSr(m.(pc := Plus(m.pc, 2), lines := m.lines.(stopped := true)), WordSr(WordAt(m, m.pc)))
  }

  method ExecStop(cpu: Cpu) returns (r: Outcome<()>)
    requires Executing(cpu.Abs())
    modifies cpu, cpu.memory
    ensures Executing(cpu.Abs()) && StepKeeps(old(cpu.Abs()), cpu.Abs(), 0)
    ensures r.Ok? && old(cpu.nesting.thrown) == 0 ==> cpu.nesting.thrown == 0 || cpu.nesting.thrown == 8
    ensures Ends(PrivilegedStop(old(cpu.Abs())), r.Ok?, cpu.Abs())
    ensures r.Ok? ==> StopDone(old(cpu.Abs()), cpu.Abs())
  {
    hide StepKeeps, StoppedAt, FetchStop, FlagS, SetSr, WordAt, FaultVector, Plus, Raised;
    ghost var m := cpu.Abs();
    if !FlagS(cpu.sr) {
      PrivilegeViolation(cpu);
      return Ok(());
    }
    var word :- cpu.Fetch();
    ghost var m1 := cpu.Abs();
    SetSrKeeps(m1, WordSr(word));
    SetSrLines(m1, WordSr(word), m1.lines.(stopped := true));
    cpu.SetStatus(WordSr(word));
    ghost var m2 := cpu.Abs();
    cpu.lines := cpu.lines.(stopped := true);
    StepKeepsTransitive(m, m1, m2, 0, 0);
    StopKeeps(m2);
    StepKeepsTransitive(m, m2, cpu.Abs(), 0, 0);
    return Ok(());
  }
}
