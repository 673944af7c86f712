/**
 Arithmetic instructions: the extended and decimal operations that chains are made of,
 division, multiplication and comparison.
 */
module OpsArith {
  import opened Words
  import opened StatusRegister
  import opened MachineState
  import opened Core
  import opened OpsControl
  import opened OpsLogic
  import opened Bcd
  import opened MultiPrecision
  import D = Divider
  import Exceptions

  // ------------------------------------------------- predecremented operands

  function PredecAddress(m: Machine, reg: int, size: Size): Long
    requires 0 <= reg < 8
  {
    Minus(m.a[reg], AddressStep(reg, size))
  }

  function Predecremented(m: Machine, reg: int, size: Size): Machine
    requires 0 <= reg < 8
  {
    m.(a := SetRegister(m.a, reg, PredecAddress(m, reg, size)))
  }

  /** A long operand is two word reads, which may wrap round the end of the bus between them. */
  function PredecValue(m: Machine, reg: int, size: Size): Long
    requires 0 <= reg < 8
  {
    var base := PredecAddress(m, reg, size);
    if size == LongSize then Join(WordAt(m, base), WordAt(m, Plus(base, 2))) else BusValue(m, base, size)
  }

  /** What stops a predecremented read: a long one goes low word first and commits the register last. */
  function PredecStop(m: Machine, reg: int, size: Size): Option<Stop>
    requires 0 <= reg < 8
  {
    var base := PredecAddress(m, reg, size);
    if size == LongSize then First(ReadStop(m, Plus(base, 2), WordSize), ReadStop(m, base, WordSize))
    else ReadStop(Predecremented(m, reg, size), base, size)
  }

  predicate PredecReads(m: Machine, reg: int, size: Size)
    requires 0 <= reg < 8
  {
    PredecStop(m, reg, size).None?
  }

  /** The long form reads the low word first and moves the register last. */
  method ReadPredecrement(cpu: Cpu, reg: int, size: Size) returns (r: Outcome<Long>)
    requires Executing(cpu.Abs()) && 0 <= reg < 8
    modifies cpu, cpu.memory
    ensures Executing(cpu.Abs()) && StepKeeps(old(cpu.Abs()), cpu.Abs(), 0)
    ensures Ends(PredecStop(old(cpu.Abs()), reg, size), r.Ok?, cpu.Abs())
    ensures r.Ok? ==> cpu.Abs() == Predecremented(old(cpu.Abs()), reg, size)
    ensures r.Ok? ==> r.value == PredecValue(old(cpu.Abs()), reg, size)
    ensures r.Ok? ==> PointerMoved(old(cpu.a), 4, reg, size, cpu.a) && (old(cpu.a)[7] % 2 == 0 ==> cpu.a[7] % 2 == 0)
  {
    hide StepKeeps, StoppedAt, ReadStop, Minus, Plus, Mask24, Get16, PointerMoved;
    ghost var m := cpu.Abs();
    EaPointer(m, 4, reg, size);
    EvenStack(m.a, 4, reg, size, EaRegisters(m, 4, reg, size));
    if size == LongSize {
      var base := Minus(cpu.a[reg], 4);
      var lo :- ReadFrom(cpu, Plus(base, 2), WordSize);
      var hi :- ReadFrom(cpu, base, WordSize);
      RegisterKeeps(m, reg, base);
      cpu.SetA(reg, base);
      return Ok(Join(hi, lo));
    }
    var address := Minus(cpu.a[reg], AddressStep(reg, size));
    RegisterKeeps(m, reg, address);
    cpu.SetA(reg, address);
    ghost var m1 := cpu.Abs();
    r := ReadFrom(cpu, address, size);
    StepKeepsTransitive(m, m1, cpu.Abs(), 0, 0);
  }

  /** ADDX and SUBX before their first read: the fault PC is latched and six cycles are spent. */
  function Primed(m: Machine): Machine {
    Charged(WithFaultPc(m, Plus(m.pc, 2)), 6)
  }

  /** The source has been read, and the next share of the cost is spent. */
  function SourceRead(m: Machine, ry: int, size: Size): Machine
    requires 0 <= ry < 8
  {
    Charged(Predecremented(Primed(m), ry, size), if size == LongSize then 8 else 4)
  }

  /** Both operands have been read. */
  function BothRead(m: Machine, ry: int, rx: int, size: Size): Machine
    requires 0 <= ry < 8 && 0 <= rx < 8
  {
    Predecremented(SourceRead(m, ry, size), rx, size)
  }

  function BothStop(m: Machine, ry: int, rx: int, size: Size): Option<Stop>
    requires 0 <= ry < 8 && 0 <= rx < 8
  {
    First(PredecStop(Primed(m), ry, size), PredecStop(SourceRead(m, ry, size), rx, size))
  }

  /** The source read of ADDX and SUBX, charged before it happens, and the next share of the cost. */
  method ReadSource(cpu: Cpu, ry: int, size: Size) returns (r: Outcome<Long>)
    requires Executing(cpu.Abs()) && 0 <= ry < 8
    modifies cpu, cpu.memory
    ensures Executing(cpu.Abs()) && StepKeeps(old(cpu.Abs()), cpu.Abs(), 6)
    ensures Ends(PredecStop(Primed(old(cpu.Abs())), ry, size), r.Ok?, cpu.Abs())
    ensures r.Ok? ==> r.value == PredecValue(old(cpu.Abs()), ry, size)
    ensures r.Ok? ==> cpu.Abs() == SourceRead(old(cpu.Abs()), ry, size)
  {
    hide StepKeeps, StoppedAt, PredecStop, PredecValue, Minus, Plus, Predecremented;
    ghost var m := cpu.Abs();
    cpu.LatchFaultPc(Plus(cpu.pc, 2));
    LatchKeeps(m, cpu.Abs());
    ghost var m1 := cpu.Abs();
    cpu.Charge(6);
    ChargeKeeps(m1, 6);
    ghost var m2 := cpu.Abs();
    StepKeepsTransitive(m, m1, m2, 0, 6);
    PredecSame(m, m2, ry, size);
    r := ReadPredecrement(cpu, ry, size);
    ghost var m3 := cpu.Abs();
    StepKeepsTransitive(m, m2, m3, 6, 0);
    if r.Ok? {
      var share := if size == LongSize then 8 else 4;
      cpu.Charge(share);
      ChargeKeeps(m3, share);
      StepKeepsTransitive(m, m3, cpu.Abs(), 6, share);
      StepKeepsLess(m, cpu.Abs(), 6 + share, 6);
    }
  }

  /** Both operands of ADDX and SUBX. */
  method ReadBoth(cpu: Cpu, ry: int, rx: int, size: Size) returns (r: Outcome<(Long, Long)>)
    requires Executing(cpu.Abs()) && 0 <= ry < 8 && 0 <= rx < 8
    modifies cpu, cpu.memory
    ensures Executing(cpu.Abs()) && StepKeeps(old(cpu.Abs()), cpu.Abs(), 6)
    ensures Ends(BothStop(old(cpu.Abs()), ry, rx, size), r.Ok?, cpu.Abs())
    ensures r.Ok? ==>
      var m := old(cpu.Abs());
      && cpu.Abs() == BothRead(m, ry, rx, size)
      && r.value == (PredecValue(m, ry, size), PredecValue(Predecremented(m, ry, size), rx, size))
  {
    hide StepKeeps, StoppedAt, PredecStop, PredecValue, Minus, Plus, Primed;
    ghost var m := cpu.Abs();
    var src :- ReadSource(cpu, ry, size);
    ghost var m1 := cpu.Abs();
    SourceReadRest(m, ry, size);
    PredecSame(Predecremented(m, ry, size), m1, rx, size);
    var dest := ReadPredecrement(cpu, rx, size);
    StepKeepsTransitive(m, m1, cpu.Abs(), 6, 0);
    if dest.Abort? {
      return Abort;
    }
    return Ok((src, dest.value));
  }

  lemma SourceReadRest(m: Machine, ry: int, size: Size)
    requires 0 <= ry < 8
    ensures SourceRead(m, ry, size).a == Predecremented(m, ry, size).a
    ensures SourceRead(m, ry, size).mem == m.mem && SourceRead(m, ry, size).nesting == m.nesting
    ensures SourceRead(m, ry, size).sr == m.sr
  {
    hide Minus, Plus;
  }

  /** Fault latches and charges do not matter to a read. */
  lemma PredecSame(m: Machine, m': Machine, reg: int, size: Size)
    requires 0 <= reg < 8 && m'.a == m.a && m'.mem == m.mem && m'.nesting == m.nesting
    ensures PredecReads(m', reg, size) == PredecReads(m, reg, size)
    ensures PredecValue(m', reg, size) == PredecValue(m, reg, size)
    ensures Predecremented(m', reg, size) == m'.(a := Predecremented(m, reg, size).a)
  {
    hide Minus, Plus, Mask24, Get16, Operand;
  }

  /** The word a predecremented read faults on: the low word of a long operand unless that one can be read. */
  function FaultedRead(m: Machine, reg: int, size: Size): Long
    requires 0 <= reg < 8
  {
    var base := PredecAddress(m, reg, size);
    if size == LongSize && FaultVector(m, Plus(base, 2), WordSize).Some? then Plus(base, 2) else base
  }

  /** The registers while a predecremented read can fault: a long one has not moved its own yet. */
  function ReadingRegisters(m: Machine, reg: int, size: Size): Registers
    requires 0 <= reg < 8
  {
    if size == LongSize then m.a else Predecremented(m, reg, size).a
  }

  /** The read at which ADDX or SUBX faults, and what has been committed and charged by then. */
  predicate FaultedLimb(m: Machine, ry: int, rx: int, size: Size, stop: Stop)
    requires 0 <= ry < 8 && 0 <= rx < 8
  {
    var inSource := PredecStop(Primed(m), ry, size).Some?;
    var before := if inSource then m else Predecremented(m, ry, size);
    var reg := if inSource then ry else rx;
    && stop.Access? && !stop.isWrite && !stop.isProgram && Group0(stop.vector)
    && stop.address == FaultedRead(before, reg, size)
    && stop.at == m.(a := ReadingRegisters(before, reg, size), fault := WithFaultPc(m, Plus(m.pc, 2)).fault,
                     slice := Charged(m, if inSource then 6 else if size == LongSize then 14 else 10).slice)
  }

  lemma PredecStopShape(m: Machine, reg: int, size: Size)
    requires 0 <= reg < 8 && PredecStop(m, reg, size).Some?
    ensures var stop := PredecStop(m, reg, size).value;
            && stop.Access? && !stop.isWrite && !stop.isProgram && Group0(stop.vector)
            && stop.address == FaultedRead(m, reg, size) && stop.at == m.(a := ReadingRegisters(m, reg, size))
  {
    FaultNumber(m, Plus(PredecAddress(m, reg, size), 2), WordSize);
    FaultNumber(m, PredecAddress(m, reg, size), WordSize);
    FaultNumber(Predecremented(m, reg, size), PredecAddress(m, reg, size), size);
    hide FaultVector, Minus, Plus;
  }

  lemma FaultedReadSame(m: Machine, m': Machine, reg: int, size: Size)
    requires 0 <= reg < 8 && m'.a == m.a && m'.mem == m.mem && m'.nesting == m.nesting
    ensures FaultedRead(m', reg, size) == FaultedRead(m, reg, size)
    ensures ReadingRegisters(m', reg, size) == ReadingRegisters(m, reg, size)
  {
    hide Minus, Plus, Mask24;
  }

  /**
   A faulted operand of ADDX or SUBX is precise: memory changes in the frame alone, a long
   operand faults on its low word first and has not moved its register, a shorter one has,
   and the frame stacks the next PC.
   */
  lemma ExtendedFaultIsPrecise(m: Machine, ry: int, rx: int, size: Size, m': Machine)
    requires 0 <= ry < 8 && 0 <= rx < 8 && BothStop(m, ry, rx, size).Some?
    ensures FaultedLimb(m, ry, rx, size, BothStop(m, ry, rx, size).value)
    ensures var stop := BothStop(m, ry, rx, size).value;
            StoppedAt(stop, m') && Exceptions.FaultRoom(stop.at, stop.vector) ==>
              Exceptions.Precise(stop.at, stop.vector, stop.address, false, false, m')
  {
    hide PredecStop, FaultedRead, ReadingRegisters, Plus, AfterFault, Exceptions.Precise, Exceptions.FaultRoom,
         Predecremented;
    var stop := BothStop(m, ry, rx, size).value;
    SourceReadRest(m, ry, size);
    if PredecStop(Primed(m), ry, size).Some? {
      PredecStopShape(Primed(m), ry, size);
      FaultedReadSame(m, Primed(m), ry, size);
    } else {
      SourceReadShape(m, ry, size);
      PredecStopShape(SourceRead(m, ry, size), rx, size);
      FaultedReadSame(Predecremented(m, ry, size), SourceRead(m, ry, size), rx, size);
    }
    if Exceptions.FaultRoom(stop.at, stop.vector) {
      Exceptions.FaultIsPrecise(stop.at, stop.vector, stop.address, false, false, m');
    }
  }

  lemma SourceReadShape(m: Machine, ry: int, size: Size)
    requires 0 <= ry < 8
    ensures var r := SourceRead(m, ry, size);
            && r == m.(a := r.a, fault := WithFaultPc(m, Plus(m.pc, 2)).fault,
                       slice := Charged(m, if size == LongSize then 14 else 10).slice)
            && Predecremented(m, ry, size) == m.(a := r.a)
  {
    hide Minus, Plus;
  }

  // ------------------------------------------------------------ ADDX and SUBX

  function ExtendedResult(subtract: bool, src: Long, dest: Long, x: int): Long {
    if subtract then Wrap(dest - src - x) else Wrap(dest + src + x)
  }

  function ExtendedSr(subtract: bool, sr: bv16, src: Long, dest: Long, result: Long, size: Size): bv16 {
    StickyZero(sr,
               if subtract then UpdateFlagsSub(sr, src, dest, result, size)
               else UpdateFlagsAdd(sr, src, dest, result, size),
               result, size)
  }

  lemma ZeroCleared(sr: bv16, before: bv16, x: bool, n: bool, z: bool, v: bool, c: bool)
    ensures FlagsAre(sr, before, x, n, z, v, c) ==> FlagsAre(sr & 0xFFFB, before, x, n, false, v, c)
  {
  }

  lemma ZeroSet(sr: bv16, before: bv16, x: bool, n: bool, z: bool, v: bool, c: bool)
    ensures FlagsAre(sr, before, x, n, z, v, c) ==> FlagsAre(sr | 0x4, before, x, n, true, v, c)
  {
  }

  lemma StickyFlags(before: bv16, updated: bv16, x: bool, n: bool, z: bool, v: bool, c: bool, result: Long, size: Size)
    ensures FlagsAre(updated, before, x, n, z, v, c) ==>
      FlagsAre(StickyZero(before, updated, result, size), before, x, n, FlagZ(before) && Low(result, size) == 0, v, c)
  {
    ZeroCleared(updated, before, x, n, z, v, c);
    ZeroSet(updated, before, x, n, z, v, c);
    hide Low, FlagZ, FlagX, FlagN, FlagV, FlagC;
  }

  /** The flags of ADDX and SUBX: true carry and signed overflow, and a Z that only clears. */
  lemma ExtendedFlags(subtract: bool, sr: bv16, src: Long, dest: Long, size: Size)
    ensures var result := ExtendedResult(subtract, src, dest, Carry(sr));
            var t := if subtract then Low(dest, size) - Low(src, size) - Carry(sr)
                else Low(dest, size) + Low(src, size) + Carry(sr);
            var exact := if subtract then Signed(dest, size) - Signed(src, size) - Carry(sr)
                         else Signed(dest, size) + Signed(src, size) + Carry(sr);
            var carry := if subtract then t < 0 else t >= size.Modulus();
            && Low(result, size) == t % size.Modulus()
            && FlagsAre(ExtendedSr(subtract, sr, src, dest, result, size), sr, carry, Negative(result, size),
                        FlagZ(sr) && t % size.Modulus() == 0, !InSignedRange(exact, size), carry)
  {
    hide FlagsAre, UpdateFlagsAdd, UpdateFlagsSub, StickyZero, InSignedRange, Low, Negative, Signed;
    var x, result := Carry(sr), ExtendedResult(subtract, src, dest, Carry(sr));
    if subtract {
      SubFlags(sr, src, dest, x, size);
      var t, exact := Low(dest, size) - Low(src, size) - x, Signed(dest, size) - Signed(src, size) - x;
      StickyFlags(sr, UpdateFlagsSub(sr, src, dest, result, size), t < 0, Negative(result, size),
                  t % size.Modulus() == 0, !InSignedRange(exact, size), t < 0, result, size);
    } else {
      AddFlags(sr, src, dest, x, size);
      var t, exact := Low(dest, size) + Low(src, size) + x, Signed(dest, size) + Signed(src, size) + x;
      StickyFlags(sr, UpdateFlagsAdd(sr, src, dest, result, size), t >= size.Modulus(), Negative(result, size),
                  t % size.Modulus() == 0, !InSignedRange(exact, size), t >= size.Modulus(), result, size);
    }
  }

  function ExtendedOp(subtract: bool, size: Size): LimbOp {
    if subtract then SubX(size) else AddX(size)
  }

  /** What stops the memory form: either read, or the write of the result. */
  function ExtendedStop(m: Machine, ry: int, rx: int, size: Size): Option<Stop>
    requires 0 <= ry < 8 && 0 <= rx < 8
  {
    var b := BothRead(m, ry, rx, size);
    First(BothStop(m, ry, rx, size), WriteStop(b, b.a[rx], size))
  }

  /** The exact effect of the memory form. */
  predicate ExtendedDone(subtract: bool, ry: int, rx: int, size: Size, m: Machine, m': Machine)
    requires 0 <= ry < 8 && 0 <= rx < 8
  {
    var b := BothRead(m, ry, rx, size);
    var src, dest := PredecValue(m, ry, size), PredecValue(Predecremented(m, ry, size), rx, size);
    var result := ExtendedResult(subtract, src, dest, Carry(m.sr));
    m' == Stored(b, b.a[rx], result, size).(sr := ExtendedSr(subtract, m.sr, src, dest, result, size))
  }

  /** Both operands lie in memory, aligned, below two different pointers. */
  predicate LimbReady(m: Machine, ry: int, rx: int, size: Size)
    requires 0 <= ry < 8 && 0 <= rx < 8
  {
    var s, d := PredecAddress(m, ry, size), PredecAddress(m, rx, size);
    && ry != rx && (size != ByteSize ==> !Odd(s) && !Odd(d))
    && InMemory(m, s, size.Bytes()) && InMemory(m, d, size.Bytes())
  }

  lemma PredecIsOperand(m: Machine, reg: int, size: Size)
    requires 0 <= reg < 8
    requires var a := PredecAddress(m, reg, size); InMemory(m, a, size.Bytes()) && (size != ByteSize ==> !Odd(a))
    ensures PredecReads(m, reg, size)
    ensures PredecValue(m, reg, size) == Operand(m.mem, Mask24(PredecAddress(m, reg, size)), size)
  {
    hide Minus, Mask24, AddressStep;
    if size == LongSize {
      BusOffset(PredecAddress(m, reg, size), 2);
      ImmediateBytes(m.mem, Mask24(PredecAddress(m, reg, size)));
    }
    hide Plus, Get16, Get32, Join;
  }

  /** The operands of a memory form whose two pointers differ. */
  lemma ReadyOperands(m: Machine, ry: int, rx: int, size: Size)
    requires 0 <= ry < 8 && 0 <= rx < 8 && LimbReady(m, ry, rx, size)
    ensures var m1 := Predecremented(m, ry, size);
            && PredecReads(m, ry, size) && PredecReads(m1, rx, size)
            && PredecValue(m, ry, size) == Operand(m.mem, Mask24(PredecAddress(m, ry, size)), size)
            && PredecValue(m1, rx, size) == Operand(m.mem, Mask24(PredecAddress(m, rx, size)), size)
            && PredecAddress(m1, rx, size) == PredecAddress(m, rx, size)
            && Predecremented(m1, rx, size).a[ry] == PredecAddress(m, ry, size)
            && Predecremented(m1, rx, size).a[rx] == PredecAddress(m, rx, size)
  {
    hide Minus, Mask24, AddressStep;
    PredecIsOperand(m, ry, size);
    var m1 := Predecremented(m, ry, size);
    assert m1.a[rx] == m.a[rx];
    PredecIsOperand(m1, rx, size);
    hide PredecReads, PredecValue, Operand;
  }

  lemma SameBytes(x: Long, size: Size)
    ensures OperandBytes(Low(x, size), size) == OperandBytes(x, size)
  {
    LowTwice(x, size);
    hide Be16, Be32;
  }

  /** The memory form does one limb of a chain. */
  lemma ExtendedIsLimb(subtract: bool, ry: int, rx: int, size: Size, m: Machine, m': Machine)
    requires 0 <= ry < 8 && 0 <= rx < 8 && LimbReady(m, ry, rx, size)
    ensures ExtendedDone(subtract, ry, rx, size, m, m') ==>
      LimbStep(ExtendedOp(subtract, size), AddressStep(ry, size), AddressStep(rx, size),
               ViewOf(m, ry, rx, FlagX(m.sr), FlagZ(m.sr)), ViewOf(m', ry, rx, FlagX(m'.sr), FlagZ(m'.sr)))
  {
    hide Minus, Mask24, Operand, Low, ExtendedSr, ExtendedResult, LimbResult, FlagX, FlagZ, OperandBytes, Splice,
         PredecReads, PredecValue, AddressStep;
    if ExtendedDone(subtract, ry, rx, size, m, m') {
      ReadyOperands(m, ry, rx, size);
      var s := Operand(m.mem, Mask24(PredecAddress(m, ry, size)), size);
      var d := Operand(m.mem, Mask24(PredecAddress(m, rx, size)), size);
      var result := ExtendedResult(subtract, s, d, Carry(m.sr));
      ExtendedLimb(subtract, m.sr, s, d, size);
      SameBytes(result, size);
    }
  }

  lemma ExtendedLimb(subtract: bool, sr: bv16, s: Long, d: Long, size: Size)
    ensures var result := ExtendedResult(subtract, s, d, Carry(sr));
            var r, sr' := LimbResult(ExtendedOp(subtract, size), s, d, FlagX(sr)),
                ExtendedSr(subtract, sr, s, d, result, size);
            r.0 == Low(result, size) && FlagX(sr') == r.1 && FlagZ(sr') == (FlagZ(sr) && r.0 == 0)
  {
    ExtendedFlags(subtract, sr, s, d, size);
    hide ExtendedSr, Low, Signed, Negative, InSignedRange, FlagX, FlagZ, FlagN, FlagC, FlagV;
  }

  /** The common end of the memory form: write, then the flags. */
  method WriteExtended(cpu: Cpu, subtract: bool, rx: int, size: Size, src: Long, dest: Long) returns (r: Outcome<()>)
    requires Executing(cpu.Abs()) && 0 <= rx < 8
    modifies cpu, cpu.memory
    ensures Executing(cpu.Abs()) && StepKeeps(old(cpu.Abs()), cpu.Abs(), 0)
    ensures Ends(WriteStop(old(cpu.Abs()), old(cpu.a[rx]), size), r.Ok?, cpu.Abs())
    ensures r.Ok? ==>
      var m := old(cpu.Abs());
      var result := ExtendedResult(subtract, src, dest, Carry(m.sr));
      cpu.Abs() == Stored(m, m.a[rx], result, size).(sr := ExtendedSr(subtract, m.sr, src, dest, result, size))
  {
    hide StepKeeps, StoppedAt, WriteStop, Stored, ExtendedSr, ExtendedResult;
    ghost var m := cpu.Abs();
    var result := ExtendedResult(subtract, src, dest, Carry(cpu.sr));
    StoredRest(m, cpu.a[rx], result, size);
    var _ :- WriteTo(cpu, cpu.a[rx], result, size);
    ghost var m1 := cpu.Abs();
    ExtendedKeepsRest(subtract, cpu.sr, src, dest, size);
    cpu.SetCcr(ExtendedSr(subtract, cpu.sr, src, dest, result, size));
    CcrKeeps(m1, cpu.sr);
    StepKeepsTransitive(m, m1, cpu.Abs(), 0, 0);
    return Ok(());
  }

  /** One limb in numbers: d + s + x or d - s - x, with its carry in X and C and a sticky zero. */
  predicate LimbNumbers(subtract: bool, n: int, d: int, s: int, sr: bv16, r: int, sr': bv16) {
    var x := if FlagX(sr) then 1 else 0;
    && (if subtract then r - (if FlagX(sr') then n else 0) == d - s - x
        else r + (if FlagX(sr') then n else 0) == d + s + x)
    && FlagC(sr') == FlagX(sr') && (FlagZ(sr') <==> FlagZ(sr) && r == 0) && FlagN(sr') == (r >= n / 2)
  }

  lemma LimbIsNumbers(subtract: bool, sr: bv16, src: Long, dest: Long, size: Size)
    ensures var n, result := size.Modulus(), ExtendedResult(subtract, src, dest, Carry(sr));
            LimbNumbers(subtract, n, dest % n, src % n, sr, result % n,
                        ExtendedSr(subtract, sr, src, dest, result, size))
  {
    hide ExtendedResult, ExtendedSr, InSignedRange, Signed, FlagX, FlagZ, FlagN, FlagV, FlagC, Size.Modulus, Size.Msb;
    var result, n := ExtendedResult(subtract, src, dest, Carry(sr)), size.Modulus();
    HalfModulus(size);
    ExtendedFlags(subtract, sr, src, dest, size);
    LimbResidue(dest % n + src % n + Carry(sr), n);
    LimbResidue(dest % n - src % n - Carry(sr), n);
    assert Negative(result, size) == (result % n >= n / 2);
  }

  /** The register forms of ADDX and SUBX in numbers. */
  lemma ExtendedRegisterShown(subtract: bool, size: Size, ry: int, rx: int, m: Machine, m': Machine)
    requires 0 <= ry < 8 && 0 <= rx < 8
    ensures var n := size.Modulus();
            ExtendedForm(subtract, size, ry, rx, false, m, m') ==>
              && m'.d[rx] / n == m.d[rx] / n
              && LimbNumbers(subtract, n, m.d[rx] % n, m.d[ry] % n, m.sr, m'.d[rx] % n, m'.sr)
  {
    hide ExtendedResult, ExtendedSr, Merge, LimbNumbers, Carry;
    MergeParts(m.d[rx], ExtendedResult(subtract, m.d[ry], m.d[rx], Carry(m.sr)), size);
    LimbIsNumbers(subtract, m.sr, m.d[ry], m.d[rx], size);
  }

  lemma HalfModulus(size: Size)
    ensures size.Modulus() > 0 && size.Modulus() / 2 == size.Msb()
  {
  }

  lemma LimbResidue(t: int, n: int)
    requires n > 0 && -n <= t < 2 * n
    ensures t >= 0 ==> t % n + (if t >= n then n else 0) == t
    ensures t < n ==> t % n - (if t < 0 then n else 0) == t
  {
    var q := if t >= n then 1 else if t < 0 then -1 else 0;
    DivUnique(t, n, q, if q == 1 then t - n else if q == 0 then t else t + n);
  }

  lemma ExtendedKeepsRest(subtract: bool, sr: bv16, src: Long, dest: Long, size: Size)
    ensures ExtendedSr(subtract, sr, src, dest, ExtendedResult(subtract, src, dest, Carry(sr)), size) & 0xFFE0
            == sr & 0xFFE0
  {
    ExtendedFlags(subtract, sr, src, dest, size);
    hide ExtendedSr, ExtendedResult, Low, Negative, Signed, InSignedRange;
  }

  /** Nothing stops a limb whose operands are there. */
  lemma ReadyIsUnstopped(m: Machine, ry: int, rx: int, size: Size)
    requires 0 <= ry < 8 && 0 <= rx < 8 && LimbReady(m, ry, rx, size)
    ensures ExtendedStop(m, ry, rx, size).None?
  {
    ReadyOperands(m, ry, rx, size);
    PredecSame(m, Primed(m), ry, size);
    SourceReadRest(m, ry, size);
    PredecSame(Predecremented(m, ry, size), SourceRead(m, ry, size), rx, size);
    hide PredecStop, PredecValue, Minus, Plus, Mask24, Primed, SourceRead;
  }

  /** Both forms of ADDX and SUBX; the memory form is one limb of a chain when its operands are there. */
  predicate ExtendedForm(subtract: bool, size: Size, ry: int, rx: int, memoryForm: bool, m: Machine, m': Machine)
    requires 0 <= ry < 8 && 0 <= rx < 8
  {
    if memoryForm then
      && ExtendedDone(subtract, ry, rx, size, m, m')
      && (LimbReady(m, ry, rx, size) ==>
            LimbStep(ExtendedOp(subtract, size), AddressStep(ry, size), AddressStep(rx, size),
                     ViewOf(m, ry, rx, FlagX(m.sr), FlagZ(m.sr)), ViewOf(m', ry, rx, FlagX(m'.sr), FlagZ(m'.sr))))
    else
      var result := ExtendedResult(subtract, m.d[ry], m.d[rx], Carry(m.sr));
      m' == m.(d := SetRegister(m.d, rx, Merge(m.d[rx], result, size)),
               sr := ExtendedSr(subtract, m.sr, m.d[ry], m.d[rx], result, size))
  }

  /** The register forms access no memory. */
  function ExtendedFormStop(m: Machine, size: Size, ry: int, rx: int, memoryForm: bool): Option<Stop>
    requires 0 <= ry < 8 && 0 <= rx < 8
  {
    if memoryForm then ExtendedStop(m, ry, rx, size) else None
  }

  /** The memory form: both reads, the write, then the flags. */
  method ExecExtendedMemory(cpu: Cpu, subtract: bool, size: Size, ry: int, rx: int) returns (r: Outcome<()>)
    requires Executing(cpu.Abs()) && 0 <= ry < 8 && 0 <= rx < 8
    modifies cpu, cpu.memory
    ensures Executing(cpu.Abs()) && StepKeeps(old(cpu.Abs()), cpu.Abs(), 0)
    ensures r.Ok? ==> cpu.nesting == old(cpu.nesting)
    ensures Ends(ExtendedStop(old(cpu.Abs()), ry, rx, size), r.Ok?, cpu.Abs())
    ensures r.Ok? ==> ExtendedDone(subtract, ry, rx, size, old(cpu.Abs()), cpu.Abs())
  {
    hide StepKeeps, StoppedAt, BothStop, BothRead, WriteStop, PredecValue, ExtendedSr, ExtendedResult, Predecremented,
         Stored, Carry;
    ghost var m := cpu.Abs();
    var operands := ReadBoth(cpu, ry, rx, size);
    ghost var m1 := cpu.Abs();
    StepKeepsLess(m, m1, 6, 0);
    if operands.Abort? {
      return Abort;
    }
    BothReadRest(m, ry, rx, size);
    r := WriteExtended(cpu, subtract, rx, size, operands.value.0, operands.value.1);
    StepKeepsTransitive(m, m1, cpu.Abs(), 0, 0);
    if r.Ok? {
      StoredRest(m1, m1.a[rx], ExtendedResult(subtract, operands.value.0, operands.value.1, Carry(m.sr)), size);
    }
  }

  method ExecExtended(cpu: Cpu, subtract: bool, size: Size, ry: int, rx: int, memoryForm: bool) returns (r: Outcome<()>)
    requires Executing(cpu.Abs()) && 0 <= ry < 8 && 0 <= rx < 8
    modifies cpu, cpu.memory
    ensures Executing(cpu.Abs()) && StepKeeps(old(cpu.Abs()), cpu.Abs(), 0)
    ensures r.Ok? ==> cpu.nesting == old(cpu.nesting)
    ensures Ends(ExtendedFormStop(old(cpu.Abs()), size, ry, rx, memoryForm), r.Ok?, cpu.Abs())
    ensures r.Ok? ==> ExtendedForm(subtract, size, ry, rx, memoryForm, old(cpu.Abs()), cpu.Abs())
    ensures memoryForm && LimbReady(old(cpu.Abs()), ry, rx, size) ==> r.Ok?
  {
    hide StepKeeps, StoppedAt, ExtendedStop, ExtendedDone, ExtendedSr, ExtendedResult, Merge, LimbStep, LimbReady;
    ghost var m := cpu.Abs();
    if memoryForm {
      r := ExecExtendedMemory(cpu, subtract, size, ry, rx);
      if LimbReady(m, ry, rx, size) {
        ReadyIsUnstopped(m, ry, rx, size);
        ExtendedIsLimb(subtract, ry, rx, size, m, cpu.Abs());
      }
    } else {
      ExecExtendedRegister(cpu, subtract, size, ry, rx);
      return Ok(());
    }
  }

  lemma BothReadRest(m: Machine, ry: int, rx: int, size: Size)
    requires 0 <= ry < 8 && 0 <= rx < 8
    ensures var b := BothRead(m, ry, rx, size);
            && b.nesting == m.nesting && b.sr == m.sr && b.mem == m.mem
            && b.a == Predecremented(Predecremented(m, ry, size), rx, size).a
  {
    hide Minus, Plus;
  }

  method ExecExtendedRegister(cpu: Cpu, subtract: bool, size: Size, ry: int, rx: int)
    requires Executing(cpu.Abs()) && 0 <= ry < 8 && 0 <= rx < 8
    modifies cpu
    ensures Executing(cpu.Abs()) && StepKeeps(old(cpu.Abs()), cpu.Abs(), 0) && cpu.nesting == old(cpu.nesting)
    ensures var m := old(cpu.Abs());
            var result := ExtendedResult(subtract, m.d[ry], m.d[rx], Carry(m.sr));
            cpu.Abs() == m.(d := SetRegister(m.d, rx, Merge(m.d[rx], result, size)),
                            sr := ExtendedSr(subtract, m.sr, m.d[ry], m.d[rx], result, size))
  {
    hide StepKeeps, ExtendedSr, ExtendedResult, Merge;
    ghost var m := cpu.Abs();
    var src, dest := cpu.d[ry], cpu.d[rx];
    var result := ExtendedResult(subtract, src, dest, Carry(cpu.sr));
    RegisterKeeps(m, rx, Merge(dest, result, size));
    cpu.SetD(rx, Merge(dest, result, size));
    ghost var m1 := cpu.Abs();
    ExtendedKeepsRest(subtract, cpu.sr, src, dest, size);
    cpu.SetCcr(ExtendedSr(subtract, cpu.sr, src, dest, result, size));
    CcrKeeps(m1, cpu.sr);
    StepKeepsTransitive(m, m1, cpu.Abs(), 0, 0);
  }

  // ------------------------------------------------------------ ABCD and SBCD

  function DecimalResult(subtract: bool, src: Byte, dest: Byte, sr: bv16): Corrected {
    if subtract then Sbcd(src, dest, Carry(sr)) else Abcd(src, dest, Carry(sr))
  }

  function DecimalSr(sr: bv16, r: Corrected): bv16 {
    WithXNZVC(sr, r.carry, r.result >= 0x80, FlagZ(sr) && r.result == 0, r.overflow, r.carry)
  }

  function DecimalOp(subtract: bool): LimbOp {
    if subtract then SubBcd else AddBcd
  }

  /** The exact effect of the memory form; nothing is charged by the handler. */
  predicate DecimalDone(subtract: bool, ry: int, rx: int, m: Machine, m': Machine)
    requires 0 <= ry < 8 && 0 <= rx < 8
  {
    var m1 := Predecremented(m, ry, ByteSize);
    var m2 := Predecremented(m1, rx, ByteSize);
    var src, dest := PredecValue(m, ry, ByteSize), PredecValue(m1, rx, ByteSize);
    && src < 0x100 && dest < 0x100
    && var r := DecimalResult(subtract, src, dest, m.sr);
       m' == Stored(m2, m2.a[rx], r.result, ByteSize).(sr := DecimalSr(m.sr, r))
  }

  lemma DecimalIsLimb(subtract: bool, ry: int, rx: int, m: Machine, m': Machine)
    requires 0 <= ry < 8 && 0 <= rx < 8 && LimbReady(m, ry, rx, ByteSize)
    ensures DecimalDone(subtract, ry, rx, m, m') ==>
      LimbStep(DecimalOp(subtract), AddressStep(ry, ByteSize), AddressStep(rx, ByteSize),
               ViewOf(m, ry, rx, FlagX(m.sr), FlagZ(m.sr)), ViewOf(m', ry, rx, FlagX(m'.sr), FlagZ(m'.sr)))
  {
    hide Minus, Mask24, Operand, DecimalSr, DecimalResult, LimbResult, FlagX, FlagZ, PredecReads, PredecValue,
         AddressStep, Splice;
    if DecimalDone(subtract, ry, rx, m, m') {
      ReadyOperands(m, ry, rx, ByteSize);
      var s := Operand(m.mem, Mask24(PredecAddress(m, ry, ByteSize)), ByteSize);
      var d := Operand(m.mem, Mask24(PredecAddress(m, rx, ByteSize)), ByteSize);
      DecimalLimb(subtract, m.sr, s, d);
    }
  }

  lemma DecimalLimb(subtract: bool, sr: bv16, s: Byte, d: Byte)
    ensures var c := DecimalResult(subtract, s, d, sr);
            var r, sr' := LimbResult(DecimalOp(subtract), s, d, FlagX(sr)), DecimalSr(sr, c);
            r.0 == c.result && FlagX(sr') == r.1 && FlagZ(sr') == (FlagZ(sr) && r.0 == 0)
  {
    hide Abcd, Sbcd, WithXNZVC, FlagX, FlagZ, FlagN, FlagC, FlagV;
    var c := DecimalResult(subtract, s, d, sr);
    assert s % 0x100 == s && d % 0x100 == d;
    WithXNZVCFlags(sr, c.carry, c.result >= 0x80, FlagZ(sr) && c.result == 0, c.overflow, c.carry);
  }

  /** The flags of ABCD and SBCD: the decimal carry in X and C, and a Z that only clears. */
  lemma DecimalFlagsAre(sr: bv16, r: Corrected)
    ensures FlagsAre(DecimalSr(sr, r), sr, r.carry, r.result >= 0x80, FlagZ(sr) && r.result == 0, r.overflow, r.carry)
    ensures DecimalSr(sr, r) & 0xFFE0 == sr & 0xFFE0
  {
    WithXNZVCFlags(sr, r.carry, r.result >= 0x80, FlagZ(sr) && r.result == 0, r.overflow, r.carry);
    hide WithXNZVC, FlagZ;
  }

  method ReadBothBytes(cpu: Cpu, ry: int, rx: int) returns (r: Outcome<(Byte, Byte)>)
    requires Executing(cpu.Abs()) && 0 <= ry < 8 && 0 <= rx < 8
    modifies cpu, cpu.memory
    ensures Executing(cpu.Abs()) && StepKeeps(old(cpu.Abs()), cpu.Abs(), 0)
    ensures var m := old(cpu.Abs());
            var m1 := Predecremented(m, ry, ByteSize);
            && Ends(DecimalStop(m, ry, rx), r.Ok?, cpu.Abs())
            && (r.Ok? ==> r.value.0 == PredecValue(m, ry, ByteSize) && r.value.1 == PredecValue(m1, rx, ByteSize)
                          && cpu.Abs() == Predecremented(m1, rx, ByteSize))
  {
    hide StepKeeps, StoppedAt, PredecStop, Predecremented, Minus;
    ghost var m := cpu.Abs();
    ByteValue(m, ry);
    ByteValue(Predecremented(m, ry, ByteSize), rx);
    hide PredecValue;
    var src := ReadPredecrement(cpu, ry, ByteSize);
    ghost var m1 := cpu.Abs();
    if src.Abort? {
      return Abort;
    }
    var dest := ReadPredecrement(cpu, rx, ByteSize);
    StepKeepsTransitive(m, m1, cpu.Abs(), 0, 0);
    if dest.Abort? {
      return Abort;
    }
    return Ok((src.value, dest.value));
  }

  lemma ByteValue(m: Machine, reg: int)
    requires 0 <= reg < 8
    ensures PredecValue(m, reg, ByteSize) < 0x100
  {
    hide Minus, Mask24;
  }

  /** The decimal operation on two bytes, up to its flags. */
  method DecimalFlags(cpu: Cpu, subtract: bool, src: Byte, dest: Byte) returns (c: Corrected)
    modifies cpu`sr
    ensures c == DecimalResult(subtract, src, dest, old(cpu.sr))
    ensures cpu.Abs() == old(cpu.Abs()).(sr := DecimalSr(old(cpu.sr), c)) && StepKeeps(old(cpu.Abs()), cpu.Abs(), 0)
  {
    hide StepKeeps, DecimalResult, DecimalSr;
    ghost var m := cpu.Abs();
    c := DecimalResult(subtract, src, dest, cpu.sr);
    DecimalFlagsAre(cpu.sr, c);
    CcrKeeps(m, DecimalSr(cpu.sr, c));
    cpu.SetCcr(DecimalSr(cpu.sr, c));
  }

  /** What stops the memory form: its reads, never its write, which goes to the place read last. */
  function DecimalStop(m: Machine, ry: int, rx: int): Option<Stop>
    requires 0 <= ry < 8 && 0 <= rx < 8
  {
    First(PredecStop(m, ry, ByteSize), PredecStop(Predecremented(m, ry, ByteSize), rx, ByteSize))
  }

  /** The flags are written before the result is stored. */
  method ExecDecimalMemory(cpu: Cpu, subtract: bool, ry: int, rx: int) returns (r: Outcome<()>)
    requires Executing(cpu.Abs()) && 0 <= ry < 8 && 0 <= rx < 8
    modifies cpu, cpu.memory
    ensures Executing(cpu.Abs()) && StepKeeps(old(cpu.Abs()), cpu.Abs(), 0)
    ensures r.Ok? ==> cpu.nesting == old(cpu.nesting)
    ensures Ends(DecimalStop(old(cpu.Abs()), ry, rx), r.Ok?, cpu.Abs())
    ensures r.Ok? ==> DecimalDone(subtract, ry, rx, old(cpu.Abs()), cpu.Abs())
  {
    hide StepKeeps, StoppedAt, PredecValue, PredecStop, DecimalResult, DecimalSr, Predecremented, WriteStop, Stored;
    ghost var m := cpu.Abs();
    var operands :- ReadBothBytes(cpu, ry, rx);
    PredecrementedRest(m, ry, rx, ByteSize);
    ghost var m1 := cpu.Abs();
    ByteRewritable(m, ry, rx, m1);
    var c := DecimalFlags(cpu, subtract, operands.0, operands.1);
    ghost var m2 := cpu.Abs();
    StepKeepsTransitive(m, m1, m2, 0, 0);
    StoredUnderSr(m1, m2, cpu.a[rx], c.result);
    SameWrite(m1, m2, cpu.a[rx]);
    r := WriteTo(cpu, cpu.a[rx], c.result, ByteSize);
    StepKeepsTransitive(m, m2, cpu.Abs(), 0, 0);
  }

  lemma ByteRewritable(m: Machine, ry: int, rx: int, m2: Machine)
    requires 0 <= ry < 8 && 0 <= rx < 8 && DecimalStop(m, ry, rx).None?
    requires m2 == Predecremented(Predecremented(m, ry, ByteSize), rx, ByteSize)
    ensures WriteStop(m2, m2.a[rx], ByteSize).None?
  {
    hide Minus, Mask24;
  }

  lemma SameWrite(m1: Machine, m2: Machine, address: Long)
    requires m2 == m1.(sr := m2.sr)
    ensures WriteStop(m2, address, ByteSize).None? == WriteStop(m1, address, ByteSize).None?
  {
    hide Mask24;
  }

  lemma PredecrementedRest(m: Machine, ry: int, rx: int, size: Size)
    requires 0 <= ry < 8 && 0 <= rx < 8
    ensures var p := Predecremented(Predecremented(m, ry, size), rx, size);
            p.nesting == m.nesting && p.sr == m.sr
  {
  }

  /** Both forms of ABCD and SBCD. */
  predicate DecimalForm(subtract: bool, ry: int, rx: int, memoryForm: bool, m: Machine, m': Machine)
    requires 0 <= ry < 8 && 0 <= rx < 8
  {
    if memoryForm then
      && DecimalDone(subtract, ry, rx, m, m')
      && (LimbReady(m, ry, rx, ByteSize) ==>
            LimbStep(DecimalOp(subtract), AddressStep(ry, ByteSize), AddressStep(rx, ByteSize),
                     ViewOf(m, ry, rx, FlagX(m.sr), FlagZ(m.sr)), ViewOf(m', ry, rx, FlagX(m'.sr), FlagZ(m'.sr))))
    else
      var c := DecimalResult(subtract, Low(m.d[ry], ByteSize), Low(m.d[rx], ByteSize), m.sr);
      m' == m.(d := SetRegister(m.d, rx, Merge(m.d[rx], c.result, ByteSize)), sr := DecimalSr(m.sr, c))
  }

  /** One packed byte in numbers: the two-digit sum or difference, its carry in X and C and a sticky zero. */
  predicate DigitNumbers(subtract: bool, d: int, s: int, sr: bv16, r: int, sr': bv16) {
    var x := if FlagX(sr) then 1 else 0;
    && (if subtract then r - (if FlagX(sr') then 100 else 0) == d - s - x
        else r + (if FlagX(sr') then 100 else 0) == d + s + x)
    && FlagC(sr') == FlagX(sr') && (FlagZ(sr') <==> FlagZ(sr) && r == 0)
  }

  lemma DigitIsNumbers(subtract: bool, sr: bv16, src: Byte, dest: Byte)
    requires ValidBcd(src) && ValidBcd(dest)
    ensures var c := DecimalResult(subtract, src, dest, sr);
            ValidBcd(c.result) && DigitNumbers(subtract, Digits(dest), Digits(src), sr, Digits(c.result),
                                               DecimalSr(sr, c))
  {
    hide Abcd, Sbcd, DecimalSr, Digits, ValidBcd, FlagX, FlagZ, FlagN, FlagV, FlagC;
    var c := DecimalResult(subtract, src, dest, sr);
    AbcdAdds(src, dest, Carry(sr));
    SbcdSubtracts(src, dest, Carry(sr));
    ZeroDigits(c.result);
    DecimalFlagsAre(sr, c);
  }

  /** The register forms of ABCD and SBCD on packed decimals, in numbers. */
  lemma DecimalRegisterShown(subtract: bool, ry: int, rx: int, m: Machine, m': Machine)
    requires 0 <= ry < 8 && 0 <= rx < 8 && ValidBcd(m.d[ry] % 0x100) && ValidBcd(m.d[rx] % 0x100)
    ensures DecimalForm(subtract, ry, rx, false, m, m') ==>
      && ValidBcd(m'.d[rx] % 0x100) && m'.d[rx] / 0x100 == m.d[rx] / 0x100
      && DigitNumbers(subtract, Digits(m.d[rx] % 0x100), Digits(m.d[ry] % 0x100), m.sr, Digits(m'.d[rx] % 0x100),
                      m'.sr)
  {
    hide DecimalResult, DecimalSr, DigitNumbers, Merge, Digits, ValidBcd;
    var s, d := m.d[ry] % 0x100, m.d[rx] % 0x100;
    DigitIsNumbers(subtract, m.sr, s, d);
    MergeParts(m.d[rx], DecimalResult(subtract, s, d, m.sr).result, ByteSize);
  }

  lemma ZeroDigits(b: Byte)
    ensures ValidBcd(b) ==> (Digits(b) == 0 <==> b == 0)
  {
  }

  function DecimalFormStop(m: Machine, ry: int, rx: int, memoryForm: bool): Option<Stop>
    requires 0 <= ry < 8 && 0 <= rx < 8
  {
    if memoryForm then DecimalStop(m, ry, rx) else None
  }

  method ExecDecimal(cpu: Cpu, subtract: bool, ry: int, rx: int, memoryForm: bool) returns (r: Outcome<()>)
    requires Executing(cpu.Abs()) && 0 <= ry < 8 && 0 <= rx < 8
    modifies cpu, cpu.memory
    ensures Executing(cpu.Abs()) && StepKeeps(old(cpu.Abs()), cpu.Abs(), 0)
    ensures r.Ok? ==> cpu.nesting == old(cpu.nesting)
    ensures Ends(DecimalFormStop(old(cpu.Abs()), ry, rx, memoryForm), r.Ok?, cpu.Abs())
    ensures r.Ok? ==> DecimalForm(subtract, ry, rx, memoryForm, old(cpu.Abs()), cpu.Abs())
    ensures memoryForm && LimbReady(old(cpu.Abs()), ry, rx, ByteSize) ==> r.Ok?
  {
    hide StepKeeps, StoppedAt, PredecStop, Predecremented, DecimalResult, DecimalSr, Merge, LimbStep, LimbReady,
         DecimalDone;
    ghost var m := cpu.Abs();
    if memoryForm {
      r := ExecDecimalMemory(cpu, subtract, ry, rx);
      if LimbReady(m, ry, rx, ByteSize) {
        ReadyOperands(m, ry, rx, ByteSize);
        DecimalIsLimb(subtract, ry, rx, m, cpu.Abs());
      }
    } else {
      var c := DecimalFlags(cpu, subtract, Low(cpu.d[ry], ByteSize), Low(cpu.d[rx], ByteSize));
      ghost var m1 := cpu.Abs();
      RegisterKeeps(m1, rx, Merge(cpu.d[rx], c.result, ByteSize));
      cpu.SetD(rx, Merge(cpu.d[rx], c.result, ByteSize));
      StepKeepsTransitive(m, m1, cpu.Abs(), 0, 0);
      return Ok(());
    }
  }

  lemma StoredUnderSr(m: Machine, m': Machine, address: Long, value: Long)
    requires m' == m.(sr := m'.sr)
    ensures Stored(m', address, value, ByteSize) == Stored(m, address, value, ByteSize).(sr := m'.sr)
    ensures Stored(m, address, value, ByteSize).nesting == m.nesting
    ensures FaultVector(m', address, ByteSize) == FaultVector(m, address, ByteSize)
  {
    hide Mask24, Splice;
  }

  // ------------------------------------------------------------- DIVU and DIVS

  /** The operands as the instruction reads them. */
  function DivX(isSigned: bool, dividend: Long): int {
    if isSigned then Signed(dividend, LongSize) else dividend
  }

  function DivY(isSigned: bool, divisor: Word): int {
    if isSigned then Signed(divisor, WordSize) else divisor
  }

  lemma DivYNonzero(isSigned: bool, divisor: Word)
    requires divisor > 0
    ensures DivY(isSigned, divisor) != 0 && -0x8000 <= DivY(true, divisor) < 0x8000
  {
  }

  predicate QuotientFits(isSigned: bool, q: int) {
    if isSigned then -32768 <= q <= 32767 else q <= 0xFFFF
  }

  function DivCost(isSigned: bool, dividend: Long, divisor: Word): (cost: int)
    requires divisor > 0
    ensures cost >= 10
  {
    DivYNonzero(isSigned, divisor);
    if isSigned then
      D.DivsCostRange(DivX(true, dividend), DivY(true, divisor));
      D.DivsCost(DivX(true, dividend), DivY(true, divisor))
    else D.DivuCost(dividend, divisor)
  }

  /** The quotient and the remainder of a truncating division; unsigned operands have the ordinary ones. */
  predicate QuotientOf(isSigned: bool, x: int, y: int, q: int, r: int)
    requires y != 0
  {
    && x == q * y + r && D.Abs(r) < D.Abs(y) && (r == 0 || (r < 0 <==> x < 0))
    && (!isSigned ==> q == x / y && r == x % y)
  }

  lemma QuotientIs(isSigned: bool, dividend: Long, divisor: Word)
    requires divisor > 0
    ensures var x, y := DivX(isSigned, dividend), DivY(isSigned, divisor);
            y != 0 && QuotientOf(isSigned, x, y, D.TruncQuotient(x, y), D.TruncRemainder(x, y))
  {
    DivYNonzero(isSigned, divisor);
    D.TruncatedDivision(DivX(isSigned, dividend), DivY(isSigned, divisor));
  }

  /**
   What a division leaves: the truncated quotient under its remainder, or, when the
   quotient does not fit a word, the register as it was with V and N set.
   */
  predicate Divided(isSigned: bool, dividend: Long, divisor: Word, sr: bv16, result: Long, sr': bv16)
    requires divisor > 0
  {
    DivYNonzero(isSigned, divisor);
    var x := if isSigned then Signed(dividend, LongSize) else dividend;
    var y := if isSigned then Signed(divisor, WordSize) else divisor;
    var q, r := D.TruncQuotient(x, y), D.TruncRemainder(x, y);
    && QuotientOf(isSigned, x, y, q, r)
    && if (if isSigned then -0x8000 <= q <= 0x7FFF else q <= 0xFFFF) then
      && result == 0x1_0000 * (r % 0x1_0000) + q % 0x1_0000
      && FlagsAre(sr', sr, FlagX(sr), q % 0x1_0000 >= 0x8000, q == 0, false, false)
    else result == dividend && FlagsAre(sr', sr, FlagX(sr), true, false, true, false)
  }

  lemma QuotientZero(isSigned: bool, q: int)
    requires QuotientFits(isSigned, q) && (!isSigned ==> q >= 0)
    ensures q % 0x1_0000 == 0 <==> q == 0
  {
  }

  /** The microcode's cost, then the value and flags, of a division whose divisor is not zero. */
  method Divide(cpu: Cpu, isSigned: bool, dn: int, divisor: Word)
    requires Executing(cpu.Abs()) && 0 <= dn < 8 && divisor > 0
    modifies cpu
    ensures Executing(cpu.Abs()) && StepKeeps(old(cpu.Abs()), cpu.Abs(), 10)
    ensures var m := old(cpu.Abs());
            && Divided(isSigned, m.d[dn], divisor, m.sr, cpu.d[dn], cpu.sr)
            && cpu.Abs() == Charged(m, DivCost(isSigned, m.d[dn], divisor)).(sr := cpu.sr,
                                   d := SetRegister(m.d, dn, cpu.d[dn]))
  {
    hide StepKeeps, FlagX, WithNZVC, QuotientOf;
    ghost var m := cpu.Abs();
    var dividend := cpu.d[dn];
    DivYNonzero(isSigned, divisor);
    var x, y := DivX(isSigned, dividend), DivY(isSigned, divisor);
    var q, r := D.TruncQuotient(x, y), D.TruncRemainder(x, y);
    ChargeDivision(cpu, isSigned, dividend, divisor);
    ghost var m1 := cpu.Abs();
    var fits := QuotientFits(isSigned, q);
    var quotient := q % 0x1_0000;
    NzvcKeeps(m1, !fits || quotient >= 0x8000, fits && quotient == 0, !fits, false);
    WithNZVCFlags(m1.sr, !fits || quotient >= 0x8000, fits && quotient == 0, !fits, false);
    QuotientSign(isSigned, dividend, divisor);
    QuotientIs(isSigned, dividend, divisor);
    cpu.SetCcr(WithNZVC(cpu.sr, !fits || quotient >= 0x8000, fits && quotient == 0, !fits, false));
    ghost var m2 := cpu.Abs();
    StepKeepsTransitive(m, m1, m2, 10, 0);
    if fits {
      QuotientZero(isSigned, q);
      RegisterKeeps(m2, dn, Join(r % 0x1_0000, quotient));
      cpu.SetD(dn, Join(r % 0x1_0000, quotient));
      StepKeepsTransitive(m, m2, cpu.Abs(), 10, 0);
    }
    hide D.TruncQuotient, D.TruncRemainder, FlagsAre, DivCost;
  }

  lemma QuotientSign(isSigned: bool, dividend: Long, divisor: Word)
    requires divisor > 0
    ensures DivY(isSigned, divisor) != 0
    ensures !isSigned ==> D.TruncQuotient(DivX(isSigned, dividend), DivY(isSigned, divisor)) >= 0
  {
    DivYNonzero(isSigned, divisor);
    D.QuotientNonnegative(dividend, divisor);
  }

  method ChargeDivision(cpu: Cpu, isSigned: bool, dividend: Long, divisor: Word)
    requires divisor > 0
    modifies cpu`slice
    ensures cpu.Abs() == Charged(old(cpu.Abs()), DivCost(isSigned, dividend, divisor))
    ensures StepKeeps(old(cpu.Abs()), cpu.Abs(), 10)
  {
    hide StepKeeps;
    ghost var m := cpu.Abs();
    var cost;
    DivYNonzero(isSigned, divisor);
    if isSigned {
      cost := D.DivsCharge(Signed(dividend, LongSize), Signed(divisor, WordSize));
    } else if dividend / 0x1_0000 >= divisor {
      cost := 10;
    } else {
      var half := D.DivuWalk(dividend, divisor);
      cost := 2 * half;
    }
    cpu.Charge(cost);
    ChargeKeeps(m, cost);
    StepKeepsLess(m, cpu.Abs(), cost, 10);
  }

  /** The whole of a division: traps, value, flags and the exact cost. */
  predicate DivDone(isSigned: bool, dn: int, mode: int, reg: int, m: Machine, m': Machine)
    requires 0 <= dn < 8 && 0 <= reg < 8
  {
    if !DataMode(mode, reg) then Raised(m, 4, m')
    else
      var divisor := Low(OperandValue(m, mode, reg, WordSize), WordSize);
      var e := AfterOperand(m, mode, reg, WordSize);
      if divisor == 0 then Raised(e, 5, m')
      else
        && Divided(isSigned, m.d[dn], divisor, m.sr, m'.d[dn], m'.sr)
        && m' == Charged(e, DivCost(isSigned, m.d[dn], divisor)).(sr := m'.sr, d := SetRegister(m.d, dn, m'.d[dn]))
  }

  /** DIVU and DIVS: an impossible operand and a zero divisor trap instead. */
  method ExecDiv(cpu: Cpu, isSigned: bool, dn: int, mode: int, reg: int) returns (r: Outcome<()>)
    requires Executing(cpu.Abs()) && 0 <= dn < 8 && 0 <= mode < 8 && 0 <= reg < 8
    requires cpu.nesting.thrown == 0
    modifies cpu, cpu.memory
    ensures Executing(cpu.Abs())
    ensures StepKeeps(old(cpu.Abs()), cpu.Abs(), if r.Ok? && cpu.nesting.thrown == 0 then 10 else 0)
    ensures r.Ok? ==> cpu.nesting.thrown == 0 || cpu.nesting.thrown == 4 || cpu.nesting.thrown == 5
    ensures Ends(DataStop(old(cpu.Abs()), mode, reg), r.Ok?, cpu.Abs())
    ensures r.Ok? ==> DivDone(isSigned, dn, mode, reg, old(cpu.Abs()), cpu.Abs())
  {
    hide StepKeeps, StoppedAt, OperandStop, AfterOperand, EaResolved, EaCompletes, EaCycles, OperandValue,
         EaRegisters, EaAddress, Divided, DivCost, Raised;
    ghost var m := cpu.Abs();
    if mode == 1 || (mode == 7 && reg > 4) {
      Trap(cpu, 4);
      return Ok(());
    }
    var ea := cpu.CalcEa(mode, reg, WordSize);
    ghost var m1 := cpu.Abs();
    StepKeepsLess(m, m1, EaCycles(mode, reg, WordSize), 0);
    if ea.Abort? {
      return Abort;
    }
    ResolvedRest(m, mode, reg, WordSize, true, ea.value, m1);
    var divisor := Low(ea.value.value, WordSize);
    if divisor == 0 {
      Trap(cpu, 5);
      StepKeepsTransitive(m, m1, cpu.Abs(), 0, 0);
      return Ok(());
    }
    Divide(cpu, isSigned, dn, divisor);
    StepKeepsTransitive(m, m1, cpu.Abs(), 0, 10);
    return Ok(());
  }

  // ------------------------------------------------------------- MULU and MULS

  /** What the multiplier times by: the one bits of the operand, or its bit transitions. */
  function MulPattern(isSigned: bool, w: Word): Word {
    var b := w as bv16;
    if isSigned then ((b << 1) ^ b) as Word else w
  }

  /** The bits below k that differ from the next lower one, with a zero below bit 0. */
  function Transitions(w: int, k: nat): nat {
    if k == 0 then 0
    else Transitions(w, k - 1) + (if Bit(w, k - 1) != (k >= 2 && Bit(w, k - 2)) then 1 else 0)
  }

  function TopBit(x: bv16): bv16 {
    x & 0x8000
  }

  function Doubled(x: bv16): bv16 {
    x << 1
  }

  lemma DoubledUpper(x: bv16)
    ensures Upper(Doubled(x)) == Combine(EorImmediate, x, TopBit(x)) && !FlagC(Doubled(x))
    ensures TopBit(x) == 0 || TopBit(x) == 0x8000
  {
  }

  lemma TopNumbers()
    ensures SrWord(0) == 0 && SrWord(0x8000) == 0x8000
  {
  }

  lemma NoLowerBit(i: nat)
    requires i < 15
    ensures !Bit(0x8000, i) && !Bit(0, i)
  {
    Pow2Add(i, 15 - i);
    D.PowerOf16();
    assert Pow2(15 - i) == 2 * Pow2(14 - i) && Pow2(16) == 2 * Pow2(15);
    hide Pow2;
    EvenQuotient(Pow2(i), Pow2(15 - i), Pow2(14 - i));
  }

  lemma EvenQuotient(p: nat, q: nat, half: nat)
    requires p > 0 && p * q == 0x8000 && q == 2 * half
    ensures 0x8000 / p % 2 == 0 && 0 / p == 0
  {
    DivUnique(0x8000, p, q, 0);
    DivUnique(0, p, 0, 0);
  }

  /** The top bit is no other one. */
  lemma TopDropped(x: bv16, i: nat)
    requires i < 15
    ensures !FlagC(Dropped(TopBit(x), i))
  {
    hide SrWord, FlagC, Upper, TopBit, Bit, Dropped, Pow2;
    DoubledUpper(x);
    TopNumbers();
    BitDropped(TopBit(x), i);
    NoLowerBit(i);
  }

  lemma DroppedDouble(x: bv16, i: nat)
    requires i < 16
    ensures FlagC(Dropped(Doubled(x), i)) == (i > 0 && FlagC(Dropped(x, i - 1)))
  {
    hide FlagC, Upper, Doubled, Combine, TopBit;
    DoubledUpper(x);
    if i > 0 {
      DroppedCombine(EorImmediate, x, TopBit(x), i - 1);
      TopDropped(x, i - 1);
    }
  }

  lemma PatternIs(w: Word)
    ensures MulPattern(true, w) == SrWord(Combine(EorImmediate, Doubled(WordSr(w)), WordSr(w)))
    ensures MulPattern(false, w) == w
  {
  }

  lemma PatternBit(w: Word, i: nat)
    requires i < 16
    ensures Bit(MulPattern(true, w), i) == (Bit(w, i) != (i > 0 && Bit(w, i - 1)))
  {
    hide MulPattern, SrWord, WordSr, Combine, Doubled, FlagC, Dropped, Bit;
    var b := WordSr(w);
    PatternIs(w);
    WordRoundTrip(w);
    BitDropped(Combine(EorImmediate, Doubled(b), b), i);
    DroppedCombine(EorImmediate, Doubled(b), b, i);
    DroppedDouble(b, i);
    BitDropped(b, i);
    if i > 0 {
      BitDropped(b, i - 1);
    }
  }

  lemma {:induction false} PatternBelow(w: Word, k: nat)
    requires k <= 16
    ensures D.OnesBelow(MulPattern(true, w), k) == Transitions(w, k)
  {
    hide MulPattern, Bit;
    if k > 0 {
      PatternBelow(w, k - 1);
      PatternBit(w, k - 1);
    }
  }

  /** What a multiplication pays for: the one bits of an unsigned operand, the bit transitions of a signed one. */
  lemma PatternCounts(w: Word)
    ensures Ones(MulPattern(true, w)) == Transitions(w, 16) && Ones(MulPattern(false, w)) == D.OnesBelow(w, 16)
  {
    hide MulPattern, Transitions, Ones;
    PatternIs(w);
    PatternBelow(w, 16);
    D.PowerOf16();
    D.OnesBelowAll(MulPattern(true, w), 16);
    D.OnesBelowAll(w, 16);
  }

  method MulCycles(pattern: Word) returns (cycles: int)
    ensures cycles == 2 * (17 + Ones(pattern)) + 4 && 38 <= cycles <= 70
  {
    D.PowerOf16();
    OnesBound(pattern, 16);
    var m := 17;
    var d := pattern;
    while d != 0
      invariant 17 + Ones(pattern) == m + Ones(d)
      decreases d
    {
      if d % 2 == 1 {
        m := m + 1;
      }
      d := d / 2;
    }
    return 2 * m + 4;
  }

  /** The product of two words is exact in a long word. */
  lemma ExactProduct(x: int, y: int)
    requires -0x8000 <= x < 0x1_0000 && -0x8000 <= y < 0x1_0000
    requires (x >= 0 && y >= 0) || (x < 0x8000 && y < 0x8000)
    ensures x >= 0 && y >= 0 ==> Wrap(x * y) == x * y
    ensures x < 0x8000 && y < 0x8000 ==> Signed(Wrap(x * y), LongSize) == x * y
  {
    ProductBounds(x, y);
    var p := x * y;
    assert x >= 0 && y >= 0 ==> 0 <= p < 0x1_0000_0000;
    assert x < 0x8000 && y < 0x8000 ==> -0x8000_0000 <= p < 0x8000_0000;
  }

  lemma NonnegativeProduct(a: int, b: int)
    requires a >= 0 && b >= 0
    ensures a * b >= 0
  {
  }

  lemma ProductBounds(x: int, y: int)
    requires -0x8000 <= x < 0x1_0000 && -0x8000 <= y < 0x1_0000
    ensures x >= 0 && y >= 0 ==> 0 <= x * y <= 0xFFFF * 0xFFFF
    ensures x < 0x8000 && y < 0x8000 ==> -0x4000_0000 <= x * y <= 0x4000_0000
  {
    if x >= 0 && y >= 0 {
      NonnegativeProduct(x, y);
      NonnegativeProduct(x, 0xFFFF - y);
    }
    if x < 0x8000 && y < 0x8000 {
      NonnegativeProduct(0x8000 - x, 0x8000 + y);
      NonnegativeProduct(0x8000 + x, 0x8000 - y);
      NonnegativeProduct(0x8000 - x, 0x8000 - y);
      NonnegativeProduct(0x8000 + x, 0x8000 + y);
    }
  }

  /** The whole of a multiplication: the exact product, its flags and the exact cost. */
  predicate MulDone(isSigned: bool, dn: int, mode: int, reg: int, m: Machine, m': Machine)
    requires 0 <= dn < 8 && 0 <= reg < 8
  {
    if !DataMode(mode, reg) then Raised(m, 4, m')
    else
      var w := Low(OperandValue(m, mode, reg, WordSize), WordSize);
      && (if isSigned then Signed(m'.d[dn], LongSize) == Signed(m.d[dn], WordSize) * Signed(w, WordSize)
          else m'.d[dn] == Low(m.d[dn], WordSize) * w)
      && FlagsAre(m'.sr, m.sr, FlagX(m.sr), Negative(m'.d[dn], LongSize), m'.d[dn] == 0, false, false)
      && m' == Charged(AfterOperand(m, mode, reg, WordSize), 38 + 2 * Ones(MulPattern(isSigned, w))).(
                 sr := m'.sr, d := SetRegister(m.d, dn, m'.d[dn]))
  }

  /** MULU and MULS. */
  method ExecMul(cpu: Cpu, isSigned: bool, dn: int, mode: int, reg: int) returns (r: Outcome<()>)
    requires Executing(cpu.Abs()) && 0 <= dn < 8 && 0 <= mode < 8 && 0 <= reg < 8
    requires cpu.nesting.thrown == 0
    modifies cpu, cpu.memory
    ensures Executing(cpu.Abs())
    ensures StepKeeps(old(cpu.Abs()), cpu.Abs(), if r.Ok? && cpu.nesting.thrown == 0 then 38 else 0)
    ensures r.Ok? ==> cpu.nesting.thrown == 0 || cpu.nesting.thrown == 4
    ensures Ends(DataStop(old(cpu.Abs()), mode, reg), r.Ok?, cpu.Abs())
    ensures r.Ok? ==> MulDone(isSigned, dn, mode, reg, old(cpu.Abs()), cpu.Abs())
  {
    hide StepKeeps, StoppedAt, OperandStop, AfterOperand, EaResolved, EaCompletes, EaCycles, OperandValue,
         EaRegisters, EaAddress, FlagX, FlagsAre, WithNZVC, MulPattern, Ones, Signed, Wrap, Raised;
    ghost var m := cpu.Abs();
    if mode == 1 || (mode == 7 && reg > 4) {
      Trap(cpu, 4);
      return Ok(());
    }
    var ea := cpu.CalcEa(mode, reg, WordSize);
    ghost var m1 := cpu.Abs();
    StepKeepsLess(m, m1, EaCycles(mode, reg, WordSize), 0);
    if ea.Abort? {
      return Abort;
    }
    ResolvedRest(m, mode, reg, WordSize, true, ea.value, m1);
    var w := Low(ea.value.value, WordSize);
    var cycles := MulCycles(MulPattern(isSigned, w));
    var result := Product(isSigned, cpu.d[dn], w);
    cpu.Charge(cycles);
    ghost var m2 := cpu.Abs();
    ChargeKeeps(m1, cycles);
    StepKeepsLess(m1, m2, cycles, 38);
    StepKeepsTransitive(m, m1, m2, 0, 38);
    StoreProduct(cpu, dn, result);
    StepKeepsTransitive(m, m2, cpu.Abs(), 38, 0);
    return Ok(());
  }

  method Product(isSigned: bool, x: Long, w: Word) returns (result: Long)
    ensures if isSigned then Signed(result, LongSize) == Signed(x, WordSize) * Signed(w, WordSize)
            else result == Low(x, WordSize) * w
  {
    if isSigned {
      ExactProduct(Signed(x, WordSize), Signed(w, WordSize));
      result := Wrap(Signed(x, WordSize) * Signed(w, WordSize));
    } else {
      ExactProduct(Low(x, WordSize), w);
      result := Wrap(Low(x, WordSize) * w);
    }
  }

  method StoreProduct(cpu: Cpu, dn: int, result: Long)
    requires 0 <= dn < 8
    modifies cpu`d, cpu`sr
    ensures StepKeeps(old(cpu.Abs()), cpu.Abs(), 0)
    ensures var m := old(cpu.Abs());
            && cpu.Abs() == m.(d := SetRegister(m.d, dn, result), sr := cpu.sr)
            && FlagsAre(cpu.sr, m.sr, FlagX(m.sr), Negative(result, LongSize), result == 0, false, false)
  {
    hide StepKeeps, FlagX, FlagsAre, WithNZVC;
    ghost var m := cpu.Abs();
    RegisterKeeps(m, dn, result);
    cpu.SetD(dn, result);
    ghost var m1 := cpu.Abs();
    WithNZVCFlags(cpu.sr, Negative(result, LongSize), Low(result, LongSize) == 0, false, false);
    NzvcKeeps(m1, Negative(result, LongSize), Low(result, LongSize) == 0, false, false);
    cpu.SetCcr(UpdateFlagsLogic(cpu.sr, result, LongSize));
    StepKeepsTransitive(m, m1, cpu.Abs(), 0, 0);
  }

  // ------------------------------------------------------------- comparisons

  /** All sixteen conditions read as comparisons of the two operands. */
  predicate ComparedAs(sr: bv16, src: Long, dest: Long, size: Size) {
    forall condition :: 0 <= condition < 16 ==> (Condition(sr, condition) <==> Meaning(condition, src, dest, size))
  }

  /** The flag update shared by the comparisons. */
  method Compare(cpu: Cpu, src: Long, dest: Long, size: Size)
    modifies cpu`sr
    ensures StepKeeps(old(cpu.Abs()), cpu.Abs(), 0)
    ensures cpu.Abs() == old(cpu.Abs()).(sr := UpdateFlagsCmp(old(cpu.sr), src, dest, Wrap(dest - src), size))
    ensures ComparedSr(old(cpu.sr), cpu.sr, src, dest, size)
  {
    hide StepKeeps, UpdateFlagsCmp, Condition, Meaning, Wrap, FlagsAre, FlagX, FlagN, FlagZ, FlagV, FlagC;
    ghost var m := cpu.Abs();
    var result := Wrap(dest - src);
    CompareKeepsRest(cpu.sr, src, dest, size);
    ComparedFlags(cpu.sr, src, dest, size);
    CcrKeeps(m, UpdateFlagsCmp(cpu.sr, src, dest, result, size));
    forall condition | 0 <= condition < 16
      ensures Condition(UpdateFlagsCmp(cpu.sr, src, dest, result, size), condition) <==>
        Meaning(condition, src, dest, size)
    {
      ConditionsAfterCompare(cpu.sr, src, dest, size, condition);
    }
    cpu.SetCcr(UpdateFlagsCmp(cpu.sr, src, dest, result, size));
  }

  lemma CompareKeepsRest(sr: bv16, src: Long, dest: Long, size: Size)
    ensures UpdateFlagsCmp(sr, src, dest, Wrap(dest - src), size) & 0xFFE0 == sr & 0xFFE0
  {
    CompareFlags(sr, src, dest, size);
    hide UpdateFlagsCmp, InSignedRange;
  }

  lemma ComparedFlags(sr: bv16, src: Long, dest: Long, size: Size)
    ensures var sr' := UpdateFlagsCmp(sr, src, dest, Wrap(dest - src), size);
            FlagsAre(sr', sr, FlagX(sr), FlagN(sr'), FlagZ(sr'), FlagV(sr'), FlagC(sr'))
  {
    CompareFlags(sr, src, dest, size);
    hide UpdateFlagsCmp, InSignedRange, FlagX, FlagN, FlagZ, FlagV, FlagC, Wrap;
  }

  /** Only the low part of an operand takes part in a comparison. */
  lemma MeaningOfLow(condition: int, src: Long, dest: Long, size: Size)
    ensures Meaning(condition, Low(src, size), Low(dest, size), size) == Meaning(condition, src, dest, size)
  {
    LowTwice(src, size);
    LowTwice(dest, size);
    hide Low, InSignedRange;
  }

  lemma LowTwice(x: Long, size: Size)
    ensures Low(Low(x, size), size) == Low(x, size)
  {
  }

  lemma ComparedLow(sr: bv16, sr': bv16, src: Long, dest: Long, size: Size)
    requires ComparedSr(sr, sr', Low(src, size), Low(dest, size), size)
    ensures ComparedSr(sr, sr', src, dest, size)
  {
    hide Meaning, Condition, Low, FlagsAre;
    forall condition | 0 <= condition < 16
      ensures Condition(sr', condition) <==> Meaning(condition, src, dest, size)
    {
      MeaningOfLow(condition, src, dest, size);
    }
  }

  /** A comparison moves N, Z, V and C, which its sixteen readings determine, and no other bit. */
  predicate ComparedSr(sr: bv16, sr': bv16, src: Long, dest: Long, size: Size) {
    ComparedAs(sr', src, dest, size) && FlagsAre(sr', sr, FlagX(sr), FlagN(sr'), FlagZ(sr'), FlagV(sr'), FlagC(sr'))
  }

  /** CMP takes every mode but a byte of an address register. */
  predicate CmpMode(mode: int, reg: int, size: Size) {
    ValidMode(mode, reg) && !(mode == 1 && size == ByteSize)
  }

  function CmpStop(m: Machine, size: Size, mode: int, reg: int): Option<Stop>
    requires 0 <= reg < 8
  {
    if CmpMode(mode, reg, size) then OperandStop(m, mode, reg, size) else None
  }

  /** The conditions after a comparison with x: the signed ones of the numbers, the unsigned ones of their residues. */
  predicate ComparedNumbers(sr: bv16, x: int, y: int, modulus: int)
    requires modulus > 0
  {
    && (Condition(sr, 7) <==> x == y) && (Condition(sr, 6) <==> x != y)
    && (Condition(sr, 12) <==> x >= y) && (Condition(sr, 13) <==> x < y)
    && (Condition(sr, 14) <==> x > y) && (Condition(sr, 15) <==> x <= y)
    && (Condition(sr, 4) <==> x % modulus >= y % modulus) && (Condition(sr, 5) <==> x % modulus < y % modulus)
    && (Condition(sr, 2) <==> x % modulus > y % modulus) && (Condition(sr, 3) <==> x % modulus <= y % modulus)
  }

  lemma ResidueOfSigned(x: Long, size: Size)
    ensures Signed(x, size) % size.Modulus() == Low(x, size)
  {
  }

  lemma NumbersCompared(sr: bv16, sr': bv16, src: Long, dest: Long, size: Size)
    ensures ComparedSr(sr, sr', src, dest, size) ==>
      ComparedNumbers(sr', Signed(dest, size), Signed(src, size), size.Modulus())
  {
    hide Condition, FlagsAre, Low, InSignedRange;
    ResidueOfSigned(src, size);
    ResidueOfSigned(dest, size);
    if ComparedSr(sr, sr', src, dest, size) {
      assert forall c :: 0 <= c < 16 ==> (Condition(sr', c) <==> Meaning(c, src, dest, size));
    }
  }

  /** CMP and CMPA in numbers; CMPA compares whole registers with the signed operand. */
  lemma CompareIsShown(toAddress: bool, size: Size, n: int, mode: int, reg: int, m: Machine, m': Machine)
    requires 0 <= n < 8 && 0 <= reg < 8 && CmpMode(mode, reg, size)
    ensures var y := Signed(OperandValue(m, mode, reg, size), size);
            CmpDone(toAddress, size, n, mode, reg, m, m') ==>
              if toAddress then ComparedNumbers(m'.sr, Signed(m'.a[n], LongSize), y, 0x1_0000_0000)
              else ComparedNumbers(m'.sr, Signed(m.d[n], size), y, size.Modulus())
  {
    hide ComparedNumbers, ComparedSr, OperandValue, EaAfter, Signed, Extend;
    var src, e := OperandValue(m, mode, reg, size), AfterOperand(m, mode, reg, size);
    ExtendSigned(src, size);
    NumbersCompared(m.sr, m'.sr, Extend(src, size), e.a[n], LongSize);
    NumbersCompared(m.sr, m'.sr, src, m.d[n], size);
  }

  predicate CmpDone(toAddress: bool, size: Size, n: int, mode: int, reg: int, m: Machine, m': Machine)
    requires 0 <= n < 8 && 0 <= reg < 8
  {
    if !CmpMode(mode, reg, size) then Raised(m, 4, m')
    else
      var src, e := OperandValue(m, mode, reg, size), AfterOperand(m, mode, reg, size);
      && (if toAddress then ComparedSr(m.sr, m'.sr, Extend(src, size), e.a[n], LongSize)
          else ComparedSr(m.sr, m'.sr, src, m.d[n], size))
      && m' == e.(sr := m'.sr)
  }

  /** CMP to a data register, and CMPA, which sign-extends a word source and compares long words. */
  method ExecCmp(cpu: Cpu, toAddress: bool, size: Size, n: int, mode: int, reg: int) returns (r: Outcome<()>)
    requires Executing(cpu.Abs()) && 0 <= n < 8 && 0 <= mode < 8 && 0 <= reg < 8
    requires cpu.nesting.thrown == 0 && (toAddress ==> size != ByteSize)
    modifies cpu, cpu.memory
    ensures Executing(cpu.Abs()) && StepKeeps(old(cpu.Abs()), cpu.Abs(), 0)
    ensures r.Ok? ==> cpu.nesting.thrown == 0 || cpu.nesting.thrown == 4
    ensures Ends(CmpStop(old(cpu.Abs()), size, mode, reg), r.Ok?, cpu.Abs())
    ensures r.Ok? ==> CmpDone(toAddress, size, n, mode, reg, old(cpu.Abs()), cpu.Abs())
    ensures r.Ok? && CmpMode(mode, reg, size) ==>
      var y := Signed(OperandValue(old(cpu.Abs()), mode, reg, size), size);
      if toAddress then ComparedNumbers(cpu.sr, Signed(cpu.a[n], LongSize), y, 0x1_0000_0000)
      else ComparedNumbers(cpu.sr, Signed(old(cpu.d)[n], size), y, size.Modulus())
  {
    hide StepKeeps, StoppedAt, OperandStop, AfterOperand, EaResolved, EaCompletes, EaCycles, OperandValue,
         EaRegisters, EaAddress, ComparedSr, Extend, Low, UpdateFlagsCmp, Wrap, Raised, ComparedNumbers, Signed;
    ghost var m := cpu.Abs();
    if (mode == 1 && size == ByteSize) || (mode == 7 && reg > 4) {
      Trap(cpu, 4);
      return Ok(());
    }
    var ea := cpu.CalcEa(mode, reg, size);
    ghost var m1 := cpu.Abs();
    StepKeepsLess(m, m1, EaCycles(mode, reg, size), 0);
    if ea.Abort? {
      return Abort;
    }
    ResolvedRest(m, mode, reg, size, true, ea.value, m1);
    var src := ea.value.value;
    if toAddress {
      ExtendLong(src);
      Compare(cpu, if size == WordSize then Extend(src, WordSize) else src, cpu.a[n], LongSize);
    } else {
      Compare(cpu, Low(src, size), Low(cpu.d[n], size), size);
      ComparedLow(m.sr, cpu.sr, src, cpu.d[n], size);
    }
    StepKeepsTransitive(m, m1, cpu.Abs(), 0, 0);
    CompareIsShown(toAddress, size, n, mode, reg, m, cpu.Abs());
    return Ok(());
  }

  /** The machine with the immediate operand consumed. */
  function PastImmediate(m: Machine, size: Size): Machine {
    m.(pc := Plus(m.pc, if size == LongSize then 4 else 2))
  }

  method FetchImmediate(cpu: Cpu, size: Size) returns (r: Outcome<Long>)
    requires Executing(cpu.Abs())
    modifies cpu, cpu.memory
    ensures Executing(cpu.Abs()) && StepKeeps(old(cpu.Abs()), cpu.Abs(), 0)
    ensures Ends(FetchStop(old(cpu.Abs()), if size == LongSize then 2 else 1), r.Ok?, cpu.Abs())
    ensures r.Ok? ==> cpu.Abs() == PastImmediate(old(cpu.Abs()), size) && r.value == Immediate(old(cpu.Abs()), size)
  {
    hide StepKeeps, StoppedAt, FetchStop, Plus, WordAt, FaultVector;
    if size == LongSize {
      r := cpu.FetchLong();
    } else {
      var word :- cpu.Fetch();
      return Ok(if size == ByteSize then word % 0x100 else word);
    }
  }

  /** CMPI compares with data of alterable modes only. */
  predicate CmpiMode(mode: int, reg: int) {
    mode != 1 && !(mode == 7 && reg > 1)
  }

  /** The machine once CMPI has fetched and paid for its immediate. */
  function ImmediateRead(m: Machine, size: Size): Machine {
    Charged(PastImmediate(m, size), if size == LongSize then 8 else 4)
  }

  /** What stops CMPI: its immediate, then its operand. */
  function CmpiStop(m: Machine, size: Size, mode: int, reg: int): Option<Stop>
    requires 0 <= reg < 8
  {
    if !CmpiMode(mode, reg) then None
    else First(FetchStop(m, if size == LongSize then 2 else 1), OperandStop(ImmediateRead(m, size), mode, reg, size))
  }

  predicate CmpiDone(size: Size, mode: int, reg: int, m: Machine, m': Machine)
    requires 0 <= reg < 8
  {
    if !CmpiMode(mode, reg) then Raised(m, 4, m')
    else
      var i := ImmediateRead(m, size);
      ComparedSr(m.sr, m'.sr, Immediate(m, size), OperandValue(i, mode, reg, size), size)
      && m' == AfterOperand(i, mode, reg, size).(sr := m'.sr)
  }

  lemma ResolvedValid(m: Machine, mode: int, reg: int, size: Size)
    requires 0 <= reg < 8
    ensures EaCompletes(m, mode, reg, size, true) ==> ValidMode(mode, reg)
  {
  }

  /** CMPI: the immediate first, then the operand it is compared with. */
  method ExecCmpi(cpu: Cpu, size: Size, mode: int, reg: int) returns (r: Outcome<()>)
    requires Executing(cpu.Abs()) && 0 <= mode < 8 && 0 <= reg < 8
    requires cpu.nesting.thrown == 0
    modifies cpu, cpu.memory
    ensures Executing(cpu.Abs()) && StepKeeps(old(cpu.Abs()), cpu.Abs(), 0)
    ensures r.Ok? ==> cpu.nesting.thrown == 0 || cpu.nesting.thrown == 4
    ensures Ends(CmpiStop(old(cpu.Abs()), size, mode, reg), r.Ok?, cpu.Abs())
    ensures r.Ok? ==> CmpiDone(size, mode, reg, old(cpu.Abs()), cpu.Abs())
    ensures r.Ok? && CmpiMode(mode, reg) ==>
      var m := old(cpu.Abs());
      ComparedNumbers(cpu.sr, Signed(OperandValue(ImmediateRead(m, size), mode, reg, size), size),
                      Signed(Immediate(m, size), size), size.Modulus())
  {
    hide ComparedNumbers, Signed, StepKeeps, StoppedAt, FetchStop, OperandStop, AfterOperand, EaResolved, EaCompletes,
         EaCycles, OperandValue,
         EaRegisters, EaAddress, ComparedSr, Immediate, UpdateFlagsCmp, Plus, ValidMode, Wrap, Raised;
    ghost var m := cpu.Abs();
    if mode == 1 || (mode == 7 && reg > 1) {
      Trap(cpu, 4);
      return Ok(());
    }
    var src :- FetchImmediate(cpu, size);
    ghost var m1 := cpu.Abs();
    var cost := if size == LongSize then 8 else 4;
    cpu.Charge(cost);
    ghost var m2 := cpu.Abs();
    ChargeKeeps(m1, cost);
    StepKeepsLess(m1, m2, cost, 0);
    StepKeepsTransitive(m, m1, m2, 0, 0);
    var ea := cpu.CalcEa(mode, reg, size);
    ghost var m3 := cpu.Abs();
    StepKeepsLess(m2, m3, EaCycles(mode, reg, size), 0);
    StepKeepsTransitive(m, m2, m3, 0, 0);
    if ea.Abort? {
      return Abort;
    }
    ResolvedRest(m2, mode, reg, size, true, ea.value, m3);
    ResolvedValid(m2, mode, reg, size);
    Compare(cpu, src, ea.value.value, size);
    StepKeepsTransitive(m, m3, cpu.Abs(), 0, 0);
    NumbersCompared(m.sr, cpu.sr, src, ea.value.value, size);
    return Ok(());
  }
}
