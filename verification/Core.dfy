/**
 The processor core: one mutable object whose bus accessors and exception entry
 call each other, guarded only by the two re-entry flags.
 */
module Core {
  import opened Words
  import opened StatusRegister
  import opened MachineState
  import opened Interrupts

  /**
   The result of anything that can fault. Abort is the original's non-local exit
   out of a faulted instruction.
   */
  datatype Outcome<+T> = Ok(value: T) | Abort {
    predicate IsFailure() { Abort? }
    function PropagateFailure<U>(): Outcome<U> requires Abort? { Abort }
    function Extract(): T requires Ok? { value }
  }

  class Cpu {
    const memory: array<Byte>

    var d: Registers
    var a: Registers
    var pc: Long
    var ppc: Long
    var sr: bv16
    var ir: Word
    var usp: Long
    var ssp: Long
    var fault: FaultLatch
    var nesting: Nesting
    var lines: Lines
    var control: Control
    var slice: Slice
    ghost var history: History

    ghost function Abs(): Machine
      reads this, memory
    {
      Machine(d, a, pc, ppc, sr, ir, usp, ssp, memory[..], fault, nesting, lines, control, slice, history)
    }

    method SetStatus(newSr: bv16)
      modifies this`sr, this`usp, this`ssp, this`a
      ensures Abs() == SetSr(old(Abs()), newSr)
    {
      var value := newSr & 0xA71F;
      var oldS := FlagS(sr);
      var newS := FlagS(value);
      if oldS != newS {
        if newS {
          usp := a[7];
          a := SetRegister(a, 7, ssp);
        } else {
          ssp := a[7];
          a := SetRegister(a, 7, usp);
        }
      }
      sr := value;
    }

    method CaptureAccessFault(address: Long, isWrite: bool, isProgram: bool)
      modifies this`fault, this`nesting
      ensures Abs() == Captured(old(Abs()), address, isWrite, isProgram)
      ensures StatusShown(fault.ssw, BusWord(old(Abs())), isWrite, FlagS(sr), isProgram || old(fault.programSpace))
    {
      StatusWordShown(BusWord(Abs()), isWrite, FlagS(sr), isProgram || fault.programSpace);
      var code := AccessCode(FlagS(sr), isProgram || fault.programSpace);
      var word := if fault.busWordValid then fault.busWord else ir;
      fault := fault.(address := address, ir := word, ssw := StatusWord(word, isWrite, code),
                      programAccess := isProgram, valid := true);
      nesting := nesting.(group0 := true);
    }

    /**
     An access fault: latch it, raise its vector under its guard, and unwind the
     instruction unless exception processing is itself what faulted.
     */
    method TakeFault(vector: nat, address: Long, isWrite: bool, isProgram: bool) returns (unwinds: bool)
      requires Group0(vector) && GuardClear(Abs(), vector)
      modifies this, memory
      decreases ClearGuards(nesting), 0
      ensures BusKeeps(old(Abs()), Abs(), 0)
      ensures AfterFault(old(Abs()), vector, address, isWrite, isProgram, Abs())
      ensures unwinds == (nesting.trap && nesting.depth == 0)
      ensures NestingKeeps(old(nesting), nesting) && nesting.group0
      ensures old(nesting.thrown) == 0 ==> nesting.thrown == vector
    {
      ghost var m := Abs();
      CaptureAccessFault(address, isWrite, isProgram);
      SetGuard(vector, true);
      Exception(vector);
      ghost var m' := Abs();
      SetGuard(vector, false);
      FaultKeeps(m, vector, address, isWrite, isProgram, m');
      unwinds := nesting.trap && nesting.group0 && nesting.depth == 0;
    }

    method SetGuard(vector: int, on: bool)
      modifies this`nesting
      ensures Abs() == WithGuard(old(Abs()), vector, on)
    {
      if vector == 3 {
        nesting := nesting.(addressError := on);
      } else {
        nesting := nesting.(busError := on);
      }
    }

    method Read(address: Long, size: Size) returns (r: Outcome<Long>)
      modifies this, memory
      decreases ClearGuards(nesting), 1
      ensures BusKeeps(old(Abs()), Abs(), 0)
      ensures FaultVector(old(Abs()), address, size).None? ==>
        Abs() == old(Abs()) && r == Ok(BusValue(old(Abs()), address, size))
      ensures r.Abort? <==> FaultVector(old(Abs()), address, size).Some? && nesting.trap && nesting.depth == 0
      ensures FaultVector(old(Abs()), address, size).Some? ==> r.Ok? ==> r.value == 0
      ensures FaultVector(old(Abs()), address, size).Some? ==>
        AfterFault(old(Abs()), FaultVector(old(Abs()), address, size).value, address, false, false, Abs())
      ensures FaultsByAddress(old(Abs()), address, size, Abs())
      ensures var at := address % 0x100_0000;
              r.Ok? && history.raised == old(history.raised) && at + size.Bytes() <= memory.Length ==>
                r.value == Number(memory[at..at + size.Bytes()])
    {
      hide AfterFault, BusKeeps, Operand, Number, FaultsByAddress;
      ghost var m := Abs();
      BusKeepsReflexive(m);
      var at := Mask24(address);
      if size != ByteSize && at % 2 == 1 && !nesting.addressError {
        var unwinds := TakeFault(3, address, false, false);
        FaultByAddress(m, address, size, false, false, Abs());
        return if unwinds then Abort else Ok(0);
      }
      if at + size.Bytes() <= memory.Length {
        FaultByAddress(m, address, size, false, false, Abs());
        var value := LoadBytes(at, size);
        OperandNumber(memory[..], at, size);
        assert memory[..][at..at + size.Bytes()] == memory[at..at + size.Bytes()];
        return Ok(value);
      }
      FaultByAddress(m, address, size, false, false, Abs());
      if !nesting.busError {
        var unwinds := TakeFault(2, address, false, false);
        FaultByAddress(m, address, size, false, false, Abs());
        return if unwinds then Abort else Ok(0);
      }
      return Ok(0);
    }

    method LoadBytes(at: nat, size: Size) returns (value: Long)
      requires at + size.Bytes() <= memory.Length
      ensures value == Operand(memory[..], at, size)
    {
      match size
      case ByteSize => value := memory[at];
      case WordSize => value := 0x100 * (memory[at] as int) + memory[at + 1];
      case LongSize => value := 0x100_0000 * (memory[at] as int) + 0x1_0000 * (memory[at + 1] as int)
                                + 0x100 * (memory[at + 2] as int) + memory[at + 3];
    }

    method Write(address: Long, value: Long, size: Size) returns (r: Outcome<()>)
      modifies this, memory
      decreases ClearGuards(nesting), 1
      ensures BusKeeps(old(Abs()), Abs(), 0)
      ensures FaultVector(old(Abs()), address, size).None? ==>
        Abs() == Stored(old(Abs()), address, value, size) && r == Ok(())
      ensures r.Abort? <==> FaultVector(old(Abs()), address, size).Some? && nesting.trap && nesting.depth == 0
      ensures FaultVector(old(Abs()), address, size).Some? ==>
        AfterFault(old(Abs()), FaultVector(old(Abs()), address, size).value, address, true, false, Abs())
      ensures FaultsByAddress(old(Abs()), address, size, Abs())
      ensures var at := address % 0x100_0000;
              history.raised == old(history.raised) && at + size.Bytes() <= memory.Length ==>
                Number(memory[at..at + size.Bytes()]) == value % size.Modulus()
                && SameOutside(old(memory[..]), memory[..], at, at + size.Bytes())
    {
      hide AfterFault, BusKeeps, Operand, Number, FaultsByAddress, SameOutside;
      ghost var m := Abs();
      BusKeepsReflexive(m);
      var at := Mask24(address);
      if size != ByteSize && at % 2 == 1 && !nesting.addressError {
        var unwinds := TakeFault(3, address, true, false);
        FaultByAddress(m, address, size, true, false, Abs());
        return if unwinds then Abort else Ok(());
      }
      if at + size.Bytes() <= memory.Length {
        StoredKeeps(m, address, value, size);
        StoredInPlace(m, address, value, size);
        StoreBytes(at, value, size);
        assert memory[..][at..at + size.Bytes()] == memory[at..at + size.Bytes()];
      } else if !nesting.busError {
        var unwinds := TakeFault(2, address, true, false);
        FaultByAddress(m, address, size, true, false, Abs());
        return if unwinds then Abort else Ok(());
      }
      FaultByAddress(m, address, size, true, false, Abs());
      return Ok(());
    }

    method StoreBytes(at: nat, value: Long, size: Size)
      requires at + size.Bytes() <= memory.Length
      modifies memory
      ensures memory[..] == Splice(old(memory[..]), at, OperandBytes(value, size))
    {
      ghost var before, part := memory[..], OperandBytes(value, size);
      match size {
        case ByteSize =>
          memory[at] := value % 0x100;
        case WordSize =>
          memory[at] := value / 0x100 % 0x100;
          memory[at + 1] := value % 0x100;
          WordParts(value);
        case LongSize =>
          memory[at] := value / 0x100_0000;
          memory[at + 1] := value / 0x1_0000 % 0x100;
          memory[at + 2] := value / 0x100 % 0x100;
          memory[at + 3] := value % 0x100;
      }
      SpliceIs(before, memory[..], at, part);
    }

    method Push(value: Long, size: Size) returns (r: Outcome<()>)
      modifies this, memory
      decreases ClearGuards(nesting), 2
      ensures BusKeeps(old(Abs()), Abs(), 0)
      ensures PushStep(old(Abs()), value, size, Abs())
      ensures ClearGuards(nesting) == old(ClearGuards(nesting))
      ensures Pushable(old(Abs()), size) ==> r == Ok(())
      ensures r.Abort? <==> !Pushable(old(Abs()), size) && nesting.trap && nesting.depth == 0
      ensures r.Ok? && nesting.trap && nesting.depth == 0 ==> history.raised == old(history.raised)
      ensures PushStop(old(Abs()), size).None? <==> Pushable(old(Abs()), size)
      ensures PushStop(old(Abs()), size).Some? ==> StoppedAt(PushStop(old(Abs()), size).value, Abs())
    {
      hide AfterFault, Mask24, Minus, OperandBytes;
      ghost var m := Abs();
      a := SetRegister(a, 7, Minus(a[7], size.Bytes()));
      ghost var m' := Abs();
      r := Write(a[7], value, size);
      BusKeepsTransitive(m, m', Abs());
    }

    /** The frame of the bus and address errors, in the original's order of pushes. */
    method PushGroup0Frame(vector: nat, oldSr: bv16, oldPc: Long)
      requires Group0(vector)
      modifies this, memory
      decreases ClearGuards(nesting), 3
      ensures BusKeeps(old(Abs()), Abs(), 0)
      ensures FramePushed(old(Abs()), vector, oldSr, oldPc, Abs())
    {
      hide BusKeeps, PushStep, FramePushed, Pushable, ClearGuards, SrWord;
      ghost var m := Abs();
      var frameIr := if fault.valid then fault.ir else ir;
      var address := if fault.valid then fault.address else 0;
      var ssw := if fault.valid then fault.ssw else 0;
      var r := Push(oldPc, LongSize);
      ghost var m1 := Abs();
      r := Push(SrWord(oldSr), WordSize);
      ghost var m2 := Abs();
      r := Push(frameIr, WordSize);
      ghost var m3 := Abs();
      r := Push(address, LongSize);
      ghost var m4 := Abs();
      r := Push(ssw, WordSize);
      BusKeepsTransitive(m, m1, m2);
      BusKeepsTransitive(m, m2, m3);
      BusKeepsTransitive(m, m3, m4);
      BusKeepsTransitive(m, m4, Abs());
      Group0FramePushed(m, m1, m2, m3, m4, Abs(), vector, oldSr, oldPc);
    }

    /** The six-byte frame of the 68000, or the eight-byte one of the 68010. */
    method PushShortFrame(vector: nat, oldSr: bv16, oldPc: Long)
      requires !Group0(vector)
      modifies this, memory
      decreases ClearGuards(nesting), 3
      ensures BusKeeps(old(Abs()), Abs(), 0)
      ensures FramePushed(old(Abs()), vector, oldSr, oldPc, Abs())
    {
      hide BusKeeps, PushStep, FramePushed, Pushable, ClearGuards, SrWord;
      ghost var m := Abs();
      BusKeepsReflexive(m);
      if control.model == M68010 {
        var _ := Push(vector * 4 % 0x1_0000, WordSize);
      }
      ghost var m1 := Abs();
      var _ := Push(oldPc, LongSize);
      ghost var m2 := Abs();
      var _ := Push(SrWord(oldSr), WordSize);
      BusKeepsTransitive(m, m1, m2);
      BusKeepsTransitive(m, m2, Abs());
      ShortFramePushed(m, m1, m2, Abs(), vector, oldSr, oldPc);
    }

    method EnterException(vector: nat)
      modifies this
      ensures Abs() == Entered(old(Abs()), vector)
    {
      if nesting.thrown == 0 {
        nesting := nesting.(thrown := vector);
      }
      nesting := nesting.(depth := nesting.depth + 1);
      history := History(history.raised + [vector], Max(history.peak, nesting.depth));
      SetStatus((sr | 0x2000) & 0x7FFF);
    }

    method ReleaseFault()
      modifies this`fault
      ensures Abs() == old(Abs()).(fault := Released(old(fault)))
    {
      fault := Released(fault);
    }

    method LeaveException(target: Long)
      requires nesting.depth > 0
      modifies this`pc, this`nesting
      ensures Abs() == Left(old(Abs()), target)
    {
      pc := target;
      nesting := nesting.(depth := nesting.depth - 1);
    }

    method Exception(vector: nat)
      modifies this, memory
      decreases ClearGuards(nesting), 4
      ensures Raised(old(Abs()), vector, Abs())
      ensures EntryRoom(old(Abs()), vector) ==> EntryShown(old(Abs()), vector, Abs())
    {
      hide BusKeeps, FlagS, Clean, SetSr, Plus, Entered, ClearGuards, Stackable, BusValue, FaultVector, FramePushed,
           Raise, Raised, VectorLoaded, EntryRoom, EntryShown, FaultsByAddress, Number;
      ghost var m := Abs();
      var oldSr := sr;
      var oldPc := pc;
      if vector == 4 || vector == 8 || vector == 10 || vector == 11 {
        oldPc := ppc;
      }
      if (vector == 2 || vector == 3) && fault.pcValid {
        oldPc := fault.pc;
      }
      EnterException(vector);
      ghost var e := Abs();
      EnteredNesting(m, vector);
      if vector == 2 || vector == 3 {
        PushGroup0Frame(vector, oldSr, oldPc);
      } else {
        PushShortFrame(vector, oldSr, oldPc);
      }
      ghost var p := Abs();
      BusKeepsNesting(e, p, 0);
      ReleaseFault();
      ghost var released := Abs();
      var target := Read(Plus(control.vbr, vector * 4), LongSize);
      ghost var q := Abs();
      BusKeepsNesting(released, q, 0);
      ExceptionRaised(m, vector, p, q, target.value);
      LeaveException(target.value);
      RaisedShown(m, vector, Abs());
    }
  
    // ------------------------------------------------------ small assignments

    method Charge(cycles: int)
      modifies this`slice
      ensures Abs() == Charged(old(Abs()), cycles)
    {
      slice := slice.(remaining := slice.remaining - cycles);
    }

    method SetPc(target: Long)
      modifies this`pc
      ensures Abs() == old(Abs()).(pc := target)
    {
      pc := target;
    }

    method SetD(i: int, x: Long)
      requires 0 <= i < 8
      modifies this`d
      ensures Abs() == old(Abs()).(d := SetRegister(old(d), i, x))
    {
      d := SetRegister(d, i, x);
    }

    method SetA(i: int, x: Long)
      requires 0 <= i < 8
      modifies this`a
      ensures Abs() == old(Abs()).(a := SetRegister(old(a), i, x))
    {
      a := SetRegister(a, i, x);
    }

    method SetCcr(value: bv16)
      modifies this`sr
      ensures Abs() == old(Abs()).(sr := value)
    {
      sr := value;
    }

    method LatchFaultPc(value: Long)
      modifies this`fault
      ensures Abs() == WithFaultPc(old(Abs()), value)
    {
      fault := fault.(pc := value, pcValid := true);
    }

    method SetProgramSpace(on: bool)
      modifies this`fault
      ensures Abs() == old(Abs()).(fault := old(fault).(programSpace := on))
    {
      fault := fault.(programSpace := on);
    }

    // ------------------------------------------------------- instruction fetch

    method Fetch() returns (r: Outcome<Word>)
      requires Executing(Abs())
      modifies this, memory
      ensures Executing(Abs()) && StepKeeps(old(Abs()), Abs(), 0)
      ensures Ends(FetchStop(old(Abs()), 1), r.Ok?, Abs())
      ensures r.Ok? <==> FaultVector(old(Abs()), old(pc), WordSize).None?
      ensures r.Ok? ==> Abs() == old(Abs()).(pc := Plus(old(pc), 2)) && r.value == WordAt(old(Abs()), old(pc))
      ensures FaultsByAddress(old(Abs()), old(pc), WordSize, Abs())
      ensures var at := old(pc) % 0x100_0000;
              r.Ok? ==> at + 2 <= memory.Length && r.value == Number(memory[at..at + 2])
    {
      hide BusKeeps, StepKeeps, AfterFault, Number, FaultsByAddress;
      ghost var m := Abs();
      BusKeepsReflexive(m);
      BusIsStep(m, m, 0);
      var at := Mask24(pc);
      if at % 2 == 1 && !nesting.addressError {
        var _ := TakeFault(3, pc, false, true);
        FaultByAddress(m, m.pc, WordSize, false, true, Abs());
        BusIsStep(m, Abs(), 0);
        return Abort;
      }
      if at + 2 <= memory.Length {
        var word := LoadBytes(at, WordSize);
        OperandNumber(memory[..], at, WordSize);
        assert memory[..][at..at + 2] == memory[at..at + 2];
        SetPc(Plus(pc, 2));
        PcKeeps(m, Plus(m.pc, 2));
        FaultByAddress(m, m.pc, WordSize, false, true, Abs());
        return Ok(word);
      }
      var _ := TakeFault(2, pc, false, true);
      FaultByAddress(m, m.pc, WordSize, false, true, Abs());
      BusIsStep(m, Abs(), 0);
      return Abort;
    }

    /** An operand read that only happens when the caller wants the value. */
    method ReadOperand(address: Long, size: Size, wanted: bool) returns (r: Outcome<Long>)
      requires Executing(Abs())
      modifies this, memory
      ensures Executing(Abs()) && StepKeeps(old(Abs()), Abs(), 0)
      ensures r.Ok? ==> Abs() == old(Abs())
      ensures r.Ok? <==> (wanted ==> FaultVector(old(Abs()), address, size).None?)
      ensures Ends(if wanted then ReadStop(old(Abs()), address, size) else None, r.Ok?, Abs())
      ensures r.Ok? && wanted ==> r.value == BusValue(old(Abs()), address, size)
    {
      hide AfterFault, BusKeeps, StepKeeps;
      ghost var m := Abs();
      BusKeepsReflexive(m);
      BusIsStep(m, m, 0);
      if wanted {
        r := Read(address, size);
        BusIsStep(m, Abs(), 0);
        ExecutingKept(m, Abs(), 0);
      } else {
        r := Ok(0);
      }
    }
  
    // ---------------------------------------------------- effective addresses

    /** The PC a fault on the operand would stack, by addressing mode. */
    method SetFaultPc(mode: int, reg: int, size: Size)
      requires 0 <= reg < 8
      modifies this`fault
      ensures Abs() == EaLatched(old(Abs()), mode, reg, size)
    {
      if mode == 2 || mode == 3 || mode == 5 || mode == 6 {
        LatchFaultPc(pc);
      } else if mode == 4 {
        LatchFaultPc(Plus(pc, if size == LongSize then 0 else 2));
      } else if mode == 7 && reg <= 3 {
        LatchFaultPc(Plus(pc, if reg == 1 then 4 else if reg == 0 then 2 else 0));
      }
    }

    /** An encoding that does not exist: vector 4, and the instruction is abandoned. */
    method RaiseIllegalEa()
      requires Executing(Abs())
      modifies this, memory
      ensures Executing(Abs()) && StepKeeps(old(Abs()), Abs(), 0)
      ensures Raised(old(Abs()), 4, Abs())
    {
      hide BusKeeps, StepKeeps, VectorLoaded;
      ghost var m := Abs();
      Exception(4);
      BusIsStep(m, Abs(), 1);
      ExecutingKept(m, Abs(), 0);
    }

    /** The brief extension word format: base plus index plus eight-bit displacement. */
    method FetchIndexed(base: Long) returns (r: Outcome<Long>)
      requires Executing(Abs())
      modifies this, memory
      ensures Executing(Abs()) && StepKeeps(old(Abs()), Abs(), 0)
      ensures r.Ok? ==> Abs() == old(Abs()).(pc := Plus(old(pc), 2))
      ensures r.Ok? ==> r.value == IndexedAddress(old(Abs()), base, WordAt(old(Abs()), old(pc)))
      ensures r.Ok? <==> Fetchable(old(Abs()), 1)
      ensures Ends(FetchStop(old(Abs()), 1), r.Ok?, Abs())
    {
      hide StoppedAt, StepKeeps;
      var ext :- Fetch();
      var n := ext / 0x1000 % 8;
      var x := if ext / 0x8000 % 2 == 1 then a[n] else d[n];
      if ext / 0x800 % 2 == 0 {
        x := Extend(x, WordSize);
      }
      return Ok(Plus(base, x + Signed(ext, ByteSize)));
    }

    method FetchLong() returns (r: Outcome<Long>)
      requires Executing(Abs())
      modifies this, memory
      ensures Executing(Abs()) && StepKeeps(old(Abs()), Abs(), 0)
      ensures r.Ok? ==> Abs() == old(Abs()).(pc := Plus(old(pc), 4))
      ensures r.Ok? ==> r.value == Join(WordAt(old(Abs()), old(pc)), WordAt(old(Abs()), Plus(old(pc), 2)))
      ensures r.Ok? <==> Fetchable(old(Abs()), 2)
      ensures Ends(FetchStop(old(Abs()), 2), r.Ok?, Abs())
    {
      hide StepKeeps, StoppedAt, Plus, Mask24, Get16, FaultVector;
      ghost var m := Abs();
      PlusTwice(pc, 2, 2);
      var hi :- Fetch();
      ghost var m1 := Abs();
      FaultSame(m, m1, pc, WordSize);
      var low := Fetch();
      StepKeepsTransitive(m, m1, Abs(), 0, 0);
      if low.Abort? {
        return Abort;
      }
      return Ok(Join(hi, low.value));
    }

    /** The memory address of the modes that take extension words. */
    method FetchAddress(mode: int, reg: int, ghost size: Size) returns (r: Outcome<Long>)
      requires Executing(Abs()) && 0 <= reg < 8
      requires mode == 5 || mode == 6 || (mode == 7 && reg <= 3)
      modifies this, memory
      ensures Executing(Abs()) && StepKeeps(old(Abs()), Abs(), 0)
      ensures r.Ok? ==> Abs() == old(Abs()).(pc := Plus(old(pc), 2 * ExtensionWords(mode, reg, size)))
      ensures r.Ok? ==> r.value == EaAddress(old(Abs()), mode, reg, size)
      ensures r.Ok? <==> Fetchable(old(Abs()), ExtensionWords(mode, reg, size))
      ensures Ends(FetchStop(old(Abs()), ExtensionWords(mode, reg, size)), r.Ok?, Abs())
    {
      hide StoppedAt, StepKeeps, FetchStop, FaultVector, Mask24, Get16;
      if mode == 7 && reg == 1 {
        r := FetchLong();
      } else if mode == 6 {
        r := FetchIndexed(a[reg]);
      } else if mode == 7 && reg == 3 {
        r := FetchIndexed(pc);
      } else {
        var base := pc;
        var ext :- Fetch();
        if mode == 5 {
          r := Ok(Plus(a[reg], Signed(ext, WordSize)));
        } else if reg == 0 {
          r := Ok(Extend(ext, WordSize));
        } else {
          r := Ok(Plus(base, Signed(ext, WordSize)));
        }
      }
    }
  
    /** A memory operand whose address is settled, read if wanted. */
    method MemoryOperand(address: Long, size: Size, fetchValue: bool) returns (r: Outcome<Ea>)
      requires Executing(Abs())
      modifies this, memory
      ensures Executing(Abs()) && StepKeeps(old(Abs()), Abs(), 0)
      ensures r.Ok? ==> Abs() == old(Abs()) && !r.value.isReg && !r.value.isAddr && r.value.address == address
      ensures r.Ok? <==> (fetchValue ==> FaultVector(old(Abs()), address, size).None?)
      ensures Ends(if fetchValue then ReadStop(old(Abs()), address, size) else None, r.Ok?, Abs())
      ensures r.Ok? && fetchValue ==> r.value.value == BusValue(old(Abs()), address, size)
    {
      hide StoppedAt, StepKeeps, FaultVector, BusValue;
      var value :- ReadOperand(address, size, fetchValue);
      return Ok(Ea(value, address, false, 0, false));
    }

    /** Dn, An and (An). */
    method DirectOperand(mode: int, reg: int, size: Size, fetchValue: bool) returns (r: Outcome<Ea>)
      requires Executing(Abs()) && 0 <= mode <= 2 && 0 <= reg < 8
      modifies this, memory
      ensures Executing(Abs()) && StepKeeps(old(Abs()), Abs(), 0)
      ensures r.Ok? ==> slice == old(slice)
      ensures r.Ok? ==> EaResolved(old(Abs()), mode, reg, size, fetchValue, r.value, Abs())
      ensures r.Ok? <==> EaCompletes(old(Abs()), mode, reg, size, fetchValue)
      ensures Ends(ResolveStop(old(Abs()), mode, reg, size, fetchValue), r.Ok?, Abs())
      ensures r.Ok? ==> fault == LeftSpace(old(fault), fetchValue && PcRelative(mode, reg))
    {
      hide StepKeeps, StoppedAt, Mask24, Operand, ReadStop;
      ghost var m := Abs();
      BusKeepsReflexive(m);
      BusIsStep(m, m, 0);
      PlusZero(pc);
      if mode == 0 {
        return Ok(Ea(d[reg], 0, true, reg, false));
      }
      if mode == 1 {
        return Ok(Ea(a[reg], 0, true, reg, true));
      }
      r := MemoryOperand(a[reg], size, fetchValue);
    }

    /** (An)+: a long increment commits after the read, the shorter ones before it. */
    method Postincrement(reg: int, size: Size, fetchValue: bool) returns (r: Outcome<Ea>)
      requires Executing(Abs()) && 0 <= reg < 8
      modifies this, memory
      ensures Executing(Abs()) && StepKeeps(old(Abs()), Abs(), 0)
      ensures r.Ok? ==> slice == old(slice)
      ensures r.Ok? ==> EaResolved(old(Abs()), 3, reg, size, fetchValue, r.value, Abs())
      ensures r.Ok? <==> EaCompletes(old(Abs()), 3, reg, size, fetchValue)
      ensures Ends(ResolveStop(old(Abs()), 3, reg, size, fetchValue), r.Ok?, Abs())
      ensures r.Ok? ==> fault == LeftSpace(old(fault), fetchValue && PcRelative(3, reg))
    {
      hide StepKeeps, StoppedAt, Mask24, Operand, Plus, ReadStop;
      ghost var m := Abs();
      PlusZero(pc);
      var address := a[reg];
      if fetchValue && size == LongSize {
        r := MemoryOperand(address, size, fetchValue);
        ghost var m1 := Abs();
        if r.Ok? {
          RegisterKeeps(m1, reg, Plus(a[reg], 4));
          SetA(reg, Plus(a[reg], 4));
          StepKeepsTransitive(m, m1, Abs(), 0, 0);
        }
      } else {
        RegisterKeeps(m, reg, Plus(a[reg], AddressStep(reg, size)));
        SetA(reg, Plus(a[reg], AddressStep(reg, size)));
        ghost var m1 := Abs();
        r := MemoryOperand(address, size, fetchValue);
        StepKeepsTransitive(m, m1, Abs(), 0, 0);
      }
    }

    method Predecrement(reg: int, size: Size, fetchValue: bool) returns (r: Outcome<Ea>)
      requires Executing(Abs()) && 0 <= reg < 8
      modifies this, memory
      ensures Executing(Abs()) && StepKeeps(old(Abs()), Abs(), 0)
      ensures r.Ok? ==> slice == old(slice)
      ensures r.Ok? ==> EaResolved(old(Abs()), 4, reg, size, fetchValue, r.value, Abs())
      ensures r.Ok? <==> EaCompletes(old(Abs()), 4, reg, size, fetchValue)
      ensures Ends(ResolveStop(old(Abs()), 4, reg, size, fetchValue), r.Ok?, Abs())
      ensures r.Ok? ==> fault == LeftSpace(old(fault), fetchValue && PcRelative(4, reg))
    {
      hide StepKeeps, StoppedAt, Mask24, Minus, Operand, Plus, AddressStep, ReadStop;
      PlusZero(pc);
      ghost var m := Abs();
      RegisterKeeps(m, reg, Minus(a[reg], AddressStep(reg, size)));
      SetA(reg, Minus(a[reg], AddressStep(reg, size)));
      ghost var m1 := Abs();
      r := MemoryOperand(a[reg], size, fetchValue);
      StepKeepsTransitive(m, m1, Abs(), 0, 0);
    }

    /** A memory operand, read from program space if its mode is PC-relative. */
    method SpaceOperand(address: Long, size: Size, fetchValue: bool, program: bool) returns (r: Outcome<Ea>)
      requires Executing(Abs())
      modifies this, memory
      ensures Executing(Abs()) && StepKeeps(old(Abs()), Abs(), 0)
      ensures r.Ok? ==>
        Abs() == old(Abs()).(fault := old(fault).(programSpace := if program then false else old(fault.programSpace)))
        && !r.value.isReg && !r.value.isAddr && r.value.address == address
      ensures r.Ok? <==> (fetchValue ==> FaultVector(old(Abs()), address, size).None?)
      ensures Ends(if fetchValue then ReadStop(InSpace(old(Abs()), program), address, size) else None, r.Ok?, Abs())
      ensures r.Ok? && fetchValue ==> r.value.value == BusValue(old(Abs()), address, size)
    {
      hide StepKeeps, StoppedAt, Mask24, Operand, ReadStop;
      ghost var m := Abs();
      if program {
        SetProgramSpace(true);
        ghost var m1 := Abs();
        LatchKeeps(m, m1);
        r := MemoryOperand(address, size, fetchValue);
        ghost var m2 := Abs();
        StepKeepsTransitive(m, m1, m2, 0, 0);
        if r.Ok? {
          SetProgramSpace(false);
          LatchKeeps(m2, Abs());
          StepKeepsTransitive(m, m2, Abs(), 0, 0);
        }
      } else {
        r := MemoryOperand(address, size, fetchValue);
      }
    }

    /** The modes with extension words. */
    method ExtendedOperand(mode: int, reg: int, size: Size, fetchValue: bool) returns (r: Outcome<Ea>)
      requires Executing(Abs()) && 0 <= reg < 8
      requires mode == 5 || mode == 6 || (mode == 7 && reg <= 3)
      modifies this, memory
      ensures Executing(Abs()) && StepKeeps(old(Abs()), Abs(), 0)
      ensures r.Ok? ==> slice == old(slice)
      ensures r.Ok? ==> EaResolved(old(Abs()), mode, reg, size, fetchValue, r.value, Abs())
      ensures r.Ok? <==> EaCompletes(old(Abs()), mode, reg, size, fetchValue)
      ensures Ends(ResolveStop(old(Abs()), mode, reg, size, fetchValue), r.Ok?, Abs())
      ensures r.Ok? ==> fault == LeftSpace(old(fault), fetchValue && PcRelative(mode, reg))
    {
      hide StepKeeps, StoppedAt, Plus, EaAddress, ExtensionWords, FaultVector, BusValue, FetchStop, ReadStop,
           OperandAccess, EaResolved, EaCompletes;
      ghost var m := Abs();
      ExtendedMode(m, mode, reg, size, fetchValue);
      var address :- FetchAddress(mode, reg, size);
      ghost var m1 := Abs();
      FaultSame(m, m1, address, size);
      BusSame(m, m1, address, size);
      r := SpaceOperand(address, size, fetchValue, mode == 7 && reg >= 2 && fetchValue);
      StepKeepsTransitive(m, m1, Abs(), 0, 0);
      if r.Ok? {
        ExtendedResolved(m, mode, reg, size, fetchValue, r.value, Abs());
      }
    }

    method ImmediateOperand(size: Size, fetchValue: bool) returns (r: Outcome<Ea>)
      requires Executing(Abs())
      modifies this, memory
      ensures Executing(Abs()) && StepKeeps(old(Abs()), Abs(), 0)
      ensures r.Ok? ==> slice == old(slice)
      ensures r.Ok? ==> EaResolved(old(Abs()), 7, 4, size, fetchValue, r.value, Abs())
      ensures r.Ok? <==> EaCompletes(old(Abs()), 7, 4, size, fetchValue)
      ensures Ends(ResolveStop(old(Abs()), 7, 4, size, fetchValue), r.Ok?, Abs())
      ensures r.Ok? ==> fault == LeftSpace(old(fault), fetchValue && PcRelative(7, 4))
    {
      hide StepKeeps, StoppedAt, FetchStop, Plus, WordAt, FaultVector;
      if size == LongSize {
        var value :- FetchLong();
        return Ok(Ea(value, 0, true, 0, false));
      }
      var word :- Fetch();
      return Ok(Ea(if size == ByteSize then word % 0x100 else word, 0, true, 0, false));
    }

    method CalcEaEx(mode: int, reg: int, size: Size, fetchValue: bool) returns (r: Outcome<Ea>)
      requires Executing(Abs()) && 0 <= mode < 8 && 0 <= reg < 8
      modifies this, memory
      ensures Executing(Abs()) && StepKeeps(old(Abs()), Abs(), 0)
      ensures r.Ok? ==> slice == old(slice)
      ensures r.Ok? ==> EaResolved(old(Abs()), mode, reg, size, fetchValue, r.value, Abs())
      ensures r.Ok? <==> EaCompletes(old(Abs()), mode, reg, size, fetchValue)
      ensures Ends(EaStop(old(Abs()), mode, reg, size, fetchValue), r.Ok?, Abs())
      ensures r.Ok? ==> Abs() == EaAfter(old(Abs()), mode, reg, size, fetchValue)
      ensures r.Ok? ==> PointerMoved(old(a), mode, reg, size, a)
      ensures r.Ok? && old(a)[7] % 2 == 0 ==> a[7] % 2 == 0
    {
      hide StepKeeps, StoppedAt, EaResolved, EaCompletes, ResolveStop, EaLatched, LeftSpace, PcRelative, EaAfter,
           Raised, PointerMoved;
      ghost var m := Abs();
      SetFaultPc(mode, reg, size);
      ghost var m1 := Abs();
      LatchedKeeps(m, mode, reg, size);
      CompletesAfterLatch(m, mode, reg, size, fetchValue);
      if mode <= 2 {
        r := DirectOperand(mode, reg, size, fetchValue);
      } else if mode == 3 {
        r := Postincrement(reg, size, fetchValue);
      } else if mode == 4 {
        r := Predecrement(reg, size, fetchValue);
      } else if mode == 7 && reg == 4 {
        r := ImmediateOperand(size, fetchValue);
      } else if mode == 7 && reg > 4 {
        IllegalMode(m1, mode, reg, size, fetchValue);
        RaiseIllegalEa();
        r := Abort;
      } else {
        r := ExtendedOperand(mode, reg, size, fetchValue);
      }
      StepKeepsTransitive(m, m1, Abs(), 0, 0);
      if r.Ok? {
        ResolvedAfterLatch(m, mode, reg, size, fetchValue, r.value, Abs());
        AfterPointer(m, mode, reg, size, fetchValue);
      }
    }
  
    /** The operand with its cost: a faulted long operand has spent only the word share. */
    method CalcEa(mode: int, reg: int, size: Size) returns (r: Outcome<Ea>)
      requires Executing(Abs()) && 0 <= mode < 8 && 0 <= reg < 8
      modifies this, memory
      ensures Executing(Abs()) && ValidUnlessAbort(mode, reg, r.Ok?)
      ensures StepKeeps(old(Abs()), Abs(), if r.Ok? then EaCycles(mode, reg, size) else 0)
      ensures r.Ok? ==> EaResolved(old(Abs()), mode, reg, size, true, r.value, Abs())
      ensures r.Ok? <==> EaCompletes(old(Abs()), mode, reg, size, true)
      ensures r.Ok? ==> slice.remaining == old(slice.remaining) - EaCycles(mode, reg, size)
      ensures Ends(OperandStop(old(Abs()), mode, reg, size), r.Ok?, Abs())
      ensures r.Ok? ==> Abs() == AfterOperand(old(Abs()), mode, reg, size)
    {
      hide StepKeeps, StoppedAt, EaResolved, EaCompletes, EaStop, EaAfter;
      ghost var m := Abs();
      var full := EaCycles(mode, reg, size);
      var pre := if size == LongSize then EaCycles(mode, reg, WordSize) else full;
      Charge(pre);
      CompletesCharged(m, pre, mode, reg, size, true);
      ghost var m1 := Abs();
      r := CalcEaEx(mode, reg, size, true);
      ghost var m2 := Abs();
      ChargeKeeps(m, pre);
      StepKeepsTransitive(m, m1, m2, pre, 0);
      StepKeepsLess(m, m2, pre, 0);
      if r.Ok? {
        AfterCharged(m, pre, mode, reg, size, true);
        Charge(full - pre);
        ChargeKeeps(m2, full - pre);
        StepKeepsTransitive(m, m2, Abs(), pre, full - pre);
        ResolvedAroundCharge(m, pre, mode, reg, size, true, r.value, m2, full - pre);
      }
    }

    /** The operand's address, without reading it. */
    method CalcEaAddr(mode: int, reg: int, size: Size) returns (r: Outcome<Ea>)
      requires Executing(Abs()) && 0 <= mode < 8 && 0 <= reg < 8
      modifies this, memory
      ensures Executing(Abs()) && ValidUnlessAbort(mode, reg, r.Ok?)
      ensures StepKeeps(old(Abs()), Abs(), EaCycles(mode, reg, size))
      ensures r.Ok? ==> EaResolved(old(Abs()), mode, reg, size, false, r.value, Abs())
      ensures r.Ok? <==> EaCompletes(old(Abs()), mode, reg, size, false)
      ensures r.Ok? ==> slice.remaining == old(slice.remaining) - EaCycles(mode, reg, size)
      ensures Ends(EaStop(Charged(old(Abs()), EaCycles(mode, reg, size)), mode, reg, size, false), r.Ok?, Abs())
      ensures r.Ok? ==> Abs() == Charged(EaAfter(old(Abs()), mode, reg, size, false), EaCycles(mode, reg, size))
    {
      hide StepKeeps, StoppedAt, EaResolved, EaCompletes, EaStop, EaAfter;
      ghost var m := Abs();
      var cycles := EaCycles(mode, reg, size);
      Charge(cycles);
      CompletesCharged(m, cycles, mode, reg, size, false);
      ghost var m1 := Abs();
      r := CalcEaEx(mode, reg, size, false);
      ghost var m2 := Abs();
      ChargeKeeps(m, cycles);
      StepKeepsTransitive(m, m1, m2, cycles, 0);
      if r.Ok? {
        AfterCharged(m, cycles, mode, reg, size, false);
        ResolvedAroundCharge(m, cycles, mode, reg, size, false, r.value, m2, 0);
      }
    }

    // ------------------------------------------------ faults on branch targets

    predicate IsUnmappedTarget(target: Long)
      reads this, memory
    {
      !(Mask24(target) + 2 <= memory.Length)
    }

    /**
     A transfer to an odd or unmapped address: a program-space read fault that stacks
     the given PC and costs 50 cycles on top of the instruction's own.
     */
    method RaiseTargetFault(vector: nat, target: Long, faultPc: Long)
      requires Group0(vector) && GuardClear(Abs(), vector)
      modifies this, memory
      ensures StepKeeps(old(Abs()), Abs(), 50) && (Executing(old(Abs())) ==> Executing(Abs()))
      ensures d == old(d) && a[..7] == old(a)[..7]
      ensures old(nesting.thrown) == 0 ==> nesting.thrown == vector
      ensures AfterFault(WithFaultPc(Charged(old(Abs()), 50), faultPc), vector, target, false, true, Abs())
    {
      ghost var m := Abs();
      Charge(50);
      ghost var m1 := Abs();
      LatchFaultPc(faultPc);
      ghost var m2 := Abs();
      var _ := TakeFault(vector, target, false, true);
      ChargeKeeps(m, 50);
      LatchKeeps(m1, m2);
      StepKeepsTransitive(m, m1, m2, 50, 0);
      BusIsStep(m2, Abs(), 0);
      StepKeepsTransitive(m, m2, Abs(), 50, 0);
    }
  
    /** Control addressing: (An), the extended modes, but no registers or increments. */
    method CalcEaCtl(mode: int, reg: int, isJmp: bool) returns (r: Outcome<Ea>)
      requires Executing(Abs()) && 0 <= mode < 8 && 0 <= reg < 8
      modifies this, memory
      ensures Executing(Abs())
      ensures StepKeeps(old(Abs()), Abs(), if r.Ok? then ControlEaCycles(mode, reg, isJmp) else 0)
      ensures r.Ok? ==> ControlMode(mode, reg) && EaResolved(old(Abs()), mode, reg, LongSize, false, r.value, Abs())
      ensures r.Ok? ==> slice.remaining == old(slice.remaining) - ControlEaCycles(mode, reg, isJmp)
      ensures Ends(ControlStop(old(Abs()), mode, reg, isJmp), r.Ok?, Abs())
      ensures r.Ok? ==> Abs() == Charged(EaAfter(old(Abs()), mode, reg, LongSize, false),
                                         ControlEaCycles(mode, reg, isJmp))
    {
      hide StepKeeps, StoppedAt, EaResolved, EaStop, EaAfter, Raised;
      ghost var m := Abs();
      if mode < 2 || mode == 3 || mode == 4 || (mode == 7 && reg > 3) {
        IllegalControl(m, mode, reg, isJmp);
        RaiseIllegalEa();
        return Abort;
      }
      var cycles := ControlEaCycles(mode, reg, isJmp);
      Charge(cycles);
      ghost var m1 := Abs();
      r := CalcEaEx(mode, reg, LongSize, false);
      ghost var m2 := Abs();
      ChargeKeeps(m, cycles);
      StepKeepsTransitive(m, m1, m2, cycles, 0);
      StepKeepsLess(m, m2, cycles, 0);
      if r.Ok? {
        AfterCharged(m, cycles, mode, reg, LongSize, false);
        ResolvedAroundCharge(m, cycles, mode, reg, LongSize, false, r.value, m2, 0);
      }
    }

    // --------------------------------------------------------------- interrupts

    /** The host asserts an interrupt level; only a transition into 7 is latched. */
    method SetIrq(level: int)
      modifies this`lines
      ensures Abs() == old(Abs()).(lines := Asserted(old(lines), level))
      ensures 0 <= level < 8 ==> Happens(ViewOf(old(Abs())), Request(level), ViewOf(Abs()))
    {
      if level == 7 && lines.level != 7 {
        lines := lines.(nmi := true);
      }
      lines := lines.(level := level);
    }

    method Acknowledge(level: int, ack: Ack)
      requires 0 <= level < 8
      modifies this`sr, this`lines
      ensures Abs() == Acknowledged(old(Abs()), level, ack)
    {
      sr := WithMask(sr, level);
      lines := lines.(nmi := false);
      if ack.NoCallback? {
        lines := lines.(level := 0);
      }
      lines := lines.(stopped := false);
    }

    /** Services the pending interrupt if there is one; entered is the state before the mask moves. */
    method CheckInterrupts(ack: Ack) returns (taken: bool, ghost entered: Machine)
      requires 0 <= lines.level < 8
      modifies this, memory
      ensures taken == Due(ViewOf(old(Abs())))
      ensures !taken ==> Abs() == old(Abs())
      ensures taken ==> Serviced(old(Abs()), ack, entered, Abs())
      ensures taken ==> ServiceShown(old(Abs()), ack, Abs())
    {
      hide BusKeeps, Stackable, Raise, VectorLoaded, FlagS, Clean, EntryRoom, EntryShown, ServiceShown;
      ghost var m := Abs();
      entered := Abs();
      if lines.level == 0 {
        return false, Abs();
      }
      var current := MaskLevel(sr);
      var take := if lines.level == 7 then lines.nmi else lines.level > current;
      if !take {
        return false, Abs();
      }
      var serviced := lines.level;
      Exception(AckVector(ack, serviced));
      entered := Abs();
      LinesUntouched(m, entered);
      Acknowledge(serviced, ack);
      ServicedShown(m, ack, entered, Abs());
      return true, entered;
    }
  }
}
