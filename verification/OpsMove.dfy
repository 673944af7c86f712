/**
 MOVE, with the rules that decide what survives a faulted write.
 */
module OpsMove {
  import opened Words
  import opened StatusRegister
  import opened MachineState
  import opened Core
  import opened OpsControl
  import opened OpsLogic
  import opened Exceptions

  /** The source is a register or an immediate. */
  predicate DirectSource(mode: int, reg: int) {
    mode <= 1 || (mode == 7 && reg == 4)
  }

  /** The part of the destination's cost that a faulted write has not spent yet. */
  function Refund(size: Size, destMode: int, destReg: int, direct: bool): int {
    (if size == LongSize then (if destMode == 4 then 2 else 4) else 0)
    + (if destMode == 7 && destReg == 1 && !direct then 4 else 0)
  }

  lemma RefundCovered(size: Size, destMode: int, destReg: int, direct: bool)
    requires 2 <= destMode < 8 && (destMode == 7 ==> 0 <= destReg <= 1)
    ensures 0 <= Refund(size, destMode, destReg, direct) <= EaCycles(destMode, destReg, size)
  {
  }

  /** The final condition codes: N and Z of the moved value. */
  function MoveSr(sr: bv16, value: Long, size: Size): bv16 {
    WithNZVC(sr, Negative(value, size), Low(value, size) == 0, false, false)
  }

  /** How much of the value a faulted write has tested: none of it, its low word, its high word or all. */
  datatype Tested = Nothing | LowWord | HighWord | Whole

  function TestedPart(size: Size, destMode: int, destReg: int, direct: bool): Tested {
    var absoluteLong := destMode == 7 && destReg == 1;
    if size != LongSize then Whole
    else if destMode == 2 || destMode == 3 || (absoluteLong && !direct) then (if direct then Nothing else LowWord)
    else if (destMode == 5 || destMode == 6) && direct then HighWord
    else Whole
  }

  predicate TestedN(part: Tested, value: Long, size: Size) {
    if part == LowWord then Negative(value, WordSize) else Negative(value, size)
  }

  predicate TestedZ(part: Tested, value: Long, size: Size) {
    if part == LowWord then Low(value, WordSize) == 0
    else if part == HighWord then Hi16(value) == 0
    else Low(value, size) == 0
  }

  /** The condition codes a faulted write shows: a long write may have only got to one of its words. */
  function FaultSr(sr: bv16, value: Long, size: Size, destMode: int, destReg: int, direct: bool): bv16 {
    var part := TestedPart(size, destMode, destReg, direct);
    var kept := part == HighWord;
    if part == Nothing then sr
    else WithNZVC(sr, TestedN(part, value, size), TestedZ(part, value, size), kept && FlagV(sr), kept && FlagC(sr))
  }

  /** Everything but N, Z, V and C. */
  function Top(sr: bv16): bv16 {
    sr & 0xFFF0
  }

  /** The codes of a faulted write leave the rest alone, and the final codes overwrite them. */
  lemma FaultSrKeeps(sr: bv16, value: Long, size: Size, destMode: int, destReg: int, direct: bool)
    ensures var f := FaultSr(sr, value, size, destMode, destReg, direct);
            Top(f) == Top(sr) && MoveSr(f, value, size) == MoveSr(sr, value, size)
    ensures Top(MoveSr(sr, value, size)) == Top(sr)
  {
    var f, part := FaultSr(sr, value, size, destMode, destReg, direct), TestedPart(size, destMode, destReg, direct);
    KeepsTop(sr, TestedN(part, value, size), TestedZ(part, value, size),
             part == HighWord && FlagV(sr), part == HighWord && FlagC(sr));
    KeepsTop(sr, Negative(value, size), Low(value, size) == 0, false, false);
    hide Top, WithNZVC, TestedN, TestedZ, TestedPart, FlagV, FlagC, Negative, Low;
    TopDecides(f, sr, Negative(value, size), Low(value, size) == 0, false, false);
  }

  /**
   The condition codes a faulted write shows, flag by flag. A long write may have tested
   none of the value, its low word with a memory source, or its high word after a direct
   source, which leaves V and C as they were.
   */
  predicate FaultCodes(sr: bv16, value: Long, size: Size, mode: int, reg: int, direct: bool, f: bv16) {
    var x := FlagX(sr);
    if size != LongSize then
      FlagsAre(f, sr, x, Negative(value, size), value % size.Modulus() == 0, false, false)
    else if (mode == 2 || mode == 3) && direct then
      FlagsAre(f, sr, x, FlagN(sr), FlagZ(sr), FlagV(sr), FlagC(sr))
    else if mode == 2 || mode == 3 || (mode == 7 && reg == 1 && !direct) then
      FlagsAre(f, sr, x, value % 0x1_0000 >= 0x8000, value % 0x1_0000 == 0, false, false)
    else if (mode == 5 || mode == 6) && direct then
      FlagsAre(f, sr, x, value >= 0x8000_0000, value < 0x1_0000, FlagV(sr), FlagC(sr))
    else
      FlagsAre(f, sr, x, value >= 0x8000_0000, value == 0, false, false)
  }

  lemma FaultSrShown(sr: bv16, value: Long, size: Size, mode: int, reg: int, direct: bool)
    ensures FaultCodes(sr, value, size, mode, reg, direct, FaultSr(sr, value, size, mode, reg, direct))
  {
    hide WithNZVC, FlagX, FlagN, FlagZ, FlagV, FlagC;
    var part := TestedPart(size, mode, reg, direct);
    WithNZVCFlags(sr, TestedN(part, value, size), TestedZ(part, value, size),
                  part == HighWord && FlagV(sr), part == HighWord && FlagC(sr));
  }

  lemma KeepsTop(sr: bv16, n: bool, z: bool, v: bool, c: bool)
    ensures Top(WithNZVC(sr, n, z, v, c)) == Top(sr)
  {
  }

  lemma TopDecides(a: bv16, b: bv16, n: bool, z: bool, v: bool, c: bool)
    requires Top(a) == Top(b)
    ensures WithNZVC(a, n, z, v, c) == WithNZVC(b, n, z, v, c)
  {
  }

  lemma TopKeeps(m: Machine, sr: bv16)
    requires Top(sr) == Top(m.sr)
    ensures StepKeeps(m, m.(sr := sr), 0)
  {
    assert sr & 0xFFE0 == m.sr & 0xFFE0 by { assert sr & 0xFFE0 == Top(sr) & 0xFFE0; }
    CcrKeeps(m, sr);
  }

  /** The extra cycles of a byte or word predecrement, spent before the write. */
  function Extra(size: Size, mode: int): int {
    if mode == 4 && size != LongSize then 2 else 0
  }

  /** The address registers while the write can fault: only -(An) of byte and word is committed by then. */
  function EarlyRegisters(s: Machine, mode: int, reg: int, size: Size): Registers
    requires 0 <= reg < 8
  {
    if mode == 3 || (mode == 4 && size == LongSize) then s.a else EaRegisters(s, mode, reg, size)
  }

  /** What stops the addressing of the destination; the increment modes need no extension word. */
  function DestinationStop(s: Machine, mode: int, reg: int, size: Size): Option<Stop>
    requires 0 <= reg < 8
  {
    if mode == 3 || mode == 4 then None
    else EaStop(Charged(s, EaCycles(mode, reg, size)), mode, reg, size, false)
  }

  /** The machine once the destination has been addressed but not written. */
  function Addressed(s: Machine, mode: int, reg: int, size: Size): Machine
    requires 0 <= reg < 8
  {
    s.(a := EarlyRegisters(s, mode, reg, size), pc := Plus(s.pc, 2 * ExtensionWords(mode, reg, size)),
       fault := if mode == 3 || mode == 4 then s.fault else EaFault(s, mode, reg, size, false),
       slice := Charged(s, EaCycles(mode, reg, size)).slice)
  }

  /**
   The fault latch while the write can fault: the PC after the source plus a prefetch, or
   two for an absolute long address after a register source, and for an odd byte or word
   predecrement the prefetched word.
   */
  function WriteLatch(s: Machine, size: Size, mode: int, reg: int, registerSource: bool): FaultLatch
    requires 0 <= reg < 8
  {
    var shown := mode == 4 && size != LongSize && Odd(EaAddress(s, mode, reg, size));
    s.fault.(pc := Plus(s.pc, if mode == 7 && reg == 1 && registerSource then 4 else 2), pcValid := true,
             busWord := if shown then WordAt(s, s.pc) else s.fault.busWord,
             busWordValid := shown || s.fault.busWordValid)
  }

  /** The state in which the write starts, with the flags, latches and refund that a fault would show. */
  function WriteEntry(s: Machine, value: Long, size: Size, mode: int, reg: int, direct: bool,
                      registerSource: bool): Machine
    requires 0 <= reg < 8
  {
    s.(a := EarlyRegisters(s, mode, reg, size), pc := Plus(s.pc, 2 * ExtensionWords(mode, reg, size)),
       sr := FaultSr(s.sr, value, size, mode, reg, direct), fault := WriteLatch(s, size, mode, reg, registerSource),
       slice := Charged(s, EaCycles(mode, reg, size) - Refund(size, mode, reg, direct) + Extra(size, mode)).slice)
  }

  /** The address whose write goes first: the low word of a long predecrement. */
  function FirstWrite(address: Long, mode: int, size: Size): Long {
    if mode == 4 && size == LongSize then Plus(address, 2) else address
  }

  function FirstSize(mode: int, size: Size): Size {
    if mode == 4 && size == LongSize then WordSize else size
  }

  /** What stops the write: a long predecrement is two writes, low word first. */
  function TransferStop(w: Machine, value: Long, size: Size, mode: int, address: Long): Option<Stop> {
    First(WriteStop(w, FirstWrite(address, mode, size), FirstSize(mode, size)),
          if mode == 4 && size == LongSize
          then WriteStop(Stored(w, Plus(address, 2), Lo16(value), WordSize), address, WordSize) else None)
  }

  /** The memory after the write. */
  function Written(w: Machine, value: Long, size: Size, mode: int, address: Long): seq<Byte> {
    if mode == 4 && size == LongSize
    then Stored(Stored(w, Plus(address, 2), Lo16(value), WordSize), address, Hi16(value), WordSize).mem
    else Stored(w, address, value, size).mem
  }

  /** The write of a memory destination. */
  method WriteDestination(cpu: Cpu, value: Long, size: Size, mode: int, address: Long) returns (r: Outcome<()>)
    requires Executing(cpu.Abs())
    modifies cpu, cpu.memory
    ensures Executing(cpu.Abs()) && StepKeeps(old(cpu.Abs()), cpu.Abs(), 0)
    ensures Ends(TransferStop(old(cpu.Abs()), value, size, mode, address), r.Ok?, cpu.Abs())
    ensures r.Ok? ==> cpu.Abs() == old(cpu.Abs()).(mem := Written(old(cpu.Abs()), value, size, mode, address))
  {
    hide StepKeeps, StoppedAt, WriteStop, Plus, Stored;
    ghost var m := cpu.Abs();
    StoredRest(m, address, value, size);
    if mode == 4 && size == LongSize {
      StoredRest(m, Plus(address, 2), Lo16(value), WordSize);
      var _ :- WriteTo(cpu, Plus(address, 2), Lo16(value), WordSize);
      ghost var m1 := cpu.Abs();
      StoredRest(m1, address, Hi16(value), WordSize);
      r := WriteTo(cpu, address, Hi16(value), WordSize);
      StepKeepsTransitive(m, m1, cpu.Abs(), 0, 0);
    } else {
      r := WriteTo(cpu, address, value, size);
    }
  }

  /** A stretch of memory takes the whole operand, however it is written. */
  lemma WrittenWhole(w: Machine, value: Long, size: Size, mode: int, address: Long)
    requires InMemory(w, address, size.Bytes())
    ensures Written(w, value, size, mode, address) == Stored(w, address, value, size).mem
    ensures Executing(w) && (size == ByteSize || !Odd(address)) ==> TransferStop(w, value, size, mode, address).None?
  {
    OddNext(address);
    if mode == 4 && size == LongSize {
      TwoHalves(w, address, value);
      StoredRest(w, Plus(address, 2), Lo16(value), WordSize);
    }
    hide Plus, Mask24, OperandBytes, Splice, Hi16, Lo16;
  }

  lemma OddNext(address: Long)
    ensures Odd(Plus(address, 2)) == Odd(address)
  {
  }

  /** A long written as two words, low word first. */
  lemma TwoHalves(m: Machine, address: Long, value: Long)
    requires InMemory(m, address, 4)
    ensures Mapped(m, Plus(address, 2), WordSize) && Mapped(m, address, WordSize)
    ensures Stored(Stored(m, Plus(address, 2), Lo16(value), WordSize), address, Hi16(value), WordSize)
            == Stored(m, address, value, LongSize)
  {
    BusOffset(address, 2);
    HalfBytes(value);
    SpliceBelow(m.mem, Mask24(address), OperandBytes(Hi16(value), WordSize), OperandBytes(Lo16(value), WordSize));
    hide Mask24, Plus, OperandBytes, Splice;
  }

  lemma HalfBytes(value: Long)
    ensures OperandBytes(Hi16(value), WordSize) + OperandBytes(Lo16(value), WordSize) == OperandBytes(value, LongSize)
  {
    HighHalf(value);
    WordParts(value);
  }

  // ---------------------------------------------------- a faulted destination

  /**
   A faulted write is precise: memory changes in the 14 bytes of the frame alone, the data
   registers are untouched, (An)+ is not committed, -(An) is committed for a byte or word
   but not for a long word, and the frame shows a data write at the address that goes first,
   the codes tested by then, the prefetched word for an odd short predecrement, and the PC
   after the source plus its prefetch. The extension words and one bus cycle are spent, eight
   cycles for a predecrement, and an absolute long address is only half paid for after a
   source in memory.
   */
  predicate PreciseWrite(s: Machine, value: Long, size: Size, mode: int, reg: int, direct: bool, registerSource: bool,
                         vector: int, m': Machine)
    requires 0 <= reg < 8
  {
    var base := Minus(SupervisorSp(WriteEntry(s, value, size, mode, reg, direct, registerSource)), 14);
    var at, address, early := Mask24(base), EaAddress(s, mode, reg, size), EarlyRegisters(s, mode, reg, size);
    && at + 14 <= |s.mem| && SameOutside(s.mem, m'.mem, at, at + 14)
    && m'.d == s.d && m'.a == SetRegister(early, 7, base)
    && PointerMoved(s.a, if mode == 4 && size != LongSize then 4 else 0, reg, size, early)
    && StatusShown(Get16(m'.mem, at), Get16(m'.mem, at + 6), true, FlagS(s.sr), s.fault.programSpace)
    && Get32(m'.mem, at + 2) == (address + if mode == 4 && size == LongSize then 2 else 0) % 0x1_0000_0000
    && Get16(m'.mem, at + 6) == (if mode == 4 && size != LongSize && address % 2 == 1 then WordAt(s, s.pc)
                                 else BusWord(s))
    && FaultCodes(s.sr, value, size, mode, reg, direct, WordSr(Get16(m'.mem, at + 8)))
    && Get32(m'.mem, at + 10) == (s.pc + if mode == 7 && reg == 1 && registerSource then 4 else 2) % 0x1_0000_0000
    && Handled(s, vector, at, m')
    && s.slice.remaining - m'.slice.remaining == SpentWrite(mode, reg, size, direct)
    && m'.history.raised == s.history.raised + [vector]
  }

  /** What a faulted write has spent of the destination's cost. */
  function SpentWrite(mode: int, reg: int, size: Size, direct: bool): int {
    if mode == 4 then 8
    else 4 * ExtensionWords(mode, reg, size) + (if mode == 6 then 6 else 4)
         - (if mode == 7 && reg == 1 && !direct then 4 else 0)
  }

  lemma WriteSpends(mode: int, reg: int, size: Size, direct: bool)
    requires 2 <= mode < 8 && 0 <= reg < 8 && (mode == 7 ==> reg <= 1)
    ensures EaCycles(mode, reg, size) - Refund(size, mode, reg, direct) + Extra(size, mode)
            == SpentWrite(mode, reg, size, direct)
  {
    EaCyclesCount(mode, reg, size);
    hide EaCycles;
  }

  /** The state in which a write faults, in the terms of what its frame shows. */
  lemma EntryShows(s: Machine, value: Long, size: Size, mode: int, reg: int, direct: bool, registerSource: bool)
    requires 2 <= mode < 8 && 0 <= reg < 8 && (mode == 7 ==> reg <= 1)
    ensures var w := WriteEntry(s, value, size, mode, reg, direct, registerSource);
            && w.mem == s.mem && w.nesting == s.nesting && w.d == s.d && w.control == s.control
            && w.history == s.history && w.a == EarlyRegisters(s, mode, reg, size)
            && w.fault.pcValid && w.fault.programSpace == s.fault.programSpace
            && w.fault.pc == (s.pc + if mode == 7 && reg == 1 && registerSource then 4 else 2) % 0x1_0000_0000
            && BusWord(w) == (if mode == 4 && size != LongSize && EaAddress(s, mode, reg, size) % 2 == 1
                              then WordAt(s, s.pc) else BusWord(s))
            && FlagS(w.sr) == FlagS(s.sr) && FaultCodes(s.sr, value, size, mode, reg, direct, w.sr)
            && s.slice.remaining - w.slice.remaining == SpentWrite(mode, reg, size, direct)
            && PointerMoved(s.a, if mode == 4 && size != LongSize then 4 else 0, reg, size, w.a)
  {
    hide FaultSr, FaultCodes, EaAddress, EaCycles, Refund, SpentWrite, WordAt, PointerMoved, FlagS, MoveSr,
         ExtensionWords;
    WriteSpends(mode, reg, size, direct);
    FaultSrShown(s.sr, value, size, mode, reg, direct);
    FaultSrKeeps(s.sr, value, size, mode, reg, direct);
    TopSupervisor(s.sr, FaultSr(s.sr, value, size, mode, reg, direct));
    EaPointer(s, mode, reg, size);
    NoPointer(s.a, reg, size);
  }

  lemma TopSupervisor(a: bv16, b: bv16)
    ensures Top(a) == Top(b) ==> FlagS(a) == FlagS(b)
  {
  }

  lemma NoPointer(a: Registers, reg: int, size: Size)
    ensures PointerMoved(a, 0, reg, size, a)
  {
  }

  lemma WriteFaultIsPrecise(s: Machine, value: Long, size: Size, mode: int, reg: int, direct: bool,
                            registerSource: bool,
                            vector: int, m': Machine)
    requires 2 <= mode < 8 && 0 <= reg < 8 && (mode == 7 ==> reg <= 1) && DestinationStop(s, mode, reg, size).None?
    requires FaultVector(s, FirstWrite(EaAddress(s, mode, reg, size), mode, size), FirstSize(mode, size))
             == Some(vector)
    requires FaultRoom(WriteEntry(s, value, size, mode, reg, direct, registerSource), vector)
    ensures ValueStop(s, value, size, mode, reg, direct, registerSource).Some?
    ensures StoppedAt(ValueStop(s, value, size, mode, reg, direct, registerSource).value, m') ==>
      PreciseWrite(s, value, size, mode, reg, direct, registerSource, vector, m')
  {
    hide Minus, Plus, Mask24, Get16, Get32, SrWord, WordSr, BusWord, SupervisorSp, UserSp, FaultSr, FaultCodes,
         EaAddress, AfterFault, EaCycles, ExtensionWords, FaultRoom, Handled, SpentWrite, FlagS, PointerMoved,
         StatusShown, WriteEntry, FaultVector, WordAt, EarlyRegisters, DestinationStop, FirstWrite, Stored;
    var w := WriteEntry(s, value, size, mode, reg, direct, registerSource);
    var first := FirstWrite(EaAddress(s, mode, reg, size), mode, size);
    EntryShows(s, value, size, mode, reg, direct, registerSource);
    FaultSame(s, w, first, FirstSize(mode, size));
    FaultNumber(s, first, FirstSize(mode, size));
    FaultIsPrecise(w, vector, first, true, false, m');
    HandledSame(s, w, vector, Mask24(Minus(SupervisorSp(w), 14)), m');
    SrRoundTrip(w.sr);
    FirstAddress(EaAddress(s, mode, reg, size), mode, size);
  }

  lemma FirstAddress(address: Long, mode: int, size: Size)
    ensures FirstWrite(address, mode, size)
            == (address + if mode == 4 && size == LongSize then 2 else 0) % 0x1_0000_0000
  {
  }

  // ------------------------------------------------------------------- MOVE

  /** The increment modes are resolved in place, so that their commits can wait for the write. */
  method ResolveDestination(cpu: Cpu, mode: int, reg: int, size: Size) returns (r: Outcome<Ea>)
    requires Executing(cpu.Abs()) && 0 <= mode < 8 && 0 <= reg < 8
    modifies cpu, cpu.memory
    ensures Executing(cpu.Abs()) && StepKeeps(old(cpu.Abs()), cpu.Abs(), EaCycles(mode, reg, size))
    ensures Ends(DestinationStop(old(cpu.Abs()), mode, reg, size), r.Ok?, cpu.Abs())
    ensures r.Ok? ==>
      var s := old(cpu.Abs());
      && cpu.Abs() == Addressed(s, mode, reg, size)
      && r.value.isReg == !MemoryMode(mode, reg) && r.value.isAddr == (mode == 1)
      && (MemoryMode(mode, reg) ==> r.value.address == EaAddress(s, mode, reg, size))
  {
    hide StepKeeps, StoppedAt, EaStop, EaResolved, EaCompletes, EaCycles, EaFault, Plus, Minus, AddressStep;
    ghost var s := cpu.Abs();
    PlusZero(cpu.pc);
    if mode == 3 || mode == 4 {
      var cycles := EaCycles(mode, reg, size);
      cpu.Charge(cycles);
      ghost var m1 := cpu.Abs();
      ChargeKeeps(s, cycles);
      var address := if mode == 3 then cpu.a[reg] else Minus(cpu.a[reg], AddressStep(reg, size));
      if mode == 4 && size != LongSize {
        RegisterKeeps(m1, reg, address);
        cpu.SetA(reg, address);
        StepKeepsTransitive(s, m1, cpu.Abs(), cycles, 0);
      }
      return Ok(Ea(0, address, false, 0, false));
    }
    r := cpu.CalcEaAddr(mode, reg, size);
    if r.Ok? {
      ResolvedRest(s, mode, reg, size, false, r.value, cpu.Abs());
    }
    hide EaAddress;
  }

  /** The latches, flags and refund that a faulted write would show. */
  method PrepareWrite(cpu: Cpu, ghost s: Machine, value: Long, size: Size, mode: int, reg: int, direct: bool,
                      registerSource: bool, address: Long, pcAfterSource: Long)
    requires Executing(cpu.Abs()) && 2 <= mode < 8 && 0 <= reg < 8
    requires cpu.Abs() == Addressed(s, mode, reg, size)
    requires address == EaAddress(s, mode, reg, size) && pcAfterSource == s.pc
    modifies cpu
    ensures Executing(cpu.Abs())
    ensures StepKeeps(old(cpu.Abs()), cpu.Abs(), Extra(size, mode) - Refund(size, mode, reg, direct))
    ensures cpu.Abs() == WriteEntry(s, value, size, mode, reg, direct, registerSource)
  {
    hide StepKeeps, FaultSr, Refund, Plus, WordAt, EaAddress, Addressed, WriteEntry;
    ghost var m := cpu.Abs();
    AddressedRest(s, mode, reg, size);
    LatchWritePc(cpu, pcAfterSource, mode == 7 && reg == 1 && registerSource);
    ghost var m1 := cpu.Abs();
    ShowFaultSr(cpu, value, size, mode, reg, direct);
    ghost var m2 := cpu.Abs();
    StepKeepsTransitive(m, m1, m2, 0, 0);
    var charge := Extra(size, mode) - Refund(size, mode, reg, direct);
    cpu.Charge(charge);
    ghost var m3 := cpu.Abs();
    ChargeKeeps(m2, charge);
    StepKeepsTransitive(m, m2, m3, 0, charge);
    if mode == 4 && size != LongSize && Odd(address) {
      SameWord(s, m3);
      LatchBusWord(cpu, pcAfterSource);
      StepKeepsTransitive(m, m3, cpu.Abs(), charge, 0);
    }
    EntryInSteps(s, value, size, mode, reg, direct, registerSource, m3, cpu.Abs());
  }

  lemma AddressedRest(s: Machine, mode: int, reg: int, size: Size)
    requires 0 <= reg < 8
    ensures var m := Addressed(s, mode, reg, size); m.nesting == s.nesting && m.sr == s.sr && m.mem == s.mem
  {
  }

  lemma EntryInSteps(s: Machine, value: Long, size: Size, mode: int, reg: int, direct: bool, registerSource: bool,
                     m3: Machine, m': Machine)
    requires 2 <= mode < 8 && 0 <= reg < 8
    requires m3 == Charged(WithFaultPc(Addressed(s, mode, reg, size),
                                       Plus(s.pc, if mode == 7 && reg == 1 && registerSource then 4 else 2)),
                           Extra(size, mode) - Refund(size, mode, reg, direct)).(
                     sr := FaultSr(s.sr, value, size, mode, reg, direct))
    requires m' == if mode == 4 && size != LongSize && Odd(EaAddress(s, mode, reg, size))
                   then m3.(fault := m3.fault.(busWord := WordAt(s, s.pc), busWordValid := true)) else m3
    ensures m' == WriteEntry(s, value, size, mode, reg, direct, registerSource)
  {
    hide FaultSr, Refund, Plus, WordAt, ExtensionWords, EarlyRegisters, EaAddress, EaCycles;
  }

  lemma SameWord(s: Machine, m: Machine)
    requires m.mem == s.mem
    ensures WordAt(m, s.pc) == WordAt(s, s.pc)
  {
  }

  method LatchWritePc(cpu: Cpu, pcAfterSource: Long, oneMore: bool)
    modifies cpu`fault
    ensures cpu.Abs() == WithFaultPc(old(cpu.Abs()), Plus(pcAfterSource, if oneMore then 4 else 2))
    ensures StepKeeps(old(cpu.Abs()), cpu.Abs(), 0)
  {
    hide StepKeeps;
    ghost var m := cpu.Abs();
    PlusTwice(pcAfterSource, 2, 2);
    cpu.LatchFaultPc(Plus(pcAfterSource, 2));
    if oneMore {
      cpu.LatchFaultPc(Plus(cpu.fault.pc, 2));
    }
    LatchKeeps(m, cpu.Abs());
  }

  method ShowFaultSr(cpu: Cpu, value: Long, size: Size, mode: int, reg: int, direct: bool)
    modifies cpu`sr
    ensures cpu.Abs() == old(cpu.Abs()).(sr := FaultSr(old(cpu.sr), value, size, mode, reg, direct))
    ensures StepKeeps(old(cpu.Abs()), cpu.Abs(), 0)
  {
    hide StepKeeps, FaultSr, Top;
    ghost var m := cpu.Abs();
    FaultSrKeeps(cpu.sr, value, size, mode, reg, direct);
    TopKeeps(m, FaultSr(cpu.sr, value, size, mode, reg, direct));
    cpu.SetCcr(FaultSr(cpu.sr, value, size, mode, reg, direct));
  }

  /** The frame of a faulted predecrement write shows the prefetched word. */
  method LatchBusWord(cpu: Cpu, address: Long)
    modifies cpu`fault
    ensures var m := old(cpu.Abs());
            cpu.Abs() == m.(fault := m.fault.(busWord := WordAt(m, address), busWordValid := true))
    ensures StepKeeps(old(cpu.Abs()), cpu.Abs(), 0)
  {
    hide StepKeeps;
    ghost var m := cpu.Abs();
    var at := Mask24(address);
    var word := 0;
    if at + 2 <= cpu.memory.Length {
      word := cpu.LoadBytes(at, WordSize);
    }
    cpu.fault := cpu.fault.(busWord := word, busWordValid := true);
    LatchKeeps(m, cpu.Abs());
  }

  /** A completed write drops the latched word, except that a long predecrement never latches one. */
  function CommitLatch(fault: FaultLatch, size: Size, mode: int): FaultLatch {
    fault.(busWordValid := fault.busWordValid && mode == 4 && size == LongSize)
  }

  /** (An)+, and -(An) of a long word, are committed by a completed write. */
  function CommitRegisters(a: Registers, size: Size, mode: int, reg: int, address: Long): Registers
    requires 0 <= reg < 8
  {
    if mode == 3 then SetRegister(a, reg, Plus(address, AddressStep(reg, size)))
    else if mode == 4 && size == LongSize then SetRegister(a, reg, address)
    else a
  }

  function FinalCodes(sr: bv16, value: Long, size: Size): bv16 {
    if size == LongSize then MoveSr(sr, value, size) else sr
  }

  /** The commits after a completed write: the refund taken back, the register, the final flags. */
  method CommitWrite(cpu: Cpu, value: Long, size: Size, mode: int, reg: int, direct: bool, address: Long)
    requires Executing(cpu.Abs()) && 2 <= mode < 8 && 0 <= reg < 8
    modifies cpu
    ensures Executing(cpu.Abs()) && StepKeeps(old(cpu.Abs()), cpu.Abs(), Refund(size, mode, reg, direct))
    ensures var w := old(cpu.Abs());
            cpu.Abs() == Charged(w, Refund(size, mode, reg, direct)).(
              fault := CommitLatch(w.fault, size, mode), sr := FinalCodes(w.sr, value, size),
              a := CommitRegisters(w.a, size, mode, reg, address))
  {
    hide StepKeeps, MoveSr, CommitRegisters, Refund;
    ghost var m := cpu.Abs();
    var refund := Refund(size, mode, reg, direct);
    cpu.Charge(refund);
    ghost var m1 := cpu.Abs();
    ChargeKeeps(m, refund);
    if !(mode == 4 && size == LongSize) {
      cpu.fault := cpu.fault.(busWordValid := false);
    }
    LatchKeeps(m1, cpu.Abs());
    ghost var m2 := cpu.Abs();
    StepKeepsTransitive(m, m1, m2, refund, 0);
    CommitRegister(cpu, size, mode, reg, address);
    ghost var m3 := cpu.Abs();
    StepKeepsTransitive(m, m2, m3, refund, 0);
    if size == LongSize {
      FinalKeeps(m3, value, size);
      cpu.SetCcr(MoveSr(cpu.sr, value, size));
      StepKeepsTransitive(m, m3, cpu.Abs(), refund, 0);
    }
  }

  lemma FinalKeeps(m: Machine, value: Long, size: Size)
    ensures StepKeeps(m, m.(sr := MoveSr(m.sr, value, size)), 0)
  {
    hide StepKeeps, Top, WithNZVC, Negative, Low;
    KeepsTop(m.sr, Negative(value, size), Low(value, size) == 0, false, false);
    TopKeeps(m, MoveSr(m.sr, value, size));
  }

  method CommitRegister(cpu: Cpu, size: Size, mode: int, reg: int, address: Long)
    requires Executing(cpu.Abs()) && 0 <= reg < 8
    modifies cpu`a
    ensures cpu.Abs() == old(cpu.Abs()).(a := CommitRegisters(old(cpu.a), size, mode, reg, address))
    ensures StepKeeps(old(cpu.Abs()), cpu.Abs(), 0)
  {
    hide StepKeeps, Plus;
    ghost var m := cpu.Abs();
    NothingKept(m, m);
    if mode == 3 {
      RegisterKeeps(m, reg, Plus(address, AddressStep(reg, size)));
      cpu.SetA(reg, Plus(address, AddressStep(reg, size)));
    } else if mode == 4 && size == LongSize {
      RegisterKeeps(m, reg, address);
      cpu.SetA(reg, address);
    }
  }

  lemma FinalSr(sr: bv16, value: Long, size: Size, mode: int, reg: int, direct: bool)
    ensures var f := FaultSr(sr, value, size, mode, reg, direct);
            FinalCodes(f, value, size) == MoveSr(sr, value, size)
  {
    FaultSrKeeps(sr, value, size, mode, reg, direct);
    hide Top, WithNZVC, Negative, Low;
  }

  /** The machine after a completed move to memory. */
  function Moved(s: Machine, value: Long, size: Size, mode: int, reg: int, registerSource: bool): Machine
    requires 0 <= reg < 8
  {
    s.(mem := Written(s, value, size, mode, EaAddress(s, mode, reg, size)),
       a := EaRegisters(s, mode, reg, size), pc := Plus(s.pc, 2 * ExtensionWords(mode, reg, size)),
       sr := MoveSr(s.sr, value, size),
         fault := CommitLatch(WriteLatch(s, size, mode, reg, registerSource), size, mode),
       slice := Charged(s, EaCycles(mode, reg, size) + Extra(size, mode)).slice)
  }

  lemma MovedInSteps(s: Machine, value: Long, size: Size, mode: int, reg: int, direct: bool, registerSource: bool,
                     m': Machine)
    requires 2 <= mode < 8 && 0 <= reg < 8
    requires var w := WriteEntry(s, value, size, mode, reg, direct, registerSource);
             var address := EaAddress(s, mode, reg, size);
             && FinalCodes(w.sr, value, size) == MoveSr(s.sr, value, size)
             && m' == Charged(w.(mem := Written(w, value, size, mode, address)), Refund(size, mode, reg, direct)).(
                        fault := CommitLatch(w.fault, size, mode), sr := FinalCodes(w.sr, value, size),
                        a := CommitRegisters(w.a, size, mode, reg, address))
    ensures m' == Moved(s, value, size, mode, reg, registerSource)
  {
    hide Plus, Minus, WithNZVC, AddressStep, ExtensionWords, Signed, Extend, WordAt, IndexedAddress, Refund,
         WriteLatch, FaultSr, EaCycles, Written;
    SameWritten(s, WriteEntry(s, value, size, mode, reg, direct, registerSource), value, size, mode,
                EaAddress(s, mode, reg, size));
  }

  lemma SameWritten(s: Machine, w: Machine, value: Long, size: Size, mode: int, address: Long)
    requires w.mem == s.mem
    ensures Written(w, value, size, mode, address) == Written(s, value, size, mode, address)
  {
    hide Mask24, Plus, OperandBytes, Splice, Hi16, Lo16;
  }

  /** A destination in memory. */
  method MoveToMemory(cpu: Cpu, ghost s: Machine, value: Long, size: Size, mode: int, reg: int, direct: bool,
                      registerSource: bool, address: Long, pcAfterSource: Long)
    returns (r: Outcome<()>)
    requires Executing(cpu.Abs()) && 2 <= mode < 8 && 0 <= reg < 8
    requires cpu.Abs() == Addressed(s, mode, reg, size)
    requires address == EaAddress(s, mode, reg, size) && pcAfterSource == s.pc
    modifies cpu, cpu.memory
    ensures Executing(cpu.Abs())
    ensures StepKeeps(old(cpu.Abs()), cpu.Abs(), if r.Ok? then Extra(size, mode) else -Refund(size, mode, reg, direct))
    ensures Ends(TransferStop(WriteEntry(s, value, size, mode, reg, direct, registerSource), value, size, mode,
                              address),
                 r.Ok?, cpu.Abs())
    ensures r.Ok? ==> cpu.Abs() == Moved(s, value, size, mode, reg, registerSource)
    ensures r.Ok? ==> cpu.nesting == old(cpu.nesting)
  {
    hide StepKeeps, StoppedAt, FaultSr, MoveSr, TransferStop, Written, Plus, EaAddress, Refund, EaRegisters,
         ExtensionWords, AddressStep, Addressed, WriteEntry, Moved, CommitLatch, CommitRegisters, FinalCodes;
    ghost var m := cpu.Abs();
    var refund := Refund(size, mode, reg, direct);
    PrepareWrite(cpu, s, value, size, mode, reg, direct, registerSource, address, pcAfterSource);
    ghost var w := cpu.Abs();
    StepKeepsLess(m, w, Extra(size, mode) - refund, -refund);
    EntryRest(s, value, size, mode, reg, direct, registerSource);
    FinalSr(s.sr, value, size, mode, reg, direct);
    r := WriteDestination(cpu, value, size, mode, address);
    ghost var m2 := cpu.Abs();
    StepKeepsTransitive(m, w, m2, -refund, 0);
    StepKeepsTransitive(m, w, m2, Extra(size, mode) - refund, 0);
    if r.Ok? {
      CommitWrite(cpu, value, size, mode, reg, direct, address);
      StepKeepsTransitive(m, m2, cpu.Abs(), Extra(size, mode) - refund, refund);
      MovedInSteps(s, value, size, mode, reg, direct, registerSource, cpu.Abs());
    }
  }

  lemma EntryRest(s: Machine, value: Long, size: Size, mode: int, reg: int, direct: bool, registerSource: bool)
    requires 0 <= reg < 8
    ensures var w := WriteEntry(s, value, size, mode, reg, direct, registerSource);
            w.nesting == s.nesting && w.sr == FaultSr(s.sr, value, size, mode, reg, direct)
    ensures Addressed(s, mode, reg, size).nesting == s.nesting
    ensures Moved(s, value, size, mode, reg, registerSource).nesting == s.nesting
  {
  }

  /** A register destination: Dn takes the flags, An takes the sign-extended value and keeps them. */
  method MoveToRegister(cpu: Cpu, value: Long, size: Size, reg: int, isAddr: bool)
    requires Executing(cpu.Abs()) && 0 <= reg < 8 && (isAddr ==> size != ByteSize)
    modifies cpu
    ensures Executing(cpu.Abs()) && StepKeeps(old(cpu.Abs()), cpu.Abs(), 0)
    ensures var m := old(cpu.Abs());
            cpu.Abs() == if isAddr then m.(a := SetRegister(m.a, reg, Extend(value, size)))
                         else m.(d := SetRegister(m.d, reg, Merge(m.d[reg], value, size)),
                                 sr := MoveSr(m.sr, value, size))
  {
    hide StepKeeps, Merge, Top, WithNZVC, Negative, Low;
    ghost var m := cpu.Abs();
    if isAddr {
      ExtendLong(value);
      var extended := if size == WordSize then Extend(value, WordSize) else value;
      RegisterKeeps(m, reg, extended);
      cpu.SetA(reg, extended);
    } else {
      RegisterKeeps(m, reg, Merge(cpu.d[reg], value, size));
      cpu.SetD(reg, Merge(cpu.d[reg], value, size));
      ghost var m1 := cpu.Abs();
      KeepsTop(cpu.sr, Negative(value, size), Low(value, size) == 0, false, false);
      TopKeeps(m1, MoveSr(cpu.sr, value, size));
      cpu.SetCcr(MoveSr(cpu.sr, value, size));
      StepKeepsTransitive(m, m1, cpu.Abs(), 0, 0);
    }
  }

  /** Destinations that do not exist: PC-relative, immediate, and a byte to an address register. */
  predicate ValidDestination(mode: int, reg: int, size: Size) {
    !(mode == 7 && reg > 1) && !(mode == 1 && size == ByteSize)
  }

  /** The machine after a completed move to a register. */
  function MovedToRegister(s: Machine, value: Long, size: Size, isAddr: bool, reg: int): Machine
    requires 0 <= reg < 8
  {
    s.(a := if isAddr then SetRegister(s.a, reg, Extend(value, size)) else s.a,
       d := if isAddr then s.d else SetRegister(s.d, reg, Merge(s.d[reg], value, size)),
       sr := if isAddr then s.sr else MoveSr(s.sr, value, size))
  }

  lemma RefundOnAbort(size: Size, mode: int, reg: int, direct: bool)
    requires 2 <= mode < 8 && 0 <= reg < 8 && ValidDestination(mode, reg, size)
    ensures 0 <= Refund(size, mode, reg, direct) <= EaCycles(mode, reg, size)
    ensures mode == 4 ==> EaCycles(mode, reg, size) >= 4
  {
    RefundCovered(size, mode, reg, direct);
  }

  /** What stops the destination half of a move: its addressing, or its write. */
  function ValueStop(s: Machine, value: Long, size: Size, mode: int, reg: int, direct: bool,
                     registerSource: bool): Option<Stop>
    requires 0 <= reg < 8
  {
    First(DestinationStop(s, mode, reg, size),
          if mode <= 1 then None
          else TransferStop(WriteEntry(s, value, size, mode, reg, direct, registerSource), value, size, mode,
                            EaAddress(s, mode, reg, size)))
  }

  /** What a completed destination half leaves: the register, or the memory operand with its commits. */
  predicate ValueMoved(s: Machine, value: Long, size: Size, mode: int, reg: int, registerSource: bool, m': Machine)
    requires 0 <= reg < 8
  {
    if mode <= 1 then m' == MovedToRegister(s, value, size, mode == 1, reg)
    else m' == Moved(s, value, size, mode, reg, registerSource)
  }

  /**
   A completed move in numbers. Every destination but An takes N and Z of the value with V
   and C clear; Dn takes the operand's bits and keeps the rest; An takes the same signed
   number and no flag moves; memory takes the big-endian operand and no other byte changes.
   */
  predicate MoveShown(s: Machine, value: Long, size: Size, mode: int, reg: int, m': Machine)
    requires 0 <= reg < 8
  {
    var n, at := size.Modulus(), EaAddress(s, mode, reg, size) % 0x100_0000;
    && (mode == 1 ==> m'.sr == s.sr)
    && (mode != 1 ==> FlagsAre(m'.sr, s.sr, FlagX(s.sr), value % n >= n / 2, value % n == 0, false, false))
    && (mode == 0 ==> m'.d[reg] % n == value % n && m'.d[reg] / n == s.d[reg] / n
                      && forall k :: 0 <= k < 8 && k != reg ==> m'.d[k] == s.d[k])
    && (mode == 1 ==> Signed(m'.a[reg], LongSize) == Signed(value, size)
                      && forall k :: 0 <= k < 8 && k != reg ==> m'.a[k] == s.a[k])
    && (mode != 0 ==> m'.d == s.d) && (mode == 0 ==> m'.a == s.a) && (mode <= 1 ==> m'.mem == s.mem)
    && (mode >= 2 ==> PointerMoved(s.a, mode, reg, size, m'.a))
    && (mode >= 2 && at + size.Bytes() <= |s.mem| && at + size.Bytes() <= 0x100_0000 ==>
          SameOutside(s.mem, m'.mem, at, at + size.Bytes()) && Number(m'.mem[at..at + size.Bytes()]) == value % n)
  }

  lemma ValueFlags(sr: bv16, value: Long, size: Size)
    ensures var n := size.Modulus();
            FlagsAre(MoveSr(sr, value, size), sr, FlagX(sr), value % n >= n / 2, value % n == 0, false, false)
  {
    WithNZVCFlags(sr, Negative(value, size), Low(value, size) == 0, false, false);
    hide FlagsAre, FlagX, WithNZVC;
  }

  lemma RegisterMoved(s: Machine, value: Long, size: Size, mode: int, reg: int, m': Machine)
    requires 0 <= mode <= 1 && 0 <= reg < 8
    ensures m' == MovedToRegister(s, value, size, mode == 1, reg) ==> MoveShown(s, value, size, mode, reg, m')
  {
    hide EaAddress, FlagsAre, FlagX, MoveSr, Merge, Extend, Signed, Number;
    ValueFlags(s.sr, value, size);
    MergeParts(s.d[reg], value, size);
    ExtendSigned(value, size);
  }

  /** The operand of a completed write, in its place. */
  lemma WrittenShown(s: Machine, value: Long, size: Size, mode: int, address: Long)
    ensures var at, mem := address % 0x100_0000, Written(s, value, size, mode, address);
            at + size.Bytes() <= |s.mem| && at + size.Bytes() <= 0x100_0000 ==>
              SameOutside(s.mem, mem, at, at + size.Bytes())
              && Number(mem[at..at + size.Bytes()]) == value % size.Modulus()
  {
    hide Number, Written, Stored, SameOutside;
    if InMemory(s, address, size.Bytes()) {
      WrittenWhole(s, value, size, mode, address);
      StoredInPlace(s, address, value, size);
    }
  }

  lemma MemoryMoved(s: Machine, value: Long, size: Size, mode: int, reg: int, registerSource: bool, m': Machine)
    requires 2 <= mode < 8 && 0 <= reg < 8
    ensures m' == Moved(s, value, size, mode, reg, registerSource) ==> MoveShown(s, value, size, mode, reg, m')
  {
    hide EaAddress, EaRegisters, PointerMoved, FlagsAre, FlagX, MoveSr, Number, Written, WriteLatch, SameOutside,
         EaCycles, ExtensionWords, CommitLatch;
    ValueFlags(s.sr, value, size);
    EaPointer(s, mode, reg, size);
    WrittenShown(s, value, size, mode, EaAddress(s, mode, reg, size));
  }

  lemma ValueIsShown(s: Machine, value: Long, size: Size, mode: int, reg: int, registerSource: bool, m': Machine)
    requires 0 <= mode < 8 && 0 <= reg < 8
    ensures ValueMoved(s, value, size, mode, reg, registerSource, m') ==> MoveShown(s, value, size, mode, reg, m')
  {
    hide MoveShown, MovedToRegister, Moved;
    if mode <= 1 {
      RegisterMoved(s, value, size, mode, reg, m');
    } else {
      MemoryMoved(s, value, size, mode, reg, registerSource, m');
    }
  }

  /** The destination half of MOVE. */
  method MoveValue(cpu: Cpu, value: Long, size: Size, mode: int, reg: int, direct: bool, registerSource: bool)
    returns (r: Outcome<()>)
    requires Executing(cpu.Abs()) && 0 <= mode < 8 && 0 <= reg < 8 && ValidDestination(mode, reg, size)
    modifies cpu, cpu.memory
    ensures Executing(cpu.Abs())
    ensures StepKeeps(old(cpu.Abs()), cpu.Abs(), if r.Ok? && mode == 4 then 4 else 0)
    ensures r.Ok? ==> cpu.nesting == old(cpu.nesting)
    ensures Ends(ValueStop(old(cpu.Abs()), value, size, mode, reg, direct, registerSource), r.Ok?, cpu.Abs())
    ensures r.Ok? ==> ValueMoved(old(cpu.Abs()), value, size, mode, reg, registerSource, cpu.Abs())
    ensures r.Ok? ==> MoveShown(old(cpu.Abs()), value, size, mode, reg, cpu.Abs())
  {
    hide StepKeeps, StoppedAt, EaCycles, EaAddress, DestinationStop, TransferStop, WriteEntry, Moved, Merge, Refund,
         Addressed, MoveSr, Extend, MoveShown;
    ghost var s := cpu.Abs();
    var pcAfterSource := cpu.pc;
    var dest := ResolveDestination(cpu, mode, reg, size);
    ghost var m2 := cpu.Abs();
    StepKeepsLess(s, m2, EaCycles(mode, reg, size), 0);
    EntryRest(s, value, size, mode, reg, direct, registerSource);
    if dest.Abort? {
      return Abort;
    }
    if dest.value.isReg {
      AddressedRegister(s, mode, reg, size);
      MoveToRegister(cpu, value, size, reg, dest.value.isAddr);
      StepKeepsTransitive(s, m2, cpu.Abs(), 0, 0);
      ValueIsShown(s, value, size, mode, reg, registerSource, cpu.Abs());
      return Ok(());
    }
    r := MoveToMemory(cpu, s, value, size, mode, reg, direct, registerSource, dest.value.address, pcAfterSource);
    ValueIsShown(s, value, size, mode, reg, registerSource, cpu.Abs());
    RefundOnAbort(size, mode, reg, direct);
    var extra := if r.Ok? then Extra(size, mode) else -Refund(size, mode, reg, direct);
    StepKeepsTransitive(s, m2, cpu.Abs(), EaCycles(mode, reg, size), extra);
    StepKeepsLess(s, cpu.Abs(), EaCycles(mode, reg, size) + extra, if r.Ok? && mode == 4 then 4 else 0);
  }

  lemma AddressedRegister(s: Machine, mode: int, reg: int, size: Size)
    requires 0 <= reg < 8
    ensures !MemoryMode(mode, reg) && 0 <= mode < 8 && ValidDestination(mode, reg, size) ==>
      mode <= 1 && Addressed(s, mode, reg, size) == s
  {
    PlusZero(s.pc);
  }

  /** What stops a move: its source, then its destination. */
  function MoveStop(m: Machine, size: Size, srcMode: int, srcReg: int, mode: int, reg: int): Option<Stop>
    requires 0 <= srcReg < 8 && 0 <= reg < 8
  {
    if !ValidDestination(mode, reg, size) then None
    else First(OperandStop(m, srcMode, srcReg, size),
               ValueStop(AfterOperand(m, srcMode, srcReg, size), OperandValue(m, srcMode, srcReg, size), size, mode,
                         reg,
                         DirectSource(srcMode, srcReg), srcMode <= 1))
  }

  predicate MoveDone(m: Machine, size: Size, srcMode: int, srcReg: int, mode: int, reg: int, m': Machine)
    requires 0 <= srcReg < 8 && 0 <= reg < 8
  {
    if !ValidDestination(mode, reg, size) then Raised(m, 4, m')
    else ValueMoved(AfterOperand(m, srcMode, srcReg, size), OperandValue(m, srcMode, srcReg, size), size, mode, reg,
                    srcMode <= 1, m')
  }

  /** What the source half of a move leaves. */
  lemma SourceShown(m: Machine, size: Size, mode: int, reg: int)
    requires 0 <= reg < 8
    ensures var s := AfterOperand(m, mode, reg, size);
            s.sr == m.sr && PointerMoved(m.a, mode, reg, size, s.a) && (m.a[7] % 2 == 0 ==> s.a[7] % 2 == 0)
  {
    AfterPointer(m, mode, reg, size, true);
    hide EaRegisters, EaFault, PointerMoved;
  }

  /** A move keeps an even stack pointer even, unless the stack pointer is what it writes. */
  lemma StackShown(s: Machine, value: Long, size: Size, mode: int, reg: int, m': Machine)
    requires 0 <= mode < 8 && 0 <= reg < 8
    ensures MoveShown(s, value, size, mode, reg, m') ==>
      && (if mode == 1 then m'.sr == s.sr
          else var n := size.Modulus();
               FlagsAre(m'.sr, s.sr, FlagX(s.sr), value % n >= n / 2, value % n == 0, false, false))
      && (s.a[7] % 2 == 0 && !(mode == 1 && reg == 7) ==> m'.a[7] % 2 == 0)
  {
    hide PointerMoved, FlagsAre, FlagX, Number, EaAddress;
    EvenStack(s.a, mode, reg, size, m'.a);
  }

  /**
   The whole of a completed move in numbers: both pointers, the value in its place, N and Z
   of the value for every destination but An, and an even stack pointer kept even.
   */
  predicate WholeMoveShown(m: Machine, size: Size, srcMode: int, srcReg: int, mode: int, reg: int, m': Machine)
    requires 0 <= srcReg < 8 && 0 <= reg < 8
  {
    var n, s, value := size.Modulus(), AfterOperand(m, srcMode, srcReg, size), OperandValue(m, srcMode, srcReg, size);
    && PointerMoved(m.a, srcMode, srcReg, size, s.a) && MoveShown(s, value, size, mode, reg, m')
    && (if mode == 1 then m'.sr == m.sr
        else FlagsAre(m'.sr, m.sr, FlagX(m.sr), value % n >= n / 2, value % n == 0, false, false))
    && (m.a[7] % 2 == 0 && !(mode == 1 && reg == 7) ==> m'.a[7] % 2 == 0)
  }

  lemma MoveIsShown(m: Machine, size: Size, srcMode: int, srcReg: int, mode: int, reg: int, m': Machine)
    requires 0 <= mode < 8 && 0 <= srcReg < 8 && 0 <= reg < 8
    ensures MoveDone(m, size, srcMode, srcReg, mode, reg, m') && ValidDestination(mode, reg, size) ==>
      WholeMoveShown(m, size, srcMode, srcReg, mode, reg, m')
  {
    hide OperandValue, AfterOperand, ValueMoved, Raised, MoveShown, PointerMoved, FlagsAre, FlagX;
    var s, value := AfterOperand(m, srcMode, srcReg, size), OperandValue(m, srcMode, srcReg, size);
    SourceShown(m, size, srcMode, srcReg);
    ValueIsShown(s, value, size, mode, reg, srcMode <= 1, m');
    StackShown(s, value, size, mode, reg, m');
  }

  /** MOVE and MOVEA. */
  method ExecMove(cpu: Cpu, size: Size, srcMode: int, srcReg: int, mode: int, reg: int) returns (r: Outcome<()>)
    requires Executing(cpu.Abs()) && 0 <= srcMode < 8 && 0 <= srcReg < 8 && 0 <= mode < 8 && 0 <= reg < 8
    requires cpu.nesting.thrown == 0
    modifies cpu, cpu.memory
    ensures Executing(cpu.Abs())
    ensures StepKeeps(old(cpu.Abs()), cpu.Abs(), if r.Ok? && mode == 4 then 4 else 0)
    ensures r.Ok? ==> cpu.nesting.thrown == if ValidDestination(mode, reg, size) then 0 else 4
    ensures Ends(MoveStop(old(cpu.Abs()), size, srcMode, srcReg, mode, reg), r.Ok?, cpu.Abs())
    ensures r.Ok? ==> MoveDone(old(cpu.Abs()), size, srcMode, srcReg, mode, reg, cpu.Abs())
    ensures r.Ok? && ValidDestination(mode, reg, size) ==>
      WholeMoveShown(old(cpu.Abs()), size, srcMode, srcReg, mode, reg, cpu.Abs())
  {
    hide StepKeeps, StoppedAt, EaResolved, EaCycles, EaCompletes, OperandValue, OperandStop, AfterOperand, ValueStop,
         ValueMoved, Raised, WholeMoveShown;
    ghost var m := cpu.Abs();
    if (mode == 7 && reg > 1) || (mode == 1 && size == ByteSize) {
      Trap(cpu, 4);
      return Ok(());
    }
    var src := cpu.CalcEa(srcMode, srcReg, size);
    ghost var m1 := cpu.Abs();
    StepKeepsLess(m, m1, EaCycles(srcMode, srcReg, size), 0);
    if src.Abort? {
      return Abort;
    }
    ResolvedRest(m, srcMode, srcReg, size, true, src.value, m1);
    r := MoveValue(cpu, src.value.value, size, mode, reg, DirectSource(srcMode, srcReg), srcMode <= 1);
    StepKeepsTransitive(m, m1, cpu.Abs(), 0, if r.Ok? && mode == 4 then 4 else 0);
    MoveIsShown(m, size, srcMode, srcReg, mode, reg, cpu.Abs());
  }
}
