/**
 Shift and rotate instructions, and the immediate forms that write CCR or SR.
 */
module OpsLogic {
  import opened Words
  import opened StatusRegister
  import opened MachineState
  import opened Core
  import opened Shifts
  import opened OpsControl

  /** The count operand: an immediate of 1 to 8, or a register modulo 64. */
  function ShiftCount(m: Machine, byRegister: bool, field: int): (count: nat)
    requires 0 <= field < 8
    ensures byRegister ==> count < 64 && exists k: nat :: m.d[field] == 64 * k + count
    ensures !byRegister ==> 1 <= count <= 8 && (count == field || (count == 8 && field == 0))
  {
    assert m.d[field] == 64 * (m.d[field] / 64) + m.d[field] % 64;
    if byRegister then m.d[field] % 64 else if field == 0 then 8 else field
  }

  /** The flags and the result of a shift, read back from the state it left. */
  ghost predicate ShiftDone(kind: ShiftKind, count: nat, size: Size, value: Long, sr: bv16, result: Long, sr': bv16) {
    && Shifted(kind, count, size, value, FlagX(sr), result, FlagC(sr'), FlagV(sr'), FlagX(sr'))
    && FlagN(sr') == Negative(result, size) && FlagZ(sr') == (result == 0)
    && sr' & 0xFFE0 == sr & 0xFFE0
  }

  lemma ShiftedRest(kind: ShiftKind, count: nat, size: Size, value: Long, x: bool,
                    result: Long, carry: bool, overflow: bool, extend: bool)
    ensures Shifted(kind, count, size, value, x, result, carry, overflow, extend) ==>
      && result < size.Modulus()
      && (IsRotate(kind) ==> extend == x && !overflow)
  {
  }

  lemma MergeLow(register: Long, x: Long, size: Size)
    ensures Low(Merge(register, x, size), size) == Low(x, size)
    ensures Merge(register, Low(register, size), size) == register
  {
    MergeParts(register, x, size);
    MergeParts(register, Low(register, size), size);
  }

  lemma ZeroCount(kind: ShiftKind, size: Size, value: Long, x: bool)
    requires value < size.Modulus()
    ensures Shifted(kind, 0, size, value, x, value, IsRox(kind) && x, false, x)
  {
    hide RotateLeft, Extended, InSignedRange, TwosComplement, Turn, Pow2;
    ZeroPower(value, size);
    ZeroRotation(kind, value, size.Bits(), x, size);
  }

  lemma ZeroPower(value: Long, size: Size)
    requires value < size.Modulus()
    ensures value / Pow2(0) == value && (value * Pow2(0)) % size.Modulus() == value
    ensures var s := TwosComplement(value, size);
            s / Pow2(0) == s && s * Pow2(0) == s && InSignedRange(s, size)
  {
  }

  lemma ZeroRotation(kind: ShiftKind, value: Long, n: nat, x: bool, size: Size)
    requires value < size.Modulus() && n == size.Bits()
    ensures RotateLeft(value, n, Turn(kind, 0, n)) == value
    ensures var w := Extended(x, value, size); RotateLeft(w, n + 1, Turn(kind, 0, n + 1)) == w
  {
    ModulusIsPow2(size);
    RotateNone(value, n);
    ExtendedBound(x, value, size);
    RotateNone(Extended(x, value, size), n + 1);
    NoTurn(kind, n);
    NoTurn(kind, n + 1);
    hide RotateLeft, Extended, Turn, Pow2;
  }

  lemma NoTurn(kind: ShiftKind, n: nat)
    requires n > 0
    ensures Turn(kind, 0, n) == 0 || Turn(kind, 0, n) == n
  {
  }

  /** The computation; a zero count of the register form only tests the operand. */
  method ComputeShift(kind: ShiftKind, count: nat, size: Size, value: Long, x: bool)
    returns (result: Long, carry: bool, overflow: bool, extend: bool)
    requires value < size.Modulus()
    ensures Shifted(kind, count, size, value, x, result, carry, overflow, extend) && result < size.Modulus()
    ensures count == 0 || IsRotate(kind) ==> extend == x
    ensures count == 0 ==> !overflow
  {
    hide Shifted;
    carry, overflow, extend, result := IsRox(kind) && x, false, x, value;
    if count == 0 {
      ZeroCount(kind, size, value, x);
    } else {
      result, carry, overflow, extend := Shift(kind, count, size, value, x);
      ShiftedRest(kind, count, size, value, x, result, carry, overflow, extend);
    }
  }

  /** The computation and its flags: X moves only with a nonzero count of a shift proper. */
  method ShiftOperand(cpu: Cpu, kind: ShiftKind, count: nat, size: Size, value: Long) returns (result: Long)
    requires value < size.Modulus()
    modifies cpu`sr
    ensures result < size.Modulus() && ShiftDone(kind, count, size, value, old(cpu.sr), result, cpu.sr)
    ensures cpu.Abs() == old(cpu.Abs()).(sr := cpu.sr) && StepKeeps(old(cpu.Abs()), cpu.Abs(), 0)
  {
    hide StepKeeps, Shifted, ShiftDone, FlagX, WithNZVC, WithXNZVC;
    ghost var m := cpu.Abs();
    var keepsX := count == 0 || IsRotate(kind);
    var carry, overflow, extend;
    result, carry, overflow, extend := ComputeShift(kind, count, size, value, FlagX(cpu.sr));
    var negative, zero := result >= size.Msb(), result == 0;
    cpu.SetCcr(if keepsX then WithNZVC(cpu.sr, negative, zero, overflow, carry)
               else WithXNZVC(cpu.sr, extend, negative, zero, overflow, carry));
    ShiftKeeps(m, kind, count, size, value, result, carry, overflow, extend, keepsX, cpu.sr);
  }

  lemma ShiftKeeps(m: Machine, kind: ShiftKind, count: nat, size: Size, value: Long, result: Long,
                   carry: bool, overflow: bool, extend: bool, keepsX: bool, sr': bv16)
    requires keepsX == (count == 0 || IsRotate(kind)) && (count == 0 ==> extend == FlagX(m.sr) && !overflow)
    requires sr' == if keepsX then WithNZVC(m.sr, result >= size.Msb(), result == 0, overflow, carry)
                    else WithXNZVC(m.sr, extend, result >= size.Msb(), result == 0, overflow, carry)
    ensures Shifted(kind, count, size, value, FlagX(m.sr), result, carry, overflow, extend) ==>
      ShiftDone(kind, count, size, value, m.sr, result, sr') && StepKeeps(m, m.(sr := sr'), 0)
  {
    hide StepKeeps, Shifted, ShiftDone, FlagX, WithNZVC, WithXNZVC;
    ShiftWritten(kind, count, size, value, m.sr, result, carry, overflow, extend, keepsX, sr');
    CcrKeeps(m, sr');
  }

  lemma FlagsMatch(sr: bv16, sr': bv16, keepsX: bool, x: bool, n: bool, z: bool, v: bool, c: bool)
    requires sr' == if keepsX then WithNZVC(sr, n, z, v, c) else WithXNZVC(sr, x, n, z, v, c)
    ensures (keepsX ==> x == FlagX(sr)) ==> FlagsAre(sr', sr, x, n, z, v, c)
  {
    WithXNZVCFlags(sr, x, n, z, v, c);
    WithNZVCFlags(sr, n, z, v, c);
    hide WithXNZVC, WithNZVC, FlagX, FlagsAre;
  }

  lemma FlagsReadBack(kind: ShiftKind, count: nat, size: Size, value: Long, sr: bv16,
                      result: Long, carry: bool, overflow: bool, extend: bool, sr': bv16)
    ensures FlagsAre(sr', sr, extend, result >= size.Msb(), result == 0, overflow, carry) && result < size.Modulus()
            && Shifted(kind, count, size, value, FlagX(sr), result, carry, overflow, extend) ==>
      ShiftDone(kind, count, size, value, sr, result, sr')
  {
    hide FlagX, FlagN, FlagZ, FlagV, FlagC, Shifted;
  }

  lemma ShiftWritten(kind: ShiftKind, count: nat, size: Size, value: Long, sr: bv16, result: Long,
                     carry: bool, overflow: bool, extend: bool, keepsX: bool, sr': bv16)
    requires keepsX == (count == 0 || IsRotate(kind)) && (count == 0 ==> extend == FlagX(sr) && !overflow)
    requires sr' == if keepsX then WithNZVC(sr, result >= size.Msb(), result == 0, overflow, carry)
                    else WithXNZVC(sr, extend, result >= size.Msb(), result == 0, overflow, carry)
    ensures Shifted(kind, count, size, value, FlagX(sr), result, carry, overflow, extend) ==>
      && ShiftDone(kind, count, size, value, sr, result, sr') && sr' & 0xFFE0 == sr & 0xFFE0
      && result < size.Modulus()
  {
    hide Shifted, FlagX, WithNZVC, WithXNZVC;
    ShiftedRest(kind, count, size, value, FlagX(sr), result, carry, overflow, extend);
    FlagsMatch(sr, sr', keepsX, extend, result >= size.Msb(), result == 0, overflow, carry);
    FlagsReadBack(kind, count, size, value, sr, result, carry, overflow, extend, sr');
  }

  /** A register shift works on the low part of Dn and leaves the rest of it alone. */
  ghost predicate RegisterShifted(m: Machine, kind: ShiftKind, size: Size, byRegister: bool, field: int, reg: int,
                                  m': Machine)
    requires 0 <= field < 8 && 0 <= reg < 8
  {
    && ShiftDone(kind, ShiftCount(m, byRegister, field), size, Low(m.d[reg], size), m.sr, Low(m'.d[reg], size), m'.sr)
    && m' == m.(sr := m'.sr, d := SetRegister(m.d, reg, Merge(m.d[reg], m'.d[reg], size)))
  }

  method ExecShiftRegister(cpu: Cpu, kind: ShiftKind, size: Size, byRegister: bool, field: int, reg: int)
    requires Executing(cpu.Abs()) && 0 <= field < 8 && 0 <= reg < 8
    modifies cpu
    ensures Executing(cpu.Abs()) && StepKeeps(old(cpu.Abs()), cpu.Abs(), 0) && cpu.nesting == old(cpu.nesting)
    ensures RegisterShifted(old(cpu.Abs()), kind, size, byRegister, field, reg, cpu.Abs())
  {
    hide StepKeeps, ShiftDone, Merge, Low, RegisterShifted;
    ghost var m := cpu.Abs();
    var count := if byRegister then cpu.d[field] % 64 else if field == 0 then 8 else field;
    var value := Low(cpu.d[reg], size);
    LowBound(cpu.d[reg], size);
    var result := ShiftOperand(cpu, kind, count, size, value);
    ghost var m1 := cpu.Abs();
    RegisterKeeps(m1, reg, Merge(cpu.d[reg], result, size));
    cpu.SetD(reg, Merge(cpu.d[reg], result, size));
    StepKeepsTransitive(m, m1, cpu.Abs(), 0, 0);
    ShiftedRegister(m, kind, size, byRegister, field, reg, result, m1.sr);
  }

  lemma ShiftedRegister(m: Machine, kind: ShiftKind, size: Size, byRegister: bool, field: int, reg: int, result: Long,
                        sr: bv16)
    requires 0 <= field < 8 && 0 <= reg < 8 && result < size.Modulus()
    ensures ShiftDone(kind, ShiftCount(m, byRegister, field), size, Low(m.d[reg], size), m.sr, result, sr) ==>
      RegisterShifted(m, kind, size, byRegister, field, reg,
                      m.(sr := sr, d := SetRegister(m.d, reg, Merge(m.d[reg], result, size))))
  {
    hide ShiftDone, Merge, Low;
    MergeLow(m.d[reg], result, size);
    MergeSame(m.d[reg], result, size);
  }

  lemma LowBound(x: Long, size: Size)
    ensures Low(x, size) < size.Modulus()
  {
  }

  lemma MergeSame(register: Long, x: Long, size: Size)
    ensures Merge(register, Merge(register, x, size), size) == Merge(register, x, size)
    ensures x < size.Modulus() ==> Low(x, size) == x
  {
    MergeParts(register, x, size);
  }

  /** Memory shifts take the modes of alterable memory. */
  predicate AlterableMemory(mode: int, reg: int) {
    mode >= 2 && !(mode == 7 && reg > 1)
  }

  /** What stops a memory shift: its read, never its write, which goes to the same place. */
  function MemoryStop(m: Machine, mode: int, reg: int): Option<Stop>
    requires 0 <= reg < 8
  {
    if AlterableMemory(mode, reg) then OperandStop(m, mode, reg, WordSize) else None
  }

  /** A memory shift turns one word in place by one; other modes are illegal. */
  ghost predicate MemoryShifted(m: Machine, kind: ShiftKind, mode: int, reg: int, m': Machine)
    requires 0 <= reg < 8
  {
    if !AlterableMemory(mode, reg) then Raised(m, 4, m')
    else
      var address := EaAddress(m, mode, reg, WordSize);
      && Mapped(m, address, WordSize)
      && ShiftDone(kind, 1, WordSize, OperandValue(m, mode, reg, WordSize), m.sr, BusValue(m', address, WordSize),
                   m'.sr)
      && m' == AfterOperand(m, mode, reg, WordSize).(
           sr := m'.sr, mem := Splice(m.mem, Mask24(address), OperandBytes(BusValue(m', address, WordSize), WordSize)))
  }

  method ExecShiftMemory(cpu: Cpu, kind: ShiftKind, mode: int, reg: int) returns (r: Outcome<()>)
    requires Executing(cpu.Abs()) && 0 <= mode < 8 && 0 <= reg < 8
    modifies cpu, cpu.memory
    ensures Executing(cpu.Abs()) && StepKeeps(old(cpu.Abs()), cpu.Abs(), 0)
    ensures r.Ok? && old(cpu.nesting.thrown) == 0 ==> cpu.nesting.thrown == 0 || cpu.nesting.thrown == 4
    ensures Ends(MemoryStop(old(cpu.Abs()), mode, reg), r.Ok?, cpu.Abs())
    ensures r.Ok? ==> MemoryShifted(old(cpu.Abs()), kind, mode, reg, cpu.Abs())
  {
    hide StepKeeps, StoppedAt, OperandStop, AfterOperand, ShiftDone, EaResolved, EaAddress, OperandValue, EaCycles,
         EaCompletes, Mask24, Splice, Raised, FaultVector, WriteStop;
    ghost var m := cpu.Abs();
    if mode < 2 || (mode == 7 && reg > 1) {
      Trap(cpu, 4);
      return Ok(());
    }
    var ea := cpu.CalcEa(mode, reg, WordSize);
    ghost var m1 := cpu.Abs();
    StepKeepsLess(m, m1, EaCycles(mode, reg, WordSize), 0);
    if ea.Abort? {
      return Abort;
    }
    ResolvedRest(m, mode, reg, WordSize, true, ea.value, m1);
    OperandIsWord(m, mode, reg);
    var result := ShiftOperand(cpu, kind, 1, WordSize, ea.value.value);
    ghost var m2 := cpu.Abs();
    StepKeepsTransitive(m, m1, m2, 0, 0);
    Rewritable(m, mode, reg, m2);
    r := WriteTo(cpu, ea.value.address, result, WordSize);
    StepKeepsTransitive(m, m2, cpu.Abs(), 0, 0);
    StoredWord(m2, ea.value.address, result);
  }

  /** Where an operand could be read it can be written. */
  lemma Rewritable(m: Machine, mode: int, reg: int, m2: Machine)
    requires mode < 8 && 0 <= reg < 8 && AlterableMemory(mode, reg)
    requires Executing(m) && m2.mem == m.mem && m2.nesting == m.nesting
    ensures EaCompletes(m, mode, reg, WordSize, true) ==>
      var address := EaAddress(m, mode, reg, WordSize);
      WriteStop(m2, address, WordSize).None? && Mapped(m2, address, WordSize)
  {
    hide EaAddress, Mask24;
  }

  lemma OperandIsWord(m: Machine, mode: int, reg: int)
    requires 2 <= mode < 8 && 0 <= reg < 8 && (mode != 7 || reg <= 1)
    ensures OperandValue(m, mode, reg, WordSize) < 0x1_0000
  {
    hide EaAddress, Mask24;
  }

  /** A word written to memory reads back. */
  lemma StoredWord(m: Machine, address: Long, value: Long)
    requires value < 0x1_0000 && Mapped(m, address, WordSize)
    ensures BusValue(Stored(m, address, value, WordSize), address, WordSize) == value
    ensures Stored(m, address, value, WordSize).mem == Splice(m.mem, Mask24(address), OperandBytes(value, WordSize))
  {
    hide Mask24;
  }

  method WriteTo(cpu: Cpu, address: Long, value: Long, size: Size) returns (r: Outcome<()>)
    requires Executing(cpu.Abs())
    modifies cpu, cpu.memory
    ensures Executing(cpu.Abs()) && StepKeeps(old(cpu.Abs()), cpu.Abs(), 0)
    ensures Ends(WriteStop(old(cpu.Abs()), address, size), r.Ok?, cpu.Abs())
    ensures r.Ok? ==> cpu.Abs() == Stored(old(cpu.Abs()), address, value, size)
  {
    hide BusKeeps, StepKeeps, AfterFault, Stored, Mask24;
    ghost var m := cpu.Abs();
    r := cpu.Write(address, value, size);
    BusIsStep(m, cpu.Abs(), 0);
    ExecutingKept(m, cpu.Abs(), 0);
    hide FaultVector;
  }

  // ------------------------------------------- immediates to CCR and to SR

  datatype LogicOp = AndImmediate | OrImmediate | EorImmediate

  function Combine(op: LogicOp, x: bv16, y: bv16): bv16 {
    match op case AndImmediate => x & y case OrImmediate => x | y case EorImmediate => x ^ y
  }

  /** The operation on one bit. */
  predicate Joined(op: LogicOp, p: bool, q: bool) {
    match op case AndImmediate => p && q case OrImmediate => p || q case EorImmediate => p != q
  }

  lemma AndUpper(x: bv16, y: bv16)
    ensures Upper(x & y) == Upper(x) & Upper(y) && FlagC(x & y) == (FlagC(x) && FlagC(y))
  {
  }

  lemma OrUpper(x: bv16, y: bv16)
    ensures Upper(x | y) == Upper(x) | Upper(y) && FlagC(x | y) == (FlagC(x) || FlagC(y))
  {
  }

  lemma EorUpper(x: bv16, y: bv16)
    ensures Upper(x ^ y) == Upper(x) ^ Upper(y) && FlagC(x ^ y) == (FlagC(x) != FlagC(y))
  {
  }

  lemma CombinedUpper(op: LogicOp, x: bv16, y: bv16)
    ensures Upper(Combine(op, x, y)) == Combine(op, Upper(x), Upper(y))
    ensures FlagC(Combine(op, x, y)) == Joined(op, FlagC(x), FlagC(y))
  {
    hide Upper, FlagC;
    AndUpper(x, y);
    OrUpper(x, y);
    EorUpper(x, y);
  }

  lemma {:induction false} DroppedCombine(op: LogicOp, x: bv16, y: bv16, i: nat)
    ensures Dropped(Combine(op, x, y), i) == Combine(op, Dropped(x, i), Dropped(y, i))
    ensures FlagC(Dropped(Combine(op, x, y), i)) == Joined(op, FlagC(Dropped(x, i)), FlagC(Dropped(y, i)))
    decreases i
  {
    hide Combine, Upper, FlagC, Joined;
    CombinedUpper(op, x, y);
    if i > 0 {
      DroppedCombine(op, Upper(x), Upper(y), i - 1);
    }
  }

  /** Every bit of the result is the operation on the two bits in its place. */
  lemma CombinedBits(op: LogicOp, x: bv16, y: bv16, i: nat)
    ensures Bit(SrWord(Combine(op, x, y)), i) == Joined(op, Bit(SrWord(x), i), Bit(SrWord(y), i))
  {
    hide Combine, FlagC, Joined, Dropped, SrWord, Bit;
    DroppedCombine(op, x, y, i);
    BitDropped(x, i);
    BitDropped(y, i);
    BitDropped(Combine(op, x, y), i);
  }

  predicate CcrDone(m: Machine, op: LogicOp, m': Machine) {
    m' == m.(sr := CcrAfter(op, m.sr, WordSr(WordAt(m, m.pc))), pc := Plus(m.pc, 2))
  }

  /** ANDI, ORI and EORI to CCR: the system byte is out of their reach. */
  method ExecLogicCcr(cpu: Cpu, op: LogicOp) returns (r: Outcome<()>)
    requires Executing(cpu.Abs())
    modifies cpu, cpu.memory
    ensures Executing(cpu.Abs()) && StepKeeps(old(cpu.Abs()), cpu.Abs(), 0)
    ensures r.Ok? ==> cpu.nesting == old(cpu.nesting)
    ensures Ends(FetchStop(old(cpu.Abs()), 1), r.Ok?, cpu.Abs())
    ensures r.Ok? ==> CcrDone(old(cpu.Abs()), op, cpu.Abs())
  {
    hide StepKeeps, StoppedAt, FetchStop, WordSr, Plus, FaultVector, WordAt, CcrAfter;
    ghost var m := cpu.Abs();
    var word :- cpu.Fetch();
    ghost var m1 := cpu.Abs();
    CcrAfterFlags(op, cpu.sr, WordSr(word));
    CcrKeeps(m1, CcrAfter(op, cpu.sr, WordSr(word)));
    cpu.SetCcr(CcrAfter(op, cpu.sr, WordSr(word)));
    StepKeepsTransitive(m, m1, cpu.Abs(), 0, 0);
    return Ok(());
  }

  /** The five condition codes of a status word, and the rest of it. */
  function Codes(sr: bv16): bv16 {
    sr & 0x1F
  }

  function Rest(sr: bv16): bv16 {
    sr & 0xFFE0
  }

  function CcrAfter(op: LogicOp, sr: bv16, imm: bv16): bv16 {
    WithCodes(sr, Combine(op, Codes(sr), Codes(imm)))
  }

  lemma CodesWritten(sr: bv16, codes: bv16)
    ensures Rest(codes) == 0 ==> Rest(WithCodes(sr, codes)) == Rest(sr) && Codes(WithCodes(sr, codes)) == codes
  {
  }

  lemma CombinedLow(op: LogicOp, x: bv16, y: bv16)
    ensures Combine(op, x & 0x1F, y & 0x1F) == Combine(op, x, y) & 0x1F
    ensures Combine(op, x & 0x1F, y & 0x1F) & 0xFFE0 == 0
  {
  }

  lemma CombinedCodes(op: LogicOp, x: bv16, y: bv16)
    ensures Combine(op, Codes(x), Codes(y)) == Codes(Combine(op, x, y)) && Rest(Combine(op, Codes(x), Codes(y))) == 0
  {
    hide Combine;
    CombinedLow(op, x, y);
  }

  /** Only the five condition codes take part, and the immediate's other bits do not matter. */
  lemma CcrAfterFlags(op: LogicOp, sr: bv16, imm: bv16)
    ensures Rest(CcrAfter(op, sr, imm)) == Rest(sr)
    ensures Codes(CcrAfter(op, sr, imm)) == Codes(Combine(op, sr, imm))
  {
    hide Combine, WithCodes, Codes, Rest;
    CombinedCodes(op, sr, imm);
    CodesWritten(sr, Combine(op, Codes(sr), Codes(imm)));
  }

  lemma CodesBits(x: bv16, y: bv16, i: nat)
    requires i < 5 && Codes(x) == Codes(y)
    ensures Bit(SrWord(x), i) == Bit(SrWord(y), i)
  {
    hide SrWord, Codes, FlagC, FlagV, FlagZ, FlagN, FlagX, FlagS, FlagT, MaskLevel;
    CodesDecide(x, y);
    StatusBits(x);
    StatusBits(y);
    assert Pow2(0) == 1 && Pow2(1) == 2 && Pow2(2) == 4 && Pow2(3) == 8 && Pow2(4) == 2 * Pow2(3);
  }

  lemma CodesDecide(x: bv16, y: bv16)
    requires Codes(x) == Codes(y)
    ensures FlagC(x) == FlagC(y) && FlagV(x) == FlagV(y) && FlagZ(x) == FlagZ(y) && FlagN(x) == FlagN(y)
            && FlagX(x) == FlagX(y)
  {
    assert x & 0x1F == y & 0x1F;
  }

  lemma RestDecides(x: bv16, y: bv16)
    requires Rest(x) == Rest(y)
    ensures Upper4(Upper(x)) == Upper4(Upper(y))
  {
  }

  lemma RestBits(x: bv16, y: bv16, i: nat)
    requires i >= 5 && Rest(x) == Rest(y)
    ensures Bit(SrWord(x), i) == Bit(SrWord(y), i)
  {
    hide SrWord, FlagC, Upper, Bit, Rest;
    RestDecides(x, y);
    FiveDropped(x, i);
    FiveDropped(y, i);
    BitDropped(x, i);
    BitDropped(y, i);
  }

  lemma FiveDropped(x: bv16, i: nat)
    requires i >= 5
    ensures Dropped(x, i) == Dropped(Upper4(Upper(x)), i - 5)
  {
    hide Upper;
    assert Dropped(x, i) == Dropped(Upper(Upper(x)), i - 2);
    assert Dropped(Upper(Upper(x)), i - 2) == Dropped(Upper(Upper(Upper(Upper(x)))), i - 4);
  }

  /** ANDI, ORI and EORI to CCR bit by bit: the low five joined with those of the immediate, the others kept. */
  lemma CcrIsShown(m: Machine, op: LogicOp, m': Machine, i: nat)
    ensures CcrDone(m, op, m') ==>
      && Bit(SrWord(m'.sr), i) == (if i < 5 then Joined(op, Bit(SrWord(m.sr), i), Bit(WordAt(m, m.pc), i))
                                   else Bit(SrWord(m.sr), i))
      && m' == m.(sr := m'.sr, pc := Plus(m.pc, 2))
  {
    hide Combine, CcrAfter, Codes, Rest, WordAt, SrWord, WordSr, Joined, Bit;
    var word := WordSr(WordAt(m, m.pc));
    var sr := CcrAfter(op, m.sr, word);
    CcrAfterFlags(op, m.sr, word);
    CombinedBits(op, m.sr, word, i);
    WordRoundTrip(WordAt(m, m.pc));
    if i < 5 {
      CodesBits(sr, Combine(op, m.sr, word), i);
    } else {
      RestBits(sr, m.sr, i);
    }
  }

  predicate SrDone(m: Machine, op: LogicOp, m': Machine) {
    if !FlagS(m.sr) then Raised(OnInstruction(m), 8, m')
    else m' == SetSr(m.(pc := Plus(m.pc, 2)), Combine(op, m.sr, WordSr(WordAt(m, m.pc))))
  }

  lemma ImplementedMask(x: bv16)
    ensures x & 0xA71F == Combine(AndImmediate, x, 0xA71F) && SrWord(0xA71F) == 0xA71F
  {
  }

  /** The forms that write SR bit by bit: the implemented ones joined with those of the immediate, the others clear. */
  lemma SrIsShown(m: Machine, op: LogicOp, m': Machine, i: nat)
    requires FlagS(m.sr)
    ensures SrDone(m, op, m') ==>
      && Bit(SrWord(m'.sr), i) == (Bit(0xA71F, i) && Joined(op, Bit(SrWord(m.sr), i), Bit(WordAt(m, m.pc), i)))
      && UserSp(m') == UserSp(m) && SupervisorSp(m') == SupervisorSp(m) && m'.pc == Plus(m.pc, 2)
  {
    hide Combine, WordAt, SrWord, WordSr, FlagS, Clean, Joined, Bit, SetSr, Plus;
    var word := WordSr(WordAt(m, m.pc));
    var value, next := Combine(op, m.sr, word), m.(pc := Plus(m.pc, 2));
    WordRoundTrip(WordAt(m, m.pc));
    CombinedBits(op, m.sr, word, i);
    ImplementedMask(value);
    CombinedBits(AndImmediate, value, 0xA71F, i);
    JoinedAnd(Bit(SrWord(value), i), Bit(SrWord(0xA71F), i));
    SetSrConserves(next, value);
    SetSrClean(next, value);
    SetSrPc(m, value, Plus(m.pc, 2));
  }

  lemma JoinedAnd(p: bool, q: bool)
    ensures Joined(AndImmediate, p, q) == (p && q)
  {
  }

  /** ANDI, ORI and EORI to SR are privileged and swap stack pointers like any write of S. */
  method ExecLogicSr(cpu: Cpu, op: LogicOp) returns (r: Outcome<()>)
    requires Executing(cpu.Abs())
    modifies cpu, cpu.memory
    ensures Executing(cpu.Abs()) && StepKeeps(old(cpu.Abs()), cpu.Abs(), 0)
    ensures r.Ok? && old(cpu.nesting.thrown) == 0 ==> cpu.nesting.thrown == 0 || cpu.nesting.thrown == 8
    ensures Ends(PrivilegedStop(old(cpu.Abs())), r.Ok?, cpu.Abs())
    ensures r.Ok? ==> SrDone(old(cpu.Abs()), op, cpu.Abs())
  {
    hide StepKeeps, StoppedAt, FetchStop, FlagS, SetSr, WordAt, FaultVector, Plus, Combine, Raised;
    ghost var m := cpu.Abs();
    if !FlagS(cpu.sr) {
      PrivilegeViolation(cpu);
      return Ok(());
    }
    var word :- cpu.Fetch();
    ghost var m1 := cpu.Abs();
    var value := Combine(op, cpu.sr, WordSr(word));
    SetSrKeeps(m1, value);
    SetSrPc(m1, value, m1.pc);
    cpu.SetStatus(value);
    StepKeepsTransitive(m, m1, cpu.Abs(), 0, 0);
    return Ok(());
  }
}
