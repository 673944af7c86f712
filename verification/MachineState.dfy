/**
 The processor state as a value, and the closed forms of exception entry,
 exception return and bus faults that the step-by-step code is proved against.
 */
module MachineState {
  import opened Words
  import opened StatusRegister

  type Registers = r: seq<Long> | |r| == 8 witness [0, 0, 0, 0, 0, 0, 0, 0]

  datatype Model = M68000 | M68010

  /** What a group-0 fault records for the frame it stacks. */
  datatype FaultLatch = FaultLatch(
    address: Long, pc: Long, ir: Word, ssw: Word, programAccess: bool, valid: bool, pcValid: bool,
    busWord: Word, busWordValid: bool, programSpace: bool)

  /**
   The re-entry guards of the two group-0 faults, the depth of exception processing,
   the first vector of the step, and whether a group-0 fault may unwind the instruction.
   */
  datatype Nesting = Nesting(
    addressError: bool, busError: bool, depth: nat, thrown: int, group0: bool, trap: bool)

  /** The interrupt level, the latched level-7 edge, and the STOP and trace latches. */
  datatype Lines = Lines(level: int, nmi: bool, stopped: bool, trace: bool)

  datatype Control = Control(model: Model, vbr: Long, sfc: Long, dfc: Long)

  datatype Slice = Slice(target: int, remaining: int)

  /** History, with no counterpart in the original: vectors raised so far, deepest nesting. */
  datatype History = History(raised: seq<int>, peak: nat)

  datatype Machine = Machine(
    d: Registers, a: Registers, pc: Long, ppc: Long, sr: bv16, ir: Word, usp: Long, ssp: Long,
    mem: seq<Byte>, fault: FaultLatch, nesting: Nesting, lines: Lines, control: Control,
    slice: Slice, history: History)

  function SetRegister(r: Registers, i: int, x: Long): Registers
    requires 0 <= i < 8
  {
    r[i := x]
  }

  // ------------------------------------------------------------ stack pointers

  /** The user stack pointer the programmer sees. */
  function UserSp(m: Machine): Long {
    if FlagS(m.sr) then m.usp else m.a[7]
  }

  /** The supervisor stack pointer the programmer sees. */
  function SupervisorSp(m: Machine): Long {
    if FlagS(m.sr) then m.a[7] else m.ssp
  }

  /** Writes the status register, swapping stack pointers when the S bit changes. */
  function SetSr(m: Machine, newSr: bv16): Machine {
    var sr := newSr & 0xA71F;
    var enters := FlagS(sr) && !FlagS(m.sr);
    var leaves := FlagS(m.sr) && !FlagS(sr);
    m.(sr := sr,
       usp := if enters then m.a[7] else m.usp,
       ssp := if leaves then m.a[7] else m.ssp,
       a := if enters then SetRegister(m.a, 7, m.ssp) else if leaves then SetRegister(m.a, 7, m.usp) else m.a)
  }

  // ----------------------------------------------------------------- the bus

  predicate Mapped(m: Machine, address: Long, size: Size) {
    Mask24(address) + size.Bytes() <= |m.mem|
  }

  predicate Odd(address: Long) {
    address % 2 == 1
  }

  /** The group-0 vector an access raises: 3 for a misaligned one, 2 for an unmapped one. */
  function FaultVector(m: Machine, address: Long, size: Size): Option<int> {
    if size != ByteSize && Odd(address) && !m.nesting.addressError then Some(3)
    else if !Mapped(m, address, size) && !m.nesting.busError then Some(2)
    else None
  }

  function Operand(bytes: seq<Byte>, at: nat, size: Size): Long
    requires at + size.Bytes() <= |bytes|
  {
    match size
    case ByteSize => bytes[at]
    case WordSize => Get16(bytes, at)
    case LongSize => Get32(bytes, at)
  }

  /** What a read that does not fault delivers. */
  function BusValue(m: Machine, address: Long, size: Size): Long {
    if Mapped(m, address, size) then Operand(m.mem, Mask24(address), size) else 0
  }

  function OperandBytes(value: Long, size: Size): (r: seq<Byte>)
    ensures |r| == size.Bytes()
  {
    match size
    case ByteSize => [value % 0x100]
    case WordSize => Be16(value % 0x1_0000)
    case LongSize => Be32(value)
  }

  /** An operand in memory is the big-endian number of its bytes. */
  lemma OperandNumber(bytes: seq<Byte>, at: nat, size: Size)
    requires at + size.Bytes() <= |bytes|
    ensures Operand(bytes, at, size) == Number(bytes[at..at + size.Bytes()])
  {
    match size
    case ByteSize => NumberSnoc([], bytes[at]); assert bytes[at..at + 1] == [] + [bytes[at]];
    case WordSize => NumberOfTwo(bytes[at..at + 2]);
    case LongSize => NumberOfFour(bytes[at..at + 4]);
  }

  /** The bytes stored for a value are the big-endian number of its low part. */
  lemma StoredNumber(value: Long, size: Size)
    ensures Number(OperandBytes(value, size)) == value % size.Modulus()
  {
    BigEndianNumbers(value % 0x1_0000, value);
    NumberSnoc([], value % 0x100);
    assert [] + [value % 0x100] == [value % 0x100];
    hide Number, Be16, Be32;
  }

  /** The state after a write that does not fault. */
  function Stored(m: Machine, address: Long, value: Long, size: Size): Machine {
    m.(mem := if Mapped(m, address, size) then Splice(m.mem, Mask24(address), OperandBytes(value, size)) else m.mem)
  }

  /** A store as numbers: the operand's low part in its place, every other byte as before. */
  lemma StoredInPlace(m: Machine, address: Long, value: Long, size: Size)
    ensures var at, mem := address % 0x100_0000, Stored(m, address, value, size).mem;
            at + size.Bytes() <= |m.mem| ==>
              Number(mem[at..at + size.Bytes()]) == value % size.Modulus()
              && SameOutside(m.mem, mem, at, at + size.Bytes())
  {
    hide OperandBytes, Number;
    var at := address % 0x100_0000;
    if at + size.Bytes() <= |m.mem| {
      StoredNumber(value, size);
      assert Stored(m, address, value, size).mem[at..at + size.Bytes()] == OperandBytes(value, size);
    }
  }

  /** The function code of an access: user or supervisor, data or program space. */
  function AccessCode(isSupervisor: bool, isProgram: bool): (r: Word)
    ensures 1 <= r < 8
  {
    if isSupervisor then (if isProgram then 6 else 5) else (if isProgram then 2 else 1)
  }

  /** The special status word: the bus word's high bits, the read bit, the function code. */
  function StatusWord(ir: Word, isWrite: bool, code: Word): Word
    requires code < 8
  {
    ir - ir % 0x20 + (if isWrite then 0 else 0x10) + code
  }

  /**
   A special status word, part by part: the bus word above bit 5, the read bit, and the
   function code: 1 and 2 for user data and program space, 5 and 6 for supervisor ones.
   */
  predicate StatusShown(word: Word, ir: Word, isWrite: bool, isSupervisor: bool, isProgram: bool) {
    && word / 0x20 == ir / 0x20 && (word / 0x10 % 2 == 1 <==> !isWrite)
    && word % 0x10 == (if isSupervisor then 5 else 1) + (if isProgram then 1 else 0)
  }

  lemma StatusWordShown(ir: Word, isWrite: bool, isSupervisor: bool, isProgram: bool)
    ensures StatusShown(StatusWord(ir, isWrite, AccessCode(isSupervisor, isProgram)), ir, isWrite, isSupervisor,
                        isProgram)
  {
    var low := (if isWrite then 0 else 0x10) + AccessCode(isSupervisor, isProgram);
    DivUnique(0x20 * (ir / 0x20) + low, 0x20, ir / 0x20, low);
    DivUnique(0x20 * (ir / 0x20) + low, 0x10, 2 * (ir / 0x20) + low / 0x10, low % 0x10);
  }

  /** The word the frame of a fault shows as the instruction register. */
  function BusWord(m: Machine): Word {
    if m.fault.busWordValid then m.fault.busWord else m.ir
  }

  /** The fault latches as an access fault leaves them. */
  function Captured(m: Machine, address: Long, isWrite: bool, isProgram: bool): Machine {
    var code := AccessCode(FlagS(m.sr), isProgram || m.fault.programSpace);
    m.(fault := m.fault.(address := address, ir := BusWord(m), ssw := StatusWord(BusWord(m), isWrite, code),
                         programAccess := isProgram, valid := true),
       nesting := m.nesting.(group0 := true))
  }

  // ------------------------------------------------------------- exceptions

  predicate Group0(vector: int) {
    vector == 2 || vector == 3
  }

  /** The vectors that stack the address of the instruction itself. */
  predicate StacksPpc(vector: int) {
    vector == 4 || vector == 8 || vector == 10 || vector == 11
  }

  /** The PC an exception stacks. */
  function StackedPc(m: Machine, vector: int): Long {
    if StacksPpc(vector) then m.ppc
    else if Group0(vector) && m.fault.pcValid then m.fault.pc
    else m.pc
  }

  /** The stack frame from its lowest address up: 14 bytes for group 0, else 6 or 8. */
  function FrameBytes(m: Machine, vector: int, sr: bv16, pc: Long): seq<Byte> {
    if Group0(vector) then
      Be16(if m.fault.valid then m.fault.ssw else 0) + Be32(if m.fault.valid then m.fault.address else 0)
      + Be16(if m.fault.valid then m.fault.ir else m.ir) + Be16(SrWord(sr)) + Be32(pc)
    else
      Be16(SrWord(sr)) + Be32(pc) + (if m.control.model == M68010 then Be16(vector * 4 % 0x1_0000) else [])
  }

  function Frame(m: Machine, vector: int): seq<Byte> {
    FrameBytes(m, vector, m.sr, StackedPc(m, vector))
  }

  function VectorAddress(m: Machine, vector: int): Long {
    Plus(m.control.vbr, vector * 4)
  }

  function FrameBase(m: Machine, vector: int): Long {
    Minus(SupervisorSp(m), |Frame(m, vector)|)
  }

  /** A stretch of the bus that lies in memory without wrapping round. */
  predicate InMemory(m: Machine, base: Long, bytes: nat) {
    Mask24(base) + bytes <= |m.mem| && Mask24(base) + bytes <= 0x100_0000
  }

  /** Exception entry meets no fault of its own. */
  predicate Stackable(m: Machine, vector: int) {
    && SupervisorSp(m) % 2 == 0
    && InMemory(m, FrameBase(m, vector), |Frame(m, vector)|)
    && m.control.vbr % 2 == 0 && Mapped(m, VectorAddress(m, vector), LongSize)
  }

  function Released(fault: FaultLatch): FaultLatch {
    fault.(programAccess := false, valid := false, pcValid := false, busWordValid := false, programSpace := false)
  }

  /** Exception entry in one piece: the frame below the supervisor stack, then the vector. */
  function Raise(m: Machine, vector: int): Machine
    requires Stackable(m, vector)
  {
    var base := FrameBase(m, vector);
    var mem := Splice(m.mem, Mask24(base), Frame(m, vector));
    m.(sr := (m.sr | 0x2000) & 0x271F,
       usp := UserSp(m),
       a := SetRegister(m.a, 7, base),
       mem := mem,
       pc := Get32(mem, Mask24(VectorAddress(m, vector))),
       fault := Released(m.fault),
       nesting := m.nesting.(thrown := if m.nesting.thrown == 0 then vector else m.nesting.thrown),
       history := History(m.history.raised + [vector], Max(m.history.peak, m.nesting.depth + 1)))
  }

  /** Sets or clears the re-entry guard that belongs to a group-0 vector. */
  function WithGuard(m: Machine, vector: int, on: bool): Machine {
    m.(nesting := m.nesting.(addressError := if vector == 3 then on else m.nesting.addressError,
                             busError := if vector == 3 then m.nesting.busError else on))
  }

  predicate GuardClear(m: Machine, vector: int) {
    if vector == 3 then !m.nesting.addressError else !m.nesting.busError
  }

  /** The state in which a group-0 exception is entered after an access fault. */
  function Guarded(m: Machine, vector: int, address: Long, isWrite: bool, isProgram: bool): Machine {
    WithGuard(Captured(m, address, isWrite, isProgram), vector, true)
  }

  /** The whole effect of an access fault whose own exception entry meets no further fault. */
  function Faulted(m: Machine, vector: int, address: Long, isWrite: bool, isProgram: bool): Machine
    requires Stackable(Guarded(m, vector, address, isWrite, isProgram), vector)
  {
    WithGuard(Raise(Guarded(m, vector, address, isWrite, isProgram), vector), vector, false)
  }

  /** The vector is fetched whatever became of the frame: only a fault of that fetch keeps the PC from it. */
  predicate VectorLoaded(vector: int, m': Machine) {
    var at := Plus(m'.control.vbr, 4 * vector);
    FaultVector(m', at, LongSize).None? ==> m'.pc == BusValue(m', at, LongSize)
  }

  /** An exception was taken in state m: its exact effect, or, when it faults itself, what every entry does. */
  predicate Raised(m: Machine, vector: int, m': Machine) {
    && BusKeeps(m, m', 1) && m.history.raised + [vector] <= m'.history.raised
    && FlagS(m'.sr) && Clean(m'.sr) && VectorLoaded(vector, m')
    && (m.nesting.thrown == 0 && vector != 0 ==> m'.nesting.thrown == vector)
    && (Stackable(m, vector) ==> m' == Raise(m, vector))
  }

  /** What an access fault leaves: its vector raised under its guard, exactly so when nothing else faults. */
  predicate AfterFault(m: Machine, vector: int, address: Long, isWrite: bool, isProgram: bool, m': Machine) {
    && BusKeeps(m, m', 0) && m.history.raised + [vector] <= m'.history.raised && m'.nesting.group0
    && VectorLoaded(vector, WithGuard(m', vector, true))
    && (Stackable(Guarded(m, vector, address, isWrite, isProgram), vector) ==>
          m' == Faulted(m, vector, address, isWrite, isProgram))
  }

  /** The PC is the long word of the table at four times the vector. */
  predicate FromTable(control: Control, vector: int, mem: seq<Byte>, pc: Long) {
    var at := (control.vbr + 4 * vector) % 0x100_0000;
    at + 4 <= |mem| && pc == Number(mem[at..at + 4])
  }

  /** What an access raises, by its address: vector 3 for an odd word or long, else vector 2 outside memory. */
  predicate FaultsByAddress(m: Machine, address: Long, size: Size, m': Machine) {
    var misaligned := size != ByteSize && address % 2 == 1 && !m.nesting.addressError;
    var outside := address % 0x100_0000 + size.Bytes() > |m.mem| && !m.nesting.busError;
    if misaligned then m.history.raised + [3] <= m'.history.raised
    else if outside then m.history.raised + [2] <= m'.history.raised
    else m'.history.raised == m.history.raised
  }

  lemma FaultByAddress(m: Machine, address: Long, size: Size, isWrite: bool, isProgram: bool, m': Machine)
    ensures var v := FaultVector(m, address, size);
            (if v.None? then m'.history == m.history
             else AfterFault(m, v.value, address, isWrite, isProgram, m')) ==> FaultsByAddress(m, address, size, m')
  {
    hide BusKeeps, VectorLoaded, Stackable, Guarded;
  }

  /** How many of the two re-entry guards are clear: the measure of the bus recursion. */
  function ClearGuards(nesting: Nesting): nat {
    (if nesting.addressError then 0 else 1) + (if nesting.busError then 0 else 1)
  }

  /**
   Nothing but exception entries happened, and whatever they must leave alone is as
   before. They nest at most as deep as there are clear guards, plus the given rise.
   */
  predicate BusKeeps(m: Machine, m': Machine, rise: nat) {
    && |m'.mem| == |m.mem| && m'.d == m.d && m'.a[..7] == m.a[..7]
    && m'.ppc == m.ppc && m'.ir == m.ir && m'.lines == m.lines && m'.control == m.control && m'.slice == m.slice
    && NestingKeeps(m.nesting, m'.nesting)
    && m.history.raised <= m'.history.raised
    && SrKeeps(m.sr, m'.sr)
    && m'.history.peak <= Max(m.history.peak, m.nesting.depth + ClearGuards(m.nesting) + rise)
    && (m'.history.raised == m.history.raised ==>
          m'.sr == m.sr && m'.usp == m.usp && m'.ssp == m.ssp && m'.nesting == m.nesting)
  }

  predicate NestingKeeps(n: Nesting, n': Nesting) {
    && n'.addressError == n.addressError && n'.busError == n.busError && n'.depth == n.depth && n'.trap == n.trap
    && (n.group0 ==> n'.group0) && (n.thrown != 0 ==> n'.thrown == n.thrown)
  }

  predicate SrKeeps(sr: bv16, sr': bv16) {
    (Clean(sr) ==> Clean(sr')) && sr' & 0x0700 == sr & 0x0700 && (FlagS(sr) ==> FlagS(sr'))
  }

  lemma LinesUntouched(m: Machine, m': Machine)
    ensures BusKeeps(m, m', 1) ==> m'.lines == m.lines
  {
  }

  lemma BusKeepsReflexive(a: Machine)
    ensures BusKeeps(a, a, 0)
  {
  }

  lemma BusKeepsTransitive(a: Machine, b: Machine, c: Machine)
    ensures BusKeeps(a, b, 0) && BusKeeps(b, c, 0) ==> BusKeeps(a, c, 0)
  {
  }

  lemma StoredKeeps(m: Machine, address: Long, value: Long, size: Size)
    ensures BusKeeps(m, Stored(m, address, value, size), 0)
  {
    hide OperandBytes;
  }

  lemma FaultKeeps(m: Machine, vector: int, address: Long, isWrite: bool, isProgram: bool, m': Machine)
    requires GuardClear(m, vector) && |m'.history.raised| > |m.history.raised|
    ensures BusKeeps(Guarded(m, vector, address, isWrite, isProgram), m', 1)
            ==> BusKeeps(m, WithGuard(m', vector, false), 0)
  {
  }

  lemma RaiseCharged(m: Machine, vector: int, cycles: int)
    ensures Stackable(Charged(m, cycles), vector) == Stackable(m, vector)
    ensures Stackable(m, vector) ==> Raise(Charged(m, cycles), vector) == Charged(Raise(m, vector), cycles)
  {
    hide Minus, Plus, Mask24, FlagS, SrWord, Be16, Be32, Get32, Splice;
  }

  lemma BusKeepsCharged(m: Machine, m': Machine, rise: nat, cycles: int)
    ensures BusKeeps(m, m', rise) ==> BusKeeps(Charged(m, cycles), Charged(m', cycles), rise)
  {
    hide NestingKeeps, SrKeeps;
  }

  /** A charge made before an exception may as well be made after it. */
  lemma RaisedCharged(m: Machine, vector: int, m': Machine, cycles: int)
    ensures Raised(m, vector, m') ==> Raised(Charged(m, cycles), vector, Charged(m', cycles))
  {
    hide Stackable, Raise, BusKeeps, Plus, Mask24, FlagS, Clean, Get32;
    RaiseCharged(m, vector, cycles);
    BusKeepsCharged(m, m', 1, cycles);
  }

  lemma FaultCharged(m: Machine, vector: int, address: Long, isWrite: bool, isProgram: bool, m': Machine, cycles: int)
    ensures AfterFault(m, vector, address, isWrite, isProgram, m') ==>
      AfterFault(Charged(m, cycles), vector, address, isWrite, isProgram, Charged(m', cycles))
  {
    hide Stackable, Raise, BusKeeps, Plus, Mask24, FlagS, StatusWord, AccessCode, Get32;
    RaiseCharged(Guarded(m, vector, address, isWrite, isProgram), vector, cycles);
    BusKeepsCharged(m, m', 0, cycles);
  }

  // ------------------------------------------------- where an instruction stops

  /**
   Where an instruction is abandoned: the first access that faults, with the state it
   faults in, or an addressing mode that does not exist.
   */
  datatype Stop =
    | Access(at: Machine, vector: int, address: Long, isWrite: bool, isProgram: bool)
    | Illegal(at: Machine)

  predicate StoppedAt(stop: Stop, m': Machine) {
    match stop
    case Access(at, vector, address, isWrite, isProgram) => AfterFault(at, vector, address, isWrite, isProgram, m')
    case Illegal(at) => Raised(at, 4, m')
  }

  /** Something completes exactly when nothing stops it; otherwise the stop is all that happened. */
  predicate Ends(stop: Option<Stop>, ok: bool, m': Machine) {
    (ok <==> stop.None?) && (stop.Some? ==> StoppedAt(stop.value, m'))
  }

  function First(a: Option<Stop>, b: Option<Stop>): Option<Stop> {
    if a.Some? then a else b
  }

  /** One access of the bus. */
  function AccessStop(m: Machine, address: Long, size: Size, isWrite: bool, isProgram: bool): Option<Stop> {
    match FaultVector(m, address, size)
    case None => None
    case Some(vector) => Some(Access(m, vector, address, isWrite, isProgram))
  }

  function ReadStop(m: Machine, address: Long, size: Size): Option<Stop> {
    AccessStop(m, address, size, false, false)
  }

  function WriteStop(m: Machine, address: Long, size: Size): Option<Stop> {
    AccessStop(m, address, size, true, false)
  }

  /** The next words of the instruction stream, fetched one after the other. */
  function FetchStop(m: Machine, words: int): Option<Stop> {
    if words <= 0 then None
    else
      var next := Plus(m.pc, 2);
      First(AccessStop(m, m.pc, WordSize, false, true),
            if words == 1 then None else AccessStop(m.(pc := next), next, WordSize, false, true))
  }

  /** A push: the stack pointer moves before the write, and stays moved when it faults. */
  function PushStop(m: Machine, size: Size): Option<Stop> {
    var sp := Minus(m.a[7], size.Bytes());
    WriteStop(m.(a := SetRegister(m.a, 7, sp)), sp, size)
  }

  // ------------------------------------------------------- pushing a frame

  /** A push that does not fault. */
  function Pushed(m: Machine, value: Long, size: Size): Machine {
    var sp := Minus(m.a[7], size.Bytes());
    Stored(m.(a := SetRegister(m.a, 7, sp)), sp, value, size)
  }

  lemma StoredRest(m: Machine, address: Long, value: Long, size: Size)
    ensures Stored(m, address, value, size) == m.(mem := Stored(m, address, value, size).mem)
    ensures |Stored(m, address, value, size).mem| == |m.mem|
  {
  }

  lemma PushedRest(m: Machine, value: Long, size: Size)
    ensures var p := Pushed(m, value, size); p == m.(a := p.a, mem := p.mem) && |p.mem| == |m.mem|
  {
  }

  /** A push as numbers. */
  lemma PushedInPlace(m: Machine, value: Long, size: Size)
    ensures var p, sp := Pushed(m, value, size), (m.a[7] - size.Bytes()) % 0x1_0000_0000;
            var at := sp % 0x100_0000;
            && p.a[7] == sp && (forall k :: 0 <= k < 7 ==> p.a[k] == m.a[k])
            && (at + size.Bytes() <= |m.mem| ==>
                  |p.mem| == |m.mem| && Number(p.mem[at..at + size.Bytes()]) == value % size.Modulus())
  {
    var sp := Minus(m.a[7], size.Bytes());
    StoredInPlace(m.(a := SetRegister(m.a, 7, sp)), sp, value, size);
    hide Number, Stored;
  }

  predicate Pushable(m: Machine, size: Size) {
    FaultVector(m, Minus(m.a[7], size.Bytes()), size).None?
  }

  /** The stack with the top of a frame already written: base is where the frame will start. */
  function PartFrame(m: Machine, base: Long, k: nat, upper: seq<Byte>): Machine
    requires Mask24(base) + k + |upper| <= |m.mem|
  {
    m.(a := SetRegister(m.a, 7, Plus(base, k)), mem := Splice(m.mem, Mask24(base) + k, upper))
  }

  /** Consecutive addresses stay consecutive on the bus until they reach its end. */
  lemma BusOffset(base: Long, j: nat)
    requires Mask24(base) + j < 0x100_0000
    ensures Mask24(Plus(base, j)) == Mask24(base) + j
    ensures base % 2 == 0 ==> Plus(base, j) % 2 == j % 2
  {
  }

  lemma PlusTwice(x: Long, i: nat, j: nat)
    ensures Plus(Plus(x, i), j) == Plus(x, i + j)
  {
  }

  lemma WrapStep(base: Long, k: nat, n: nat)
    requires n <= k
    ensures Minus(Plus(base, k), n) == Plus(base, k - n)
  {
  }

  lemma SpliceBelow(bytes: seq<Byte>, at: nat, low: seq<Byte>, high: seq<Byte>)
    requires at + |low| + |high| <= |bytes|
    ensures Splice(Splice(bytes, at + |low|, high), at, low) == Splice(bytes, at, low + high)
  {
  }

  lemma SpliceAbove(bytes: seq<Byte>, at: nat, low: seq<Byte>, high: seq<Byte>)
    requires at + |low| + |high| <= |bytes|
    ensures Splice(Splice(bytes, at, low), at + |low|, high) == Splice(bytes, at, low + high)
  {
  }

  lemma PushAddress(base: Long, k: nat, n: nat, bytes: nat)
    requires base % 2 == 0 && k % 2 == 0 && n % 2 == 0 && 0 < n <= k && Mask24(base) + k <= 0x100_0000
    ensures var sp := Minus(Plus(base, k), n);
            sp == Plus(base, k - n) && !Odd(sp) && Mask24(sp) == Mask24(base) + (k - n)
  {
    WrapStep(base, k, n);
    BusOffset(base, k - n);
  }

  lemma PushPart(m: Machine, base: Long, k: nat, upper: seq<Byte>, value: Long, size: Size)
    requires base % 2 == 0 && k % 2 == 0 && size != ByteSize && size.Bytes() <= k
    requires InMemory(m, base, k + |upper|)
    ensures var part := PartFrame(m, base, k, upper);
            && Pushable(part, size)
            && Pushed(part, value, size)
               == PartFrame(m, base, k - size.Bytes(), OperandBytes(value, size) + upper)
  {
    hide Plus, Minus, Mask24, Splice, Be16, Be32;
    PushAddress(base, k, size.Bytes(), k + |upper|);
    SpliceBelow(m.mem, Mask24(base) + (k - size.Bytes()), OperandBytes(value, size), upper);
  }

  lemma StackBase(sp: Long, n: nat)
    requires n <= 14
    ensures Plus(Minus(sp, n), n) == sp
    ensures sp % 2 == 0 && n % 2 == 0 ==> Minus(sp, n) % 2 == 0
  {
    assert Minus(sp, n) == if sp >= n then sp - n else sp - n + 0x1_0000_0000;
    hide Minus;
  }

  lemma WordBytes(w: Word)
    ensures OperandBytes(w, WordSize) == Be16(w)
  {
  }

  lemma WholeFrame(m: Machine, base: Long, k: nat)
    requires m.a[7] == Plus(base, k) && Mask24(base) + k <= |m.mem|
    ensures m == PartFrame(m, base, k, [])
  {
  }

  lemma Group0UpperPushed(m: Machine, base: Long, sr: bv16, pc: Long, ir: Word)
    requires base % 2 == 0 && m.a[7] == Plus(base, 14) && InMemory(m, base, 14)
    ensures var m1 := Pushed(m, pc, LongSize);
            var m2 := Pushed(m1, SrWord(sr), WordSize);
            && Pushable(m, LongSize) && Pushable(m1, WordSize)
            && m2 == PartFrame(m, base, 8, Be16(SrWord(sr)) + Be32(pc))
            && Pushable(m2, WordSize)
            && Pushed(m2, ir, WordSize) == PartFrame(m, base, 6, Be16(ir) + (Be16(SrWord(sr)) + Be32(pc)))
  {
    WholeFrame(m, base, 14);
    WordBytes(SrWord(sr));
    WordBytes(ir);
    assert OperandBytes(pc, LongSize) + [] == Be32(pc);
    hide Plus, Minus, Mask24, Splice, Stored, Pushed, Pushable, PartFrame, Be16, Be32, SrWord, OperandBytes;
    PushPart(m, base, 14, [], pc, LongSize);
    assert Pushed(m, pc, LongSize) == PartFrame(m, base, 10, Be32(pc));
    PushPart(m, base, 10, Be32(pc), SrWord(sr), WordSize);
    PushPart(m, base, 8, Be16(SrWord(sr)) + Be32(pc), ir, WordSize);
  }

  lemma Group0LowerPushed(m: Machine, base: Long, upper: seq<Byte>, address: Long, ssw: Word)
    requires base % 2 == 0 && |upper| == 8 && InMemory(m, base, 14)
    ensures var m3 := PartFrame(m, base, 6, upper);
            var m4 := Pushed(m3, address, LongSize);
            var m5 := Pushed(m4, ssw, WordSize);
            && Pushable(m3, LongSize) && Pushable(m4, WordSize)
            && m5 == PartFrame(m, base, 0, Be16(ssw) + (Be32(address) + upper))
  {
    hide Plus, Minus, Mask24, Splice, Stored, Pushed, Pushable, PartFrame, Be16, Be32, SrWord;
    PushPart(m, base, 6, upper, address, LongSize);
    PushPart(m, base, 2, Be32(address) + upper, ssw, WordSize);
  }

  lemma FormatPushed(m: Machine, base: Long, format: Word)
    requires base % 2 == 0 && m.a[7] == Plus(base, 8) && InMemory(m, base, 8)
    ensures Pushable(m, WordSize) && Pushed(m, format, WordSize) == PartFrame(m, base, 6, Be16(format))
  {
    hide Plus, Minus, Mask24, Splice, Stored, Pushed, Pushable, PartFrame, Be16, Be32, SrWord;
    WholeFrame(m, base, 8);
    assert Be16(format) + [] == Be16(format);
    PushPart(m, base, 8, [], format, WordSize);
  }

  lemma PcAndSrPushed(m: Machine, base: Long, format: seq<Byte>, sr: bv16, pc: Long)
    requires base % 2 == 0 && |format| <= 2 && InMemory(m, base, 6 + |format|)
    ensures var m1 := PartFrame(m, base, 6, format);
            var m2 := Pushed(m1, pc, LongSize);
            && Pushable(m1, LongSize) && Pushable(m2, WordSize)
            && Pushed(m2, SrWord(sr), WordSize) == PartFrame(m, base, 0, Be16(SrWord(sr)) + (Be32(pc) + format))
  {
    hide Plus, Minus, Mask24, Splice, Stored, Pushed, Pushable, PartFrame, Be16, Be32, SrWord;
    PushPart(m, base, 6, format, pc, LongSize);
    PushPart(m, base, 2, Be32(pc) + format, SrWord(sr), WordSize);
  }

  /** The whole frame arrives below the stack pointer when it fits in memory. */
  predicate FramePushed(m: Machine, vector: int, sr: bv16, pc: Long, m': Machine) {
    var frame := FrameBytes(m, vector, sr, pc);
    var base := Minus(m.a[7], |frame|);
    m.a[7] % 2 == 0 && InMemory(m, base, |frame|) ==> m' == PartFrame(m, base, 0, frame)
  }

  predicate PushStep(m: Machine, value: Long, size: Size, m': Machine) {
    Pushable(m, size) ==> m' == Pushed(m, value, size)
  }

  lemma Group0FramePushed(m: Machine, m1: Machine, m2: Machine, m3: Machine, m4: Machine, m5: Machine,
                          vector: int, sr: bv16, pc: Long)
    requires Group0(vector)
    requires PushStep(m, pc, LongSize, m1) && PushStep(m1, SrWord(sr), WordSize, m2)
    requires PushStep(m2, if m.fault.valid then m.fault.ir else m.ir, WordSize, m3)
    requires PushStep(m3, if m.fault.valid then m.fault.address else 0, LongSize, m4)
    requires PushStep(m4, if m.fault.valid then m.fault.ssw else 0, WordSize, m5)
    ensures FramePushed(m, vector, sr, pc, m5)
  {
    hide Plus, Minus, Mask24, Splice, Stored, Pushed, Pushable, PartFrame, Be16, Be32, SrWord;
    var base := Minus(m.a[7], 14);
    StackBase(m.a[7], 14);
    if m.a[7] % 2 == 0 && InMemory(m, base, 14) {
      var ir := if m.fault.valid then m.fault.ir else m.ir;
      var address := if m.fault.valid then m.fault.address else 0;
      var ssw := if m.fault.valid then m.fault.ssw else 0;
      Group0UpperPushed(m, base, sr, pc, ir);
      Group0LowerPushed(m, base, Be16(ir) + (Be16(SrWord(sr)) + Be32(pc)), address, ssw);
      assert Be16(ssw) + (Be32(address) + (Be16(ir) + (Be16(SrWord(sr)) + Be32(pc)))) == FrameBytes(m, vector, sr, pc);
    }
  }

  lemma ShortFramePushed(m: Machine, m1: Machine, m2: Machine, m3: Machine, vector: nat, sr: bv16, pc: Long)
    requires !Group0(vector)
    requires m.control.model == M68010 ==> PushStep(m, vector * 4 % 0x1_0000, WordSize, m1)
    requires m.control.model == M68000 ==> m1 == m
    requires PushStep(m1, pc, LongSize, m2) && PushStep(m2, SrWord(sr), WordSize, m3)
    ensures FramePushed(m, vector, sr, pc, m3)
  {
    hide Plus, Minus, Mask24, Splice, Stored, Pushed, Pushable, PartFrame, Be16, Be32, SrWord;
    var frame := FrameBytes(m, vector, sr, pc);
    var base := Minus(m.a[7], |frame|);
    StackBase(m.a[7], |frame|);
    if m.a[7] % 2 == 0 && InMemory(m, base, |frame|) {
      var format := if m.control.model == M68010 then Be16(vector * 4 % 0x1_0000) else [];
      if m.control.model == M68010 {
        FormatPushed(m, base, vector * 4 % 0x1_0000);
      } else {
        WholeFrame(m, base, 6);
      }
      PcAndSrPushed(m, base, format, sr, pc);
      assert Be16(SrWord(sr)) + (Be32(pc) + format) == frame;
    }
  }

  // ------------------------------------------------- exception entry in steps

  /** The bookkeeping at the start of exception entry, then supervisor state without trace. */
  function Entered(m: Machine, vector: int): Machine {
    SetSr(m.(nesting := m.nesting.(thrown := if m.nesting.thrown == 0 then vector else m.nesting.thrown,
                                   depth := m.nesting.depth + 1),
             history := History(m.history.raised + [vector], Max(m.history.peak, m.nesting.depth + 1))),
          (m.sr | 0x2000) & 0x7FFF)
  }

  function Left(m: Machine, pc: Long): Machine
    requires m.nesting.depth > 0
  {
    m.(pc := pc, nesting := m.nesting.(depth := m.nesting.depth - 1))
  }

  lemma EnteredSr(m: Machine, vector: int)
    ensures var sr := Entered(m, vector).sr;
            sr == (m.sr | 0x2000) & 0x271F && FlagS(sr) && !FlagT(sr) && Clean(sr) && sr & 0x0700 == m.sr & 0x0700
  {
  }

  lemma EnteredStack(m: Machine, vector: int)
    ensures Entered(m, vector)
            == m.(sr := (m.sr | 0x2000) & 0x271F, usp := UserSp(m), a := SetRegister(m.a, 7, SupervisorSp(m)),
                  nesting := m.nesting.(thrown := if m.nesting.thrown == 0 then vector else m.nesting.thrown,
                                        depth := m.nesting.depth + 1),
                  history := History(m.history.raised + [vector], Max(m.history.peak, m.nesting.depth + 1)))
  {
    EnteredSr(m, vector);
    var sr := (m.sr | 0x2000) & 0x7FFF;
    assert sr & 0xA71F == (m.sr | 0x2000) & 0x271F;
    hide FlagT, Clean;
  }

  /** The vector fetch at the end of an exception entry that met no fault. */
  lemma VectorFetch(m: Machine, vector: int, p: Machine)
    requires m.control.vbr % 2 == 0 && Mapped(m, VectorAddress(m, vector), LongSize)
    requires |p.mem| == |m.mem|
    ensures FaultVector(p, VectorAddress(m, vector), LongSize).None?
    ensures BusValue(p, VectorAddress(m, vector), LongSize) == Get32(p.mem, Mask24(VectorAddress(m, vector)))
  {
  }

  /** The frame that exception entry pushes is the one the closed form describes. */
  lemma EnteredFrame(m: Machine, vector: int)
    requires Stackable(m, vector)
    ensures var e := Entered(m, vector);
            && FrameBytes(e, vector, m.sr, StackedPc(m, vector)) == Frame(m, vector)
            && e.a[7] == SupervisorSp(m) && e.mem == m.mem
            && InMemory(e, FrameBase(m, vector), |Frame(m, vector)|)
  {
    EnteredStack(m, vector);
    hide Minus, SrWord, StackedPc, Mask24, SupervisorSp, UserSp, FlagS;
  }

  lemma FramedState(m: Machine, vector: int)
    requires Stackable(m, vector)
    ensures var base, frame := FrameBase(m, vector), Frame(m, vector);
            && InMemory(Entered(m, vector), base, |frame|)
            && var p := PartFrame(Entered(m, vector), base, 0, frame);
               && Plus(base, 0) == base
               && p == Entered(m, vector).(a := SetRegister(m.a, 7, base), mem := Splice(m.mem, Mask24(base), frame))
  {
    EnteredFrame(m, vector);
    EnteredStack(m, vector);
    var base := FrameBase(m, vector);
    assert Plus(base, 0) == base;
    SetTwice(m.a, 7, SupervisorSp(m), base);
    hide Minus, Plus, Splice, Frame, SrWord, Mask24, SupervisorSp, UserSp, Entered, Stackable, FrameBase;
  }

  lemma RaiseInSteps(m: Machine, vector: int)
    requires Stackable(m, vector)
    ensures var e := Entered(m, vector);
            var base, frame := FrameBase(m, vector), Frame(m, vector);
            var mem := Splice(m.mem, Mask24(base), frame);
            Left(e.(a := SetRegister(m.a, 7, base), mem := mem, fault := Released(m.fault)),
                 Get32(mem, Mask24(VectorAddress(m, vector)))) == Raise(m, vector)
  {
    EnteredStack(m, vector);
    SetTwice(m.a, 7, SupervisorSp(m), FrameBase(m, vector));
    hide Minus, Plus, Splice, Frame, SrWord, Mask24, Get32, SupervisorSp, UserSp, FlagS, Entered, FrameBase,
         Stackable;
  }

  /** The steps of an exception entry compose to its closed form. */
  lemma ExceptionExact(m: Machine, vector: int, p: Machine, q: Machine, pc: Long)
    requires q.nesting.depth > 0
    ensures var r := p.(fault := Released(p.fault)); var at := VectorAddress(r, vector);
            && FramePushed(Entered(m, vector), vector, m.sr, StackedPc(m, vector), p)
            && (FaultVector(r, at, LongSize).None? ==> q == r && pc == BusValue(r, at, LongSize))
            && Stackable(m, vector) ==>
      Left(q, pc) == Raise(m, vector)
  {
    if Stackable(m, vector) && FramePushed(Entered(m, vector), vector, m.sr, StackedPc(m, vector), p) {
      EnteredFrame(m, vector);
      EnteredStack(m, vector);
      FramedState(m, vector);
      RaiseInSteps(m, vector);
      var r := p.(fault := Released(p.fault));
      VectorFetch(m, vector, r);
      hide Minus, Splice, FrameBytes, SrWord, StackedPc, Mask24, Get32, SupervisorSp, UserSp, Entered, BusValue,
           FaultVector, VectorAddress, Raise, Left;
    }
  }

  // ------------------------------------------------ exception entry in numbers

  /** The bytes of a frame: 14 for the two group-0 vectors, else 6, or 8 on the 68010. */
  function EntryBytes(m: Machine, vector: int): nat {
    if vector == 2 || vector == 3 then 14 else if m.control.model == M68010 then 8 else 6
  }

  /** The index of a frame in memory. */
  function EntryBase(m: Machine, vector: int): nat {
    ((if FlagS(m.sr) then m.a[7] else m.ssp) - EntryBytes(m, vector)) % 0x100_0000
  }

  /** The index of a vector's long word in memory. */
  function TableIndex(m: Machine, vector: int): nat {
    (m.control.vbr + 4 * vector) % 0x100_0000
  }

  /** The frame and the table entry lie in memory, aligned and clear of each other. */
  predicate EntryRoom(m: Machine, vector: int) {
    var base, n, at := EntryBase(m, vector), EntryBytes(m, vector), TableIndex(m, vector);
    && (if FlagS(m.sr) then m.a[7] else m.ssp) % 2 == 0 && m.control.vbr % 2 == 0
    && base + n <= |m.mem| && base + n <= 0x100_0000 && at + 4 <= |m.mem|
    && (at + 4 <= base || base + n <= at)
  }

  /** What a frame holds, as numbers. */
  predicate EntryFrame(m: Machine, vector: int, f: seq<Byte>)
    requires |f| == EntryBytes(m, vector)
  {
    if vector == 2 || vector == 3 then
      && Number(f[..2]) == (if m.fault.valid then m.fault.ssw else 0)
      && Number(f[2..6]) == (if m.fault.valid then m.fault.address else 0)
      && Number(f[6..8]) == (if m.fault.valid then m.fault.ir else m.ir)
      && Number(f[8..10]) == SrWord(m.sr) && Number(f[10..14]) == (if m.fault.pcValid then m.fault.pc else m.pc)
    else
      && Number(f[..2]) == SrWord(m.sr)
      && Number(f[2..6]) == (if vector == 4 || vector == 8 || vector == 10 || vector == 11 then m.ppc else m.pc)
      && (m.control.model == M68010 ==> Number(f[6..8]) == 4 * vector % 0x1_0000)
  }

  /** Supervisor state without trace, under the same mask and condition codes. */
  predicate EntryStatus(sr: bv16, sr': bv16) {
    && FlagS(sr') && !FlagT(sr') && Clean(sr') && MaskLevel(sr') == MaskLevel(sr)
    && FlagX(sr') == FlagX(sr) && FlagN(sr') == FlagN(sr) && FlagZ(sr') == FlagZ(sr) && FlagV(sr') == FlagV(sr)
    && FlagC(sr') == FlagC(sr)
  }

  /**
   An exception of a vector: its frame just below the supervisor stack, the PC from the
   table's long word at four times the vector, and no other memory changed.
   */
  predicate EntryShown(m: Machine, vector: int, m': Machine)
    requires EntryRoom(m, vector)
  {
    var base, n, at := EntryBase(m, vector), EntryBytes(m, vector), TableIndex(m, vector);
    && SameOutside(m.mem, m'.mem, base, base + n) && EntryFrame(m, vector, m'.mem[base..base + n])
    && m'.pc == Number(m.mem[at..at + 4])
    && m'.a[7] == ((if FlagS(m.sr) then m.a[7] else m.ssp) - n) % 0x1_0000_0000
    && m'.usp == (if FlagS(m.sr) then m.usp else m.a[7])
    && EntryStatus(m.sr, m'.sr)
    && !m'.fault.valid && !m'.fault.pcValid && !m'.fault.busWordValid && !m'.fault.programSpace
  }

  lemma FrameNumbers(m: Machine, vector: int)
    ensures |Frame(m, vector)| == EntryBytes(m, vector) && EntryFrame(m, vector, Frame(m, vector))
  {
    hide Be16, Be32, SrWord, Number;
    var f, pc := Frame(m, vector), StackedPc(m, vector);
    BigEndianNumbers(SrWord(m.sr), pc);
    if Group0(vector) {
      var ssw := if m.fault.valid then m.fault.ssw else 0;
      var address := if m.fault.valid then m.fault.address else 0;
      var ir := if m.fault.valid then m.fault.ir else m.ir;
      BigEndianNumbers(ssw, address);
      BigEndianNumbers(ir, 0);
      GroupPieces(Be16(ssw), Be32(address), Be16(ir), Be16(SrWord(m.sr)), Be32(pc));
    } else {
      BigEndianNumbers(vector * 4 % 0x1_0000, 0);
      ShortPieces(Be16(SrWord(m.sr)), Be32(pc), if m.control.model == M68010 then Be16(vector * 4 % 0x1_0000) else []);
    }
  }

  lemma GroupPieces(a: seq<Byte>, b: seq<Byte>, c: seq<Byte>, d: seq<Byte>, e: seq<Byte>)
    requires |a| == 2 && |b| == 4 && |c| == 2 && |d| == 2 && |e| == 4
    ensures var f := a + b + c + d + e;
            f[..2] == a && f[2..6] == b && f[6..8] == c && f[8..10] == d && f[10..14] == e
  {
  }

  lemma ShortPieces(a: seq<Byte>, b: seq<Byte>, c: seq<Byte>)
    requires |a| == 2 && |b| == 4
    ensures var f := a + b + c; f[..2] == a && f[2..6] == b && (|c| == 2 ==> f[6..8] == c)
  {
  }

  /** The bus lines of a wrapped address. */
  lemma BusIndex(x: int, n: int)
    ensures Mask24(Plus(x, n)) == (x + n) % 0x100_0000 && Mask24(Minus(x, n)) == (x - n) % 0x100_0000
  {
    ModShift(Plus(x, n), 0x100 * ((x + n) / 0x1_0000_0000), 0x100_0000);
    ModShift(Minus(x, n), 0x100 * ((x - n) / 0x1_0000_0000), 0x100_0000);
  }

  lemma EntryPlaces(m: Machine, vector: int)
    ensures |Frame(m, vector)| == EntryBytes(m, vector)
    ensures Mask24(FrameBase(m, vector)) == EntryBase(m, vector)
    ensures Mask24(VectorAddress(m, vector)) == TableIndex(m, vector)
  {
    hide Frame, EntryFrame, FlagS, Mask24, Plus, Minus;
    FrameNumbers(m, vector);
    BusIndex(SupervisorSp(m), EntryBytes(m, vector));
    BusIndex(m.control.vbr, vector * 4);
  }

  lemma EntryStackable(m: Machine, vector: int)
    ensures EntryRoom(m, vector) ==> Stackable(m, vector)
  {
    EntryPlaces(m, vector);
    hide Frame, FrameBase, VectorAddress, Mask24, FlagS, EntryBase, EntryBytes, TableIndex;
  }

  lemma EntrySr(sr: bv16)
    ensures EntryStatus(sr, (sr | 0x2000) & 0x271F)
  {
    var sr' := (sr | 0x2000) & 0x271F;
    assert (sr' >> 8) & 7 == (sr >> 8) & 7;
  }

  /** The closed form of an exception entry, in numbers. */
  lemma RaiseShown(m: Machine, vector: int)
    requires EntryRoom(m, vector)
    ensures Stackable(m, vector) && EntryShown(m, vector, Raise(m, vector))
  {
    hide EntryStatus, EntryFrame, Frame, Get32, Number, Mask24, VectorAddress, FlagS, Stackable;
    EntryPlaces(m, vector);
    EntryStackable(m, vector);
    FrameNumbers(m, vector);
    EntrySr(m.sr);
    var base, frame, at := Mask24(FrameBase(m, vector)), Frame(m, vector), Mask24(VectorAddress(m, vector));
    var mem := Splice(m.mem, base, frame);
    assert mem[base..base + |frame|] == frame;
    assert mem[at..at + 4] == m.mem[at..at + 4];
    OperandNumber(mem, at, LongSize);
  }

  lemma RaisedShown(m: Machine, vector: int, m': Machine)
    ensures EntryRoom(m, vector) && Raised(m, vector, m') ==> EntryShown(m, vector, m')
  {
    hide EntryRoom, EntryShown, Raise, Stackable, BusKeeps, VectorLoaded, FlagS, Clean;
    if EntryRoom(m, vector) {
      RaiseShown(m, vector);
    }
  }

  /** The vector fetch of any exception entry. */
  lemma VectorRead(r: Machine, q: Machine, vector: int, pc: Long)
    requires q.nesting.depth > 0
    ensures var at := VectorAddress(r, vector);
            && BusKeeps(r, q, 0)
            && (FaultVector(r, at, LongSize).None? ==> q == r && pc == BusValue(r, at, LongSize)) ==>
      VectorLoaded(vector, Left(q, pc))
  {
    hide Plus, Mask24, SrKeeps, Get32;
  }

  lemma EnteredNesting(m: Machine, vector: int)
    ensures var e := Entered(m, vector);
            e.nesting.depth == m.nesting.depth + 1 && ClearGuards(e.nesting) == ClearGuards(m.nesting)
  {
  }

  lemma BusKeepsNesting(m: Machine, m': Machine, rise: nat)
    ensures BusKeeps(m, m', rise) ==>
      m'.nesting.depth == m.nesting.depth && ClearGuards(m'.nesting) == ClearGuards(m.nesting)
  {
  }

  lemma EntrySrKeeps(m: Machine, vector: int, sr: bv16, sr': bv16)
    ensures SrKeeps(Entered(m, vector).sr, sr) && SrKeeps(sr, sr') ==> SrKeeps(m.sr, sr') && FlagS(sr') && Clean(sr')
  {
    EnteredSr(m, vector);
  }

  /** Exception entry disturbs nothing it should not, whatever faults nest inside it. */
  lemma ExceptionKeeps(m: Machine, vector: int, p: Machine, q: Machine, pc: Long)
    requires q.nesting.depth > 0
    ensures BusKeeps(Entered(m, vector), p, 0) && BusKeeps(p.(fault := Released(p.fault)), q, 0) ==>
      && BusKeeps(m, Left(q, pc), 1) && m.history.raised + [vector] <= q.history.raised
      && FlagS(q.sr) && Clean(q.sr)
      && (m.nesting.thrown == 0 && vector != 0 ==> q.nesting.thrown == vector)
  {
    EntrySrKeeps(m, vector, p.sr, q.sr);
    hide SrKeeps, FlagS, Clean;
  }

  /** The steps of an exception entry, whatever faults nest inside them. */
  lemma ExceptionRaised(m: Machine, vector: int, p: Machine, q: Machine, pc: Long)
    requires q.nesting.depth > 0
    ensures var r := p.(fault := Released(p.fault)); var at := VectorAddress(r, vector);
            && BusKeeps(Entered(m, vector), p, 0) && BusKeeps(r, q, 0)
            && FramePushed(Entered(m, vector), vector, m.sr, StackedPc(m, vector), p)
            && (FaultVector(r, at, LongSize).None? ==> q == r && pc == BusValue(r, at, LongSize)) ==>
      Raised(m, vector, Left(q, pc))
  {
    hide BusKeeps, FlagS, Clean, Plus, Entered, Stackable, BusValue, FaultVector, FramePushed, Raise, VectorLoaded,
         Released, StackedPc;
    ExceptionKeeps(m, vector, p, q, pc);
    VectorRead(p.(fault := Released(p.fault)), q, vector, pc);
    ExceptionExact(m, vector, p, q, pc);
  }

  // ---------------------------------------------------------- instructions

  /** The state in which instruction handlers run: faults unwind, nothing is nested. */
  predicate Executing(m: Machine) {
    m.nesting.trap && m.nesting.depth == 0 && !m.nesting.addressError && !m.nesting.busError
  }

  /**
   What every part of an instruction keeps, and the cycles it has charged at least. The
   supervisor bit comes on only with an exception raised.
   */
  predicate StepKeeps(m: Machine, m': Machine, charge: int) {
    && |m'.mem| == |m.mem| && m'.control == m.control && m'.slice.target == m.slice.target
    && m'.slice.remaining <= m.slice.remaining - charge
    && m'.lines.(stopped := m.lines.stopped) == m.lines
    && NestingKeeps(m.nesting, m'.nesting)
    && m.history.raised <= m'.history.raised
    && (Clean(m.sr) ==> Clean(m'.sr))
    && m'.history.peak <= Max(m.history.peak, m.nesting.depth + ClearGuards(m.nesting) + 1)
    && (m'.history.raised == m.history.raised ==>
          (FlagS(m'.sr) ==> FlagS(m.sr)) && m'.nesting == m.nesting)
  }

  lemma StepKeepsTransitive(a: Machine, b: Machine, c: Machine, x: int, y: int)
    ensures StepKeeps(a, b, x) && StepKeeps(b, c, y) ==> StepKeeps(a, c, x + y)
  {
  }

  lemma ExecutingKept(a: Machine, b: Machine, charge: int)
    ensures StepKeeps(a, b, charge) && Executing(a) ==> Executing(b)
  {
  }

  lemma BusIsStep(a: Machine, b: Machine, rise: nat)
    requires rise <= 1
    ensures BusKeeps(a, b, rise) ==> StepKeeps(a, b, 0)
  {
  }

  function Charged(m: Machine, cycles: int): Machine {
    m.(slice := m.slice.(remaining := m.slice.remaining - cycles))
  }

  function WithFaultPc(m: Machine, pc: Long): Machine {
    m.(fault := m.fault.(pc := pc, pcValid := true))
  }

  // ---------------------------------------------------- effective addresses

  /** A resolved operand: a register or immediate, or a memory address. */
  datatype Ea = Ea(value: Long, address: Long, isReg: bool, regNum: int, isAddr: bool)

  /** The addressing mode names a location in memory. */
  predicate MemoryMode(mode: int, reg: int) {
    2 <= mode <= 6 || (mode == 7 && reg < 4)
  }

  /** The addressing mode exists. */
  predicate ValidMode(mode: int, reg: int) {
    mode < 7 || reg <= 4
  }

  function WordAt(m: Machine, address: Long): Word {
    if Mapped(m, address, WordSize) then Get16(m.mem, Mask24(address)) else 0
  }

  /** The step of a postincrement or predecrement: the stack pointer stays even. */
  function AddressStep(reg: int, size: Size): int {
    if size == ByteSize && reg == 7 then 2 else size.Bytes()
  }

  /** Extension words an addressing mode takes from the instruction stream. */
  function ExtensionWords(mode: int, reg: int, size: Size): int {
    if mode == 5 || mode == 6 then 1
    else if mode != 7 then 0
    else if reg == 1 || (reg == 4 && size == LongSize) then 2
    else if reg <= 4 then 1
    else 0
  }

  /** The index register of a brief extension word, sign-extended unless it is used whole. */
  function IndexValue(m: Machine, ext: Word): Long {
    var n := ext / 0x1000 % 8;
    var x := if ext / 0x8000 % 2 == 1 then m.a[n] else m.d[n];
    if ext / 0x800 % 2 == 1 then x else Extend(x, WordSize)
  }

  function IndexedAddress(m: Machine, base: Long, ext: Word): Long {
    Plus(base, IndexValue(m, ext) + Signed(ext, ByteSize))
  }

  function EaAddress(m: Machine, mode: int, reg: int, size: Size): Long
    requires 0 <= reg < 8
  {
    var ext := WordAt(m, m.pc);
    match mode
    case 2 => m.a[reg]
    case 3 => m.a[reg]
    case 4 => Minus(m.a[reg], AddressStep(reg, size))
    case 5 => Plus(m.a[reg], Signed(ext, WordSize))
    case 6 => IndexedAddress(m, m.a[reg], ext)
    case 7 =>
      (match reg
       case 0 => Extend(ext, WordSize)
       case 1 => Join(ext, WordAt(m, Plus(m.pc, 2)))
       case 2 => Plus(m.pc, Signed(ext, WordSize))
       case 3 => IndexedAddress(m, m.pc, ext)
       case _ => 0)
    case _ => 0
  }

  /** Data addressing: everything but An. */
  predicate DataMode(mode: int, reg: int) {
    mode != 1 && ValidMode(mode, reg)
  }

  /** The operand an addressing mode names, when resolving and reading it meets no fault. */
  function OperandValue(m: Machine, mode: int, reg: int, size: Size): Long
    requires 0 <= reg < 8
  {
    if mode == 0 then m.d[reg]
    else if mode == 1 then m.a[reg]
    else if mode == 7 && reg == 4 then Immediate(m, size)
    else BusValue(m, EaAddress(m, mode, reg, size), size)
  }

  /** The address registers after resolution: only postincrement and predecrement change one. */
  function EaRegisters(m: Machine, mode: int, reg: int, size: Size): Registers
    requires 0 <= reg < 8
  {
    if mode == 3 then SetRegister(m.a, reg, Plus(m.a[reg], AddressStep(reg, size)))
    else if mode == 4 then SetRegister(m.a, reg, Minus(m.a[reg], AddressStep(reg, size)))
    else m.a
  }

  /** The PC a fault on the operand stacks, by addressing mode. */
  function EaFaultPc(m: Machine, mode: int, reg: int, size: Size): Option<Long> {
    if mode == 2 || mode == 3 || mode == 5 || mode == 6 then Some(m.pc)
    else if mode == 4 then Some(Plus(m.pc, if size == LongSize then 0 else 2))
    else if mode == 7 && 0 <= reg <= 3 then Some(Plus(m.pc, if reg == 1 then 4 else if reg == 0 then 2 else 0))
    else None
  }

  function EaLatched(m: Machine, mode: int, reg: int, size: Size): Machine {
    match EaFaultPc(m, mode, reg, size) case None => m case Some(pc) => WithFaultPc(m, pc)
  }

  predicate PcRelative(mode: int, reg: int) {
    mode == 7 && (reg == 2 || reg == 3)
  }

  /** The state in which a memory operand is read: a long postincrement alone has not been committed yet. */
  function OperandAccess(l: Machine, mode: int, reg: int, size: Size): Machine
    requires 0 <= reg < 8
  {
    InSpace(l.(a := if mode == 3 && size == LongSize then l.a else EaRegisters(l, mode, reg, size),
               pc := Plus(l.pc, 2 * ExtensionWords(mode, reg, size))), PcRelative(mode, reg))
  }

  /** What stops a resolution whose fault PC has been latched. */
  function ResolveStop(l: Machine, mode: int, reg: int, size: Size, fetched: bool): Option<Stop>
    requires 0 <= reg < 8
  {
    if !ValidMode(mode, reg) then Some(Illegal(l))
    else First(FetchStop(l, ExtensionWords(mode, reg, size)),
               if fetched && MemoryMode(mode, reg)
               then ReadStop(OperandAccess(l, mode, reg, size), EaAddress(l, mode, reg, size), size) else None)
  }

  /** What stops the resolution of an addressing mode. */
  function EaStop(m: Machine, mode: int, reg: int, size: Size, fetched: bool): Option<Stop>
    requires 0 <= reg < 8
  {
    ResolveStop(EaLatched(m, mode, reg, size), mode, reg, size, fetched)
  }

  /** The fault latch after a completed resolution. */
  function EaFault(m: Machine, mode: int, reg: int, size: Size, fetched: bool): FaultLatch {
    LeftSpace(EaLatched(m, mode, reg, size).fault, fetched && PcRelative(mode, reg))
  }

  /** The machine after a completed resolution. */
  function EaAfter(m: Machine, mode: int, reg: int, size: Size, fetched: bool): Machine
    requires 0 <= reg < 8
  {
    m.(a := EaRegisters(m, mode, reg, size), pc := Plus(m.pc, 2 * ExtensionWords(mode, reg, size)),
       fault := EaFault(m, mode, reg, size, fetched))
  }

  /** The share of an operand's cost that is spent before it is read: a long one faults on its first word. */
  function EaShare(mode: int, reg: int, size: Size): nat {
    EaCycles(mode, reg, if size == LongSize then WordSize else size)
  }

  /** What stops an operand that is resolved, read and charged for. */
  function OperandStop(m: Machine, mode: int, reg: int, size: Size): Option<Stop>
    requires 0 <= reg < 8
  {
    EaStop(Charged(m, EaShare(mode, reg, size)), mode, reg, size, true)
  }

  /** The machine once an operand has been resolved, read and charged for. */
  function AfterOperand(m: Machine, mode: int, reg: int, size: Size): Machine
    requires 0 <= reg < 8
  {
    Charged(EaAfter(m, mode, reg, size, true), EaCycles(mode, reg, size))
  }

  /** What stops a control operand: no value is read, and modes without an address are illegal. */
  function ControlStop(m: Machine, mode: int, reg: int, isJmp: bool): Option<Stop>
    requires 0 <= reg < 8
  {
    if !ControlMode(mode, reg) then Some(Illegal(m))
    else EaStop(Charged(m, ControlEaCycles(mode, reg, isJmp)), mode, reg, LongSize, false)
  }

  /** Operands of the PC-relative modes are read from program space. */
  function InSpace(m: Machine, program: bool): Machine {
    m.(fault := m.fault.(programSpace := m.fault.programSpace || program))
  }

  function LeftSpace(fault: FaultLatch, program: bool): FaultLatch {
    fault.(programSpace := if program then false else fault.programSpace)
  }

  /** Only the registers, the PC, the fault latch and the cycle count moved. */
  predicate Quiet(m: Machine, m': Machine) {
    && m' == m.(a := m'.a, pc := m'.pc, fault := m'.fault, slice := m'.slice)
    && m'.fault == m.fault.(pc := m'.fault.pc, pcValid := m'.fault.pcValid, programSpace := m'.fault.programSpace)
    && (m'.fault.programSpace ==> m.fault.programSpace)
  }

  /** What a completed resolution leaves and delivers. */
  predicate EaResolved(m: Machine, mode: int, reg: int, size: Size, fetched: bool, ea: Ea, m': Machine)
    requires 0 <= reg < 8
  {
    && Quiet(m, m')
    && m'.a == EaRegisters(m, mode, reg, size)
    && m'.pc == Plus(m.pc, 2 * ExtensionWords(mode, reg, size))
    && ea.isReg == !MemoryMode(mode, reg) && ea.isAddr == (mode == 1)
    && (mode == 0 ==> ea.regNum == reg && ea.value == m.d[reg])
    && (mode == 1 ==> ea.regNum == reg && ea.value == m.a[reg])
    && (mode == 7 && reg == 4 ==> ea.value == Immediate(m, size))
    && (MemoryMode(mode, reg) ==> ea.address == EaAddress(m, mode, reg, size))
    && (MemoryMode(mode, reg) && fetched ==>
          FaultVector(m, ea.address, size).None? && ea.value == BusValue(m, ea.address, size))
  }

  /** The next words of the instruction stream can be fetched. */
  predicate Fetchable(m: Machine, words: int) {
    && (words >= 1 ==> FaultVector(m, m.pc, WordSize).None?)
    && (words >= 2 ==> FaultVector(m, Plus(m.pc, 2), WordSize).None?)
  }

  /** Resolution meets no fault: the mode exists, its extension words and its operand can be read. */
  predicate EaCompletes(m: Machine, mode: int, reg: int, size: Size, fetched: bool)
    requires 0 <= reg < 8
  {
    && ValidMode(mode, reg) && Fetchable(m, ExtensionWords(mode, reg, size))
    && (fetched && MemoryMode(mode, reg) ==> FaultVector(m, EaAddress(m, mode, reg, size), size).None?)
  }

  /** A fault depends on the memory, the guards and the access only. */
  lemma FaultSame(m: Machine, m': Machine, address: Long, size: Size)
    requires |m'.mem| == |m.mem| && m'.nesting == m.nesting
    ensures FaultVector(m', address, size) == FaultVector(m, address, size)
  {
    hide Mask24;
  }

  lemma FaultNumber(m: Machine, address: Long, size: Size)
    ensures FaultVector(m, address, size).Some? ==> Group0(FaultVector(m, address, size).value)
  {
  }

  lemma BusSame(m: Machine, m': Machine, address: Long, size: Size)
    requires m'.mem == m.mem
    ensures BusValue(m', address, size) == BusValue(m, address, size)
  {
    hide Mask24, Operand;
  }

  /** Nothing stops a resolution exactly when its mode exists and its words and operand can be read. */
  lemma ResolveStopNone(l: Machine, mode: int, reg: int, size: Size, fetched: bool)
    requires 0 <= reg < 8
    ensures ResolveStop(l, mode, reg, size, fetched).None? <==> EaCompletes(l, mode, reg, size, fetched)
  {
    hide Mask24, Plus, Minus, EaAddress, EaRegisters;
  }

  lemma EaStopNone(m: Machine, mode: int, reg: int, size: Size, fetched: bool)
    requires 0 <= reg < 8
    ensures EaStop(m, mode, reg, size, fetched).None? <==> EaCompletes(m, mode, reg, size, fetched)
  {
    var l := EaLatched(m, mode, reg, size);
    ResolveStopNone(l, mode, reg, size, fetched);
    CompletesAfterLatch(m, mode, reg, size, fetched);
    hide EaCompletes, ResolveStop;
  }

  lemma CompletesCharged(m: Machine, cycles: int, mode: int, reg: int, size: Size, fetched: bool)
    requires 0 <= reg < 8
    ensures EaCompletes(Charged(m, cycles), mode, reg, size, fetched) == EaCompletes(m, mode, reg, size, fetched)
    ensures EaCompletes(m, mode, reg, size, fetched) ==> ValidMode(mode, reg)
  {
    hide Mask24, Plus, Minus;
  }

  lemma CompletesAfterLatch(m: Machine, mode: int, reg: int, size: Size, fetched: bool)
    requires 0 <= reg < 8
    ensures EaCompletes(EaLatched(m, mode, reg, size), mode, reg, size, fetched)
            == EaCompletes(m, mode, reg, size, fetched)
    ensures !ValidMode(mode, reg) ==> !EaCompletes(m, mode, reg, size, fetched)
  {
    hide Mask24, Plus, Minus, AddressStep, ExtensionWords, Get16, Extend, Signed;
  }

  function Immediate(m: Machine, size: Size): Long {
    match size
    case ByteSize => WordAt(m, m.pc) % 0x100
    case WordSize => WordAt(m, m.pc)
    case LongSize => Join(WordAt(m, m.pc), WordAt(m, Plus(m.pc, 2)))
  }

  /** The cycle table of effective addresses. */
  function EaCycles(mode: int, reg: int, size: Size): (cycles: nat)
    ensures cycles <= 16
    ensures mode <= 1 ==> cycles == 0
  {
    var long := size == LongSize;
    match mode
    case 2 => if long then 8 else 4
    case 3 => if long then 8 else 4
    case 4 => if long then 10 else 6
    case 5 => if long then 12 else 8
    case 6 => if long then 14 else 10
    case 7 =>
      (match reg
       case 0 => if long then 12 else 8
       case 1 => if long then 16 else 12
       case 2 => if long then 12 else 8
       case 3 => if long then 14 else 10
       case 4 => if long then 8 else 4
       case _ => 0)
    case _ => 0
  }

  // ----------------------------------------- effective addresses in numbers

  predicate MovedBy(a: Registers, reg: int, n: int, a': Registers) {
    forall k :: 0 <= k < 8 ==> a'[k] == if k == reg then (a[k] + n) % 0x1_0000_0000 else a[k]
  }

  /** A pointer moves by the bytes of its operand, up or down, and A7 by two for a byte; others do not move. */
  predicate PointerMoved(a: Registers, mode: int, reg: int, size: Size, a': Registers) {
    var sign := if mode == 3 then 1 else if mode == 4 then -1 else 0;
    && (size == LongSize ==> MovedBy(a, reg, 4 * sign, a'))
    && (size == WordSize ==> MovedBy(a, reg, 2 * sign, a'))
    && (size == ByteSize && reg != 7 ==> MovedBy(a, reg, sign, a'))
    && (size == ByteSize && reg == 7 ==> MovedBy(a, 7, 2 * sign, a'))
  }

  lemma EaPointer(m: Machine, mode: int, reg: int, size: Size)
    requires 0 <= reg < 8
    ensures PointerMoved(m.a, mode, reg, size, EaRegisters(m, mode, reg, size))
  {
  }

  /** The stack pointer stays even. */
  lemma EvenStack(a: Registers, mode: int, reg: int, size: Size, a': Registers)
    ensures PointerMoved(a, mode, reg, size, a') && a[7] % 2 == 0 ==> a'[7] % 2 == 0
  {
  }

  lemma AfterPointer(m: Machine, mode: int, reg: int, size: Size, fetched: bool)
    requires 0 <= reg < 8
    ensures PointerMoved(m.a, mode, reg, size, EaAfter(m, mode, reg, size, fetched).a)
    ensures m.a[7] % 2 == 0 ==> EaAfter(m, mode, reg, size, fetched).a[7] % 2 == 0
  {
    EaPointer(m, mode, reg, size);
    EvenStack(m.a, mode, reg, size, EaRegisters(m, mode, reg, size));
    hide EaRegisters, PointerMoved, EaFault;
  }

  /** A word as a two's complement number. */
  function SignedWord(w: int): int {
    if w >= 0x8000 then w - 0x1_0000 else w
  }

  /** The address each mode without an index computes from the registers, the PC and the extension words. */
  lemma AddressNumbers(m: Machine, mode: int, reg: int, size: Size)
    requires 0 <= reg < 8
    ensures var address, ext := EaAddress(m, mode, reg, size), WordAt(m, m.pc);
            && (mode == 2 || mode == 3 ==> address == m.a[reg])
            && (mode == 4 ==> address == EaRegisters(m, mode, reg, size)[reg])
            && (mode == 5 ==> address == (m.a[reg] + SignedWord(ext)) % 0x1_0000_0000)
            && (mode == 7 && reg == 0 ==> address == SignedWord(ext) % 0x1_0000_0000)
            && (mode == 7 && reg == 1 ==> address == 0x1_0000 * ext + WordAt(m, (m.pc + 2) % 0x1_0000_0000))
            && (mode == 7 && reg == 2 ==> address == (m.pc + SignedWord(ext)) % 0x1_0000_0000)
            && (mode == 6 ==> address == IndexedAddress(m, m.a[reg], ext))
            && (mode == 7 && reg == 3 ==> address == IndexedAddress(m, m.pc, ext))
  {
    hide IndexedAddress;
  }

  lemma BriefParts(ext: Word, a: int, n: int, w: int, unused: int, low: int)
    requires 0 <= a < 2 && 0 <= n < 8 && 0 <= w < 2 && 0 <= unused < 8 && 0 <= low < 0x100
    requires ext == 0x8000 * a + 0x1000 * n + 0x800 * w + 0x100 * unused + low
    ensures ext / 0x8000 % 2 == a && ext / 0x1000 % 8 == n && ext / 0x800 % 2 == w && ext % 0x100 == low
  {
    DivUnique(ext, 0x8000, a, ext - 0x8000 * a);
    DivUnique(ext, 0x1000, 8 * a + n, 0x800 * w + 0x100 * unused + low);
    DivUnique(ext, 0x800, 16 * a + 2 * n + w, 0x100 * unused + low);
    DivUnique(ext, 0x100, 128 * a + 16 * n + 8 * w + unused, low);
  }

  lemma WrappedIndex(base: Long, x: Long, displacement: int)
    ensures Plus(base, Extend(x, WordSize) + displacement)
            == (base + SignedWord(x % 0x1_0000) + displacement) % 0x1_0000_0000
  {
    var s := SignedWord(x % 0x1_0000);
    ModShift(base + s + displacement, (s % 0x1_0000_0000 - s) / 0x1_0000_0000, 0x1_0000_0000);
  }

  lemma SignedByte(ext: Word, displacement: int)
    requires -0x80 <= displacement < 0x80 && ext % 0x100 == displacement % 0x100
    ensures Signed(ext, ByteSize) == displacement
  {
  }

  /**
   The brief extension word: bit 15 picks an address register, bits 14 to 12 the register,
   bit 11 the whole of it instead of its signed low word, bits 10 to 8 do not matter, and
   the low byte is a signed displacement.
   */
  lemma BriefWord(m: Machine, base: Long, ext: Word, isAddress: bool, n: int, whole: bool, unused: int,
                  displacement: int)
    requires 0 <= n < 8 && 0 <= unused < 8 && -0x80 <= displacement < 0x80
    requires ext == (if isAddress then 0x8000 else 0) + 0x1000 * n + (if whole then 0x800 else 0) + 0x100 * unused
                    + displacement % 0x100
    ensures var x := if isAddress then m.a[n] else m.d[n];
            IndexedAddress(m, base, ext)
            == (base + (if whole then x else SignedWord(x % 0x1_0000)) + displacement) % 0x1_0000_0000
  {
    var x := if isAddress then m.a[n] else m.d[n];
    BriefParts(ext, if isAddress then 1 else 0, n, if whole then 1 else 0, unused, displacement % 0x100);
    SignedByte(ext, displacement);
    WrappedIndex(base, x, displacement);
    hide Signed, Extend;
  }

  /** The operand of each mode: a register, the number in memory, or the immediate of the instruction stream. */
  lemma OperandNumbers(m: Machine, mode: int, reg: int, size: Size)
    requires 0 <= mode < 8 && 0 <= reg < 8
    ensures var x, at, pc := OperandValue(m, mode, reg, size), EaAddress(m, mode, reg, size) % 0x100_0000,
                m.pc % 0x100_0000;
            && (mode == 0 ==> x == m.d[reg]) && (mode == 1 ==> x == m.a[reg])
            && (MemoryMode(mode, reg) && at + size.Bytes() <= |m.mem| ==> x == Number(m.mem[at..at + size.Bytes()]))
            && (mode == 7 && reg == 4 && pc + 4 <= |m.mem| && pc + 4 <= 0x100_0000 ==>
                  x == match size case ByteSize => m.mem[pc + 1] case WordSize => Number(m.mem[pc..pc + 2])
                       case LongSize => Number(m.mem[pc..pc + 4]))
  {
    hide EaAddress, Number, Mask24, Plus;
    var address := EaAddress(m, mode, reg, size);
    assert Mask24(address) == address % 0x100_0000 && Mask24(m.pc) == m.pc % 0x100_0000 by {
      BusIndex(address, 0);
      BusIndex(m.pc, 0);
      PlusZero(address);
      PlusZero(m.pc);
    }
    if MemoryMode(mode, reg) && Mapped(m, address, size) {
      OperandNumber(m.mem, Mask24(address), size);
    }
    if mode == 7 && reg == 4 && Mask24(m.pc) + 4 <= |m.mem| && Mask24(m.pc) + 4 <= 0x100_0000 {
      BusOffset(m.pc, 2);
      OperandNumber(m.mem, Mask24(m.pc), WordSize);
      OperandNumber(m.mem, Mask24(m.pc), LongSize);
      ImmediateBytes(m.mem, Mask24(m.pc));
    }
  }

  lemma ImmediateBytes(bytes: seq<Byte>, at: nat)
    requires at + 4 <= |bytes|
    ensures Join(Get16(bytes, at), Get16(bytes, at + 2)) == Get32(bytes, at)
    ensures Get16(bytes, at) % 0x100 == bytes[at + 1]
  {
  }

  /** An operand costs four cycles for each extension word and each operand word, and two to decrement or index. */
  lemma EaCyclesCount(mode: int, reg: int, size: Size)
    requires 0 <= mode < 8 && 0 <= reg < 8 && ValidMode(mode, reg)
    ensures EaCycles(mode, reg, size)
            == 4 * ExtensionWords(mode, reg, size)
               + (if MemoryMode(mode, reg) then (if size == LongSize then 8 else 4) else 0)
               + (if mode == 4 || mode == 6 || (mode == 7 && reg == 3) then 2 else 0)
    ensures ControlMode(mode, reg) ==>
      var ext, index := ExtensionWords(mode, reg, size), if mode == 6 || (mode == 7 && reg == 3) then 4 else 0;
      && ControlEaCycles(mode, reg, true) == 8 + 2 * ext + index
      && ControlEaCycles(mode, reg, false) == 4 + 4 * ext + index
  {
  }

  /** Latching the fault PC first changes nothing that resolution depends on. */
  lemma ResolvedAfterLatch(m: Machine, mode: int, reg: int, size: Size, fetched: bool, ea: Ea, m': Machine)
    requires 0 <= reg < 8
    ensures var l := EaLatched(m, mode, reg, size);
            EaResolved(l, mode, reg, size, fetched, ea, m') && m'.slice == l.slice
            && m'.fault == LeftSpace(l.fault, fetched && PcRelative(mode, reg)) ==>
      EaResolved(m, mode, reg, size, fetched, ea, m') && m' == EaAfter(m, mode, reg, size, fetched)
  {
    hide Plus, Minus, Mask24, Operand, Get16, AddressStep, ExtensionWords, Extend, Signed;
  }

  lemma LatchedKeeps(m: Machine, mode: int, reg: int, size: Size)
    ensures StepKeeps(m, EaLatched(m, mode, reg, size), 0)
    ensures Executing(EaLatched(m, mode, reg, size)) == Executing(m) && EaLatched(m, mode, reg, size).slice == m.slice
  {
  }

  /** A mode with extension words: its stops and its operand, once the words are fetched. */
  lemma ExtendedMode(m: Machine, mode: int, reg: int, size: Size, fetched: bool)
    requires 0 <= reg < 8 && (mode == 5 || mode == 6 || (mode == 7 && reg <= 3))
    ensures var m1 := m.(pc := Plus(m.pc, 2 * ExtensionWords(mode, reg, size)));
            var address := EaAddress(m, mode, reg, size);
            && ValidMode(mode, reg) && MemoryMode(mode, reg)
            && OperandAccess(m, mode, reg, size) == InSpace(m1, PcRelative(mode, reg))
            && (EaCompletes(m, mode, reg, size, fetched) <==>
                  Fetchable(m, ExtensionWords(mode, reg, size))
                  && (fetched ==> FaultVector(m1, address, size).None?))
  {
    FaultSame(m, m.(pc := Plus(m.pc, 2 * ExtensionWords(mode, reg, size))), EaAddress(m, mode, reg, size), size);
    hide Plus, EaAddress, ExtensionWords, FaultVector;
  }

  lemma ExtendedResolved(m: Machine, mode: int, reg: int, size: Size, fetched: bool, ea: Ea, m': Machine)
    requires 0 <= reg < 8 && (mode == 5 || mode == 6 || (mode == 7 && reg <= 3))
    ensures m' == m.(pc := Plus(m.pc, 2 * ExtensionWords(mode, reg, size)),
                     fault := LeftSpace(m.fault, fetched && PcRelative(mode, reg)))
            && !ea.isReg && !ea.isAddr && ea.address == EaAddress(m, mode, reg, size)
            && (fetched ==> FaultVector(m, ea.address, size).None? && ea.value == BusValue(m, ea.address, size)) ==>
      EaResolved(m, mode, reg, size, fetched, ea, m')
  {
    hide Plus, EaAddress, ExtensionWords, FaultVector, BusValue;
  }

  lemma IllegalMode(l: Machine, mode: int, reg: int, size: Size, fetched: bool)
    requires 0 <= reg < 8 && !ValidMode(mode, reg)
    ensures ResolveStop(l, mode, reg, size, fetched) == Some(Illegal(l))
    ensures forall m' :: StoppedAt(Illegal(l), m') <==> Raised(l, 4, m')
  {
    hide Raised;
  }

  lemma IllegalControl(m: Machine, mode: int, reg: int, isJmp: bool)
    requires 0 <= reg < 8 && !ControlMode(mode, reg)
    ensures ControlStop(m, mode, reg, isJmp) == Some(Illegal(m))
    ensures forall m' :: StoppedAt(Illegal(m), m') <==> Raised(m, 4, m')
  {
    hide Raised;
  }

  lemma AfterCharged(m: Machine, cycles: int, mode: int, reg: int, size: Size, fetched: bool)
    requires 0 <= reg < 8
    ensures EaAfter(Charged(m, cycles), mode, reg, size, fetched)
            == Charged(EaAfter(m, mode, reg, size, fetched), cycles)
  {
    hide Plus, Minus, AddressStep, ExtensionWords;
  }

  lemma PlusZero(x: Long)
    ensures Plus(x, 0) == x
  {
  }

  lemma LatchKeeps(m: Machine, m1: Machine)
    requires m1 == m.(fault := m1.fault)
    ensures StepKeeps(m, m1, 0)
  {
  }

  predicate ControlMode(mode: int, reg: int) {
    mode == 2 || mode == 5 || mode == 6 || (mode == 7 && reg <= 3)
  }

  /** The control-flow table: LEA and PEA share one profile, JMP and JSR the other. */
  function ControlEaCycles(mode: int, reg: int, isJmp: bool): (cycles: nat)
    ensures ControlMode(mode, reg) && 0 <= reg ==> cycles >= (if isJmp then 8 else 4)
  {
    match mode
    case 2 => if isJmp then 8 else 4
    case 5 => if isJmp then 10 else 8
    case 6 => if isJmp then 14 else 12
    case 7 =>
      (match reg
       case 0 => if isJmp then 10 else 8
       case 1 => if isJmp then 12 else 12
       case 2 => if isJmp then 10 else 8
       case 3 => if isJmp then 14 else 12
       case _ => 0)
    case _ => 0
  }

  predicate ValidUnlessAbort(mode: int, reg: int, completed: bool) {
    completed ==> ValidMode(mode, reg)
  }

  lemma ChargeKeeps(m: Machine, cycles: int)
    ensures StepKeeps(m, Charged(m, cycles), cycles)
  {
  }

  lemma PcKeeps(m: Machine, pc: Long)
    ensures StepKeeps(m, m.(pc := pc), 0)
  {
  }

  lemma RegisterKeeps(m: Machine, i: int, x: Long)
    requires 0 <= i < 8
    ensures StepKeeps(m, m.(a := SetRegister(m.a, i, x)), 0) && StepKeeps(m, m.(d := SetRegister(m.d, i, x)), 0)
  {
  }

  lemma CcrKeeps(m: Machine, sr: bv16)
    ensures sr & 0xFFE0 == m.sr & 0xFFE0 ==> StepKeeps(m, m.(sr := sr), 0)
  {
    assert sr & 0xFFE0 == m.sr & 0xFFE0 ==> FlagS(sr) == FlagS(m.sr) && (Clean(m.sr) ==> Clean(sr));
    hide FlagS, Clean;
  }

  lemma SetSrKeeps(m: Machine, sr: bv16)
    requires FlagS(sr & 0xA71F) ==> FlagS(m.sr)
    ensures StepKeeps(m, SetSr(m, sr), 0)
  {
    SetSrClean(m, sr);
    hide FlagS, Clean;
  }

  lemma SetSrPc(m: Machine, sr: bv16, pc: Long)
    ensures SetSr(m, sr).(pc := pc) == SetSr(m.(pc := pc), sr)
    ensures SetSr(m, sr).nesting == m.nesting
  {
  }

  lemma SetTwice(r: Registers, i: int, x: Long, y: Long)
    requires 0 <= i < 8
    ensures SetRegister(SetRegister(r, i, x), i, y) == SetRegister(r, i, y)
  {
  }

  lemma SetSrClean(m: Machine, sr: bv16)
    ensures SetSr(m, sr).sr == sr & 0xA71F && Clean(SetSr(m, sr).sr)
  {
  }

  lemma StepKeepsLess(m: Machine, m': Machine, more: int, less: int)
    requires less <= more
    ensures StepKeeps(m, m', more) ==> StepKeeps(m, m', less)
  {
  }

  lemma ResolvedAroundCharge(m: Machine, before: int, mode: int, reg: int, size: Size, fetched: bool, ea: Ea,
                             m': Machine, after: int)
    requires 0 <= reg < 8
    ensures EaResolved(Charged(m, before), mode, reg, size, fetched, ea, m')
            ==> EaResolved(m, mode, reg, size, fetched, ea, Charged(m', after))
  {
  }

  lemma StopKeeps(m: Machine)
    ensures StepKeeps(m, m.(lines := m.lines.(stopped := true)), 0)
  {
  }

  lemma SetSrLines(m: Machine, sr: bv16, lines: Lines)
    ensures SetSr(m, sr).(lines := lines) == SetSr(m.(lines := lines), sr)
    ensures SetSr(m, sr).nesting == m.nesting && SetSr(m, sr).lines == m.lines
  {
  }

  /** Replacing the low five bits and clearing the byte above them keeps the system byte. */
  lemma LowByteKeeps(m: Machine, ccr: bv16)
    ensures StepKeeps(m, m.(sr := WithCcr(m.sr, ccr)), 0)
  {
    var sr := WithCcr(m.sr, ccr);
    assert FlagS(sr) == FlagS(m.sr) && (Clean(m.sr) ==> Clean(sr));
    hide FlagS, Clean;
  }

  lemma NzvcKeeps(m: Machine, n: bool, z: bool, v: bool, c: bool)
    ensures StepKeeps(m, m.(sr := WithNZVC(m.sr, n, z, v, c)), 0)
  {
    CcrWritten(m.sr, n, z, v, c);
    CcrKeeps(m, WithNZVC(m.sr, n, z, v, c));
  }

  lemma CcrWritten(sr: bv16, n: bool, z: bool, v: bool, c: bool)
    ensures WithNZVC(sr, n, z, v, c) & 0xFFE0 == sr & 0xFFE0
  {
  }

  /** The parts of a completed resolution that do not depend on the mode. */
  lemma ResolvedRest(m: Machine, mode: int, reg: int, size: Size, fetched: bool, ea: Ea, m': Machine)
    requires 0 <= reg < 8
    ensures EaResolved(m, mode, reg, size, fetched, ea, m') ==>
      && Quiet(m, m') && m'.d == m.d && m'.sr == m.sr && m'.nesting == m.nesting && m'.history == m.history
      && m'.mem == m.mem && m'.usp == m.usp && m'.ssp == m.ssp
      && m'.a == EaRegisters(m, mode, reg, size) && ea.isReg == !MemoryMode(mode, reg) && ea.isAddr == (mode == 1)
      && (MemoryMode(mode, reg) ==> ea.address == EaAddress(m, mode, reg, size))
      && (fetched && 0 <= mode < 8 && ValidMode(mode, reg) ==> ea.value == OperandValue(m, mode, reg, size))
  {
  }

  // ------------------------------------------------ the two stack pointers

  /** Writing the status register moves the stack pointers, but neither is ever lost. */
  lemma SetSrConserves(m: Machine, sr: bv16)
    ensures UserSp(SetSr(m, sr)) == UserSp(m) && SupervisorSp(SetSr(m, sr)) == SupervisorSp(m)
  {
  }

  function SetSrAll(m: Machine, values: seq<bv16>): Machine
    decreases |values|
  {
    if values == [] then m else SetSrAll(SetSr(m, values[0]), values[1..])
  }

  /** Any sequence of writes to the status register conserves the pair of stack pointers. */
  lemma {:induction false} SetSrAllConserves(m: Machine, values: seq<bv16>)
    ensures UserSp(SetSrAll(m, values)) == UserSp(m) && SupervisorSp(SetSrAll(m, values)) == SupervisorSp(m)
    ensures values != [] ==> SetSrAll(m, values).sr == values[|values| - 1] & 0xA71F
    decreases |values|
  {
    hide UserSp, SupervisorSp;
    if values != [] {
      SetSrConserves(m, values[0]);
      SetSrAllConserves(SetSr(m, values[0]), values[1..]);
      SetSrClean(m, values[0]);
      if |values| > 1 {
        assert values[1..][|values| - 2] == values[|values| - 1];
      }
      hide SetSr;
    }
  }
}
