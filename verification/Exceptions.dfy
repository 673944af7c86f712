/**
 Exception return, and whole well-nested runs of exceptions and returns.
 */
module Exceptions {
  import opened Words
  import opened StatusRegister
  import opened MachineState

  /** Bytes of a frame that RTE can return from. */
  function FrameSize(model: Model): nat {
    if model == M68010 then 8 else 6
  }

  /** RTE meets no fault, no privilege violation and no format error. */
  predicate Returnable(m: Machine) {
    && FlagS(m.sr) && m.a[7] % 2 == 0 && InMemory(m, m.a[7], FrameSize(m.control.model))
    && (m.control.model == M68010 ==> Get16(m.mem, Mask24(m.a[7]) + 6) < 0x1000)
  }

  /** RTE in one piece. */
  function Return(m: Machine): Machine
    requires Returnable(m)
  {
    var at := Mask24(m.a[7]);
    SetSr(m.(a := SetRegister(m.a, 7, Plus(m.a[7], FrameSize(m.control.model))), pc := Get32(m.mem, at + 2)),
          WordSr(Get16(m.mem, at)))
  }

  /** The bus reads RTE makes of a frame that lies in memory. */
  lemma FrameReads(m: Machine)
    requires m.a[7] % 2 == 0 && InMemory(m, m.a[7], FrameSize(m.control.model))
    ensures var sp, at := m.a[7], Mask24(m.a[7]);
            && FaultVector(m, sp, WordSize).None? && BusValue(m, sp, WordSize) == Get16(m.mem, at)
            && FaultVector(m, Plus(sp, 2), LongSize).None? && BusValue(m, Plus(sp, 2), LongSize) == Get32(m.mem, at + 2)
            && (m.control.model == M68010 ==>
                  FaultVector(m, Plus(sp, 6), WordSize).None?
                    && BusValue(m, Plus(sp, 6), WordSize) == Get16(m.mem, at + 6))
  {
    BusOffset(m.a[7], 2);
    if m.control.model == M68010 {
      BusOffset(m.a[7], 6);
    }
    hide Plus, Mask24, Get16, Get32;
  }

  lemma FrameContents(m: Machine, vector: int, mem: seq<Byte>, at: nat)
    requires 0 <= vector < 256 && !Group0(vector)
    requires at + |Frame(m, vector)| <= |mem| && mem[at..at + |Frame(m, vector)|] == Frame(m, vector)
    ensures |Frame(m, vector)| == FrameSize(m.control.model)
    ensures Get16(mem, at) == SrWord(m.sr) && Get32(mem, at + 2) == StackedPc(m, vector)
    ensures m.control.model == M68010 ==> Get16(mem, at + 6) == vector * 4
  {
    hide Be16, Be32, SrWord, Get16, Get32, StackedPc;
    var f := Frame(m, vector);
    assert f == Be16(SrWord(m.sr)) + Be32(StackedPc(m, vector))
                + (if m.control.model == M68010 then Be16(vector * 4) else []);
    assert forall i :: 0 <= i < |f| ==> mem[at + i] == f[i];
    Be16Read(mem, at, SrWord(m.sr));
    Be32Read(mem, at + 2, StackedPc(m, vector));
    if m.control.model == M68010 {
      Be16Read(mem, at + 6, vector * 4);
    }
  }

  lemma Be16Read(mem: seq<Byte>, at: nat, w: Word)
    requires at + 2 <= |mem| && mem[at] == Be16(w)[0] && mem[at + 1] == Be16(w)[1]
    ensures Get16(mem, at) == w
  {
  }

  lemma Be32Read(mem: seq<Byte>, at: nat, x: Long)
    requires at + 4 <= |mem| && forall i :: 0 <= i < 4 ==> mem[at + i] == Be32(x)[i]
    ensures Get32(mem, at) == x
  {
    FourBytes(x);
    assert mem[at + 0] == Be32(x)[0] && mem[at + 1] == Be32(x)[1] && mem[at + 2] == Be32(x)[2]
           && mem[at + 3] == Be32(x)[3];
    hide Be32;
  }

  lemma CleanRoundTrip(sr: bv16)
    requires Clean(sr)
    ensures WordSr(SrWord(sr)) & 0xA71F == sr
  {
    SrRoundTrip(sr);
  }

  lemma SetSrFromSupervisor(h: Machine, w: bv16)
    requires FlagS(h.sr)
    ensures var sr := w & 0xA71F;
            SetSr(h, w) == h.(sr := sr, ssp := if FlagS(sr) then h.ssp else h.a[7],
                              a := if FlagS(sr) then h.a else SetRegister(h.a, 7, h.usp))
  {
  }

  /** What a handler has to leave alone for its RTE to find the frame. */
  predicate HandlerKeeps(m: Machine, vector: int, h: Machine) {
    && FlagS(h.sr) && h.a[7] == FrameBase(m, vector) && h.usp == UserSp(m)
    && h.control.model == m.control.model && |h.mem| == |m.mem|
    && Mask24(h.a[7]) + |Frame(m, vector)| <= |m.mem|
    && h.mem[Mask24(h.a[7])..Mask24(h.a[7]) + |Frame(m, vector)|] == Frame(m, vector)
  }

  lemma HandlerFacts(m: Machine, vector: int, h: Machine)
    ensures HandlerKeeps(m, vector, h) ==> FlagS(h.sr) && h.usp == UserSp(m)
  {
    hide Frame, Mask24;
  }

  lemma RaiseKeeps(m: Machine, vector: int)
    requires Stackable(m, vector)
    ensures HandlerKeeps(m, vector, Raise(m, vector))
  {
    var h := Raise(m, vector);
    assert FlagS((m.sr | 0x2000) & 0x271F);
    var at := Mask24(h.a[7]);
    assert h.mem[at..at + |Frame(m, vector)|] == Frame(m, vector);
  }

  lemma ReturnFromFrame(m: Machine, vector: int, h: Machine)
    requires 0 <= vector < 256 && !Group0(vector) && Clean(m.sr) && Stackable(m, vector)
    requires HandlerKeeps(m, vector, h)
    ensures Returnable(h)
    ensures Return(h) == SetSr(h.(a := SetRegister(h.a, 7, SupervisorSp(m)), pc := StackedPc(m, vector)),
                               WordSr(SrWord(m.sr)))
  {
    hide Frame, Clean, SrWord, WordSr, Get16, Get32, StackedPc, Mask24, Plus, Minus, SetSr, SupervisorSp, UserSp;
    FrameContents(m, vector, h.mem, Mask24(h.a[7]));
    StackBase(SupervisorSp(m), |Frame(m, vector)|);
  }

  /**
   Exception entry followed by any handler that keeps its frame, then RTE, restores the
   status register, both stack pointers and the stacked PC; the 68010's format word is
   always acceptable.
   */
  lemma ReturnUndoesRaise(m: Machine, vector: int, h: Machine)
    requires 0 <= vector < 256 && !Group0(vector) && Clean(m.sr) && Stackable(m, vector)
    requires HandlerKeeps(m, vector, h)
    ensures Returnable(h)
    ensures var r := Return(h);
            && UserSp(r) == UserSp(m) && SupervisorSp(r) == SupervisorSp(m)
            && r == h.(sr := m.sr, pc := StackedPc(m, vector), a := SetRegister(h.a, 7, m.a[7]),
                       ssp := if FlagS(m.sr) then h.ssp else SupervisorSp(m))
  {
    hide Frame, Clean, SrWord, WordSr, Get16, Get32, StackedPc, Mask24, Plus, Minus, SetSr, Returnable, Return,
         Stackable, HandlerKeeps;
    HandlerFacts(m, vector, h);
    ReturnFromFrame(m, vector, h);
    CleanRoundTrip(m.sr);
    SetSrFromSupervisor(h.(a := SetRegister(h.a, 7, SupervisorSp(m)), pc := StackedPc(m, vector)),
                        WordSr(SrWord(m.sr)));
  }

  // -------------------------------------------------------- well-nested runs

  /** A well-nested run: exceptions, each with its own nested run before its RTE. */
  datatype Nest = Idle | Take(vector: int, body: Nest, next: Nest)

  /** The bytes of the deepest chain of frames that are on the stack together. */
  function Room(n: Nest, frame: nat): nat
    decreases n
  {
    match n case Idle => 0 case Take(_, body, next) => Max(frame + Room(body, frame), Room(next, frame))
  }

  predicate Vectors(n: Nest)
    decreases n
  {
    match n case Idle => true
    case Take(v, body, next) => 0 <= v < 256 && !Group0(v) && Vectors(body) && Vectors(next)
  }

  /** The run, or None when any step of it would fault. */
  function Run(m: Machine, n: Nest): Option<Machine>
    decreases n
  {
    match n
    case Idle => Some(m)
    case Take(v, body, next) =>
      if !Stackable(m, v) then None
      else match Run(Raise(m, v), body)
           case None => None
           case Some(h) => if Returnable(h) then Run(Return(h), next) else None
  }

  /** Where the program goes on: the PC the last outermost exception stacked. */
  function ResumePc(m: Machine, pc: Long, n: Nest): Long
    decreases n
  {
    match n
    case Idle => pc
    case Take(v, _, next) => ResumePc(m, if StacksPpc(v) then m.ppc else pc, next)
  }

  /** The supervisor stack has k bytes of memory below it, starting at an even base. */
  predicate StackRoom(m: Machine, base: Long, k: nat) {
    base % 2 == 0 && k % 2 == 0 && SupervisorSp(m) == Plus(base, k) && InMemory(m, base, k)
  }

  predicate TableMapped(m: Machine) {
    m.control.vbr % 2 == 0 && forall v :: 0 <= v < 256 ==> Mapped(m, VectorAddress(m, v), LongSize)
  }

  /** What a well-nested run leaves: everything but the PC and the memory of its frames. */
  predicate Restored(m: Machine, m': Machine, pc: Long, low: int, high: int) {
    && m'.sr == m.sr && UserSp(m') == UserSp(m) && SupervisorSp(m') == SupervisorSp(m)
    && m'.d == m.d && m'.a == m.a && m'.ppc == m.ppc && m'.control == m.control && m'.lines == m.lines
    && m'.pc == pc && SameOutside(m.mem, m'.mem, low, high)
  }

  lemma EvenSum(base: Long, k: nat)
    requires base % 2 == 0 && k % 2 == 0
    ensures Plus(base, k) % 2 == 0
  {
    assert (base + k) % 2 == 0;
  }

  lemma RoomForFrame(m: Machine, vector: int, base: Long, k: nat)
    requires 0 <= vector < 256 && !Group0(vector) && TableMapped(m) && StackRoom(m, base, k)
    requires FrameSize(m.control.model) <= k
    ensures |Frame(m, vector)| == FrameSize(m.control.model)
    ensures Stackable(m, vector)
    ensures FrameBase(m, vector) == Plus(base, k - FrameSize(m.control.model))
    ensures Mask24(FrameBase(m, vector)) == Mask24(base) + (k - FrameSize(m.control.model))
  {
    var size := FrameSize(m.control.model);
    PushAddress(base, k, size, k);
    EvenSum(base, k);
    hide Plus, Minus, Mask24, SrWord, StackedPc, SupervisorSp, Be16, Be32;
    assert |Frame(m, vector)| == size;
    assert FrameBase(m, vector) == Minus(Plus(base, k), size);
  }

  lemma TableSame(m: Machine, m': Machine)
    requires TableMapped(m) && m'.control == m.control && |m'.mem| == |m.mem|
    ensures TableMapped(m')
  {
    hide Plus, Mask24;
    forall v | 0 <= v < 256 ensures Mapped(m', VectorAddress(m', v), LongSize) {
      assert Mapped(m, VectorAddress(m, v), LongSize);
    }
  }

  lemma RaisedRegisters(m: Machine, vector: int)
    requires Stackable(m, vector)
    ensures var e := Raise(m, vector);
            && Clean(e.sr) && FlagS(e.sr) && e.usp == UserSp(m) && SupervisorSp(e) == FrameBase(m, vector)
            && e.a == SetRegister(m.a, 7, FrameBase(m, vector))
            && e.d == m.d && e.ppc == m.ppc && e.control == m.control && e.lines == m.lines
            && |e.mem| == |m.mem|
  {
    EnteredSr(m, vector);
    hide Plus, Minus, Mask24, Frame, Get32, UserSp, FrameBase, Stackable, Splice;
  }

  lemma RaisedMemory(m: Machine, vector: int)
    requires Stackable(m, vector)
    ensures var at := Mask24(FrameBase(m, vector));
            SameOutside(m.mem, Raise(m, vector).mem, at, at + |Frame(m, vector)|)
  {
    hide Plus, Minus, Mask24, Frame, Get32, UserSp, FrameBase;
  }

  /** Inside the handler the same room is there, less one frame. */
  lemma RaisedRoom(m: Machine, vector: int, base: Long, k: nat)
    requires 0 <= vector < 256 && !Group0(vector) && TableMapped(m) && StackRoom(m, base, k)
    requires FrameSize(m.control.model) <= k
    ensures Stackable(m, vector)
    ensures var e := Raise(m, vector);
            && Clean(e.sr) && TableMapped(e) && StackRoom(e, base, k - FrameSize(m.control.model))
            && e.control == m.control && e.ppc == m.ppc
  {
    hide Plus, Minus, Mask24, Frame, FlagS, Clean, UserSp, SupervisorSp, FrameBase, TableMapped, Stackable, Raise,
         SetRegister, StackRoom;
    RoomForFrame(m, vector, base, k);
    RaisedRegisters(m, vector);
    TableSame(m, Raise(m, vector));
    LessRoom(m, Raise(m, vector), base, k, FrameSize(m.control.model));
  }

  lemma LessRoom(m: Machine, e: Machine, base: Long, k: nat, size: nat)
    requires size <= k && size % 2 == 0 && StackRoom(m, base, k)
    requires SupervisorSp(e) == Plus(base, k - size) && |e.mem| == |m.mem|
    ensures StackRoom(e, base, k - size)
  {
  }

  /** A nested run inside the handler leaves the handler's own frame for its RTE. */
  lemma NestedKeepsFrame(m: Machine, vector: int, base: Long, k: nat, h: Machine, pc: Long, low: int)
    requires 0 <= vector < 256 && !Group0(vector) && TableMapped(m) && StackRoom(m, base, k)
    requires FrameSize(m.control.model) <= k && Stackable(m, vector)
    requires Restored(Raise(m, vector), h, pc, low, Mask24(base) + k - FrameSize(m.control.model))
    ensures HandlerKeeps(m, vector, h)
  {
    hide Plus, Minus, Mask24, SrWord, StackedPc, FrameBytes, FrameBase, Raise, Stackable;
    RoomForFrame(m, vector, base, k);
    RaisedRegisters(m, vector);
    RaiseKeeps(m, vector);
    var e := Raise(m, vector);
    var at, size := Mask24(e.a[7]), |Frame(m, vector)|;
    assert h.mem[at..at + size] == e.mem[at..at + size];
  }

  lemma TakeRestores(m: Machine, vector: int, base: Long, k: nat, h: Machine, pc: Long, low: int)
    requires 0 <= vector < 256 && !Group0(vector) && TableMapped(m) && StackRoom(m, base, k) && Clean(m.sr)
    requires FrameSize(m.control.model) <= k && Stackable(m, vector)
    requires low <= Mask24(base) + k - FrameSize(m.control.model)
    requires Restored(Raise(m, vector), h, pc, low, Mask24(base) + k - FrameSize(m.control.model))
    ensures Returnable(h) && Restored(m, Return(h), StackedPc(m, vector), low, Mask24(base) + k)
  {
    hide Plus, Minus, Mask24, SrWord, StackedPc, FrameBytes, FrameBase, Raise, Return, Stackable, Clean, HandlerKeeps,
         Returnable, TableMapped;
    RoomForFrame(m, vector, base, k);
    RaisedRegisters(m, vector);
    RaisedMemory(m, vector);
    NestedKeepsFrame(m, vector, base, k, h, pc, low);
    ReturnUndoesRaise(m, vector, h);
  }

  lemma RestoredTwice(m: Machine, r: Machine, m': Machine, pc: Long, pc': Long, low: int, mid: int, high: int)
    ensures Restored(m, r, pc, low, high) && Restored(r, m', pc', mid, high) ==>
      Restored(m, m', pc', Min(low, mid), high)
  {
  }

  lemma ResumeSame(m: Machine, r: Machine, pc: Long, n: Nest)
    requires r.ppc == m.ppc
    ensures ResumePc(r, pc, n) == ResumePc(m, pc, n)
    decreases n
  {
  }

  lemma RoomSame(m: Machine, r: Machine, pc: Long, base: Long, k: nat, low: int)
    ensures StackRoom(m, base, k) && TableMapped(m) && Restored(m, r, pc, low, Mask24(base) + k) ==>
      && StackRoom(r, base, k) && TableMapped(r)
      && r.control == m.control && r.sr == m.sr && r.pc == pc && r.ppc == m.ppc
  {
    hide Plus, Mask24, UserSp, SupervisorSp;
    if TableMapped(m) && r.control == m.control && |r.mem| == |m.mem| {
      TableSame(m, r);
    }
  }

  /** The run meets no fault and restores everything but the memory of its frames. */
  predicate RunRestores(m: Machine, base: Long, k: nat, n: Nest) {
    && Run(m, n).Some?
    && Restored(m, Run(m, n).value, ResumePc(m, m.pc, n),
                Mask24(base) + k - Room(n, FrameSize(m.control.model)), Mask24(base) + k)
  }

  lemma ReturnedRoom(m: Machine, vector: int, base: Long, k: nat, body: Nest)
    requires 0 <= vector < 256 && !Group0(vector) && TableMapped(m) && StackRoom(m, base, k) && Clean(m.sr)
    requires Stackable(m, vector) && Raise(m, vector).control == m.control
    requires FrameSize(m.control.model) + Room(body, FrameSize(m.control.model)) <= k
    ensures RunRestores(Raise(m, vector), base, k - FrameSize(m.control.model), body) ==>
      var h := Run(Raise(m, vector), body).value;
      && Returnable(h)
      && var r := Return(h);
         && StackRoom(r, base, k) && TableMapped(r) && Clean(r.sr)
         && r.control == m.control && r.ppc == m.ppc && r.pc == StackedPc(m, vector)
         && Restored(m, r, StackedPc(m, vector),
                     Mask24(base) + k - FrameSize(m.control.model) - Room(body, FrameSize(m.control.model)),
                     Mask24(base) + k)
  {
    hide Restored, StackRoom, TableMapped, Plus, Mask24, Raise, Return, Stackable, Returnable, Clean, StackedPc,
         FrameSize;
    var size, top, e := FrameSize(m.control.model), Mask24(base) + k, Raise(m, vector);
    if RunRestores(e, base, k - size, body) {
      var h, low := Run(e, body).value, top - size - Room(body, size);
      TakeRestores(m, vector, base, k, h, ResumePc(e, e.pc, body), low);
      RoomSame(m, Return(h), StackedPc(m, vector), base, k, low);
    }
  }

  lemma TakeThenNext(m: Machine, r: Machine, vector: int, base: Long, k: nat, body: Nest, next: Nest)
    requires !Group0(vector) && r.control == m.control && r.ppc == m.ppc && r.pc == StackedPc(m, vector)
    ensures RunRestores(r, base, k, next)
            && Restored(m, r, StackedPc(m, vector),
                        Mask24(base) + k - FrameSize(m.control.model) - Room(body, FrameSize(m.control.model)),
                        Mask24(base) + k)
            && Run(m, Take(vector, body, next)) == Run(r, next) ==>
      RunRestores(m, base, k, Take(vector, body, next))
  {
    hide Restored, Mask24, StackedPc, FrameSize, StacksPpc, Group0, Room, ResumePc, Run, Min;
    var size, top, pc := FrameSize(m.control.model), Mask24(base) + k, StackedPc(m, vector);
    var low, mid := top - size - Room(body, size), top - Room(next, size);
    if RunRestores(r, base, k, next) {
      TakeBounds(m, vector, body, next, size, top);
      ResumeSame(m, r, pc, next);
      RestoredTwice(m, r, Run(r, next).value, pc, ResumePc(m, pc, next), low, mid, top);
    }
  }

  lemma TakeBounds(m: Machine, vector: int, body: Nest, next: Nest, size: nat, top: int)
    requires !Group0(vector)
    ensures Min(top - size - Room(body, size), top - Room(next, size)) == top - Room(Take(vector, body, next), size)
    ensures ResumePc(m, StackedPc(m, vector), next) == ResumePc(m, m.pc, Take(vector, body, next))
  {
  }

  /**
   Every well-nested run of exceptions and returns, whatever its shape and depth, runs
   without a fault given room for its deepest chain of frames, and restores everything
   but the memory of those frames.
   */
  lemma {:induction false} NestRestores(m: Machine, base: Long, k: nat, n: Nest)
    requires Vectors(n) && Clean(m.sr) && TableMapped(m) && StackRoom(m, base, k)
    requires Room(n, FrameSize(m.control.model)) <= k
    ensures RunRestores(m, base, k, n)
    decreases n
  {
    hide Restored, StackRoom, TableMapped, Plus, Mask24, Raise, Return, Stackable, Returnable, Clean, StackedPc,
         FrameSize, Run, RunRestores, ResumePc, SupervisorSp, UserSp;
    match n
    case Idle => IdleRestores(m, base, k);
    case Take(v, body, next) =>
      var size := FrameSize(m.control.model);
      RaisedRoom(m, v, base, k);
      NestRestores(Raise(m, v), base, k - size, body);
      ReturnedRoom(m, v, base, k, body);
      RanWell(Raise(m, v), base, k - size, body);
      var r := Return(Run(Raise(m, v), body).value);
      NestRestores(r, base, k, next);
      TakeRuns(m, v, body, next);
      TakeThenNext(m, r, v, base, k, body, next);
  }

  lemma IdleRestores(m: Machine, base: Long, k: nat)
    ensures RunRestores(m, base, k, Idle)
  {
    hide Mask24, UserSp, SupervisorSp;
  }

  lemma RanWell(m: Machine, base: Long, k: nat, n: Nest)
    ensures RunRestores(m, base, k, n) ==> Run(m, n).Some?
  {
    hide Run;
  }

  lemma TakeRuns(m: Machine, v: int, body: Nest, next: Nest)
    requires Stackable(m, v) && Run(Raise(m, v), body).Some? && Returnable(Run(Raise(m, v), body).value)
    ensures Run(m, Take(v, body, next)) == Run(Return(Run(Raise(m, v), body).value), next)
  {
    hide Stackable, Returnable, Raise, Return;
  }

  // --------------------------------------------------------- precise faults

  /** The supervisor stack and the vector table can take a group-0 exception. */
  predicate FaultRoom(w: Machine, vector: int) {
    && SupervisorSp(w) % 2 == 0 && InMemory(w, Minus(SupervisorSp(w), 14), 14)
    && w.control.vbr % 2 == 0 && (w.control.vbr + 4 * vector) % 0x100_0000 + 4 <= |w.mem|
  }

  /** What the 14 bytes of a group-0 frame show of the access that faulted in state w. */
  predicate FrameShows(w: Machine, address: Long, isWrite: bool, isProgram: bool, mem: seq<Byte>, at: nat)
    requires at + 14 <= |mem|
  {
    && StatusShown(Get16(mem, at), BusWord(w), isWrite, FlagS(w.sr), isProgram || w.fault.programSpace)
    && Get32(mem, at + 2) == address && Get16(mem, at + 6) == BusWord(w) && Get16(mem, at + 8) == SrWord(w.sr)
    && Get32(mem, at + 10) == (if w.fault.pcValid then w.fault.pc else w.pc)
  }

  /**
   The handler of a fault whose frame starts at the given index: the PC is the table's long
   word at four times the vector, the one of before the fault when the frame is clear of it.
   */
  predicate Handled(w: Machine, vector: int, frame: nat, m': Machine) {
    var at := (w.control.vbr + 4 * vector) % 0x100_0000;
    && FromTable(w.control, vector, m'.mem, m'.pc)
    && (at + 4 <= frame || frame + 14 <= at ==> FromTable(w.control, vector, w.mem, m'.pc))
  }

  lemma HandlerTaken(w: Machine, vector: int, frame: nat, m': Machine)
    requires Mask24(VectorAddress(w, vector)) + 4 <= |m'.mem|
    requires m'.pc == Get32(m'.mem, Mask24(VectorAddress(w, vector)))
    requires SameOutside(w.mem, m'.mem, frame, frame + 14)
    ensures Handled(w, vector, frame, m')
  {
    hide Get32, Number, Mask24, Plus;
    BusIndex(w.control.vbr, vector * 4);
    var at := Mask24(VectorAddress(w, vector));
    OperandNumber(m'.mem, at, LongSize);
    if at + 4 <= frame || frame + 14 <= at {
      assert m'.mem[at..at + 4] == w.mem[at..at + 4];
    }
  }

  lemma HandledSame(m: Machine, w: Machine, vector: int, frame: nat, m': Machine)
    requires w.mem == m.mem && w.control == m.control
    ensures Handled(w, vector, frame, m') == Handled(m, vector, frame, m')
  {
  }

  /**
   A precise fault: memory changes in the 14 bytes of the frame alone, the registers are
   those of the faulting access but for the stack pointer, no cycle is charged, and the PC
   is the vector's.
   */
  predicate Precise(w: Machine, vector: int, address: Long, isWrite: bool, isProgram: bool, m': Machine) {
    var base := Minus(SupervisorSp(w), 14);
    var at := Mask24(base);
    && at + 14 <= |w.mem| && SameOutside(w.mem, m'.mem, at, at + 14)
    && FrameShows(w, address, isWrite, isProgram, m'.mem, at)
    && m'.d == w.d && m'.a == SetRegister(w.a, 7, base) && m'.usp == UserSp(w) && m'.sr == (w.sr | 0x2000) & 0x271F
    && m'.slice == w.slice && m'.lines == w.lines && m'.history.raised == w.history.raised + [vector]
    && Handled(w, vector, at, m')
  }

  lemma FaultFrame(w: Machine, vector: int, address: Long, isWrite: bool, isProgram: bool, mem: seq<Byte>, at: nat)
    requires Group0(vector)
    requires var g := Guarded(w, vector, address, isWrite, isProgram);
             |Frame(g, vector)| == 14 && at + 14 <= |mem| && mem[at..at + 14] == Frame(g, vector)
    ensures FrameShows(w, address, isWrite, isProgram, mem, at)
  {
    hide Be16, Be32, SrWord, Get16, Get32, StatusWord, AccessCode, BusWord, FlagS, StatusShown;
    var f := Frame(Guarded(w, vector, address, isWrite, isProgram), vector);
    assert forall i :: 0 <= i < 14 ==> mem[at + i] == f[i];
    var pc := if w.fault.pcValid then w.fault.pc else w.pc;
    var ssw := StatusWord(BusWord(w), isWrite, AccessCode(FlagS(w.sr), isProgram || w.fault.programSpace));
    assert f == Be16(ssw) + Be32(address) + Be16(BusWord(w)) + Be16(SrWord(w.sr)) + Be32(pc);
    assert forall i :: 0 <= i < 2 ==>
           f[i] == Be16(ssw)[i] && f[6 + i] == Be16(BusWord(w))[i] && f[8 + i] == Be16(SrWord(w.sr))[i];
    assert forall i :: 0 <= i < 4 ==> f[2 + i] == Be32(address)[i] && f[10 + i] == Be32(pc)[i];
    Be16Read(mem, at, ssw);
    Be32Read(mem, at + 2, address);
    Be16Read(mem, at + 6, BusWord(w));
    Be16Read(mem, at + 8, SrWord(w.sr));
    Be32Read(mem, at + 10, pc);
    StatusWordShown(BusWord(w), isWrite, FlagS(w.sr), isProgram || w.fault.programSpace);
  }

  lemma RoomIsStackable(w: Machine, vector: int, address: Long, isWrite: bool, isProgram: bool)
    requires Group0(vector) && FaultRoom(w, vector)
    ensures var g := Guarded(w, vector, address, isWrite, isProgram);
            |Frame(g, vector)| == 14 && Stackable(g, vector) && FrameBase(g, vector) == Minus(SupervisorSp(w), 14)
  {
    EntryPlaces(w, vector);
    hide Minus, Plus, Mask24, Be16, Be32, StatusWord, AccessCode, SrWord, FlagS, BusWord;
  }

  /** Every access fault is precise when its own exception entry has room. */
  lemma FaultIsPrecise(w: Machine, vector: int, address: Long, isWrite: bool, isProgram: bool, m': Machine)
    requires Group0(vector) && FaultRoom(w, vector)
    ensures AfterFault(w, vector, address, isWrite, isProgram, m') ==>
      Precise(w, vector, address, isWrite, isProgram, m')
  {
    hide Minus, Plus, Mask24, Be16, Be32, Get16, Get32, StatusWord, AccessCode, SrWord, FlagS, UserSp, SupervisorSp,
         FrameBytes, FrameShows, BusKeeps, BusWord, VectorLoaded, Handled;
    RoomIsStackable(w, vector, address, isWrite, isProgram);
    var g := Guarded(w, vector, address, isWrite, isProgram);
    var base, frame := FrameBase(g, vector), Frame(g, vector);
    var at := Mask24(base);
    var mem := Splice(w.mem, at, frame);
    assert mem[at..at + 14] == frame;
    FaultFrame(w, vector, address, isWrite, isProgram, mem, at);
    GuardedStacks(w, vector, address, isWrite, isProgram);
    HandlerTaken(w, vector, at, Faulted(w, vector, address, isWrite, isProgram));
    hide Frame, Stackable, Splice;
  }

  lemma GuardedStacks(w: Machine, vector: int, address: Long, isWrite: bool, isProgram: bool)
    ensures UserSp(Guarded(w, vector, address, isWrite, isProgram)) == UserSp(w)
    ensures SupervisorSp(Guarded(w, vector, address, isWrite, isProgram)) == SupervisorSp(w)
  {
    hide FlagS, StatusWord, AccessCode;
  }

  // ----------------------------------------------------- a faulted operand

  /** The state in which an operand that is resolved, charged for and read can fault. */
  function ReadEntry(m: Machine, mode: int, reg: int, size: Size): Machine
    requires 0 <= reg < 8
  {
    OperandAccess(EaLatched(Charged(m, EaShare(mode, reg, size)), mode, reg, size), mode, reg, size)
  }

  /** How far past the opcode's PC the one is that a faulted operand stacks. */
  function ShownPc(mode: int, reg: int, size: Size): int {
    if mode == 7 && reg == 1 then 4
    else if (mode == 7 && reg == 0) || (mode == 4 && size != LongSize) then 2
    else 0
  }

  lemma LatchedPc(m: Machine, mode: int, reg: int, size: Size)
    requires 0 <= mode < 8 && 0 <= reg < 8 && MemoryMode(mode, reg)
    ensures EaFaultPc(m, mode, reg, size) == Some((m.pc + ShownPc(mode, reg, size)) % 0x1_0000_0000)
    ensures EaShare(mode, reg, size) == 4 * ExtensionWords(mode, reg, size) + 4
                                        + (if mode == 4 || mode == 6 || (mode == 7 && reg == 3) then 2 else 0)
  {
    EaCyclesCount(mode, reg, if size == LongSize then WordSize else size);
    hide EaCycles;
  }

  /**
   A faulted operand is precise: memory changes in the frame alone, no data register moves,
   a postincrement of a byte or word and every predecrement are committed but a long
   postincrement is not, the frame shows the operand's address, the space it is read from
   and the PC its mode latches: that after the opcode, and a word or two on for the absolute
   modes and for a short predecrement. A word's cost is spent, whatever the size.
   */
  predicate PreciseOperand(m: Machine, mode: int, reg: int, size: Size, vector: int, m': Machine)
    requires 0 <= reg < 8
  {
    var base := Minus(SupervisorSp(ReadEntry(m, mode, reg, size)), 14);
    var at := Mask24(base);
    && at + 14 <= |m.mem| && SameOutside(m.mem, m'.mem, at, at + 14) && m'.d == m.d
    && m'.a == SetRegister(if mode == 3 && size == LongSize then m.a else EaRegisters(m, mode, reg, size), 7, base)
    && StatusShown(Get16(m'.mem, at), BusWord(m), false, FlagS(m.sr), PcRelative(mode, reg) || m.fault.programSpace)
    && Get32(m'.mem, at + 2) == EaAddress(m, mode, reg, size) && Get16(m'.mem, at + 6) == BusWord(m)
    && Get16(m'.mem, at + 8) == SrWord(m.sr)
    && Get32(m'.mem, at + 10) == (m.pc + ShownPc(mode, reg, size)) % 0x1_0000_0000
    && Handled(m, vector, at, m')
    && m'.slice.remaining == m.slice.remaining - 4 * ExtensionWords(mode, reg, size) - 4
                             - (if mode == 4 || mode == 6 || (mode == 7 && reg == 3) then 2 else 0)
    && m'.history.raised == m.history.raised + [vector]
  }

  lemma OperandFaultIsPrecise(m: Machine, mode: int, reg: int, size: Size, vector: int, m': Machine)
    requires 0 <= mode < 8 && 0 <= reg < 8 && MemoryMode(mode, reg) && Fetchable(m, ExtensionWords(mode, reg, size))
    requires FaultVector(m, EaAddress(m, mode, reg, size), size) == Some(vector)
    requires FaultRoom(ReadEntry(m, mode, reg, size), vector)
    ensures OperandStop(m, mode, reg, size).Some?
    ensures StoppedAt(OperandStop(m, mode, reg, size).value, m') ==> PreciseOperand(m, mode, reg, size, vector, m')
  {
    hide Minus, Plus, Mask24, Get16, Get32, SrWord, UserSp, SupervisorSp, StatusWord, AccessCode, FlagS, EaAddress,
         EaRegisters, AfterFault, EaShare, ExtensionWords, FaultRoom, WordAt, FaultVector, FrameShows, FetchStop,
         ShownPc, EaFaultPc, Handled;
    var w := ReadEntry(m, mode, reg, size);
    var l := EaLatched(Charged(m, EaShare(mode, reg, size)), mode, reg, size);
    EntryShape(m, mode, reg, size);
    LatchedPc(m, mode, reg, size);
    FetchStopNone(l, ExtensionWords(mode, reg, size));
    FetchSame(m, l, ExtensionWords(mode, reg, size));
    FaultSame(m, w, EaAddress(m, mode, reg, size), size);
    FaultNumber(m, EaAddress(m, mode, reg, size), size);
    FaultIsPrecise(w, vector, EaAddress(m, mode, reg, size), false, false, m');
    ShownFrame(w, EaAddress(m, mode, reg, size), m'.mem);
    HandledSame(m, w, vector, Mask24(Minus(SupervisorSp(w), 14)), m');
  }

  lemma EntryShape(m: Machine, mode: int, reg: int, size: Size)
    requires 0 <= mode < 8 && 0 <= reg < 8 && MemoryMode(mode, reg)
    ensures var w := ReadEntry(m, mode, reg, size);
            var l := EaLatched(Charged(m, EaShare(mode, reg, size)), mode, reg, size);
            && EaFaultPc(m, mode, reg, size).Some?
            && w.fault.pcValid && w.fault.pc == EaFaultPc(m, mode, reg, size).value
            && w.fault.programSpace == (m.fault.programSpace || PcRelative(mode, reg)) && BusWord(w) == BusWord(m)
            && w.a == (if mode == 3 && size == LongSize then m.a else EaRegisters(m, mode, reg, size))
            && w.d == m.d && w.mem == m.mem && w.sr == m.sr && w.control == m.control && w.nesting == m.nesting
            && w.history == m.history && w.slice.remaining == m.slice.remaining - EaShare(mode, reg, size)
            && l.mem == m.mem && l.nesting == m.nesting && l.pc == m.pc
               && EaAddress(l, mode, reg, size) == EaAddress(m, mode, reg, size)
  {
    hide Minus, Plus, Mask24, Get16, EaShare, Signed, Extend, AddressStep;
  }

  lemma FetchStopNone(m: Machine, words: int)
    ensures FetchStop(m, words).None? <==> Fetchable(m, words)
  {
    hide Plus, Mask24;
  }

  lemma FetchSame(m: Machine, l: Machine, words: int)
    requires l.mem == m.mem && l.nesting == m.nesting && l.pc == m.pc
    ensures Fetchable(l, words) == Fetchable(m, words)
  {
    hide Plus, Mask24;
  }

  lemma ShownFrame(w: Machine, address: Long, mem: seq<Byte>)
    ensures var at := Mask24(Minus(SupervisorSp(w), 14));
            at + 14 <= |mem| && w.fault.pcValid && FrameShows(w, address, false, false, mem, at) ==>
              && StatusShown(Get16(mem, at), BusWord(w), false, FlagS(w.sr), w.fault.programSpace)
              && Get32(mem, at + 2) == address && Get16(mem, at + 6) == BusWord(w) && Get16(mem, at + 8) == SrWord(w.sr)
              && Get32(mem, at + 10) == w.fault.pc
  {
    hide Minus, Mask24, Get16, Get32, SrWord, SupervisorSp, StatusWord, AccessCode, FlagS, BusWord;
  }
}
