/**
 LINK and UNLK: procedure frames, and what any nesting of them restores.
 */
module OpsLink {
  import opened Words
  import opened MachineState
  import opened Core
  import opened OpsControl
  import opened Exceptions
  import MultiPrecision

  /** LINK once its displacement is known: An is pushed, points at the frame, and A7 moves on. */
  function Linked(m: Machine, reg: int, displacement: int): Machine
    requires 0 <= reg < 8
  {
    var p := Pushed(m, m.a[reg], LongSize);
    var framed := SetRegister(p.a, reg, p.a[7]);
    p.(a := SetRegister(framed, 7, Plus(framed[7], displacement)))
  }

  /** UNLK: A7 is unwound to just above the frame pointer, and An is what the frame saved. */
  function Unlinked(m: Machine, reg: int): Machine
    requires 0 <= reg < 8
  {
    var fp := m.a[reg];
    m.(a := SetRegister(SetRegister(m.a, 7, Plus(fp, 4)), reg, BusValue(m, fp, LongSize)))
  }

  // ------------------------------------------------------------ the handlers

  /** What stops LINK: its displacement, then the push of An. */
  function LinkStop(m: Machine): Option<Stop> {
    First(FetchStop(m, 1), PushStop(m.(pc := Plus(m.pc, 2)), LongSize))
  }

  predicate LinkDone(m: Machine, reg: int, m': Machine)
    requires 0 <= reg < 8
  {
    m' == Linked(m.(pc := Plus(m.pc, 2)), reg, Signed(WordAt(m, m.pc), WordSize))
  }

  lemma LinkedAfterPush(m: Machine, reg: int, displacement: int, framed: Registers)
    requires 0 <= reg < 8
    ensures var p := Pushed(m, m.a[reg], LongSize);
            framed == SetRegister(p.a, reg, p.a[7]) ==>
              Linked(m, reg, displacement) == p.(a := SetRegister(framed, 7, Plus(framed[7], displacement)))
  {
    hide Pushed, Plus;
  }

  method ExecLink(cpu: Cpu, reg: int) returns (r: Outcome<()>)
    requires Executing(cpu.Abs()) && 0 <= reg < 8
    modifies cpu, cpu.memory
    ensures Executing(cpu.Abs()) && StepKeeps(old(cpu.Abs()), cpu.Abs(), 0)
    ensures Ends(LinkStop(old(cpu.Abs())), r.Ok?, cpu.Abs())
    ensures r.Ok? ==> LinkDone(old(cpu.Abs()), reg, cpu.Abs()) && cpu.nesting == old(cpu.nesting)
  {
    hide StepKeeps, StoppedAt, FetchStop, PushStop, Pushed, Signed, WordAt, FaultVector, Minus, Plus;
    ghost var m := cpu.Abs();
    var word :- cpu.Fetch();
    ghost var m1 := cpu.Abs();
    PushedRest(m1, cpu.a[reg], LongSize);
    var pushed := PushOnto(cpu, cpu.a[reg], LongSize);
    ghost var m2 := cpu.Abs();
    StepKeepsTransitive(m, m1, m2, 0, 0);
    if pushed.Abort? {
      return Abort;
    }
    RegisterKeeps(m2, reg, cpu.a[7]);
    cpu.SetA(reg, cpu.a[7]);
    ghost var m3 := cpu.Abs();
    StepKeepsTransitive(m, m2, m3, 0, 0);
    LinkedAfterPush(m1, reg, Signed(word, WordSize), m3.a);
    RegisterKeeps(m3, 7, Plus(cpu.a[7], Signed(word, WordSize)));
    cpu.SetA(7, Plus(cpu.a[7], Signed(word, WordSize)));
    StepKeepsTransitive(m, m3, cpu.Abs(), 0, 0);
    return Ok(());
  }

  /** UNLK before its read: the fault PC is latched and four cycles are spent, but A7 has not moved. */
  function Unlinking(m: Machine): Machine {
    Charged(WithFaultPc(m, Plus(m.pc, 2)), 4)
  }

  function UnlkStop(m: Machine, reg: int): Option<Stop>
    requires 0 <= reg < 8
  {
    ReadStop(Unlinking(m), m.a[reg], LongSize)
  }

  predicate UnlkDone(m: Machine, reg: int, m': Machine)
    requires 0 <= reg < 8
  {
    m' == Unlinked(Unlinking(m), reg)
  }

  method ExecUnlk(cpu: Cpu, reg: int) returns (r: Outcome<()>)
    requires Executing(cpu.Abs()) && 0 <= reg < 8
    modifies cpu, cpu.memory
    ensures Executing(cpu.Abs()) && StepKeeps(old(cpu.Abs()), cpu.Abs(), 4)
    ensures Ends(UnlkStop(old(cpu.Abs()), reg), r.Ok?, cpu.Abs())
    ensures r.Ok? ==> UnlkDone(old(cpu.Abs()), reg, cpu.Abs()) && cpu.nesting == old(cpu.nesting)
  {
    hide StepKeeps, StoppedAt, ReadStop, BusValue, Plus;
    ghost var m := cpu.Abs();
    var fp := cpu.a[reg];
    cpu.LatchFaultPc(Plus(cpu.pc, 2));
    LatchKeeps(m, cpu.Abs());
    ghost var m1 := cpu.Abs();
    cpu.Charge(4);
    ChargeKeeps(m1, 4);
    ghost var m2 := cpu.Abs();
    StepKeepsTransitive(m, m1, m2, 0, 4);
    var value := ReadFrom(cpu, fp, LongSize);
    ghost var m3 := cpu.Abs();
    StepKeepsTransitive(m, m2, m3, 4, 0);
    if value.Abort? {
      return Abort;
    }
    RegisterKeeps(m3, 7, Plus(fp, 4));
    cpu.SetA(7, Plus(fp, 4));
    ghost var m4 := cpu.Abs();
    StepKeepsTransitive(m, m3, m4, 4, 0);
    RegisterKeeps(m4, reg, value.value);
    cpu.SetA(reg, value.value);
    StepKeepsTransitive(m, m4, cpu.Abs(), 4, 0);
    return Ok(());
  }

  // ---------------------------------------------------------- nested frames

  /** A well-nested run of procedure frames: each LINK has its body before its UNLK. */
  datatype Frames = Done | Enter(reg: int, displacement: int, body: Frames, next: Frames)

  /** Frame pointers other than A7, and locals below the frame. */
  predicate Downward(f: Frames)
    decreases f
  {
    match f case Done => true
    case Enter(reg, d, body, next) => 0 <= reg < 7 && d <= 0 && d % 2 == 0 && Downward(body) && Downward(next)
  }

  /** The bytes of the deepest chain of frames open together. */
  function Depth(f: Frames): nat
    requires Downward(f)
    decreases f
  {
    match f case Done => 0
    case Enter(_, d, body, next) => Max(4 - d + Depth(body), Depth(next))
  }

  /** The run, or None when any access of it would fault. */
  function RunFrames(m: Machine, f: Frames): Option<Machine>
    requires Downward(f)
    decreases f
  {
    match f
    case Done => Some(m)
    case Enter(reg, d, body, next) =>
      if !Pushable(m, LongSize) then None
      else match RunFrames(Linked(m, reg, d), body)
           case None => None
           case Some(b) => if FaultVector(b, b.a[reg], LongSize).None? then RunFrames(Unlinked(b, reg), next) else None
  }

  /** The stack in use has k bytes of memory below it, starting at an even base. */
  predicate FrameRoom(m: Machine, base: Long, k: nat) {
    base % 2 == 0 && k % 2 == 0 && m.a[7] == Plus(base, k) && InMemory(m, base, k)
  }

  /** Everything but the memory of the frames is as it was. */
  predicate Unwound(m: Machine, m': Machine, low: int, high: int) {
    m' == m.(mem := m'.mem) && SameOutside(m.mem, m'.mem, low, high)
  }

  /** Where the pushed register goes, and where A7 ends up. */
  lemma LinkAddresses(m: Machine, d: int, base: Long, k: nat)
    requires d <= 0 && d % 2 == 0 && FrameRoom(m, base, k) && 4 - d <= k
    ensures var sp := Plus(base, k - 4);
            && Minus(m.a[7], 4) == sp && !Odd(sp) && Mask24(sp) == Mask24(base) + (k - 4)
            && Plus(sp, d) == Plus(base, k - (4 - d)) && Plus(sp, 4) == m.a[7]
  {
    PushAddress(base, k, 4, 4);
    SumTwice(base, k - 4, d);
    SumTwice(base, k - 4, 4);
  }

  lemma SumTwice(x: Long, i: int, j: int)
    ensures Plus(Plus(x, i), j) == Plus(x, i + j)
  {
  }

  /** Entering a frame. */
  lemma LinkEnters(m: Machine, reg: int, d: int, base: Long, k: nat)
    requires 0 <= reg < 7 && d <= 0 && d % 2 == 0 && FrameRoom(m, base, k) && 4 - d <= k
    ensures Pushable(m, LongSize)
    ensures var l, at := Linked(m, reg, d), Mask24(base) + (k - 4);
            && FrameRoom(l, base, k - (4 - d))
            && l.a[reg] == Plus(base, k - 4) && !Odd(l.a[reg]) && Mask24(l.a[reg]) == at
            && SameOutside(m.mem, l.mem, at, at + 4) && Get32(l.mem, at) == m.a[reg]
            && l == m.(a := l.a, mem := l.mem)
            && forall i :: 0 <= i < 7 && i != reg ==> l.a[i] == m.a[i]
  {
    hide Plus, Minus, Mask24, Be32, Get32, Odd;
    LinkAddresses(m, d, base, k);
    MultiPrecision.OperandWritten(m.mem, Mask24(base) + (k - 4), m.a[reg], LongSize);
  }

  /** Leaving it: the frame's body kept the saved register and left the frame pointer alone. */
  lemma UnlkLeaves(m: Machine, reg: int, d: int, base: Long, k: nat, b: Machine, low: int)
    requires 0 <= reg < 7 && d <= 0 && d % 2 == 0 && FrameRoom(m, base, k) && 4 - d <= k
    requires low <= Mask24(base) + (k - 4) && Unwound(Linked(m, reg, d), b, low, Mask24(base) + (k - (4 - d)))
    ensures FaultVector(b, b.a[reg], LongSize).None? && Unwound(m, Unlinked(b, reg), low, Mask24(base) + k)
  {
    hide Plus, Minus, Mask24, Get32, Linked;
    LinkEnters(m, reg, d, base, k);
    var l, at := Linked(m, reg, d), Mask24(base) + (k - 4);
    MultiPrecision.OperandSame(l.mem, b.mem, at, LongSize);
    LinkAddresses(m, d, base, k);
    assert Unlinked(b, reg).a == m.a;
  }

  lemma UnwoundTwice(m: Machine, r: Machine, m': Machine, low: int, mid: int, high: int)
    ensures Unwound(m, r, low, high) && Unwound(r, m', mid, high) ==> Unwound(m, m', Min(low, mid), high)
  {
  }

  /** The run meets no fault and restores every register; it writes only below the stack it found. */
  predicate FramesUnwind(m: Machine, base: Long, k: nat, f: Frames)
    requires Downward(f)
  {
    RunFrames(m, f).Some? && Unwound(m, RunFrames(m, f).value, Mask24(base) + k - Depth(f), Mask24(base) + k)
  }

  /**
   Any nesting of procedure frames, on any frame pointers but A7, restores all sixteen
   registers and changes only the memory of its deepest chain of frames.
   */
  lemma {:induction false} FramesRestore(m: Machine, base: Long, k: nat, f: Frames)
    requires Downward(f) && FrameRoom(m, base, k) && Depth(f) <= k
    ensures FramesUnwind(m, base, k, f)
    decreases f
  {
    hide Unwound, FrameRoom, Pushable, FaultVector, Linked, Unlinked, Mask24;
    match f {
      case Done => UnwoundNothing(m, Mask24(base) + k);
      case Enter(reg, d, body, next) =>
        var l, top := Linked(m, reg, d), Mask24(base) + k;
        LinkEnters(m, reg, d, base, k);
        FramesRestore(l, base, k - (4 - d), body);
        var b, low := RunFrames(l, body).value, top - (4 - d) - Depth(body);
        UnlkLeaves(m, reg, d, base, k, b, low);
        var r := Unlinked(b, reg);
        RoomKept(m, r, base, k, low);
        FramesRestore(r, base, k, next);
        UnwoundTwice(m, r, RunFrames(r, next).value, low, top - Depth(next), top);
    }
  }

  lemma UnwoundNothing(m: Machine, top: int)
    ensures Unwound(m, m, top, top)
  {
  }

  lemma RoomKept(m: Machine, r: Machine, base: Long, k: nat, low: int)
    ensures FrameRoom(m, base, k) && Unwound(m, r, low, Mask24(base) + k) ==> FrameRoom(r, base, k)
  {
    hide Plus, Mask24;
  }

  /** The long word at the displaced address is A7, read partly or wholly from where LINK has just stored it. */
  predicate FindsItself(m: Machine, d: int)
    requires Mapped(m, Minus(m.a[7], 4), LongSize) && Mapped(m, Plus(Minus(m.a[7], 4), d), LongSize)
  {
    var sp, x := Minus(m.a[7], 4), m.a[7];
    var at, from := Mask24(sp), Mask24(Plus(sp, d));
    if d == 0 then true
    else if from == at + 2 then Hi16(x) == Lo16(x) && Get16(m.mem, at + 4) == Lo16(x)
    else if at == from + 2 then Get16(m.mem, from) == Hi16(x) && Hi16(x) == Lo16(x)
    else Get32(m.mem, from) == x
  }

  /**
   With A7 as its own frame pointer, UNLK reads where the displacement has moved A7 to. It
   finds the saved pointer when the displacement is zero, and otherwise exactly when the
   memory there, with the two bytes a displacement of two shares with the frame, held it.
   */
  lemma StackPointerFrame(m: Machine, d: int)
    requires Pushable(m, LongSize) && Mapped(m, Minus(m.a[7], 4), LongSize)
    requires d % 2 == 0 && -0x8000 <= d < 0x8000 && Mapped(m, Plus(Minus(m.a[7], 4), d), LongSize)
    ensures Unlinked(Linked(m, 7, d), 7).a[7] == m.a[7] <==> FindsItself(m, d)
  {
    hide Get32, Get16, Be32, Mask24, Plus, Minus, Splice, Hi16, Lo16;
    var sp, x, l := Minus(m.a[7], 4), m.a[7], Linked(m, 7, d);
    var at: int, from: int := Mask24(sp), Mask24(Plus(sp, d));
    assert l.mem == Splice(m.mem, at, Be32(x)) && l.a[7] == Plus(sp, d);
    MultiPrecision.OperandWritten(m.mem, at, x, LongSize);
    PlusZero(sp);
    if d != 0 {
      Apart(sp, d);
      if from == at + 2 {
        ReadAbove(m.mem, at, x);
      } else if at == from + 2 {
        ReadBelow(m.mem, from, x);
      } else {
        MultiPrecision.OperandSame(m.mem, l.mem, from, LongSize);
      }
    }
  }

  /** A long word read two bytes above the one just written, and two bytes below it. */
  lemma ReadAbove(mem: seq<Byte>, at: nat, x: Long)
    requires at + 6 <= |mem|
    ensures Get32(Splice(mem, at, Be32(x)), at + 2) == x <==> Hi16(x) == Lo16(x) && Get16(mem, at + 4) == Lo16(x)
  {
    hide Splice;
    var r := Splice(mem, at, Be32(x));
    assert r[at + 2] == Be32(x)[2] && r[at + 3] == Be32(x)[3] && r[at + 4] == mem[at + 4] && r[at + 5] == mem[at + 5];
    Halves(r, at + 2, x);
    WordParts(x);
  }

  lemma ReadBelow(mem: seq<Byte>, from: nat, x: Long)
    requires from + 6 <= |mem|
    ensures Get32(Splice(mem, from + 2, Be32(x)), from) == x <==> Get16(mem, from) == Hi16(x) && Hi16(x) == Lo16(x)
  {
    hide Splice;
    var r := Splice(mem, from + 2, Be32(x));
    assert r[from] == mem[from] && r[from + 1] == mem[from + 1] && r[from + 2] == Be32(x)[0]
           && r[from + 3] == Be32(x)[1];
    Halves(r, from, x);
    HighHalf(x);
  }

  /** A long word is its two halves. */
  lemma Halves(mem: seq<Byte>, at: nat, x: Long)
    requires at + 4 <= |mem|
    ensures Get32(mem, at) == x <==> Get16(mem, at) == Hi16(x) && Get16(mem, at + 2) == Lo16(x)
  {
    assert Get32(mem, at) == 0x1_0000 * Get16(mem, at) + Get16(mem, at + 2);
    hide Get32, Get16;
  }

  /** Different even displacements share two bytes or none. */
  lemma Apart(sp: Long, d: int)
    requires d != 0 && d % 2 == 0 && -0x8000 <= d < 0x8000
    ensures var at, from := Mask24(sp), Mask24(Plus(sp, d));
            from == at + 2 || at == from + 2 || from + 4 <= at || at + 4 <= from
  {
    MaskedSum(sp, d);
    hide Plus, Mask24;
  }

  /** The address lines of a displaced address. */
  lemma MaskedSum(sp: Long, d: int)
    requires -0x8000 <= d < 0x8000
    ensures var sum := Mask24(sp) + d;
            Mask24(Plus(sp, d)) == if sum < 0 then sum + 0x100_0000 else if sum >= 0x100_0000 then sum - 0x100_0000
              else sum
  {
    var high: int := sp / 0x100_0000;
    var sum := Mask24(sp) + d;
    assert sp + d == 0x100_0000 * high + sum;
    var carry := if sum < 0 then -1 else if sum >= 0x100_0000 then 1 else 0;
    var low := sum - 0x100_0000 * carry;
    WrapMasked(high + carry, low);
  }

  lemma WrapMasked(high: int, low: int)
    requires -1 <= high <= 0x100 && 0 <= low < 0x100_0000
    ensures Mask24(Wrap(0x100_0000 * high + low)) == low
  {
    var top := if high < 0 then high + 0x100 else if high >= 0x100 then high - 0x100 else high;
    assert Wrap(0x100_0000 * high + low) == 0x100_0000 * top + low;
  }
}
