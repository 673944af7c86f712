/**
 Straight-line programs of k equal ADDX, SUBX, ABCD or SBCD instructions: the handlers,
 run one after the other, do multi-precision arithmetic on memory.
 */
module Chains {
  import opened Words
  import opened StatusRegister
  import opened MachineState
  import opened Core
  import opened MultiPrecision
  import opened OpsArith

  lemma OperandBound(mem: seq<Byte>, at: nat, size: Size)
    requires at + size.Bytes() <= |mem|
    ensures Operand(mem, at, size) < size.Modulus()
  {
  }

  /** Binary limbs are always valid. */
  lemma {:induction false} BinaryValid(op: LimbOp, mem: seq<Byte>, top: nat, stride: nat, k: nat)
    requires (op.AddX? || op.SubX?) && Placed(op, |mem|, top, stride, k)
    ensures ValidLimbs(op, mem, top, stride, k)
    decreases k
  {
    if k > 0 {
      OperandBound(mem, top - stride, op.size);
      BinaryValid(op, mem, top - stride, stride, k - 1);
      hide Operand;
    }
  }

  /** The pointers of a chain in progress: where they are, how much is left, and aligned. */
  predicate Poised(m: Machine, op: LimbOp, ry: int, rx: int, ts: nat, td: nat, k: nat)
    requires 0 <= ry < 8 && 0 <= rx < 8
  {
    && ry != rx && Mask24(m.a[ry]) == ts && Mask24(m.a[rx]) == td
    && Regions(op, AddressStep(ry, LimbSize(op)), AddressStep(rx, LimbSize(op)), ts, td, |m.mem|, k)
    && (LimbSize(op) != ByteSize ==> m.a[ry] % 2 == 0 && m.a[rx] % 2 == 0)
  }

  lemma DownEven(address: Long, stride: nat)
    requires address % 2 == 0 && stride % 2 == 0 && stride <= 4
    ensures Minus(address, stride) % 2 == 0
  {
  }

  lemma RegionsRoom(op: LimbOp, sy: nat, sx: nat, ts: nat, td: nat, size: nat, k: nat)
    requires k > 0 && Regions(op, sy, sx, ts, td, size, k)
    ensures LimbSize(op).Bytes() <= sy <= ts <= size && LimbSize(op).Bytes() <= sx <= td <= size
  {
  }

  /** As long as there are limbs left, the next instruction meets no fault. */
  lemma PoisedReady(m: Machine, op: LimbOp, ry: int, rx: int, ts: nat, td: nat, k: nat)
    requires 0 <= ry < 8 && 0 <= rx < 8 && k > 0 && Poised(m, op, ry, rx, ts, td, k)
    ensures LimbReady(m, ry, rx, LimbSize(op))
  {
    var size := LimbSize(op);
    var sy, sx := AddressStep(ry, size), AddressStep(rx, size);
    RegionsRoom(op, sy, sx, ts, td, |m.mem|, k);
    StepDown(m.a[ry], sy);
    StepDown(m.a[rx], sx);
    if size != ByteSize {
      DownEven(m.a[ry], sy);
      DownEven(m.a[rx], sx);
    }
    hide Minus, Mask24, Regions;
  }

  /** After an instruction the pointers stand below the next limbs. */
  lemma PoisedNext(m: Machine, m': Machine, op: LimbOp, ry: int, rx: int, ts: nat, td: nat, k: nat)
    requires 0 <= ry < 8 && 0 <= rx < 8 && k > 0 && Poised(m, op, ry, rx, ts, td, k)
    requires |m'.mem| == |m.mem|
    requires m'.a[ry] == Minus(m.a[ry], AddressStep(ry, LimbSize(op)))
             && m'.a[rx] == Minus(m.a[rx], AddressStep(rx, LimbSize(op)))
    ensures AddressStep(ry, LimbSize(op)) <= ts && AddressStep(rx, LimbSize(op)) <= td
    ensures Poised(m', op, ry, rx, ts - AddressStep(ry, LimbSize(op)), td - AddressStep(rx, LimbSize(op)), k - 1)
  {
    hide Minus, Mask24, Regions;
    var size := LimbSize(op);
    var sy, sx := AddressStep(ry, size), AddressStep(rx, size);
    RegionsStep(op, sy, sx, ts, td, ViewOf(m, ry, rx, false, false), ViewOf(m', ry, rx, false, false), k);
    if size != ByteSize {
      DownEven(m.a[ry], sy);
      DownEven(m.a[rx], sx);
    }
  }

  /** What the chain sees of a machine. */
  function Seen(m: Machine, ry: int, rx: int): View
    requires 0 <= ry < 8 && 0 <= rx < 8
  {
    ViewOf(m, ry, rx, FlagX(m.sr), FlagZ(m.sr))
  }

  lemma ChainAppend(op: LimbOp, sy: nat, sx: nat, vs: seq<View>, v: View)
    requires Chain(op, sy, sx, vs) && LimbStep(op, sy, sx, vs[|vs| - 1], v)
    ensures Chain(op, sy, sx, vs + [v])
  {
    hide LimbStep;
    var ws := vs + [v];
    forall i | 0 <= i < |ws| - 1 ensures LimbStep(op, sy, sx, ws[i], ws[i + 1]) {
      if i < |vs| - 1 {
        assert LimbStep(op, sy, sx, vs[i], vs[i + 1]);
      }
    }
  }

  lemma StepSeen(op: LimbOp, ry: int, rx: int, m: Machine, m': Machine)
    requires 0 <= ry < 8 && 0 <= rx < 8
    requires LimbStep(op, AddressStep(ry, LimbSize(op)), AddressStep(rx, LimbSize(op)), Seen(m, ry, rx),
                      Seen(m', ry, rx))
    ensures |m'.mem| == |m.mem|
    ensures m'.a[ry] == Minus(m.a[ry], AddressStep(ry, LimbSize(op)))
            && m'.a[rx] == Minus(m.a[rx], AddressStep(rx, LimbSize(op)))
  {
    StepPoints(op, AddressStep(ry, LimbSize(op)), AddressStep(rx, LimbSize(op)), Seen(m, ry, rx), Seen(m', ry, rx));
    hide LimbStep, Minus;
  }

  /** One instruction of a chain. */
  method RunLimb(cpu: Cpu, op: LimbOp, ry: int, rx: int) returns (r: Outcome<()>)
    requires Executing(cpu.Abs()) && 0 <= ry < 8 && 0 <= rx < 8
    modifies cpu, cpu.memory
    ensures Executing(cpu.Abs())
    ensures LimbReady(old(cpu.Abs()), ry, rx, LimbSize(op)) ==>
      r.Ok? && LimbStep(op, AddressStep(ry, LimbSize(op)), AddressStep(rx, LimbSize(op)),
                        Seen(old(cpu.Abs()), ry, rx), Seen(cpu.Abs(), ry, rx))
  {
    hide StepKeeps, LimbReady, LimbStep, ExtendedDone, DecimalDone;
    match op {
      case AddX(size) => r := ExecExtended(cpu, false, size, ry, rx, true);
      case SubX(size) => r := ExecExtended(cpu, true, size, ry, rx, true);
      case AddBcd => r := ExecDecimal(cpu, false, ry, rx, true);
      case SubBcd => r := ExecDecimal(cpu, true, ry, rx, true);
    }
  }

  /**
   Running the instruction k times over two k-limb numbers, for any k and each operand
   size, completes without a fault and leaves their sum or difference, with the final
   carry in X and Z set iff it was set before and the whole result is zero.
   */
  method RunChain(cpu: Cpu, op: LimbOp, ry: int, rx: int, ghost ts: nat, ghost td: nat, k: nat) returns (r: Outcome<()>)
    requires Executing(cpu.Abs()) && 0 <= ry < 8 && 0 <= rx < 8 && Poised(cpu.Abs(), op, ry, rx, ts, td, k)
    requires ValidLimbs(op, cpu.memory[..], ts, AddressStep(ry, LimbSize(op)), k)
    requires ValidLimbs(op, cpu.memory[..], td, AddressStep(rx, LimbSize(op)), k)
    modifies cpu, cpu.memory
    ensures Executing(cpu.Abs()) && r.Ok?
    ensures Computed(op, AddressStep(ry, LimbSize(op)), AddressStep(rx, LimbSize(op)), ts, td,
                     Seen(old(cpu.Abs()), ry, rx), Seen(cpu.Abs(), ry, rx), k)
  {
    hide LimbStep, LimbReady, Poised, Chain, Seen, ValidLimbs;
    ghost var m := cpu.Abs();
    ghost var sy, sx := AddressStep(ry, LimbSize(op)), AddressStep(rx, LimbSize(op));
    ghost var vs := [Seen(m, ry, rx)];
    ghost var s: nat, d: nat := ts, td;
    OneView(op, sy, sx, vs[0]);
    for i := 0 to k
      invariant Executing(cpu.Abs())
      invariant |vs| == i + 1 && vs[0] == Seen(m, ry, rx) && vs[i] == Seen(cpu.Abs(), ry, rx)
      invariant Chain(op, sy, sx, vs)
      invariant Poised(cpu.Abs(), op, ry, rx, s, d, k - i)
    {
      ghost var before := cpu.Abs();
      PoisedReady(before, op, ry, rx, s, d, k - i);
      r := RunLimb(cpu, op, ry, rx);
      StepSeen(op, ry, rx, before, cpu.Abs());
      PoisedNext(before, cpu.Abs(), op, ry, rx, s, d, k - i);
      ChainAppend(op, sy, sx, vs, Seen(cpu.Abs(), ry, rx));
      vs, s, d := vs + [Seen(cpu.Abs(), ry, rx)], s - sy, d - sx;
    }
    PoisedView(m, op, ry, rx, ts, td, k);
    ChainComputes(op, sy, sx, ts, td, vs, k);
    return Ok(());
  }

  lemma OneView(op: LimbOp, sy: nat, sx: nat, v: View)
    ensures Chain(op, sy, sx, [v])
  {
  }

  lemma PoisedView(m: Machine, op: LimbOp, ry: int, rx: int, ts: nat, td: nat, k: nat)
    requires 0 <= ry < 8 && 0 <= rx < 8 && Poised(m, op, ry, rx, ts, td, k)
    ensures PointsAt(Seen(m, ry, rx), ts, td) && Seen(m, ry, rx).mem == m.mem
    ensures Regions(op, AddressStep(ry, LimbSize(op)), AddressStep(rx, LimbSize(op)), ts, td, |m.mem|, k)
  {
  }
}
