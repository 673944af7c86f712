/**
 Chains of ADDX, SUBX, ABCD and SBCD in their -(Ay),-(Ax) form: each instruction does
 one limb, and the extend and zero flags carry the rest of the number along.
 */
module MultiPrecision {
  import opened Words
  import StatusRegister
  import opened MachineState
  import opened Bcd
  import Exceptions

  datatype LimbOp = AddX(size: Size) | SubX(size: Size) | AddBcd | SubBcd

  function LimbSize(op: LimbOp): Size {
    if op.AddX? || op.SubX? then op.size else ByteSize
  }

  /** What one limb can count up to. */
  function Base(op: LimbOp): (b: int)
    ensures b > 1
  {
    if op.AddX? || op.SubX? then op.size.Modulus() else 100
  }

  /** Additions carry, subtractions borrow. */
  predicate Adds(op: LimbOp) {
    op.AddX? || op.AddBcd?
  }

  /** The result of d + s + x (or d - s - x) as a digit of base p, with its carry and sticky zero. */
  predicate Combined(p: int, adds: bool, d: int, s: int, x: bool, z: bool, r: int, x': bool, z': bool) {
    var carried, added := if x' then p else 0, s + if x then 1 else 0;
    && 0 <= r < p
    && (if adds then r + carried == d + added else r - carried == d - added)
    && z' == (z && r == 0)
  }

  predicate ValidLimb(op: LimbOp, u: Long) {
    if op.AddBcd? || op.SubBcd? then ValidBcd(u) else u < op.size.Modulus()
  }

  function LimbValue(op: LimbOp, u: Long): int {
    if op.AddBcd? || op.SubBcd? then Digits(u) else u
  }

  /** One limb: the result operand and the carry or borrow. */
  function LimbResult(op: LimbOp, src: Long, dest: Long, x: bool): (Long, bool)
  {
    var c := if x then 1 else 0;
    match op
    case AddX(size) => (Low(Wrap(dest + src + c), size), Low(dest, size) + Low(src, size) + c >= size.Modulus())
    case SubX(size) => (Low(Wrap(dest - src - c), size), Low(dest, size) - Low(src, size) - c < 0)
    case AddBcd => (Abcd(src % 0x100, dest % 0x100, c).result, Abcd(src % 0x100, dest % 0x100, c).carry)
    case SubBcd => (Sbcd(src % 0x100, dest % 0x100, c).result, Sbcd(src % 0x100, dest % 0x100, c).carry)
  }

  /** The part of the machine a chain works on. */
  datatype View = View(mem: seq<Byte>, src: Long, dest: Long, x: bool, z: bool)

  function ViewOf(m: Machine, ry: int, rx: int, x: bool, z: bool): View
    requires 0 <= ry < 8 && 0 <= rx < 8
  {
    View(m.mem, m.a[ry], m.a[rx], x, z)
  }

  /** One instruction of a chain, with the two predecrement steps it uses. */
  predicate LimbStep(op: LimbOp, sy: nat, sx: nat, v: View, v': View) {
    var n := LimbSize(op).Bytes();
    && v'.src == Minus(v.src, sy) && v'.dest == Minus(v.dest, sx)
    && Mask24(v'.src) + n <= |v.mem| && Mask24(v'.dest) + n <= |v.mem|
    && var s, d := Operand(v.mem, Mask24(v'.src), LimbSize(op)), Operand(v.mem, Mask24(v'.dest), LimbSize(op));
       var r := LimbResult(op, s, d, v.x);
       && v'.mem == Splice(v.mem, Mask24(v'.dest), OperandBytes(r.0, LimbSize(op)))
       && v'.x == r.1 && v'.z == (v.z && r.0 == 0)
  }

  /** What one limb does to the numbers. */
  lemma LimbLaw(op: LimbOp, src: Long, dest: Long, x: bool, z: bool)
    requires ValidLimb(op, src) && ValidLimb(op, dest)
    ensures var r := LimbResult(op, src, dest, x);
            && ValidLimb(op, r.0) && (LimbValue(op, r.0) == 0 <==> r.0 == 0)
            && Combined(Base(op), Adds(op), LimbValue(op, dest), LimbValue(op, src), x, z,
                        LimbValue(op, r.0), r.1, z && r.0 == 0)
  {
    if op.AddX? || op.SubX? {
      BinaryLaw(op, src, dest, x, z);
    } else {
      DecimalLaw(op, src, dest, x, z);
    }
    hide LimbResult, LimbValue, ValidLimb;
  }

  lemma BinaryLaw(op: LimbOp, src: Long, dest: Long, x: bool, z: bool)
    requires (op.AddX? || op.SubX?) && src < op.size.Modulus() && dest < op.size.Modulus()
    ensures var r := LimbResult(op, src, dest, x);
            && ValidLimb(op, r.0) && (LimbValue(op, r.0) == 0 <==> r.0 == 0)
            && Combined(Base(op), Adds(op), LimbValue(op, dest), LimbValue(op, src), x, z,
                        LimbValue(op, r.0), r.1, z && r.0 == 0)
  {
    hide Low, Wrap;
    LowSame(src, op.size);
    LowSame(dest, op.size);
    SumLimb(src + dest, if x then 1 else 0, op.size);
    DifferenceLimb(dest - src, if x then 1 else 0, op.size);
  }

  lemma DecimalLaw(op: LimbOp, src: Long, dest: Long, x: bool, z: bool)
    requires (op.AddBcd? || op.SubBcd?) && ValidBcd(src) && ValidBcd(dest)
    ensures var r := LimbResult(op, src, dest, x);
            && ValidLimb(op, r.0) && (LimbValue(op, r.0) == 0 <==> r.0 == 0)
            && Combined(Base(op), Adds(op), LimbValue(op, dest), LimbValue(op, src), x, z,
                        LimbValue(op, r.0), r.1, z && r.0 == 0)
  {
    var c := if x then 1 else 0;
    assert src % 0x100 == src && dest % 0x100 == dest;
    AbcdAdds(src, dest, c);
    SbcdSubtracts(src, dest, c);
    DigitsRange(Abcd(src, dest, c).result);
    DigitsRange(Sbcd(src, dest, c).result);
    hide Abcd, Sbcd, Digits, ValidBcd;
  }

  lemma DigitsRange(b: int)
    requires ValidBcd(b)
    ensures 0 <= Digits(b) < 100 && (Digits(b) == 0 <==> b == 0)
  {
  }

  lemma LowSame(x: Long, size: Size)
    requires x < size.Modulus()
    ensures Low(x, size) == x
  {
  }

  lemma SumLimb(sum: int, c: int, size: Size)
    requires 0 <= sum <= 2 * size.Modulus() - 2 && 0 <= c <= 1
    ensures Low(Wrap(sum + c), size) == sum + c - (if sum + c >= size.Modulus() then size.Modulus() else 0)
  {
    StatusRegister.LowOfWrap(sum + c, size);
    hide Low, Wrap;
  }

  lemma DifferenceLimb(difference: int, c: int, size: Size)
    requires -size.Modulus() < difference < size.Modulus() && 0 <= c <= 1
    ensures Low(Wrap(difference - c), size) == difference - c + (if difference - c < 0 then size.Modulus() else 0)
  {
    StatusRegister.LowOfWrap(difference - c, size);
    hide Low, Wrap;
  }

  // ---------------------------------------------------- numbers of k limbs

  /** The bytes k limbs take up. */
  function Span(k: nat, stride: nat): nat {
    if k == 0 then 0 else stride + Span(k - 1, stride)
  }

  /** A number of k limbs, one every stride bytes, ends just below top and lies in memory. */
  predicate Placed(op: LimbOp, size: nat, top: int, stride: nat, k: nat) {
    LimbSize(op).Bytes() <= stride && Span(k, stride) <= top <= size
  }

  /** The k-limb number whose least significant limb ends just below the given index. */
  function Limbs(op: LimbOp, mem: seq<Byte>, top: nat, stride: nat, k: nat): int
    requires Placed(op, |mem|, top, stride, k)
    decreases k
  {
    if k == 0 then 0
    else
      LimbValue(op, Operand(mem, top - stride, LimbSize(op)))
      + Base(op) * Limbs(op, mem, top - stride, stride, k - 1)
  }

  /** Every limb is a valid digit of its base. */
  predicate ValidLimbs(op: LimbOp, mem: seq<Byte>, top: nat, stride: nat, k: nat)
    requires Placed(op, |mem|, top, stride, k)
    decreases k
  {
    k == 0 ||
    (&& ValidLimb(op, Operand(mem, top - stride, LimbSize(op)))
     && ValidLimbs(op, mem, top - stride, stride, k - 1))
  }

  function Power(b: int, k: nat): int {
    if k == 0 then 1 else b * Power(b, k - 1)
  }

  predicate SameBelow(a: seq<Byte>, b: seq<Byte>, low: int, high: int) {
    |a| == |b| && forall i :: 0 <= i < |a| && low <= i < high ==> a[i] == b[i]
  }

  /** A number depends only on its own stretch of memory. */
  lemma {:induction false} LimbsSame(op: LimbOp, a: seq<Byte>, b: seq<Byte>, top: nat, stride: nat, k: nat)
    requires |a| == |b| && Placed(op, |a|, top, stride, k)
    requires SameBelow(a, b, top - Span(k, stride), top)
    ensures Limbs(op, a, top, stride, k) == Limbs(op, b, top, stride, k)
    ensures ValidLimbs(op, a, top, stride, k) == ValidLimbs(op, b, top, stride, k)
    decreases k
  {
    if k > 0 {
      OperandSame(a, b, top - stride, LimbSize(op));
      LimbsSame(op, a, b, top - stride, stride, k - 1);
    }
  }

  lemma OperandSame(a: seq<Byte>, b: seq<Byte>, at: nat, size: Size)
    requires at + size.Bytes() <= |a| && SameBelow(a, b, at, at + size.Bytes())
    ensures Operand(a, at, size) == Operand(b, at, size)
  {
  }

  // ------------------------------------------------------------- the chain

  /** A run of one instruction repeated: the views before, between and after. */
  predicate Chain(op: LimbOp, sy: nat, sx: nat, vs: seq<View>) {
    |vs| > 0 && forall i :: 0 <= i < |vs| - 1 ==> LimbStep(op, sy, sx, vs[i], vs[i + 1])
  }

  /** Both numbers lie in memory below the given ends, and do not overlap. */
  predicate Regions(op: LimbOp, sy: nat, sx: nat, ts: nat, td: nat, size: nat, k: nat) {
    && Placed(op, size, ts, sy, k) && Placed(op, size, td, sx, k)
    && (td <= ts - Span(k, sy) || ts <= td - Span(k, sx))
  }

  predicate PointsAt(v: View, ts: nat, td: nat) {
    Mask24(v.src) == ts && Mask24(v.dest) == td
  }

  lemma StepDown(address: Long, stride: nat)
    requires stride <= Mask24(address)
    ensures Mask24(Minus(address, stride)) == Mask24(address) - stride
  {
    assert Minus(address, stride) == address - stride;
  }

  lemma OperandWritten(mem: seq<Byte>, at: nat, value: Long, size: Size)
    requires at + size.Bytes() <= |mem| && value < size.Modulus()
    ensures Operand(Splice(mem, at, OperandBytes(value, size)), at, size) == value
  {
    var r := Splice(mem, at, OperandBytes(value, size));
    match size
    case ByteSize => assert r[at] == OperandBytes(value, size)[0];
    case WordSize => Exceptions.Be16Read(r, at, value);
    case LongSize =>
      assert forall i :: 0 <= i < 4 ==> r[at + i] == Be32(value)[i];
      Exceptions.Be32Read(r, at, value);
  }

  lemma RegionsStep(op: LimbOp, sy: nat, sx: nat, ts: nat, td: nat, v: View, v': View, k: nat)
    requires k > 0 && Regions(op, sy, sx, ts, td, |v.mem|, k) && PointsAt(v, ts, td)
    requires v'.src == Minus(v.src, sy) && v'.dest == Minus(v.dest, sx) && |v'.mem| == |v.mem|
    ensures sy <= ts && sx <= td && PointsAt(v', ts - sy, td - sx)
    ensures Regions(op, sy, sx, ts - sy, td - sx, |v'.mem|, k - 1)
  {
    StepDown(v.src, sy);
    StepDown(v.dest, sx);
    hide Mask24, Minus;
  }

  /** One limb done: the result at td, the carry and the sticky zero flag. */
  predicate FirstDone(op: LimbOp, ts: int, td: int, v: View, v': View) {
    var n := LimbSize(op).Bytes();
    && 0 <= ts && 0 <= td && ts + n <= |v.mem| && td + n <= |v.mem| && |v'.mem| == |v.mem|
    && var s, d := Operand(v.mem, ts, LimbSize(op)), Operand(v.mem, td, LimbSize(op));
       && ValidLimb(op, s) && ValidLimb(op, d)
       && var r := LimbResult(op, s, d, v.x);
          && v'.x == r.1 && v'.z == (v.z && r.0 == 0)
          && Operand(v'.mem, td, LimbSize(op)) == r.0
          && SameOutside(v.mem, v'.mem, td, td + n)
  }

  lemma FirstLimb(op: LimbOp, v: View, v': View, sy: nat, sx: nat)
    requires LimbStep(op, sy, sx, v, v')
    ensures ValidLimb(op, Operand(v.mem, Mask24(v'.src), LimbSize(op)))
            && ValidLimb(op, Operand(v.mem, Mask24(v'.dest), LimbSize(op)))
            ==> FirstDone(op, Mask24(v'.src), Mask24(v'.dest), v, v')
  {
    var s := Operand(v.mem, Mask24(v'.src), LimbSize(op));
    var d := Operand(v.mem, Mask24(v'.dest), LimbSize(op));
    if ValidLimb(op, s) && ValidLimb(op, d) {
      ResultFits(op, s, d, v.x);
      OperandWritten(v.mem, Mask24(v'.dest), LimbResult(op, s, d, v.x).0, LimbSize(op));
    }
    hide LimbResult, Mask24, Minus, ValidLimb, Operand;
  }

  lemma StepPoints(op: LimbOp, sy: nat, sx: nat, v: View, v': View)
    requires LimbStep(op, sy, sx, v, v')
    ensures v'.src == Minus(v.src, sy) && v'.dest == Minus(v.dest, sx) && |v'.mem| == |v.mem|
  {
    hide LimbResult, Mask24, Minus, Operand;
  }

  lemma ResultFits(op: LimbOp, src: Long, dest: Long, x: bool)
    requires ValidLimb(op, src) && ValidLimb(op, dest)
    ensures LimbResult(op, src, dest, x).0 < LimbSize(op).Modulus()
  {
    LimbLaw(op, src, dest, x, false);
    hide LimbResult;
  }

  /** What a finished chain has computed. */
  predicate Computed(op: LimbOp, sy: nat, sx: nat, ts: nat, td: nat, v: View, w: View, k: nat)
  {
    && Regions(op, sy, sx, ts, td, |v.mem|, k)
    && SameOutside(v.mem, w.mem, td - Span(k, sx), td)
    && ValidLimbs(op, w.mem, td, sx, k)
    && Combined(Power(Base(op), k), Adds(op), Limbs(op, v.mem, td, sx, k), Limbs(op, v.mem, ts, sy, k), v.x, v.z,
                Limbs(op, w.mem, td, sx, k), w.x, w.z)
  }

  /** The carry arithmetic of putting one limb under the rest of a number. */
  lemma Glue(b: int, adds: bool, p: int, d0: int, s0: int, x0: int, r0: int, x1: int, d: int, s: int, r: int, xk: int)
    requires if adds then r0 + x1 * b == d0 + (s0 + x0) else r0 - x1 * b == d0 - (s0 + x0)
    requires if adds then r + xk * p == d + (s + x1) else r - xk * p == d - (s + x1)
    ensures if adds then (r0 + b * r) + xk * (b * p) == (d0 + b * d) + ((s0 + b * s) + x0)
            else (r0 + b * r) - xk * (b * p) == (d0 + b * d) - ((s0 + b * s) + x0)
  {
    if adds {
      assert b * (r + xk * p) == b * r + xk * (b * p);
      assert b * (d + (s + x1)) == b * d + b * s + x1 * b;
    } else {
      assert b * (r - xk * p) == b * r - xk * (b * p);
      assert b * (d - (s + x1)) == b * d - b * s - x1 * b;
    }
  }

  lemma GlueCombined(b: int, adds: bool, p: int, d0: int, s0: int, x: bool, z: bool, r0: int, x1: bool, z1: bool,
                     d: int, s: int, r: int, x': bool, z': bool)
    ensures Combined(b, adds, d0, s0, x, z, r0, x1, z1) && Combined(p, adds, d, s, x1, z1, r, x', z') ==>
      Combined(b * p, adds, d0 + b * d, s0 + b * s, x, z, r0 + b * r, x', z')
  {
    if Combined(b, adds, d0, s0, x, z, r0, x1, z1) && Combined(p, adds, d, s, x1, z1, r, x', z') {
      UnderPower(b, r0, r, p);
      Glue(b, adds, p, d0, s0, if x then 1 else 0, r0, if x1 then 1 else 0, d, s, r, if x' then 1 else 0);
    }
  }

  lemma UnderPower(b: int, r0: int, r: int, p: int)
    requires 0 <= r0 < b && 0 <= r < p
    ensures 0 <= r0 + b * r < b * p
    ensures r0 + b * r == 0 <==> r0 == 0 && r == 0
  {
    MulMono(0, r, b);
    MulMono(r, p - 1, b);
    assert (p - 1) * b == p * b - b;
    if r > 0 { MulMono(1, r, b); }
  }

  /** The limbs still to come are as they were before the first instruction. */
  lemma RestUntouched(op: LimbOp, sy: nat, sx: nat, ts: nat, td: nat, a: seq<Byte>, b: seq<Byte>, k: nat)
    requires k > 0 && Regions(op, sy, sx, ts, td, |a|, k)
    requires SameOutside(a, b, td - sx, td)
    ensures Limbs(op, b, ts - sy, sy, k - 1) == Limbs(op, a, ts - sy, sy, k - 1)
    ensures Limbs(op, b, td - sx, sx, k - 1) == Limbs(op, a, td - sx, sx, k - 1)
    ensures ValidLimbs(op, b, ts - sy, sy, k - 1) == ValidLimbs(op, a, ts - sy, sy, k - 1)
    ensures ValidLimbs(op, b, td - sx, sx, k - 1) == ValidLimbs(op, a, td - sx, sx, k - 1)
  {
    hide LimbSize;
    LimbsSame(op, b, a, ts - sy, sy, k - 1);
    LimbsSame(op, b, a, td - sx, sx, k - 1);
  }

  /** A number by its lowest limb. */
  lemma LowestLimb(op: LimbOp, mem: seq<Byte>, top: nat, stride: nat, k: nat)
    requires k > 0 && Placed(op, |mem|, top, stride, k)
    ensures stride <= top && Span(k - 1, stride) <= top - stride
    ensures Limbs(op, mem, top, stride, k)
            == LimbValue(op, Operand(mem, top - stride, LimbSize(op)))
              + Base(op) * Limbs(op, mem, top - stride, stride, k - 1)
    ensures ValidLimbs(op, mem, top, stride, k)
            == (ValidLimb(op, Operand(mem, top - stride, LimbSize(op)))
                && ValidLimbs(op, mem, top - stride, stride, k - 1))
  {
  }

  /** The numbers of a chain, from those of its first instruction and of the rest. */
  lemma ExtendNumbers(op: LimbOp, sy: nat, sx: nat, ts: nat, td: nat, v: View, v1: View, w: View, k: nat)
    requires k > 0 && Placed(op, |v.mem|, ts, sy, k) && Placed(op, |v.mem|, td, sx, k) && |w.mem| == |v.mem|
    ensures var p, s, d, r := Power(Base(op), k - 1), Limbs(op, v.mem, ts - sy, sy, k - 1),
                              Limbs(op, v.mem, td - sx, sx, k - 1), Limbs(op, w.mem, td - sx, sx, k - 1);
            var s0, d0, r0 := Operand(v.mem, ts - sy, LimbSize(op)), Operand(v.mem, td - sx, LimbSize(op)),
                              Operand(w.mem, td - sx, LimbSize(op));
            && Combined(Base(op), Adds(op), LimbValue(op, d0), LimbValue(op, s0), v.x, v.z,
                        LimbValue(op, r0), v1.x, v1.z)
            && Combined(p, Adds(op), d, s, v1.x, v1.z, r, w.x, w.z) ==>
      Combined(Power(Base(op), k), Adds(op), Limbs(op, v.mem, td, sx, k), Limbs(op, v.mem, ts, sy, k), v.x, v.z,
               Limbs(op, w.mem, td, sx, k), w.x, w.z)
  {
    LowestLimb(op, v.mem, ts, sy, k);
    LowestLimb(op, v.mem, td, sx, k);
    LowestLimb(op, w.mem, td, sx, k);
    var s0, d0 := Operand(v.mem, ts - sy, LimbSize(op)), Operand(v.mem, td - sx, LimbSize(op));
    var r0, b := Operand(w.mem, td - sx, LimbSize(op)), Base(op);
    assert Power(b, k) == b * Power(b, k - 1);
    hide Operand, LimbValue, LimbSize, Limbs, Base, Adds, Power;
    GlueCombined(b, Adds(op), Power(b, k - 1), LimbValue(op, d0), LimbValue(op, s0), v.x, v.z,
                 LimbValue(op, r0), v1.x, v1.z,
                 Limbs(op, v.mem, td - sx, sx, k - 1), Limbs(op, v.mem, ts - sy, sy, k - 1),
                 Limbs(op, w.mem, td - sx, sx, k - 1), w.x, w.z);
  }

  lemma ExtendMemory(op: LimbOp, sy: nat, sx: nat, ts: nat, td: nat, v: View, v1: View, w: View, k: nat)
    requires k > 0 && Regions(op, sy, sx, ts, td, |v.mem|, k) && |v1.mem| == |v.mem| && |w.mem| == |v.mem|
    ensures FirstDone(op, ts - sy, td - sx, v, v1) && SameOutside(v1.mem, w.mem, td - sx - Span(k - 1, sx), td - sx) ==>
      && SameOutside(v.mem, w.mem, td - Span(k, sx), td)
      && Operand(w.mem, td - sx, LimbSize(op)) == Operand(v1.mem, td - sx, LimbSize(op))
  {
    if FirstDone(op, ts - sy, td - sx, v, v1) && SameOutside(v1.mem, w.mem, td - sx - Span(k - 1, sx), td - sx) {
      OperandSame(v1.mem, w.mem, td - sx, LimbSize(op));
      ChangedTwice(v.mem, v1.mem, w.mem, td - sx - Span(k - 1, sx), td - sx, td);
      hide LimbResult, LimbValue, Operand, Combined;
    }
  }

  /** One instruction followed by a chain that computes is a chain that computes. */
  lemma ExtendComputed(op: LimbOp, sy: nat, sx: nat, ts: nat, td: nat, v: View, v1: View, w: View, k: nat)
    requires k > 0 && Regions(op, sy, sx, ts, td, |v.mem|, k) && |v1.mem| == |v.mem|
    requires sy <= ts && sx <= td && Regions(op, sy, sx, ts - sy, td - sx, |v1.mem|, k - 1)
    requires Limbs(op, v1.mem, ts - sy, sy, k - 1) == Limbs(op, v.mem, ts - sy, sy, k - 1)
    requires Limbs(op, v1.mem, td - sx, sx, k - 1) == Limbs(op, v.mem, td - sx, sx, k - 1)
    ensures FirstDone(op, ts - sy, td - sx, v, v1) && Computed(op, sy, sx, ts - sy, td - sx, v1, w, k - 1) ==>
      Computed(op, sy, sx, ts, td, v, w, k)
  {
    if FirstDone(op, ts - sy, td - sx, v, v1) && Computed(op, sy, sx, ts - sy, td - sx, v1, w, k - 1) {
      hide Operand, LimbResult, FirstDone, LimbValue, Base, Adds, Power, Limbs, SameOutside;
      ExtendMemory(op, sy, sx, ts, td, v, v1, w, k);
      FirstCombined(op, ts - sy, td - sx, v, v1);
      ExtendNumbers(op, sy, sx, ts, td, v, v1, w, k);
    }
  }

  lemma FirstCombined(op: LimbOp, ts: nat, td: nat, v: View, v1: View)
    requires ts + LimbSize(op).Bytes() <= |v.mem| && td + LimbSize(op).Bytes() <= |v.mem| && |v1.mem| == |v.mem|
    ensures FirstDone(op, ts, td, v, v1) ==>
            var s, d := Operand(v.mem, ts, LimbSize(op)), Operand(v.mem, td, LimbSize(op));
            var r := Operand(v1.mem, td, LimbSize(op));
            && ValidLimb(op, r)
            && Combined(Base(op), Adds(op), LimbValue(op, d), LimbValue(op, s), v.x, v.z, LimbValue(op, r), v1.x, v1.z)
  {
    if FirstDone(op, ts, td, v, v1) {
      LimbLaw(op, Operand(v.mem, ts, LimbSize(op)), Operand(v.mem, td, LimbSize(op)), v.x, v.z);
    }
    hide LimbResult, LimbValue, ValidLimb, Operand, SameOutside;
  }

  lemma ChangedTwice(a: seq<Byte>, b: seq<Byte>, c: seq<Byte>, low: int, mid: int, high: int)
    requires low <= mid <= high
    ensures SameOutside(a, b, mid, high) && SameOutside(b, c, low, mid) ==> SameOutside(a, c, low, high)
  {
  }

  /** A chain without its first instruction. */
  lemma RestChain(op: LimbOp, sy: nat, sx: nat, vs: seq<View>)
    requires |vs| > 1 && Chain(op, sy, sx, vs)
    ensures LimbStep(op, sy, sx, vs[0], vs[1]) && Chain(op, sy, sx, vs[1..])
  {
    var rest := vs[1..];
    forall i | 0 <= i < |rest| - 1
      ensures LimbStep(op, sy, sx, rest[i], rest[i + 1])
    {
      assert LimbStep(op, sy, sx, vs[i + 1], vs[i + 1 + 1]);
    }
    hide LimbStep;
  }

  /** The first of k instructions moves the pointers down and does its limb. */
  lemma StepMoves(op: LimbOp, sy: nat, sx: nat, ts: nat, td: nat, v: View, v1: View, k: nat)
    requires k > 0 && LimbStep(op, sy, sx, v, v1) && PointsAt(v, ts, td) && Regions(op, sy, sx, ts, td, |v.mem|, k)
    requires ValidLimbs(op, v.mem, ts, sy, k) && ValidLimbs(op, v.mem, td, sx, k)
    ensures sy <= ts && sx <= td && |v1.mem| == |v.mem| && PointsAt(v1, ts - sy, td - sx)
    ensures Regions(op, sy, sx, ts - sy, td - sx, |v1.mem|, k - 1)
    ensures FirstDone(op, ts - sy, td - sx, v, v1)
  {
    hide LimbStep, Mask24, Minus, Operand, LimbResult, LimbValue, ValidLimb, Limbs, ValidLimbs, FirstDone;
    StepPoints(op, sy, sx, v, v1);
    RegionsStep(op, sy, sx, ts, td, v, v1, k);
    LowestLimb(op, v.mem, ts, sy, k);
    LowestLimb(op, v.mem, td, sx, k);
    FirstLimb(op, v, v1, sy, sx);
  }

  /** The other limbs are as they were. */
  lemma StepLeaves(op: LimbOp, sy: nat, sx: nat, ts: nat, td: nat, v: View, v1: View, k: nat)
    requires k > 0 && Regions(op, sy, sx, ts, td, |v.mem|, k) && |v1.mem| == |v.mem|
    requires Placed(op, |v1.mem|, ts - sy, sy, k - 1) && Placed(op, |v1.mem|, td - sx, sx, k - 1)
    ensures FirstDone(op, ts - sy, td - sx, v, v1) ==>
      && Limbs(op, v1.mem, ts - sy, sy, k - 1) == Limbs(op, v.mem, ts - sy, sy, k - 1)
      && Limbs(op, v1.mem, td - sx, sx, k - 1) == Limbs(op, v.mem, td - sx, sx, k - 1)
      && ValidLimbs(op, v1.mem, ts - sy, sy, k - 1) == ValidLimbs(op, v.mem, ts - sy, sy, k - 1)
      && ValidLimbs(op, v1.mem, td - sx, sx, k - 1) == ValidLimbs(op, v.mem, td - sx, sx, k - 1)
  {
    hide Operand, LimbResult, LimbValue, ValidLimb, Limbs, ValidLimbs;
    if FirstDone(op, ts - sy, td - sx, v, v1) {
      RestUntouched(op, sy, sx, ts, td, v.mem, v1.mem, k);
    }
  }

  /** Valid numbers stay valid without their lowest limbs. */
  lemma RestValid(op: LimbOp, mem: seq<Byte>, top: nat, stride: nat, k: nat)
    requires k > 0 && Placed(op, |mem|, top, stride, k) && Placed(op, |mem|, top - stride, stride, k - 1)
    ensures ValidLimbs(op, mem, top, stride, k) ==> ValidLimbs(op, mem, top - stride, stride, k - 1)
  {
  }

  /**
   A chain of k instructions adds or subtracts two k-limb numbers: the result and its
   final carry are exact, Z is set iff it was and the whole result is zero, and nothing
   but the destination number changes.
   */
  lemma {:induction false} ChainComputes(op: LimbOp, sy: nat, sx: nat, ts: nat, td: nat, vs: seq<View>, k: nat)
    requires |vs| == k + 1 && Chain(op, sy, sx, vs) && PointsAt(vs[0], ts, td)
    requires Regions(op, sy, sx, ts, td, |vs[0].mem|, k)
    requires ValidLimbs(op, vs[0].mem, ts, sy, k) && ValidLimbs(op, vs[0].mem, td, sx, k)
    ensures Computed(op, sy, sx, ts, td, vs[0], vs[k], k)
    decreases k
  {
    hide Operand, LimbResult, LimbValue, ValidLimb, LimbSize, Mask24, Minus, Base, Adds;
    if k > 0 {
      RestChain(op, sy, sx, vs);
      hide LimbStep, PointsAt, Regions, ValidLimbs, FirstDone, Chain, Limbs, Span, Power, Placed;
      StepMoves(op, sy, sx, ts, td, vs[0], vs[1], k);
      StepLeaves(op, sy, sx, ts, td, vs[0], vs[1], k);
      RestValid(op, vs[0].mem, ts, sy, k);
      RestValid(op, vs[0].mem, td, sx, k);
      ChainComputes(op, sy, sx, ts - sy, td - sx, vs[1..], k - 1);
      ExtendComputed(op, sy, sx, ts, td, vs[0], vs[1], vs[k], k);
    }
  }

  /** The same fact as a modulus: the result and the carry are determined by the operands. */
  lemma CombinedModulo(p: int, adds: bool, d: int, s: int, x: bool, z: bool, r: int, x': bool, z': bool)
    requires Combined(p, adds, d, s, x, z, r, x', z')
    requires 0 <= d < p && 0 <= s < p
    ensures var added := s + if x then 1 else 0;
            r == (if adds then d + added else d - added) % p && x' == (if adds then d + added >= p else d < added)
  {
    var added := s + if x then 1 else 0;
    DivUnique(if adds then d + added else d - added, p, if !x' then 0 else if adds then 1 else -1, r);
  }

  // ----------------------------------------------- undoing a chain

  /** SUBX for ADDX and SBCD for ABCD, and the other way round. */
  function Inverse(op: LimbOp): LimbOp {
    match op
    case AddX(size) => SubX(size)
    case SubX(size) => AddX(size)
    case AddBcd => SubBcd
    case SubBcd => AddBcd
  }

  lemma {:induction false} InverseLimbs(op: LimbOp, mem: seq<Byte>, top: nat, stride: nat, k: nat)
    requires Placed(op, |mem|, top, stride, k)
    ensures Limbs(Inverse(op), mem, top, stride, k) == Limbs(op, mem, top, stride, k)
    ensures ValidLimbs(Inverse(op), mem, top, stride, k) == ValidLimbs(op, mem, top, stride, k)
    decreases k
  {
    hide Operand, ValidBcd, Digits;
    if k > 0 {
      InverseLimbs(op, mem, top - stride, stride, k - 1);
    }
  }

  lemma LimbRange(op: LimbOp, u: Long)
    requires ValidLimb(op, u)
    ensures 0 <= LimbValue(op, u) < Base(op)
  {
  }

  lemma {:induction false} LimbsRange(op: LimbOp, mem: seq<Byte>, top: nat, stride: nat, k: nat)
    requires Placed(op, |mem|, top, stride, k)
    requires ValidLimbs(op, mem, top, stride, k)
    ensures 0 <= Limbs(op, mem, top, stride, k) < Power(Base(op), k)
    decreases k
  {
    if k > 0 {
      LimbRange(op, Operand(mem, top - stride, LimbSize(op)));
      LimbsRange(op, mem, top - stride, stride, k - 1);
      UnderPower(Base(op), LimbValue(op, Operand(mem, top - stride, LimbSize(op))),
                 Limbs(op, mem, top - stride, stride, k - 1), Power(Base(op), k - 1));
      hide Operand, ValidLimb, LimbValue;
    }
  }

  lemma LimbInjective(op: LimbOp, u: Long, w: Long)
    requires ValidLimb(op, u) && ValidLimb(op, w) && LimbValue(op, u) == LimbValue(op, w)
    ensures u == w
  {
    if op.AddBcd? || op.SubBcd? {
      DigitsInjective(u, w);
    }
  }

  lemma DigitsUnique(b: int, x: int, hi: int, y: int, lo: int)
    requires 0 <= x < b && 0 <= y < b && x + b * hi == y + b * lo
    ensures x == y && hi == lo
  {
    assert b * (hi - lo) == y - x;
    Between(hi - lo, b);
  }

  /** Equal limb by limb. */
  predicate SameLimbs(op: LimbOp, a: seq<Byte>, b: seq<Byte>, top: nat, stride: nat, k: nat)
    requires |a| == |b| && Placed(op, |a|, top, stride, k)
    decreases k
  {
    k == 0 || (&& Operand(a, top - stride, LimbSize(op)) == Operand(b, top - stride, LimbSize(op))
               && SameLimbs(op, a, b, top - stride, stride, k - 1))
  }

  /** Valid numbers with the same value are the same limb by limb. */
  lemma {:induction false} LimbsInjective(op: LimbOp, a: seq<Byte>, b: seq<Byte>, top: nat, stride: nat, k: nat)
    requires |a| == |b| && Placed(op, |a|, top, stride, k)
    requires ValidLimbs(op, a, top, stride, k) && ValidLimbs(op, b, top, stride, k)
    requires Limbs(op, a, top, stride, k) == Limbs(op, b, top, stride, k)
    ensures SameLimbs(op, a, b, top, stride, k)
    decreases k
  {
    hide Operand, LimbValue;
    if k > 0 {
      var x, y := Operand(a, top - stride, LimbSize(op)), Operand(b, top - stride, LimbSize(op));
      LimbRange(op, x);
      LimbRange(op, y);
      DigitsUnique(Base(op), LimbValue(op, x), Limbs(op, a, top - stride, stride, k - 1),
                   LimbValue(op, y), Limbs(op, b, top - stride, stride, k - 1));
      LimbInjective(op, x, y);
      LimbsInjective(op, a, b, top - stride, stride, k - 1);
    }
  }

  lemma UndoneNumbers(p: int, adds: bool, d: int, s: int, x: bool, z: bool, r: int, x1: bool, z1: bool,
                      z2: bool, t: int, x2: bool, z3: bool)
    requires Combined(p, adds, d, s, x, z, r, x1, z1) && Combined(p, !adds, r, s, x, z2, t, x2, z3)
    requires 0 <= d < p
    ensures t == d && x2 == x1
  {
    var delta := (if x2 then 1 else 0) - (if x1 then 1 else 0);
    assert t - d == (if adds then delta * p else -delta * p);
  }

  /**
   SUBX undoes ADDX, and SBCD undoes ABCD on packed decimals of any length: running the
   inverse chain with the same source, pointers and initial X brings back the
   destination number, and its borrow is the carry of the first chain.
   */
  lemma ChainUndone(op: LimbOp, sy: nat, sx: nat, ts: nat, td: nat, vs: seq<View>, ws: seq<View>, k: nat)
    requires |vs| == k + 1 && Chain(op, sy, sx, vs) && PointsAt(vs[0], ts, td)
    requires |ws| == k + 1 && Chain(Inverse(op), sy, sx, ws) && PointsAt(ws[0], ts, td)
    requires ws[0].mem == vs[k].mem && ws[0].x == vs[0].x
    requires Regions(op, sy, sx, ts, td, |vs[0].mem|, k)
    requires ValidLimbs(op, vs[0].mem, ts, sy, k) && ValidLimbs(op, vs[0].mem, td, sx, k)
    ensures |ws[k].mem| == |vs[0].mem| && SameLimbs(op, ws[k].mem, vs[0].mem, td, sx, k)
    ensures ws[k].x == vs[k].x
  {
    var a, b, c := vs[0], vs[k], ws[k];
    ChainComputes(op, sy, sx, ts, td, vs, k);
    LimbsSame(op, b.mem, a.mem, ts, sy, k);
    InverseLimbs(op, b.mem, ts, sy, k);
    InverseLimbs(op, b.mem, td, sx, k);
    ChainComputes(Inverse(op), sy, sx, ts, td, ws, k);
    InverseLimbs(op, c.mem, td, sx, k);
    LimbsRange(op, a.mem, td, sx, k);
    hide Limbs, ValidLimbs, SameLimbs, Power, Chain, Mask24, Operand, SameOutside;
    UndoneNumbers(Power(Base(op), k), Adds(op), Limbs(op, a.mem, td, sx, k), Limbs(op, a.mem, ts, sy, k), a.x, a.z,
                  Limbs(op, b.mem, td, sx, k), b.x, b.z, ws[0].z, Limbs(op, c.mem, td, sx, k), c.x, c.z);
    LimbsInjective(op, c.mem, a.mem, td, sx, k);
  }
}
