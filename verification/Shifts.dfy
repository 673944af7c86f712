/**
 The eight bit-at-a-time shift and rotate loops, and the arithmetic each refines.
 */
module Shifts {
  import opened Words
  import opened StatusRegister

  // ------------------------------------------------------- modular rotation

  /** An n-bit word rotated left by r places. */
  function RotateLeft(v: int, n: nat, r: nat): int
    requires r <= n
  {
    (v * Pow2(r)) % Pow2(n) + v / Pow2(n - r)
  }

  /** One place to the left: the top bit comes back in at the bottom. */
  function RolStep(v: int, n: nat): int
    requires n > 0
  {
    if v >= Pow2(n - 1) then 2 * v - Pow2(n) + 1 else 2 * v
  }

  function RorStep(v: int, n: nat): int
    requires n > 0
  {
    v / 2 + (if v % 2 == 1 then Pow2(n - 1) else 0)
  }

  /** A rotation swaps the high r bits, a, with the low n - r bits, b. */
  lemma RotateSplit(v: nat, n: nat, r: nat, a: nat, b: nat)
    requires r <= n && v == a * Pow2(n - r) + b && b < Pow2(n - r) && a < Pow2(r)
    ensures RotateLeft(v, n, r) == b * Pow2(r) + a
  {
    var p, q, m := Pow2(n - r), Pow2(r), Pow2(n);
    Pow2Add(n - r, r);
    DivUnique(v, p, a, b);
    assert v * q == a * m + b * q by {
      assert (a * p + b) * q == a * (p * q) + b * q;
    }
    assert b * q < m by { StrictMul(b, p, q); }
    DivUnique(v * q, m, a, b * q);
  }

  lemma StrictMul(x: int, y: int, q: int)
    requires x < y && q > 0
    ensures x * q < y * q
  {
    assert (y - x) * q >= q by { MulMono(1, y - x, q); }
  }

  lemma Quotient(v: nat, p: nat, q: nat) returns (a: nat, b: nat)
    requires v < p * q && p > 0
    ensures v == a * p + b && b < p && a < q
  {
    a, b := v / p, v % p;
    assert v == a * p + b;
    if a >= q {
      MulMono(q, a, p);
      assert false;
    }
  }

  /** The high r bits and the low n - r bits of a word. */
  lemma Split(v: nat, n: nat, r: nat) returns (a: nat, b: nat)
    requires r <= n && v < Pow2(n)
    ensures v == a * Pow2(n - r) + b && b < Pow2(n - r) && a < Pow2(r)
    ensures RotateLeft(v, n, r) == b * Pow2(r) + a
  {
    var p, q := Pow2(n - r), Pow2(r);
    Pow2Add(n - r, r);
    a, b := Quotient(v, p, q);
    RotateSplit(v, n, r, a, b);
  }

  lemma RotateBound(v: nat, n: nat, r: nat)
    requires r <= n && v < Pow2(n)
    ensures 0 <= RotateLeft(v, n, r) < Pow2(n)
  {
    var p, q := Pow2(n - r), Pow2(r);
    var a, b := Split(v, n, r);
    Pow2Add(n - r, r);
    hide Pow2, RotateLeft;
    BoundProduct(a, b, p, q);
  }

  lemma RotateNone(v: nat, n: nat)
    requires v < Pow2(n)
    ensures RotateLeft(v, n, 0) == v && RotateLeft(v, n, n) == v
  {
    RotateSplit(v, n, 0, 0, v);
    RotateSplit(v, n, n, v, 0);
  }

  lemma RotateStep(v: nat, n: nat, r: nat)
    requires r < n && v < Pow2(n)
    ensures RotateLeft(v, n, r + 1) == RolStep(RotateLeft(v, n, r), n)
  {
    hide Pow2, RotateLeft;
    var p, q := Pow2(n - r - 1), Pow2(r);
    var a, b := Split(v, n, r);
    Doubled(n - r);
    HalfSplit(v, n, r, a, b);
    RolArith(a, b, p, q, RotateLeft(v, n, r), RotateLeft(v, n, r + 1));
    Pow2Add(n - r - 1, r);
    Doubled(n);
  }

  lemma Doubled(n: nat)
    requires n > 0
    ensures Pow2(n) == 2 * Pow2(n - 1)
  {
  }

  lemma RolArith(a: nat, b: nat, p: nat, q: nat, x: int, x': int)
    requires a < q && b < 2 * p && x == b * q + a
    requires x' == if b >= p then (b - p) * (2 * q) + (2 * a + 1) else b * (2 * q) + 2 * a
    ensures x' == if x >= p * q then 2 * x - 2 * (p * q) + 1 else 2 * x
  {
    if b >= p {
      MulMono(p, b, q);
    } else {
      BoundProduct(a, b, p, q);
    }
    assert (b - p) * (2 * q) == 2 * (b * q) - 2 * (p * q);
    assert b * (2 * q) == 2 * (b * q);
  }

  /** One more bit moves from the low part to the high part. */
  lemma HalfSplit(v: nat, n: nat, r: nat, a: nat, b: nat)
    requires r < n && v == a * Pow2(n - r) + b && b < Pow2(n - r) && a < Pow2(r)
    ensures var p := Pow2(n - r - 1);
            RotateLeft(v, n, r + 1) == if b >= p then (b - p) * (2 * Pow2(r)) + (2 * a + 1)
              else b * (2 * Pow2(r)) + 2 * a
  {
    var p := Pow2(n - r - 1);
    assert Pow2(n - r) == 2 * p && Pow2(r + 1) == 2 * Pow2(r);
    assert a * (2 * p) == (2 * a) * p;
    if b >= p {
      assert (2 * a + 1) * p == (2 * a) * p + p;
      RotateSplit(v, n, r + 1, 2 * a + 1, b - p);
    } else {
      RotateSplit(v, n, r + 1, 2 * a, b);
    }
  }

  lemma RorUndoesRol(v: nat, n: nat)
    requires n > 0 && v < Pow2(n)
    ensures RorStep(RolStep(v, n), n) == v
  {
    assert Pow2(n) == 2 * Pow2(n - 1);
  }

  lemma RotateBack(v: nat, n: nat, r: nat)
    requires 0 < r <= n && v < Pow2(n)
    ensures RorStep(RotateLeft(v, n, r), n) == RotateLeft(v, n, r - 1)
  {
    RotateStep(v, n, r - 1);
    RotateBound(v, n, r - 1);
    RorUndoesRol(RotateLeft(v, n, r - 1), n);
  }

  lemma {:induction false} RotateAdd(v: nat, n: nat, r: nat, s: nat)
    requires r + s <= n && v < Pow2(n)
    ensures 0 <= RotateLeft(v, n, r) < Pow2(n)
    ensures RotateLeft(RotateLeft(v, n, r), n, s) == RotateLeft(v, n, r + s)
    decreases s
  {
    RotateBound(v, n, r);
    if s == 0 {
      RotateNone(RotateLeft(v, n, r), n);
    } else {
      RotateAdd(v, n, r, s - 1);
      RotateStep(RotateLeft(v, n, r), n, s - 1);
      RotateStep(v, n, r + s - 1);
    }
  }

  /** A rotation and the opposite rotation by the same count restore the word. */
  lemma OppositeRotations(v: nat, n: nat, count: nat)
    requires n > 0 && v < Pow2(n)
    ensures var left := RotateLeft(v, n, count % n);
            0 <= left < Pow2(n) && RotateLeft(left, n, n - count % n) == v
    ensures var right := RotateLeft(v, n, n - count % n);
            0 <= right < Pow2(n) && RotateLeft(right, n, count % n) == v
  {
    RotateAdd(v, n, count % n, n - count % n);
    RotateAdd(v, n, n - count % n, count % n);
    RotateNone(v, n);
  }

  lemma NextCount(i: nat, n: nat)
    requires n > 0
    ensures (i + 1) % n == if i % n + 1 == n then 0 else i % n + 1
  {
    var q, r := i / n, i % n;
    assert i == q * n + r by { assert i == n * q + r; }
    if r + 1 == n {
      assert (q + 1) * n == q * n + n;
      DivUnique(i + 1, n, q + 1, 0);
    } else {
      DivUnique(i + 1, n, q, r + 1);
    }
  }

  lemma RolByCount(v: nat, n: nat, i: nat)
    requires n > 0 && v < Pow2(n)
    ensures 0 <= RotateLeft(v, n, i % n) < Pow2(n)
    ensures RolStep(RotateLeft(v, n, i % n), n) == RotateLeft(v, n, (i + 1) % n)
  {
    hide Pow2, RotateLeft, RolStep, RorStep;
    NextCount(i, n);
    RotateBound(v, n, i % n);
    RotateStep(v, n, i % n);
    RotateNone(v, n);
  }

  lemma RorByCount(v: nat, n: nat, i: nat)
    requires n > 0 && v < Pow2(n)
    ensures 0 <= RotateLeft(v, n, n - i % n) < Pow2(n)
    ensures RorStep(RotateLeft(v, n, n - i % n), n) == RotateLeft(v, n, n - (i + 1) % n)
  {
    hide Pow2, RotateLeft, RolStep, RorStep;
    NextCount(i, n);
    RotateBound(v, n, n - i % n);
    RotateBack(v, n, n - i % n);
    RotateNone(v, n);
  }

  // -------------------------------------------------------------- the loops

  lemma ModulusIsPow2(size: Size)
    ensures size.Modulus() == Pow2(size.Bits()) && size.Msb() == Pow2(size.Bits() - 1)
  {
    assert Pow2(4) == 16;
    Pow2Add(4, 4);
    Pow2Add(8, 8);
    Pow2Add(16, 16);
    Doubled(8);
    Doubled(16);
    Doubled(32);
  }

  lemma HalveAgain(x: int, i: nat)
    ensures (x / Pow2(i)) / 2 == x / Pow2(i + 1)
  {
    Doubled(i + 1);
    var p := Pow2(i);
    hide Pow2;
    HalveQuotient(x, p);
  }

  lemma HalveQuotient(x: int, p: nat)
    requires p > 0
    ensures (x / p) / 2 == x / (2 * p)
  {
    var a, b := x / p, x % p;
    assert x == p * a + b;
    var c, d := a / 2, a % 2;
    assert a == 2 * c + d;
    assert x == c * (2 * p) + (d * p + b) by { assert p * (2 * c + d) == c * (2 * p) + d * p; }
    assert 0 <= d * p + b < 2 * p by { if d == 0 { assert d * p == 0; } else { assert d == 1 && d * p == p; } }
    DivUnique(x, 2 * p, c, d * p + b);
  }

  /** LSR is unsigned floor division by a power of two; the carry is the last bit out. */
  method LsrLoop(value: Long, count: nat) returns (result: Long, carry: bool)
    ensures result == value / Pow2(count)
    ensures carry == (count > 0 && (value / Pow2(count - 1)) % 2 == 1)
  {
    result, carry := value, false;
    for i := 0 to count
      invariant result == value / Pow2(i)
      invariant carry == (i > 0 && (value / Pow2(i - 1)) % 2 == 1)
    {
      carry := result % 2 == 1;
      result := result / 2;
      HalveAgain(value, i);
    }
  }

  /** ASR is floor division of the signed operand. */
  method AsrLoop(value: Long, count: nat, size: Size) returns (result: Long, carry: bool)
    requires value < size.Modulus()
    ensures result < size.Modulus() && TwosComplement(result, size) == TwosComplement(value, size) / Pow2(count)
    ensures carry == (count > 0 && (TwosComplement(value, size) / Pow2(count - 1)) % 2 == 1)
  {
    result, carry := value, false;
    ghost var s := TwosComplement(value, size);
    for i := 0 to count
      invariant result < size.Modulus() && TwosComplement(result, size) == s / Pow2(i)
      invariant carry == (i > 0 && (s / Pow2(i - 1)) % 2 == 1)
    {
      AsrStep(result, size);
      HalveAgain(s, i);
      carry := result % 2 == 1;
      var sign := if result >= size.Msb() then size.Msb() else 0;
      result := result / 2 + sign;
    }
  }

  lemma AsrStep(result: Long, size: Size)
    requires result < size.Modulus()
    ensures var next := result / 2 + (if result >= size.Msb() then size.Msb() else 0);
            next < size.Modulus() && TwosComplement(next, size) == TwosComplement(result, size) / 2
    ensures TwosComplement(result, size) % 2 == result % 2
  {
  }

  /** LSL multiplies modulo the operand size; the carry is the last bit out of the top. */
  method LslLoop(value: Long, count: nat, size: Size) returns (result: Long, carry: bool)
    requires value < size.Modulus()
    ensures result == (value * Pow2(count)) % size.Modulus()
    ensures carry == (count > 0 && (value * Pow2(count) / size.Modulus()) % 2 == 1)
  {
    result, carry := value, false;
    ghost var m := size.Modulus();
    for i := 0 to count
      invariant result == (value * Pow2(i)) % m
      invariant carry == (i > 0 && (value * Pow2(i) / m) % 2 == 1)
    {
      DoubleAgain(value, i, size);
      carry := result >= size.Msb();
      result := Low(Wrap(2 * result), size);
    }
  }

  lemma DoubleAgain(v: int, i: nat, size: Size)
    requires v >= 0
    ensures var m := size.Modulus(); var r := (v * Pow2(i)) % m;
            && Low(Wrap(2 * r), size) == (v * Pow2(i + 1)) % m
            && (r >= size.Msb() <==> (v * Pow2(i + 1) / m) % 2 == 1)
  {
    var m, t := size.Modulus(), v * Pow2(i);
    Doubled(i + 1);
    assert v * Pow2(i + 1) == 2 * t by { assert v * (2 * Pow2(i)) == 2 * (v * Pow2(i)); }
    hide Pow2;
    DoubleMod(t, size);
  }

  lemma DoubleMod(t: int, size: Size)
    requires t >= 0
    ensures var m := size.Modulus(); var r := t % m;
            && Low(Wrap(2 * r), size) == (2 * t) % m
            && (r >= size.Msb() <==> (2 * t / m) % 2 == 1)
  {
    var m := size.Modulus();
    var q, r := t / m, t % m;
    LowOfWrap(2 * r, size);
    assert 2 * t == m * (2 * q) + 2 * r;
    ModShift(2 * r, 2 * q, m);
    var h := if r >= size.Msb() then 1 else 0;
    DivUnique(2 * t, m, 2 * q + h, 2 * r - h * m);
  }

  /** ASL shifts like LSL and reports whether the signed product ever left its range. */
  method AslLoop(value: Long, count: nat, size: Size) returns (result: Long, carry: bool, overflow: bool)
    requires value < size.Modulus()
    ensures result == (value * Pow2(count)) % size.Modulus()
    ensures carry == (count > 0 && (value * Pow2(count) / size.Modulus()) % 2 == 1)
    ensures overflow == !InSignedRange(TwosComplement(value, size) * Pow2(count), size)
  {
    hide Pow2, InSignedRange, TwosComplement;
    result, carry, overflow := value, false, false;
    AslStart(value, size);
    ghost var m, s := size.Modulus(), TwosComplement(value, size);
    for i := 0 to count
      invariant result == (value * Pow2(i)) % m
      invariant carry == (i > 0 && (value * Pow2(i) / m) % 2 == 1)
      invariant overflow == !InSignedRange(s * Pow2(i), size)
      invariant !overflow ==> TwosComplement(result, size) == s * Pow2(i)
    {
      DoubleAgain(value, i, size);
      DoubledProduct(s, i);
      AslStep(result, s * Pow2(i), size);
      var oldMsb := result >= size.Msb();
      carry := oldMsb;
      result := Low(Wrap(2 * result), size);
      var newMsb := result >= size.Msb();
      if oldMsb != newMsb {
        overflow := true;
      }
    }
  }

  lemma AslStart(value: Long, size: Size)
    requires value < size.Modulus()
    ensures (value * Pow2(0)) % size.Modulus() == value
    ensures TwosComplement(value, size) * Pow2(0) == TwosComplement(value, size)
    ensures InSignedRange(TwosComplement(value, size), size)
  {
  }

  lemma DoubledProduct(s: int, i: nat)
    ensures s * Pow2(i + 1) == 2 * (s * Pow2(i))
  {
    assert s * (2 * Pow2(i)) == 2 * (s * Pow2(i));
  }

  /** A doubling stays in range exactly when it keeps the sign bit. */
  lemma AslStep(result: Long, t: int, size: Size)
    requires result < size.Modulus()
    ensures !InSignedRange(t, size) ==> !InSignedRange(2 * t, size)
    ensures TwosComplement(result, size) == t ==>
      var next := Low(Wrap(2 * result), size);
      && (InSignedRange(2 * t, size) <==> (result >= size.Msb() <==> next >= size.Msb()))
      && (InSignedRange(2 * t, size) ==> TwosComplement(next, size) == 2 * t)
  {
    LowOfWrap(2 * result, size);
  }

  method RolLoop(value: Long, count: nat, size: Size) returns (result: Long, carry: bool)
    requires value < size.Modulus()
    ensures result < size.Modulus() && result == RotateLeft(value, size.Bits(), count % size.Bits())
    ensures carry == (count > 0 && result % 2 == 1)
  {
    ModulusIsPow2(size);
    hide Pow2, RotateLeft, RolStep, RorStep;
    RotateNone(value, size.Bits());
    result, carry := value, false;
    for i := 0 to count
      invariant result < size.Modulus() && result == RotateLeft(value, size.Bits(), i % size.Bits())
      invariant carry == (i > 0 && result % 2 == 1)
    {
      RolByCount(value, size.Bits(), i);
      RotateLoopSteps(result, size);
      carry := result >= size.Msb();
      result := Low(Wrap(2 * result), size);
      if carry {
        result := result + 1;
      }
    }
  }

  /** One turn of each rotate loop is one step of the modular rotation. */
  lemma RotateLoopSteps(result: Long, size: Size)
    requires result < size.Modulus()
    ensures var next := Low(Wrap(2 * result), size) + (if result >= size.Msb() then 1 else 0);
            next == RolStep(result, size.Bits()) && next < size.Modulus()
            && (next % 2 == 1 <==> result >= size.Msb())
    ensures var next := result / 2 + (if result % 2 == 1 then size.Msb() else 0);
            next == RorStep(result, size.Bits()) && next < size.Modulus()
            && (next >= size.Msb() <==> result % 2 == 1)
  {
    hide Pow2, Low, Wrap;
    ModulusIsPow2(size);
    LowOfDouble(result, size);
  }

  method RorLoop(value: Long, count: nat, size: Size) returns (result: Long, carry: bool)
    requires value < size.Modulus()
    ensures result < size.Modulus() && result == RotateLeft(value, size.Bits(), size.Bits() - count % size.Bits())
    ensures carry == (count > 0 && result >= size.Msb())
  {
    ModulusIsPow2(size);
    hide Pow2, RotateLeft, RolStep, RorStep;
    ghost var n := size.Bits();
    RotateNone(value, n);
    result, carry := value, false;
    for i := 0 to count
      invariant result < size.Modulus() && result == RotateLeft(value, n, n - i % n)
      invariant carry == (i > 0 && result >= size.Msb())
    {
      RorByCount(value, n, i);
      RotateLoopSteps(result, size);
      carry := result % 2 == 1;
      result := result / 2;
      if carry {
        result := result + size.Msb();
      }
    }
  }

  /** The extend bit on top of the operand: the word the extended rotates turn. */
  function Extended(x: bool, value: int, size: Size): int {
    (if x then size.Modulus() else 0) + value
  }

  lemma LowOfDouble(result: Long, size: Size)
    requires result < size.Modulus()
    ensures Low(Wrap(2 * result), size) == 2 * result - (if result >= size.Msb() then size.Modulus() else 0)
  {
    LowOfWrap(2 * result, size);
  }

  lemma RoxlLoopStep(result: Long, extend: bool, size: Size)
    requires result < size.Modulus()
    ensures var next := Low(Wrap(2 * result), size) + (if extend then 1 else 0);
            next < size.Modulus()
            && Extended(result >= size.Msb(), next, size) == RolStep(Extended(extend, result, size), size.Bits() + 1)
  {
    ModulusIsPow2(size);
    LowOfDouble(result, size);
    Doubled(size.Bits() + 1);
    Doubled(size.Bits());
    hide Pow2, Wrap, Low;
  }

  lemma RoxrLoopStep(result: Long, extend: bool, size: Size)
    requires result < size.Modulus()
    ensures var next := result / 2 + (if extend then size.Msb() else 0);
            next < size.Modulus()
            && Extended(result % 2 == 1, next, size) == RorStep(Extended(extend, result, size), size.Bits() + 1)
  {
    ModulusIsPow2(size);
    hide Pow2;
    var w := Extended(extend, result, size);
    assert w / 2 == result / 2 + (if extend then size.Msb() else 0) && w % 2 == result % 2;
  }

  lemma ExtendedBound(x: bool, value: Long, size: Size)
    requires value < size.Modulus()
    ensures 0 <= Extended(x, value, size) < Pow2(size.Bits() + 1)
  {
    ModulusIsPow2(size);
    Doubled(size.Bits() + 1);
    hide Pow2;
  }

  method RoxlLoop(value: Long, count: nat, size: Size, x: bool) returns (result: Long, extend: bool)
    requires value < size.Modulus()
    ensures result < size.Modulus()
    ensures Extended(extend, result, size)
            == RotateLeft(Extended(x, value, size), size.Bits() + 1, count % (size.Bits() + 1))
  {
    hide Pow2, RotateLeft, RolStep, RorStep, Extended;
    ghost var n, w := size.Bits() + 1, Extended(x, value, size);
    ExtendedBound(x, value, size);
    RotateNone(w, n);
    result, extend := value, x;
    for i := 0 to count
      invariant result < size.Modulus()
      invariant Extended(extend, result, size) == RotateLeft(w, n, i % n)
    {
      RolByCount(w, n, i);
      RoxlLoopStep(result, extend, size);
      var out := result >= size.Msb();
      result := Low(Wrap(2 * result), size);
      if extend {
        result := result + 1;
      }
      extend := out;
    }
  }

  method RoxrLoop(value: Long, count: nat, size: Size, x: bool) returns (result: Long, extend: bool)
    requires value < size.Modulus()
    ensures result < size.Modulus()
    ensures Extended(extend, result, size)
            == RotateLeft(Extended(x, value, size), size.Bits() + 1, size.Bits() + 1 - count % (size.Bits() + 1))
  {
    hide Pow2, RotateLeft, RolStep, RorStep, Extended;
    ghost var n, w := size.Bits() + 1, Extended(x, value, size);
    ExtendedBound(x, value, size);
    RotateNone(w, n);
    result, extend := value, x;
    for i := 0 to count
      invariant result < size.Modulus()
      invariant Extended(extend, result, size) == RotateLeft(w, n, n - i % n)
    {
      RorByCount(w, n, i);
      RoxrLoopStep(result, extend, size);
      var out := result % 2 == 1;
      result := result / 2;
      if extend {
        result := result + size.Msb();
      }
      extend := out;
    }
  }

  // --------------------------------------------------- the eight instructions

  datatype ShiftKind = Asr | Asl | Lsr | Lsl | Roxr | Roxl | Ror | Rol

  predicate IsRox(kind: ShiftKind) {
    kind.Roxr? || kind.Roxl?
  }

  predicate IsRotate(kind: ShiftKind) {
    kind.Ror? || kind.Rol?
  }

  /** A rotation by count, counted in places to the left. */
  function Turn(kind: ShiftKind, count: nat, n: nat): (r: nat)
    requires n > 0
    ensures r <= n
  {
    if kind.Rol? || kind.Roxl? then count % n else n - count % n
  }

  /** The arithmetic each instruction performs on its operand and the extend bit. */
  ghost predicate Shifted(kind: ShiftKind, count: nat, size: Size, value: Long, x: bool,
                          result: Long, carry: bool, overflow: bool, extend: bool)
  {
    var n, m, s := size.Bits(), size.Modulus(), TwosComplement(value, size);
    && result < m
    && (kind.Asr? || kind.Asl? || kind.Lsr? || kind.Lsl? ==> extend == if count == 0 then x else carry)
    && (kind.Ror? || kind.Rol? ==> extend == x)
    && (!kind.Asl? ==> !overflow)
    && match kind
       case Asr => TwosComplement(result, size) == s / Pow2(count)
                   && carry == (count > 0 && (s / Pow2(count - 1)) % 2 == 1)
       case Lsr => result == value / Pow2(count) && carry == (count > 0 && (value / Pow2(count - 1)) % 2 == 1)
       case Asl => result == (value * Pow2(count)) % m && carry == (count > 0 && (value * Pow2(count) / m) % 2 == 1)
                   && overflow == !InSignedRange(s * Pow2(count), size)
       case Lsl => result == (value * Pow2(count)) % m && carry == (count > 0 && (value * Pow2(count) / m) % 2 == 1)
       case Ror => result == RotateLeft(value, n, Turn(kind, count, n)) && carry == (count > 0 && result >= size.Msb())
       case Rol => result == RotateLeft(value, n, Turn(kind, count, n)) && carry == (count > 0 && result % 2 == 1)
       case _ => Extended(extend, result, size) == RotateLeft(Extended(x, value, size), n + 1, Turn(kind, count, n + 1))
                 && carry == extend
  }

  method Shift(kind: ShiftKind, count: nat, size: Size, value: Long, x: bool)
    returns (result: Long, carry: bool, overflow: bool, extend: bool)
    requires value < size.Modulus()
    ensures Shifted(kind, count, size, value, x, result, carry, overflow, extend)
  {
    hide Pow2, RotateLeft, TwosComplement, InSignedRange, Extended;
    overflow, extend := false, x;
    match kind {
      case Asr =>
        result, carry := AsrLoop(value, count, size);
        extend := if count == 0 then x else carry;
      case Asl =>
        result, carry, overflow := AslLoop(value, count, size);
        extend := if count == 0 then x else carry;
        ResultBound(value, count, size);
      case Lsr =>
        result, carry := LsrLoop(value, count);
        extend := if count == 0 then x else carry;
        QuotientBound(value, count);
      case Lsl =>
        result, carry := LslLoop(value, count, size);
        extend := if count == 0 then x else carry;
        ResultBound(value, count, size);
      case Ror =>
        result, carry := RorLoop(value, count, size);
      case Rol =>
        result, carry := RolLoop(value, count, size);
      case Roxr =>
        result, extend := RoxrLoop(value, count, size, x);
        carry := extend;
      case Roxl =>
        result, extend := RoxlLoop(value, count, size, x);
        carry := extend;
    }
  }

  lemma ResultBound(value: int, count: nat, size: Size)
    ensures 0 <= (value * Pow2(count)) % size.Modulus() < size.Modulus()
  {
    hide Pow2;
  }

  lemma QuotientBound(value: nat, count: nat)
    ensures value / Pow2(count) <= value
  {
    var p := Pow2(count);
    hide Pow2;
    var q := value / p;
    assert q * p <= value by { assert value == p * q + value % p; }
    MulMono(1, p, q);
  }

  predicate Opposite(kind: ShiftKind, other: ShiftKind) {
    (kind.Ror? && other.Rol?) || (kind.Rol? && other.Ror?) || (kind.Roxr? && other.Roxl?) || (kind.Roxl? && other.Roxr?)
  }

  lemma OppositeTurns(kind: ShiftKind, other: ShiftKind, v: nat, n: nat, count: nat)
    requires Opposite(kind, other) && n > 0 && v < Pow2(n)
    ensures RotateLeft(RotateLeft(v, n, Turn(kind, count, n)), n, Turn(other, count, n)) == v
  {
    hide Pow2, RotateLeft;
    OppositeRotations(v, n, count);
  }

  /** Rotating back by the same count restores the operand and the extend bit, for every count. */
  lemma RotateThereAndBack(kind: ShiftKind, other: ShiftKind, count: nat, size: Size, value: Long, x: bool,
                           r1: Long, c1: bool, v1: bool, x1: bool, r2: Long, c2: bool, v2: bool, x2: bool)
    requires Opposite(kind, other) && value < size.Modulus()
    requires Shifted(kind, count, size, value, x, r1, c1, v1, x1)
    requires Shifted(other, count, size, r1, x1, r2, c2, v2, x2)
    ensures r2 == value && x2 == x
  {
    hide Pow2, RotateLeft, Extended, TwosComplement, InSignedRange, Turn;
    ModulusIsPow2(size);
    ExtendedBound(x, value, size);
    if IsRotate(kind) {
      OppositeTurns(kind, other, value, size.Bits(), count);
    } else {
      OppositeTurns(kind, other, Extended(x, value, size), size.Bits() + 1, count);
      ExtendedInjective(x, value, x2, r2, size);
    }
  }

  lemma ExtendedInjective(x: bool, value: Long, x': bool, value': Long, size: Size)
    ensures value < size.Modulus() && value' < size.Modulus() && Extended(x, value, size) == Extended(x', value', size)
            ==> x == x' && value == value'
  {
  }
}
