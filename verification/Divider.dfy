/**
 Division: the values of DIVU and DIVS, and the two microcode walks that time them.
 */
module Divider {
  import opened Words
  import opened StatusRegister
  import opened Shifts

  // ---------------------------------------------------- quotients and powers

  lemma DivCancel(x: nat, y: nat, e: nat)
    requires y > 0 && e > 0
    ensures y * e > 0 && (x * e) / (y * e) == x / y
  {
    var q, r := x / y, x % y;
    assert x == y * q + r;
    assert y * e > 0 by { MulMono(1, e, y); }
    assert x * e == q * (y * e) + r * e by { assert (y * q + r) * e == q * (y * e) + r * e; }
    StrictMul(r, y, e);
    assert 0 <= r * e;
    DivUnique(x * e, y * e, q, r * e);
  }

  lemma DoubleDivMod(t: nat, m: nat)
    requires m > 0
    ensures (2 * t) % m == if 2 * (t % m) >= m then 2 * (t % m) - m else 2 * (t % m)
    ensures (2 * t / m) % 2 == 1 <==> 2 * (t % m) >= m
  {
    var q, r := t / m, t % m;
    assert t == m * q + r;
    var h := if 2 * r >= m then 1 else 0;
    assert 2 * t == (2 * q + h) * m + (2 * r - h * m) by { assert m * q + m * q == (2 * q) * m; }
    DivUnique(2 * t, m, 2 * q + h, 2 * r - h * m);
  }

  // -------------------------------------------------------- the DIVU walk

  /** The partial remainder before step i of a restoring division. */
  function Remainder(dividend: nat, divisor: nat, i: nat): int
    requires divisor > 0
  {
    (dividend * Pow2(i)) % (divisor * 0x1_0000)
  }

  lemma NextPower(x: nat, i: nat)
    ensures x * Pow2(i) >= 0 && x * Pow2(i + 1) == 2 * (x * Pow2(i))
  {
    DoubledProduct(x, i);
    MulMono(0, x, Pow2(i));
  }

  lemma QuotientOfStep(x: nat, divisor: nat, i: nat)
    requires divisor > 0 && i <= 15
    ensures (x * Pow2(i + 1)) / (divisor * 0x1_0000) == (x / divisor) / Pow2(15 - i)
  {
    hide Pow2;
    var p, e := Pow2(15 - i), Pow2(i + 1);
    Pow2Add(15 - i, i + 1);
    PowerOf16();
    assert divisor * 0x1_0000 == (divisor * p) * e by { assert divisor * (p * e) == (divisor * p) * e; }
    DivDiv(x, divisor, p);
    DivCancel(x, divisor * p, e);
  }

  lemma PowerOf16()
    ensures Pow2(16) == 0x1_0000
  {
    ModulusIsPow2(WordSize);
  }

  /** The one bits below bit k. */
  function OnesBelow(w: int, k: nat): nat {
    if k == 0 then 0 else OnesBelow(w, k - 1) + (if Bit(w, k - 1) then 1 else 0)
  }

  lemma {:induction false} OnesBelowHalf(w: nat, k: nat)
    ensures OnesBelow(w, k + 1) == w % 2 + OnesBelow(w / 2, k)
  {
    if k > 0 {
      OnesBelowHalf(w, k - 1);
      DivDiv(w, 2, Pow2(k - 1));
      assert Pow2(k) == 2 * Pow2(k - 1);
    }
  }

  lemma {:induction false} OnesBelowAll(w: nat, k: nat)
    requires w < Pow2(k)
    ensures OnesBelow(w, k) == Ones(w)
  {
    if k > 0 {
      OnesBelowHalf(w, k - 1);
      OnesBelowAll(w / 2, k - 1);
    }
  }

  /**
   The restoring division takes its subtracting branch exactly at the set bits of the
   quotient, and its remainders follow the schoolbook recurrence.
   */
  lemma RestoringStep(x: nat, divisor: nat, i: nat)
    requires divisor > 0 && i <= 15
    ensures var r, h := Remainder(x, divisor, i), divisor * 0x1_0000;
            && 0 <= r < h
            && (2 * r >= h <==> Bit(x / divisor, 15 - i))
            && Remainder(x, divisor, i + 1) == if 2 * r >= h then 2 * r - h else 2 * r
  {
    NextPower(x, i);
    DoubleDivMod(x * Pow2(i), divisor * 0x1_0000);
    QuotientOfStep(x, divisor, i);
  }

  /** The cost of one step of the walk beyond its base: by quotient bit and remainder size. */
  function StepCost(dividend: Long, divisor: Word, i: nat): (cost: nat)
    requires divisor > 0 && i < 16
    ensures cost <= 2
  {
    if !Bit(dividend / divisor, 15 - i) then 2
    else if Remainder(dividend, divisor, i) >= 0x8000_0000 then 0
    else 1
  }

  function WalkCost(dividend: Long, divisor: Word, steps: nat): (cost: nat)
    requires divisor > 0 && steps <= 15
    ensures cost <= 2 * steps
  {
    if steps == 0 then 0 else WalkCost(dividend, divisor, steps - 1) + StepCost(dividend, divisor, steps - 1)
  }

  /** One step of the walk on 32-bit registers, wrap-around included. */
  method WalkStep(d: Long, hdivisor: Long) returns (next: Long, cost: int)
    requires d < hdivisor
    ensures next == if 2 * d >= hdivisor then 2 * d - hdivisor else 2 * d
    ensures cost == if 2 * d < hdivisor then 2 else if d >= 0x8000_0000 then 0 else 1
  {
    if d >= 0x8000_0000 {
      next := Wrap(2 * d);
      next, cost := Minus(next, hdivisor), 0;
    } else {
      next := Wrap(2 * d);
      if next >= hdivisor {
        next, cost := next - hdivisor, 1;
      } else {
        cost := 2;
      }
    }
  }

  /** The DIVU timing walk. */
  method DivuWalk(dividend: Long, divisor: Word) returns (m: int)
    requires divisor > 0 && dividend / 0x1_0000 < divisor
    ensures m == 38 + WalkCost(dividend, divisor, 15)
    ensures 76 <= 2 * m <= 136
  {
    m := 38;
    var d := dividend;
    var hdivisor := divisor * 0x1_0000;
    StartsBelow(dividend, divisor);
    for i := 0 to 15
      invariant m == 38 + WalkCost(dividend, divisor, i)
      invariant d == Remainder(dividend, divisor, i)
    {
      hide Remainder, Bit;
      RestoringStep(dividend, divisor, i);
      var cost;
      d, cost := WalkStep(d, hdivisor);
      m := m + cost;
    }
  }

  lemma StartsBelow(dividend: Long, divisor: Word)
    requires divisor > 0 && dividend / 0x1_0000 < divisor
    ensures Remainder(dividend, divisor, 0) == dividend
  {
    var h := divisor * 0x1_0000;
    assert dividend < h;
    assert dividend * Pow2(0) == dividend;
    DivUnique(dividend, h, 0, dividend);
  }

  /** The ten-cycle early exit is taken exactly when the quotient does not fit a word. */
  lemma EarlyExit(dividend: nat, divisor: nat)
    requires divisor > 0
    ensures dividend / 0x1_0000 >= divisor <==> dividend / divisor > 0xFFFF
  {
    var q, r := dividend / divisor, dividend % divisor;
    assert dividend == divisor * q + r;
    if q >= 0x1_0000 {
      MulMono(0x1_0000, q, divisor);
    } else {
      MulMono(q, 0xFFFF, divisor);
      assert dividend < divisor * 0x1_0000;
    }
  }

  // ------------------------------------------------------ the DIVS bit count

  /** The zeros among bits 15 down to 16 - steps of a quotient. */
  function ZeroBits(quotient: int, steps: nat): (zeros: nat)
    requires steps <= 15
    ensures zeros <= steps
  {
    if steps == 0 then 0
    else ZeroBits(quotient, steps - 1) + (if Bit(quotient, 16 - steps) then 0 else 1)
  }

  lemma TopBit(q: nat, i: nat)
    requires i <= 15
    ensures (q * Pow2(i)) % 0x1_0000 >= 0x8000 <==> Bit(q, 15 - i)
  {
    NextPower(q, i);
    DoubleDivMod(q * Pow2(i), 0x1_0000);
    QuotientOfStep(q, 1, i);
  }

  lemma LowWordOfDouble(x: Long)
    ensures Wrap(2 * x) % 0x1_0000 == (2 * (x % 0x1_0000)) % 0x1_0000
  {
    LowOfWrap(2 * x, WordSize);
    ModShift(2 * (x % 0x1_0000), 2 * (x / 0x1_0000), 0x1_0000);
  }

  lemma LowWordOfDoubledPower(q: nat, i: nat)
    ensures (2 * ((q * Pow2(i)) % 0x1_0000)) % 0x1_0000 == (q * Pow2(i + 1)) % 0x1_0000
  {
    NextPower(q, i);
    var t := q * Pow2(i);
    hide Pow2;
    ModShift(2 * (t % 0x1_0000), 2 * (t / 0x1_0000), 0x1_0000);
  }

  method CountZeros(quotient: Word) returns (zeros: nat)
    ensures zeros == ZeroBits(quotient, 15)
  {
    zeros := 0;
    var q: Long := quotient;
    for i := 0 to 15
      invariant zeros == ZeroBits(quotient, i)
      invariant q % 0x1_0000 == (quotient * Pow2(i)) % 0x1_0000
    {
      hide Bit, Pow2;
      TopBit(quotient, i);
      LowWordOfDouble(q);
      LowWordOfDoubledPower(quotient, i);
      if q % 0x1_0000 < 0x8000 {
        zeros := zeros + 1;
      }
      q := Wrap(2 * q);
    }
  }

  // ---------------------------------------------------------- signed division

  function Abs(x: int): nat {
    if x < 0 then -x else x
  }

  /** C division: the quotient of the magnitudes, with the sign of the product. */
  function TruncQuotient(x: int, y: int): int
    requires y != 0
  {
    var q := Abs(x) / Abs(y);
    if (x < 0) != (y < 0) then -q else q
  }

  function TruncRemainder(x: int, y: int): int
    requires y != 0
  {
    x - TruncQuotient(x, y) * y
  }

  /** The quotient truncates, and the remainder is smaller than the divisor and has the dividend's sign. */
  lemma TruncatedDivision(x: int, y: int)
    requires y != 0
    ensures x == TruncQuotient(x, y) * y + TruncRemainder(x, y)
    ensures Abs(TruncRemainder(x, y)) < Abs(y)
    ensures TruncRemainder(x, y) == 0 || (TruncRemainder(x, y) < 0 <==> x < 0)
    ensures Abs(TruncQuotient(x, y)) == Abs(x) / Abs(y)
    ensures TruncRemainder(x, y) == if x < 0 then -(Abs(x) % Abs(y)) else Abs(x) % Abs(y)
  {
    var q, r := DivMod(Abs(x), Abs(y));
    SignedProduct(q, y);
  }

  lemma DivMod(a: int, b: int) returns (q: nat, r: nat)
    requires a >= 0 && b > 0
    ensures a == q * b + r && r < b && a / b == q && a % b == r
  {
    QuotientNonnegative(a, b);
    q, r := a / b, a % b;
  }

  lemma SignedProduct(q: int, y: int)
    ensures (-q) * y == -(q * y) && q * Abs(y) == if y < 0 then -(q * y) else q * y
  {
  }

  lemma QuotientNonnegative(a: int, b: int)
    requires a >= 0 && b > 0
    ensures a / b >= 0
  {
  }

  /** The cheap exit of DIVS: too big whatever the signs. */
  lemma CheapExitOverflows(x: int, y: int)
    requires y != 0 && Abs(x) / 0x1_0000 >= Abs(y)
    ensures TruncQuotient(x, y) < -32768 || TruncQuotient(x, y) > 32767
  {
    EarlyExit(Abs(x), Abs(y));
  }

  /** The cycles of DIVS. */
  function DivsCost(x: int, y: int): int
    requires y != 0
  {
    if Abs(x) / 0x1_0000 >= Abs(y) then (if x < 0 then 18 else 16)
    else 2 * ((if x < 0 then 62 else 61)
              + (if y >= 0 then (if x < 0 then 1 else -1) else 0)
              + ZeroBits(Abs(x) / Abs(y), 15))
  }

  lemma DivsCostRange(x: int, y: int)
    requires y != 0
    ensures Abs(x) / 0x1_0000 < Abs(y) ==> 120 <= DivsCost(x, y) <= 156
    ensures DivsCost(x, y) >= 16
  {
    QuotientNonnegative(Abs(x), Abs(y));
  }

  /** The DIVS timing code. */
  method DivsCharge(x: int, y: int) returns (cycles: int)
    requires y != 0 && -0x8000_0000 <= x < 0x8000_0000 && -0x8000 <= y < 0x8000
    ensures cycles == DivsCost(x, y)
  {
    var m := if x < 0 then 7 else 6;
    var dividend: Long := if x < 0 then -x else x;
    var divisor: Long := if y < 0 then -y else y;
    if dividend / 0x1_0000 >= divisor {
      return (m + 2) * 2;
    }
    m := m + 55;
    if y >= 0 {
      m := m + (if x < 0 then 1 else -1);
    }
    EarlyExit(dividend, divisor);
    QuotientNonnegative(dividend, divisor);
    var zeros := CountZeros(dividend / divisor);
    return 2 * (m + zeros);
  }

  /** The cycles of DIVU. */
  function DivuCost(dividend: Long, divisor: Word): int
    requires divisor > 0
  {
    if dividend / 0x1_0000 >= divisor then 10 else 2 * (38 + WalkCost(dividend, divisor, 15))
  }
}
