/**
 Packed decimal bytes: the correction arithmetic of ABCD, SBCD and NBCD, and its
 decimal meaning.
 */
module Bcd {
  import opened Words

  predicate ValidBcd(b: int) {
    0 <= b < 0x100 && b % 0x10 <= 9 && b / 0x10 <= 9
  }

  /** The two-digit number a packed byte stands for. */
  function Digits(b: int): int {
    10 * (b / 0x10) + b % 0x10
  }

  /** A byte result with the carry and overflow flags that go with it. */
  datatype Corrected = Corrected(result: Byte, carry: bool, overflow: bool)

  predicate Bit7(x: int) {
    x / 0x80 % 2 == 1
  }

  function Abcd(src: Byte, dest: Byte, x: int): Corrected
    requires 0 <= x <= 1
  {
    var bin := src + dest + x;
    var low := src % 0x10 + dest % 0x10 + x;
    var res := if low > 9 then bin + 6 else bin;
    var carry := bin > 0xFF || res > 0xFF || res / 0x10 % 0x10 > 9;
    var adjusted := if carry then res + 0x60 else res;
    Corrected(adjusted % 0x100, carry, !Bit7(bin) && Bit7(adjusted))
  }

  function Sbcd(src: Byte, dest: Byte, x: int): Corrected
    requires 0 <= x <= 1
  {
    var bin := dest - src - x;
    var low := dest % 0x10 - src % 0x10 - x;
    var res := if low < 0 then bin - 6 else bin;
    var adjusted := if bin < 0 then res - 0x60 else res;
    var carry := bin < 0 || adjusted < 0;
    var overflow := !Bit7(adjusted % 0x100) && Bit7(bin % 0x100);
    Corrected(adjusted % 0x100, carry, overflow && !(!Bit7(src) && Bit7(dest) && carry))
  }

  /** The second correction, of the high digit: h may have run up to 19. */
  lemma HighDigitUp(h: int, l: int)
    requires 0 <= h <= 19 && 0 <= l <= 9
    ensures var res := 0x10 * h + l;
            && (res > 0xFF || res / 0x10 % 0x10 > 9 <==> h > 9)
            && (h > 9 ==> (res + 0x60) % 0x100 == 0x10 * (h - 10) + l)
            && (h <= 9 ==> res % 0x100 == res)
  {
  }

  lemma TwoDigits(h: int, l: int)
    requires 0 <= h <= 9 && 0 <= l <= 9
    ensures ValidBcd(0x10 * h + l) && Digits(0x10 * h + l) == 10 * h + l
  {
  }

  /** On packed decimals ABCD is two-digit addition with carry. */
  lemma AbcdAdds(src: Byte, dest: Byte, x: int)
    requires ValidBcd(src) && ValidBcd(dest) && 0 <= x <= 1
    ensures var c := Abcd(src, dest, x);
            && ValidBcd(c.result)
            && Digits(c.result) + (if c.carry then 100 else 0) == Digits(dest) + Digits(src) + x
  {
    hide ValidBcd, Bit7;
    var low := src % 0x10 + dest % 0x10 + x;
    BcdParts(src);
    BcdParts(dest);
    var h := src / 0x10 + dest / 0x10 + (if low > 9 then 1 else 0);
    var l := if low > 9 then low - 10 else low;
    HighDigitUp(h, l);
    TwoDigits(if h > 9 then h - 10 else h, l);
  }

  lemma BcdParts(b: Byte)
    requires ValidBcd(b)
    ensures 0 <= b / 0x10 <= 9 && 0 <= b % 0x10 <= 9 && b == 0x10 * (b / 0x10) + b % 0x10
  {
  }

  /** The high digit of a difference may have run down to -10. */
  lemma HighDigitDown(h: int, l: int)
    requires -10 <= h <= 9 && 0 <= l <= 9
    ensures h < 0 ==> (0x10 * h + l - 0x60) % 0x100 == 0x10 * (h + 10) + l
    ensures h >= 0 ==> (0x10 * h + l) % 0x100 == 0x10 * h + l
  {
  }

  /** On packed decimals SBCD is two-digit subtraction with borrow. */
  lemma SbcdSubtracts(src: Byte, dest: Byte, x: int)
    requires ValidBcd(src) && ValidBcd(dest) && 0 <= x <= 1
    ensures var c := Sbcd(src, dest, x);
            && ValidBcd(c.result)
            && Digits(c.result) - (if c.carry then 100 else 0) == Digits(dest) - Digits(src) - x
  {
    hide ValidBcd, Bit7;
    var low := dest % 0x10 - src % 0x10 - x;
    BcdParts(src);
    BcdParts(dest);
    var h := dest / 0x10 - src / 0x10 - (if low < 0 then 1 else 0);
    var l := if low < 0 then low + 10 else low;
    HighDigitDown(h, l);
    TwoDigits(if h < 0 then h + 10 else h, l);
  }

  /** V after a decimal operation: the correction turned bit 7 of the binary result on, or off for SBCD. */
  lemma CorrectionOverflow(src: Byte, dest: Byte, x: int)
    requires 0 <= x <= 1
    ensures var c := Abcd(src, dest, x);
            c.overflow <==> (dest + src + x) % 0x100 < 0x80 && c.result >= 0x80
    ensures var c := Sbcd(src, dest, x);
            c.overflow <==> (dest - src - x) % 0x100 >= 0x80 && c.result < 0x80
                            && !(src < 0x80 && dest >= 0x80 && c.carry)
  {
    var c, d := Abcd(src, dest, x), Sbcd(src, dest, x);
    var sum, difference := dest + src + x, (dest - src - x) % 0x100;
    TopBitOf(sum);
    TopBitOf(difference);
    TopBitOf(d.result);
    TopBitOf(src);
    TopBitOf(dest);
    var low := src % 0x10 + dest % 0x10 + x;
    var res := if low > 9 then sum + 6 else sum;
    TopBitOf(if c.carry then res + 0x60 else res);
    hide Bit7;
  }

  lemma TopBitOf(x: nat)
    ensures Bit7(x) <==> x % 0x100 >= 0x80
  {
  }

  lemma DigitsInjective(a: int, b: int)
    requires ValidBcd(a) && ValidBcd(b) && Digits(a) == Digits(b)
    ensures a == b
  {
  }
}
