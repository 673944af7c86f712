/**
 Machine integers of the emulated processor.

 Bytes, words and long words are bounded integers; every wrap-around of the
 original's unsigned arithmetic is written out as a modulus.
 */
module Words {

  type Byte = x: int | 0 <= x < 0x100
  type Word = x: int | 0 <= x < 0x1_0000
  type Long = x: int | 0 <= x < 0x1_0000_0000

  /** Operand sizes, as the original's enumeration of byte counts. */
  datatype Size = ByteSize | WordSize | LongSize {

    function Bytes(): int {
      match this case ByteSize => 1 case WordSize => 2 case LongSize => 4
    }

    function Bits(): int {
      8 * Bytes()
    }

    /** 2 to the number of bits. */
    function Modulus(): int {
      match this case ByteSize => 0x100 case WordSize => 0x1_0000 case LongSize => 0x1_0000_0000
    }

    /** The sign-bit mask. */
    function Msb(): int {
      match this case ByteSize => 0x80 case WordSize => 0x8000 case LongSize => 0x8000_0000
    }
  }

  datatype Option<+T> = None | Some(value: T)

  function Wrap(x: int): Long {
    x % 0x1_0000_0000
  }

  function Plus(x: int, n: int): Long {
    Wrap(x + n)
  }

  function Minus(x: int, n: int): Long {
    Wrap(x - n)
  }

  /** The 24 address lines of the bus. */
  function Mask24(address: Long): Long {
    address % 0x100_0000
  }

  /** The operand of the given size in the low bits of a long word. */
  function Low(x: Long, size: Size): Long {
    x % size.Modulus()
  }

  /** The sign bit of the operand in the low bits of a long word. */
  predicate Negative(x: Long, size: Size) {
    Low(x, size) >= size.Msb()
  }

  /** The operand read as a two's complement number. */
  function Signed(x: Long, size: Size): int {
    if Negative(x, size) then Low(x, size) - size.Modulus() else Low(x, size)
  }

  /** Sign extension to a long word. */
  function Extend(x: Long, size: Size): Long {
    Wrap(Signed(x, size))
  }

  lemma ExtendLong(x: Long)
    ensures Extend(x, LongSize) == x
  {
  }

  /** The signed reading is the one number of the operand's signed range that has its low bits. */
  lemma SignedPinned(x: Long, size: Size)
    ensures var s := Signed(x, size);
            match size
            case ByteSize => -0x80 <= s < 0x80 && (x - s) % 0x100 == 0
            case WordSize => -0x8000 <= s < 0x8000 && (x - s) % 0x1_0000 == 0
            case LongSize => -0x8000_0000 <= s < 0x8000_0000 && (x - s) % 0x1_0000_0000 == 0
  {
    var n := size.Modulus();
    assert x == n * (x / n) + x % n;
  }

  /** Sign extension changes the operand's width and not the number it stands for. */
  lemma ExtendSigned(x: Long, size: Size)
    ensures Signed(Extend(x, size), LongSize) == Signed(x, size)
  {
  }

  /** Replaces the low part of a register and keeps the rest. */
  function Merge(register: Long, x: Long, size: Size): Long {
    register - Low(register, size) + Low(x, size)
  }

  /** A merged register has the low part of the one number and the high part of the other. */
  lemma MergeParts(register: Long, x: Long, size: Size)
    ensures var r, n := Merge(register, x, size), size.Modulus(); r % n == x % n && r / n == register / n
  {
    var n := size.Modulus();
    DivUnique(Merge(register, x, size), n, register / n, x % n);
  }

  function Hi16(x: Long): Word {
    x / 0x1_0000
  }

  function Lo16(x: Long): Word {
    x % 0x1_0000
  }

  function Join(hi: Word, lo: Word): Long {
    0x1_0000 * hi + lo
  }

  function Pow2(n: nat): nat
    ensures Pow2(n) > 0
  {
    if n == 0 then 1 else 2 * Pow2(n - 1)
  }

  /** Bit i of a natural number. */
  predicate Bit(x: int, i: nat) {
    (x / Pow2(i)) % 2 == 1
  }

  /** The one bits of a word. */
  function Ones(w: int): (ones: nat)
    requires w >= 0
    ensures w < 2 ==> ones <= 1
  {
    if w == 0 then 0 else w % 2 + Ones(w / 2)
  }

  lemma {:induction false} OnesBound(w: int, n: nat)
    requires 0 <= w < Pow2(n)
    ensures Ones(w) <= n
  {
    if n > 0 && w > 0 {
      OnesBound(w / 2, n - 1);
    }
  }

  function Max(x: int, y: int): int {
    if x > y then x else y
  }

  function Min(x: int, y: int): int {
    if x < y then x else y
  }

  /** Big-endian byte strings. */
  function Be16(x: Word): (r: seq<Byte>)
    ensures |r| == 2
  {
    [x / 0x100, x % 0x100]
  }

  function Be32(x: Long): (r: seq<Byte>)
    ensures |r| == 4
  {
    [x / 0x100_0000, x / 0x1_0000 % 0x100, x / 0x100 % 0x100, x % 0x100]
  }

  function Get16(bytes: seq<Byte>, at: nat): Word
    requires at + 2 <= |bytes|
  {
    0x100 * (bytes[at] as int) + bytes[at + 1]
  }

  function Get32(bytes: seq<Byte>, at: nat): Long
    requires at + 4 <= |bytes|
  {
    0x100_0000 * (bytes[at] as int) + 0x1_0000 * (bytes[at + 1] as int) + 0x100 * (bytes[at + 2] as int) + bytes[at + 3]
  }

  /** The big-endian number of a few bytes. */
  function Number(b: seq<Byte>): (x: nat) {
    if b == [] then 0 else 0x100 * Number(b[..|b| - 1]) + b[|b| - 1]
  }

  lemma NumberSnoc(b: seq<Byte>, x: Byte)
    ensures Number(b + [x]) == 0x100 * Number(b) + x
  {
    assert (b + [x])[..|b|] == b;
  }

  lemma NumberOfTwo(b: seq<Byte>)
    requires |b| == 2
    ensures Number(b) == 0x100 * (b[0] as int) + b[1]
  {
    NumberSnoc([], b[0]);
    NumberSnoc([b[0]], b[1]);
    assert b == [b[0]] + [b[1]] && [] + [b[0]] == [b[0]];
  }

  lemma NumberOfFour(b: seq<Byte>)
    requires |b| == 4
    ensures Number(b) == 0x100_0000 * (b[0] as int) + 0x1_0000 * (b[1] as int) + 0x100 * (b[2] as int) + b[3]
  {
    NumberOfTwo(b[..2]);
    NumberSnoc(b[..2], b[2]);
    NumberSnoc(b[..3], b[3]);
    assert b == b[..3] + [b[3]] && b[..3] == b[..2] + [b[2]];
  }

  lemma FourBytes(x: Long)
    ensures var b := Be32(x);
            0x100_0000 * (b[0] as int) + 0x1_0000 * (b[1] as int) + 0x100 * (b[2] as int) + b[3] == x
  {
    var hi, lo := x / 0x1_0000, x % 0x1_0000;
    HighHalf(x);
    WordParts(x);
    assert hi == 0x100 * (hi / 0x100) + hi % 0x100 && lo == 0x100 * (lo / 0x100) + lo % 0x100;
  }

  /** The byte strings of words and long words are their big-endian numbers. */
  lemma BigEndianNumbers(w: Word, x: Long)
    ensures Number(Be16(w)) == w && Number(Be32(x)) == x
  {
    NumberOfTwo(Be16(w));
    NumberOfFour(Be32(x));
    FourBytes(x);
    hide Number;
  }

  /** The two byte strings differ in the given stretch at most. */
  predicate SameOutside(a: seq<Byte>, b: seq<Byte>, low: int, high: int) {
    |a| == |b| && forall i :: 0 <= i < |a| && !(low <= i < high) ==> a[i] == b[i]
  }

  /** Overwrites a stretch of a byte string. */
  function Splice(bytes: seq<Byte>, at: nat, part: seq<Byte>): (r: seq<Byte>)
    requires at + |part| <= |bytes|
    ensures |r| == |bytes|
    ensures forall i :: 0 <= i < |bytes| ==>
      r[i] == if at <= i < at + |part| then part[i - at] else bytes[i]
  {
    bytes[..at] + part + bytes[at + |part|..]
  }

  lemma SpliceIs(before: seq<Byte>, now: seq<Byte>, at: nat, part: seq<Byte>)
    requires |now| == |before| && at + |part| <= |before|
    requires forall i :: at <= i < at + |part| ==> now[i] == part[i - at]
    requires forall i :: 0 <= i < |before| && !(at <= i < at + |part|) ==> now[i] == before[i]
    ensures now == Splice(before, at, part)
  {
  }

  lemma InnerSlice(s: seq<Byte>, at: nat, b: seq<Byte>, i: nat, j: nat)
    requires i <= j <= |b| && at + |b| <= |s| && s[at..at + |b|] == b
    ensures s[at + i..at + j] == b[i..j]
  {
    forall k | 0 <= k < j - i ensures s[at + i..at + j][k] == b[i..j][k] {
      assert s[at..at + |b|][i + k] == b[i + k];
    }
  }

  lemma WordParts(x: Long)
    ensures x % 0x1_0000 / 0x100 == x / 0x100 % 0x100 && x % 0x1_0000 % 0x100 == x % 0x100
  {
  }

  lemma HighHalf(x: Long)
    ensures x / 0x1_0000 / 0x100 == x / 0x100_0000
  {
  }

  lemma {:induction false} Pow2Add(m: nat, n: nat)
    ensures Pow2(m + n) == Pow2(m) * Pow2(n)
  {
    if m > 0 {
      Pow2Add(m - 1, n);
      assert 2 * (Pow2(m - 1) * Pow2(n)) == (2 * Pow2(m - 1)) * Pow2(n);
    }
  }

  /** Division by a positive number is determined by its two defining bounds. */
  lemma DivUnique(x: int, y: int, q: int, r: int)
    requires y > 0 && x == q * y + r && 0 <= r < y
    ensures x / y == q && x % y == r
  {
    var q', r' := x / y, x % y;
    assert x == y * q' + r';
    assert (q - q') * y == r' - r;
    assert (q - q') * y > -y && (q - q') * y < y;
    Between(q - q', y);
  }

  lemma Between(k: int, y: int)
    requires -y < k * y < y
    ensures k == 0
  {
    if k >= 1 {
      MulMono(1, k, y);
      assert false;
    }
    if k <= -1 {
      MulMono(k, -1, y);
      assert false;
    }
  }

  lemma MulMono(a: int, b: int, y: int)
    requires a <= b && y >= 0
    ensures a * y <= b * y
  {
    assert (b - a) * y >= 0;
  }

  lemma BoundProduct(a: nat, b: nat, p: nat, q: nat)
    requires a < q && b < p
    ensures 0 <= b * q + a < p * q
  {
    MulMono(b, p - 1, q);
    assert (p - 1) * q == p * q - q;
  }

  lemma DivDiv(x: nat, y: nat, z: nat)
    requires y > 0 && z > 0
    ensures y * z > 0 && (x / y) / z == x / (y * z)
  {
    var q, r := x / y, x % y;
    var c, d := q / z, q % z;
    assert x == y * q + r && q == z * c + d;
    assert y * z > 0 by { MulMono(1, z, y); }
    assert x == c * (y * z) + (d * y + r) by { assert y * (z * c + d) == c * (y * z) + d * y; }
    BoundProduct(r, d, z, y);
    DivUnique(x, y * z, c, d * y + r);
  }
}
