/**
 The status register: its masks, the condition-code updates of the ALU and the
 sixteen conditional tests (section 3.2 of the M68000 Family Programmer's
 Reference Manual).
 */
module StatusRegister {
  import opened Words

  predicate FlagC(sr: bv16) { sr & 0x0001 != 0 }
  predicate FlagV(sr: bv16) { sr & 0x0002 != 0 }
  predicate FlagZ(sr: bv16) { sr & 0x0004 != 0 }
  predicate FlagN(sr: bv16) { sr & 0x0008 != 0 }
  predicate FlagX(sr: bv16) { sr & 0x0010 != 0 }

  /** Supervisor state. */
  predicate FlagS(sr: bv16) { sr & 0x2000 != 0 }

  /** Trace mode. */
  predicate FlagT(sr: bv16) { sr & 0x8000 != 0 }

  /** Only the implemented bits, 0xA71F, are set. */
  predicate Clean(sr: bv16) {
    sr & 0x58E0 == 0
  }

  function MaskLevel(sr: bv16): (level: int)
    ensures 0 <= level < 8
  {
    var bits := (sr >> 8) & 7;
    assert bits < 8;
    bits as int
  }

  /** What MOVE to CCR and RTR write: five condition codes under an unchanged system byte. */
  function WithCcr(sr: bv16, ccr: bv16): bv16 {
    (sr & 0xFF00) | (ccr & 0x1F)
  }

  /** Replaces the five condition codes and nothing else. */
  function WithCodes(sr: bv16, codes: bv16): bv16 {
    (sr & 0xFFE0) | codes
  }

  /** Replaces the interrupt mask. */
  function WithMask(sr: bv16, level: int): bv16
    requires 0 <= level < 8
  {
    (sr & 0xF8FF) | ((level as bv16) << 8)
  }

  lemma MaskWritten(sr: bv16, level: int)
    requires 0 <= level < 8
    ensures var r := WithMask(sr, level);
            MaskLevel(r) == level && FlagS(r) == FlagS(sr) && FlagT(r) == FlagT(sr) && (Clean(sr) ==> Clean(r))
  {
    hide FlagS, FlagT, Clean;
    LevelBits(level);
    MaskBits(sr, level as bv16);
  }

  /** Everything but the interrupt mask. */
  function Unmasked(sr: bv16): bv16 {
    sr & 0xF8FF
  }

  /** The codes and the rest of the system byte stay. */
  lemma MaskKeepsRest(sr: bv16, level: int)
    requires 0 <= level < 8
    ensures Unmasked(WithMask(sr, level)) == Unmasked(sr)
  {
    hide Unmasked;
    LevelBits(level);
    MaskRest(sr, level as bv16);
  }

  lemma MaskRest(sr: bv16, bits: bv16)
    requires bits < 8
    ensures Unmasked((sr & 0xF8FF) | (bits << 8)) == Unmasked(sr)
  {
  }

  lemma LevelBits(level: int)
    requires 0 <= level < 8
    ensures var bits := level as bv16; bits < 8 && bits as int == level
  {
    if level == 0 { assert level as bv16 == 0; }
    else if level == 1 { assert level as bv16 == 1; }
    else if level == 2 { assert level as bv16 == 2; }
    else if level == 3 { assert level as bv16 == 3; }
    else if level == 4 { assert level as bv16 == 4; }
    else if level == 5 { assert level as bv16 == 5; }
    else if level == 6 { assert level as bv16 == 6; }
    else { assert level as bv16 == 7; }
  }

  lemma MaskBits(sr: bv16, bits: bv16)
    requires bits < 8
    ensures var r := (sr & 0xF8FF) | (bits << 8);
            (r >> 8) & 7 == bits && FlagS(r) == FlagS(sr) && FlagT(r) == FlagT(sr) && (Clean(sr) ==> Clean(r))
  {
  }

  /**
   A level of one byte or-ed into the cleared mask, as a service does it. Levels beyond 7
   run into the system byte: it stays within the implemented bits exactly when the level
   has none of the bits that land on unimplemented ones, and the mask is the level modulo 8.
   */
  lemma ByteLevelWritten(sr: bv16, level: bv16)
    requires level < 0x100 && Clean(sr)
    ensures var r := (sr & 0xF8FF) | (level << 8);
            (Clean(r) <==> level & 0x58 == 0) && (r >> 8) & 7 == level & 7
    ensures level == 8 ==> !Clean((sr & 0xF8FF) | (level << 8))
  {
  }

  /** RTR takes the five codes from the popped word and keeps the system byte. */
  lemma WithCcrFlags(sr: bv16, ccr: bv16)
    ensures var r := WithCcr(sr, ccr);
            && FlagX(r) == FlagX(ccr) && FlagN(r) == FlagN(ccr) && FlagZ(r) == FlagZ(ccr) && FlagV(r) == FlagV(ccr)
            && FlagC(r) == FlagC(ccr)
            && FlagS(r) == FlagS(sr) && FlagT(r) == FlagT(sr) && r & 0xFF00 == sr & 0xFF00 && (Clean(sr) ==> Clean(r))
  {
  }

  function Carry(sr: bv16): int {
    if FlagX(sr) then 1 else 0
  }

  // ---------------------------------------------------------------- updates

  function WithNZVC(sr: bv16, n: bool, z: bool, v: bool, c: bool): bv16 {
    (sr & 0xFFF0) | (if n then 0x8 else 0) | (if z then 0x4 else 0) | (if v then 0x2 else 0) | (if c then 0x1 else 0)
  }

  function WithXNZVC(sr: bv16, x: bool, n: bool, z: bool, v: bool, c: bool): bv16 {
    (sr & 0xFFE0) | (if x then 0x10 else 0) | (if n then 0x8 else 0) | (if z then 0x4 else 0)
    | (if v then 0x2 else 0) | (if c then 0x1 else 0)
  }

  function UpdateFlagsAdd(sr: bv16, src: Long, dest: Long, result: Long, size: Size): bv16 {
    var sm, dm, rm := Negative(src, size), Negative(dest, size), Negative(result, size);
    var overflow := (sm && dm && !rm) || (!sm && !dm && rm);
    var carry := (sm && dm) || (!rm && dm) || (sm && !rm);
    WithXNZVC(sr, carry, rm, Low(result, size) == 0, overflow, carry)
  }

  function UpdateFlagsSub(sr: bv16, src: Long, dest: Long, result: Long, size: Size): bv16 {
    var sm, dm, rm := Negative(src, size), Negative(dest, size), Negative(result, size);
    var overflow := (!sm && dm && !rm) || (sm && !dm && rm);
    var borrow := (sm && !dm) || (rm && !dm) || (sm && rm);
    WithXNZVC(sr, borrow, rm, Low(result, size) == 0, overflow, borrow)
  }

  function UpdateFlagsCmp(sr: bv16, src: Long, dest: Long, result: Long, size: Size): bv16 {
    var sm, dm, rm := Negative(src, size), Negative(dest, size), Negative(result, size);
    var overflow := (!sm && dm && !rm) || (sm && !dm && rm);
    var borrow := (sm && !dm) || (rm && !dm) || (sm && rm);
    WithNZVC(sr, rm, Low(result, size) == 0, overflow, borrow)
  }

  function UpdateFlagsLogic(sr: bv16, result: Long, size: Size): bv16 {
    WithNZVC(sr, Negative(result, size), Low(result, size) == 0, false, false)
  }

  /** ADDX and SUBX only ever clear Z: a chain of them tests the whole number for zero. */
  function StickyZero(before: bv16, updated: bv16, result: Long, size: Size): bv16 {
    if Low(result, size) != 0 then updated & 0xFFFB
    else if FlagZ(before) then updated | 0x4
    else updated & 0xFFFB
  }

  predicate Condition(sr: bv16, condition: int) {
    var c, v, z, n := FlagC(sr), FlagV(sr), FlagZ(sr), FlagN(sr);
    match condition
    case 0 => true
    case 1 => false
    case 2 => !c && !z
    case 3 => c || z
    case 4 => !c
    case 5 => c
    case 6 => !z
    case 7 => z
    case 8 => !v
    case 9 => v
    case 10 => !n
    case 11 => n
    case 12 => (n && v) || (!n && !v)
    case 13 => (n && !v) || (!n && v)
    case 14 => (n && v && !z) || (!n && !v && !z)
    case 15 => z || (n && !v) || (!n && v)
    case _ => false
  }

  // ------------------------------------------------- arithmetic reading of flags

  /** The exact flag contents an operation must leave: five booleans over a kept rest. */
  predicate FlagsAre(sr: bv16, before: bv16, x: bool, n: bool, z: bool, v: bool, c: bool) {
    && sr & 0xFFE0 == before & 0xFFE0
    && FlagX(sr) == x && FlagN(sr) == n && FlagZ(sr) == z && FlagV(sr) == v && FlagC(sr) == c
  }

  predicate InSignedRange(x: int, size: Size) {
    -size.Msb() <= x < size.Msb()
  }

  function TwosComplement(x: int, size: Size): int {
    if x >= size.Msb() then x - size.Modulus() else x
  }

  lemma WithXNZVCFlags(sr: bv16, x: bool, n: bool, z: bool, v: bool, c: bool)
    ensures FlagsAre(WithXNZVC(sr, x, n, z, v, c), sr, x, n, z, v, c)
  {
  }

  lemma WithNZVCFlags(sr: bv16, n: bool, z: bool, v: bool, c: bool)
    ensures FlagsAre(WithNZVC(sr, n, z, v, c), sr, FlagX(sr), n, z, v, c)
  {
  }

  lemma ModShift(r: int, q: int, n: int)
    requires n > 0
    ensures (n * q + r) % n == r % n
  {
    var a, b := n * q + r, r;
    assert a == n * (a / n) + a % n && b == n * (b / n) + b % n;
    assert n * (q + b / n) + b % n == a;
    DivUnique(a, n, q + b / n, b % n);
  }

  lemma LowOfWrap(t: int, size: Size)
    ensures Low(Wrap(t), size) == t % size.Modulus()
  {
    var q := t / 0x1_0000_0000;
    match size
    case ByteSize => ModShift(Wrap(t), 0x100_0000 * q, 0x100);
    case WordSize => ModShift(Wrap(t), 0x1_0000 * q, 0x1_0000);
    case LongSize =>
  }

  /** The low part of a wrapped sum depends on the low parts of the summands only. */
  lemma LowSum(x: Long, y: Long, carry: int, size: Size)
    ensures Low(Wrap(x + y + carry), size) == (Low(x, size) + Low(y, size) + carry) % size.Modulus()
  {
    LowOfWrap(x + y + carry, size);
    var n := size.Modulus();
    ModShift(x % n + y % n + carry, x / n + y / n, n);
    Quotients(x, y, n);
  }

  lemma LowDifference(x: Long, y: Long, borrow: int, size: Size)
    ensures Low(Wrap(x - y - borrow), size) == (Low(x, size) - Low(y, size) - borrow) % size.Modulus()
  {
    LowOfWrap(x - y - borrow, size);
    var n := size.Modulus();
    ModShift(x % n - y % n - borrow, x / n - y / n, n);
    Quotients(x, y, n);
  }

  lemma Quotients(x: int, y: int, n: int)
    requires n > 0
    ensures n * (x / n + y / n) + (x % n + y % n) == x + y
    ensures n * (x / n - y / n) + (x % n - y % n) == x - y
  {
    assert x == n * (x / n) + x % n && y == n * (y / n) + y % n;
  }

  lemma SumFlags(a: int, b: int, x: int, size: Size)
    requires 0 <= a < size.Modulus() && 0 <= b < size.Modulus() && 0 <= x <= 1
    ensures var half := size.Msb();
            var sm, dm, rm := b >= half, a >= half, (a + b + x) % size.Modulus() >= half;
            && (((sm && dm) || (!rm && dm) || (sm && !rm)) <==> a + b + x >= size.Modulus())
            && (((sm && dm && !rm) || (!sm && !dm && rm))
                <==> !InSignedRange(TwosComplement(a, size) + TwosComplement(b, size) + x, size))
  {
  }

  lemma DifferenceFlags(a: int, b: int, x: int, size: Size)
    requires 0 <= a < size.Modulus() && 0 <= b < size.Modulus() && 0 <= x <= 1
    ensures var half := size.Msb();
            var sm, dm, rm := b >= half, a >= half, (a - b - x) % size.Modulus() >= half;
            && (((sm && !dm) || (rm && !dm) || (sm && rm)) <==> a - b - x < 0)
            && (((!sm && dm && !rm) || (sm && !dm && rm))
                <==> !InSignedRange(TwosComplement(a, size) - TwosComplement(b, size) - x, size))
  {
  }

  lemma AddFlags(sr: bv16, src: Long, dest: Long, x: int, size: Size)
    requires 0 <= x <= 1
    ensures var sum := Low(dest, size) + Low(src, size) + x;
            var result := Wrap(dest + src + x);
            && Low(result, size) == sum % size.Modulus()
            && FlagsAre(UpdateFlagsAdd(sr, src, dest, result, size), sr,
                        sum >= size.Modulus(),
                        Negative(result, size),
                        sum % size.Modulus() == 0,
                        !InSignedRange(Signed(dest, size) + Signed(src, size) + x, size),
                        sum >= size.Modulus())
  {
    hide FlagsAre, WithNZVC, WithXNZVC, FlagX;
    LowSum(dest, src, x, size);
    SumFlags(Low(dest, size), Low(src, size), x, size);
    var sum, result := Low(dest, size) + Low(src, size) + x, Wrap(dest + src + x);
    WithXNZVCFlags(sr, sum >= size.Modulus(), Negative(result, size), Low(result, size) == 0,
                   !InSignedRange(Signed(dest, size) + Signed(src, size) + x, size), sum >= size.Modulus());
  }

  lemma SubFlags(sr: bv16, src: Long, dest: Long, x: int, size: Size)
    requires 0 <= x <= 1
    ensures var difference := Low(dest, size) - Low(src, size) - x;
            var result := Wrap(dest - src - x);
            && Low(result, size) == difference % size.Modulus()
            && FlagsAre(UpdateFlagsSub(sr, src, dest, result, size), sr,
                        difference < 0,
                        Negative(result, size),
                        difference % size.Modulus() == 0,
                        !InSignedRange(Signed(dest, size) - Signed(src, size) - x, size),
                        difference < 0)
  {
    hide FlagsAre, WithNZVC, WithXNZVC, FlagX;
    LowDifference(dest, src, x, size);
    DifferenceFlags(Low(dest, size), Low(src, size), x, size);
    var difference, result := Low(dest, size) - Low(src, size) - x, Wrap(dest - src - x);
    WithXNZVCFlags(sr, difference < 0, Negative(result, size), Low(result, size) == 0,
                   !InSignedRange(Signed(dest, size) - Signed(src, size) - x, size), difference < 0);
  }

  /**
   What each condition means for the two operands of a comparison, whatever the
   bits above the operand size.
   */
  predicate Meaning(condition: int, src: Long, dest: Long, size: Size) {
    var us, ud := Low(src, size), Low(dest, size);
    var ss, sd := Signed(src, size), Signed(dest, size);
    match condition
    case 0 => true
    case 2 => ud > us
    case 3 => ud <= us
    case 4 => ud >= us
    case 5 => ud < us
    case 6 => ud != us
    case 7 => ud == us
    case 8 => InSignedRange(sd - ss, size)
    case 9 => !InSignedRange(sd - ss, size)
    case 10 => (ud - us) % size.Modulus() < size.Msb()
    case 11 => (ud - us) % size.Modulus() >= size.Msb()
    case 12 => sd >= ss
    case 13 => sd < ss
    case 14 => sd > ss
    case 15 => sd <= ss
    case _ => false
  }

  lemma ZeroDifference(a: int, b: int, size: Size)
    requires 0 <= a < size.Modulus() && 0 <= b < size.Modulus()
    ensures (a - b) % size.Modulus() == 0 <==> a == b
  {
  }

  lemma CompareFlags(sr: bv16, src: Long, dest: Long, size: Size)
    ensures var result := Wrap(dest - src);
            FlagsAre(UpdateFlagsCmp(sr, src, dest, result, size), sr,
                     FlagX(sr),
                     (Low(dest, size) - Low(src, size)) % size.Modulus() >= size.Msb(),
                     Low(dest, size) == Low(src, size),
                     !InSignedRange(Signed(dest, size) - Signed(src, size), size),
                     Low(dest, size) < Low(src, size))
  {
    ZeroDifference(Low(dest, size), Low(src, size), size);
    LowDifference(dest, src, 0, size);
    DifferenceFlags(Low(dest, size), Low(src, size), 0, size);
    var result := Wrap(dest - src);
    WithNZVCFlags(sr, Negative(result, size), Low(result, size) == 0,
                  !InSignedRange(Signed(dest, size) - Signed(src, size), size),
                  Low(dest, size) < Low(src, size));
    hide FlagsAre, WithNZVC, FlagX, InSignedRange;
  }

  lemma ConditionsAfterCompare(sr: bv16, src: Long, dest: Long, size: Size, condition: int)
    ensures Condition(UpdateFlagsCmp(sr, src, dest, Wrap(dest - src), size), condition)
            <==> Meaning(condition, src, dest, size)
  {
    CompareFlags(sr, src, dest, size);
  }

  // --------------------------------------------- the status word as a number

  function SrWord(sr: bv16): Word {
    sr as Word
  }

  function WordSr(w: Word): bv16 {
    w as bv16
  }

  lemma SrRoundTrip(sr: bv16)
    ensures WordSr(SrWord(sr)) == sr
  {
  }

  /** A word without its lowest bit. */
  function Upper(x: bv16): bv16 {
    x >> 1
  }

  /** A word without its lowest four bits. */
  function Upper4(x: bv16): bv16 {
    Upper(Upper(Upper(Upper(x))))
  }

  lemma Lowest(x: bv16)
    ensures x == (if FlagC(x) then (Upper(x) << 1) | 1 else Upper(x) << 1) && Upper(x) < 0x8000
  {
  }

  lemma EvenWord(x: bv16)
    requires x < 0x8000
    ensures SrWord(x << 1) == 2 * SrWord(x)
  {
  }

  lemma OddWord(x: bv16)
    requires x < 0x8000
    ensures SrWord((x << 1) | 1) == 2 * SrWord(x) + 1
  {
  }

  lemma SmallWord(x: bv16)
    ensures SrWord(x) < 0x8000 ==> x < 0x8000
  {
  }

  /** Every word is the number of some status word. */
  lemma {:induction false} StatusOf(w: Word) returns (x: bv16)
    ensures SrWord(x) == w
  {
    hide SrWord;
    if w == 0 {
      ZeroWord();
      x := 0;
    } else {
      x := StatusOf(w / 2);
      SmallWord(x);
      if w % 2 == 0 {
        EvenWord(x);
        x := x << 1;
      } else {
        OddWord(x);
        x := (x << 1) | 1;
      }
    }
  }

  lemma ZeroWord()
    ensures SrWord(0) == 0
  {
  }

  lemma WordRoundTrip(w: Word)
    ensures SrWord(WordSr(w)) == w
  {
    hide SrWord, WordSr;
    var x := StatusOf(w);
    SrRoundTrip(x);
  }

  /** The lowest bit of a word and the rest of it, as numbers. */
  lemma Halved(x: bv16)
    ensures SrWord(Upper(x)) == SrWord(x) / 2 && (FlagC(x) <==> SrWord(x) % 2 == 1)
  {
    hide SrWord, Upper, FlagC;
    Lowest(x);
    if FlagC(x) {
      OddWord(Upper(x));
    } else {
      EvenWord(Upper(x));
    }
  }

  lemma FourBits(x: bv16)
    ensures FlagC(Upper(x)) == FlagV(x) && FlagC(Upper(Upper(x))) == FlagZ(x)
            && FlagC(Upper(Upper(Upper(x)))) == FlagN(x)
  {
  }

  lemma LowestTwo(x: bv16)
    ensures SrWord(Upper(Upper(x))) == SrWord(x) / 4
    ensures (FlagC(x) <==> SrWord(x) % 2 == 1) && (FlagC(Upper(x)) <==> SrWord(x) / 2 % 2 == 1)
  {
    hide SrWord, Upper, FlagC;
    Halved(x);
    Halved(Upper(x));
  }

  lemma LowestFour(x: bv16)
    ensures SrWord(Upper4(x)) == SrWord(x) / 0x10
    ensures (FlagC(x) <==> SrWord(x) % 2 == 1) && (FlagV(x) <==> SrWord(x) / 2 % 2 == 1)
    ensures (FlagZ(x) <==> SrWord(x) / 4 % 2 == 1) && (FlagN(x) <==> SrWord(x) / 8 % 2 == 1)
  {
    hide SrWord, Upper, FlagC, FlagV, FlagZ, FlagN;
    var half := Upper(Upper(x));
    LowestTwo(x);
    LowestTwo(half);
    FourBits(x);
  }

  lemma HighBits(x: bv16)
    ensures FlagC(Upper4(x)) == FlagX(x)
    ensures FlagV(Upper4(Upper4(Upper4(x)))) == FlagS(x) && FlagN(Upper4(Upper4(Upper4(x)))) == FlagT(x)
  {
  }

  /** The three mask bits are the lowest ones of the system byte. */
  lemma MaskInBits(x: bv16)
    ensures var y := Upper4(Upper4(x));
            (x >> 8) & 7 == (if FlagC(y) then 1 else 0) + (if FlagV(y) then 2 else 0) + (if FlagZ(y) then 4 else 0)
  {
  }

  lemma MaskValue(x: bv16)
    ensures var y := Upper4(Upper4(x));
            MaskLevel(x) == (if FlagC(y) then 1 else 0) + (if FlagV(y) then 2 else 0) + (if FlagZ(y) then 4 else 0)
  {
    MaskInBits(x);
    hide Upper4, FlagC, FlagV, FlagZ;
    var y := Upper4(Upper4(x));
    if FlagC(y) {
      if FlagV(y) { assert (x >> 8) & 7 == if FlagZ(y) then 7 else 3; }
    } else if FlagV(y) { assert (x >> 8) & 7 == if FlagZ(y) then 6 else 2; }
  }

  lemma HexQuotients(w: Word)
    ensures w / 0x10 / 0x10 == w / 0x100 && w / 0x100 / 0x10 == w / 0x1000
    ensures w / 0x1000 / 2 == w / 0x2000 && w / 0x1000 / 8 == w / 0x8000
  {
  }

  lemma Octal(y: nat)
    ensures y % 8 == y % 2 + 2 * (y / 2 % 2) + 4 * (y / 4 % 2)
  {
    var half := y / 2;
    var quarter := half / 2;
    DivUnique(y, 4, quarter, 2 * (half % 2) + y % 2);
    DivUnique(y, 8, quarter / 2, 4 * (quarter % 2) + 2 * (half % 2) + y % 2);
  }

  /** The flags and the interrupt mask are the bits of the status word as a number. */
  lemma StatusBits(sr: bv16)
    ensures var w := SrWord(sr);
            && (FlagC(sr) <==> w % 2 == 1) && (FlagV(sr) <==> w / 2 % 2 == 1) && (FlagZ(sr) <==> w / 4 % 2 == 1)
            && (FlagN(sr) <==> w / 8 % 2 == 1) && (FlagX(sr) <==> w / 0x10 % 2 == 1)
            && (FlagS(sr) <==> w / 0x2000 % 2 == 1) && (FlagT(sr) <==> w / 0x8000 % 2 == 1)
            && MaskLevel(sr) == w / 0x100 % 8
  {
    hide SrWord, Upper4, FlagC, FlagV, FlagZ, FlagN, FlagX, FlagS, FlagT, MaskLevel;
    var x1 := Upper4(sr);
    var x2 := Upper4(x1);
    LowestFour(sr);
    LowestFour(x1);
    LowestFour(x2);
    LowestFour(Upper4(x2));
    HighBits(sr);
    MaskValue(sr);
    HexQuotients(SrWord(sr));
    Octal(SrWord(x2));
  }

  /** A status word without its lowest i bits. */
  function Dropped(x: bv16, i: nat): bv16 {
    if i == 0 then x else Dropped(Upper(x), i - 1)
  }

  lemma {:induction false} BitDropped(x: bv16, i: nat)
    ensures Bit(SrWord(x), i) == FlagC(Dropped(x, i))
    decreases i
  {
    hide SrWord, Upper, FlagC;
    Halved(x);
    if i > 0 {
      BitDropped(Upper(x), i - 1);
      DivDiv(SrWord(x), 2, Pow2(i - 1));
    }
  }
}
