/**
 The S-record and Intel HEX loaders: a file is a sequence of lines, and loading is a fold
 of its valid records over memory and the program counter.
 */
module Loader {
  import opened Words
  import opened MachineState
  import opened Core
  import StatusRegister

  // --------------------------------------------------------- hexadecimal text

  predicate IsHex(c: char) {
    '0' <= c <= '9' || 'A' <= c <= 'F' || 'a' <= c <= 'f'
  }

  function HexVal(c: char): (v: int)
    ensures 0 <= v < 16
  {
    if '0' <= c <= '9' then c as int - '0' as int
    else if 'A' <= c <= 'F' then c as int - 'A' as int + 10
    else if 'a' <= c <= 'f' then c as int - 'a' as int + 10
    else 0
  }

  predicate AllHex(s: string, at: nat, digits: nat)
    requires at + digits <= |s|
  {
    forall i :: at <= i < at + digits ==> IsHex(s[i])
  }

  function ParseByte(s: string, at: nat): Byte
    requires at + 2 <= |s|
  {
    0x10 * HexVal(s[at]) + HexVal(s[at + 1])
  }

  /** The bytes written in n pairs of digits. */
  function Bytes(s: string, at: nat, n: nat): (b: seq<Byte>)
    requires at + 2 * n <= |s|
    ensures |b| == n
  {
    if n == 0 then [] else Bytes(s, at, n - 1) + [ParseByte(s, at + 2 * (n - 1))]
  }

  lemma {:induction false} BytesAt(s: string, at: nat, n: nat, i: nat)
    requires at + 2 * n <= |s| && i < n
    ensures Bytes(s, at, n)[i] == ParseByte(s, at + 2 * i)
    decreases n
  {
    hide ParseByte;
    if i < n - 1 {
      BytesAt(s, at, n - 1, i);
    }
  }

  function SumBytes(b: seq<Byte>): nat {
    if b == [] then 0 else SumBytes(b[..|b| - 1]) + b[|b| - 1]
  }

  method IsValidHex(s: string, at: nat, digits: nat) returns (ok: bool)
    requires at + digits <= |s|
    ensures ok == AllHex(s, at, digits)
  {
    for i := 0 to digits
      invariant AllHex(s, at, i)
    {
      if !IsHex(s[at + i]) {
        return false;
      }
    }
    return true;
  }

  method RecordSum(s: string, at: nat, n: nat) returns (sum: nat)
    requires at + 2 * n <= |s|
    ensures sum == SumBytes(Bytes(s, at, n))
  {
    sum := 0;
    for i := 0 to n
      invariant sum == SumBytes(Bytes(s, at, i))
    {
      SumSnoc(Bytes(s, at, i), ParseByte(s, at + 2 * i));
      sum := sum + ParseByte(s, at + 2 * i);
    }
  }

  lemma SumSnoc(b: seq<Byte>, x: Byte)
    ensures SumBytes(b + [x]) == SumBytes(b) + x
  {
    assert (b + [x])[..|b|] == b;
  }

  lemma {:induction false} NumberBound(b: seq<Byte>)
    ensures |b| <= 4 ==> Number(b) < 0x1_0000_0000
    ensures |b| <= 3 ==> Number(b) < 0x100_0000
    ensures |b| <= 2 ==> Number(b) < 0x1_0000
    ensures |b| <= 1 ==> Number(b) < 0x100
  {
    if b != [] {
      NumberBound(b[..|b| - 1]);
    }
  }

  /** The address loop: the running value is a 32-bit register. */
  method ReadNumber(s: string, at: nat, n: nat) returns (x: Long)
    requires at + 2 * n <= |s| && n <= 4
    ensures x == Number(Bytes(s, at, n))
  {
    x := 0;
    for i := 0 to n
      invariant x == Number(Bytes(s, at, i))
    {
      hide Bytes, Number, ParseByte;
      NextNumber(s, at, i);
      x := Wrap(0x100 * x) + ParseByte(s, at + 2 * i);
    }
  }

  lemma NextNumber(s: string, at: nat, i: nat)
    requires at + 2 * (i + 1) <= |s| && i < 4
    ensures var x, v := Number(Bytes(s, at, i)), ParseByte(s, at + 2 * i);
            Number(Bytes(s, at, i + 1)) == 0x100 * x + v && 0x100 * x + v < 0x1_0000_0000
  {
    NumberSnoc(Bytes(s, at, i), ParseByte(s, at + 2 * i));
    NumberBound(Bytes(s, at, i + 1));
    hide Number, ParseByte;
  }

  // ------------------------------------------------------------ storing bytes

  /** What a loader changes. */
  datatype Loaded = Loaded(mem: seq<Byte>, pc: Long)

  /** Consecutive bytes on the 24-bit bus; the first one outside memory ends the record. */
  function StoreAll(mem: seq<Byte>, address: Long, bytes: seq<Byte>): (r: seq<Byte>)
    ensures |r| == |mem|
    decreases |bytes|
  {
    if bytes == [] || Mask24(address) >= |mem| then mem
    else StoreAll(mem[Mask24(address) := bytes[0]], Plus(address, 1), bytes[1..])
  }

  method LoaderStore(cpu: Cpu, address: Long, value: Byte) returns (ok: bool)
    modifies cpu.memory
    ensures ok == (Mask24(address) < cpu.memory.Length)
    ensures cpu.memory[..] == if ok then old(cpu.memory[..])[Mask24(address) := value] else old(cpu.memory[..])
  {
    var at := Mask24(address);
    if at < cpu.memory.Length {
      cpu.memory[at] := value;
      return true;
    }
    return false;
  }

  /** The data loop of both loaders. */
  method StoreRecord(cpu: Cpu, line: string, at: nat, n: nat, address: Long)
    requires at + 2 * n <= |line|
    modifies cpu.memory
    ensures cpu.memory[..] == StoreAll(old(cpu.memory[..]), address, Bytes(line, at, n))
  {
    ghost var bytes, before := Bytes(line, at, n), cpu.memory[..];
    PlusZero(address);
    assert bytes[0..] == bytes;
    hide StoreAll, Bytes, ParseByte;
    for i := 0 to n
      invariant StoreAll(before, address, bytes) == StoreAll(cpu.memory[..], Plus(address, i), bytes[i..])
    {
      PlusTwice(address, i, 1);
      BytesAt(line, at, n, i);
      StoreNext(cpu.memory[..], Plus(address, i), bytes, i);
      var ok := LoaderStore(cpu, Plus(address, i), ParseByte(line, at + 2 * i));
      if !ok {
        return;
      }
    }
    StoreNothing(cpu.memory[..], Plus(address, n), bytes);
  }

  lemma StoreNext(mem: seq<Byte>, address: Long, bytes: seq<Byte>, i: nat)
    requires i < |bytes|
    ensures StoreAll(mem, address, bytes[i..])
            == if Mask24(address) < |mem| then StoreAll(mem[Mask24(address) := bytes[i]], Plus(address, 1),
                                                        bytes[i + 1..]) else mem
  {
    assert bytes[i..][1..] == bytes[i + 1..];
  }

  lemma StoreNothing(mem: seq<Byte>, address: Long, bytes: seq<Byte>)
    ensures StoreAll(mem, address, bytes[|bytes|..]) == mem
  {
  }

  // ---------------------------------------------------------------- S-records

  /** What a record asks for: nothing, bytes at an address, or the entry point and the end. */
  datatype Record = Nothing | Data(address: Long, bytes: seq<Byte>) | Start(address: Long)

  /** Address bytes of an S-record type; types 5 and the unused ones have none. */
  function AddressLength(kind: char): nat {
    if kind == '0' || kind == '1' || kind == '9' then 2
    else if kind == '2' || kind == '8' then 3
    else if kind == '3' || kind == '7' then 4
    else 0
  }

  /** A record whose hexadecimal text and checksum are right. */
  predicate SrecValid(line: string) {
    && |line| >= 4 && line[0] == 'S' && AllHex(line, 2, 2)
    && var count := ParseByte(line, 2);
       |line| >= 4 + 2 * count && AllHex(line, 2, 2 * (count + 1))
         && SumBytes(Bytes(line, 2, count + 1)) % 0x100 == 0xFF
  }

  function DecodeSrec(line: string): Record {
    if !SrecValid(line) then Nothing
    else
      var kind, count := line[1], ParseByte(line, 2);
      var n := AddressLength(kind);
      if n == 0 || count < n + 1 then Nothing
      else
        NumberBound(Bytes(line, 4, n));
        var address: Long := Number(Bytes(line, 4, n));
        if kind == '1' || kind == '2' || kind == '3' then Data(address, Bytes(line, 4 + 2 * n, count - n - 1))
        else if kind == '0' then Nothing
        else Start(address)
  }

  function ApplyRecord(s: Loaded, r: Record): Loaded {
    match r
    case Nothing => s
    case Data(address, bytes) => s.(mem := StoreAll(s.mem, address, bytes))
    case Start(address) => s.(pc := address)
  }

  /** One newline, then one carriage return, are taken off the end. */
  function Chomp(line: string): string {
    var s := if line != [] && line[|line| - 1] == '\n' then line[..|line| - 1] else line;
    if s != [] && s[|s| - 1] == '\r' then s[..|s| - 1] else s
  }

  /** Loading is a fold of the records; a start record ends it. */
  function LoadedSrec(s: Loaded, lines: seq<string>): Loaded
    decreases |lines|
  {
    if lines == [] then s
    else
      var r := DecodeSrec(Chomp(lines[0]));
      if r.Start? then ApplyRecord(s, r) else LoadedSrec(ApplyRecord(s, r), lines[1..])
  }

  /** One line of a file; the result says whether it ended the load. */
  method SrecLine(cpu: Cpu, line: string) returns (ended: bool)
    modifies cpu`pc, cpu.memory
    ensures var r := DecodeSrec(line);
            && ended == r.Start?
            && Loaded(cpu.memory[..], cpu.pc) == ApplyRecord(old(Loaded(cpu.memory[..], cpu.pc)), r)
  {
    hide StoreAll, SumBytes, Number, Bytes, AllHex;
    if |line| < 4 || line[0] != 'S' {
      return false;
    }
    var kind := line[1];
    var hex := IsValidHex(line, 2, 2);
    if !hex {
      return false;
    }
    var count: int := ParseByte(line, 2);
    if |line| < 4 + count * 2 {
      return false;
    }
    hex := IsValidHex(line, 2, (count + 1) * 2);
    if !hex {
      return false;
    }
    var sum := RecordSum(line, 2, count + 1);
    if sum % 0x100 != 0xFF {
      return false;
    }
    var n := AddressLength(kind);
    if n == 0 || count < n + 1 {
      return false;
    }
    var address := ReadNumber(line, 4, n);
    if kind == '1' || kind == '2' || kind == '3' {
      StoreRecord(cpu, line, 4 + 2 * n, count - n - 1, address);
    } else if kind == '7' || kind == '8' || kind == '9' {
      cpu.pc := address;
      return true;
    }
    return false;
  }

  method LoadSrec(cpu: Cpu, lines: seq<string>)
    modifies cpu`pc, cpu.memory
    ensures Loaded(cpu.memory[..], cpu.pc) == LoadedSrec(old(Loaded(cpu.memory[..], cpu.pc)), lines)
    ensures cpu.Abs() == old(cpu.Abs()).(mem := cpu.memory[..], pc := cpu.pc)
  {
    hide DecodeSrec, ApplyRecord, Chomp;
    ghost var s := Loaded(cpu.memory[..], cpu.pc);
    for i := 0 to |lines|
      invariant LoadedSrec(s, lines) == LoadedSrec(Loaded(cpu.memory[..], cpu.pc), lines[i..])
    {
      ghost var before := Loaded(cpu.memory[..], cpu.pc);
      assert lines[i..][0] == lines[i] && lines[i..][1..] == lines[i + 1..];
      var ended := SrecLine(cpu, Chomp(lines[i]));
      if ended {
        return;
      }
    }
  }

  // ---------------------------------------------------------------- Intel HEX

  /** All trailing line ends are taken off. */
  function Strip(line: string): string {
    if line != [] && (line[|line| - 1] == '\n' || line[|line| - 1] == '\r') then Strip(line[..|line| - 1]) else line
  }

  method StripLine(line: string) returns (s: string)
    ensures s == Strip(line)
  {
    s := line;
    while |s| > 0 && (s[|s| - 1] == '\n' || s[|s| - 1] == '\r')
      invariant Strip(s) == Strip(line)
    {
      s := s[..|s| - 1];
    }
  }

  /** The loader and the current segment or linear base. */
  datatype HexState = HexState(loaded: Loaded, base: Long)

  datatype HexRecord =
    | Ignored
    | Contents(offset: Word, bytes: seq<Byte>)
    | Segment(paragraph: Word)
    | Linear(upper: Word)
    | Entry(address: Long)
    | EndOfFile

  /** A record whose hexadecimal text and checksum are right. */
  predicate HexValid(line: string) {
    && |line| >= 11 && line[0] == ':' && AllHex(line, 1, 8)
    && var count := ParseByte(line, 1);
       |line| >= 11 + 2 * count && AllHex(line, 1, 2 * (count + 5)) && SumBytes(Bytes(line, 1, count + 5)) % 0x100 == 0
  }

  function WordOf(line: string, at: nat): Word
    requires at + 4 <= |line|
  {
    0x100 * ParseByte(line, at) as int + ParseByte(line, at + 2)
  }

  function DecodeHex(line: string): HexRecord {
    if !HexValid(line) then Ignored
    else
      var count, kind := ParseByte(line, 1), ParseByte(line, 7);
      if kind == 0 then Contents(WordOf(line, 3), Bytes(line, 9, count))
      else if kind == 1 then EndOfFile
      else if kind == 2 && count == 2 then Segment(WordOf(line, 9))
      else if kind == 4 && count == 2 then Linear(WordOf(line, 9))
      else if kind == 3 && count == 4 then Entry(Wrap(0x10 * WordOf(line, 9) + WordOf(line, 13)))
      else if kind == 5 && count == 4 then Entry(Join(WordOf(line, 9), WordOf(line, 13)))
      else Ignored
  }

  function ApplyHex(s: HexState, r: HexRecord): HexState {
    match r
    case Ignored => s
    case Contents(offset, bytes) => s.(loaded := s.loaded.(mem := StoreAll(s.loaded.mem, Plus(s.base, offset), bytes)))
    case Segment(paragraph) => s.(base := 0x10 * paragraph)
    case Linear(upper) => s.(base := 0x1_0000 * upper)
    case Entry(address) => s.(loaded := s.loaded.(pc := address))
    case EndOfFile => s
  }

  /** Loading is a fold of the records, with the current base, up to the end-of-file record. */
  function LoadedHex(s: HexState, lines: seq<string>): HexState
    decreases |lines|
  {
    if lines == [] then s
    else
      var r := DecodeHex(Strip(lines[0]));
      if r.EndOfFile? then s else LoadedHex(ApplyHex(s, r), lines[1..])
  }

  /** The header and checksum tests of a line. */
  method CheckHex(line: string) returns (valid: bool)
    ensures valid == HexValid(line)
  {
    hide AllHex, SumBytes, Bytes;
    if |line| == 0 || line[0] != ':' || |line| < 11 {
      return false;
    }
    var hex := IsValidHex(line, 1, 8);
    if !hex {
      return false;
    }
    var count: int := ParseByte(line, 1);
    if |line| < 11 + count * 2 {
      return false;
    }
    hex := IsValidHex(line, 1, (count + 5) * 2);
    if !hex {
      return false;
    }
    var sum := RecordSum(line, 1, count + 5);
    return sum % 0x100 == 0;
  }

  /** One line of a file; the results are the base after it and whether it ended the load. */
  method HexLine(cpu: Cpu, line: string, base: Long) returns (newBase: Long, ended: bool)
    modifies cpu`pc, cpu.memory
    ensures var r := DecodeHex(line);
            && ended == r.EndOfFile?
            && HexState(Loaded(cpu.memory[..], cpu.pc), newBase)
               == ApplyHex(HexState(old(Loaded(cpu.memory[..], cpu.pc)), base), r)
  {
    hide StoreAll, Bytes, AllHex, SumBytes;
    newBase, ended := base, false;
    var valid := CheckHex(line);
    if !valid {
      return;
    }
    var count, kind := ParseByte(line, 1), ParseByte(line, 7);
    if kind == 0 {
      StoreRecord(cpu, line, 9, count, Plus(base, WordOf(line, 3)));
    } else if kind == 1 {
      ended := true;
    } else if kind == 2 {
      if count == 2 {
        newBase := 0x10 * WordOf(line, 9);
      }
    } else if kind == 4 {
      if count == 2 {
        newBase := 0x1_0000 * WordOf(line, 9);
      }
    } else if kind == 3 {
      if count == 4 {
        cpu.pc := Wrap(0x10 * WordOf(line, 9) + WordOf(line, 13));
      }
    } else if kind == 5 {
      if count == 4 {
        cpu.pc := Join(WordOf(line, 9), WordOf(line, 13));
      }
    }
  }

  method LoadIhex(cpu: Cpu, lines: seq<string>)
    modifies cpu`pc, cpu.memory
    ensures Loaded(cpu.memory[..], cpu.pc) == LoadedHex(HexState(old(Loaded(cpu.memory[..], cpu.pc)), 0), lines).loaded
    ensures cpu.Abs() == old(cpu.Abs()).(mem := cpu.memory[..], pc := cpu.pc)
  {
    hide DecodeHex, ApplyHex, Strip;
    ghost var s := HexState(Loaded(cpu.memory[..], cpu.pc), 0);
    var base: Long := 0;
    for i := 0 to |lines|
      invariant LoadedHex(s, lines) == LoadedHex(HexState(Loaded(cpu.memory[..], cpu.pc), base), lines[i..])
    {
      assert lines[i..][0] == lines[i] && lines[i..][1..] == lines[i + 1..];
      var line := StripLine(lines[i]);
      var ended;
      ghost var before := HexState(Loaded(cpu.memory[..], cpu.pc), base);
      base, ended := HexLine(cpu, line, base);
      if ended {
        EndChangesNothing(before);
        return;
      }
    }
  }

  lemma EndChangesNothing(s: HexState)
    ensures ApplyHex(s, EndOfFile) == s
  {
  }

  // ------------------------------------------------------------- corruption

  /** Two lines that differ in one pair of characters, which is not the same byte in both. */
  predicate OneByteChanged(line: string, line': string, at: nat)
    requires at + 2 <= |line|
  {
    && |line'| == |line| && (forall i :: 0 <= i < |line| && i != at && i != at + 1 ==> line'[i] == line[i])
    && (AllHex(line', at, 2) ==> ParseByte(line', at) != ParseByte(line, at))
  }

  lemma {:induction false} ChangedBytes(line: string, line': string, start: nat, n: nat, j: nat)
    requires start + 2 * n <= |line| && j < n && OneByteChanged(line, line', start + 2 * j)
    ensures SumBytes(Bytes(line', start, n))
            == SumBytes(Bytes(line, start, n)) + ParseByte(line', start + 2 * j) - ParseByte(line, start + 2 * j)
    decreases n
  {
    var last := start + 2 * (n - 1);
    hide ParseByte, SumBytes, AllHex;
    SumSnoc(Bytes(line, start, n - 1), ParseByte(line, last));
    SumSnoc(Bytes(line', start, n - 1), ParseByte(line', last));
    hide Bytes;
    if j < n - 1 {
      ChangedBytes(line, line', start, n - 1, j);
      ParseSame(line, line', last);
    } else {
      SameBytes(line, line', start, n - 1);
    }
  }

  lemma ParseSame(line: string, line': string, at: nat)
    requires at + 2 <= |line| == |line'| && line'[at] == line[at] && line'[at + 1] == line[at + 1]
    ensures ParseByte(line', at) == ParseByte(line, at)
  {
  }

  lemma {:induction false} SameBytes(line: string, line': string, start: nat, n: nat)
    requires start + 2 * n <= |line| == |line'|
    requires forall i :: start <= i < start + 2 * n ==> line'[i] == line[i]
    ensures Bytes(line', start, n) == Bytes(line, start, n)
    decreases n
  {
    if n > 0 {
      SameBytes(line, line', start, n - 1);
    }
  }

  lemma ResidueChanged(sum: int, a: Byte, b: Byte)
    requires a != b
    ensures (sum + b - a) % 0x100 != sum % 0x100
  {
    StatusRegister.ModShift(sum % 0x100 + b - a, sum / 0x100, 0x100);
  }

  /** An S-record with one wrong address, data or checksum byte is skipped. */
  lemma CorruptSrecSkipped(line: string, line': string, j: nat)
    requires SrecValid(line) && 1 <= j <= ParseByte(line, 2) && OneByteChanged(line, line', 2 + 2 * j)
    ensures DecodeSrec(line') == Nothing
  {
    hide SumBytes, Bytes;
    var count: int := ParseByte(line, 2);
    ParseSame(line, line', 2);
    if AllHex(line', 2 + 2 * j, 2) {
      ChangedBytes(line, line', 2, count + 1, j);
      ResidueChanged(SumBytes(Bytes(line, 2, count + 1)), ParseByte(line, 2 + 2 * j), ParseByte(line', 2 + 2 * j));
    } else {
      assert !AllHex(line', 2, 2 * (count + 1));
    }
    hide AllHex, ParseByte;
  }

  /** An Intel HEX record with one wrong byte anywhere but in its count is skipped. */
  lemma CorruptHexSkipped(line: string, line': string, j: nat)
    requires HexValid(line) && 1 <= j < ParseByte(line, 1) as int + 5 && OneByteChanged(line, line', 1 + 2 * j)
    ensures DecodeHex(line') == Ignored
  {
    hide SumBytes, Bytes;
    var count: int := ParseByte(line, 1);
    ParseSame(line, line', 1);
    if AllHex(line', 1 + 2 * j, 2) {
      ChangedBytes(line, line', 1, count + 5, j);
      ResidueChanged(SumBytes(Bytes(line, 1, count + 5)), ParseByte(line, 1 + 2 * j), ParseByte(line', 1 + 2 * j));
    } else {
      assert !AllHex(line', 1, 2 * (count + 5));
    }
    hide AllHex, ParseByte;
  }

  /** A line that decodes to nothing might as well not be in the file. */
  lemma {:induction false} SkippedSrecLine(s: Loaded, before: seq<string>, line: string, after: seq<string>)
    requires DecodeSrec(Chomp(line)) == Nothing
    ensures LoadedSrec(s, before + ([line] + after)) == LoadedSrec(s, before + after)
    decreases |before|
  {
    hide DecodeSrec, Chomp;
    if before == [] {
      assert before + ([line] + after) == [line] + after && before + after == after;
    } else {
      var r := DecodeSrec(Chomp(before[0]));
      assert (before + ([line] + after))[1..] == before[1..] + ([line] + after);
      assert (before + after)[1..] == before[1..] + after;
      SkippedSrecLine(ApplyRecord(s, r), before[1..], line, after);
      hide ApplyRecord;
    }
  }

  lemma {:induction false} SkippedHexLine(s: HexState, before: seq<string>, line: string, after: seq<string>)
    requires DecodeHex(Strip(line)) == Ignored
    ensures LoadedHex(s, before + ([line] + after)) == LoadedHex(s, before + after)
    decreases |before|
  {
    hide DecodeHex, Strip;
    if before == [] {
      assert before + ([line] + after) == [line] + after && before + after == after;
    } else {
      var r := DecodeHex(Strip(before[0]));
      assert (before + ([line] + after))[1..] == before[1..] + ([line] + after);
      assert (before + after)[1..] == before[1..] + after;
      SkippedHexLine(ApplyHex(s, r), before[1..], line, after);
      hide ApplyHex;
    }
  }

  // --------------------------------------------------------------- encoding

  function HexDigit(v: int): (c: char)
    requires 0 <= v < 16
    ensures IsHex(c) && HexVal(c) == v
  {
    "0123456789ABCDEF"[v]
  }

  function HexText(b: seq<Byte>): (s: string)
    ensures |s| == 2 * |b|
  {
    if b == [] then ""
    else HexText(b[..|b| - 1]) + [HexDigit(b[|b| - 1] / 0x10), HexDigit(b[|b| - 1] % 0x10)]
  }

  lemma {:induction false} TextAt(b: seq<Byte>, i: nat)
    requires i < |b|
    ensures HexText(b)[2 * i] == HexDigit(b[i] / 0x10) && HexText(b)[2 * i + 1] == HexDigit(b[i] % 0x10)
  {
    if i < |b| - 1 {
      TextAt(b[..|b| - 1], i);
    }
  }

  lemma TextAllHex(pre: string, b: seq<Byte>)
    ensures AllHex(pre + HexText(b), |pre|, 2 * |b|)
  {
    var s := pre + HexText(b);
    hide HexText, HexDigit, IsHex;
    forall i | |pre| <= i < |pre| + 2 * |b| ensures IsHex(s[i]) {
      TextHex(pre, b, i - |pre|);
    }
  }

  /** Hexadecimal text reads back. */
  lemma TextReads(pre: string, b: seq<Byte>)
    ensures AllHex(pre + HexText(b), |pre|, 2 * |b|) && Bytes(pre + HexText(b), |pre|, |b|) == b
  {
    hide AllHex, HexText, ParseByte, Bytes;
    TextAllHex(pre, b);
    var s := pre + HexText(b);
    forall i | 0 <= i < |b| ensures Bytes(s, |pre|, |b|)[i] == b[i] {
      TextByte(pre, b, i);
      BytesAt(s, |pre|, |b|, i);
    }
    SameElements(Bytes(s, |pre|, |b|), b);
  }

  lemma SameElements(a: seq<Byte>, b: seq<Byte>)
    requires |a| == |b| && forall i :: 0 <= i < |a| ==> a[i] == b[i]
    ensures a == b
  {
  }

  lemma TextHex(pre: string, b: seq<Byte>, i: nat)
    requires i < 2 * |b|
    ensures IsHex((pre + HexText(b))[|pre| + i])
  {
    TextAt(b, i / 2);
    assert i == 2 * (i / 2) || i == 2 * (i / 2) + 1;
    hide HexText, IsHex;
  }

  lemma TextByte(pre: string, b: seq<Byte>, i: nat)
    requires i < |b|
    ensures ParseByte(pre + HexText(b), |pre| + 2 * i) == b[i]
  {
    TextAt(b, i);
    hide HexText, IsHex, HexDigit, HexVal;
  }

  lemma BytesPart(s: string, at: nat, n: nat, i: nat, k: nat)
    requires at + 2 * n <= |s| && i + k <= n
    ensures Bytes(s, at + 2 * i, k) == Bytes(s, at, n)[i..i + k]
  {
    hide ParseByte;
    var part, whole := Bytes(s, at + 2 * i, k), Bytes(s, at, n);
    forall j | 0 <= j < k ensures part[j] == whole[i..i + k][j] {
      BytesAt(s, at + 2 * i, k, j);
      BytesAt(s, at, n, i + j);
    }
    hide Bytes;
    SameElements(part, whole[i..i + k]);
  }

  function BigEndian(x: nat, n: nat): (b: seq<Byte>)
    ensures |b| == n
  {
    if n == 0 then [] else BigEndian(x / 0x100, n - 1) + [x % 0x100]
  }

  function Capacity(n: nat): nat {
    if n == 0 then 1 else 0x100 * Capacity(n - 1)
  }

  lemma {:induction false} NumberReads(x: nat, n: nat)
    requires x < Capacity(n)
    ensures Number(BigEndian(x, n)) == x
  {
    if n > 0 {
      NumberReads(x / 0x100, n - 1);
      NumberSnoc(BigEndian(x / 0x100, n - 1), x % 0x100);
    }
  }

  lemma {:induction false} SumAppend(a: seq<Byte>, b: seq<Byte>)
    ensures SumBytes(a + b) == SumBytes(a) + SumBytes(b)
    decreases |b|
  {
    if b == [] {
      assert a + b == a;
    } else {
      assert (a + b)[..|a + b| - 1] == a + b[..|b| - 1];
      SumAppend(a, b[..|b| - 1]);
    }
  }

  // ---------------------------------------------------- encoding of S-records

  /** The count, the address and data, and the ones' complement of their sum. */
  function SrecBytes(body: seq<Byte>): (b: seq<Byte>)
    requires |body| < 0xFF
    ensures |b| == |body| + 2 && b[0] == |body| + 1 && SumBytes(b) % 0x100 == 0xFF
  {
    var b := [|body| + 1 as Byte] + body;
    SumSnoc(b, 0xFF - SumBytes(b) % 0x100);
    b + [0xFF - SumBytes(b) % 0x100]
  }

  lemma SrecBody(body: seq<Byte>)
    requires |body| < 0xFF
    ensures SrecBytes(body)[1..1 + |body|] == body
  {
    hide SumBytes;
  }

  function EncodeSrec(kind: char, body: seq<Byte>): string
    requires |body| < 0xFF
  {
    ['S', kind] + HexText(SrecBytes(body))
  }

  /** An encoded S-record is valid and its bytes are the encoded ones. */
  lemma EncodedSrec(kind: char, body: seq<Byte>)
    requires |body| < 0xFF
    ensures var line := EncodeSrec(kind, body);
            && SrecValid(line) && line[1] == kind && ParseByte(line, 2) == |body| + 1
            && |line| == 4 + 2 * (|body| + 1) && Bytes(line, 4, |body|) == body
  {
    hide SumBytes, HexText, Bytes, ParseByte, AllHex;
    var line, b := EncodeSrec(kind, body), SrecBytes(body);
    TextReads(['S', kind], b);
    AllHexPart(line, 2, 2 * |b|, 2);
    BytesPart(line, 2, |b|, 1, |body|);
    BytesAt(line, 2, |b|, 0);
    SrecBody(body);
  }

  /** A data record with an address of the given length. */
  function EncodeData(n: nat, address: Long, data: seq<Byte>): string
    requires 2 <= n <= 4 && |data| <= 250
  {
    EncodeSrec(if n == 2 then '1' else if n == 3 then '2' else '3', BigEndian(address, n) + data)
  }

  function EncodeStart(n: nat, entry: Long): string
    requires 2 <= n <= 4
  {
    EncodeSrec(if n == 2 then '9' else if n == 3 then '8' else '7', BigEndian(entry, n))
  }

  lemma EncodedData(n: nat, address: Long, data: seq<Byte>)
    requires 2 <= n <= 4 && |data| <= 250 && address < Capacity(n)
    ensures DecodeSrec(EncodeData(n, address, data)) == Data(address, data)
  {
    hide SrecValid, EncodeSrec, Number, BigEndian, Bytes, ParseByte, Capacity;
    var line, body := EncodeData(n, address, data), BigEndian(address, n) + data;
    EncodedSrec(if n == 2 then '1' else if n == 3 then '2' else '3', body);
    NumberReads(address, n);
    BytesPart(line, 4, |body|, 0, n);
    BytesPart(line, 4, |body|, n, |data|);
    assert body[0..n] == BigEndian(address, n) && body[n..n + |data|] == data;
  }

  lemma EncodedStart(n: nat, entry: Long)
    requires 2 <= n <= 4 && entry < Capacity(n)
    ensures DecodeSrec(EncodeStart(n, entry)) == Start(entry)
  {
    hide SrecValid, EncodeSrec, Number, BigEndian, Bytes, ParseByte, Capacity;
    EncodedSrec(if n == 2 then '9' else if n == 3 then '8' else '7', BigEndian(entry, n));
    NumberReads(entry, n);
  }

  /** Bytes that fit store as one stretch. */
  lemma {:induction false} StoreFits(mem: seq<Byte>, address: Long, bytes: seq<Byte>)
    requires Mask24(address) + |bytes| <= |mem| && Mask24(address) + |bytes| <= 0x100_0000
    ensures StoreAll(mem, address, bytes) == Splice(mem, Mask24(address), bytes)
    decreases |bytes|
  {
    hide Mask24, Plus;
    if bytes != [] {
      var at := Mask24(address);
      var mem' := mem[at := bytes[0]];
      if |bytes| > 1 {
        BusOffset(address, 1);
        StoreFits(mem', Plus(address, 1), bytes[1..]);
      }
      assert Splice(mem', at + 1, bytes[1..]) == Splice(mem, at, bytes);
    }
  }

  /** Two neighbouring stretches store as one. */
  lemma StoreTwice(mem: seq<Byte>, address: Long, a: seq<Byte>, b: seq<Byte>)
    requires Mask24(address) + |a| + |b| <= |mem| && Mask24(address) + |a| + |b| <= 0x100_0000
    ensures |b| > 0 ==> Mask24(Plus(address, |a|)) == Mask24(address) + |a|
    ensures |b| > 0 ==>
      Splice(Splice(mem, Mask24(address), a), Mask24(address) + |a|, b) == Splice(mem, Mask24(address), a + b)
  {
    if |b| > 0 {
      BusOffset(address, |a|);
      SpliceAbove(mem, Mask24(address), a, b);
    }
    hide Mask24, Plus, Splice;
  }

  /** The text ends in a digit, so taking off the line end gives the record back. */
  lemma ChompRecord(kind: char, body: seq<Byte>)
    requires |body| < 0xFF
    ensures Chomp(EncodeSrec(kind, body) + "\n") == EncodeSrec(kind, body)
  {
    hide HexText, SrecBytes;
    var b, line := SrecBytes(body), EncodeSrec(kind, body);
    TextHex(['S', kind], b, 2 * |b| - 1);
    assert IsHex(line[|line| - 1]);
    assert (line + "\n")[..|line|] == line;
  }

  /** An image as data records of up to the given size, and a start record. */
  function EncodeImage(n: nat, address: Long, image: seq<Byte>, size: nat, entry: Long): (lines: seq<string>)
    requires 2 <= n <= 4 && 0 < size <= 250
    decreases |image|
  {
    if image == [] then [EncodeStart(n, entry) + "\n"]
    else
      var k := if |image| < size then |image| else size;
      [EncodeData(n, address, image[..k]) + "\n"] + EncodeImage(n, Plus(address, k), image[k..], size, entry)
  }

  lemma DataLine(n: nat, address: Long, data: seq<Byte>)
    requires 2 <= n <= 4 && |data| <= 250 && address < Capacity(n)
    ensures DecodeSrec(Chomp(EncodeData(n, address, data) + "\n")) == Data(address, data)
  {
    EncodedData(n, address, data);
    ChompRecord(if n == 2 then '1' else if n == 3 then '2' else '3', BigEndian(address, n) + data);
    hide EncodeSrec, DecodeSrec, Chomp, BigEndian;
  }

  lemma StartLine(n: nat, entry: Long)
    requires 2 <= n <= 4 && entry < Capacity(n)
    ensures DecodeSrec(Chomp(EncodeStart(n, entry) + "\n")) == Start(entry)
  {
    EncodedStart(n, entry);
    ChompRecord(if n == 2 then '9' else if n == 3 then '8' else '7', BigEndian(entry, n));
    hide EncodeSrec, DecodeSrec, Chomp, BigEndian;
  }

  /** The address of a piece of an image that fits its address field. */
  lemma PieceAddress(n: nat, address: Long, k: nat, rest: nat)
    requires 2 <= n <= 4 && address + k + rest <= Capacity(n) && rest > 0
    ensures Plus(address, k) == address + k && Plus(address, k) < Capacity(n)
  {
    assert Capacity(2) == 0x1_0000 && Capacity(3) == 0x100_0000 && Capacity(4) == 0x1_0000_0000 by {
      assert Capacity(1) == 0x100;
      assert Capacity(2) == 0x100 * Capacity(1);
      assert Capacity(3) == 0x100 * Capacity(2);
    }
    hide Capacity;
  }

  /**
   An image encoded as S-records, whatever the address length and the size of the
   pieces, loads back to itself, and the entry point becomes the program counter.
   */
  lemma {:induction false} SrecImageLoads(s: Loaded, n: nat, address: Long, image: seq<Byte>, size: nat, entry: Long)
    requires 2 <= n <= 4 && 0 < size <= 250 && entry < Capacity(n)
    requires address + |image| <= Capacity(n)
    requires Mask24(address) + |image| <= |s.mem| && Mask24(address) + |image| <= 0x100_0000
    ensures LoadedSrec(s, EncodeImage(n, address, image, size, entry))
            == Loaded(Splice(s.mem, Mask24(address), image), entry)
    decreases |image|
  {
    hide DecodeSrec, Chomp, EncodeData, EncodeStart, Mask24, Plus, StoreAll;
    var lines := EncodeImage(n, address, image, size, entry);
    if image == [] {
      StartLine(n, entry);
      SpliceNothing(s.mem, Mask24(address));
    } else {
      var k := if |image| < size then |image| else size;
      var head, tail := image[..k], image[k..];
      assert image == head + tail;
      CapacityBound(n, address, |image|);
      DataLine(n, address, head);
      StoreFits(s.mem, address, head);
      StoreTwice(s.mem, address, head, tail);
      var s' := ApplyRecord(s, Data(address, head));
      if tail == [] {
        LastPiece(s', n, Plus(address, k), size, entry);
      } else {
        PieceAddress(n, address, k, |tail|);
        SrecImageLoads(s', n, Plus(address, k), tail, size, entry);
      }
      assert lines[1..] == EncodeImage(n, Plus(address, k), tail, size, entry);
      hide EncodeImage, Splice;
    }
  }

  lemma LastPiece(s: Loaded, n: nat, address: Long, size: nat, entry: Long)
    requires 2 <= n <= 4 && 0 < size <= 250 && entry < Capacity(n)
    ensures LoadedSrec(s, EncodeImage(n, address, [], size, entry)) == s.(pc := entry)
  {
    StartLine(n, entry);
    hide DecodeSrec, Chomp, EncodeStart;
  }

  lemma SpliceNothing(mem: seq<Byte>, at: nat)
    requires at <= |mem|
    ensures Splice(mem, at, []) == mem
  {
  }

  lemma CapacityBound(n: nat, address: Long, k: nat)
    requires address + k <= Capacity(n) && k > 0
    ensures address < Capacity(n)
  {
  }

  // ----------------------------------------------------- encoding of Intel HEX

  /** Count, offset, type and data, and the byte that makes their sum zero. */
  function HexBytes(offset: Word, kind: Byte, data: seq<Byte>): (b: seq<Byte>)
    requires |data| < 0x100
    ensures |b| == |data| + 5 && SumBytes(b) % 0x100 == 0
    ensures b[0] == |data| && b[1] == offset / 0x100 && b[2] == offset % 0x100 && b[3] == kind
    ensures b[4..4 + |data|] == data
  {
    var b: seq<Byte> := [|data|, offset / 0x100, offset % 0x100, kind] + data;
    var checksum := (0x100 - SumBytes(b) % 0x100) % 0x100;
    SumSnoc(b, checksum);
    ZeroSum(SumBytes(b));
    b + [checksum]
  }

  lemma ZeroSum(sum: nat)
    ensures (sum + (0x100 - sum % 0x100) % 0x100) % 0x100 == 0
  {
  }

  function EncodeHex(offset: Word, kind: Byte, data: seq<Byte>): string
    requires |data| < 0x100
  {
    ":" + HexText(HexBytes(offset, kind, data))
  }

  lemma EncodedHex(offset: Word, kind: Byte, data: seq<Byte>)
    requires |data| < 0x100
    ensures var line := EncodeHex(offset, kind, data);
            && |line| == 11 + 2 * |data| && HexValid(line) && ParseByte(line, 1) == |data| && ParseByte(line, 7) == kind
            && WordOf(line, 3) == offset && Bytes(line, 9, |data|) == data
  {
    hide SumBytes, HexText, HexBytes, Bytes, ParseByte, AllHex;
    var line, b := EncodeHex(offset, kind, data), HexBytes(offset, kind, data);
    TextReads(":", b);
    AllHexPart(line, 1, 2 * |b|, 8);
    BytesPart(line, 1, |b|, 4, |data|);
    FirstBytes(line, 1, |b|);
  }

  lemma AllHexPart(s: string, at: nat, digits: nat, fewer: nat)
    requires at + digits <= |s| && fewer <= digits && AllHex(s, at, digits)
    ensures AllHex(s, at, fewer)
  {
  }

  lemma FirstBytes(s: string, at: nat, n: nat)
    requires at + 2 * n <= |s| && n >= 4
    ensures var b := Bytes(s, at, n);
            && ParseByte(s, at) == b[0] && ParseByte(s, at + 2) == b[1] && ParseByte(s, at + 4) == b[2]
               && ParseByte(s, at + 6) == b[3]
  {
    hide ParseByte, Bytes;
    BytesAt(s, at, n, 0);
    BytesAt(s, at, n, 1);
    BytesAt(s, at, n, 2);
    BytesAt(s, at, n, 3);
  }

  lemma StripRecord(offset: Word, kind: Byte, data: seq<Byte>)
    requires |data| < 0x100
    ensures Strip(EncodeHex(offset, kind, data) + "\n") == EncodeHex(offset, kind, data)
  {
    var b, line := HexBytes(offset, kind, data), EncodeHex(offset, kind, data);
    hide HexBytes, HexText;
    TextHex(":", b, 2 * |b| - 1);
    assert IsHex(line[|line| - 1]);
    StripNewline(line);
  }

  lemma StripNewline(line: string)
    requires line != [] && IsHex(line[|line| - 1])
    ensures Strip(line + "\n") == line
  {
    assert (line + "\n")[..|line|] == line;
    assert Strip(line) == line;
  }

  function WordBytes(w: Word): (b: seq<Byte>)
    ensures |b| == 2
  {
    [w / 0x100, w % 0x100]
  }

  function LinearLine(upper: Word): string {
    EncodeHex(0, 4, WordBytes(upper)) + "\n"
  }

  function ContentsLine(offset: Word, data: seq<Byte>): string
    requires |data| < 0x100
  {
    EncodeHex(offset, 0, data) + "\n"
  }

  function EntryLine(entry: Long): string {
    EncodeHex(0, 5, WordBytes(Hi16(entry)) + WordBytes(Lo16(entry))) + "\n"
  }

  function EndLine(): string {
    EncodeHex(0, 1, []) + "\n"
  }

  lemma WordAtBytes(line: string, at: nat, n: nat, i: nat)
    requires at + 2 * n <= |line| && i + 2 <= n
    ensures var b := Bytes(line, at, n); WordOf(line, at + 2 * i) == 0x100 * b[i] as int + b[i + 1]
  {
    hide ParseByte, Bytes;
    BytesAt(line, at, n, i);
    BytesAt(line, at, n, i + 1);
  }

  lemma LinearDecodes(upper: Word)
    ensures DecodeHex(Strip(LinearLine(upper))) == Linear(upper)
  {
    hide HexValid, EncodeHex, Bytes, ParseByte, WordOf, Strip;
    var line := EncodeHex(0, 4, WordBytes(upper));
    StripRecord(0, 4, WordBytes(upper));
    EncodedHex(0, 4, WordBytes(upper));
    WordAtBytes(line, 9, 2, 0);
  }

  lemma ContentsDecodes(offset: Word, data: seq<Byte>)
    requires |data| < 0x100
    ensures DecodeHex(Strip(ContentsLine(offset, data))) == Contents(offset, data)
  {
    hide HexValid, EncodeHex, Bytes, ParseByte, WordOf, Strip;
    StripRecord(offset, 0, data);
    EncodedHex(offset, 0, data);
  }

  lemma EntryDecodes(entry: Long)
    ensures DecodeHex(Strip(EntryLine(entry))) == Entry(entry)
  {
    hide HexValid, EncodeHex, Bytes, ParseByte, WordOf, Strip;
    var data := WordBytes(Hi16(entry)) + WordBytes(Lo16(entry));
    var line := EncodeHex(0, 5, data);
    StripRecord(0, 5, data);
    EncodedHex(0, 5, data);
    WordAtBytes(line, 9, 4, 0);
    WordAtBytes(line, 9, 4, 2);
    JoinHalves(entry);
  }

  lemma JoinHalves(x: Long)
    ensures Join(Hi16(x), Lo16(x)) == x
  {
  }

  lemma EndDecodes()
    ensures DecodeHex(Strip(EndLine())) == EndOfFile
  {
    hide HexValid, EncodeHex, Bytes, ParseByte, WordOf, Strip;
    StripRecord(0, 1, []);
    EncodedHex(0, 1, []);
  }

  /** An image as pairs of a linear base and a data record, then the entry point and the end. */
  function EncodeHexImage(address: Long, image: seq<Byte>, size: nat, entry: Long): (lines: seq<string>)
    requires 0 < size < 0x100
    decreases |image|
  {
    if image == [] then [EntryLine(entry), EndLine()]
    else
      var k := if |image| < size then |image| else size;
      [LinearLine(Hi16(address)), ContentsLine(Lo16(address), image[..k])]
      + EncodeHexImage(Plus(address, k), image[k..], size, entry)
  }

  lemma HexEnd(s: HexState, entry: Long)
    ensures LoadedHex(s, [EntryLine(entry), EndLine()]).loaded == s.loaded.(pc := entry)
  {
    hide DecodeHex, Strip, EntryLine, EndLine;
    EntryDecodes(entry);
    EndDecodes();
    var lines := [EntryLine(entry), EndLine()];
    assert lines[1..] == [EndLine()];
  }

  /** A base record and a data record store one piece at its full address. */
  lemma HexPiece(s: HexState, address: Long, data: seq<Byte>, rest: seq<string>)
    requires |data| < 0x100
    ensures LoadedHex(s, [LinearLine(Hi16(address)), ContentsLine(Lo16(address), data)] + rest)
            == LoadedHex(HexState(Loaded(StoreAll(s.loaded.mem, address, data), s.loaded.pc), 0x1_0000 * Hi16(address)),
                         rest)
  {
    hide DecodeHex, Strip, LinearLine, ContentsLine, StoreAll;
    LinearDecodes(Hi16(address));
    ContentsDecodes(Lo16(address), data);
    JoinHalves(address);
    var lines := [LinearLine(Hi16(address)), ContentsLine(Lo16(address), data)] + rest;
    assert lines[1..] == [ContentsLine(Lo16(address), data)] + rest;
    assert lines[1..][1..] == rest;
    assert Plus(0x1_0000 * Hi16(address), Lo16(address)) == address;
  }

  /** An image encoded as Intel HEX loads back to itself, whatever the base was before. */
  lemma {:induction false} HexImageLoads(s: HexState, address: Long, image: seq<Byte>, size: nat, entry: Long)
    requires 0 < size < 0x100
    requires Mask24(address) + |image| <= |s.loaded.mem| && Mask24(address) + |image| <= 0x100_0000
    ensures LoadedHex(s, EncodeHexImage(address, image, size, entry)).loaded
            == Loaded(Splice(s.loaded.mem, Mask24(address), image), entry)
    decreases |image|
  {
    hide EntryLine, EndLine, LinearLine, ContentsLine, LoadedHex, StoreAll, Mask24, Plus;
    if image == [] {
      HexEnd(s, entry);
      SpliceNothing(s.loaded.mem, Mask24(address));
    } else {
      var k := if |image| < size then |image| else size;
      var head, tail := image[..k], image[k..];
      assert image == head + tail;
      HexPiece(s, address, head, EncodeHexImage(Plus(address, k), tail, size, entry));
      StoreFits(s.loaded.mem, address, head);
      StoreTwice(s.loaded.mem, address, head, tail);
      var s' := HexState(Loaded(StoreAll(s.loaded.mem, address, head), s.loaded.pc), 0x1_0000 * Hi16(address));
      if tail == [] {
        HexEnd(s', entry);
      } else {
        HexImageLoads(s', Plus(address, k), tail, size, entry);
      }
      hide Splice;
    }
  }

  // ------------------------------------------- Intel HEX with segment records

  function SegmentLine(paragraph: Word): string {
    EncodeHex(0, 2, WordBytes(paragraph)) + "\n"
  }

  function SegmentEntryLine(cs: Word, ip: Word): string {
    EncodeHex(0, 3, WordBytes(cs) + WordBytes(ip)) + "\n"
  }

  lemma SegmentDecodes(paragraph: Word)
    ensures DecodeHex(Strip(SegmentLine(paragraph))) == Segment(paragraph)
  {
    hide HexValid, EncodeHex, Bytes, ParseByte, WordOf, Strip;
    var line := EncodeHex(0, 2, WordBytes(paragraph));
    StripRecord(0, 2, WordBytes(paragraph));
    EncodedHex(0, 2, WordBytes(paragraph));
    WordAtBytes(line, 9, 2, 0);
  }

  lemma SegmentEntryDecodes(cs: Word, ip: Word)
    ensures DecodeHex(Strip(SegmentEntryLine(cs, ip))) == Entry(16 * cs + ip)
  {
    hide HexValid, EncodeHex, Bytes, ParseByte, WordOf, Strip;
    var data := WordBytes(cs) + WordBytes(ip);
    var line := EncodeHex(0, 3, data);
    StripRecord(0, 3, data);
    EncodedHex(0, 3, data);
    WordAtBytes(line, 9, 4, 0);
    WordAtBytes(line, 9, 4, 2);
  }

  /** A piece of an image, placed by a segment and an offset into it. */
  datatype Piece = Piece(paragraph: Word, offset: Word, bytes: seq<Byte>)

  /** The pieces follow each other from an address: each has it as 16 times its segment plus its offset. */
  predicate SegmentCut(address: nat, image: seq<Byte>, pieces: seq<Piece>)
    decreases |pieces|
  {
    if pieces == [] then image == []
    else
      var p := pieces[0];
      && 16 * p.paragraph + p.offset == address && |p.bytes| < 0x100 && p.bytes <= image
      && SegmentCut(address + |p.bytes|, image[|p.bytes|..], pieces[1..])
  }

  /** Each piece as a segment record and a data record, then the entry point and the end. */
  function EncodeSegments(pieces: seq<Piece>, cs: Word, ip: Word): (lines: seq<string>)
    requires forall i :: 0 <= i < |pieces| ==> |pieces[i].bytes| < 0x100
    decreases |pieces|
  {
    if pieces == [] then [SegmentEntryLine(cs, ip), EndLine()]
    else [SegmentLine(pieces[0].paragraph), ContentsLine(pieces[0].offset, pieces[0].bytes)]
         + EncodeSegments(pieces[1..], cs, ip)
  }

  lemma {:induction false} CutPieces(address: nat, image: seq<Byte>, pieces: seq<Piece>)
    requires SegmentCut(address, image, pieces)
    ensures forall i :: 0 <= i < |pieces| ==> |pieces[i].bytes| < 0x100
    decreases |pieces|
  {
    if pieces != [] {
      CutPieces(address + |pieces[0].bytes|, image[|pieces[0].bytes|..], pieces[1..]);
      forall i | 0 <= i < |pieces| ensures |pieces[i].bytes| < 0x100 {
        assert i > 0 ==> pieces[i] == pieces[1..][i - 1];
      }
    }
  }

  lemma SegmentEnd(s: HexState, cs: Word, ip: Word)
    ensures LoadedHex(s, [SegmentEntryLine(cs, ip), EndLine()]).loaded == s.loaded.(pc := 16 * cs + ip)
  {
    hide DecodeHex, Strip, SegmentEntryLine, EndLine;
    SegmentEntryDecodes(cs, ip);
    EndDecodes();
    var lines := [SegmentEntryLine(cs, ip), EndLine()];
    assert lines[1..] == [EndLine()];
  }

  /** A segment record and a data record store one piece at 16 times the segment plus the offset. */
  lemma SegmentPiece(s: HexState, p: Piece, rest: seq<string>)
    requires |p.bytes| < 0x100
    ensures var address := 16 * p.paragraph + p.offset;
            LoadedHex(s, [SegmentLine(p.paragraph), ContentsLine(p.offset, p.bytes)] + rest)
            == LoadedHex(HexState(Loaded(StoreAll(s.loaded.mem, address, p.bytes), s.loaded.pc), 16 * p.paragraph),
                         rest)
  {
    hide DecodeHex, Strip, SegmentLine, ContentsLine, StoreAll;
    SegmentDecodes(p.paragraph);
    ContentsDecodes(p.offset, p.bytes);
    var lines := [SegmentLine(p.paragraph), ContentsLine(p.offset, p.bytes)] + rest;
    assert lines[1..] == [ContentsLine(p.offset, p.bytes)] + rest;
    assert lines[1..][1..] == rest;
    assert Plus(16 * p.paragraph, p.offset) == 16 * p.paragraph + p.offset;
  }

  /**
   An image cut into pieces at any segments and offsets that give their addresses loads
   back to itself, and the entry point is 16 times its segment plus its offset.
   */
  lemma {:induction false} SegmentImageLoads(s: HexState, address: nat, image: seq<Byte>, pieces: seq<Piece>,
                                             cs: Word, ip: Word)
    requires SegmentCut(address, image, pieces) && address + |image| <= |s.loaded.mem|
    requires forall i :: 0 <= i < |pieces| ==> |pieces[i].bytes| < 0x100
    ensures LoadedHex(s, EncodeSegments(pieces, cs, ip)).loaded
            == Loaded(Splice(s.loaded.mem, address, image), 16 * cs + ip)
    decreases |pieces|
  {
    hide SegmentEntryLine, EndLine, SegmentLine, ContentsLine, LoadedHex, StoreAll;
    if pieces == [] {
      SegmentEnd(s, cs, ip);
      SpliceNothing(s.loaded.mem, address);
    } else {
      var p := pieces[0];
      var tail := image[|p.bytes|..];
      assert image == p.bytes + tail;
      SegmentPiece(s, p, EncodeSegments(pieces[1..], cs, ip));
      assert Mask24(address) == address;
      StoreFits(s.loaded.mem, address, p.bytes);
      var s' := HexState(Loaded(StoreAll(s.loaded.mem, address, p.bytes), s.loaded.pc), 16 * p.paragraph);
      SegmentImageLoads(s', address + |p.bytes|, tail, pieces[1..], cs, ip);
      SpliceAbove(s.loaded.mem, address, p.bytes, tail);
      hide Splice;
    }
  }

  /** Pieces of up to the given size, each at the paragraph its address lies in. */
  function CutImage(address: nat, image: seq<Byte>, size: nat): (pieces: seq<Piece>)
    requires 0 < size < 0x100 && address + |image| <= 0x10_0000
    ensures SegmentCut(address, image, pieces)
    decreases |image|
  {
    if image == [] then []
    else
      var k := if |image| < size then |image| else size;
      [Piece(address / 16, address % 16, image[..k])] + CutImage(address + k, image[k..], size)
  }

  /** Every image below one megabyte can be encoded with segment records. */
  lemma SegmentedImageLoads(s: HexState, address: nat, image: seq<Byte>, size: nat, cs: Word, ip: Word)
    requires 0 < size < 0x100 && address + |image| <= 0x10_0000 && address + |image| <= |s.loaded.mem|
    ensures forall i :: 0 <= i < |CutImage(address, image, size)| ==> |CutImage(address, image, size)[i].bytes| < 0x100
    ensures LoadedHex(s, EncodeSegments(CutImage(address, image, size), cs, ip)).loaded
            == Loaded(Splice(s.loaded.mem, address, image), 16 * cs + ip)
  {
    hide LoadedHex, CutImage, EncodeSegments, SegmentCut;
    var pieces := CutImage(address, image, size);
    CutPieces(address, image, pieces);
    SegmentImageLoads(s, address, image, pieces, cs, ip);
  }

  // -------------------------------------------------------- records as written

  /** A segment record, character by character. */
  lemma SegmentWritten()
    ensures DecodeHex(":020000021000EC") == Segment(0x1000)
  {
    hide SumBytes, Bytes, IsHex;
    var a := ":020000021000EC";
    assert ParseByte(a, 1) == 2 && ParseByte(a, 3) == 0 && ParseByte(a, 5) == 0 && ParseByte(a, 7) == 2;
    assert ParseByte(a, 9) == 0x10 && ParseByte(a, 11) == 0 && ParseByte(a, 13) == 0xEC;
    FirstSums(a, 1);
    HexDigits(a, 1);
    hide ParseByte;
  }

  /** A data record of one byte, its last digits in lower case. */
  lemma ContentsWritten()
    ensures DecodeHex(":0100000041be") == Contents(0, [0x41])
  {
    hide SumBytes, Bytes, IsHex;
    var a := ":0100000041be";
    assert ParseByte(a, 1) == 1 && ParseByte(a, 3) == 0 && ParseByte(a, 5) == 0 && ParseByte(a, 7) == 0;
    assert ParseByte(a, 9) == 0x41 && ParseByte(a, 11) == 0xBE;
    FirstSums(a, 1);
    HexDigits(a, 1);
    OneByte(a, 9);
    hide ParseByte;
  }

  lemma OneByte(s: string, at: nat)
    requires at + 2 <= |s|
    ensures Bytes(s, at, 1) == [ParseByte(s, at)]
  {
    assert Bytes(s, at, 0) == [];
  }

  lemma EndWritten()
    ensures DecodeHex(":00000001FF") == EndOfFile
  {
    hide SumBytes, Bytes, IsHex;
    var a := ":00000001FF";
    assert ParseByte(a, 1) == 0 && ParseByte(a, 3) == 0 && ParseByte(a, 5) == 0 && ParseByte(a, 7) == 1;
    assert ParseByte(a, 9) == 0xFF;
    FirstSums(a, 1);
    HexDigits(a, 1);
    hide ParseByte;
  }

  /** Both cases of the digits count. */
  lemma HexDigits(s: string, start: nat)
    ensures (forall i :: start <= i < |s| ==> s[i] in "0123456789ABCDEFabcdef") ==>
      forall at, n :: start <= at <= at + n <= |s| ==> AllHex(s, at, n)
  {
  }

  lemma FirstSums(s: string, at: nat)
    requires at + 10 <= |s|
    ensures var sum := ParseByte(s, at) as int + ParseByte(s, at + 2) + ParseByte(s, at + 4) + ParseByte(s, at + 6)
                       + ParseByte(s, at + 8);
            && SumBytes(Bytes(s, at, 5)) == sum
            && (at + 12 <= |s| ==> SumBytes(Bytes(s, at, 6)) == sum + ParseByte(s, at + 10))
            && (at + 14 <= |s| ==> SumBytes(Bytes(s, at, 7)) == sum + ParseByte(s, at + 10) + ParseByte(s, at + 12))
  {
    hide ParseByte;
    assert SumBytes(Bytes(s, at, 0)) == 0;
    NextSum(s, at, 0);
    NextSum(s, at, 1);
    NextSum(s, at, 2);
    NextSum(s, at, 3);
    NextSum(s, at, 4);
    if at + 12 <= |s| {
      NextSum(s, at, 5);
    }
    if at + 14 <= |s| {
      NextSum(s, at, 6);
    }
    hide SumBytes, Bytes;
  }

  lemma NextSum(s: string, at: nat, n: nat)
    requires at + 2 * (n + 1) <= |s|
    ensures SumBytes(Bytes(s, at, n + 1)) == SumBytes(Bytes(s, at, n)) + ParseByte(s, at + 2 * n)
  {
    SumSnoc(Bytes(s, at, n), ParseByte(s, at + 2 * n));
    hide ParseByte;
  }

  lemma AddressWord(s: string, at: nat)
    requires at + 4 <= |s|
    ensures Number(Bytes(s, at, 2)) == 0x100 * ParseByte(s, at) as int + ParseByte(s, at + 2)
  {
    BytesAt(s, at, 2, 0);
    BytesAt(s, at, 2, 1);
    hide Bytes, ParseByte, Number;
    NumberOfTwo(Bytes(s, at, 2));
  }

  lemma SumOfFour(s: string, at: nat)
    requires at + 8 <= |s|
    ensures SumBytes(Bytes(s, at, 4)) == ParseByte(s, at) as int + ParseByte(s, at + 2) + ParseByte(s, at + 4)
                                         + ParseByte(s, at + 6)
  {
    hide ParseByte;
    assert SumBytes(Bytes(s, at, 0)) == 0;
    NextSum(s, at, 0);
    NextSum(s, at, 1);
    NextSum(s, at, 2);
    NextSum(s, at, 3);
    hide SumBytes, Bytes;
  }

  /** An S-record of one data byte, character by character. */
  lemma SrecDataWritten()
    ensures DecodeSrec("S10412344174") == Data(0x1234, [0x41])
  {
    hide SumBytes, Bytes, IsHex, Number;
    var a := "S10412344174";
    assert ParseByte(a, 2) == 4 && ParseByte(a, 4) == 0x12 && ParseByte(a, 6) == 0x34 && ParseByte(a, 8) == 0x41;
    assert ParseByte(a, 10) == 0x74;
    FirstSums(a, 2);
    HexDigits(a, 2);
    AddressWord(a, 4);
    OneByte(a, 8);
    hide ParseByte;
  }

  lemma SrecStartWritten()
    ensures DecodeSrec("S9031000EC") == Start(0x1000)
  {
    hide SumBytes, Bytes, IsHex, Number;
    var a := "S9031000EC";
    assert ParseByte(a, 2) == 3 && ParseByte(a, 4) == 0x10 && ParseByte(a, 6) == 0 && ParseByte(a, 8) == 0xEC;
    SumOfFour(a, 2);
    HexDigits(a, 2);
    AddressWord(a, 4);
    hide ParseByte;
  }

  // ------------------------------------------------------------ line ends

  /** An S-record may end its line with a line feed, a carriage return, or both. */
  lemma SrecLineEnds(kind: char, body: seq<Byte>)
    requires |body| < 0xFF
    ensures var record := EncodeSrec(kind, body);
            Chomp(record) == record && Chomp(record + "\n") == record && Chomp(record + "\r") == record
            && Chomp(record + "\r\n") == record
  {
    hide HexText, SrecBytes;
    var b, record := SrecBytes(body), EncodeSrec(kind, body);
    TextHex(['S', kind], b, 2 * |b| - 1);
    assert IsHex(record[|record| - 1]);
    ChompEnds(record);
  }

  lemma ChompEnds(record: string)
    requires record != [] && IsHex(record[|record| - 1])
    ensures Chomp(record) == record && Chomp(record + "\n") == record && Chomp(record + "\r") == record
            && Chomp(record + "\r\n") == record
  {
    assert (record + "\n")[..|record|] == record && (record + "\r")[..|record|] == record;
    assert (record + "\r\n")[..|record| + 1] == record + "\r";
  }

  /** An Intel HEX record may end its line with any line feeds and carriage returns. */
  lemma {:induction false} HexLineEnds(record: string, ends: string)
    requires record != [] && IsHex(record[|record| - 1])
    requires forall i :: 0 <= i < |ends| ==> ends[i] == '\n' || ends[i] == '\r'
    ensures Strip(record + ends) == record
    decreases |ends|
  {
    var line := record + ends;
    if ends == [] {
      assert line == record;
    } else {
      assert line[..|line| - 1] == record + ends[..|ends| - 1] && line[|line| - 1] == ends[|ends| - 1];
      HexLineEnds(record, ends[..|ends| - 1]);
    }
  }

  /** A record that runs past the end of memory stores the bytes that fit and no others. */
  lemma {:induction false} StoreOverruns(mem: seq<Byte>, address: Long, bytes: seq<Byte>)
    requires Mask24(address) <= |mem| < Mask24(address) + |bytes| <= 0x100_0000
    ensures StoreAll(mem, address, bytes) == Splice(mem, Mask24(address), bytes[..|mem| - Mask24(address)])
    decreases |bytes|
  {
    hide Mask24, Plus;
    var at := Mask24(address);
    if at < |mem| {
      var mem' := mem[at := bytes[0]];
      BusOffset(address, 1);
      StoreOverruns(mem', Plus(address, 1), bytes[1..]);
      assert bytes[1..][..|mem| - at - 1] == bytes[..|mem| - at][1..];
      assert Splice(mem', at + 1, bytes[1..][..|mem| - at - 1]) == Splice(mem, at, bytes[..|mem| - at]);
    } else {
      SpliceNothing(mem, at);
    }
  }
}
