/**
 The portable save-state format: a header, then tagged fields with one-byte lengths.
 */
module SaveState {
  import opened Words
  import opened StatusRegister
  import opened MachineState
  import opened Core
  import Execution
  import Exceptions

  const NEED: nat := 146

  /** A field of a save state. */
  datatype Field = Field(tag: Byte, body: seq<Byte>)

  predicate Fits(f: Field) {
    |f.body| < 0x100
  }

  function FieldBytes(f: Field): (r: seq<Byte>)
    requires Fits(f)
    ensures |r| == 2 + |f.body|
  {
    [f.tag, |f.body|] + f.body
  }

  predicate AllFit(fs: seq<Field>) {
    forall i :: 0 <= i < |fs| ==> Fits(fs[i])
  }

  function Encode(fs: seq<Field>): seq<Byte>
    requires AllFit(fs)
  {
    if fs == [] then [] else FieldBytes(fs[0]) + Encode(fs[1..])
  }

  /** The letters R68S, version 1, and two zero bytes. */
  function Header(): (r: seq<Byte>)
    ensures |r| == 8
  {
    [0x52, 0x36, 0x38, 0x53, 0, 1, 0, 0]
  }

  // ------------------------------------------------------------ what is saved

  function RegisterBytes(r: Registers, n: nat): (b: seq<Byte>)
    requires n <= 8
    ensures |b| == 4 * n
  {
    if n == 0 then [] else RegisterBytes(r, n - 1) + Be32(r[n - 1])
  }

  function Flag(b: bool): Byte {
    if b then 1 else 0
  }

  function ModelNumber(model: Model): Long {
    if model == M68010 then 1 else 0
  }

  /** The contents of the field with the given tag. */
  function Body(m: Machine, tag: Byte): (b: seq<Byte>)
    ensures |b| < 0x100
  {
    match tag
    case 1 => RegisterBytes(m.d, 8)
    case 2 => RegisterBytes(m.a, 8)
    case 3 => Be32(m.pc)
    case 4 => Be16(SrWord(m.sr))
    case 5 => Be32(m.usp)
    case 6 => Be32(m.ssp)
    case 7 => Be32(m.control.vbr)
    case 8 => Be32(m.control.sfc)
    case 9 => Be32(m.control.dfc)
    case 10 => [Flag(m.lines.stopped), m.lines.level % 0x100, Flag(m.lines.nmi), Flag(m.lines.trace)]
    case 11 => Be16(m.ir) + Be32(m.ppc)
    case 12 => Be32(Wrap(m.slice.target)) + Be32(Wrap(m.slice.remaining))
    case 13 => Be32(ModelNumber(m.control.model))
    case _ => []
  }

  /** The fields from the given tag to the last. */
  function FieldsFrom(m: Machine, tag: nat): (fs: seq<Field>)
    requires 1 <= tag <= 14
    ensures AllFit(fs)
    decreases 14 - tag
  {
    if tag == 14 then [] else [Field(tag, Body(m, tag))] + FieldsFrom(m, tag + 1)
  }

  function Saved(m: Machine): seq<Byte> {
    Header() + Encode(FieldsFrom(m, 1))
  }

  // --------------------------------------------------------- what is restored

  function GetRegisters(b: seq<Byte>): (r: Registers)
    requires |b| == 32
  {
    [Get32(b, 0), Get32(b, 4), Get32(b, 8), Get32(b, 12), Get32(b, 16), Get32(b, 20), Get32(b, 24), Get32(b, 28)]
  }

  /** The length a known tag must have. */
  function KnownLength(tag: Byte): Option<nat> {
    if tag == 1 || tag == 2 then Some(32)
    else if tag == 4 then Some(2)
    else if tag == 11 then Some(6)
    else if tag == 12 then Some(8)
    else if 3 <= tag <= 13 then Some(4)
    else None
  }

  /** The field is restored or skipped; otherwise it makes the whole blob invalid. */
  predicate Acceptable(f: Field) {
    KnownLength(f.tag).Some? ==> |f.body| == KnownLength(f.tag).value && (f.tag == 13 ==> Get32(f.body, 0) <= 1)
  }

  /** A 32-bit pattern as the host's int. */
  function ToInt(x: Long): int {
    if x >= 0x8000_0000 then x - 0x1_0000_0000 else x
  }

  /** One field restored; unknown tags change nothing. */
  function Apply(m: Machine, f: Field): Machine
    requires Acceptable(f)
  {
    var t, b := f.tag, f.body;
    m.(d := if t == 1 then GetRegisters(b) else m.d,
       a := if t == 2 then GetRegisters(b) else m.a,
       pc := if t == 3 then Get32(b, 0) else m.pc,
       sr := if t == 4 then WordSr(Get16(b, 0)) else m.sr,
       usp := if t == 5 then Get32(b, 0) else m.usp,
       ssp := if t == 6 then Get32(b, 0) else m.ssp,
       control := m.control.(vbr := if t == 7 then Get32(b, 0) else m.control.vbr,
                             sfc := if t == 8 then Get32(b, 0) else m.control.sfc,
                             dfc := if t == 9 then Get32(b, 0) else m.control.dfc,
                             model := if t == 13 then (if Get32(b, 0) == 1 then M68010 else M68000)
                               else m.control.model),
       lines := m.lines.(stopped := if t == 10 then b[0] != 0 else m.lines.stopped,
                         level := if t == 10 then b[1] else m.lines.level,
                         nmi := if t == 10 then b[2] != 0 else m.lines.nmi,
                         trace := if t == 10 then b[3] != 0 else m.lines.trace),
       ir := if t == 11 then Get16(b, 0) else m.ir,
       ppc := if t == 11 then Get32(b, 2) else m.ppc,
       slice := m.slice.(target := if t == 12 then ToInt(Get32(b, 0)) else m.slice.target,
                         remaining := if t == 12 then ToInt(Get32(b, 4)) else m.slice.remaining))
  }

  /** What restoring left, and whether the blob was accepted. */
  datatype Restored = Restored(machine: Machine, ok: bool)

  /** The field loop, from the given index on; a rejected blob keeps what was restored before. */
  function RestoreFields(m: Machine, bytes: seq<Byte>, p: nat): Restored
    requires p <= |bytes|
    decreases |bytes| - p
  {
    if p == |bytes| then Restored(m, true)
    else if |bytes| - p < 2 then Restored(m, false)
    else
      var len := bytes[p + 1];
      if |bytes| - (p + 2) < len then Restored(m, false)
      else
        var f := Field(bytes[p], bytes[p + 2..p + 2 + len]);
        if !Acceptable(f) then Restored(m, false)
        else RestoreFields(Apply(m, f), bytes, p + 2 + len)
  }

  /** The latches that never come back active. */
  function Settled(m: Machine): Machine {
    m.(nesting := m.nesting.(thrown := 0, group0 := false, trap := false, addressError := false, busError := false),
       fault := m.fault.(valid := false, pcValid := false, busWordValid := false, programSpace := false))
  }

  predicate HasHeader(bytes: seq<Byte>) {
    && |bytes| >= 8
    && bytes[0] == 0x52 && bytes[1] == 0x36 && bytes[2] == 0x38 && bytes[3] == 0x53 && Get16(bytes, 4) == 1
  }

  function Restore(m: Machine, bytes: seq<Byte>): Restored {
    if !HasHeader(bytes) then Restored(m, false)
    else
      var r := RestoreFields(m, bytes, 8);
      if r.ok then Restored(Settled(r.machine), true) else r
  }

  // ------------------------------------------------------- parsing an encoding

  predicate AllAcceptable(fs: seq<Field>) {
    AllFit(fs) && forall i :: 0 <= i < |fs| ==> Acceptable(fs[i])
  }

  function ApplyAll(m: Machine, fs: seq<Field>): Machine
    requires AllAcceptable(fs)
    decreases |fs|
  {
    if fs == [] then m else ApplyAll(Apply(m, fs[0]), fs[1..])
  }

  /** The number of whole fields in the first k bytes, when k is on a field boundary. */
  function Boundary(fs: seq<Field>, k: nat): Option<nat>
    requires AllFit(fs)
    decreases |fs|
  {
    if k == 0 then Some(0)
    else if fs == [] || k < |FieldBytes(fs[0])| then None
    else match Boundary(fs[1..], k - |FieldBytes(fs[0])|)
         case None => None
         case Some(n) => Some(n + 1)
  }

  lemma {:induction false} BoundaryMeaning(fs: seq<Field>, k: nat)
    requires AllFit(fs)
    ensures Boundary(fs, k).Some? ==> Boundary(fs, k).value <= |fs| && k == |Encode(fs[..Boundary(fs, k).value])|
    ensures forall j :: 0 <= j <= |fs| && k == |Encode(fs[..j])| ==> Boundary(fs, k).Some?
    decreases |fs|
  {
    if k > 0 && fs != [] {
      var n := |FieldBytes(fs[0])|;
      if k >= n {
        BoundaryMeaning(fs[1..], k - n);
      }
      forall j | 0 <= j <= |fs| && k == |Encode(fs[..j])| ensures Boundary(fs, k).Some? {
        PrefixEncode(fs, j);
        if j > 0 {
          assert k - n == |Encode(fs[1..][..j - 1])|;
        }
      }
      if Boundary(fs, k).Some? {
        PrefixEncode(fs, Boundary(fs, k).value);
      }
    }
  }

  lemma PrefixEncode(fs: seq<Field>, j: nat)
    requires AllFit(fs) && j <= |fs|
    ensures j == 0 ==> |Encode(fs[..j])| == 0
    ensures j > 0 ==> |Encode(fs[..j])| == |FieldBytes(fs[0])| + |Encode(fs[1..][..j - 1])|
  {
    if j > 0 {
      assert fs[..j][1..] == fs[1..][..j - 1];
    }
  }

  /** The field that starts at an index of a byte string. */
  lemma ReadField(pre: seq<Byte>, f: Field, rest: seq<Byte>, bytes: seq<Byte>)
    requires Fits(f) && bytes == pre + (FieldBytes(f) + rest)
    ensures var p := |pre|;
            && |bytes| - p >= 2 + |f.body| && bytes[p] == f.tag && bytes[p + 1] == |f.body|
            && bytes[p + 2..p + 2 + |f.body|] == f.body
            && bytes == (pre + FieldBytes(f)) + rest
  {
    assert bytes[|pre|..] == FieldBytes(f) + rest;
  }

  /** A whole field is restored and passed. */
  lemma ParseOne(m: Machine, pre: seq<Byte>, f: Field, rest: seq<Byte>, bytes: seq<Byte>)
    requires Fits(f) && Acceptable(f) && bytes == pre + (FieldBytes(f) + rest)
    ensures RestoreFields(m, bytes, |pre|) == RestoreFields(Apply(m, f), bytes, |pre| + |FieldBytes(f)|)
    ensures bytes == (pre + FieldBytes(f)) + rest
  {
    hide Apply, Acceptable, FieldBytes;
    ReadField(pre, f, rest, bytes);
    assert Field(bytes[|pre|], bytes[|pre| + 2..|pre| + 2 + |f.body|]) == f;
  }

  /** Part of a field is refused. */
  lemma ParsePart(m: Machine, pre: seq<Byte>, f: Field, part: seq<Byte>)
    requires Fits(f) && 0 < |part| < |FieldBytes(f)| && part == FieldBytes(f)[..|part|]
    ensures !RestoreFields(m, pre + part, |pre|).ok
  {
    hide Apply, Acceptable;
    if |part| >= 2 {
      assert (pre + part)[|pre| + 1] == part[1] == FieldBytes(f)[1];
    }
  }

  lemma EncodeNothing(fs: seq<Field>)
    requires AllFit(fs)
    ensures fs == [] ==> Encode(fs) == []
  {
  }

  lemma EncodeFirst(fs: seq<Field>)
    requires AllFit(fs) && fs != []
    ensures Encode(fs) == FieldBytes(fs[0]) + Encode(fs[1..])
  {
  }

  lemma CutPieces(a: seq<Byte>, b: seq<Byte>, k: nat)
    requires k <= |a| + |b|
    ensures (a + b)[..k] == if k < |a| then a[..k] else a + b[..k - |a|]
  {
  }

  /** Parsing from index p takes the whole fields of the first k bytes, and fails inside a field. */
  predicate Parsed(m: Machine, fs: seq<Field>, k: nat, bytes: seq<Byte>, p: nat)
    requires AllAcceptable(fs) && p <= |bytes|
  {
    var r, n := RestoreFields(m, bytes, p), Boundary(fs, k);
    && (r.ok <==> n.Some?)
    && (n.Some? ==> n.value <= |fs| && r.machine == ApplyAll(m, fs[..n.value]))
  }

  lemma ParsedShort(m: Machine, pre: seq<Byte>, fs: seq<Field>, k: nat)
    requires AllAcceptable(fs) && fs != [] && 0 < k < |FieldBytes(fs[0])|
    ensures Parsed(m, fs, k, pre + FieldBytes(fs[0])[..k], |pre|)
  {
    hide Apply, Acceptable, Fits, RestoreFields, FieldBytes;
    BoundaryNext(fs, k);
    ParsePart(m, pre, fs[0], FieldBytes(fs[0])[..k]);
  }

  lemma ParsedStep(m: Machine, pre: seq<Byte>, fs: seq<Field>, k: nat, rest: seq<Byte>, bytes: seq<Byte>)
    requires AllAcceptable(fs) && fs != [] && k >= |FieldBytes(fs[0])| && bytes == pre + (FieldBytes(fs[0]) + rest)
    ensures Parsed(Apply(m, fs[0]), fs[1..], k - |FieldBytes(fs[0])|, bytes, |pre| + |FieldBytes(fs[0])|)
            ==> Parsed(m, fs, k, bytes, |pre|)
  {
    hide Apply, Acceptable, Fits, RestoreFields, FieldBytes;
    BoundaryNext(fs, k);
    ParseOne(m, pre, fs[0], rest, bytes);
    CutApplies(m, fs, k);
    hide Boundary, ApplyAll;
  }

  /**
   A prefix of an encoding is accepted exactly when it ends on a field boundary, and then
   restores exactly the fields before the cut.
   */
  lemma {:induction false} ParseCut(m: Machine, pre: seq<Byte>, fs: seq<Field>, k: nat, bytes: seq<Byte>)
    requires AllAcceptable(fs) && k <= |Encode(fs)| && bytes == pre + Encode(fs)[..k]
    ensures Parsed(m, fs, k, bytes, |pre|)
    decreases |fs|
  {
    hide Apply, Acceptable, Fits, RestoreFields, Boundary, ApplyAll, Parsed, FieldBytes, Encode;
    if k == 0 {
      ParsedNothing(m, fs, pre);
      assert bytes == pre;
    } else {
      EncodeNothing(fs);
      var f, rest := fs[0], Encode(fs[1..]);
      var n := |FieldBytes(f)|;
      EncodeFirst(fs);
      CutPieces(FieldBytes(f), rest, k);
      if k < n {
        ParsedShort(m, pre, fs, k);
      } else {
        ParseCut(Apply(m, f), pre + FieldBytes(f), fs[1..], k - n, (pre + FieldBytes(f)) + rest[..k - n]);
        Regroup(pre, FieldBytes(f), rest[..k - n]);
        ParsedStep(m, pre, fs, k, rest[..k - n], bytes);
      }
    }
  }

  lemma ParsedNothing(m: Machine, fs: seq<Field>, pre: seq<Byte>)
    requires AllAcceptable(fs)
    ensures Parsed(m, fs, 0, pre, |pre|)
  {
    hide Apply, Acceptable, Fits;
  }

  lemma Regroup(a: seq<Byte>, b: seq<Byte>, c: seq<Byte>)
    ensures (a + b) + c == a + (b + c) && |a + b| == |a| + |b|
  {
  }

  lemma BoundaryNext(fs: seq<Field>, k: nat)
    requires AllFit(fs) && k > 0 && fs != []
    ensures k < |FieldBytes(fs[0])| ==> Boundary(fs, k).None?
    ensures k >= |FieldBytes(fs[0])| ==>
      var n := Boundary(fs[1..], k - |FieldBytes(fs[0])|);
      Boundary(fs, k) == match n case None => None case Some(j) => Some(j + 1)
  {
  }

  lemma CutApplies(m: Machine, fs: seq<Field>, k: nat)
    requires AllAcceptable(fs) && fs != [] && k >= |FieldBytes(fs[0])|
    ensures var n := Boundary(fs[1..], k - |FieldBytes(fs[0])|);
            n.Some? && n.value <= |fs| - 1 ==>
              ApplyAll(m, fs[..n.value + 1]) == ApplyAll(Apply(m, fs[0]), fs[1..][..n.value])
  {
    hide Apply, Acceptable, Fits;
    var n := Boundary(fs[1..], k - |FieldBytes(fs[0])|);
    if n.Some? && n.value <= |fs| - 1 {
      assert fs[..n.value + 1][1..] == fs[1..][..n.value];
    }
  }

  lemma {:induction false} BoundaryWhole(fs: seq<Field>)
    requires AllFit(fs)
    ensures Boundary(fs, |Encode(fs)|) == Some(|fs|)
    decreases |fs|
  {
    if fs != [] {
      BoundaryWhole(fs[1..]);
    }
  }

  /** A blob of acceptable fields is accepted and restores all of them in order. */
  lemma ParseWhole(m: Machine, fs: seq<Field>)
    requires AllAcceptable(fs)
    ensures RestoreFields(m, Header() + Encode(fs), 8) == Restored(ApplyAll(m, fs), true)
  {
    var k := |Encode(fs)|;
    assert Encode(fs)[..k] == Encode(fs);
    ParseCut(m, Header(), fs, k, Header() + Encode(fs));
    BoundaryWhole(fs);
    assert fs[..|fs|] == fs;
    hide Apply, Acceptable, Encode, Header;
  }

  // ------------------------------------------------------------- unknown tags

  function Known(fs: seq<Field>): seq<Field> {
    if fs == [] then []
    else (if KnownLength(fs[0].tag).Some? then [fs[0]] else []) + Known(fs[1..])
  }

  lemma UnknownChangesNothing(m: Machine, f: Field)
    requires KnownLength(f.tag).None?
    ensures Acceptable(f) && Apply(m, f) == m
  {
  }

  lemma {:induction false} KnownDecides(m: Machine, fs: seq<Field>)
    requires AllAcceptable(fs)
    ensures AllAcceptable(Known(fs)) && ApplyAll(m, Known(fs)) == ApplyAll(m, fs)
    decreases |fs|
  {
    hide Acceptable, Fits, Apply, KnownLength;
    if fs != [] {
      var f, rest := fs[0], fs[1..];
      KnownDecides(m, rest);
      KnownDecides(Apply(m, f), rest);
      if KnownLength(f.tag).Some? {
        var known := [f] + Known(rest);
        assert known[1..] == Known(rest);
      } else {
        UnknownChangesNothing(m, f);
        assert [] + Known(rest) == Known(rest);
      }
    }
  }

  /** Fields with unknown tags, anywhere between the others, make no difference. */
  lemma UnknownTagsSkipped(m: Machine, fs: seq<Field>)
    requires AllAcceptable(fs)
    ensures AllAcceptable(Known(fs))
    ensures Restore(m, Header() + Encode(fs)) == Restore(m, Header() + Encode(Known(fs)))
  {
    KnownDecides(m, fs);
    ParseWhole(m, fs);
    ParseWhole(m, Known(fs));
    StartsWithHeader(Encode(fs));
    StartsWithHeader(Encode(Known(fs)));
    hide Apply, Acceptable, Encode, Header, Known, Fits, HasHeader, ApplyAll, RestoreFields, Settled;
  }

  lemma StartsWithHeader(rest: seq<Byte>)
    ensures HasHeader(Header() + rest)
  {
    var b := Header() + rest;
    assert b[4] == 0 && b[5] == 1;
  }

  // --------------------------------------------------------------- round trip

  /** The states a save state can hold: an interrupt level of one byte, 32-bit cycle counters. */
  predicate Restorable(m: Machine) {
    && 0 <= m.lines.level < 0x100
    && -0x8000_0000 <= m.slice.target < 0x8000_0000 && -0x8000_0000 <= m.slice.remaining < 0x8000_0000
  }

  /** The machine h with the fields of m up to the given tag. */
  function Copied(h: Machine, m: Machine, t: int): Machine {
    h.(d := if t >= 1 then m.d else h.d,
       a := if t >= 2 then m.a else h.a,
       pc := if t >= 3 then m.pc else h.pc,
       sr := if t >= 4 then m.sr else h.sr,
       usp := if t >= 5 then m.usp else h.usp,
       ssp := if t >= 6 then m.ssp else h.ssp,
       control := Control(if t >= 13 then m.control.model else h.control.model,
                          if t >= 7 then m.control.vbr else h.control.vbr,
                          if t >= 8 then m.control.sfc else h.control.sfc,
                          if t >= 9 then m.control.dfc else h.control.dfc),
       lines := if t >= 10 then m.lines else h.lines,
       ir := if t >= 11 then m.ir else h.ir,
       ppc := if t >= 11 then m.ppc else h.ppc,
       slice := if t >= 12 then m.slice else h.slice)
  }

  lemma {:induction false} RegistersRead(r: Registers, n: nat, i: nat)
    requires i < n <= 8
    ensures Get32(RegisterBytes(r, n), 4 * i) == r[i]
  {
    hide Get32, Be32;
    var b := RegisterBytes(r, n);
    if i < n - 1 {
      RegistersRead(r, n - 1, i);
      Get32Prefix(RegisterBytes(r, n - 1), Be32(r[n - 1]), 4 * i);
    } else {
      assert forall j :: 0 <= j < 4 ==> b[4 * i + j] == Be32(r[i])[j];
      Exceptions.Be32Read(b, 4 * i, r[i]);
    }
  }

  lemma Get32Prefix(b: seq<Byte>, more: seq<Byte>, at: nat)
    requires at + 4 <= |b|
    ensures Get32(b + more, at) == Get32(b, at)
  {
  }

  lemma AllRegistersRead(r: Registers)
    ensures GetRegisters(RegisterBytes(r, 8)) == r
  {
    RegistersRead(r, 8, 0);
    RegistersRead(r, 8, 1);
    RegistersRead(r, 8, 2);
    RegistersRead(r, 8, 3);
    RegistersRead(r, 8, 4);
    RegistersRead(r, 8, 5);
    RegistersRead(r, 8, 6);
    RegistersRead(r, 8, 7);
    hide RegisterBytes, Get32;
  }

  lemma LongRead(x: Long)
    ensures Get32(Be32(x), 0) == x
  {
    Exceptions.Be32Read(Be32(x), 0, x);
  }

  lemma WordRead(x: Word)
    ensures Get16(Be16(x), 0) == x
  {
  }

  lemma PairRead(x: Word, y: Long)
    ensures Get16(Be16(x) + Be32(y), 0) == x && Get32(Be16(x) + Be32(y), 2) == y
  {
    hide Be32;
    var b := Be16(x) + Be32(y);
    assert forall j :: 0 <= j < 4 ==> b[2 + j] == Be32(y)[j];
    Exceptions.Be32Read(b, 2, y);
    hide Get32;
  }

  lemma LongPairRead(x: Long, y: Long)
    ensures Get32(Be32(x) + Be32(y), 0) == x && Get32(Be32(x) + Be32(y), 4) == y
  {
    hide Be32, Get32;
    var b := Be32(x) + Be32(y);
    assert forall j :: 0 <= j < 4 ==> b[j] == Be32(x)[j] && b[4 + j] == Be32(y)[j];
    Exceptions.Be32Read(b, 0, x);
    Exceptions.Be32Read(b, 4, y);
  }

  lemma IntRead(x: int)
    requires -0x8000_0000 <= x < 0x8000_0000
    ensures ToInt(Wrap(x)) == x
  {
  }

  /** Restoring the field of one tag copies the part of the state that it stands for. */
  lemma FieldRestores(h: Machine, m: Machine, t: nat)
    requires 1 <= t <= 13 && Restorable(m)
    ensures var f := Field(t, Body(m, t));
            Acceptable(f) && Apply(Copied(h, m, t - 1), f) == Copied(h, m, t)
  {
    hide Get16, Get32, Be16, Be32, GetRegisters, RegisterBytes, SrWord, WordSr;
    if t == 1 {
      AllRegistersRead(m.d);
    } else if t == 2 {
      AllRegistersRead(m.a);
    } else if t == 4 {
      WordRead(SrWord(m.sr));
      SrRoundTrip(m.sr);
    } else if t == 11 {
      PairRead(m.ir, m.ppc);
    } else if t == 12 {
      LongPairRead(Wrap(m.slice.target), Wrap(m.slice.remaining));
      IntRead(m.slice.target);
      IntRead(m.slice.remaining);
    } else if t != 10 {
      LongRead(if t == 3 then m.pc else if t == 5 then m.usp else if t == 6 then m.ssp else if t == 7 then m.control.vbr
               else if t == 8 then m.control.sfc else if t == 9 then m.control.dfc else ModelNumber(m.control.model));
    }
  }

  lemma {:induction false} FieldsRestore(h: Machine, m: Machine, t: nat)
    requires 1 <= t <= 14 && Restorable(m)
    ensures AllAcceptable(FieldsFrom(m, t)) && ApplyAll(Copied(h, m, t - 1), FieldsFrom(m, t)) == Copied(h, m, 13)
    decreases 14 - t
  {
    hide Body, Apply, Acceptable, Copied;
    if t < 14 {
      FieldRestores(h, m, t);
      FieldsRestore(h, m, t + 1);
      var fs := FieldsFrom(m, t);
      assert fs[0] == Field(t, Body(m, t)) && fs[1..] == FieldsFrom(m, t + 1);
    }
  }

  lemma NothingCopied(h: Machine, m: Machine)
    ensures Copied(h, m, 0) == h
  {
  }

  lemma SavedAcceptable(m: Machine, t: nat)
    requires 1 <= t <= 14
    ensures AllAcceptable(FieldsFrom(m, t)) && |Encode(FieldsFrom(m, t))| == SavedFrom(t)
    decreases 14 - t
  {
    if t < 14 {
      SavedAcceptable(m, t + 1);
      var fs := FieldsFrom(m, t);
      assert fs[0] == Field(t, Body(m, t)) && fs[1..] == FieldsFrom(m, t + 1);
      SavedFieldFits(m, t);
    }
    hide Body, Get32, Apply;
  }

  lemma SavedFieldFits(m: Machine, t: nat)
    requires 1 <= t <= 13
    ensures Acceptable(Field(t, Body(m, t))) && |Body(m, t)| == KnownLength(t).value
  {
    hide Get32, Be32, Be16, RegisterBytes;
    if t == 13 {
      LongRead(ModelNumber(m.control.model));
    }
  }

  /** The bytes of the fields from a tag on. */
  function SavedFrom(t: nat): nat
    requires 1 <= t <= 14
    decreases 14 - t
  {
    if t == 14 then 0 else 2 + KnownLength(t).value + SavedFrom(t + 1)
  }

  /** Every saved blob has the same length. */
  lemma SavedLength(m: Machine)
    ensures |Saved(m)| == NEED
  {
    SavedAcceptable(m, 1);
    SavedOffsets();
    hide Encode, FieldsFrom, SavedFrom;
  }

  /**
   Restoring a saved state, into any machine, brings back every architectural field and
   clears the fault latches; memory, data latches of the bus and history stay.
   */
  lemma RoundTrip(h: Machine, m: Machine)
    requires Restorable(m)
    ensures Restore(h, Saved(m)) == Restored(Settled(Copied(h, m, 13)), true)
  {
    FieldsRestore(h, m, 1);
    NothingCopied(h, m);
    ParseWhole(h, FieldsFrom(m, 1));
    StartsWithHeader(Encode(FieldsFrom(m, 1)));
    hide Encode, FieldsFrom, Copied, Header, HasHeader, ApplyAll, RestoreFields, Settled;
  }

  /** The offsets at which a saved blob may be cut. */
  predicate OnBoundary(k: nat) {
    k == 8 || k == 42 || k == 76 || k == 82 || k == 86 || k == 92 || k == 98 || k == 104 || k == 110 || k == 116
    || k == 122 || k == 130 || k == 140 || k == 146
  }

  /** A cut k bytes into the fields from a tag on falls between two of them. */
  predicate FieldEnd(t: nat, k: int)
    requires 1 <= t <= 14
    decreases 14 - t
  {
    k == 0 || (t < 14 && k > 0 && FieldEnd(t + 1, k - 2 - KnownLength(t).value))
  }

  lemma {:induction false} SavedBoundary(m: Machine, t: nat, k: nat)
    requires 1 <= t <= 14
    ensures Boundary(FieldsFrom(m, t), k).Some? <==> FieldEnd(t, k)
    decreases 14 - t
  {
    hide Body;
    if t < 14 && k > 0 {
      SavedFieldFits(m, t);
      var fs, n := FieldsFrom(m, t), 2 + KnownLength(t).value;
      assert fs[0] == Field(t, Body(m, t)) && fs[1..] == FieldsFrom(m, t + 1);
      if k >= n {
        SavedBoundary(m, t + 1, k - n);
      } else {
        NegativeEnd(t + 1, k - n);
      }
    }
  }

  lemma NegativeEnd(t: nat, k: int)
    requires 1 <= t <= 14 && k < 0
    ensures !FieldEnd(t, k)
  {
  }

  /**
   A cut blob is accepted exactly when the cut is on a field boundary; one that has lost
   part of its header restores nothing.
   */
  lemma CutBlob(h: Machine, m: Machine, k: nat)
    requires k <= NEED
    ensures |Saved(m)| == NEED && (Restore(h, Saved(m)[..k]).ok <==> OnBoundary(k))
    ensures k < 8 ==> Restore(h, Saved(m)[..k]) == Restored(h, false)
  {
    SavedLength(m);
    if k >= 8 {
      CutFields(h, m, k);
    }
    hide Saved, RestoreFields;
  }

  lemma CutFields(h: Machine, m: Machine, k: nat)
    requires 8 <= k <= NEED && |Saved(m)| == NEED
    ensures Restore(h, Saved(m)[..k]).ok <==> OnBoundary(k)
  {
    hide RestoreFields, Boundary, Header, HasHeader, OnBoundary, FieldEnd, SavedFrom, Acceptable, Settled, Body,
         Encode, FieldsFrom;
    SavedAcceptable(m, 1);
    var fs := FieldsFrom(m, 1);
    var cut := Encode(fs)[..k - 8];
    assert Saved(m)[..k] == Header() + cut;
    StartsWithHeader(cut);
    ParseCut(h, Header(), fs, k - 8, Header() + cut);
    SavedBoundary(m, 1, k - 8);
    BoundaryOffsets(k);
  }

  lemma NextEnd(t: nat, k: int)
    requires 1 <= t <= 13
    ensures FieldEnd(t, k) <==> k == 0 || (k > 0 && FieldEnd(t + 1, k - 2 - KnownLength(t).value))
  {
  }

  lemma BoundaryOffsets(k: nat)
    requires 8 <= k
    ensures OnBoundary(k) <==> FieldEnd(1, k - 8)
  {
    hide FieldEnd;
    NextEnd(1, k - 8);
    NextEnd(2, k - 42);
    NextEnd(3, k - 76);
    NextEnd(4, k - 82);
    NextEnd(5, k - 86);
    NextEnd(6, k - 92);
    NextEnd(7, k - 98);
    NextEnd(8, k - 104);
    NextEnd(9, k - 110);
    NextEnd(10, k - 116);
    NextEnd(11, k - 122);
    NextEnd(12, k - 130);
    NextEnd(13, k - 140);
    LastEnd(k - 146);
  }

  lemma LastEnd(k: int)
    ensures FieldEnd(14, k) <==> k == 0
  {
  }

  lemma SavedOffsets()
    ensures SavedFrom(1) == 138 && SavedFrom(2) == 104 && SavedFrom(3) == 70 && SavedFrom(4) == 64 && SavedFrom(5) == 60
    ensures SavedFrom(6) == 54 && SavedFrom(7) == 48 && SavedFrom(8) == 42 && SavedFrom(9) == 36 && SavedFrom(10) == 30
    ensures SavedFrom(11) == 24 && SavedFrom(12) == 16 && SavedFrom(13) == 6 && SavedFrom(14) == 0
  {
    assert SavedFrom(13) == 6;
    assert SavedFrom(11) == 24;
    assert SavedFrom(9) == 36;
    assert SavedFrom(7) == 48;
    assert SavedFrom(5) == 60;
    assert SavedFrom(3) == 70;
  }

  // ------------------------------------------------ running a restored state

  /** The interrupt level that the fields from an index on leave. */
  function LevelAfter(level: int, bytes: seq<Byte>, p: nat): int
    requires p <= |bytes|
    decreases |bytes| - p
  {
    if |bytes| - p < 2 || |bytes| - (p + 2) < bytes[p + 1] then level
    else
      var len := bytes[p + 1];
      var f := Field(bytes[p], bytes[p + 2..p + 2 + len]);
      if !Acceptable(f) then level
      else LevelAfter(if f.tag == 10 then f.body[1] else level, bytes, p + 2 + len)
  }

  lemma {:induction false} LevelRestored(m: Machine, bytes: seq<Byte>, p: nat)
    requires p <= |bytes|
    ensures var r := RestoreFields(m, bytes, p).machine;
            r.lines.level == LevelAfter(m.lines.level, bytes, p) && r.nesting == m.nesting
    decreases |bytes| - p
  {
    if |bytes| - p >= 2 && |bytes| - (p + 2) >= bytes[p + 1] {
      var len := bytes[p + 1];
      var f := Field(bytes[p], bytes[p + 2..p + 2 + len]);
      if Acceptable(f) {
        LevelRestored(Apply(m, f), bytes, p + 2 + len);
      }
    }
    hide Get32, Get16, GetRegisters;
  }

  /** A restored machine can be run on exactly when the level it was given is a level of the interrupt lines. */
  lemma RestoredReady(m: Machine, bytes: seq<Byte>)
    requires m.nesting.depth == 0 && HasHeader(bytes)
    ensures Execution.Ready(Restore(m, bytes).machine) <==> 0 <= LevelAfter(m.lines.level, bytes, 8) < 8
  {
    LevelRestored(m, bytes, 8);
    hide LevelAfter, RestoreFields, HasHeader;
  }

  /** A saved state that could be run can be run again. */
  lemma SavedReady(h: Machine, m: Machine)
    requires Restorable(m) && h.nesting.depth == 0
    ensures Execution.Ready(Restore(h, Saved(m)).machine) <==> m.lines.level < 8
  {
    RoundTrip(h, m);
    hide Restore, Saved;
  }

  // ----------------------------------------------------------- writing a blob

  /** The bytes below p are the given ones, and the bytes from p on are as they were. */
  predicate Written(before: seq<Byte>, done: seq<Byte>, now: seq<Byte>, p: nat) {
    && |now| == |before| && p <= |now| && now[..p] == done && now[p..] == before[p..]
  }

  method Put8(buffer: array<Byte>, p: nat, v: Byte, ghost before: seq<Byte>, ghost done: seq<Byte>)
    requires Written(before, done, buffer[..], p) && p < buffer.Length
    modifies buffer
    ensures Written(before, done + [v], buffer[..], p + 1)
  {
    buffer[p] := v;
  }

  method Put16(buffer: array<Byte>, p: nat, v: Word, ghost before: seq<Byte>, ghost done: seq<Byte>)
    requires Written(before, done, buffer[..], p) && p + 2 <= buffer.Length
    modifies buffer
    ensures Written(before, done + Be16(v), buffer[..], p + 2)
  {
    buffer[p] := v / 0x100;
    buffer[p + 1] := v % 0x100;
  }

  method Put32(buffer: array<Byte>, p: nat, v: Long, ghost before: seq<Byte>, ghost done: seq<Byte>)
    requires Written(before, done, buffer[..], p) && p + 4 <= buffer.Length
    modifies buffer
    ensures Written(before, done + Be32(v), buffer[..], p + 4)
  {
    buffer[p] := v / 0x100_0000;
    buffer[p + 1] := v / 0x1_0000 % 0x100;
    buffer[p + 2] := v / 0x100 % 0x100;
    buffer[p + 3] := v % 0x100;
  }

  /** The tag and the length of a field. */
  method PutTag(buffer: array<Byte>, p: nat, tag: Byte, len: Byte, ghost before: seq<Byte>, ghost done: seq<Byte>)
    returns (next: nat)
    requires Written(before, done, buffer[..], p) && p + 2 <= buffer.Length
    modifies buffer
    ensures next == p + 2 && Written(before, done + [tag, len], buffer[..], next)
  {
    buffer[p] := tag;
    buffer[p + 1] := len;
    return p + 2;
  }

  /** A field of one long word. */
  method PutLongField(buffer: array<Byte>, p: nat, tag: Byte, v: Long, ghost before: seq<Byte>, ghost done: seq<Byte>)
    returns (next: nat)
    requires Written(before, done, buffer[..], p) && p + 6 <= buffer.Length
    modifies buffer
    ensures next == p + 6 && Written(before, done + FieldBytes(Field(tag, Be32(v))), buffer[..], next)
  {
    hide Written, Be32;
    var q := PutTag(buffer, p, tag, 4, before, done);
    Put32(buffer, q, v, before, done + [tag, 4]);
    assert (done + [tag, 4]) + Be32(v) == done + FieldBytes(Field(tag, Be32(v)));
    return q + 4;
  }

  method PutRegisters(buffer: array<Byte>, p: nat, tag: Byte, r: Registers, ghost before: seq<Byte>,
                      ghost done: seq<Byte>)
    returns (next: nat)
    requires Written(before, done, buffer[..], p) && p + 34 <= buffer.Length
    modifies buffer
    ensures next == p + 34 && Written(before, done + FieldBytes(Field(tag, RegisterBytes(r, 8))), buffer[..], next)
  {
    hide Written, Be32;
    next := PutTag(buffer, p, tag, 32, before, done);
    ghost var lead := done + [tag, 32];
    assert lead + RegisterBytes(r, 0) == lead;
    for i := 0 to 8
      invariant next == p + 2 + 4 * i
      invariant Written(before, lead + RegisterBytes(r, i), buffer[..], next)
    {
      Put32(buffer, next, r[i], before, lead + RegisterBytes(r, i));
      assert (lead + RegisterBytes(r, i)) + Be32(r[i]) == lead + RegisterBytes(r, i + 1);
      next := next + 4;
    }
    assert lead + RegisterBytes(r, 8) == done + FieldBytes(Field(tag, RegisterBytes(r, 8)));
  }

  method PutFlags(buffer: array<Byte>, p: nat, cpu: Cpu, ghost before: seq<Byte>,
                  ghost done: seq<Byte>) returns (next: nat)
    requires Written(before, done, buffer[..], p) && p + 6 <= buffer.Length && buffer != cpu.memory
    modifies buffer
    ensures next == p + 6 && Written(before, done + FieldBytes(Field(10, Body(cpu.Abs(), 10))), buffer[..], next)
  {
    hide Written, Flag;
    next := PutTag(buffer, p, 10, 4, before, done);
    ghost var lead := done + [10, 4];
    var l := cpu.lines;
    var x, y, z, w := Flag(l.stopped), l.level % 0x100, Flag(l.nmi), Flag(l.trace);
    Put8(buffer, next, x, before, lead);
    Put8(buffer, next + 1, y, before, lead + [x]);
    Put8(buffer, next + 2, z, before, lead + [x] + [y]);
    Put8(buffer, next + 3, w, before, lead + [x] + [y] + [z]);
    FourPieces(done, 10, x, y, z, w);
    next := next + 4;
  }

  lemma FourPieces(done: seq<Byte>, tag: Byte, x: Byte, y: Byte, z: Byte, w: Byte)
    ensures done + [tag, 4] + [x] + [y] + [z] + [w] == done + FieldBytes(Field(tag, [x, y, z, w]))
  {
  }

  /** The registers and counters after the flags. */
  method PutTail(buffer: array<Byte>, p: nat, cpu: Cpu, ghost before: seq<Byte>,
                 ghost done: seq<Byte>) returns (next: nat)
    requires Written(before, done, buffer[..], p) && p + 24 <= buffer.Length && buffer != cpu.memory
    modifies buffer
    ensures next == p + 24
    ensures var m := cpu.Abs();
            Written(before, done + FieldBytes(Field(11, Body(m, 11))) + FieldBytes(Field(12, Body(m, 12)))
                            + FieldBytes(Field(13, Body(m, 13))), buffer[..], next)
  {
    hide Written, Be32, Be16;
    var x, y, z := cpu.ir, cpu.ppc, cpu.slice;
    next := PutTag(buffer, p, 11, 6, before, done);
    Put16(buffer, next, x, before, done + [11, 6]);
    Put32(buffer, next + 2, y, before, done + [11, 6] + Be16(x));
    ghost var done1 := done + FieldBytes(Field(11, Be16(x) + Be32(y)));
    assert done + [11, 6] + Be16(x) + Be32(y) == done1;
    next := PutTag(buffer, next + 6, 12, 8, before, done1);
    Put32(buffer, next, Wrap(z.target), before, done1 + [12, 8]);
    Put32(buffer, next + 4, Wrap(z.remaining), before, done1 + [12, 8] + Be32(Wrap(z.target)));
    ghost var done2 := done1 + FieldBytes(Field(12, Be32(Wrap(z.target)) + Be32(Wrap(z.remaining))));
    assert done1 + [12, 8] + Be32(Wrap(z.target)) + Be32(Wrap(z.remaining)) == done2;
    next := PutLongField(buffer, next + 8, 13, ModelNumber(cpu.control.model), before, done2);
  }

  /** The encoding of the fields below a tag. */
  function SavedUpTo(m: Machine, t: nat): seq<Byte>
    requires 1 <= t <= 14
    decreases t
  {
    if t == 1 then Header() else SavedUpTo(m, t - 1) + FieldBytes(Field(t - 1, Body(m, t - 1)))
  }

  lemma {:induction false} SavedInOrder(m: Machine, t: nat)
    requires 1 <= t <= 14
    ensures SavedUpTo(m, t) + Encode(FieldsFrom(m, t)) == Saved(m)
    decreases t
  {
    hide Body;
    if t > 1 {
      SavedInOrder(m, t - 1);
      var f := Field(t - 1, Body(m, t - 1));
      var fs := FieldsFrom(m, t - 1);
      assert fs[0] == f && fs[1..] == FieldsFrom(m, t);
      assert SavedUpTo(m, t - 1) + (FieldBytes(f) + Encode(FieldsFrom(m, t)))
             == (SavedUpTo(m, t - 1) + FieldBytes(f)) + Encode(FieldsFrom(m, t));
    }
  }

  method PutHeader(buffer: array<Byte>, ghost before: seq<Byte>)
    requires buffer.Length >= 8 && before == buffer[..]
    modifies buffer
    ensures Written(before, Header(), buffer[..], 8)
  {
    buffer[0], buffer[1], buffer[2], buffer[3] := 0x52, 0x36, 0x38, 0x53;
    buffer[4], buffer[5], buffer[6], buffer[7] := 0, 1, 0, 0;
  }

  /** The number of bytes needed or written, or 0 when they do not fit. */
  method Serialize(cpu: Cpu, buffer: array?<Byte>) returns (size: nat)
    requires buffer != cpu.memory
    modifies buffer
    ensures buffer == null ==> size == NEED
    ensures buffer != null && buffer.Length < NEED ==> size == 0 && buffer[..] == old(buffer[..])
    ensures buffer != null && buffer.Length >= NEED ==>
      size == NEED && buffer[..NEED] == Saved(cpu.Abs()) && buffer[NEED..] == old(buffer[NEED..])
    ensures buffer != null && buffer.Length >= NEED ==> LaidOut(cpu.Abs(), buffer[..NEED])
  {
    hide Written, Header, Body, FieldBytes, SavedUpTo, LaidOut;
    if buffer == null {
      return NEED;
    }
    if buffer.Length < NEED {
      return 0;
    }
    ghost var before, m := buffer[..], cpu.Abs();
    PutHeader(buffer, before);
    var p := PutHead(cpu, buffer, before);
    p := PutRest(cpu, buffer, before);
    SavedWhole(m);
    SavedLayout(m);
    WrittenWhole(before, Saved(m), buffer[..], NEED);
    return p;
  }

  lemma WrittenWhole(before: seq<Byte>, done: seq<Byte>, now: seq<Byte>, p: nat)
    ensures Written(before, done, now, p) ==> p <= |now| == |before| && now[..p] == done && now[p..] == before[p..]
  {
  }

  lemma SavedWhole(m: Machine)
    ensures SavedUpTo(m, 14) == Saved(m)
  {
    hide SavedUpTo, Saved;
    SavedInOrder(m, 14);
    assert SavedUpTo(m, 14) + [] == SavedUpTo(m, 14);
  }

  /** The register blocks and the first scalar fields. */
  method PutHead(cpu: Cpu, buffer: array<Byte>, ghost before: seq<Byte>) returns (p: nat)
    requires buffer != cpu.memory && buffer.Length >= NEED && Written(before, Header(), buffer[..], 8)
    modifies buffer
    ensures p == 92 && Written(before, SavedUpTo(cpu.Abs(), 6), buffer[..], p)
  {
    hide Written, FieldBytes, Header;
    ghost var m := cpu.Abs();
    p := PutRegisters(buffer, 8, 1, cpu.d, before, SavedUpTo(m, 1));
    p := PutRegisters(buffer, p, 2, cpu.a, before, SavedUpTo(m, 2));
    p := PutLongField(buffer, p, 3, cpu.pc, before, SavedUpTo(m, 3));
    ghost var done := SavedUpTo(m, 4);
    var w := SrWord(cpu.sr);
    p := PutTag(buffer, p, 4, 2, before, done);
    Put16(buffer, p, w, before, done + [4, 2]);
    TwoPieces(done, 4, w);
    p := PutLongField(buffer, p + 2, 5, cpu.usp, before, SavedUpTo(m, 5));
  }

  lemma TwoPieces(done: seq<Byte>, tag: Byte, w: Word)
    ensures (done + [tag, 2]) + Be16(w) == done + FieldBytes(Field(tag, Be16(w)))
  {
  }

  method PutRest(cpu: Cpu, buffer: array<Byte>, ghost before: seq<Byte>) returns (p: nat)
    requires buffer != cpu.memory && buffer.Length >= NEED && Written(before, SavedUpTo(cpu.Abs(), 6), buffer[..], 92)
    modifies buffer
    ensures p == NEED && Written(before, SavedUpTo(cpu.Abs(), 14), buffer[..], p)
  {
    hide Written, FieldBytes, Header;
    ghost var m := cpu.Abs();
    p := PutLongField(buffer, 92, 6, cpu.ssp, before, SavedUpTo(m, 6));
    p := PutLongField(buffer, p, 7, cpu.control.vbr, before, SavedUpTo(m, 7));
    p := PutLongField(buffer, p, 8, cpu.control.sfc, before, SavedUpTo(m, 8));
    p := PutLongField(buffer, p, 9, cpu.control.dfc, before, SavedUpTo(m, 9));
    p := PutFlags(buffer, p, cpu, before, SavedUpTo(m, 10));
    p := PutTail(buffer, p, cpu, before, SavedUpTo(m, 11));
  }

  // ----------------------------------------------------------- reading a blob

  method GetWord(buffer: array<Byte>, p: nat) returns (v: Word)
    requires p + 2 <= buffer.Length
    ensures v == Get16(buffer[..], p)
  {
    v := 0x100 * (buffer[p] as int) + buffer[p + 1];
  }

  method GetLong(buffer: array<Byte>, p: nat) returns (v: Long)
    requires p + 4 <= buffer.Length
    ensures v == Get32(buffer[..], p)
  {
    v := 0x100_0000 * (buffer[p] as int) + 0x1_0000 * (buffer[p + 1] as int) + 0x100 * (buffer[p + 2] as int)
      + buffer[p + 3];
  }

  lemma SliceLong(b: seq<Byte>, p: nat, len: nat, i: nat)
    requires p + len <= |b| && i + 4 <= len
    ensures Get32(b[p..p + len], i) == Get32(b, p + i)
  {
  }

  lemma SliceWord(b: seq<Byte>, p: nat, len: nat, i: nat)
    requires p + len <= |b| && i + 2 <= len
    ensures Get16(b[p..p + len], i) == Get16(b, p + i)
  {
  }

  method ReadRegisters(buffer: array<Byte>, p: nat, initial: Registers) returns (r: Registers)
    requires p + 32 <= buffer.Length
    ensures r == GetRegisters(buffer[p..p + 32])
  {
    hide Get32, Get16;
    ghost var all, body := buffer[..], buffer[p..p + 32];
    assert body == all[p..p + 32];
    r := initial;
    for i := 0 to 8
      invariant forall j :: 0 <= j < i ==> r[j] == Get32(body, 4 * j)
    {
      SliceLong(all, p, 32, 4 * i);
      var x := GetLong(buffer, p + 4 * i);
      r := SetRegister(r, i, x);
    }
  }

  method RestoreRegisters(cpu: Cpu, buffer: array<Byte>, tag: Byte, p: nat)
    requires buffer != cpu.memory && p + 32 <= buffer.Length && (tag == 1 || tag == 2)
    modifies cpu
    ensures cpu.Abs() == Apply(old(cpu.Abs()), Field(tag, buffer[p..p + 32]))
  {
    hide GetRegisters;
    if tag == 1 {
      cpu.d := ReadRegisters(buffer, p, cpu.d);
    } else {
      cpu.a := ReadRegisters(buffer, p, cpu.a);
    }
  }

  method RestoreStatus(cpu: Cpu, buffer: array<Byte>, tag: Byte, p: nat, len: Byte)
    requires buffer != cpu.memory && p + len <= buffer.Length && ((tag == 4 && len == 2) || (tag == 10 && len == 4))
    modifies cpu
    ensures cpu.Abs() == Apply(old(cpu.Abs()), Field(tag, buffer[p..p + len]))
  {
    hide Get16;
    ghost var all, body := buffer[..], buffer[p..p + len];
    assert all[p..p + len] == body;
    if tag == 4 {
      SliceWord(all, p, len, 0);
      var w := GetWord(buffer, p);
      cpu.sr := WordSr(w);
    } else {
      assert forall i :: 0 <= i < 4 ==> body[i] == buffer[p + i];
      cpu.lines := Lines(buffer[p + 1], buffer[p + 2] != 0, buffer[p] != 0, buffer[p + 3] != 0);
    }
  }

  method RestoreCounters(cpu: Cpu, buffer: array<Byte>, tag: Byte, p: nat, len: Byte)
    requires buffer != cpu.memory && p + len <= buffer.Length && ((tag == 11 && len == 6) || (tag == 12 && len == 8))
    modifies cpu
    ensures cpu.Abs() == Apply(old(cpu.Abs()), Field(tag, buffer[p..p + len]))
  {
    hide Get32, Get16;
    ghost var all, body := buffer[..], buffer[p..p + len];
    assert all[p..p + len] == body;
    if tag == 11 {
      SliceWord(all, p, len, 0);
      SliceLong(all, p, len, 2);
      cpu.ir := GetWord(buffer, p);
      cpu.ppc := GetLong(buffer, p + 2);
    } else {
      SliceLong(all, p, len, 0);
      SliceLong(all, p, len, 4);
      var target := GetLong(buffer, p);
      var remaining := GetLong(buffer, p + 4);
      assert target == Get32(body, 0) && remaining == Get32(body, 4);
      cpu.slice := Slice(ToInt(target), ToInt(remaining));
    }
  }

  /** One field: its length is checked before anything is assigned. */
  method RestoreField(cpu: Cpu, buffer: array<Byte>, tag: Byte, p: nat, len: Byte) returns (ok: bool)
    requires buffer != cpu.memory && p + len <= buffer.Length
    modifies cpu
    ensures var f := Field(tag, buffer[p..p + len]);
            && (ok <==> Acceptable(f))
            && cpu.Abs() == if ok then Apply(old(cpu.Abs()), f) else old(cpu.Abs())
  {
    hide Get32, Get16, Apply;
    if tag == 1 || tag == 2 {
      if len != 32 { return false; }
      RestoreRegisters(cpu, buffer, tag, p);
    } else if tag == 4 {
      if len != 2 { return false; }
      RestoreStatus(cpu, buffer, tag, p, len);
    } else if tag == 10 {
      if len != 4 { return false; }
      RestoreStatus(cpu, buffer, tag, p, len);
    } else if tag == 11 {
      if len != 6 { return false; }
      RestoreCounters(cpu, buffer, tag, p, len);
    } else if tag == 12 {
      if len != 8 { return false; }
      RestoreCounters(cpu, buffer, tag, p, len);
    } else if 3 <= tag <= 13 {
      if len != 4 { return false; }
      ghost var all, m, f := buffer[..], cpu.Abs(), Field(tag, buffer[p..p + len]);
      assert all[p..p + len] == f.body;
      SliceLong(all, p, len, 0);
      var x := GetLong(buffer, p);
      if tag != 13 || x <= 1 {
        ApplyLong(m, f, x);
      }
      ok := RestoreLong(cpu, tag, x);
      return;
    } else {
      UnknownChangesNothing(cpu.Abs(), Field(tag, buffer[p..p + len]));
    }
    return true;
  }

  lemma ApplyLong(m: Machine, f: Field, x: Long)
    requires (f.tag == 3 || 5 <= f.tag <= 9 || f.tag == 13) && Acceptable(f) && Get32(f.body, 0) == x
    ensures Apply(m, f)
            == m.(pc := if f.tag == 3 then x else m.pc, usp := if f.tag == 5 then x else m.usp,
                  ssp := if f.tag == 6 then x else m.ssp,
                  control := m.control.(vbr := if f.tag == 7 then x else m.control.vbr,
                                        sfc := if f.tag == 8 then x else m.control.sfc,
                                        dfc := if f.tag == 9 then x else m.control.dfc,
                                        model := if f.tag == 13 then (if x == 1 then M68010 else M68000)
                                          else m.control.model))
  {
    hide Get32;
  }

  /** The fields that hold one long word. */
  method RestoreLong(cpu: Cpu, tag: Byte, x: Long) returns (ok: bool)
    requires tag == 3 || 5 <= tag <= 9 || tag == 13
    modifies cpu
    ensures cpu.memory[..] == old(cpu.memory[..])
    ensures ok <==> (tag == 13 ==> x <= 1)
    ensures var m := old(cpu.Abs());
            cpu.Abs() == if !ok then m else
              m.(pc := if tag == 3 then x else m.pc, usp := if tag == 5 then x else m.usp,
                 ssp := if tag == 6 then x else m.ssp,
                 control := m.control.(vbr := if tag == 7 then x else m.control.vbr,
                                       sfc := if tag == 8 then x else m.control.sfc,
                                       dfc := if tag == 9 then x else m.control.dfc,
                                       model := if tag == 13 then (if x == 1 then M68010 else M68000)
                                         else m.control.model))
  {
    if tag == 3 {
      cpu.pc := x;
    } else if tag == 5 {
      cpu.usp := x;
    } else if tag == 6 {
      cpu.ssp := x;
    } else if tag == 7 {
      cpu.control := cpu.control.(vbr := x);
    } else if tag == 8 {
      cpu.control := cpu.control.(sfc := x);
    } else if tag == 9 {
      cpu.control := cpu.control.(dfc := x);
    } else {
      if x > 1 { return false; }
      cpu.control := cpu.control.(model := if x == 1 then M68010 else M68000);
    }
    return true;
  }

  /**
   Restores a blob field by field. A rejected blob leaves the fields before the bad one
   restored; an accepted one also clears the fault latches. Memory is never touched.
   */
  method Deserialize(cpu: Cpu, buffer: array?<Byte>) returns (ok: bool)
    requires buffer != cpu.memory
    modifies cpu
    ensures buffer == null ==> !ok && cpu.Abs() == old(cpu.Abs())
    ensures buffer != null ==> Restored(cpu.Abs(), ok) == Restore(old(cpu.Abs()), buffer[..])
    ensures cpu.memory[..] == old(cpu.memory[..])
  {
    hide Acceptable, Apply, Get32;
    if buffer == null || buffer.Length < 8 {
      return false;
    }
    if buffer[0] != 0x52 || buffer[1] != 0x36 || buffer[2] != 0x38 || buffer[3] != 0x53 {
      return false;
    }
    var version := GetWord(buffer, 4);
    if version != 1 {
      return false;
    }
    ghost var m, bytes := cpu.Abs(), buffer[..];
    var p := 8;
    while p < buffer.Length
      invariant 8 <= p <= buffer.Length && buffer[..] == bytes && cpu.memory[..] == old(cpu.memory[..])
      invariant RestoreFields(m, bytes, 8) == RestoreFields(cpu.Abs(), bytes, p)
    {
      if buffer.Length - p < 2 {
        return false;
      }
      var tag, len := buffer[p], buffer[p + 1];
      p := p + 2;
      if buffer.Length - p < len {
        return false;
      }
      assert buffer[p..p + len] == bytes[p..p + len];
      ok := RestoreField(cpu, buffer, tag, p, len);
      if !ok {
        return false;
      }
      p := p + len;
    }
    cpu.nesting := cpu.nesting.(thrown := 0, group0 := false, trap := false, addressError := false, busError := false);
    cpu.fault := cpu.fault.(valid := false, pcValid := false, busWordValid := false, programSpace := false);
    return true;
  }

  // ------------------------------------------------------------- the layout

  /** A field stands at the given index of a blob. */
  predicate Holds(s: seq<Byte>, at: nat, tag: Byte, body: seq<Byte>) {
    && |body| < 0x100 && at + 2 + |body| <= |s|
    && s[at] == tag && s[at + 1] == |body| && s[at + 2..at + 2 + |body|] == body
  }

  /** A field of one long word. */
  predicate HoldsLong(s: seq<Byte>, at: nat, tag: Byte, x: int) {
    at + 6 <= |s| && s[at] == tag && s[at + 1] == 4 && Number(s[at + 2..at + 6]) == x
  }

  /** The eight registers as eight long words. */
  predicate HoldsRegisters(s: seq<Byte>, at: nat, tag: Byte, r: Registers) {
    && at + 34 <= |s| && s[at] == tag && s[at + 1] == 32
    && forall k :: 0 <= k < 8 ==> Number(s[at + 2 + 4 * k..at + 6 + 4 * k]) == r[k]
  }

  lemma FieldPlace(m: Machine, t: nat)
    requires 1 <= t <= 13
    ensures SavedFrom(t) <= 138 && Holds(Saved(m), NEED - SavedFrom(t), t, Body(m, t))
  {
    hide Body, Header, SavedFrom, FieldsFrom, Saved, SavedUpTo, Encode;
    SavedOffsets();
    SavedLength(m);
    SavedInOrder(m, t);
    SavedAcceptable(m, t);
    FirstField(m, t);
    SavedFieldFits(m, t);
    var f, before, rest := Field(t, Body(m, t)), SavedUpTo(m, t), Encode(FieldsFrom(m, t + 1));
    assert Saved(m) == before + (FieldBytes(f) + rest);
    ReadField(before, f, rest, Saved(m));
  }

  lemma FirstField(m: Machine, t: nat)
    requires 1 <= t <= 13
    ensures Encode(FieldsFrom(m, t)) == FieldBytes(Field(t, Body(m, t))) + Encode(FieldsFrom(m, t + 1))
    ensures SavedFrom(t) <= 138
  {
    hide Body;
    SavedOffsets();
    var fs := FieldsFrom(m, t);
    assert fs[0] == Field(t, Body(m, t)) && fs[1..] == FieldsFrom(m, t + 1);
  }

  lemma LongHeld(s: seq<Byte>, at: nat, tag: Byte, x: Long)
    ensures Holds(s, at, tag, Be32(x)) ==> HoldsLong(s, at, tag, x)
  {
    hide Be32, Number;
    BigEndianNumbers(0, x);
  }

  lemma RegistersHeld(s: seq<Byte>, at: nat, tag: Byte, r: Registers)
    ensures Holds(s, at, tag, RegisterBytes(r, 8)) ==> HoldsRegisters(s, at, tag, r)
  {
    hide RegisterBytes, Number, Get32;
    var b := RegisterBytes(r, 8);
    if Holds(s, at, tag, b) {
      forall k | 0 <= k < 8 ensures Number(s[at + 2 + 4 * k..at + 6 + 4 * k]) == r[k] {
        RegistersRead(r, 8, k);
        OperandNumber(b, 4 * k, LongSize);
        InnerSlice(s, at + 2, b, 4 * k, 4 * k + 4);
      }
    }
  }

  /** What the format puts where: every field of the state at its own tag and index. */
  predicate LaidOut(m: Machine, s: seq<Byte>) {
    && |s| == 146 && s[..8] == [0x52, 0x36, 0x38, 0x53, 0, 1, 0, 0]
    && HoldsRegisters(s, 8, 1, m.d) && HoldsRegisters(s, 42, 2, m.a)
    && HoldsLong(s, 76, 3, m.pc)
    && s[82] == 4 && s[83] == 2 && Number(s[84..86]) == SrWord(m.sr)
    && HoldsLong(s, 86, 5, m.usp) && HoldsLong(s, 92, 6, m.ssp)
    && HoldsLong(s, 98, 7, m.control.vbr) && HoldsLong(s, 104, 8, m.control.sfc) && HoldsLong(s, 110, 9, m.control.dfc)
    && s[116] == 10 && s[117] == 4 && s[118] == (if m.lines.stopped then 1 else 0) && s[119] == m.lines.level % 0x100
    && s[120] == (if m.lines.nmi then 1 else 0) && s[121] == (if m.lines.trace then 1 else 0)
    && s[122] == 11 && s[123] == 6 && Number(s[124..126]) == m.ir && Number(s[126..130]) == m.ppc
    && s[130] == 12 && s[131] == 8 && Number(s[132..136]) == m.slice.target % 0x1_0000_0000
    && Number(s[136..140]) == m.slice.remaining % 0x1_0000_0000
    && HoldsLong(s, 140, 13, if m.control.model == M68010 then 1 else 0)
  }

  lemma LongsLaid(m: Machine)
    ensures var s := Saved(m);
            && HoldsLong(s, 76, 3, m.pc) && HoldsLong(s, 86, 5, m.usp) && HoldsLong(s, 92, 6, m.ssp)
            && HoldsLong(s, 98, 7, m.control.vbr) && HoldsLong(s, 104, 8, m.control.sfc)
            && HoldsLong(s, 110, 9, m.control.dfc)
            && HoldsLong(s, 140, 13, if m.control.model == M68010 then 1 else 0)
  {
    hide Saved, SavedFrom, Holds, HoldsLong, Be32, Be16, RegisterBytes;
    SavedOffsets();
    FieldPlace(m, 3);
    FieldPlace(m, 5);
    FieldPlace(m, 6);
    FieldPlace(m, 7);
    FieldPlace(m, 8);
    FieldPlace(m, 9);
    FieldPlace(m, 13);
    LongHeld(Saved(m), 76, 3, m.pc);
    LongHeld(Saved(m), 86, 5, m.usp);
    LongHeld(Saved(m), 92, 6, m.ssp);
    LongHeld(Saved(m), 98, 7, m.control.vbr);
    LongHeld(Saved(m), 104, 8, m.control.sfc);
    LongHeld(Saved(m), 110, 9, m.control.dfc);
    LongHeld(Saved(m), 140, 13, ModelNumber(m.control.model));
  }

  lemma RegistersLaid(m: Machine)
    ensures var s := Saved(m); HoldsRegisters(s, 8, 1, m.d) && HoldsRegisters(s, 42, 2, m.a)
  {
    hide Saved, SavedFrom, Holds, HoldsRegisters, RegisterBytes;
    SavedOffsets();
    FieldPlace(m, 1);
    FieldPlace(m, 2);
    RegistersHeld(Saved(m), 8, 1, m.d);
    RegistersHeld(Saved(m), 42, 2, m.a);
  }

  /** The fields that are neither registers nor one long word. */
  predicate RestHeld(m: Machine, s: seq<Byte>) {
    && Holds(s, 82, 4, Be16(SrWord(m.sr)))
    && Holds(s, 116, 10, [if m.lines.stopped then 1 else 0, m.lines.level % 0x100, if m.lines.nmi then 1 else 0,
                          if m.lines.trace then 1 else 0])
    && Holds(s, 122, 11, Be16(m.ir) + Be32(m.ppc))
    && Holds(s, 130, 12, Be32(m.slice.target % 0x1_0000_0000) + Be32(m.slice.remaining % 0x1_0000_0000))
  }

  lemma RestLaid(m: Machine)
    ensures RestHeld(m, Saved(m))
  {
    hide Saved, SavedFrom, Holds, Be32, Be16, SrWord;
    SavedOffsets();
    FieldPlace(m, 4);
    FieldPlace(m, 10);
    FieldPlace(m, 11);
    FieldPlace(m, 12);
  }

  lemma PairHeld(s: seq<Byte>, at: nat, first: seq<Byte>, second: seq<Byte>)
    requires at + |first| + |second| <= |s| && s[at..at + |first| + |second|] == first + second
    ensures s[at..at + |first|] == first && s[at + |first|..at + |first| + |second|] == second
  {
    assert s[at..at + |first|] == (first + second)[..|first|];
    assert s[at + |first|..at + |first| + |second|] == (first + second)[|first|..];
  }

  /** A saved state has its fields at fixed places, each with its own tag. */
  lemma SavedLayout(m: Machine)
    ensures LaidOut(m, Saved(m))
  {
    hide Be32, Be16, HoldsRegisters, HoldsLong, Number, SrWord, Encode, FieldsFrom;
    var s := Saved(m);
    SavedLength(m);
    RegistersLaid(m);
    LongsLaid(m);
    RestLaid(m);
    BigEndianNumbers(SrWord(m.sr), m.ppc);
    BigEndianNumbers(m.ir, m.slice.target % 0x1_0000_0000);
    BigEndianNumbers(0, m.slice.remaining % 0x1_0000_0000);
    PairHeld(s, 124, Be16(m.ir), Be32(m.ppc));
    PairHeld(s, 132, Be32(m.slice.target % 0x1_0000_0000), Be32(m.slice.remaining % 0x1_0000_0000));
    LinesHeld(s, m.lines);
    assert s[..8] == Header();
    hide Saved;
  }

  lemma LinesHeld(s: seq<Byte>, lines: Lines)
    requires Holds(s, 116, 10, [if lines.stopped then 1 else 0, lines.level % 0x100, if lines.nmi then 1 else 0,
                                if lines.trace then 1 else 0])
    ensures s[116] == 10 && s[117] == 4 && s[118] == (if lines.stopped then 1 else 0) && s[119] == lines.level % 0x100
            && s[120] == (if lines.nmi then 1 else 0) && s[121] == (if lines.trace then 1 else 0)
  {
    var b: seq<Byte> := [if lines.stopped then 1 else 0, lines.level % 0x100, if lines.nmi then 1 else 0,
                         if lines.trace then 1 else 0];
    assert forall i :: 0 <= i < 4 ==> s[118 + i] == s[118..122][i] == b[i];
  }
}
