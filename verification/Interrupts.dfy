/**
 The interrupt protocol over whole runs: level-sensitive requests 1 to 6, the
 edge-sensitive level 7, acknowledgement and the STOP latch.
 */
module Interrupts {
  import opened Words
  import opened StatusRegister
  import opened MachineState

  /** How the host answers an acknowledge cycle. */
  datatype Ack = NoCallback | Autovector | Spurious | Vector(number: Byte)

  function AckVector(ack: Ack, level: int): nat
    requires 0 <= level < 8
  {
    match ack
    case NoCallback => 24 + level
    case Autovector => 24 + level
    case Spurious => 24
    case Vector(n) => n
  }

  type Level = x: int | 0 <= x < 8

  /** The state after an exception entry has been turned into an interrupt service. */
  function Acknowledged(m: Machine, level: Level, ack: Ack): Machine {
    m.(sr := WithMask(m.sr, level),
       lines := m.lines.(nmi := false, stopped := false, level := if ack.NoCallback? then 0 else m.lines.level))
  }

  /** A service: the exception of the acknowledged vector, then the mask and the lines. */
  predicate Serviced(m: Machine, ack: Ack, entered: Machine, m': Machine)
    requires 0 <= m.lines.level < 8
  {
    && Raised(m, AckVector(ack, m.lines.level), entered)
    && m' == Acknowledged(entered, m.lines.level, ack)
  }

  /** The codes of before the service, without trace. */
  predicate CodesKept(sr: bv16, sr': bv16) {
    && FlagX(sr') == FlagX(sr) && FlagN(sr') == FlagN(sr) && FlagZ(sr') == FlagZ(sr) && FlagV(sr') == FlagV(sr)
    && FlagC(sr') == FlagC(sr) && !FlagT(sr')
  }

  lemma UnmaskedKeeps(sr: bv16, a: bv16, b: bv16)
    ensures EntryStatus(sr, a) && Unmasked(b) == Unmasked(a) ==> CodesKept(sr, b)
  {
    UnmaskedFlags(a, b);
    hide FlagX, FlagN, FlagZ, FlagV, FlagC, FlagS, FlagT, Clean, MaskLevel, Unmasked;
  }

  lemma UnmaskedFlags(a: bv16, b: bv16)
    ensures Unmasked(a) == Unmasked(b) ==>
      && FlagX(a) == FlagX(b) && FlagN(a) == FlagN(b) && FlagZ(a) == FlagZ(b) && FlagV(a) == FlagV(b)
      && FlagC(a) == FlagC(b) && FlagT(a) == FlagT(b)
  {
  }

  /** The exception of a vector was taken: its frame is stacked and the PC is the table's. */
  predicate HandledBy(m: Machine, vector: int, m': Machine) {
    EntryRoom(m, vector) ==>
      var base, n, at := EntryBase(m, vector), EntryBytes(m, vector), TableIndex(m, vector);
      && |m'.mem| == |m.mem| && EntryFrame(m, vector, m'.mem[base..base + n])
      && m'.pc == Number(m.mem[at..at + 4]) && CodesKept(m.sr, m'.sr)
  }

  /**
   A service in numbers: vector 24 plus the level unless the host names another one, 24
   itself for a spurious interrupt, and a mask equal to the level.
   */
  predicate ServiceShown(m: Machine, ack: Ack, m': Machine) {
    && MaskLevel(m'.sr) == m.lines.level && FlagS(m'.sr) && !m'.lines.nmi && !m'.lines.stopped
    && m'.lines.level == (if ack == NoCallback then 0 else m.lines.level)
    && match ack
       case NoCallback => HandledBy(m, 24 + m.lines.level, m')
       case Autovector => HandledBy(m, 24 + m.lines.level, m')
       case Spurious => HandledBy(m, 24, m')
       case Vector(number) => HandledBy(m, number, m')
  }

  lemma ServicedShown(m: Machine, ack: Ack, entered: Machine, m': Machine)
    requires 0 <= m.lines.level < 8
    ensures Serviced(m, ack, entered, m') ==> ServiceShown(m, ack, m')
  {
    hide Raised, EntryRoom, EntryFrame, Number, FlagS, MaskLevel, WithMask, EntryStatus, CodesKept, Unmasked;
    var vector := AckVector(ack, m.lines.level);
    RaisedShown(m, vector, entered);
    RaisedRest(m, vector, entered);
    MaskWritten(entered.sr, m.lines.level);
    MaskKeepsRest(entered.sr, m.lines.level);
    UnmaskedKeeps(m.sr, entered.sr, WithMask(entered.sr, m.lines.level));
  }

  lemma RaisedRest(m: Machine, vector: int, m': Machine)
    ensures Raised(m, vector, m') ==> FlagS(m'.sr) && m'.lines == m.lines && |m'.mem| == |m.mem|
  {
    hide Raise, Stackable, VectorLoaded, FlagS, Clean;
  }

  /** The part of the processor the protocol is about. */
  datatype View = View(lines: Lines, mask: Level, d: Registers, a: Registers, pc: Long)

  function ViewOf(m: Machine): View {
    View(m.lines, MaskLevel(m.sr), m.d, m.a, m.pc)
  }

  /** What can happen: the host moves the lines, a request is serviced, or a step runs on. */
  datatype Event = Request(level: int) | Serve(level: int, ack: Ack) | Proceed

  predicate Due(v: View) {
    if v.lines.level == 7 then v.lines.nmi else v.lines.level > v.mask && v.lines.level != 0
  }

  /** The lines after the host asserts a level: a transition into level 7 is latched. */
  function Asserted(lines: Lines, level: int): Lines {
    lines.(nmi := lines.nmi || (level == 7 && lines.level != 7), level := level)
  }

  /** One event of the protocol. */
  predicate Happens(v: View, e: Event, v': View) {
    match e
    case Request(level) => 0 <= level < 8 && v' == v.(lines := Asserted(v.lines, level))
    case Serve(level, ack) =>
      && Due(v) && level == v.lines.level && v'.mask == level
      && v'.lines == v.lines.(nmi := false, stopped := false, level := if ack.NoCallback? then 0 else level)
    case Proceed =>
      && v'.lines == v.lines.(stopped := v'.lines.stopped)
      && (v.lines.stopped ==> v' == v)
  }

  /** A run: the view before it, and after each event. */
  predicate IsRun(views: seq<View>, events: seq<Event>) {
    && |views| == |events| + 1
    && forall i :: 0 <= i < |events| ==> Happens(views[i], events[i], views[i + 1])
  }

  function Served(events: seq<Event>, level: int): nat {
    if events == [] then 0
    else Served(events[..|events| - 1], level)
         + (if events[|events| - 1].Serve? && events[|events| - 1].level == level then 1 else 0)
  }

  function AllServed(events: seq<Event>): nat {
    if events == [] then 0
    else AllServed(events[..|events| - 1]) + (if events[|events| - 1].Serve? then 1 else 0)
  }

  function Requests(events: seq<Event>): nat {
    if events == [] then 0
    else var e := events[|events| - 1];
         Requests(events[..|events| - 1]) + (if e.Request? && e.level != 0 then 1 else 0)
  }

  /** Transitions of the lines into level 7. */
  function Edges(views: seq<View>, events: seq<Event>): nat
    requires |views| == |events| + 1
  {
    if events == [] then 0
    else var n := |events| - 1;
         Edges(views[..n + 1], events[..n])
         + (if events[n] == Request(7) && views[n].lines.level != 7 then 1 else 0)
  }

  function Latched(v: View): nat {
    if v.lines.nmi then 1 else 0
  }

  lemma Prefix(views: seq<View>, events: seq<Event>)
    requires IsRun(views, events) && events != []
    ensures var n := |events| - 1;
            IsRun(views[..n + 1], events[..n]) && Happens(views[n], events[n], views[n + 1])
  {
  }

  /** Level 7 is never serviced more often than the lines moved into it. */
  lemma {:induction false} EdgesBoundNmi(views: seq<View>, events: seq<Event>)
    requires IsRun(views, events)
    ensures Served(events, 7) + Latched(views[|events|]) <= Edges(views, events) + Latched(views[0])
  {
    if events != [] {
      Prefix(views, events);
      EdgesBoundNmi(views[..|events|], events[..|events| - 1]);
    }
  }

  /** Without an acknowledge callback every service uses up one nonzero request. */
  lemma {:induction false} RequestsBoundServices(views: seq<View>, events: seq<Event>)
    requires IsRun(views, events)
    requires forall i :: 0 <= i < |events| && events[i].Serve? ==> events[i].ack.NoCallback?
    ensures AllServed(events) + (if views[|events|].lines.level != 0 then 1 else 0)
            <= Requests(events) + (if views[0].lines.level != 0 then 1 else 0)
  {
    if events != [] {
      Prefix(views, events);
      RequestsBoundServices(views[..|events|], events[..|events| - 1]);
    }
  }

  /** No step that runs on lowers the interrupt mask. */
  predicate MaskNeverLowered(views: seq<View>, events: seq<Event>)
    requires |views| == |events| + 1
  {
    forall i :: 0 <= i < |events| && events[i].Proceed? ==> views[i + 1].mask >= views[i].mask
  }

  lemma {:induction false} MaskRises(views: seq<View>, events: seq<Event>, i: nat, j: nat)
    requires IsRun(views, events) && MaskNeverLowered(views, events) && i <= j <= |events|
    ensures views[i].mask <= views[j].mask
  {
    if i < j {
      MaskRises(views, events, i, j - 1);
      assert Happens(views[j - 1], events[j - 1], views[j]);
    }
  }

  /**
   Levels 1 to 6 are taken only strictly above the mask, so while nothing lowers the
   mask each serviced level is above every level serviced before it.
   */
  lemma ServicesClimb(views: seq<View>, events: seq<Event>, i: nat, j: nat)
    requires IsRun(views, events) && MaskNeverLowered(views, events) && i < j < |events|
    requires events[i].Serve? && events[j].Serve? && events[j].level != 7
    ensures events[i].level < events[j].level
  {
    MaskRises(views, events, i + 1, j);
    assert Happens(views[i], events[i], views[i + 1]);
    assert Happens(views[j], events[j], views[j + 1]);
  }

  /** A stopped processor keeps its PC and registers until an interrupt is accepted. */
  lemma {:induction false} StoppedStays(views: seq<View>, events: seq<Event>)
    requires IsRun(views, events) && views[0].lines.stopped
    requires forall i :: 0 <= i < |events| ==> !events[i].Serve?
    ensures var v := views[|events|];
            v.lines.stopped && v.pc == views[0].pc && v.d == views[0].d && v.a == views[0].a && v.mask == views[0].mask
  {
    if events != [] {
      Prefix(views, events);
      StoppedStays(views[..|events|], events[..|events| - 1]);
    }
  }
}
