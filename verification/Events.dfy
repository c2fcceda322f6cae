/** Events (source/kernel/src/Event.c and source/kernel/inc/Event.h). */
module Events {
  import opened Base
  import Fletcher

  type U24 = x: int | 0 <= x < 0x100_0000

  const CODE_UNIT := 0x100_0000
  const MOCK_EVENT: U24 := 0x01_FEEF
  const TIMEOUT_INFINITE: U32 := 0xFFFF_FFFF

  /** The top byte of event_code, bit 7 first. */
  datatype Flags = Flags(noHandler: bool, permanent: bool, noTimeout: bool, addressed: bool,
                         timedOut: bool, occurred: bool, bit1: bool, bit0: bool)

  const NONE := Flags(false, false, false, false, false, false, false, false)

  predicate Bit(b: nat, unit: nat)
    requires unit > 0
  {
    b / unit % 2 == 1
  }

  function FlagsOf(b: U8): Flags {
    Flags(Bit(b, 0x80), Bit(b, 0x40), Bit(b, 0x20), Bit(b, 0x10), Bit(b, 8), Bit(b, 4), Bit(b, 2), Bit(b, 1))
  }

  lemma NoFlags(b: U8)
    ensures FlagsOf(b) == NONE <==> b == 0
  {
    if FlagsOf(b) == NONE {
      assert b < 0x80;
      assert b < 0x40;
      assert b < 0x20;
      assert b < 0x10;
      assert b < 8;
      assert b < 4;
      assert b < 2;
    }
  }

  /** EVENT_FLAG_SET. */
  function Union(f: Flags, g: Flags): Flags {
    Flags(f.noHandler || g.noHandler, f.permanent || g.permanent, f.noTimeout || g.noTimeout,
          f.addressed || g.addressed,
          f.timedOut || g.timedOut, f.occurred || g.occurred, f.bit1 || g.bit1, f.bit0 || g.bit0)
  }

  /** Event_t: the identifier is the hash given to the list node; event_code is split in flags and the 24 bits below. */
  datatype Event = Event(id: U16, source: U32, code: U24, flags: Flags, life: U32, cnt: U32, occ: U8)

  /** EventCreate, and the identifier and flags its callers set. */
  function NewEvent(source: U32, code: U32, flags: Flags, life: U32): Event {
    Event(Fletcher.EventToHash(source, code), source, code % CODE_UNIT, Union(FlagsOf(code / CODE_UNIT), flags),
          life, 0, 0)
  }

  /** EventIsEqual: the flags do not matter. */
  predicate IsEqual(e: Event, f: Event) { e.source == f.source && e.code == f.code }

  /** EventIsMock: the whole of event_code is compared. */
  predicate IsMock(e: Event) { e.source == ID_INVALID && e.code == MOCK_EVENT && e.flags == NONE }

  /** The event that KSchedulerInit emits. */
  function MockEvent(life: U32): (e: Event)
    ensures IsMock(e)
  {
    NewEvent(ID_INVALID, MOCK_EVENT, NONE, life)
  }

  /** The only event that passes for the mock event is the one emitted as such: its whole code is compared. */
  lemma MockIff(source: U32, code: U32, flags: Flags, life: U32)
    ensures IsMock(NewEvent(source, code, flags, life)) <==> source == ID_INVALID && code == MOCK_EVENT && flags == NONE
  {
    NoFlags(code / CODE_UNIT);
  }

  predicate Flagged(e: Event) { e.flags.occurred || e.flags.timedOut }

  /** EventLifeTimeIncrement; None is the answer -1. The sum is one of U32_t. */
  function LifeTimeIncrement(e: Event, t: U32): Option<Event> {
    if Add32(e.cnt, t) < e.life then Some(e.(cnt := Add32(e.cnt, t))) else None
  }

  function LifeTimeReset(e: Event): Event { e.(cnt := 0) }

  /** EventOccurrenceCountIncrement. */
  function OccurrenceCountIncrement(e: Event): Event { if e.occ < 255 then e.(occ := e.occ + 1) else e }

  /** EventHandle. */
  function Handled(e: Event): Event { e.(flags := e.flags.(timedOut := false, occurred := false), cnt := 0, occ := 0) }

  /** Adding a time to a counter that is below the lifetime is right exactly when the sum does not wrap back below it.
      */
  lemma IncrementRightIff(e: Event, t: U32)
    requires e.cnt < e.life
    ensures (LifeTimeIncrement(e, t).Some? <==> e.cnt + t < e.life)
            <==> !(0x1_0000_0000 <= e.cnt + t < 0x1_0000_0000 + e.life)
    ensures t + e.life <= 0x1_0000_0000 ==> (LifeTimeIncrement(e, t).Some? <==> e.cnt + t < e.life)
  {}

  // ----- lists of events -----

  predicate IdsDistinct(l: seq<Event>) { forall i, j :: 0 <= i < j < |l| ==> l[i].id != l[j].id }

  /** ListSearch by identifier. */
  function IndexOf(l: seq<Event>, id: U16): (i: nat)
    ensures i <= |l| && (i < |l| ==> l[i].id == id) && forall k :: 0 <= k < i ==> l[k].id != id
    decreases |l|
  {
    if l == [] || l[0].id == id then 0 else 1 + IndexOf(l[1..], id)
  }

  /** EventEmit on the list of emitted events. */
  function Emit(l: seq<Event>, source: U32, code: U32, flags: Flags, life: U32): (r: (OsResult, seq<Event>)) {
    var i := IndexOf(l, Fletcher.EventToHash(source, code));
    if i < |l| then (Fail, l[i := LifeTimeReset(l[i])]) else (Ok, l + [NewEvent(source, code, flags, life)])
  }

  /** EventRegister on the list of a task. */
  function Register(l: seq<Event>, source: U32, code: U32, flags: Flags, life: U32): (r: (OsResult, seq<Event>)) {
    var i := IndexOf(l, Fletcher.EventToHash(source, code));
    if i < |l| then (Fail, if l[i].flags.noTimeout then l else l[i := LifeTimeReset(l[i])])
    else
      var all := if life == TIMEOUT_INFINITE then flags.(noTimeout := true) else flags;
      (Ok, l + [NewEvent(source, code, all, life)])
  }

  /** A new event has a flag exactly if it is asked for, in the flags or in the top byte of the code: bits 31 to 24. */
  predicate FlagsAsked(e: Event, code: U32, flags: Flags) {
    && (e.flags.noHandler <==> flags.noHandler || code / 0x8000_0000 % 2 == 1)
    && (e.flags.permanent <==> flags.permanent || code / 0x4000_0000 % 2 == 1)
    && (e.flags.noTimeout <==> flags.noTimeout || code / 0x2000_0000 % 2 == 1)
    && (e.flags.addressed <==> flags.addressed || code / 0x1000_0000 % 2 == 1)
    && (e.flags.timedOut <==> flags.timedOut || code / 0x800_0000 % 2 == 1)
    && (e.flags.occurred <==> flags.occurred || code / 0x400_0000 % 2 == 1)
    && (e.flags.bit1 <==> flags.bit1 || code / 0x200_0000 % 2 == 1)
    && (e.flags.bit0 <==> flags.bit0 || code / 0x100_0000 % 2 == 1)
  }

  lemma TopBits(code: U32)
    ensures code / CODE_UNIT / 0x80 == code / 0x8000_0000 && code / CODE_UNIT / 0x40 == code / 0x4000_0000
    ensures code / CODE_UNIT / 0x20 == code / 0x2000_0000 && code / CODE_UNIT / 0x10 == code / 0x1000_0000
    ensures code / CODE_UNIT / 8 == code / 0x800_0000 && code / CODE_UNIT / 4 == code / 0x400_0000
    ensures code / CODE_UNIT / 2 == code / 0x200_0000
  {}

  /** What EventCreate and its callers make. */
  lemma NewEventIs(source: U32, code: U32, flags: Flags, life: U32)
    ensures var e := NewEvent(source, code, flags, life); Fresh(e, source, code, life) && FlagsAsked(e, code, flags)
  {
    TopBits(code);
  }

  /** Emission keeps the identifiers distinct. It is refused exactly if an emitted event has the hash, and then that one
      starts its lifetime anew; otherwise a fresh event with exactly the flags asked for is the last one. No other event
      changes. */
  lemma EmitKeeps(l: seq<Event>, source: U32, code: U32, flags: Flags, life: U32)
    requires IdsDistinct(l)
    ensures var (r, l') := Emit(l, source, code, flags, life);
            var hash := Fletcher.EventToHash(source, code);
            && IdsDistinct(l') && |l'| == (if r == Ok then |l| + 1 else |l|)
            && (r == Ok || r == Fail) && (r == Ok <==> forall k :: 0 <= k < |l| ==> l[k].id != hash)
            && (forall k :: 0 <= k < |l| ==> l'[k] == if l[k].id == hash then l[k].(cnt := 0) else l[k])
            && (r == Ok ==> Fresh(l'[|l|], source, code, life) && FlagsAsked(l'[|l|], code, flags))
  {
    NewEventIs(source, code, flags, life);
  }

  /** An event just made from these arguments. */
  predicate Fresh(e: Event, source: U32, code: U32, life: U32) {
    e.id == Fletcher.EventToHash(source, code) && e.source == source && e.code == code % CODE_UNIT
    && e.life == life && e.cnt == 0 && e.occ == 0
  }

  /** The flags asked for, and that of an event without timeout if the lifetime is infinite. */
  function WithTimeout(flags: Flags, life: U32): Flags {
    flags.(noTimeout := flags.noTimeout || life == TIMEOUT_INFINITE)
  }

  /** The same for registration, but an event without timeout is not touched, and an infinite timeout makes one. */
  lemma RegisterKeeps(l: seq<Event>, source: U32, code: U32, flags: Flags, life: U32)
    requires IdsDistinct(l)
    ensures var (r, l') := Register(l, source, code, flags, life);
            var hash := Fletcher.EventToHash(source, code);
            && IdsDistinct(l') && |l'| == (if r == Ok then |l| + 1 else |l|)
            && (r == Ok || r == Fail) && (r == Ok <==> forall k :: 0 <= k < |l| ==> l[k].id != hash)
            && (forall k :: 0 <= k < |l| ==>
                  l'[k] == if l[k].id == hash && !l[k].flags.noTimeout then l[k].(cnt := 0) else l[k])
            && (r == Ok ==> Fresh(l'[|l|], source, code, life)
                            && FlagsAsked(l'[|l|], code, WithTimeout(flags, life)))
  {
    NewEventIs(source, code, WithTimeout(flags, life), life);
  }

  /** A second, different event is refused when it hashes to a live one: its emission only refreshes that one. */
  lemma EmitLost(source: U32, code: U32, flags: Flags, life: U32)
    requires code % 0x100 == 0 && code < CODE_UNIT
    ensures var (_, l) := Emit([], source, code, flags, life);
            var (r, l') := Emit(l, source, code + 0xFF, flags, life);
            r == Fail && l' == l && !IsEqual(l[0], NewEvent(source, code + 0xFF, flags, life))
  {
    Fletcher.HashCollides(source, code);
  }
}
