/** Saving an event factory with its listeners into nested records, and loading it again. */
module FactoryState {
  import opened Common
  import opened Bytes
  import opened Record
  import opened Lookup
  import opened XmlText
  import Portability

  type Name = seq<Byte>

  // Field names, and the name under which time events are registered.
  const FPS: Name := [102, 112, 115]
  const FLS: Name := [102, 108, 115]
  const LTP: Name := [108, 116, 112]
  const LID: Name := [108, 105, 100]
  const LPS: Name := [108, 112, 115]
  const LEV: Name := [108, 101, 118]
  const ETP: Name := [101, 116, 112]
  const ERP: Name := [101, 114, 112]
  const TTM: Name := [116, 116, 109]
  const TIN: Name := [116, 105, 110]
  const TAB: Name := [116, 97, 98]
  const TIME_EVENT: Name := [116, 105, 109, 101, 95, 101, 118, 101, 110, 116]

  const LISTENER_CXX := 0
  const LISTENER_PYTHON := 1

  /**
   * A time event, or an event of another type with the fields its state was read from; None for one that
   * was not there.
   */
  datatype Event =
    | TimeEvent(repeat: int, time: nat, interval: nat, absolute: bool)
    | OtherEvent(kind: Name, fields: seq<Option<Field>>)

  /**
   * The event types registered while loading, with the names of the fields their events read after the type,
   * in the order of the calls.
   */
  type Types = map<Name, seq<Name>>

  const TIME_NAMES: seq<Name> := [ERP, TTM, TIN, TAB]

  predicate Proper(types: Types) {
    TIME_EVENT in types ==> types[TIME_EVENT] == TIME_NAMES
  }

  /** A C++ listener; one whose event could not be created when it was loaded has none. */
  datatype Listener = Listener(id: Name, paused: nat, event: Option<Event>)

  /** The values of a time event lie within the types of their fields. */
  predicate IsTimeEvent(e: Event) {
    e.TimeEvent? && -0x8000_0000 <= e.repeat < 0x8000_0000 && e.time < U32_LIMIT && e.interval < U32_LIMIT
  }

  /** A listener with a time event, all its values within the types of their fields. */
  predicate Complete(l: Listener) {
    NulFree(l.id) && l.paused < U16_LIMIT && l.event.Some? && IsTimeEvent(l.event.value)
  }

  predicate AllComplete(ls: seq<Listener>) {
    forall l | l in ls :: Complete(l)
  }

  // ---- put_state ----

  function Bit(b: bool): seq<Byte> {
    [if b then 1 else 0]
  }

  /** Listener type, listener, event of the given type, and what that puts: in the order of the calls. */
  function PutEventListener(n: Order, id: Name, paused: nat, kind: Name, body: seq<Field>): seq<Field> {
    [Field(LTP, T_UINT8, [LISTENER_CXX]),
     Field(LID, T_STRING, id + [0]),
     Field(LPS, T_UINT16, WriteU16(n, paused)),
     Field(LEV, T_BOOL, Bit(true)),
     Field(ETP, T_STRING, kind + [0])] + body
  }

  function TimeFields(n: Order, e: Event): (fs: seq<Field>)
    requires IsTimeEvent(e)
    ensures |fs| == 4
  {
    [Field(ERP, T_SINT32, WriteU32(n, ToUnsigned(e.repeat, U32_LIMIT))),
     Field(TTM, T_UINT32, WriteU32(n, e.time)),
     Field(TIN, T_UINT32, WriteU32(n, e.interval)),
     Field(TAB, T_BOOL, Bit(e.absolute))]
  }

  function PutListener(n: Order, l: Listener): (fs: seq<Field>)
    requires Complete(l)
    ensures |fs| == 9
  {
    PutEventListener(n, l.id, l.paused, TIME_EVENT, TimeFields(n, l.event.value))
  }

  /** The record of a listener, as a host of order `o` writes it; it is put under the empty name. */
  function ListenerField(o: Order, l: Listener): Field
    requires Complete(l)
  {
    Field([], T_FLAT, Encode(o, o, PutListener(o, l)))
  }

  predicate Destroyed(l: Listener)
    requires Complete(l)
  {
    l.event.value.repeat == 0
  }

  /** Destroyed listeners are not saved. */
  function Alive(ls: seq<Listener>): (r: seq<Listener>)
    requires AllComplete(ls)
    ensures AllComplete(r) && forall l | l in r :: !Destroyed(l)
  {
    if ls == [] then []
    else
      var last := ls[|ls| - 1];
      assert last in ls;
      Alive(ls[..|ls| - 1]) + if Destroyed(last) then [] else [last]
  }

  function ListenerFields(o: Order, ls: seq<Listener>): (fs: seq<Field>)
    requires AllComplete(ls)
    ensures |fs| == |ls|
  {
    seq(|ls|, i requires 0 <= i < |ls| => assert ls[i] in ls; ListenerField(o, ls[i]))
  }

  function PutFactory(o: Order, paused: nat, ls: seq<Listener>): (fs: seq<Field>)
    requires AllComplete(ls)
    ensures |fs| == 2
  {
    [Field(FPS, T_UINT16, WriteU16(o, paused)),
     Field(FLS, T_FLAT, Encode(o, o, ListenerFields(o, Alive(ls))))]
  }

  function SaveFactory(o: Order, paused: nat, ls: seq<Listener>): (s: seq<Byte>)
    requires AllComplete(ls)
    ensures s != []
  {
    Encode(o, o, PutFactory(o, paused, ls))
  }

  // ---- get_state ----

  /** A record being read: its fields, the cursor, and whether every read so far succeeded. */
  datatype Reader = Reader(fields: seq<Field>, cur: nat, success: bool)

  function Get(r: Reader, name: Name): (res: (Option<Field>, Reader))
    requires r.cur <= |r.fields|
    ensures res.1.fields == r.fields && res.1.cur <= |r.fields|
  {
    SearchComplete(r.fields, r.cur, name);
    var hit := Search(r.fields, r.cur, name);
    (if hit.Some? then Some(r.fields[hit.value]) else None,
     Reader(r.fields, CursorAfter(r.cur, hit), r.success && hit.Some?))
  }

  // The typed get functions on what was found, with their values for a missing field. A content narrower
  // than the type asked for, which the source would read past, is taken as missing.

  function AsUint8(f: Option<Field>): nat {
    if f.Some? && |f.value.content| >= 1 then f.value.content[0] else 0
  }

  function AsUint16(n: Order, f: Option<Field>): nat {
    if f.Some? && |f.value.content| >= 2 then ReadU16(n, f.value.content[..2]) else 0
  }

  function AsUint32(n: Order, f: Option<Field>): nat {
    if f.Some? && |f.value.content| >= 4 then ReadU32(n, f.value.content[..4]) else 0
  }

  function AsSint32(n: Order, f: Option<Field>): int {
    if f.Some? && |f.value.content| >= 4 then ToSigned(ReadU32(n, f.value.content[..4]), U32_LIMIT) else -1
  }

  function AsBool(f: Option<Field>): bool {
    f.Some? && |f.value.content| >= 1 && f.value.content[0] != 0
  }

  function AsString(f: Option<Field>): Name {
    if f.Some? then CStr(f.value.content) else []
  }

  /** Several reads, each starting where the one before it ended. */
  function GetAll(r: Reader, names: seq<Name>): (res: (seq<Option<Field>>, Reader))
    requires r.cur <= |r.fields|
    ensures |res.0| == |names| && res.1.cur <= |res.1.fields|
    decreases |names|
  {
    if names == [] then ([], r)
    else
      var (f, r') := Get(r, names[0]);
      var (rest, last) := GetAll(r', names[1..]);
      ([f] + rest, last)
  }

  /** Creates the event if its type is registered, and reads it. */
  function GetEvent(n: Order, types: Types, r: Reader): (res: (Option<Event>, Reader))
    requires r.cur <= |r.fields|
  {
    var (kind, r1) := Get(r, ETP);
    var name := AsString(kind);
    if name !in types then (None, r1)
    else if name != TIME_EVENT then
      var (fields, r2) := GetAll(r1, types[name]);
      (Some(OtherEvent(name, fields)), r2)
    else
      var (repeat, r2) := Get(r1, ERP);
      if !r2.success then (Some(TimeEvent(AsSint32(n, repeat), 0, 0, false)), r2)
      else
        var (time, r3) := Get(r2, TTM);
        var (interval, r4) := Get(r3, TIN);
        var (absolute, r5) := Get(r4, TAB);
        (Some(TimeEvent(AsSint32(n, repeat), AsUint32(n, time), AsUint32(n, interval), AsBool(absolute))), r5)
  }

  /** Loading one listener. Unknown: of another type than C++ or Python. Foreign: of a Python one. */
  datatype Loaded = Loaded(listener: Listener) | Unknown | Failed | Foreign

  /**
   * Reads a listener. That its event could not be created is noticed by the base class but not passed on:
   * all that counts is whether every field was found.
   */
  function GetListener(n: Order, types: Types, r: Reader): Loaded
    requires r.cur <= |r.fields|
  {
    var (kind, r1) := Get(r, LTP);
    if AsUint8(kind) == LISTENER_PYTHON then Foreign
    else if AsUint8(kind) != LISTENER_CXX then Unknown
    else
      var (id, r2) := Get(r1, LID);
      var (paused, r3) := Get(r2, LPS);
      var (has, r4) := Get(r3, LEV);
      var (event, r5) := if AsBool(has) then GetEvent(n, types, r4) else (None, r4);
      if r5.success then Loaded(Listener(AsString(id), AsUint16(n, paused), event)) else Failed
  }

  /** What loading yields: success, the listeners, and those of them handed to the event manager. */
  datatype Outcome = Outcome(ok: bool, listeners: seq<Listener>, registered: seq<Listener>) | Undefined

  function Prepend(ls: seq<Listener>, registered: seq<Listener>, rest: Outcome): Outcome {
    match rest
    case Undefined => Undefined
    case Outcome(ok, ls', registered') => Outcome(ok, ls + ls', registered + registered')
  }

  /** A listener that is not paused is registered; registering one without an event is undefined. */
  function Registrable(l: Listener): bool {
    l.paused != 0 || l.event.Some?
  }

  function RegisteredOf(l: Listener): seq<Listener> {
    if l.paused == 0 then [l] else []
  }

  /** Anything else that parse is given, it reads out of bounds. */
  predicate IsRecord(n: Order, s: seq<Byte>) {
    0 < |s| < U32_LIMIT && Decode(n, s).Some?
  }

  /** The loop over the nested records: stops at the first that is no record or cannot be loaded. */
  function GetListeners(n: Order, types: Types, fs: seq<Field>): Outcome {
    if fs == [] then Outcome(true, [], [])
    else if fs[0].kind != T_FLAT then Outcome(false, [], [])
    else if !IsRecord(n, fs[0].content) then Undefined
    else
      match GetListener(n, types, Reader(Decode(n, fs[0].content).value, 0, true))
      case Foreign => Undefined
      case Unknown => GetListeners(n, types, fs[1..])
      case Failed => Outcome(false, [], [])
      case Loaded(l) =>
        if Registrable(l) then Prepend([l], RegisteredOf(l), GetListeners(n, types, fs[1..])) else Undefined
  }

  function LoadedPause(n: Order, r: Reader): nat
    requires r.cur <= |r.fields|
  {
    AsUint16(n, Get(r, FPS).0)
  }

  /** The nested record of the listeners; if it is missing, an empty one. */
  function Nested(n: Order, r: Reader): seq<Byte>
    requires r.cur <= |r.fields|
  {
    var f := Get(Get(r, FPS).1, FLS).0;
    if f.Some? then f.value.content else Encode(n, n, [])
  }

  function LoadFactory(n: Order, types: Types, r: Reader): Outcome
    requires r.cur <= |r.fields|
  {
    var nested := Nested(n, r);
    if !IsRecord(n, nested) then Undefined
    else GetListeners(n, types, Decode(n, nested).value)
  }

  // ---- what was saved is what is loaded ----

  /** Integers written by either host are seen by the other with their own value. */
  lemma SeenInts(n: Order, o: Order, name: Name, v: nat)
    ensures Seen(n, o, Field(name, T_UINT16, WriteU16(n, v))) == Field(name, T_UINT16, WriteU16(o, v))
    ensures Seen(n, o, Field(name, T_UINT32, WriteU32(n, v))) == Field(name, T_UINT32, WriteU32(o, v))
    ensures Seen(n, o, Field(name, T_SINT32, WriteU32(n, v))) == Field(name, T_SINT32, WriteU32(o, v))
  {
    assert WriteU16(n, v)[2..] == [] && WriteU32(n, v)[4..] == [];
  }

  lemma ListenerParts(n: Order, id: Name, paused: nat, kind: Name, body: seq<Field>)
    ensures var all := PutEventListener(n, id, paused, kind, body);
            && |all| == 5 + |body| && all[5..] == body
            && all[0] == Field(LTP, T_UINT8, [LISTENER_CXX]) && all[1] == Field(LID, T_STRING, id + [0])
            && all[2] == Field(LPS, T_UINT16, WriteU16(n, paused)) && all[3] == Field(LEV, T_BOOL, Bit(true))
            && all[4] == Field(ETP, T_STRING, kind + [0])
  {
  }

  lemma EventParts(n: Order, l: Listener)
    requires Complete(l)
    ensures var all, e := PutListener(n, l), l.event.value;
            && 0 <= e.repeat + U32_LIMIT
            && all[5] == Field(ERP, T_SINT32, WriteU32(n, ToUnsigned(e.repeat, U32_LIMIT)))
            && all[6] == Field(TTM, T_UINT32, WriteU32(n, e.time))
            && all[7] == Field(TIN, T_UINT32, WriteU32(n, e.interval))
            && all[8] == Field(TAB, T_BOOL, Bit(e.absolute))
  {
    var e := l.event.value;
    ListenerParts(n, l.id, l.paused, TIME_EVENT, TimeFields(n, e));
    hide PutEventListener;
    assert forall i :: 0 <= i < 4 ==> PutListener(n, l)[i + 5] == PutListener(n, l)[5..][i];
  }

  lemma SeenOthers(n: Order, o: Order, f: Field)
    requires f.kind == T_UINT8 || f.kind == T_STRING || f.kind == T_BOOL || f.kind == T_FLAT
    ensures Seen(n, o, f) == f
  {
  }

  lemma SeenAllIs(n: Order, o: Order, fs: seq<Field>, gs: seq<Field>)
    requires |fs| == |gs| && forall i :: 0 <= i < |fs| ==> Seen(n, o, fs[i]) == gs[i]
    ensures SeenAll(n, o, fs) == gs
  {
    hide Seen;
  }

  lemma SeenListener(n: Order, o: Order, l: Listener)
    requires Complete(l)
    ensures SeenAll(n, o, PutListener(n, l)) == PutListener(o, l)
  {
    var fs, e := PutListener(n, l), l.event.value;
    ListenerParts(n, l.id, l.paused, TIME_EVENT, TimeFields(n, e));
    ListenerParts(o, l.id, l.paused, TIME_EVENT, TimeFields(o, e));
    EventParts(n, l);
    EventParts(o, l);
    hide *;
    SeenOthers(n, o, fs[0]);
    SeenOthers(n, o, fs[1]);
    SeenInts(n, o, LPS, l.paused);
    SeenOthers(n, o, fs[3]);
    SeenOthers(n, o, fs[4]);
    SeenInts(n, o, ERP, ToUnsigned(e.repeat, U32_LIMIT));
    SeenInts(n, o, TTM, e.time);
    SeenInts(n, o, TIN, e.interval);
    SeenOthers(n, o, fs[8]);
    SeenAllIs(n, o, fs, PutListener(o, l));
  }

  /** Fields are found where the cursor is when they are read in the order they were written. */
  lemma GetNext(fs: seq<Field>, cur: nat, name: Name)
    requires cur < |fs| && fs[cur].name == name
    ensures Get(Reader(fs, cur, true), name) == (Some(fs[cur]), Reader(fs, cur + 1, true))
  {
  }

  /** The fields of a listener can be stored if those of its event can. */
  lemma ListenerStorable(n: Order, o: Order, id: Name, paused: nat, kind: Name, body: seq<Field>)
    requires AllNulFree(body) && (n != o ==> AllWide(body))
    requires |Encode(n, o, PutEventListener(n, id, paused, kind, body))| < U32_LIMIT
    ensures Storable(n, o, PutEventListener(n, id, paused, kind, body))
  {
    var fs := PutEventListener(n, id, paused, kind, body);
    ContentsFit(n, o, fs);
    ListenerParts(n, id, paused, kind, body);
    assert forall i :: 5 <= i < |fs| ==> fs[i] == fs[5..][i - 5];
    hide PutEventListener, Encode;
  }

  lemma StringRestored(id: Name)
    requires NulFree(id)
    ensures CStr(id + [0]) == id
  {
    StrLenOf(id, []);
    assert id + [0] + [] == id + [0];
  }

  lemma IntRestored(n: Order, name: Name, kind: Byte, v: nat)
    ensures v < U16_LIMIT ==> AsUint16(n, Some(Field(name, kind, WriteU16(n, v)))) == v
    ensures v < U32_LIMIT ==> AsUint32(n, Some(Field(name, kind, WriteU32(n, v)))) == v
    ensures v < U32_LIMIT ==> AsSint32(n, Some(Field(name, kind, WriteU32(n, v)))) == ToSigned(v, U32_LIMIT)
  {
    if v < U16_LIMIT {
      U16RoundTrip(n, v);
    }
    if v < U32_LIMIT {
      U32RoundTrip(n, v);
    }
    assert WriteU16(n, v)[..2] == WriteU16(n, v) && WriteU32(n, v)[..4] == WriteU32(n, v);
  }

  lemma ValuesRestored(n: Order, id: Name, paused: nat, kind: Name, body: seq<Field>)
    requires NulFree(id) && NulFree(kind) && paused < U16_LIMIT
    ensures var fs := PutEventListener(n, id, paused, kind, body);
            && AsUint8(Some(fs[0])) == LISTENER_CXX && AsString(Some(fs[1])) == id
            && AsUint16(n, Some(fs[2])) == paused && AsBool(Some(fs[3])) && AsString(Some(fs[4])) == kind
  {
    StringRestored(id);
    StringRestored(kind);
    IntRestored(n, LPS, T_UINT16, paused);
    ListenerParts(n, id, paused, kind, body);
    hide PutEventListener, AsUint16, WriteU16, CStr, NulFree;
  }

  /** The names of the fields an event puts. */
  function NamesOf(fs: seq<Field>): (names: seq<Name>)
    ensures |names| == |fs|
  {
    seq(|fs|, i requires 0 <= i < |fs| => fs[i].name)
  }

  function Found(fs: seq<Field>): (r: seq<Option<Field>>)
    ensures |r| == |fs|
  {
    seq(|fs|, i requires 0 <= i < |fs| => Some(fs[i]))
  }

  /** Reading the fields in the order they were put, from where those not yet read start. */
  lemma {:induction false} GetAllInOrder(fs: seq<Field>, cur: nat)
    requires cur <= |fs|
    ensures GetAll(Reader(fs, cur, true), NamesOf(fs[cur..])) == (Found(fs[cur..]), Reader(fs, |fs|, true))
    decreases |fs| - cur
  {
    if cur == |fs| {
      assert Found(fs[cur..]) == [];
    } else {
      GetNext(fs, cur, fs[cur].name);
      GetAllInOrder(fs, cur + 1);
      assert fs[cur..][1..] == fs[cur + 1..] && fs[cur..][0] == fs[cur];
      assert NamesOf(fs[cur..])[1..] == NamesOf(fs[cur + 1..]);
      assert Found(fs[cur..]) == [Some(fs[cur])] + Found(fs[cur + 1..]);
      hide Get;
    }
  }

  /** The event read from these fields. */
  function EventOf(n: Order, kind: Name, body: seq<Field>): Event
    requires kind == TIME_EVENT ==> |body| == 4
  {
    if kind != TIME_EVENT then OtherEvent(kind, Found(body))
    else TimeEvent(AsSint32(n, Some(body[0])), AsUint32(n, Some(body[1])), AsUint32(n, Some(body[2])),
                   AsBool(Some(body[3])))
  }

  lemma TimeNames(body: seq<Field>)
    requires NamesOf(body) == TIME_NAMES
    ensures |body| == 4 && body[0].name == ERP && body[1].name == TTM && body[2].name == TIN && body[3].name == TAB
  {
    assert TIME_NAMES[0] == ERP && TIME_NAMES[1] == TTM && TIME_NAMES[2] == TIN && TIME_NAMES[3] == TAB;
    assert NamesOf(body)[0] == body[0].name && NamesOf(body)[1] == body[1].name;
    assert NamesOf(body)[2] == body[2].name && NamesOf(body)[3] == body[3].name;
  }

  /** An event is restored from its fields if its type is registered, and lost otherwise. */
  lemma EventRestored(n: Order, types: Types, id: Name, paused: nat, kind: Name, body: seq<Field>)
    requires Proper(types) && NulFree(id) && NulFree(kind) && paused < U16_LIMIT
    requires kind in types ==> NamesOf(body) == types[kind]
    ensures kind in types && kind == TIME_EVENT ==> |body| == 4
    ensures var r := GetEvent(n, types, Reader(PutEventListener(n, id, paused, kind, body), 4, true));
            r.1.success && r.0 == if kind in types then Some(EventOf(n, kind, body)) else None
  {
    var fs := PutEventListener(n, id, paused, kind, body);
    ListenerParts(n, id, paused, kind, body);
    ValuesRestored(n, id, paused, kind, body);
    hide PutEventListener, AsUint32, AsSint32, AsString, AsBool, AsUint8, AsUint16;
    GetNext(fs, 4, ETP);
    if kind in types && kind != TIME_EVENT {
      GetAllInOrder(fs, 5);
    } else if kind in types {
      TimeNames(body);
      assert fs[5] == fs[5..][0] && fs[6] == fs[5..][1] && fs[7] == fs[5..][2] && fs[8] == fs[5..][3];
      GetNext(fs, 5, ERP);
      GetNext(fs, 6, TTM);
      GetNext(fs, 7, TIN);
      GetNext(fs, 8, TAB);
    }
    hide Get, GetAll, Found, NamesOf;
  }

  /**
   * A listener loaded by a host of either order has its id and pause count. Its event, whatever its type,
   * is read from the fields that were put; it is lost, and the listener accepted all the same, exactly if
   * its type is not registered at the time.
   */
  lemma ListenerRestored(n: Order, o: Order, types: Types, id: Name, paused: nat, kind: Name, body: seq<Field>)
    requires Proper(types) && NulFree(id) && NulFree(kind) && paused < U16_LIMIT
    requires AllNulFree(body) && (n != o ==> AllWide(body)) && (kind in types ==> NamesOf(body) == types[kind])
    requires |Encode(n, o, PutEventListener(n, id, paused, kind, body))| < U32_LIMIT
    ensures kind in types && kind == TIME_EVENT ==> |body| == 4
    ensures var fs := Decode(n, Encode(n, o, PutEventListener(n, id, paused, kind, body)));
            && fs.Some?
            && var r := GetListener(n, types, Reader(fs.value, 0, true));
            && r == Loaded(Listener(id, paused, if kind in types then Some(EventOf(n, kind, body)) else None))
            && (r.listener.event == None <==> kind !in types)
  {
    var fs := PutEventListener(n, id, paused, kind, body);
    ListenerStorable(n, o, id, paused, kind, body);
    RecordRoundTrip(n, o, fs);
    ListenerParts(n, id, paused, kind, body);
    ValuesRestored(n, id, paused, kind, body);
    EventRestored(n, types, id, paused, kind, body);
    hide PutEventListener, Storable, Decode, Encode, GetEvent, EventOf, AsUint8, AsUint16, AsString, AsBool, NamesOf;
    GetNext(fs, 0, LTP);
    GetNext(fs, 1, LID);
    GetNext(fs, 2, LPS);
    GetNext(fs, 3, LEV);
    hide Get;
  }

  /** The values of a time event come back from its fields. */
  lemma TimeEventRestored(n: Order, e: Event)
    requires IsTimeEvent(e)
    ensures EventOf(n, TIME_EVENT, TimeFields(n, e)) == e && NamesOf(TimeFields(n, e)) == TIME_NAMES
    ensures AllNulFree(TimeFields(n, e)) && AllWide(TimeFields(n, e))
  {
    IntRestored(n, ERP, T_SINT32, ToUnsigned(e.repeat, U32_LIMIT));
    IntRestored(n, TTM, T_UINT32, e.time);
    IntRestored(n, TIN, T_UINT32, e.interval);
    hide AsUint32, AsSint32, WriteU32;
  }

  lemma TimeListenerRestored(n: Order, o: Order, types: Types, l: Listener)
    requires Proper(types) && TIME_EVENT in types
    requires Complete(l) && |Encode(o, o, PutListener(o, l))| < U32_LIMIT
    ensures var fs := Decode(n, Encode(o, o, PutListener(o, l)));
            fs.Some? && GetListener(n, types, Reader(fs.value, 0, true)) == Loaded(l)
  {
    var e := l.event.value;
    assert NulFree(TIME_EVENT);
    SeenListener(n, o, l);
    SeenListener(o, o, l);
    SameEncoding(n, o, PutListener(n, l), PutListener(o, l));
    TimeEventRestored(n, e);
    hide Encode, Decode, GetListener, TimeFields, EventOf, NamesOf, PutEventListener, NulFree, Wide, IsTimeEvent;
    ListenerRestored(n, o, types, l.id, l.paused, TIME_EVENT, TimeFields(n, e));
  }

  lemma FirstListenerField(o: Order, ls: seq<Listener>)
    requires AllComplete(ls) && ls != []
    ensures Complete(ls[0]) && AllComplete(ls[1..])
    ensures ListenerFields(o, ls) == [ListenerField(o, ls[0])] + ListenerFields(o, ls[1..])
  {
    hide Complete, ListenerField;
    assert ls[0] in ls && forall l | l in ls[1..] :: l in ls;
  }

  function Unpaused(ls: seq<Listener>): seq<Listener> {
    if ls == [] then [] else RegisteredOf(ls[0]) + Unpaused(ls[1..])
  }

  /** `r` are the elements of `ls` at these positions, in order. */
  ghost predicate Selects(ls: seq<Listener>, at: seq<nat>, r: seq<Listener>) {
    && |at| == |r| && (forall i, j :: 0 <= i < j < |at| ==> at[i] < at[j])
    && forall i :: 0 <= i < |at| ==> at[i] < |ls| && r[i] == ls[at[i]]
  }

  lemma SelectsLast(ls: seq<Listener>, l: Listener, at: seq<nat>, r: seq<Listener>)
    requires Selects(ls, at, r)
    ensures Selects(ls + [l], at, r) && |ls| !in at
    ensures Selects(ls + [l], at + [|ls|], r + [l])
  {
  }

  lemma {:induction false} UnpausedLast(ls: seq<Listener>, l: Listener)
    ensures Unpaused(ls + [l]) == Unpaused(ls) + if l.paused == 0 then [l] else []
  {
    if ls == [] {
      assert [l][1..] == [] && [] + [l] == [l];
    } else {
      assert (ls + [l])[1..] == ls[1..] + [l];
      UnpausedLast(ls[1..], l);
    }
  }

  lemma Last(ls: seq<Listener>) returns (front: seq<Listener>, l: Listener)
    requires ls != []
    ensures ls == front + [l] && |front| == |ls| - 1 && l in ls
    ensures forall l | l in front :: l in ls
  {
    l := ls[|ls| - 1];
    front := ls[..|ls| - 1];
  }

  /** Registered are the listeners with pause count 0 and no others, each once and in order. */
  lemma {:induction false} UnpausedInOrder(ls: seq<Listener>) returns (at: seq<nat>)
    ensures Selects(ls, at, Unpaused(ls))
    ensures forall i :: 0 <= i < |ls| ==> (i in at <==> ls[i].paused == 0)
    decreases |ls|
  {
    at := [];
    if ls != [] {
      var front, l := Last(ls);
      at := UnpausedInOrder(front);
      SelectsLast(front, l, at, Unpaused(front));
      UnpausedLast(front, l);
      hide Selects, Unpaused;
      assert Unpaused(front) + [] == Unpaused(front) && at + [] == at;
      at := at + if l.paused == 0 then [|front|] else [];
    }
  }

  /** Its time event is still to be raised: forever, if its count is negative, or so many times. */
  predicate Repeats(l: Listener) {
    l.event.Some? && l.event.value.TimeEvent? && l.event.value.repeat != 0
  }

  /** Saved are the listeners whose event repeats and no others, each once and in order. */
  lemma {:induction false} AliveInOrder(ls: seq<Listener>) returns (at: seq<nat>)
    requires AllComplete(ls)
    ensures Selects(ls, at, Alive(ls))
    ensures forall i :: 0 <= i < |ls| ==> (i in at <==> Repeats(ls[i]))
    decreases |ls|
  {
    at := [];
    if ls != [] {
      var front, l := Last(ls);
      hide *;
      AllCompleteParts(front, l);
      at := AliveInOrder(front);
      SelectsLast(front, l, at, Alive(front));
      AliveLast(front, l);
      at := at + if Repeats(l) then [|front|] else [];
    }
  }

  /** `r` are the listeners that are saved, in order. */
  ghost predicate SavedFrom(ls: seq<Listener>, r: seq<Listener>) {
    exists at :: Selects(ls, at, r) && forall i :: 0 <= i < |ls| ==> (i in at <==> Repeats(ls[i]))
  }

  /** `r` are the listeners that are not paused, in order. */
  ghost predicate UnpausedFrom(ls: seq<Listener>, r: seq<Listener>) {
    exists at :: Selects(ls, at, r) && forall i :: 0 <= i < |ls| ==> (i in at <==> ls[i].paused == 0)
  }

  lemma UnpausedAre(ls: seq<Listener>)
    ensures UnpausedFrom(ls, Unpaused(ls))
    ensures forall l :: l in Unpaused(ls) <==> l in ls && l.paused == 0
  {
    var at := UnpausedInOrder(ls);
    hide Unpaused;
    forall l | l in ls && l.paused == 0
      ensures l in Unpaused(ls)
    {
      var i :| 0 <= i < |ls| && ls[i] == l;
      assert i in at;
    }
  }

  lemma AliveAre(ls: seq<Listener>)
    requires AllComplete(ls)
    ensures SavedFrom(ls, Alive(ls))
    ensures forall l :: l in Alive(ls) <==> l in ls && Repeats(l)
  {
    var at := AliveInOrder(ls);
    hide Alive, AllComplete, Repeats;
    forall l | l in ls && Repeats(l)
      ensures l in Alive(ls)
    {
      var i :| 0 <= i < |ls| && ls[i] == l;
      assert i in at;
    }
  }

  /** However far loading comes, registered are exactly the listeners loaded that are not paused. */
  lemma {:induction false} RegisteredAreUnpaused(n: Order, types: Types, fs: seq<Field>)
    requires GetListeners(n, types, fs).Outcome?
    ensures var r := GetListeners(n, types, fs); r.registered == Unpaused(r.listeners)
  {
    hide GetListener, Decode;
    if fs != [] && fs[0].kind == T_FLAT {
      var r := GetListener(n, types, Reader(Decode(n, fs[0].content).value, 0, true));
      if r.Loaded? {
        RegisteredAreUnpaused(n, types, fs[1..]);
        var rest := GetListeners(n, types, fs[1..]);
        PrependUnpaused(r.listener, rest.listeners);
      } else if r.Unknown? {
        RegisteredAreUnpaused(n, types, fs[1..]);
      }
    }
  }

  lemma AllCompleteParts(ls: seq<Listener>, l: Listener)
    requires AllComplete(ls + [l])
    ensures AllComplete(ls) && Complete(l)
  {
    assert (ls + [l])[|ls|] == l && forall x | x in ls :: x in ls + [l];
    hide Complete;
  }

  lemma AliveLast(ls: seq<Listener>, l: Listener)
    requires AllComplete(ls) && Complete(l)
    ensures AllComplete(ls + [l])
    ensures Alive(ls + [l]) == if Repeats(l) then Alive(ls) + [l] else Alive(ls)
  {
    assert (ls + [l])[..|ls|] == ls;
  }

  lemma NextRestored(n: Order, o: Order, types: Types, l: Listener, rest: seq<Field>)
    requires Proper(types) && TIME_EVENT in types && Complete(l) && |ListenerField(o, l).content| < U32_LIMIT
    ensures GetListeners(n, types, [ListenerField(o, l)] + rest)
         == Prepend([l], RegisteredOf(l), GetListeners(n, types, rest))
  {
    var fs := [ListenerField(o, l)] + rest;
    assert fs[1..] == rest && fs[0] == ListenerField(o, l);
    TimeListenerRestored(n, o, types, l);
    assert Encode(o, o, PutListener(o, l)) != [];
    hide GetListener, PutListener, Encode, Decode, Prepend, RegisteredOf;
  }

  lemma PrependUnpaused(l: Listener, ls: seq<Listener>)
    ensures Prepend([l], RegisteredOf(l), Outcome(true, ls, Unpaused(ls)))
         == Outcome(true, [l] + ls, Unpaused([l] + ls))
  {
    assert ([l] + ls)[1..] == ls;
  }

  predicate AllShort(fs: seq<Field>) {
    forall i :: 0 <= i < |fs| ==> |fs[i].content| < U32_LIMIT
  }

  lemma PrependUnpausedTo(l: Listener, ls: seq<Listener>, rest: Outcome)
    ensures Prepend([l], RegisteredOf(l), Prepend(ls, Unpaused(ls), rest))
         == Prepend([l] + ls, Unpaused([l] + ls), rest)
  {
    assert ([l] + ls)[1..] == ls;
    if rest.Outcome? {
      assert [l] + (ls + rest.listeners) == [l] + ls + rest.listeners;
      assert RegisteredOf(l) + (Unpaused(ls) + rest.registered) == RegisteredOf(l) + Unpaused(ls) + rest.registered;
    }
  }

  lemma PrependNone(rest: Outcome)
    ensures Prepend([], Unpaused([]), rest) == rest
  {
    if rest.Outcome? {
      assert [] + rest.listeners == rest.listeners && [] + rest.registered == rest.registered;
    }
  }

  lemma NoListeners(o: Order, rest: seq<Field>)
    ensures AllComplete([]) && ListenerFields(o, []) + rest == rest
  {
  }

  /** Saved listeners are loaded one after the other, whatever follows them. */
  lemma {:induction false} ListenersRestored(n: Order, o: Order, types: Types, ls: seq<Listener>, rest: seq<Field>)
    requires Proper(types) && TIME_EVENT in types && AllComplete(ls) && AllShort(ListenerFields(o, ls))
    ensures GetListeners(n, types, ListenerFields(o, ls) + rest)
         == Prepend(ls, Unpaused(ls), GetListeners(n, types, rest))
  {
    if ls == [] {
      hide *;
      PrependNone(GetListeners(n, types, rest));
      NoListeners(o, rest);
    } else {
      hide *;
      FirstListenerField(o, ls);
      var first, others := ListenerField(o, ls[0]), ListenerFields(o, ls[1..]);
      AllShortParts(first, others);
      NextRestored(n, o, types, ls[0], others + rest);
      ListenersRestored(n, o, types, ls[1..], rest);
      PrependUnpausedTo(ls[0], ls[1..], GetListeners(n, types, rest));
      assert ls == [ls[0]] + ls[1..];
      assert [first] + others + rest == [first] + (others + rest);
    }
  }

  lemma AllShortParts(first: Field, rest: seq<Field>)
    requires AllShort([first] + rest)
    ensures |first.content| < U32_LIMIT && AllShort(rest)
  {
    var fs := [first] + rest;
    assert fs[0] == first && forall i :: 0 <= i < |rest| ==> fs[i + 1] == rest[i];
  }

  lemma BlobsSeen(n: Order, o: Order, fs: seq<Field>)
    requires forall i :: 0 <= i < |fs| ==> fs[i].kind == T_FLAT
    ensures SeenAll(n, o, fs) == fs
  {
  }

  lemma NestedDecodes(n: Order, o: Order, fs: seq<Field>)
    requires forall i :: 0 <= i < |fs| ==> fs[i].kind == T_FLAT && fs[i].name == []
    requires |Encode(o, o, fs)| < U32_LIMIT
    ensures Decode(n, Encode(o, o, fs)) == Some(fs)
  {
    BlobsSeen(n, o, fs);
    BlobsSeen(o, o, fs);
    ContentsFit(n, o, fs);
    assert AllWide(fs) && AllNulFree(fs);
    hide Decode;
    RecordRoundTrip(n, o, fs);
  }

  lemma FactoryDecodes(n: Order, o: Order, paused: nat, ls: seq<Listener>)
    requires AllComplete(ls) && paused < U16_LIMIT && |SaveFactory(o, paused, ls)| < U32_LIMIT
    ensures var fs := PutFactory(o, paused, ls);
            && Decode(n, SaveFactory(o, paused, ls)) == Some([Field(FPS, T_UINT16, WriteU16(n, paused)), fs[1]])
            && |fs[1].content| < U32_LIMIT
  {
    var ps := PutFactory(o, paused, ls);
    var fs := [Field(FPS, T_UINT16, WriteU16(n, paused)), ps[1]];
    SeenInts(n, o, FPS, paused);
    SeenInts(o, o, FPS, paused);
    assert AllWide(fs) && AllNulFree(fs);
    hide WriteU16, Encode, Decode, ListenerFields, Alive, Seen, EncodeFields;
    SeenOthers(n, o, ps[1]);
    SeenOthers(o, o, ps[1]);
    SeenAllIs(n, o, fs, ps);
    SeenAllIs(o, o, ps, ps);
    SameEncoding(n, o, fs, ps);
    ContentsFit(n, o, fs);
    assert |fs[1].content| < |Encode(n, o, fs)|;
    RecordRoundTrip(n, o, fs);
  }

  lemma SameEncoding(n: Order, o: Order, fs: seq<Field>, gs: seq<Field>)
    requires SeenAll(n, o, fs) == SeenAll(o, o, gs)
    ensures Encode(n, o, fs) == Encode(o, o, gs)
  {
  }

  lemma NestedRestored(n: Order, o: Order, types: Types, ls: seq<Listener>)
    requires Proper(types) && TIME_EVENT in types
    requires AllComplete(ls) && |Encode(o, o, ListenerFields(o, ls))| < U32_LIMIT
    ensures Decode(n, Encode(o, o, ListenerFields(o, ls))) == Some(ListenerFields(o, ls))
    ensures GetListeners(n, types, ListenerFields(o, ls)) == Outcome(true, ls, Unpaused(ls))
    ensures IsRecord(n, Encode(o, o, ListenerFields(o, ls)))
  {
    var nested := ListenerFields(o, ls);
    NestedDecodes(n, o, nested);
    ContentsFit(o, o, nested);
    hide Encode, Decode, ListenerFields;
    ListenersRestored(n, o, types, ls, []);
    assert nested + [] == nested && GetListeners(n, types, []) == Outcome(true, [], []);
    assert ls + [] == ls && Unpaused(ls) + [] == Unpaused(ls);
    hide GetListeners;
  }

  lemma SavedLoads(n: Order, o: Order, types: Types, paused: nat, ls: seq<Listener>)
    requires Proper(types) && TIME_EVENT in types
    requires AllComplete(ls) && paused < U16_LIMIT && |SaveFactory(o, paused, ls)| < U32_LIMIT
    ensures var fs := Decode(n, SaveFactory(o, paused, ls));
            && fs.Some?
            && LoadedPause(n, Reader(fs.value, 0, true)) == paused
            && LoadFactory(n, types, Reader(fs.value, 0, true)) == Outcome(true, Alive(ls), Unpaused(Alive(ls)))
  {
    FactoryDecodes(n, o, paused, ls);
    NestedRestored(n, o, types, Alive(ls));
    var fs := [Field(FPS, T_UINT16, WriteU16(n, paused)), PutFactory(o, paused, ls)[1]];
    assert fs[1].content == Encode(o, o, ListenerFields(o, Alive(ls)));
    IntRestored(n, FPS, T_UINT16, paused);
    GetNext(fs, 0, FPS);
    GetNext(fs, 1, FLS);
    hide Get, WriteU16, ReadU16, Encode, Decode, GetListeners, ListenerFields, PutFactory, Alive, Unpaused, AllComplete;
  }

  /**
   * A factory saved on a host of either order and loaded on one of either order has its pause count and,
   * in order, every listener whose event repeats, with all their values; registered are exactly those
   * that are not paused. The nested records of the listeners all share the empty name.
   */
  lemma FactoryRestored(n: Order, o: Order, types: Types, paused: nat, ls: seq<Listener>)
    requires Proper(types) && TIME_EVENT in types
    requires AllComplete(ls) && paused < U16_LIMIT && |SaveFactory(o, paused, ls)| < U32_LIMIT
    ensures var fs := Decode(n, SaveFactory(o, paused, ls));
            && fs.Some?
            && LoadedPause(n, Reader(fs.value, 0, true)) == paused
            && var r := LoadFactory(n, types, Reader(fs.value, 0, true));
            && r.Outcome? && r.ok
            && SavedFrom(ls, r.listeners) && (forall l :: l in r.listeners <==> l in ls && Repeats(l))
            && UnpausedFrom(r.listeners, r.registered)
            && (forall l :: l in r.registered <==> l in r.listeners && l.paused == 0)
  {
    hide *;
    SavedLoads(n, o, types, paused, ls);
    AliveAre(ls);
    UnpausedAre(Alive(ls));
  }

  /**
   * Loading stops at the first field that is no record, and at the first listener that cannot be read: those
   * before it are kept, with the unpaused ones registered. A listener of an unknown type is passed over.
   */
  lemma LoadingStops(n: Order, o: Order, types: Types, ls: seq<Listener>, f: Field, rest: seq<Field>)
    requires Proper(types) && TIME_EVENT in types && AllComplete(ls) && AllShort(ListenerFields(o, ls))
    requires f.kind == T_FLAT ==> IsRecord(n, f.content)
    ensures var r := GetListeners(n, types, ListenerFields(o, ls) + [f] + rest);
            && (f.kind != T_FLAT ==> r == Outcome(false, ls, Unpaused(ls)))
            && (f.kind == T_FLAT ==>
                  var l := GetListener(n, types, Reader(Decode(n, f.content).value, 0, true));
                  && (l.Failed? ==> r == Outcome(false, ls, Unpaused(ls)))
                  && (l.Unknown? ==> r == GetListeners(n, types, ListenerFields(o, ls) + rest)))
  {
    hide Proper, AllComplete, AllShort, ListenerFields, GetListener, Decode;
    var fs := [f] + rest;
    assert fs[0] == f && fs[1..] == rest;
    assert ListenerFields(o, ls) + [f] + rest == ListenerFields(o, ls) + fs;
    ListenersRestored(n, o, types, ls, fs);
    ListenersRestored(n, o, types, ls, rest);
    assert ls + [] == ls && Unpaused(ls) + [] == Unpaused(ls);
  }

  lemma GetHas(r: Reader, name: Name)
    requires r.cur <= |r.fields|
    ensures Get(r, name).1.success <==> r.success && Has(r.fields, name)
  {
    SearchComplete(r.fields, r.cur, name);
    hide Has, Search;
  }

  lemma {:induction false} GetAllHas(r: Reader, names: seq<Name>)
    requires r.cur <= |r.fields|
    ensures GetAll(r, names).1.success <==> r.success && forall name | name in names :: Has(r.fields, name)
    decreases |names|
  {
    hide Get, Has;
    if names != [] {
      GetHas(r, names[0]);
      GetAllHas(Get(r, names[0]).1, names[1..]);
      assert names == [names[0]] + names[1..];
    }
  }

  /** An event is read without failure exactly if its type is there, and all its fields, if it is registered. */
  lemma GetEventHas(n: Order, types: Types, r: Reader)
    requires r.cur <= |r.fields| && Proper(types)
    ensures var name := AsString(Get(r, ETP).0);
            GetEvent(n, types, r).1.success
            <==> r.success && Has(r.fields, ETP)
                 && (name in types ==> forall field | field in types[name] :: Has(r.fields, field))
  {
    hide Get, Has, AsString, AsUint32, AsSint32, AsBool;
    GetHas(r, ETP);
    var (kind, r1) := Get(r, ETP);
    var name := AsString(kind);
    if name in types && name != TIME_EVENT {
      GetAllHas(r1, types[name]);
    } else if name in types {
      GetHas(r1, ERP);
      var r2 := Get(r1, ERP).1;
      GetHas(r2, TTM);
      var r3 := Get(r2, TTM).1;
      GetHas(r3, TIN);
      GetHas(Get(r3, TIN).1, TAB);
      assert types[name][0] == ERP && types[name][1] == TTM && types[name][2] == TIN && types[name][3] == TAB;
    }
  }

  /**
   * The type decides first: 1 is a Python listener, from 2 on it is unknown. A C++ listener, which one without
   * a type is taken for, is loaded exactly if none of its fields, nor those of its event, is missing.
   */
  lemma LoadedIff(n: Order, types: Types, fs: seq<Field>)
    requires Proper(types)
    ensures var kind, l := AsUint8(Get(Reader(fs, 0, true), LTP).0), GetListener(n, types, Reader(fs, 0, true));
            (l.Foreign? <==> kind == 1) && (l.Unknown? <==> kind >= 2)
    ensures var r := Get(Get(Get(Get(Reader(fs, 0, true), LTP).1, LID).1, LPS).1, LEV);
            var name := AsString(Get(r.1, ETP).0);
            GetListener(n, types, Reader(fs, 0, true)).Loaded?
            <==> AsUint8(Get(Reader(fs, 0, true), LTP).0) == 0
                 && Has(fs, LTP) && Has(fs, LID) && Has(fs, LPS) && Has(fs, LEV)
                 && (AsBool(r.0) ==> Has(fs, ETP)
                                     && (name in types ==> forall field | field in types[name] :: Has(fs, field)))
  {
    hide Has, GetEvent, AsUint8, AsUint16, AsBool, AsString, Get, Proper;
    GetHas(Reader(fs, 0, true), LTP);
    var r1 := Get(Reader(fs, 0, true), LTP).1;
    GetHas(r1, LID);
    var r2 := Get(r1, LID).1;
    GetHas(r2, LPS);
    var r3 := Get(r2, LPS).1;
    GetHas(r3, LEV);
    GetEventHas(n, types, Get(r3, LEV).1);
  }

  /** A factory without a record of listeners is loaded with none, and one without a pause count is not paused. */
  lemma MissingBlocks(n: Order, types: Types, r: Reader)
    requires r.cur <= |r.fields|
    ensures !Has(r.fields, FLS) ==> LoadFactory(n, types, r) == Outcome(true, [], [])
    ensures !Has(r.fields, FPS) ==> LoadedPause(n, r) == 0
  {
    SearchComplete(r.fields, r.cur, FPS);
    var r1 := Get(r, FPS).1;
    SearchComplete(r1.fields, r1.cur, FLS);
    assert Encode(n, n, [])[1..] == [];
    hide Search, Has;
  }

  // ---- the format ----

  function Ascii(s: string): (r: Name)
    requires forall i :: 0 <= i < |s| ==> s[i] < 128 as char
    ensures |r| == |s|
  {
    seq(|s|, i requires 0 <= i < |s| => s[i] as int)
  }

  lemma FieldNames()
    ensures FPS == Ascii("fps") && FLS == Ascii("fls")
    ensures LTP == Ascii("ltp") && LID == Ascii("lid") && LPS == Ascii("lps") && LEV == Ascii("lev")
    ensures ETP == Ascii("etp") && ERP == Ascii("erp")
    ensures TTM == Ascii("ttm") && TIN == Ascii("tin") && TAB == Ascii("tab")
  {
  }

  lemma TypeName()
    ensures TIME_EVENT == Ascii("time_event")
  {
  }

  /** Name, type and content of every field of a saved listener, integers as they lie in memory. */
  lemma ListenerFormat(n: Order, l: Listener)
    requires Complete(l)
    ensures var fs, e := PutListener(n, l), l.event.value;
            && fs[0] == Field(Ascii("ltp"), 2, [0])
            && fs[1] == Field(Ascii("lid"), 8, l.id + [0])
            && fs[2] == Field(Ascii("lps"), 4, Portability.Memory(n, 2, l.paused))
            && fs[3] == Field(Ascii("lev"), 0, [1])
            && fs[4] == Field(Ascii("etp"), 8, Ascii("time_event") + [0])
            && fs[5] == Field(Ascii("erp"), 7, Portability.Memory(n, 4, e.repeat))
            && fs[6] == Field(Ascii("ttm"), 6, Portability.Memory(n, 4, e.time))
            && fs[7] == Field(Ascii("tin"), 6, Portability.Memory(n, 4, e.interval))
            && fs[8] == Field(Ascii("tab"), 0, [if e.absolute then 1 else 0])
  {
    var e := l.event.value;
    FieldNames();
    TypeName();
    EventParts(n, l);
    ListenerParts(n, l.id, l.paused, TIME_EVENT, TimeFields(n, e));
    Portability.MemoryIs(n, l.paused);
    Portability.MemoryIs(n, e.time);
    Portability.MemoryIs(n, e.interval);
    WrittenSigned(n, e.repeat);
    hide Ascii, PutEventListener, Portability.Memory;
  }

  /** What the typed get functions return for a missing field. */
  lemma MissingValues(n: Order)
    ensures AsUint8(None) == AsUint16(n, None) == AsUint32(n, None) == 0 && AsSint32(n, None) == -1
    ensures !AsBool(None) && AsString(None) == []
  {
  }

  lemma FactoryFormat(n: Order, paused: nat, ls: seq<Listener>)
    requires AllComplete(ls)
    ensures var fs := PutFactory(n, paused, ls);
            && fs[0] == Field(Ascii("fps"), 4, Portability.Memory(n, 2, paused))
            && fs[1] == Field(Ascii("fls"), 12, Encode(n, n, ListenerFields(n, Alive(ls))))
            && forall i :: 0 <= i < |Alive(ls)| ==>
                 ListenerFields(n, Alive(ls))[i] == Field([], 12, Encode(n, n, PutListener(n, Alive(ls)[i])))
  {
    FieldNames();
    Portability.MemoryIs(n, paused);
    hide Ascii, Encode, PutListener, Portability.Memory;
  }

  lemma WrittenSigned(n: Order, v: int)
    requires -0x8000_0000 <= v < 0x8000_0000
    ensures WriteU32(n, ToUnsigned(v, U32_LIMIT)) == Portability.Memory(n, 4, v)
  {
    Portability.MemoryIs(n, v);
    hide Portability.Memory;
    SameBytes(v, v + U32_LIMIT);
  }

  lemma SameBytes(v: int, u: int)
    requires u == v + U32_LIMIT
    ensures v % 0x100 == u % 0x100 && v / 0x100 % 0x100 == u / 0x100 % 0x100
    ensures v / 0x100 / 0x100 % 0x100 == u / 0x100 / 0x100 % 0x100
    ensures v / 0x100 / 0x100 / 0x100 % 0x100 == u / 0x100 / 0x100 / 0x100 % 0x100
  {
    assert u / 0x100 == v / 0x100 + 0x100_0000;
    assert u / 0x100 / 0x100 == v / 0x100 / 0x100 + 0x1_0000;
    assert u / 0x100 / 0x100 / 0x100 == v / 0x100 / 0x100 / 0x100 + 0x100;
  }
}
