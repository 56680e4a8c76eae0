/** put_state and get_state of factories and records, as they run on records. */
module FactoryFile {
  import opened Common
  import opened Bytes
  import opened Record
  import opened Lookup
  import opened Growth
  import opened Flats
  import opened FactoryState

  // ---- put_state ----

  /** The record holds the first `k` of these fields. */
  ghost predicate Holds(record: Flat, all: seq<Field>, k: nat)
    reads record, record.buffer
  {
    && record.Valid() && k <= |all| && |EncodeFields(record.native, all)| < U32_LIMIT / 2
    && record.Bytes() == [Tag(record.native)] + EncodeFields(record.native, all[..k])
  }

  lemma HoldsNone(record: Flat, all: seq<Field>)
    requires record.Valid() && |EncodeFields(record.native, all)| < U32_LIMIT / 2
    requires record.Bytes() == Encode(record.native, record.native, [])
    ensures Holds(record, all, 0)
  {
    EncodeNative(record.native, []);
    assert all[..0] == [];
  }

  lemma HoldsAll(record: Flat, all: seq<Field>)
    requires Holds(record, all, |all|)
    ensures record.Valid() && record.Bytes() == Encode(record.native, record.native, all)
  {
    EncodeNative(record.native, all);
    assert all[..|all|] == all;
  }

  /** Puts one more field into a record that started out empty. */
  method PutNext(record: Flat, ghost all: seq<Field>, ghost k: nat, f: Field)
    requires Holds(record, all, k) && k < |all| && f == all[k]
    modifies record, record.buffer
    ensures Holds(record, all, k + 1) && (record.buffer == old(record.buffer) || fresh(record.buffer))
  {
    NextBlock(record.native, all, k);
    hide EncodeField, EncodeFields;
    HalfTheRangeIsReached(record.capacity, record.size, record.size + |EncodeField(record.native, f)|);
    Assoc([Tag(record.native)], EncodeFields(record.native, all[..k]), EncodeField(record.native, f));
    record.Put(f);
  }

  method PutListenerState(n: Order, l: Listener) returns (record: Flat)
    requires Complete(l) && |EncodeFields(n, PutListener(n, l))| < U32_LIMIT / 2
    ensures fresh(record) && fresh(record.buffer) && record.Valid()
    ensures record.Bytes() == ListenerField(n, l).content
  {
    ghost var all := PutListener(n, l);
    assert ListenerField(n, l).content == Encode(n, n, all);
    hide *;
    record := new Flat(n, 32);
    HoldsNone(record, all);
    ListenerParts(n, l.id, l.paused, TIME_EVENT, TimeFields(n, l.event.value));
    PutNext(record, all, 0, Field(LTP, T_UINT8, [LISTENER_CXX]));
    PutNext(record, all, 1, Field(LID, T_STRING, l.id + [0]));
    PutNext(record, all, 2, Field(LPS, T_UINT16, WriteU16(n, l.paused)));
    PutNext(record, all, 3, Field(LEV, T_BOOL, Bit(true)));
    PutEventState(record, l);
    HoldsAll(record, all);
  }

  /** The part of the event. */
  method PutEventState(record: Flat, l: Listener)
    requires Complete(l) && Holds(record, PutListener(record.native, l), 4)
    modifies record, record.buffer
    ensures Holds(record, PutListener(record.native, l), 9)
    ensures record.buffer == old(record.buffer) || fresh(record.buffer)
  {
    var e := l.event.value;
    ghost var all := PutListener(record.native, l);
    EventParts(record.native, l);
    ListenerParts(record.native, l.id, l.paused, TIME_EVENT, TimeFields(record.native, e));
    hide *;
    PutNext(record, all, 4, Field(ETP, T_STRING, TIME_EVENT + [0]));
    PutNext(record, all, 5, Field(ERP, T_SINT32, WriteU32(record.native, ToUnsigned(e.repeat, U32_LIMIT))));
    PutNext(record, all, 6, Field(TTM, T_UINT32, WriteU32(record.native, e.time)));
    PutNext(record, all, 7, Field(TIN, T_UINT32, WriteU32(record.native, e.interval)));
    PutNext(record, all, 8, Field(TAB, T_BOOL, Bit(e.absolute)));
  }

  /** The position in `Alive(ls)` of the records the loop comes to. */
  lemma {:induction false} AliveAt(ls: seq<Listener>, i: nat)
    requires AllComplete(ls) && i <= |ls|
    ensures AllComplete(ls[..i]) && |Alive(ls[..i])| <= |Alive(ls)|
    ensures i < |ls| ==>
      && AllComplete(ls[..i + 1]) && Complete(ls[i])
      && if Destroyed(ls[i]) then Alive(ls[..i + 1]) == Alive(ls[..i])
         else
           && |Alive(ls[..i + 1])| == |Alive(ls[..i])| + 1 <= |Alive(ls)|
           && Alive(ls)[|Alive(ls[..i])|] == ls[i]
    decreases |ls|
  {
    hide Complete;
    assert ls[..|ls|] == ls;
    if i < |ls| {
      var shorter := ls[..|ls| - 1];
      assert forall l | l in shorter :: l in ls;
      assert ls[i] in ls;
      assert shorter[..i] == ls[..i];
      AliveAt(shorter, i);
      if i < |shorter| {
        assert shorter[..i + 1] == ls[..i + 1] && shorter[i] == ls[i];
      } else {
        assert ls[..i + 1] == ls;
      }
    }
  }

  lemma ListenerFieldAt(o: Order, ls: seq<Listener>, k: nat)
    requires AllComplete(ls) && k < |ls|
    ensures Complete(ls[k]) && ListenerFields(o, ls)[k] == ListenerField(o, ls[k])
  {
    assert ls[k] in ls;
  }

  /** The records of the listeners fit into new records of the default capacity, see PowerOfTwoEndsIff. */
  ghost predicate Fits(n: Order, ls: seq<Listener>)
    requires AllComplete(ls)
  {
    |EncodeFields(n, ListenerFields(n, Alive(ls)))| < U32_LIMIT / 2
  }

  lemma FactoryBlocks(n: Order, paused: nat, ls: seq<Listener>, s: seq<Byte>)
    requires AllComplete(ls)
    ensures var fs := PutFactory(n, paused, ls);
            && fs == [Field(FPS, T_UINT16, WriteU16(n, paused))] + [fs[1]] && [fs[1]] == [fs[1]] + []
            && s + EncodeField(n, fs[0]) + EncodeField(n, fs[1]) == s + EncodeFields(n, fs)
            && (s == Encode(n, n, []) ==> s + EncodeFields(n, fs) == SaveFactory(n, paused, ls))
  {
    SavedFromEmpty(n, paused, ls);
    var fs := PutFactory(n, paused, ls);
    assert fs == [fs[0], fs[1]];
    hide Encode, Alive, ListenerFields, EncodeField, WriteU16;
    assert EncodeFields(n, [fs[1]]) == EncodeField(n, fs[1]);
    Assoc(s, EncodeField(n, fs[0]), EncodeField(n, fs[1]));
  }

  lemma SavedFromEmpty(n: Order, paused: nat, ls: seq<Listener>)
    requires AllComplete(ls)
    ensures Encode(n, n, []) + EncodeFields(n, PutFactory(n, paused, ls)) == SaveFactory(n, paused, ls)
  {
    EncodeNative(n, []);
    EncodeNative(n, PutFactory(n, paused, ls));
    assert EncodeFields(n, []) == [] && [Tag(n)] + [] == [Tag(n)];
  }

  lemma NestedFits(n: Order, all: seq<Field>, k: nat, l: Listener)
    requires k < |all| && Complete(l) && all[k] == ListenerField(n, l) && |EncodeFields(n, all)| < U32_LIMIT / 2
    ensures |EncodeFields(n, PutListener(n, l))| < U32_LIMIT / 2
  {
    NextBlock(n, all, k);
    EncodeNative(n, PutListener(n, l));
    hide Encode, PutListener, EncodeFields, WriteU32;
  }

  // ---- get_state ----

  /** The record can be read: it is decoded already, or its buffer is well formed. */
  ghost predicate Open(file: Flat)
    reads file, file.buffer
  {
    file.Valid() && (file.data == [] ==> Readable(file.native, file.Bytes()))
  }

  /** What reading the record depends on. */
  ghost function ReaderOf(file: Flat): (r: Reader)
    requires Open(file)
    reads file, file.buffer
    ensures r.cur <= |r.fields|
  {
    if file.data != [] then Reader(file.data, file.decoded, file.success)
    else Reader(FieldsOf(file.native, file.Bytes()), 0, file.success)
  }

  method Read(file: Flat, name: Name, kind: Byte) returns (v: Option<Field>)
    requires Open(file) && NulFree(name)
    modifies file, file.buffer
    ensures Open(file) && file.buffer == old(file.buffer)
    ensures (v, ReaderOf(file)) == FactoryState.Get(old(ReaderOf(file)), name)
  {
    NulFreeIsWhole(name);
    hide FieldsOf, Readable, Decode, Encode, Search, CStr;
    v := file.Get(name, kind, false);
  }

  method GetEventState(file: Flat, types: Types) returns (event: Option<Event>)
    requires Open(file) && AllNamesNulFree(types)
    modifies file, file.buffer
    ensures Open(file) && file.buffer == old(file.buffer)
    ensures (event, ReaderOf(file)) == GetEvent(file.native, types, old(ReaderOf(file)))
  {
    hide Open, ReaderOf, FactoryState.Get, AsUint32, AsSint32, AsBool, AsString, FactoryState.GetAll;
    var kind := Read(file, ETP, T_STRING);
    if AsString(kind) !in types {
      return None;
    }
    if AsString(kind) != TIME_EVENT {
      var fields := ReadAll(file, types[AsString(kind)]);
      return Some(OtherEvent(AsString(kind), fields));
    }
    var repeat := Read(file, ERP, T_SINT32);
    var success := IsSuccess(file);
    if !success {
      return Some(TimeEvent(AsSint32(file.native, repeat), 0, 0, false));
    }
    var time := Read(file, TTM, T_UINT32);
    var interval := Read(file, TIN, T_UINT32);
    var absolute := Read(file, TAB, T_BOOL);
    event := Some(TimeEvent(AsSint32(file.native, repeat), AsUint32(file.native, time),
                            AsUint32(file.native, interval), AsBool(absolute)));
  }

  /** The names are those of the source, without NUL. */
  predicate AllNamesNulFree(types: Types) {
    forall kind, i | kind in types && 0 <= i < |types[kind]| :: NulFree(types[kind][i])
  }

  /** What the event of another type reads of its state. */
  method ReadAll(file: Flat, names: seq<Name>) returns (fields: seq<Option<Field>>)
    requires Open(file) && forall i :: 0 <= i < |names| ==> NulFree(names[i])
    modifies file, file.buffer
    ensures Open(file) && file.buffer == old(file.buffer)
    ensures (fields, ReaderOf(file)) == FactoryState.GetAll(old(ReaderOf(file)), names)
  {
    hide Open, ReaderOf, FactoryState.Get, NulFree;
    ghost var all := FactoryState.GetAll(ReaderOf(file), names);
    fields := [];
    var i := 0;
    assert names[0..] == names;
    while i < |names|
      invariant i <= |names| && Open(file) && file.buffer == old(file.buffer)
      invariant var rest := FactoryState.GetAll(ReaderOf(file), names[i..]);
                fields + rest.0 == all.0 && rest.1 == all.1
    {
      assert names[i..][0] == names[i] && names[i..][1..] == names[i + 1..];
      var f := Read(file, names[i], T_STRING);  // the type asked for only matters for a warning
      fields := fields + [f];
      i := i + 1;
    }
    assert names[i..] == [] && fields + [] == fields;
  }

  method IsSuccess(file: Flat) returns (success: bool)
    requires Open(file)
    ensures success == ReaderOf(file).success
  {
    success := file.success;
  }

  method GetListenerState(file: Flat, types: Types) returns (r: Loaded)
    requires Open(file) && AllNamesNulFree(types)
    modifies file, file.buffer
    ensures r == GetListener(file.native, types, old(ReaderOf(file)))
  {
    hide Open, ReaderOf, FactoryState.Get, GetEvent, AsUint8, AsUint16, AsBool, AsString;
    var kind := Read(file, LTP, T_UINT8);
    if AsUint8(kind) == LISTENER_PYTHON {
      return Foreign;
    }
    if AsUint8(kind) != LISTENER_CXX {
      return Unknown;
    }
    var id := Read(file, LID, T_STRING);
    var paused := Read(file, LPS, T_UINT16);
    var has := Read(file, LEV, T_BOOL);
    var event := None;
    if AsBool(has) {
      event := GetEventState(file, types);
    }
    var success := IsSuccess(file);
    r := if success then Loaded(Listener(AsString(id), AsUint16(file.native, paused), event)) else Failed;
  }

  /** Opens the buffer of a nested record. */
  method OpenNested(n: Order, content: seq<Byte>) returns (file: Flat)
    requires IsRecord(n, content)
    ensures fresh(file) && fresh(file.buffer) && file.native == n && Open(file)
    ensures ReaderOf(file) == Reader(Decode(n, content).value, 0, true)
  {
    hide DecodeFields;
    file := new Flat.FromBuffer(n, content);
    if |content| == 1 {
      OneByte(n, content);
    }
  }

  /** The record get_flat returns when there is none. */
  method EmptyRecord(n: Order) returns (file: Flat)
    ensures fresh(file) && fresh(file.buffer) && file.native == n && Open(file)
    ensures IsRecord(n, Encode(n, n, [])) && Decode(n, Encode(n, n, [])).value == ReaderOf(file).fields
    ensures ReaderOf(file).cur == 0
  {
    file := new Flat(n, 32);
    OneByte(n, Encode(n, n, []));
  }

  lemma OneByte(n: Order, s: seq<Byte>)
    requires |s| == 1
    ensures Decode(n, s) == Some([])
  {
    assert s[1..] == [];
  }

  class Factory {
    var listeners: seq<Listener>
    var paused: nat
    var registered: seq<Listener>  // those handed to the event manager, in order

    constructor ()
      ensures listeners == [] && paused == 0 && registered == []
    {
      listeners, paused, registered := [], 0, [];
    }

    method PutState(file: Flat)
      requires file.Valid() && AllComplete(listeners) && Fits(file.native, listeners)
      requires CanPutAll(file.native, file.capacity, file.size, PutFactory(file.native, paused, listeners))
      modifies file, file.buffer
      ensures file.Valid()
      ensures file.Bytes() == old(file.Bytes()) + EncodeFields(file.native, PutFactory(file.native, paused, listeners))
      ensures old(file.Bytes()) == Encode(file.native, file.native, []) ==>
                file.Bytes() == SaveFactory(file.native, paused, listeners)
    {
      hide *;
      SizeIs(file);
      ghost var s, fs := file.Bytes(), PutFactory(file.native, paused, listeners);
      FactoryBlocks(file.native, paused, listeners, s);
      Append(file, Field(FPS, T_UINT16, WriteU16(file.native, paused)), [fs[1]]);
      SizeIs(file);
      ghost var bytes := file.Bytes();
      var nested := NestedField(file.native);
      assert file.Bytes() == bytes;
      Append(file, nested, []);
    }

    /** The record of the listeners, as the field to put. */
    method NestedField(n: Order) returns (f: Field)
      requires AllComplete(listeners) && Fits(n, listeners)
      ensures f == PutFactory(n, paused, listeners)[1]
    {
      hide Encode, EncodeFields, ListenerFields, Alive, AllComplete;
      var records := PutListeners(n);
      SizeIs(records);
      f := Field(FLS, T_FLAT, records.buffer[..records.size]);
    }

    /** The loop of put_state. */
    method PutListeners(n: Order) returns (records: Flat)
      requires AllComplete(listeners) && |EncodeFields(n, ListenerFields(n, Alive(listeners)))| < U32_LIMIT / 2
      ensures fresh(records) && fresh(records.buffer) && records.Valid()
      ensures records.Bytes() == Encode(n, n, ListenerFields(n, Alive(listeners)))
    {
      ghost var all := ListenerFields(n, Alive(listeners));
      hide *;
      records := new Flat(n, 32);
      HoldsNone(records, all);
      assert listeners[..0] == [];
      AliveAt(listeners, 0);
      AliveNone();
      var i := 0;
      while i < |listeners|
        invariant i <= |listeners| && fresh(records.buffer) && records.native == n
        invariant AllComplete(listeners[..i]) && Holds(records, all, |Alive(listeners[..i])|)
      {
        PutNextListener(records, i);
        i := i + 1;
      }
      assert listeners[..i] == listeners;
      HoldsAll(records, all);
    }

    /** One turn of that loop. */
    method PutNextListener(records: Flat, i: nat)
      requires AllComplete(listeners) && i < |listeners| && AllComplete(listeners[..i])
      requires Holds(records, ListenerFields(records.native, Alive(listeners)), |Alive(listeners[..i])|)
      modifies records, records.buffer
      ensures AllComplete(listeners[..i + 1])
      ensures Holds(records, ListenerFields(records.native, Alive(listeners)), |Alive(listeners[..i + 1])|)
      ensures records.buffer == old(records.buffer) || fresh(records.buffer)
    {
      ghost var all, k := ListenerFields(records.native, Alive(listeners)), |Alive(listeners[..i])|;
      AliveAt(listeners, i);
      var l := listeners[i];
      if !Destroyed(l) {
        ListenerFieldAt(records.native, Alive(listeners), k);
        NestedFits(records.native, all, k, l);
        assert ListenerField(records.native, l) == Field([], T_FLAT, ListenerField(records.native, l).content);
        hide *;
        var record := PutListenerState(records.native, l);
        SizeIs(record);
        var content := record.buffer[..record.size];
        PutNext(records, all, k, Field([], T_FLAT, content));
      }
    }

    method GetState(file: Flat, types: Types) returns (ok: bool)
      requires Open(file) && AllNamesNulFree(types) && LoadFactory(file.native, types, ReaderOf(file)).Outcome?
      modifies this, file, file.buffer
      ensures paused == LoadedPause(file.native, old(ReaderOf(file)))
      ensures Outcome(ok, listeners, registered)
           == Prepend(old(listeners), old(registered), LoadFactory(file.native, types, old(ReaderOf(file))))
      ensures old(listeners) <= listeners && old(registered) <= registered
      ensures UnpausedFrom(listeners[|old(listeners)|..], registered[|old(registered)|..])
    {
      hide *;
      Registered(file.native, types, ReaderOf(file), listeners, registered);
      LoadsNested(file.native, types, ReaderOf(file));
      var records := OpenListeners(file);
      ok := GetNested(records, types);
    }

    /** Its first half: the pause count, and the record of the listeners or an empty one. */
    method OpenListeners(file: Flat) returns (records: Flat)
      requires Open(file) && IsRecord(file.native, Nested(file.native, ReaderOf(file)))
      modifies this`paused, file, file.buffer
      ensures paused == LoadedPause(file.native, old(ReaderOf(file)))
      ensures fresh(records) && fresh(records.buffer) && records.native == file.native && Open(records)
      ensures ReaderOf(records).cur == 0
      ensures ReaderOf(records).fields == Decode(file.native, Nested(file.native, old(ReaderOf(file)))).value
    {
      hide Open, ReaderOf, FactoryState.Get, IsRecord, Decode, Encode;
      var n := file.native;
      var f := Read(file, FPS, T_UINT16);
      paused := AsUint16(n, f);
      f := Read(file, FLS, T_FLAT);
      if f.Some? {
        records := OpenNested(n, f.value.content);
      } else {
        records := EmptyRecord(n);
      }
    }

    /** Takes a loaded listener in; one that is not paused is handed to the event manager. */
    method Enter(l: Listener)
      modifies this`listeners, this`registered
      ensures listeners == old(listeners) + [l]
      ensures registered == old(registered) + if l.paused == 0 then [l] else []
    {
      listeners := listeners + [l];
      if l.paused == 0 {
        registered := registered + [l];
      }
    }

    /** Opens the record of one listener and reads it. */
    method LoadListener(n: Order, types: Types, content: seq<Byte>) returns (r: Loaded)
      requires IsRecord(n, content) && AllNamesNulFree(types)
      ensures r == GetListener(n, types, Reader(Decode(n, content).value, 0, true))
    {
      hide *;
      var state := OpenNested(n, content);
      r := GetListenerState(state, types);
    }

    /** The loop of get_state. */
    method GetNested(records: Flat, types: Types) returns (ok: bool)
      requires AllNamesNulFree(types) && Open(records) && ReaderOf(records).cur == 0
      requires GetListeners(records.native, types, ReaderOf(records).fields).Outcome?
      modifies this`listeners, this`registered, records, records.buffer
      ensures Outcome(ok, listeners, registered)
           == Prepend(old(listeners), old(registered),
                      GetListeners(records.native, types, old(ReaderOf(records)).fields))
    {
      ghost var n, fs := records.native, ReaderOf(records).fields;
      ghost var all := Prepend(listeners, registered, GetListeners(n, types, fs));
      ghost var i := 0;
      assert fs[0..] == fs;
      hide *;
      while true  // until next reports the end
        invariant Open(records) && ReaderOf(records).fields == fs && ReaderOf(records).cur == i <= |fs|
        invariant records.buffer == old(records.buffer)
        invariant all == Prepend(listeners, registered, GetListeners(n, types, fs[i..])) && all.Outcome?
        decreases |fs| - i
      {
        var f := ReadNext(records);
        NextListener(n, types, fs, i, listeners, registered);
        if f.None? {
          return true;
        }
        if f.value.kind != T_FLAT {
          return false;
        }
        var r := LoadListener(records.native, types, f.value.content);
        match r {
          case Unknown =>
          case Failed => return false;
          case Loaded(l) =>
            Enter(l);
        }
        i := i + 1;
      }
    }
  }

  lemma LoadsNested(n: Order, types: Types, r: Reader)
    requires r.cur <= |r.fields| && LoadFactory(n, types, r).Outcome?
    ensures IsRecord(n, Nested(n, r)) && Decode(n, Nested(n, r)).Some?
    ensures LoadFactory(n, types, r) == GetListeners(n, types, Decode(n, Nested(n, r)).value)
  {
    hide GetListeners, Nested, Decode;
  }

  /** What is registered on loading are the unpaused ones of the listeners that were added. */
  lemma Registered(n: Order, types: Types, r: Reader, ls: seq<Listener>, rs: seq<Listener>)
    requires r.cur <= |r.fields| && LoadFactory(n, types, r).Outcome?
    ensures var all := Prepend(ls, rs, LoadFactory(n, types, r));
            && ls <= all.listeners && rs <= all.registered
            && UnpausedFrom(all.listeners[|ls|..], all.registered[|rs|..])
  {
    hide GetListeners, Nested, Decode, UnpausedFrom;
    var loaded := LoadFactory(n, types, r);
    RegisteredAreUnpaused(n, types, Decode(n, Nested(n, r)).value);
    UnpausedAre(loaded.listeners);
    assert (ls + loaded.listeners)[|ls|..] == loaded.listeners;
    assert (rs + loaded.registered)[|rs|..] == loaded.registered;
  }

  /** What one turn of the loop makes of the outcome. */
  lemma NextListener(n: Order, types: Types, fs: seq<Field>, i: nat, ls: seq<Listener>, rs: seq<Listener>)
    requires i <= |fs| && GetListeners(n, types, fs[i..]).Outcome?
    ensures var all := Prepend(ls, rs, GetListeners(n, types, fs[i..]));
            if i == |fs| then all == Outcome(true, ls, rs)
            else if fs[i].kind != T_FLAT then all == Outcome(false, ls, rs)
            else
              && IsRecord(n, fs[i].content)
              && match GetListener(n, types, Reader(Decode(n, fs[i].content).value, 0, true))
                 case Foreign => false
                 case Failed => all == Outcome(false, ls, rs)
                 case Unknown => all == Prepend(ls, rs, GetListeners(n, types, fs[i + 1..]))
                 case Loaded(l) =>
                   all == Prepend(ls + [l], rs + RegisteredOf(l), GetListeners(n, types, fs[i + 1..]))
  {
    hide GetListener, Decode;
    if i < |fs| && fs[i].kind == T_FLAT {
      assert fs[i..][1..] == fs[i + 1..];
      var r := GetListener(n, types, Reader(Decode(n, fs[i].content).value, 0, true));
      if r.Loaded? {
        PrependTwice(ls, rs, [r.listener], RegisteredOf(r.listener), GetListeners(n, types, fs[i + 1..]));
      }
    }
  }

  method ReadNext(file: Flat) returns (f: Option<Field>)
    requires Open(file)
    modifies file, file.buffer
    ensures Open(file) && file.buffer == old(file.buffer)
    ensures var r := old(ReaderOf(file));
            && ReaderOf(file).fields == r.fields
            && if r.cur < |r.fields| then f == Some(r.fields[r.cur]) && ReaderOf(file).cur == r.cur + 1
               else f == None && ReaderOf(file).cur == r.cur
  {
    hide FieldsOf, Readable, Decode, Encode;
    f := file.Next();
  }

  lemma PrependTwice(a: seq<Listener>, ra: seq<Listener>, b: seq<Listener>, rb: seq<Listener>, rest: Outcome)
    ensures Prepend(a, ra, Prepend(b, rb, rest)) == Prepend(a + b, ra + rb, rest)
  {
    match rest
    case Undefined =>
    case Outcome(ok, ls, rs) =>
      Assoc(a, b, ls);
      Assoc(ra, rb, rs);
  }

  lemma AliveNone()
    ensures AllComplete([]) && Alive([]) == []
  {
  }
}
