/** The registry of event types: by name, and by the small id that events cache. */
module EventTypes {
  import opened Common

  const NO_TYPE := 255
  const IDS := 0x100  // an id is a u_int8

  /** A registered type: its id, its manager, and the function that creates its events. */
  datatype EventType = EventType(id: nat, manager: nat, creator: nat)

  datatype Registry = Registry(named: map<string, EventType>, types: seq<Option<EventType>>)

  function Register(r: Registry, name: string, manager: nat, creator: nat): Registry {
    if name in r.named then r
    else
      var t := EventType(|r.types| % IDS, manager, creator);
      Registry(r.named[name := t], r.types + [Some(t)])
  }

  function Remove(r: Registry, name: string): Registry {
    if name in r.named then
      var id := r.named[name].id;
      Registry(r.named - {name}, if id < |r.types| then r.types[id := None] else r.types)
    else r
  }

  function GetId(r: Registry, name: string): nat {
    if name in r.named then r.named[name].id else NO_TYPE
  }

  function GetManager(r: Registry, id: nat): Option<nat> {
    if id < |r.types| && r.types[id].Some? then Some(r.types[id].value.manager) else None
  }

  /** The static tables and the functions on them. */
  class Types {
    var namedTypes: map<string, EventType>
    var byId: seq<Option<EventType>>

    function View(): Registry
      reads this
    {
      Registry(namedTypes, byId)
    }

    /** Every id is an index, even one that wrapped around. */
    predicate Valid()
      reads this
    {
      forall name :: name in namedTypes ==> namedTypes[name].id < |byId|
    }

    constructor ()
      ensures Valid() && View() == Registry(map[], [])
    {
      namedTypes, byId := map[], [];
    }

    method RegisterType(name: string, manager: nat, creator: nat)
      requires Valid()
      modifies this
      ensures Valid() && View() == Register(old(View()), name, manager, creator)
      ensures name in old(namedTypes) ==> namedTypes == old(namedTypes) && byId == old(byId)
      ensures name !in old(namedTypes) ==>
        && namedTypes == old(namedTypes)[name := EventType(|old(byId)| % 256, manager, creator)]
        && byId == old(byId) + [Some(namedTypes[name])]
    {
      if name !in namedTypes {
        namedTypes := namedTypes[name := EventType(|byId| % IDS, manager, creator)];
        byId := byId + [Some(namedTypes[name])];
      }
    }

    method RemoveType(name: string)
      requires Valid()
      modifies this
      ensures Valid() && View() == Remove(old(View()), name)
      ensures namedTypes == old(namedTypes) - {name}
      ensures byId == if name in old(namedTypes) then old(byId)[old(namedTypes)[name].id := None] else old(byId)
    {
      if name in namedTypes {
        byId := byId[namedTypes[name].id := None];
        namedTypes := namedTypes - {name};
      }
    }
  }

  // ---- whole runs ----

  datatype Op = Add(name: string, manager: nat, creator: nat) | Drop(name: string)

  function Step(r: Registry, op: Op): Registry {
    match op
    case Add(name, manager, creator) => Register(r, name, manager, creator)
    case Drop(name) => Remove(r, name)
  }

  function Steps(r: Registry, ops: seq<Op>): Registry
    decreases |ops|
  {
    if ops == [] then r else Steps(Step(r, ops[0]), ops[1..])
  }

  /** How many of the calls are registrations. */
  function Adds(ops: seq<Op>): nat
    decreases |ops|
  {
    if ops == [] then 0 else (if ops[0].Add? then 1 else 0) + Adds(ops[1..])
  }

  /** Each name's entry is live at its own id. */
  predicate NamesAreLive(r: Registry) {
    forall name :: name in r.named ==>
      r.named[name].id < |r.types| && r.types[r.named[name].id] == Some(r.named[name])
  }

  /** Each live entry has its own index for id and belongs to some name. */
  predicate LiveAreNamed(r: Registry) {
    forall i :: 0 <= i < |r.types| && r.types[i].Some? ==>
      r.types[i].value.id == i && Owned(r, r.types[i].value)
  }

  predicate Owned(r: Registry, t: EventType) {
    exists name :: name in r.named && r.named[name] == t
  }

  predicate DistinctIds(r: Registry) {
    forall a, b :: a in r.named && b in r.named && r.named[a].id == r.named[b].id ==> a == b
  }

  /** Names and ids are inverse on live types. */
  predicate Inverse(r: Registry) {
    NamesAreLive(r) && LiveAreNamed(r) && DistinctIds(r)
  }

  /** Every entry of `r` is still where it was in `r'`, or cleared. */
  predicate KeptOrCleared(r: Registry, r': Registry) {
    && |r.types| <= |r'.types|
    && forall i :: 0 <= i < |r.types| ==> r'.types[i] == None || r'.types[i] == r.types[i]
  }

  lemma AddInverse(r: Registry, name: string, manager: nat, creator: nat)
    requires Inverse(r) && |r.types| < IDS
    ensures Inverse(Register(r, name, manager, creator))
  {
    var r' := Register(r, name, manager, creator);
    forall i | 0 <= i < |r'.types| && r'.types[i].Some?
      ensures Owned(r', r'.types[i].value)
    {
      if i < |r.types| {
        assert Owned(r, r.types[i].value);
        var n :| n in r.named && r.named[n] == r.types[i].value;
        assert n in r'.named && r'.named[n] == r.named[n];
      } else {
        assert name in r'.named;
      }
    }
  }

  lemma DropInverse(r: Registry, name: string)
    requires Inverse(r)
    ensures Inverse(Remove(r, name))
  {
    var r' := Remove(r, name);
    forall i | 0 <= i < |r'.types| && r'.types[i].Some?
      ensures Owned(r', r'.types[i].value)
    {
      assert Owned(r, r.types[i].value);
      var n :| n in r.named && r.named[n] == r.types[i].value;
      assert n in r'.named;
    }
  }

  lemma StepInverse(r: Registry, op: Op)
    requires Inverse(r) && |r.types| + Adds([op]) <= IDS
    ensures Inverse(Step(r, op)) && |Step(r, op).types| <= |r.types| + Adds([op])
  {
    match op
    case Add(name, manager, creator) => AddInverse(r, name, manager, creator); hide Inverse;
    case Drop(name) => DropInverse(r, name); hide Inverse;
  }

  /** Names and ids stay inverse over any run of at most 256 registrations in all. */
  lemma {:induction false} RunInverse(r: Registry, ops: seq<Op>)
    requires Inverse(r) && |r.types| + Adds(ops) <= IDS
    ensures Inverse(Steps(r, ops)) && |Steps(r, ops).types| <= |r.types| + Adds(ops)
    decreases |ops|
  {
    if ops != [] {
      StepInverse(r, ops[0]);
      hide Inverse, Step;
      RunInverse(Step(r, ops[0]), ops[1..]);
    }
  }

  /** An entry is only ever left where it is or cleared, over any run, even if ids wrap around on the way. */
  lemma {:induction false} RunKeepsOrClears(r: Registry, ops: seq<Op>)
    ensures KeptOrCleared(r, Steps(r, ops))
    decreases |ops|
  {
    if ops != [] {
      assert KeptOrCleared(r, Step(r, ops[0]));
      hide Step;
      RunKeepsOrClears(Step(r, ops[0]), ops[1..]);
    }
  }

  /** Registering keeps names and ids inverse exactly if the name is known or an id is left. */
  lemma RegisterKeepsInverseIff(r: Registry, name: string, manager: nat, creator: nat)
    requires Inverse(r)
    ensures Inverse(Register(r, name, manager, creator)) <==> name in r.named || |r.types| < IDS
  {
    if |r.types| < IDS {
      AddInverse(r, name, manager, creator);
    } else if name !in r.named {
      var r' := Register(r, name, manager, creator);
      assert r'.types[|r.types|].Some? && r'.types[|r.types|].value.id != |r.types|;
      hide NamesAreLive, DistinctIds, Owned;
    }
  }

  /**
   * An id an event has cached stays safe: whatever is removed and registered afterwards, it resolves to
   * the manager of the type it was given for, or to none.
   */
  lemma CachedIdSafe(r: Registry, name: string, ops: seq<Op>)
    requires NamesAreLive(r) && name in r.named
    ensures GetManager(r, GetId(r, name)) == Some(r.named[name].manager)
    ensures var m := GetManager(Steps(r, ops), GetId(r, name));
            m == None || m == Some(r.named[name].manager)
  {
    RunKeepsOrClears(r, ops);
  }

  /** A new type resolves to its own manager exactly if its id did not wrap around onto another type. */
  lemma NewTypeResolvesIff(r: Registry, name: string, manager: nat, creator: nat)
    requires name !in r.named
    ensures var r' := Register(r, name, manager, creator);
            GetManager(r', GetId(r', name)) == Some(manager)
            <==> |r.types| < IDS || GetManager(r, |r.types| % IDS) == Some(manager)
  {
  }

  /**
   * A removed type is gone: its name is unknown, and every other name and id is what it was. Its id, which
   * events may have cached, resolves to nothing from then on, whatever is registered or removed later.
   */
  lemma RemovedTypeGone(r: Registry, name: string, ops: seq<Op>)
    requires name in r.named && r.named[name].id < |r.types|
    ensures GetManager(Steps(Remove(r, name), ops), GetId(r, name)) == None
    ensures var r' := Remove(r, name);
            && name !in r'.named && GetId(r', name) == 255
            && (forall other :: other != name ==> GetId(r', other) == GetId(r, other))
            && (forall other :: other != name && other in r.named ==>
                  other in r'.named && r'.named[other] == r.named[other])
            && (forall id :: id != GetId(r, name) ==> GetManager(r', id) == GetManager(r, id))
  {
    RunKeepsOrClears(Remove(r, name), ops);
  }

  /** Every other name still resolves to its manager exactly if none of them shares the id that was cleared. */
  lemma OthersResolveIff(r: Registry, name: string)
    requires NamesAreLive(r) && name in r.named
    ensures var r' := Remove(r, name);
            (forall other :: other in r.named && other != name ==>
               GetManager(r', GetId(r', other)) == Some(r.named[other].manager))
            <==> forall other :: other in r.named && other != name ==> r.named[other].id != r.named[name].id
  {
    var r' := Remove(r, name);
    forall other | other in r.named && other != name
      ensures GetManager(r', GetId(r', other)) == Some(r.named[other].manager)
         <==> r.named[other].id != r.named[name].id
    {
      RemovedTypeGone(r, name, []);
      assert r.types[r.named[other].id] == Some(r.named[other]);
    }
  }

  /** A name keeps the entry it was first registered with until it is removed, whatever else happens. */
  lemma {:induction false} NameKept(r: Registry, name: string, ops: seq<Op>)
    requires name in r.named && Drop(name) !in ops
    ensures name in Steps(r, ops).named && Steps(r, ops).named[name] == r.named[name]
    decreases |ops|
  {
    if ops != [] {
      assert ops[0] in ops && ops[0] != Drop(name);
      NameKept(Step(r, ops[0]), name, ops[1..]);
    }
  }

  /** The id returned for an unknown name resolves to no manager exactly until a 256th type is live. */
  lemma UnknownResolvesIff(r: Registry, name: string)
    requires name !in r.named
    ensures GetManager(r, GetId(r, name)) == None <==> |r.types| < IDS || r.types[NO_TYPE] == None
  {
  }
}
