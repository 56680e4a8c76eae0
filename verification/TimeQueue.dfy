/** The queue of time events, as values: what one raise does to it. */
module TimeQueue {
  import opened Common
  import opened CatchUps

  /** A registered listener and its time event. `connected`: a callback is attached. */
  datatype Alarm = Alarm(id: nat, time: U32, interval: U32, repeat: int, connected: bool)

  /** set_repeat: the count is only taken along with a positive interval. */
  function Retimed(a: Alarm, interval: U32, count: int): Alarm {
    a.(interval := interval, repeat := if interval > 0 then count else a.repeat)
  }

  /** The callback runs. */
  predicate Runs(a: Alarm) {
    a.connected && a.repeat != 0
  }

  /** The catch-up after the callback ends. */
  predicate Catches(a: Alarm, now: int) {
    Runs(a) && a.interval > 0 ==> now < Top(a.time, a.interval)
  }

  /** What raise_event of a listener leaves of its event, if it ends. */
  ghost function Fire(a: Alarm, now: int): Alarm {
    if Runs(a) then
      a.(repeat := if a.repeat > 0 then a.repeat - 1 else a.repeat,
         time := if a.interval > 0 then CaughtUp(a.time, a.interval, now) else a.time)
    else if !a.connected then a.(repeat := 0)
    else a
  }

  /** add: behind every alarm that is not earlier. The back of the list is the earliest alarm. */
  function Insert(q: seq<Alarm>, a: Alarm): seq<Alarm> {
    if q == [] || a.time > q[0].time then [a] + q else [q[0]] + Insert(q[1..], a)
  }

  /**
   * No due event is raised without end: none repeats forever without an interval, and none steps over the
   * whole range of a u_int32 without ever being past the clock.
   */
  predicate NoSpin(q: seq<Alarm>, t: int, now: int) {
    forall i :: 0 <= i < |q| && q[i].time <= t ==> Settles(q[i], now)
  }

  predicate Settles(a: Alarm, now: int) {
    (a.connected && a.interval == 0 ==> a.repeat >= 0) && Catches(a, now)
  }

  /** How often an alarm can still be taken off the back of the queue. */
  function Weight(a: Alarm, t: int): nat {
    if a.time > t then 0
    else if !a.connected || a.interval > 0 || a.repeat <= 0 then 1
    else 1 + a.repeat
  }

  function Measure(q: seq<Alarm>, t: int): nat {
    if q == [] then 0 else Weight(q[0], t) + Measure(q[1..], t)
  }

  /** The queue after a raise, and the callbacks run, in order. */
  datatype Raised = Raised(queue: seq<Alarm>, calls: seq<nat>)

  function Due(q: seq<Alarm>, t: int): bool {
    q != [] && q[|q| - 1].time <= t
  }

  /** One turn of the loop of raise_event. */
  ghost function Turn(q: seq<Alarm>, t: int, now: int): Raised
    requires Due(q, t)
  {
    var a := q[|q| - 1];
    var b := Fire(a, now);
    Raised(if b.repeat != 0 then Insert(q[..|q| - 1], b) else q[..|q| - 1],
           if Runs(a) then [a.id] else [])
  }

  /** The whole loop; where it does not end, the queue is left as it is. */
  ghost function Raise(q: seq<Alarm>, t: int, now: int): Raised
    requires t <= now
    decreases Measure(q, t)
  {
    if !Due(q, t) || !NoSpin(q, t, now) then Raised(q, [])
    else
      var r := Turn(q, t, now);
      TurnShrinks(q, t, now);
      var rest := Raise(r.queue, t, now);
      Raised(rest.queue, r.calls + rest.calls)
  }

  // ---- termination ----

  lemma {:induction false} InsertMeasure(q: seq<Alarm>, a: Alarm, t: int)
    ensures Measure(Insert(q, a), t) == Measure(q, t) + Weight(a, t)
  {
    if q == [] || a.time > q[0].time {
      assert ([a] + q)[1..] == q;
    } else {
      InsertMeasure(q[1..], a, t);
      assert Insert(q, a)[1..] == Insert(q[1..], a);
    }
  }

  lemma {:induction false} InsertSettles(q: seq<Alarm>, a: Alarm, t: int, now: int)
    requires NoSpin(q, t, now) && (a.time <= t ==> Settles(a, now))
    ensures NoSpin(Insert(q, a), t, now)
  {
    hide Settles;
    if q == [] || a.time > q[0].time {
    } else {
      InsertSettles(q[1..], a, t, now);
    }
  }

  lemma {:induction false} LastMeasure(q: seq<Alarm>, t: int)
    requires q != []
    ensures Measure(q, t) == Measure(q[..|q| - 1], t) + Weight(q[|q| - 1], t)
  {
    if |q| > 1 {
      LastMeasure(q[1..], t);
      assert q[..|q| - 1][1..] == q[1..][..|q| - 2];
    } else {
      assert q[1..] == [] && q[..0] == [];
    }
  }

  lemma FireShrinks(a: Alarm, t: int, now: int)
    requires a.time <= t <= now && Settles(a, now)
    ensures var b := Fire(a, now);
            b.repeat != 0 ==> Weight(b, t) < Weight(a, t) && (b.time <= t ==> Settles(b, now))
  {
    if a.interval > 0 {
      CaughtUpIs(a.time, a.interval, now);
      hide Top, CaughtUp;
    }
  }

  /** Every turn of the loop makes the measure smaller, whatever is put back into the queue. */
  lemma TurnShrinks(q: seq<Alarm>, t: int, now: int)
    requires t <= now && NoSpin(q, t, now) && Due(q, t)
    ensures NoSpin(Turn(q, t, now).queue, t, now) && Measure(Turn(q, t, now).queue, t) < Measure(q, t)
  {
    var a := q[|q| - 1];
    LastMeasure(q, t);
    FireShrinks(a, t, now);
    hide Fire, Settles;
    InsertMeasure(q[..|q| - 1], Fire(a, now), t);
    InsertSettles(q[..|q| - 1], Fire(a, now), t, now);
  }

  /** `k` turns of the loop, or fewer if it ends before. None: the catch-up of one of them does not end. */
  ghost function Turns(q: seq<Alarm>, t: int, now: int, k: nat): Option<seq<Alarm>>
    decreases k
  {
    if k == 0 || !Due(q, t) then Some(q)
    else if !Catches(q[|q| - 1], now) then None
    else Turns(Turn(q, t, now).queue, t, now, k - 1)
  }

  /** The loop is through after at most `k` turns. */
  ghost predicate Through(q: seq<Alarm>, t: int, now: int, k: nat) {
    Turns(q, t, now, k).Some? && !Due(Turns(q, t, now, k).value, t)
  }

  /** A due event that is not raised to an end. */
  predicate Sticks(a: Alarm, t: int, now: int) {
    a.time <= t && !Settles(a, now)
  }

  lemma TurnKeepsSticking(q: seq<Alarm>, t: int, now: int, i: nat) returns (j: nat)
    requires Sorted(q) && Due(q, t) && i < |q| && Sticks(q[i], t, now) && Catches(q[|q| - 1], now)
    ensures var r := Turn(q, t, now).queue;
            Sorted(r) && j < |r| && Sticks(r[j], t, now)
  {
    var last := |q| - 1;
    var front, b, r := q[..last], Fire(q[last], now), Turn(q, t, now).queue;
    InsertSorted(front, b);
    assert i == last ==> b == q[i] && b.repeat != 0;
    assert i < last ==> front[i] == q[i] && front[i] in multiset(front);
    hide Fire, Insert, Sorted, Sticks, Catches;
    assert q[i] in multiset(r);
    j := Position(r, q[i]);
  }

  lemma Position(q: seq<Alarm>, a: Alarm) returns (j: nat)
    requires a in multiset(q)
    ensures j < |q| && q[j] == a
  {
    j :| 0 <= j < |q| && q[j] == a;
  }

  /** With such an event the loop is never through. */
  lemma {:induction false} SpinsForever(q: seq<Alarm>, t: int, now: int, k: nat, i: nat)
    requires Sorted(q) && i < |q| && Sticks(q[i], t, now)
    ensures !Through(q, t, now, k)
    decreases k
  {
    assert q[|q| - 1].time <= q[i].time;
    if k > 0 && Catches(q[|q| - 1], now) {
      var j := TurnKeepsSticking(q, t, now, i);
      hide Turn, Sorted, Catches;
      SpinsForever(Turn(q, t, now).queue, t, now, k - 1, j);
    }
  }

  lemma {:induction false} TurnsEnd(q: seq<Alarm>, t: int, now: int, k: nat)
    requires t <= now && NoSpin(q, t, now) && Measure(q, t) <= k
    ensures Through(q, t, now, k)
    decreases k
  {
    if Due(q, t) {
      TurnShrinks(q, t, now);
      assert Settles(q[|q| - 1], now);
      hide Turn, Measure;
      TurnsEnd(Turn(q, t, now).queue, t, now, k - 1);
    }
  }

  /**
   * raise_event ends exactly if no due event repeats forever without an interval, and every due event that
   * is called and has one can step past the clock.
   */
  lemma RaiseEndsIff(q: seq<Alarm>, t: int, now: int)
    requires t <= now && Sorted(q)
    ensures (exists k :: Through(q, t, now, k)) <==> NoSpin(q, t, now)
  {
    if NoSpin(q, t, now) {
      TurnsEnd(q, t, now, Measure(q, t));
    } else {
      var i :| 0 <= i < |q| && Sticks(q[i], t, now);
      forall k: nat
        ensures !Through(q, t, now, k)
      {
        SpinsForever(q, t, now, k, i);
      }
    }
  }

  /** An event set to repeat forever keeps its count when it is then given an interval that is not allowed. */
  lemma RetimedEventSpins(time: U32, now: nat, k: nat)
    requires time <= now
    ensures var a := Retimed(Retimed(Alarm(0, time, 0, 1, true), 60, -1), 0, 1);
            !Through(Insert([], a), now, now, k)
  {
    var a := Alarm(0, time, 0, -1, true);
    assert Insert([], a) == [a] && Sticks([a][0], now, now);
    SpinsForever([a], now, now, k, 0);
  }

  /** An event close to the end of the range steps over it for ever, although it has a count and an interval. */
  lemma WrappedEventSpins(k: nat)
    ensures !Through([Alarm(0, 0xFFFF_FFF0, 0x20, 1, true)], 0xFFFF_FFF0, 0xFFFF_FFF0, k)
  {
    var a := Alarm(0, 0xFFFF_FFF0, 0x20, 1, true);
    NeverPast(0);
    CatchUpEndsIff(a.time, a.interval, 0xFFFF_FFF0);
    forall j: nat
      ensures !IsPast(a.time, a.interval, 0xFFFF_FFF0, j)
    {
      NeverPast(j);
    }
    hide Top;
    assert Sticks([a][0], 0xFFFF_FFF0, 0xFFFF_FFF0);
    SpinsForever([a], 0xFFFF_FFF0, 0xFFFF_FFF0, k, 0);
  }

  // ---- order ----

  predicate Sorted(q: seq<Alarm>) {
    forall i, j :: 0 <= i < j < |q| ==> q[i].time >= q[j].time
  }

  lemma {:induction false} InsertSorted(q: seq<Alarm>, a: Alarm)
    requires Sorted(q)
    ensures Sorted(Insert(q, a)) && multiset(Insert(q, a)) == multiset(q) + multiset{a}
  {
    if q == [] || a.time > q[0].time {
    } else {
      InsertSorted(q[1..], a);
      var r := Insert(q[1..], a);
      hide Insert;
      assert q == [q[0]] + q[1..];
      forall i | 0 <= i < |r|
        ensures r[i].time <= q[0].time
      {
        assert r[i] in multiset(r);
        assert r[i] in multiset(q[1..]) || r[i] == a;
      }
      SortedCons(q[0], r);
    }
  }

  lemma SortedCons(a: Alarm, r: seq<Alarm>)
    requires Sorted(r) && forall i :: 0 <= i < |r| ==> r[i].time <= a.time
    ensures Sorted([a] + r)
  {
  }

  /** A raise keeps the queue sorted and leaves no alarm that is due. */
  lemma {:induction false} RaiseSorted(q: seq<Alarm>, t: int, now: int)
    requires t <= now && NoSpin(q, t, now) && Sorted(q)
    ensures Sorted(Raise(q, t, now).queue)
    ensures forall i :: 0 <= i < |Raise(q, t, now).queue| ==> Raise(q, t, now).queue[i].time > t
    decreases Measure(q, t)
  {
    if Due(q, t) {
      TurnShrinks(q, t, now);
      var front := q[..|q| - 1];
      InsertSorted(front, Fire(q[|q| - 1], now));
      RaiseSorted(Turn(q, t, now).queue, t, now);
    }
  }

  // ---- every listener is served on its own ----

  predicate Distinct(q: seq<Alarm>) {
    forall i, j :: 0 <= i < j < |q| ==> q[i].id != q[j].id
  }

  function Lookup(q: seq<Alarm>, id: nat): Option<Alarm> {
    if q == [] then None else if q[0].id == id then Some(q[0]) else Lookup(q[1..], id)
  }

  function Count(calls: seq<nat>, id: nat): nat {
    multiset(calls)[id]
  }

  /** How often one raise calls back a listener. */
  function CallsOf(a: Alarm, t: int): nat {
    if a.time > t || !Runs(a) then 0
    else if a.interval > 0 then 1
    else if a.repeat > 0 then a.repeat
    else 0
  }

  /** What one raise leaves of a listener: None once its repeat count is used up or it has no callback. */
  ghost function AfterRaise(a: Alarm, t: int, now: int): Option<Alarm> {
    if a.time > t then Some(a)
    else if a.interval > 0 && Fire(a, now).repeat != 0 then Some(Fire(a, now))
    else None
  }

  ghost function AfterRaiseOpt(a: Option<Alarm>, t: int, now: int): Option<Alarm> {
    if a.None? then None else AfterRaise(a.value, t, now)
  }

  function CallsOfOpt(a: Option<Alarm>, t: int): nat {
    if a.None? then 0 else CallsOf(a.value, t)
  }

  lemma {:induction false} LookupInsert(q: seq<Alarm>, a: Alarm, id: nat)
    requires Lookup(q, a.id).None?
    ensures Lookup(Insert(q, a), id) == if id == a.id then Some(a) else Lookup(q, id)
  {
    if q == [] || a.time > q[0].time {
      assert ([a] + q)[1..] == q;
    } else {
      LookupInsert(q[1..], a, id);
      assert Insert(q, a)[1..] == Insert(q[1..], a);
    }
  }

  lemma {:induction false} LookupLast(q: seq<Alarm>, id: nat)
    requires q != [] && Distinct(q)
    ensures Lookup(q, id) == if id == q[|q| - 1].id then Some(q[|q| - 1]) else Lookup(q[..|q| - 1], id)
    ensures Lookup(q[..|q| - 1], q[|q| - 1].id).None?
  {
    if |q| > 1 {
      LookupLast(q[1..], id);
      assert q[..|q| - 1][1..] == q[1..][..|q| - 2];
    } else {
      assert q[1..] == [] && q[..0] == [];
    }
  }

  lemma {:induction false} LookupNone(q: seq<Alarm>, id: nat)
    requires Lookup(q, id).None?
    ensures forall i :: 0 <= i < |q| ==> q[i].id != id
  {
    if q != [] {
      LookupNone(q[1..], id);
      forall i | 0 <= i < |q|
        ensures q[i].id != id
      {
        assert i > 0 ==> q[i] == q[1..][i - 1];
      }
    }
  }

  lemma {:induction false} InsertDistinct(q: seq<Alarm>, a: Alarm)
    requires Distinct(q) && Lookup(q, a.id).None?
    ensures Distinct(Insert(q, a))
  {
    LookupNone(q, a.id);
    if q == [] || a.time > q[0].time {
    } else {
      InsertDistinct(q[1..], a);
      var r := Insert(q[1..], a);
      forall i | 0 <= i < |r|
        ensures r[i].id != q[0].id
      {
        InsertIds(q[1..], a, i);
      }
    }
  }

  lemma {:induction false} InsertIds(q: seq<Alarm>, a: Alarm, i: nat)
    requires i < |Insert(q, a)|
    ensures Insert(q, a)[i] == a || exists j :: 0 <= j < |q| && q[j] == Insert(q, a)[i]
  {
    if q == [] || a.time > q[0].time {
    } else if i > 0 {
      InsertIds(q[1..], a, i - 1);
      var x := Insert(q, a)[i];
      assert x == Insert(q[1..], a)[i - 1];
      if x != a {
        var j :| 0 <= j < |q[1..]| && q[1..][j] == x;
        assert q[j + 1] == x;
      }
    }
  }

  lemma TurnOnOne(q: seq<Alarm>, t: int, now: int, id: nat)
    requires t <= now && NoSpin(q, t, now) && Due(q, t) && Distinct(q)
    ensures var a, r := q[|q| - 1], Turn(q, t, now);
            && Distinct(r.queue)
            && Lookup(q, a.id) == Some(a)
            && Lookup(r.queue, id) == (if id != a.id then Lookup(q, id)
                                       else if Fire(a, now).repeat != 0 then Some(Fire(a, now)) else None)
            && Count(r.calls, id) == (if id == a.id && Runs(a) then 1 else 0)
  {
    var a := q[|q| - 1];
    LookupLast(q, id);
    LookupLast(q, a.id);
    if Fire(a, now).repeat != 0 {
      LookupInsert(q[..|q| - 1], Fire(a, now), id);
      InsertDistinct(q[..|q| - 1], Fire(a, now));
    }
  }

  lemma AfterTurn(a: Alarm, t: int, now: int)
    requires a.time <= t <= now && Settles(a, now)
    ensures var b := Fire(a, now);
            var rest := if b.repeat != 0 then Some(b) else None;
            && AfterRaise(a, t, now) == AfterRaiseOpt(rest, t, now)
            && CallsOf(a, t) == (if Runs(a) then 1 else 0) + CallsOfOpt(rest, t)
  {
    if a.interval > 0 {
      CaughtUpIs(a.time, a.interval, now);
      hide Top, CaughtUp;
    }
  }

  /** A raise treats every listener as if it were alone in the queue. */
  lemma {:induction false} RaiseDecomposes(q: seq<Alarm>, t: int, now: int, id: nat)
    requires t <= now && NoSpin(q, t, now) && Sorted(q) && Distinct(q)
    ensures Distinct(Raise(q, t, now).queue)
    ensures Lookup(Raise(q, t, now).queue, id) == AfterRaiseOpt(Lookup(q, id), t, now)
    ensures Count(Raise(q, t, now).calls, id) == CallsOfOpt(Lookup(q, id), t)
    decreases Measure(q, t)
  {
    if Due(q, t) {
      var a, r := q[|q| - 1], Turn(q, t, now);
      TurnShrinks(q, t, now);
      TurnSorted(q, t, now);
      TurnOnOne(q, t, now, id);
      RaiseTurn(q, t, now);
      if id == a.id {
        AfterTurn(a, t, now);
      }
      hide Fire, Runs, Turn, Raise, Insert, AfterRaise, CallsOf, Lookup, Distinct, Sorted, NoSpin, Measure, Due;
      RaiseDecomposes(r.queue, t, now, id);
      assert multiset(r.calls + Raise(r.queue, t, now).calls)
          == multiset(r.calls) + multiset(Raise(r.queue, t, now).calls);
    } else {
      NotDue(q, t, now, id);
    }
  }

  lemma TurnSorted(q: seq<Alarm>, t: int, now: int)
    requires Sorted(q) && Due(q, t)
    ensures Sorted(Turn(q, t, now).queue)
  {
    InsertSorted(q[..|q| - 1], Fire(q[|q| - 1], now));
    hide Fire, Insert;
  }

  lemma RaiseTurn(q: seq<Alarm>, t: int, now: int)
    requires t <= now && NoSpin(q, t, now) && Due(q, t)
    ensures var r := Turn(q, t, now);
            && NoSpin(r.queue, t, now)
            && Raise(q, t, now).queue == Raise(r.queue, t, now).queue
            && Raise(q, t, now).calls == r.calls + Raise(r.queue, t, now).calls
  {
    TurnShrinks(q, t, now);
    hide Turn, NoSpin;
  }

  lemma {:induction false} NotDue(q: seq<Alarm>, t: int, now: int, id: nat)
    requires Sorted(q) && !Due(q, t)
    ensures AfterRaiseOpt(Lookup(q, id), t, now) == Lookup(q, id) && CallsOfOpt(Lookup(q, id), t) == 0
  {
    if q != [] {
      NotDue(q[1..], t, now, id);
    }
  }
}
