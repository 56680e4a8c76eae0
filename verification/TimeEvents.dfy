/** Time events as objects: listeners that change in place, the manager's list, and the game clock. */
module TimeEvents {
  import opened Common
  import opened CatchUps
  import opened TimeQueue
  import opened TimeRun

  /** A C++ listener together with the time event it owns. */
  class Listener {
    const id: nat
    var time: U32
    var interval: U32
    var repeat: int
    var callback: bool

    constructor (id: nat, time: U32, interval: U32, repeat: int, callback: bool)
      ensures View() == Alarm(id, time, interval, repeat, callback)
    {
      this.id := id;
      this.time, this.interval, this.repeat, this.callback := time, interval, repeat, callback;
    }

    function View(): Alarm
      reads this
    {
      Alarm(id, time, interval, repeat, callback)
    }

    /** The interval becomes the given one; the count only if the interval is positive. */
    method SetRepeat(interval: U32, count: int)
      modifies this
      ensures View() == Retimed(old(View()), interval, count)
      ensures this.interval == interval && repeat == if interval > 0 then count else old(repeat)
      ensures time == old(time) && callback == old(callback)
    {
      this.interval := interval;
      if interval > 0 {
        repeat := count;
      }
    }

    /** Counts down, and moves the alarm by whole intervals past `now`, if it ever comes there. */
    method DoRepeat(now: nat)
      requires interval > 0 ==> now < Top(time, interval)
      modifies this
      ensures repeat == if old(repeat) > 0 then old(repeat) - 1 else old(repeat)
      ensures time == if interval > 0 then CaughtUp(old(time), interval, now) else old(time)
      ensures interval == old(interval) && callback == old(callback)
    {
      if repeat > 0 {
        repeat := repeat - 1;
      }
      if interval > 0 {
        hide *;
        while time <= now
          invariant interval == old(interval) && now < Top(time, interval)
          invariant CaughtUp(time, interval, now) == CaughtUp(old(time), interval, now)
          decreases Steps(time, interval, now)
          modifies this`time
        {
          OneStep(time, interval, now);
          FirstStep(time, interval);
          time := (time + interval) % U32_LIMIT;
        }
        CaughtUpIs(time, interval, now);
      }
    }

    /** Runs the callback if there is one and the event still repeats; returns the repeat count left. */
    method RaiseEvent(now: nat) returns (left: int, called: bool)
      requires Catches(View(), now)
      modifies this
      ensures View() == Fire(old(View()), now) && left == repeat
      ensures called == (callback && old(repeat) != 0) && callback == old(callback) && interval == old(interval)
      ensures repeat == if !callback then 0 else if old(repeat) > 0 then old(repeat) - 1 else old(repeat)
      ensures time == if called && interval > 0 then CaughtUp(old(time), interval, now) else old(time)
    {
      called := false;
      if callback && repeat != 0 {
        DoRepeat(now);
        called := true;
      } else if !callback {
        repeat := 0;
      }
      left := repeat;
    }
  }

  function Views(ls: seq<Listener>): (q: seq<Alarm>)
    reads ls
    ensures |q| == |ls|
  {
    seq(|ls|, i requires 0 <= i < |ls| reads ls => ls[i].View())
  }

  predicate NoDuplicates(ls: seq<Listener>) {
    forall i, j :: 0 <= i < j < |ls| ==> ls[i] != ls[j]
  }

  /** Behind every alarm that is not earlier, and in front of every one that is. */
  ghost predicate IsPlace(ls: seq<Listener>, i: nat, li: Listener)
    reads li, ls
  {
    && i <= |ls| && (forall j :: 0 <= j < i ==> li.time <= ls[j].time)
    && (i < |ls| ==> ls[i].time < li.time)
  }

  class TimeEventManager {
    var listeners: seq<Listener>
    var calls: seq<Call>  // the callbacks run so far

    constructor ()
      ensures listeners == [] && calls == []
    {
      listeners, calls := [], [];
    }

    /** Registers a listener behind all those whose alarm is not earlier. */
    method Add(li: Listener)
      requires NoDuplicates(listeners) && li !in listeners
      modifies this`listeners
      ensures NoDuplicates(listeners) && multiset(listeners) == multiset(old(listeners)) + multiset{li}
      ensures forall l | l in listeners :: l in old(listeners) || l == li
      ensures Views(listeners) == Insert(old(Views(listeners)), li.View())
      ensures exists i: nat | IsPlace(old(listeners), i, li) ::
                listeners == old(listeners)[..i] + [li] + old(listeners)[i..]
    {
      ghost var q := Views(listeners);
      var i := Place(li);
      hide *;
      Inserted(listeners, i, li);
      listeners := listeners[..i] + [li] + listeners[i..];
      assert Views(listeners) == q[..i] + ([li.View()] + q[i..]) by { ViewsInserted(old(listeners), i, li); }
    }

    /** The search loop of add. */
    method Place(li: Listener) returns (i: nat)
      ensures i <= |listeners| && IsPlace(listeners, i, li)
      ensures var q := Views(listeners); Insert(q, li.View()) == q[..i] + ([li.View()] + q[i..])
    {
      i := 0;
      while i < |listeners| && li.time <= listeners[i].time
        invariant i <= |listeners|
        invariant forall j :: 0 <= j < i ==> li.time <= listeners[j].time
      {
        i := i + 1;
      }
      InsertIs(Views(listeners), li.View(), i);
    }

    /** Unregisters a listener, if it is there. */
    method Remove(li: Listener)
      requires NoDuplicates(listeners)
      modifies this`listeners
      ensures NoDuplicates(listeners) && multiset(listeners) == multiset(old(listeners)) - multiset{li}
      ensures Sorted(old(Views(listeners))) ==> Sorted(Views(listeners))
    {
      var i := 0;
      while i < |listeners| && listeners[i] != li
        invariant i <= |listeners| && forall j :: 0 <= j < i ==> listeners[j] != li
        modifies {}
      {
        i := i + 1;
      }
      ghost var q := Views(listeners);
      if i < |listeners| {
        Erased(listeners, i);
        listeners := listeners[..i] + listeners[i + 1..];
        assert Views(listeners) == q[..i] + q[i + 1..];
        SortedErase(q, i);
      } else {
        assert li !in listeners;
      }
    }

    /** Raises every due listener; those that do not repeat any more are destroyed. */
    method RaiseEvent(t: nat, now: nat)
      requires t <= now && NoDuplicates(listeners) && NoSpin(Views(listeners), t, now)
      modifies this, listeners
      ensures NoDuplicates(listeners) && forall li | li in listeners :: li in old(listeners)
      ensures var r := Raise(old(Views(listeners)), t, now);
              Views(listeners) == r.queue && calls == old(calls) + Stamp(r.calls, t)
    {
      hide *;
      ghost var all := Raise(Views(listeners), t, now);
      ghost var before := calls;
      while |listeners| > 0 && listeners[|listeners| - 1].time <= t
        invariant NoDuplicates(listeners) && forall li | li in listeners :: li in old(listeners)
        invariant NoSpin(Views(listeners), t, now)
        invariant all.queue == Raise(Views(listeners), t, now).queue
        invariant before + Stamp(all.calls, t) == calls + Stamp(Raise(Views(listeners), t, now).calls, t)
        decreases Measure(Views(listeners), t)
      {
        BackIsDue(listeners, t, now);
        TurnShrinks(Views(listeners), t, now);
        RaiseTurn(Views(listeners), t, now);
        assert listeners[|listeners| - 1] in listeners;
        StampAppend(Turn(Views(listeners), t, now).calls, Raise(Turn(Views(listeners), t, now).queue, t, now).calls, t);
        OneTurn(t, now);
      }
      BackNotDue(listeners, t, now);
      StampAppend([], [], t);
    }

    /** The body of the loop: the back of the list is taken off, raised, and put back if it repeats. */
    method OneTurn(t: nat, now: nat)
      requires t <= now && NoDuplicates(listeners) && Due(Views(listeners), t)
      requires Catches(listeners[|listeners| - 1].View(), now)
      modifies this, listeners[|listeners| - 1]
      ensures NoDuplicates(listeners) && forall li | li in listeners :: li in old(listeners)
      ensures var r := Turn(old(Views(listeners)), t, now);
              Views(listeners) == r.queue && calls == old(calls) + Stamp(r.calls, t)
    {
      var li, left := RaiseBack(t, now);
      TurnIs(old(Views(listeners)), t, now);
      hide *;
      if left != 0 {
        Add(li);
      }
    }

    /** Takes the back of the list off and raises it. */
    method RaiseBack(t: nat, now: nat) returns (li: Listener, left: int)
      requires t <= now && NoDuplicates(listeners) && Due(Views(listeners), t)
      requires Catches(listeners[|listeners| - 1].View(), now)
      modifies this, listeners[|listeners| - 1]
      ensures li == old(listeners[|listeners| - 1]) && li !in listeners && NoDuplicates(listeners)
      ensures forall l | l in listeners || l == li :: l in old(listeners)
      ensures var q := old(Views(listeners));
              var a := q[|q| - 1];
              && Views(listeners) == q[..|q| - 1] && li.View() == Fire(a, now) && left == Fire(a, now).repeat
              && calls == old(calls) + Stamp(if Runs(a) then [a.id] else [], t)
    {
      hide Insert, CaughtUp, Top;
      ghost var q := Views(listeners);
      li := listeners[|listeners| - 1];
      listeners := listeners[..|listeners| - 1];
      var called;
      left, called := li.RaiseEvent(now);
      if called {
        calls := calls + [Call(li.id, t)];
      }
      assert Views(listeners) == q[..|q| - 1];
    }
  }

  lemma TurnIs(q: seq<Alarm>, t: int, now: int)
    requires Due(q, t)
    ensures q != []
    ensures var a, front := q[|q| - 1], q[..|q| - 1];
            Turn(q, t, now) == Raised(if Fire(a, now).repeat != 0 then Insert(front, Fire(a, now)) else front,
                                      if Runs(a) then [a.id] else [])
  {
  }

  lemma {:induction false} InsertIs(q: seq<Alarm>, a: Alarm, i: nat)
    requires i <= |q| && (forall j :: 0 <= j < i ==> a.time <= q[j].time) && (i < |q| ==> a.time > q[i].time)
    ensures Insert(q, a) == q[..i] + ([a] + q[i..])
  {
    if i > 0 {
      InsertIs(q[1..], a, i - 1);
      assert q[..i] == [q[0]] + q[1..][..i - 1];
    }
  }

  lemma StampAppend(a: seq<nat>, b: seq<nat>, t: nat)
    ensures Stamp(a + b, t) == Stamp(a, t) + Stamp(b, t) && Stamp([], t) == []
  {
  }

  lemma Inserted(ls: seq<Listener>, i: nat, li: Listener)
    requires NoDuplicates(ls) && i <= |ls| && li !in ls
    ensures NoDuplicates(ls[..i] + [li] + ls[i..])
    ensures multiset(ls[..i] + [li] + ls[i..]) == multiset(ls) + multiset{li}
  {
    assert ls == ls[..i] + ls[i..];
  }

  lemma ViewsInserted(ls: seq<Listener>, i: nat, li: Listener)
    requires i <= |ls|
    ensures Views(ls[..i] + [li] + ls[i..]) == Views(ls)[..i] + ([li.View()] + Views(ls)[i..])
  {
  }

  lemma Erased(ls: seq<Listener>, i: nat)
    requires NoDuplicates(ls) && i < |ls|
    ensures NoDuplicates(ls[..i] + ls[i + 1..])
    ensures multiset(ls[..i] + ls[i + 1..]) == multiset(ls) - multiset{ls[i]}
  {
    MultisetErased(ls, i);
  }

  lemma MultisetErased(ls: seq<Listener>, i: nat)
    requires i < |ls|
    ensures multiset(ls[..i] + ls[i + 1..]) == multiset(ls) - multiset{ls[i]}
  {
    assert ls == ls[..i] + [ls[i]] + ls[i + 1..];
  }

  lemma SortedErase(q: seq<Alarm>, i: nat)
    requires i < |q|
    ensures Sorted(q) ==> Sorted(q[..i] + q[i + 1..])
  {
  }

  lemma BackIsDue(ls: seq<Listener>, t: nat, now: nat)
    requires ls != [] && ls[|ls| - 1].time <= t && NoSpin(Views(ls), t, now)
    ensures Due(Views(ls), t) && Catches(ls[|ls| - 1].View(), now)
  {
    assert Settles(Views(ls)[|ls| - 1], now);
  }

  lemma BackNotDue(ls: seq<Listener>, t: nat, now: nat)
    requires t <= now && (ls == [] || ls[|ls| - 1].time > t)
    ensures Raise(Views(ls), t, now) == Raised(Views(ls), [])
  {
  }
}
