/** The game clock: cycles become seconds, and seconds raise time events. */
module GameDate {
  import opened Common
  import opened CatchUps
  import opened TimeQueue
  import opened TimeRun
  import opened PausedTime
  import opened TimeEvents

  lemma RealCancel(a: real, b: real, s: real)
    requires s > 0.0 && a * s < b * s
    ensures a < b
  {
    assert (a - b) * s == a * s - b * s;
    assert a >= b ==> (a - b) * s >= 0.0;
  }

  /** Cycles in whole seconds of `scale` cycles, and in those waiting. */
  function Cycles(time: nat, scale: real, ticks: real): real {
    time as real * scale + ticks
  }

  /** The clock has not come to the end of second `end`. */
  predicate Before(time: nat, scale: real, ticks: real, end: nat) {
    Cycles(time, scale, ticks) < end as real * scale
  }

  /** The cycles of several updates. */
  function CyclesOf(frames: seq<nat>): (r: real)
    ensures r >= 0.0
  {
    if frames == [] then 0.0 else CyclesOf(frames[..|frames| - 1]) + (1.0 + frames[|frames| - 1] as real)
  }

  lemma NextCycles(frames: seq<nat>, i: nat)
    requires i < |frames|
    ensures CyclesOf(frames[..i + 1]) == CyclesOf(frames[..i]) + (1.0 + frames[i] as real)
    ensures CyclesOf(frames[..i + 1]) <= CyclesOf(frames)
    decreases |frames|
  {
    assert frames[..i + 1][..i] == frames[..i];
    if i + 1 < |frames| {
      var shorter := frames[..|frames| - 1];
      NextCycles(shorter, i);
      assert shorter[..i + 1] == frames[..i + 1];
    } else {
      assert frames[..i + 1] == frames;
    }
  }

  lemma {:induction false} LookupMember(q: seq<Alarm>, a: Alarm)
    requires Distinct(q) && a in q
    ensures Lookup(q, a.id) == Some(a)
  {
    if q[0] != a {
      assert q == [q[0]] + q[1..];
      var i :| 0 <= i < |q| && q[i] == a;
      assert q[0].id != q[i].id;
      LookupMember(q[1..], a);
    }
  }

  lemma AllFire(q: seq<Alarm>, resolution: nat, since: nat, till: nat, log: seq<Call>, calls: seq<Call>)
    requires resolution > 0 && since <= till && Sane(q, till) && Sorted(q) && Distinct(q)
    requires calls == log + Seconds(q, resolution, since, till).log
    ensures forall a | a in q && Tracked(a, resolution, since, till) ::
              TimesOf(calls[|log|..], a.id) == CallsFrom(a, resolution, since, till)
  {
    assert calls[|log|..] == Seconds(q, resolution, since, till).log;
    forall a | a in q && Tracked(a, resolution, since, till)
      ensures TimesOf(calls[|log|..], a.id) == CallsFrom(a, resolution, since, till)
    {
      LookupMember(q, a);
      SecondsDecompose(q, resolution, since, till, a.id);
      LateListener(a, resolution, since, till);
    }
  }

  class Date {
    var time: nat
    var scale: real
    var resolution: nat
    var ticks: real
    const manager: TimeEventManager

    constructor (scale: real, resolution: nat)
      requires scale > 0.0 && resolution > 0
      ensures Clock() && Elapsed() == 0.0 && time == 0 && this.scale == scale && this.resolution == resolution
      ensures fresh(manager) && manager.listeners == [] && manager.calls == []
    {
      time, ticks := 0, 0.0;
      this.scale, this.resolution := scale, resolution;
      manager := new TimeEventManager();
    }

    /** Less than a second of cycles is waiting. */
    predicate Clock()
      reads this
    {
      scale > 0.0 && resolution > 0 && 0.0 <= ticks < scale
    }

    /** The cycles this clock has counted: those of whole seconds and those waiting. */
    function Elapsed(): real
      reads this
    {
      Cycles(time, scale, ticks)
    }

    /** The queue is in order, and every raise up to second `end` comes to an end. */
    ghost predicate Queue(end: nat)
      reads this, manager, manager.listeners
    {
      && NoDuplicates(manager.listeners) && end < U32_LIMIT
      && Sane(Views(manager.listeners), end)
      && Sorted(Views(manager.listeners)) && Distinct(Views(manager.listeners))
    }

    /** Counts the cycles since the last call and raises an event at each multiple of the resolution passed. */
    method Update(framesMissed: nat, ghost end: nat)
      requires Clock() && Queue(end) && Before(time, scale, ticks + (1.0 + framesMissed as real), end)
      modifies this`time, this`ticks, manager, manager.listeners
      ensures Clock() && Queue(end) && Elapsed() == old(Elapsed()) + (1.0 + framesMissed as real)
      ensures old(time) <= time <= end
      ensures forall i :: 0 <= i < |manager.listeners| ==> manager.listeners[i] in old(manager.listeners)
      ensures var r := Seconds(old(Views(manager.listeners)), resolution, old(time), time);
              Views(manager.listeners) == r.queue && manager.calls == old(manager.calls) + r.log
    {
      ghost var q, since, log := Views(manager.listeners), time, manager.calls;
      ghost var total := Cycles(time, scale, ticks + (1.0 + framesMissed as real));
      CyclesAdd(time, scale, ticks, 1.0 + framesMissed as real);
      ClockBound(time, scale, ticks + (1.0 + framesMissed as real), end);
      SecondsNone(q, resolution, time, log);
      hide Cycles, Before, Queue, Since;
      ticks := ticks + (1.0 + framesMissed as real);
      while ticks >= scale
        invariant 0.0 <= ticks && Cycles(time, scale, ticks) == total
        invariant since <= time <= end && Before(time, scale, ticks, end) && Queue(end)
        invariant forall i :: 0 <= i < |manager.listeners| ==> manager.listeners[i] in old(manager.listeners)
        invariant Since(Views(manager.listeners), manager.calls, q, resolution, since, time, log)
        decreases end - time
      {
        Tick(end, q, since, log);
      }
      SinceIs(Views(manager.listeners), manager.calls, q, resolution, since, time, log);
    }

    /**
     * Any number of updates: no cycle is lost, and every listener with a callback and an interval is called
     * exactly at the raises whose window holds one of its alarms, and once at the first if it was overdue.
     */
    method Updates(frames: seq<nat>, ghost end: nat)
      requires Clock() && Queue(end) && Before(time, scale, ticks + CyclesOf(frames), end)
      modifies this`time, this`ticks, manager, manager.listeners
      ensures Clock() && Queue(end) && Elapsed() == old(Elapsed()) + CyclesOf(frames)
      ensures old(time) <= time <= end
      ensures var r := Seconds(old(Views(manager.listeners)), resolution, old(time), time);
              Views(manager.listeners) == r.queue && manager.calls == old(manager.calls) + r.log
      ensures forall a | a in old(Views(manager.listeners)) && Tracked(a, resolution, old(time), time) ::
                TimesOf(manager.calls[|old(manager.calls)|..], a.id) == CallsFrom(a, resolution, old(time), time)
    {
      ghost var q, since, log := Views(manager.listeners), time, manager.calls;
      ghost var total := Elapsed();
      SecondsNone(q, resolution, time, log);
      ClockBound(time, scale, ticks + CyclesOf(frames), end);
      InOrder(end);
      hide *;
      for i := 0 to |frames|
        invariant Clock() && Queue(end) && since <= time <= end
        invariant Elapsed() == total + CyclesOf(frames[..i])
        invariant forall i :: 0 <= i < |manager.listeners| ==> manager.listeners[i] in old(manager.listeners)
        invariant Since(Views(manager.listeners), manager.calls, q, resolution, since, time, log)
      {
        OneUpdate(frames, i, end, q, since, log, total);
      }
      assert frames[..|frames|] == frames;
      SinceIs(Views(manager.listeners), manager.calls, q, resolution, since, time, log);
      SaneEndsRaise(q, time, time, end);
      AllFire(q, resolution, since, time, log, manager.calls);
    }

    lemma InOrder(end: nat)
      requires Queue(end)
      ensures var q := Views(manager.listeners); Sane(q, end) && Sorted(q) && Distinct(q)
    {
    }

    method OneUpdate(frames: seq<nat>, i: nat, ghost end: nat, ghost q: seq<Alarm>, ghost since: nat,
                     ghost log: seq<Call>, ghost total: real)
      requires Clock() && Queue(end) && i < |frames| && total + CyclesOf(frames) < end as real * scale
      requires Elapsed() == total + CyclesOf(frames[..i])
      requires Since(Views(manager.listeners), manager.calls, q, resolution, since, time, log)
      modifies this`time, this`ticks, manager, manager.listeners
      ensures Clock() && Queue(end) && old(time) <= time <= end
      ensures Elapsed() == total + CyclesOf(frames[..i + 1])
      ensures forall i :: 0 <= i < |manager.listeners| ==> manager.listeners[i] in old(manager.listeners)
      ensures Since(Views(manager.listeners), manager.calls, q, resolution, since, time, log)
    {
      assert Elapsed() == Cycles(time, scale, ticks);
      hide *;
      BeforeUpdate(time, scale, ticks, frames, i, total, end);
      ghost var queue, calls, now := Views(manager.listeners), manager.calls, time;
      SinceIs(queue, calls, q, resolution, since, time, log);
      Update(frames[i], end);
      SinceLater(queue, calls, q, resolution, since, now, time, log);
    }

    /** One second. */
    method Tick(ghost end: nat, ghost q: seq<Alarm>, ghost since: nat, ghost log: seq<Call>)
      requires scale > 0.0 && resolution > 0 && ticks >= scale && Queue(end) && Before(time, scale, ticks, end)
      requires Since(Views(manager.listeners), manager.calls, q, resolution, since, time, log)
      modifies this`time, this`ticks, manager, manager.listeners
      ensures ticks == old(ticks) - scale && time == old(time) + 1 <= end
      ensures Cycles(time, scale, ticks) == old(Cycles(time, scale, ticks))
      ensures Queue(end) && Before(time, scale, ticks, end)
      ensures forall i :: 0 <= i < |manager.listeners| ==> manager.listeners[i] in old(manager.listeners)
      ensures Since(Views(manager.listeners), manager.calls, q, resolution, since, time, log)
    {
      hide *;
      ClockStep(time, scale, ticks, end);
      SinceNext(Views(manager.listeners), manager.calls, q, resolution, since, time, log);
      AdvanceClock(end);
      if time % resolution == 0 {
        RaiseAtTime(end);
      }
    }

    method AdvanceClock(ghost end: nat)
      requires ticks >= scale && Queue(end) && time < end
      modifies this`time, this`ticks
      ensures ticks == old(ticks) - scale && time == old(time) + 1 && Queue(end)
    {
      ticks := ticks - scale;
      time := (time + 1) % U32_LIMIT;
    }

    method RaiseAtTime(ghost end: nat)
      requires Queue(end) && time <= end
      modifies manager, manager.listeners
      ensures Queue(end)
      ensures forall i :: 0 <= i < |manager.listeners| ==> manager.listeners[i] in old(manager.listeners)
      ensures var q := old(Views(manager.listeners));
              && Views(manager.listeners) == Raise(q, time, time).queue
              && manager.calls == old(manager.calls) + Stamp(Raise(q, time, time).calls, time)
    {
      SaneEndsRaise(Views(manager.listeners), time, time, end);
      RaiseSane(Views(manager.listeners), time, time, end);
      RaiseSorted(Views(manager.listeners), time, time);
      RaiseDecomposes(Views(manager.listeners), time, time, 0);
      hide NoDuplicates, Views, Sane, Sorted, Distinct, Raise, Stamp, NoSpin;
      manager.RaiseEvent(time, time);
    }
  }

  /** Queue and calls are those that letting the seconds since `since` pass over `q` and `log` leaves. */
  ghost predicate Since(queue: seq<Alarm>, calls: seq<Call>, q: seq<Alarm>, resolution: nat, since: nat, time: nat,
                        log: seq<Call>)
  {
    && resolution > 0 && since <= time
    && queue == Seconds(q, resolution, since, time).queue
    && calls == log + Seconds(q, resolution, since, time).log
  }

  /** What a further update does to such a queue and log. */
  lemma SinceLater(queue: seq<Alarm>, calls: seq<Call>, q: seq<Alarm>, resolution: nat, since: nat, now: nat,
                   till: nat, log: seq<Call>)
    requires Since(queue, calls, q, resolution, since, now, log) && now <= till
    ensures var r := Seconds(queue, resolution, now, till);
            Since(r.queue, calls + r.log, q, resolution, since, till, log)
  {
    SecondsCompose(q, resolution, since, now, till);
    var r, s := Seconds(q, resolution, since, now), Seconds(queue, resolution, now, till);
    assert log + r.log + s.log == log + (r.log + s.log);
  }

  lemma SecondsNone(q: seq<Alarm>, resolution: nat, time: nat, log: seq<Call>)
    requires resolution > 0
    ensures Since(q, log, q, resolution, time, time, log)
  {
    assert log + [] == log;
  }

  lemma SinceIs(queue: seq<Alarm>, calls: seq<Call>, q: seq<Alarm>, resolution: nat, since: nat, time: nat,
                log: seq<Call>)
    requires Since(queue, calls, q, resolution, since, time, log)
    ensures resolution > 0
    ensures queue == Seconds(q, resolution, since, time).queue
    ensures calls == log + Seconds(q, resolution, since, time).log
  {
  }

  /** The next second raises an event if it is a multiple of the resolution, and does nothing otherwise. */
  lemma SinceNext(queue: seq<Alarm>, calls: seq<Call>, q: seq<Alarm>, resolution: nat, since: nat, time: nat,
                  log: seq<Call>)
    requires Since(queue, calls, q, resolution, since, time, log)
    ensures (time + 1) % resolution != 0 ==> Since(queue, calls, q, resolution, since, time + 1, log)
    ensures (time + 1) % resolution == 0 ==>
              var raised := Raise(queue, time + 1, time + 1);
              Since(raised.queue, calls + Stamp(raised.calls, time + 1), q, resolution, since, time + 1, log)
  {
    hide Raise, Stamp;
    var r, raised := Seconds(q, resolution, since, time), Raise(queue, time + 1, time + 1);
    assert log + r.log + Stamp(raised.calls, time + 1) == log + (r.log + Stamp(raised.calls, time + 1));
  }

  /** Taking a second off the waiting cycles changes nothing in their total, and leads no further than `end`. */
  lemma ClockStep(time: nat, scale: real, ticks: real, end: nat)
    requires scale > 0.0 && ticks >= scale && Before(time, scale, ticks, end)
    ensures time + 1 <= end && Cycles(time + 1, scale, ticks - scale) == Cycles(time, scale, ticks)
    ensures Before(time + 1, scale, ticks - scale, end)
  {
    assert (time + 1) as real * scale == time as real * scale + scale;
    RealCancel((time + 1) as real, end as real, scale);
  }

  lemma BeforeUpdate(time: nat, scale: real, ticks: real, frames: seq<nat>, i: nat, total: real, end: nat)
    requires i < |frames| && Cycles(time, scale, ticks) == total + CyclesOf(frames[..i])
    requires total + CyclesOf(frames) < end as real * scale
    ensures Before(time, scale, ticks + (1.0 + frames[i] as real), end)
    ensures CyclesOf(frames[..i + 1]) == CyclesOf(frames[..i]) + (1.0 + frames[i] as real)
  {
    NextCycles(frames, i);
    CyclesAdd(time, scale, ticks, 1.0 + frames[i] as real);
    hide Cycles, CyclesOf;
  }

  lemma CyclesAdd(time: nat, scale: real, ticks: real, more: real)
    ensures Cycles(time, scale, ticks + more) == Cycles(time, scale, ticks) + more
  {
  }

  lemma ClockBound(time: nat, scale: real, ticks: real, end: nat)
    requires scale > 0.0 && ticks >= 0.0 && Before(time, scale, ticks, end)
    ensures time < end
  {
    RealCancel(time as real, end as real, scale);
  }
}
