/** Game time running: a raise at every multiple of the resolution, and what a listener sees of it. */
module TimeRun {
  import opened Common
  import opened CatchUps
  import opened TimeQueue
  import opened Arithmetic

  /** A call of a callback: the listener, and the time of the event passed to it. */
  datatype Call = Call(id: nat, time: nat)

  datatype Run = Run(queue: seq<Alarm>, log: seq<Call>)

  function Stamp(calls: seq<nat>, time: nat): (log: seq<Call>)
    ensures |log| == |calls|
  {
    seq(|calls|, i requires 0 <= i < |calls| => Call(calls[i], time))
  }

  /** Every raise up to second `end` comes to an end. */
  predicate Sane(q: seq<Alarm>, end: int) {
    forall i :: 0 <= i < |q| ==> Settles(q[i], end)
  }

  /** The seconds after `since` up to `till`, each raising an event if it is a multiple of the resolution. */
  ghost function Seconds(q: seq<Alarm>, resolution: nat, since: nat, till: nat): Run
    requires resolution > 0
    decreases till
  {
    if till <= since then Run(q, [])
    else
      var r := Seconds(q, resolution, since, till - 1);
      if till % resolution != 0 then r
      else
        var raised := Raise(r.queue, till, till);
        Run(raised.queue, r.log + Stamp(raised.calls, till))
  }

  lemma SaneEndsRaise(q: seq<Alarm>, t: int, now: int, end: int)
    requires Sane(q, end) && now <= end
    ensures NoSpin(q, t, now) && Sane(q, now)
  {
  }

  lemma {:induction false} InsertSane(q: seq<Alarm>, a: Alarm, end: int)
    requires Sane(q, end) && Settles(a, end)
    ensures Sane(Insert(q, a), end)
  {
    hide Settles;
    if q == [] || a.time > q[0].time {
    } else {
      InsertSane(q[1..], a, end);
    }
  }

  lemma FireSettles(a: Alarm, now: int, end: int)
    requires Settles(a, end)
    ensures Settles(Fire(a, now), end)
  {
    if a.interval > 0 {
      CaughtUpIs(a.time, a.interval, now);
      hide Top, CaughtUp;
    }
  }

  lemma {:induction false} RaiseSane(q: seq<Alarm>, t: int, now: int, end: int)
    requires t <= now && Sane(q, end)
    ensures Sane(Raise(q, t, now).queue, end)
    decreases Measure(q, t)
  {
    if Due(q, t) && NoSpin(q, t, now) {
      TurnShrinks(q, t, now);
      FireSettles(q[|q| - 1], now, end);
      InsertSane(q[..|q| - 1], Fire(q[|q| - 1], now), end);
      RaiseSane(Turn(q, t, now).queue, t, now, end);
    }
  }

  lemma {:induction false} SecondsSane(q: seq<Alarm>, resolution: nat, since: nat, till: nat, end: int)
    requires resolution > 0 && Sane(q, end)
    ensures Sane(Seconds(q, resolution, since, till).queue, end)
    decreases till
  {
    if since < till {
      SecondsSane(q, resolution, since, till - 1, end);
      if till % resolution == 0 {
        RaiseSane(Seconds(q, resolution, since, till - 1).queue, till, till, end);
      }
    }
  }

  // ---- one listener ----

  /** The times at which a listener was called back. */
  function TimesOf(log: seq<Call>, id: nat): seq<nat> {
    if log == [] then []
    else TimesOf(log[..|log| - 1], id) + if log[|log| - 1].id == id then [log[|log| - 1].time] else []
  }

  datatype One = One(alarm: Option<Alarm>, times: seq<nat>)

  function Repeated(t: nat, n: nat): seq<nat> {
    seq(n, i => t)
  }

  /** A listener on its own, over the same seconds. */
  ghost function SecondsOne(a: Option<Alarm>, resolution: nat, since: nat, till: nat): One
    requires resolution > 0
    decreases till
  {
    if till <= since then One(a, [])
    else
      var r := SecondsOne(a, resolution, since, till - 1);
      if till % resolution != 0 then r
      else One(AfterRaiseOpt(r.alarm, till, till), r.times + Repeated(till, CallsOfOpt(r.alarm, till)))
  }

  lemma {:induction false} TimesOfAppend(a: seq<Call>, b: seq<Call>, id: nat)
    ensures TimesOf(a + b, id) == TimesOf(a, id) + TimesOf(b, id)
    decreases |b|
  {
    if b == [] {
      assert a + b == a;
    } else {
      assert (a + b)[..|a + b| - 1] == a + b[..|b| - 1];
      TimesOfAppend(a, b[..|b| - 1], id);
    }
  }

  lemma {:induction false} TimesOfStamp(calls: seq<nat>, time: nat, id: nat)
    ensures TimesOf(Stamp(calls, time), id) == Repeated(time, Count(calls, id))
  {
    if calls != [] {
      var front, last := calls[..|calls| - 1], calls[|calls| - 1];
      TimesOfStamp(front, time, id);
      assert calls == front + [last];
      assert Stamp(calls, time)[..|calls| - 1] == Stamp(front, time);
      assert Count(calls, id) == Count(front, id) + if last == id then 1 else 0;
    }
  }

  /** Over any run of game time the queue treats every listener as if it were alone. */
  lemma {:induction false} SecondsDecompose(q: seq<Alarm>, resolution: nat, since: nat, till: nat, id: nat)
    requires resolution > 0 && Sane(q, till) && Sorted(q) && Distinct(q)
    ensures var r, one := Seconds(q, resolution, since, till), SecondsOne(Lookup(q, id), resolution, since, till);
            && Sorted(r.queue) && Distinct(r.queue)
            && Lookup(r.queue, id) == one.alarm && TimesOf(r.log, id) == one.times
    decreases till
  {
    if since < till {
      SaneEndsRaise(q, till, till - 1, till);
      SecondsDecompose(q, resolution, since, till - 1, id);
      var r := Seconds(q, resolution, since, till - 1);
      if till % resolution == 0 {
        SecondsSane(q, resolution, since, till - 1, till);
        SaneEndsRaise(r.queue, till, till, till);
        RaiseSorted(r.queue, till, till);
        RaiseDecomposes(r.queue, till, till, id);
        var raised := Raise(r.queue, till, till);
        TimesOfAppend(r.log, Stamp(raised.calls, till), id);
        TimesOfStamp(raised.calls, till, id);
      }
    }
  }

  // ---- when a repeating listener fires ----

  /** Some alarm time + k * interval lies in the window of `resolution` seconds that ends at `s`. */
  ghost predicate Hit(time: nat, interval: nat, resolution: nat, s: nat) {
    exists k: nat :: s - resolution < At(time, interval, k) <= s
  }

  function At(time: nat, interval: nat, k: nat): nat {
    time + k * interval
  }

  /** The raises in (since, till] with a hit in their window. */
  ghost function Hits(time: nat, interval: nat, resolution: nat, since: nat, till: nat): seq<nat>
    requires resolution > 0
    decreases till
  {
    if till <= since then []
    else Hits(time, interval, resolution, since, till - 1)
         + if till % resolution == 0 && Hit(time, interval, resolution, till) then [till] else []
  }

  /** The first n of them, or all for a negative n. */
  function FirstN(s: seq<nat>, n: int): seq<nat> {
    if n < 0 || n >= |s| then s else s[..n]
  }

  /** v is the first alarm after `now`. */
  ghost predicate IsNext(v: nat, time: nat, interval: nat, now: int) {
    exists k: nat :: v == At(time, interval, k) && now < v && (k == 0 || v - interval <= now)
  }

  lemma NextIs(time: nat, interval: nat, now: int)
    requires interval > 0
    ensures IsNext(NextAlarm(time, interval, now), time, interval, now)
  {
    if time > now {
      assert time == At(time, interval, 0);
    } else {
      var k := (now - time) / interval;
      assert now - time == k * interval + (now - time) % interval;
      assert (k + 1) * interval == k * interval + interval;
      assert NextAlarm(time, interval, now) == At(time, interval, k + 1);
    }
  }

  lemma AtMono(time: nat, interval: nat, j: nat, k: nat)
    requires j <= k
    ensures At(time, interval, j) <= At(time, interval, k)
    ensures j < k ==> At(time, interval, j) + interval <= At(time, interval, k)
  {
    assert (k - j) * interval == k * interval - j * interval;
    if j < k {
      assert (k - j) * interval == (k - j - 1) * interval + interval;
    }
  }

  lemma NextUnique(v: nat, time: nat, interval: nat, now: int)
    requires interval > 0 && IsNext(v, time, interval, now)
    ensures v == NextAlarm(time, interval, now)
  {
    NextIs(time, interval, now);
    var k: nat :| v == At(time, interval, k) && now < v && (k == 0 || v - interval <= now);
    var w := NextAlarm(time, interval, now);
    var j: nat :| w == At(time, interval, j) && now < w && (j == 0 || w - interval <= now);
    if j < k {
      AtMono(time, interval, j, k);
    } else if k < j {
      AtMono(time, interval, k, j);
    }
  }

  /** An alarm that was next after one raise is due at the following one exactly if the window holds an alarm. */
  lemma DueIffHit(time: nat, interval: nat, resolution: nat, s: nat)
    requires interval > 0 && 0 < resolution <= s
    ensures NextAlarm(time, interval, s - resolution) <= s <==> Hit(time, interval, resolution, s)
  {
    var v, w := NextAlarm(time, interval, s - resolution), s - resolution;
    NextIs(time, interval, w);
    var j: nat :| v == At(time, interval, j) && w < v && (j == 0 || v - interval <= w);
    if Hit(time, interval, resolution, s) {
      var k: nat :| w < At(time, interval, k) <= s;
      if k < j {
        AtMono(time, interval, k, j);
      } else {
        AtMono(time, interval, j, k);
      }
    }
  }

  /** Catching up from the first alarm after one time to the first after a later one. */
  lemma NextOfNext(time: nat, interval: nat, w: int, s: int)
    requires interval > 0 && w <= s
    ensures NextAlarm(NextAlarm(time, interval, w), interval, s) == NextAlarm(time, interval, s)
  {
    var v := NextAlarm(time, interval, w);
    NextIs(time, interval, w);
    NextIs(v, interval, s);
    var j: nat :| v == At(time, interval, j) && w < v && (j == 0 || v - interval <= w);
    var u := NextAlarm(v, interval, s);
    var k: nat :| u == At(v, interval, k) && s < u && (k == 0 || u - interval <= s);
    assert (j + k) * interval == j * interval + k * interval;
    assert u == At(time, interval, j + k);
    NextUnique(u, time, interval, s);
  }

  lemma LastRaise(resolution: nat, s: nat)
    requires resolution > 0 && s > 0
    ensures s % resolution != 0 ==> (s - 1) - (s - 1) % resolution == s - s % resolution
    ensures s % resolution == 0 ==> (s - 1) - (s - 1) % resolution == s - resolution >= 0
  {
    Predecessor(s, resolution);
    assert s == s / resolution * resolution + s % resolution;
    if s % resolution == 0 {
      assert s / resolution >= 1;
      MulMono(1, s / resolution, resolution);
    }
  }

  /** After `c` calls the count is used up, or the next alarm after `w` still is a u_int32. */
  predicate InRange(a: Alarm, c: nat, w: int)
    requires a.interval > 0
  {
    0 <= a.repeat <= c || NextAlarm(a.time, a.interval, w) < U32_LIMIT
  }

  /** The state of a listener with first alarm `a.time` after `c` calls, when `w` was the last raise. */
  function StateAfter(a: Alarm, c: nat, w: int): Option<Alarm>
    requires a.interval > 0 && InRange(a, c, w)
  {
    if 0 <= a.repeat <= c then None
    else Some(a.(time := NextAlarm(a.time, a.interval, w), repeat := if a.repeat < 0 then a.repeat else a.repeat - c))
  }

  lemma NextMono(time: nat, interval: nat, w: int, s: int)
    requires interval > 0 && w <= s
    ensures NextAlarm(time, interval, w) <= NextAlarm(time, interval, s)
  {
    NextOfNext(time, interval, w, s);
    NextAlarmIs(NextAlarm(time, interval, w), interval, s);
    hide At, IsNext;
    if NextAlarm(time, interval, w) <= s {
      NextAlarmIs(time, interval, s);
    }
  }

  lemma FireAtRaise(a: Alarm, c: nat, resolution: nat, s: nat)
    requires a.interval > 0 && a.connected && 0 < resolution <= s && (a.repeat < 0 || c < a.repeat)
    requires InRange(a, c, s - resolution)
    requires InRange(a, if Hit(a.time, a.interval, resolution, s) then c + 1 else c, s)
    ensures var b := StateAfter(a, c, s - resolution);
            var hit := Hit(a.time, a.interval, resolution, s);
            && CallsOfOpt(b, s) == (if hit then 1 else 0)
            && AfterRaiseOpt(b, s, s) == StateAfter(a, if hit then c + 1 else c, s)
  {
    DueIffHit(a.time, a.interval, resolution, s);
    NextOfNext(a.time, a.interval, s - resolution, s);
    CaughtUpIff(NextAlarm(a.time, a.interval, s - resolution), a.interval, s);
    hide Hit, CaughtUp;
  }

  /** What holds of the range at one second held at the second before. */
  lemma InRangeBefore(a: Alarm, before: nat, resolution: nat, s: nat)
    requires a.interval > 0 && 0 < resolution <= s < U32_LIMIT
    requires InRange(a, if Hit(a.time, a.interval, resolution, s) then before + 1 else before, s)
    ensures InRange(a, before, s - resolution)
  {
    DueIffHit(a.time, a.interval, resolution, s);
    NextMono(a.time, a.interval, s - resolution, s);
    hide Hit, NextAlarm;
  }

  /**
   * A listener with a callback, an interval and a first alarm in the future is called exactly at the
   * multiples of the resolution whose window holds one of its alarms, at most `repeat` times, once per
   * raise; it leaves the queue with the last of these calls, and otherwise waits for its next alarm.
   */
  lemma {:induction false} FiresExactlyAtHits(a: Alarm, resolution: nat, since: nat, till: nat)
    requires a.connected && a.interval > 0 && a.repeat != 0 && resolution > 0
    requires since < a.time && since <= till < U32_LIMIT
    requires InRange(a, |Hits(a.time, a.interval, resolution, since, till)|, till - till % resolution)
    ensures var hits := Hits(a.time, a.interval, resolution, since, till);
            && SecondsOne(Some(a), resolution, since, till).times == FirstN(hits, a.repeat)
            && SecondsOne(Some(a), resolution, since, till).alarm == StateAfter(a, |hits|, till - till % resolution)
    decreases till
  {
    if since == till {
      assert NextAlarm(a.time, a.interval, till - till % resolution) == a.time;
    } else {
      LastRaise(resolution, till);
      var before := Hits(a.time, a.interval, resolution, since, till - 1);
      if till % resolution == 0 {
        InRangeBefore(a, |before|, resolution, till);
      }
      FiresExactlyAtHits(a, resolution, since, till - 1);
      if till % resolution == 0 && (a.repeat < 0 || |before| < a.repeat) {
        FireAtRaise(a, |before|, resolution, till);
      }
      hide Hit, NextAlarm, AfterRaise, CallsOf;
    }
  }

  // ---- every second raises an event ----

  /** With resolution 1 a hit is an alarm. */
  lemma HitEverySecond(time: nat, interval: nat, s: nat)
    requires interval > 0
    ensures Hit(time, interval, 1, s) <==> time <= s && (s - time) % interval == 0
  {
    if Hit(time, interval, 1, s) {
      var k: nat :| s - 1 < At(time, interval, k) <= s;
      Quotient(s - time, interval, k, 0);
    }
    if time <= s && (s - time) % interval == 0 {
      var k := (s - time) / interval;
      assert At(time, interval, k) == s;
    }
  }

  /** Calls up to `till` when every second is a raise: the first alarm and one more per interval. */
  function AlarmCount(time: nat, interval: nat, till: nat): nat
    requires interval > 0
  {
    if till < time then 0 else (till - time) / interval + 1
  }

  lemma {:induction false} HitsEverySecond(time: nat, interval: nat, since: nat, till: nat)
    requires interval > 0 && since < time && since <= till
    ensures var c := AlarmCount(time, interval, till);
            Hits(time, interval, 1, since, till) == seq(c, k requires 0 <= k < c => At(time, interval, k))
    decreases till
  {
    if since < till {
      HitsEverySecond(time, interval, since, till - 1);
      HitEverySecond(time, interval, till);
      CountStep(time, interval, till);
      hide Hit;
    }
  }

  lemma CountStep(time: nat, interval: nat, s: nat)
    requires interval > 0 && s > 0
    ensures var c := AlarmCount(time, interval, s - 1);
            if time <= s && (s - time) % interval == 0
            then AlarmCount(time, interval, s) == c + 1 && At(time, interval, c) == s
            else AlarmCount(time, interval, s) == c
  {
    if time < s {
      var x := s - time;
      assert x - 1 == s - 1 - time;
      Predecessor(x, interval);
      assert x == x / interval * interval + x % interval;
    }
  }

  /** With resolution 1 a listener is called at its alarms, min(n, (now - T0) / I + 1) times. */
  lemma CallsEverySecond(a: Alarm, since: nat, till: nat)
    requires a.connected && a.interval > 0 && a.repeat != 0 && since < a.time <= till < U32_LIMIT
    requires InRange(a, (till - a.time) / a.interval + 1, till)
    ensures var n := (till - a.time) / a.interval + 1;
            var c := if 0 < a.repeat < n then a.repeat else n;
            SecondsOne(Some(a), 1, since, till).times == seq(c, k requires 0 <= k < c => At(a.time, a.interval, k))
  {
    HitsEverySecond(a.time, a.interval, since, till);
    FiresExactlyAtHits(a, 1, since, till);
  }

  // ---- in a queue with others, over several updates ----

  /** In any queue and over any run, whatever else is registered. */
  lemma ListenerFires(q: seq<Alarm>, a: Alarm, resolution: nat, since: nat, till: nat)
    requires Sane(q, till) && Sorted(q) && Distinct(q) && Lookup(q, a.id) == Some(a)
    requires a.connected && a.interval > 0 && a.repeat != 0 && resolution > 0
    requires since < a.time && since <= till < U32_LIMIT
    requires InRange(a, |Hits(a.time, a.interval, resolution, since, till)|, till - till % resolution)
    ensures var r, hits := Seconds(q, resolution, since, till), Hits(a.time, a.interval, resolution, since, till);
            && TimesOf(r.log, a.id) == FirstN(hits, a.repeat)
            && Lookup(r.queue, a.id) == StateAfter(a, |hits|, till - till % resolution)
  {
    SecondsDecompose(q, resolution, since, till, a.id);
    FiresExactlyAtHits(a, resolution, since, till);
  }

  /** Updates add up: two stretches of time, one after the other, are one stretch. */
  lemma {:induction false} SecondsCompose(q: seq<Alarm>, resolution: nat, a: nat, b: nat, c: nat)
    requires resolution > 0 && a <= b <= c
    ensures var r := Seconds(q, resolution, a, b);
            var s := Seconds(r.queue, resolution, b, c);
            Seconds(q, resolution, a, c) == Run(s.queue, r.log + s.log)
    decreases c
  {
    var r := Seconds(q, resolution, a, b);
    if b < c {
      SecondsCompose(q, resolution, a, b, c - 1);
      var s := Seconds(r.queue, resolution, b, c - 1);
      if c % resolution == 0 {
        var more := Stamp(Raise(s.queue, c, c).calls, c);
        assert r.log + (s.log + more) == r.log + s.log + more;
      }
    } else {
      assert r.log + [] == r.log;
    }
  }
}
