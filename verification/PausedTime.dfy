/** A listener that is paused for some time while the clock runs on, and what it does once resumed. */
module PausedTime {
  import opened Common
  import opened Arithmetic
  import opened CatchUps
  import opened TimeQueue
  import opened TimeRun

  /** Pausing takes the listener out of the queue; alarm and count stay in the listener. */
  function Without(q: seq<Alarm>, id: nat): seq<Alarm> {
    if q == [] then [] else (if q[0].id == id then [] else [q[0]]) + Without(q[1..], id)
  }

  lemma WithoutFirst(q: seq<Alarm>, id: nat)
    requires q != []
    ensures Without(q, id) == if q[0].id == id then Without(q[1..], id) else [q[0]] + Without(q[1..], id)
  {
  }

  lemma {:induction false} LookupWithout(q: seq<Alarm>, id: nat, other: nat)
    ensures Lookup(Without(q, id), other) == if other == id then None else Lookup(q, other)
  {
    if q != [] {
      LookupWithout(q[1..], id, other);
      WithoutFirst(q, id);
      var r := Without(q[1..], id);
      assert ([q[0]] + r)[1..] == r;
      hide Without;
    }
  }

  lemma {:induction false} WithoutKeeps(q: seq<Alarm>, id: nat, end: int)
    requires Sorted(q) && Distinct(q) && Sane(q, end)
    ensures var r := Without(q, id); Sorted(r) && Distinct(r) && Sane(r, end)
    ensures forall a | a in Without(q, id) :: a in q
  {
    if q != [] {
      WithoutKeeps(q[1..], id, end);
      WithoutFirst(q, id);
      hide Without, Settles;
      var r := Without(q[1..], id);
      assert forall a | a in r :: a in q[1..] && a in q;
      if q[0].id != id {
        Added(q, r, end);
      }
    }
  }

  lemma Added(q: seq<Alarm>, r: seq<Alarm>, end: int)
    requires q != [] && Sorted(q) && Distinct(q) && Sane(q, end)
    requires Sorted(r) && Distinct(r) && Sane(r, end) && forall a | a in r :: a in q[1..]
    ensures Sorted([q[0]] + r) && Distinct([q[0]] + r) && Sane([q[0]] + r, end)
  {
    hide Settles;
    forall i | 0 <= i < |r|
      ensures q[0].time >= r[i].time && q[0].id != r[i].id
    {
      assert r[i] in q[1..];
      var j :| 0 <= j < |q[1..]| && q[1..][j] == r[i];
      assert q[j + 1] == r[i];
    }
  }

  // ---- a listener whose alarm is overdue ----

  /** The first raise after second `s`. */
  function NextRaise(resolution: nat, s: nat): nat
    requires resolution > 0
  {
    s - s % resolution + resolution
  }

  lemma {:induction false} NothingBefore(a: Option<Alarm>, resolution: nat, since: nat, till: nat)
    requires resolution > 0 && since <= till < NextRaise(resolution, since)
    ensures SecondsOne(a, resolution, since, till) == One(a, [])
    decreases till
  {
    if since < till {
      NothingBefore(a, resolution, since, till - 1);
      assert since == since / resolution * resolution + since % resolution;
      Quotient(till, resolution, since / resolution, till - since / resolution * resolution);
    }
  }

  lemma NextRaiseIs(resolution: nat, s: nat)
    requires resolution > 0
    ensures s < NextRaise(resolution, s) && NextRaise(resolution, s) % resolution == 0
  {
    assert s == s / resolution * resolution + s % resolution;
    assert (s / resolution + 1) * resolution == s / resolution * resolution + resolution;
    Quotient(NextRaise(resolution, s), resolution, s / resolution + 1, 0);
  }

  lemma {:induction false} OneComposes(a: Option<Alarm>, resolution: nat, x: nat, y: nat, z: nat)
    requires resolution > 0 && x <= y <= z
    ensures var r := SecondsOne(a, resolution, x, y);
            var s := SecondsOne(r.alarm, resolution, y, z);
            SecondsOne(a, resolution, x, z) == One(s.alarm, r.times + s.times)
    decreases z
  {
    var r := SecondsOne(a, resolution, x, y);
    if y < z {
      OneComposes(a, resolution, x, y, z - 1);
      var s := SecondsOne(r.alarm, resolution, y, z - 1);
      var more := Repeated(z, CallsOfOpt(s.alarm, z));
      assert r.times + s.times + more == r.times + (s.times + more);
    } else {
      assert r.times + [] == r.times;
    }
  }

  lemma {:induction false} GoneStays(resolution: nat, since: nat, till: nat)
    requires resolution > 0
    ensures SecondsOne(None, resolution, since, till) == One(None, [])
    decreases till
  {
    if since < till {
      GoneStays(resolution, since, till - 1);
    }
  }

  /** The alarms after `now` are on the same grid, whichever earlier alarm they are counted from. */
  lemma HitFromNext(time: nat, interval: nat, resolution: nat, now: nat, s: nat)
    requires interval > 0 && now + resolution <= s
    ensures Hit(NextAlarm(time, interval, now), interval, resolution, s) <==> Hit(time, interval, resolution, s)
  {
    var v := NextAlarm(time, interval, now);
    NextIs(time, interval, now);
    var j: nat :| v == At(time, interval, j) && now < v && (j == 0 || v - interval <= now);
    if Hit(v, interval, resolution, s) {
      var k: nat :| s - resolution < At(v, interval, k) <= s;
      assert (j + k) * interval == j * interval + k * interval;
      assert At(time, interval, j + k) == At(v, interval, k);
    }
    if Hit(time, interval, resolution, s) {
      var k: nat :| s - resolution < At(time, interval, k) <= s;
      if k < j {
        AtMono(time, interval, k, j);
      }
      assert (k - j) * interval == k * interval - j * interval;
      assert At(v, interval, k - j) == At(time, interval, k);
    }
  }

  lemma {:induction false} HitsFromNext(time: nat, interval: nat, resolution: nat, now: nat, till: nat)
    requires interval > 0 && resolution > 0 && now % resolution == 0 && now <= till
    ensures Hits(NextAlarm(time, interval, now), interval, resolution, now, till)
         == Hits(time, interval, resolution, now, till)
    decreases till
  {
    if now < till {
      HitsFromNext(time, interval, resolution, now, till - 1);
      if till % resolution == 0 {
        MultiplesApart(resolution, now, till);
        HitFromNext(time, interval, resolution, now, till);
      }
    }
  }

  lemma MultiplesApart(resolution: nat, s: nat, t: nat)
    requires resolution > 0 && s % resolution == 0 && t % resolution == 0 && s < t
    ensures s + resolution <= t
  {
    assert s == s / resolution * resolution && t == t / resolution * resolution;
    if t / resolution <= s / resolution {
      MulMono(t / resolution, s / resolution, resolution);
    }
    MulMono(s / resolution + 1, t / resolution, resolution);
    assert (s / resolution + 1) * resolution == s / resolution * resolution + resolution;
  }

  /** The raises at which a listener registered at second `since` can be called, its alarm due or not. */
  ghost function Chances(a: Alarm, resolution: nat, since: nat, till: nat): seq<nat>
    requires resolution > 0
  {
    var r := NextRaise(resolution, since);
    if since < a.time then Hits(a.time, a.interval, resolution, since, till)
    else if till < r then []
    else [r] + Hits(a.time, a.interval, resolution, r, till)
  }

  ghost function CallsFrom(a: Alarm, resolution: nat, since: nat, till: nat): seq<nat>
    requires resolution > 0
  {
    FirstN(Chances(a, resolution, since, till), a.repeat)
  }

  /** A listener with a callback and an interval whose alarms up to second `till` all are u_int32. */
  ghost predicate Tracked(a: Alarm, resolution: nat, since: nat, till: nat) {
    && a.connected && a.interval > 0 && a.repeat != 0 && resolution > 0 && since <= till < U32_LIMIT
    && InRange(a, |Chances(a, resolution, since, till)|, till - till % resolution)
  }

  /** An overdue listener is called once, at the next raise, and from then on at the alarms of its old grid. */
  lemma LateListener(a: Alarm, resolution: nat, since: nat, till: nat)
    requires Tracked(a, resolution, since, till)
    ensures SecondsOne(Some(a), resolution, since, till).times == CallsFrom(a, resolution, since, till)
  {
    var r := NextRaise(resolution, since);
    NextRaiseIs(resolution, since);
    if since < a.time {
      FiresExactlyAtHits(a, resolution, since, till);
    } else if till < r {
      NothingBefore(Some(a), resolution, since, till);
    } else {
      NothingBefore(Some(a), resolution, since, r - 1);
      OneComposes(Some(a), resolution, since, r, till);
      var b := Fire(a, r);
      var h := Hits(a.time, a.interval, resolution, r, till);
      assert SecondsOne(Some(a), resolution, since, r).times == [r];
      FirstOfCons(r, h, a.repeat);
      if b.repeat == 0 {
        GoneStays(resolution, r, till);
      } else {
        LateFire(a, resolution, r, till);
        FiresExactlyAtHits(b, resolution, r, till);
      }
    }
  }

  /** After its late call the listener waits for the next alarm of its old grid. */
  lemma LateFire(a: Alarm, resolution: nat, r: nat, till: nat)
    requires a.connected && a.interval > 0 && a.repeat != 0 && a.repeat != 1 && resolution > 0
    requires a.time <= r <= till < U32_LIMIT && r % resolution == 0
    requires var h := Hits(a.time, a.interval, resolution, r, till);
             InRange(a, |h| + 1, till - till % resolution)
    ensures var b, h := Fire(a, r), Hits(a.time, a.interval, resolution, r, till);
            && r < b.time && Hits(b.time, b.interval, resolution, r, till) == h
            && InRange(b, |h|, till - till % resolution)
  {
    var w, next := till - till % resolution, NextAlarm(a.time, a.interval, r);
    var h := Hits(a.time, a.interval, resolution, r, till);
    HitsFromNext(a.time, a.interval, resolution, r, till);
    NextIs(a.time, a.interval, r);
    LastRaiseAfter(resolution, r, till);
    NextMono(a.time, a.interval, r, w);
    if next >= U32_LIMIT {
      NoHits(next, a.interval, resolution, r, till);
    }
    CaughtUpIff(a.time, a.interval, r);
    NextOfNext(a.time, a.interval, r, w);
    hide Hits, NextAlarm, CaughtUp, Top;
  }

  lemma LastRaiseAfter(resolution: nat, r: nat, till: nat)
    requires resolution > 0 && r % resolution == 0 && r <= till
    ensures r <= till - till % resolution
  {
    var w := till - till % resolution;
    assert till == till / resolution * resolution + till % resolution;
    Quotient(w, resolution, till / resolution, 0);
    if w < r {
      MultiplesApart(resolution, w, r);
    }
  }

  lemma {:induction false} NoHits(time: nat, interval: nat, resolution: nat, since: nat, till: nat)
    requires resolution > 0 && interval > 0 && till < time
    ensures Hits(time, interval, resolution, since, till) == []
    decreases till
  {
    if since < till {
      NoHits(time, interval, resolution, since, till - 1);
      forall k: nat
        ensures time <= At(time, interval, k)
      {
        AtMono(time, interval, 0, k);
      }
    }
  }

  lemma FirstOfCons(r: nat, h: seq<nat>, n: int)
    requires n != 0
    ensures FirstN([r] + h, n) == [r] + if n < 0 then h else if n == 1 then [] else FirstN(h, n - 1)
  {
  }

  // ---- pausing in a queue with others ----

  /**
   * A listener paused from second s1 to s2 is not called in between, and its event is resumed unchanged:
   * it is neither executed nor counted down. Resumed late it fires once at the next raise, however many
   * alarms it missed, and then at the alarms of its old grid, as often as its count still allows.
   */
  lemma PausedListener(q: seq<Alarm>, a: Alarm, resolution: nat, s1: nat, s2: nat, till: nat)
    requires Sane(q, till) && Sorted(q) && Distinct(q) && Lookup(q, a.id) == Some(a)
    requires s1 <= s2 && Tracked(a, resolution, s2, till)
    ensures var paused := Seconds(Without(q, a.id), resolution, s1, s2);
            && TimesOf(paused.log, a.id) == []
            && TimesOf(Seconds(Insert(paused.queue, a), resolution, s2, till).log, a.id)
            == CallsFrom(a, resolution, s2, till)
  {
    WithoutKeeps(q, a.id, till);
    LookupWithout(q, a.id, a.id);
    LookupSane(q, a, till);
    var p := Without(q, a.id);
    SaneEndsRaise(p, s2, s2, till);
    SecondsDecompose(p, resolution, s1, s2, a.id);
    SecondsSane(p, resolution, s1, s2, till);
    GoneStays(resolution, s1, s2);
    var r := Seconds(p, resolution, s1, s2);
    InsertSorted(r.queue, a);
    InsertDistinct(r.queue, a);
    LookupInsert(r.queue, a, a.id);
    InsertSane(r.queue, a, till);
    SecondsDecompose(Insert(r.queue, a), resolution, s2, till, a.id);
    LateListener(a, resolution, s2, till);
  }

  lemma {:induction false} LookupSane(q: seq<Alarm>, a: Alarm, end: int)
    requires Lookup(q, a.id) == Some(a) && Sane(q, end)
    ensures Settles(a, end)
  {
    hide Settles;
    if q[0].id != a.id {
      LookupSane(q[1..], a, end);
    }
  }

  /** And every other listener is called and left as if this one had never been paused. */
  lemma PauseAffectsNoOther(q: seq<Alarm>, id: nat, other: nat, resolution: nat, s1: nat, s2: nat)
    requires Sane(q, s2) && Sorted(q) && Distinct(q) && other != id && resolution > 0
    ensures var r, p := Seconds(q, resolution, s1, s2), Seconds(Without(q, id), resolution, s1, s2);
            TimesOf(r.log, other) == TimesOf(p.log, other) && Lookup(r.queue, other) == Lookup(p.queue, other)
  {
    WithoutKeeps(q, id, s2);
    LookupWithout(q, id, other);
    SecondsDecompose(q, resolution, s1, s2, other);
    SecondsDecompose(Without(q, id), resolution, s1, s2, other);
  }
}
