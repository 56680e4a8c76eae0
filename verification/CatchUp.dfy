/** The catch-up of a repeating time event: a u_int32 alarm moves by its interval until it is past the clock. */
module CatchUps {
  import opened Common
  import opened Arithmetic

  /** The alarm after `k` steps. */
  function After(time: nat, interval: nat, k: nat): nat {
    (time + k * interval) % U32_LIMIT
  }

  predicate IsPast(time: nat, interval: nat, now: int, k: nat) {
    now < After(time, interval, k)
  }

  /** The largest power of two that divides the interval. */
  function TwoPart(interval: nat): (g: nat)
    requires interval > 0
    ensures 0 < g <= interval
  {
    if interval % 2 == 1 then 1 else 2 * TwoPart(interval / 2)
  }

  /** The latest alarm that steps of this interval come to, wrapping around as they may. */
  function Top(time: nat, interval: nat): int
    requires interval > 0
  {
    U32_LIMIT - TwoPart(interval) + time % TwoPart(interval)
  }

  /** An interval is an odd number times its power of two. */
  lemma {:induction false} TwoPartIs(interval: nat) returns (e: nat, m: nat)
    requires interval > 0
    ensures TwoPart(interval) == Pow2(e) && interval == m * Pow2(e) && m % 2 == 1
  {
    if interval % 2 == 1 {
      e, m := 0, interval;
    } else {
      var e', m' := TwoPartIs(interval / 2);
      e, m := e' + 1, m';
      Associate(m, 2, Pow2(e'));
      assert interval == 2 * (m * Pow2(e'));
    }
  }

  /** Multiples of an odd number reach every residue modulo a power of two. */
  lemma {:induction false} OddReaches(m: nat, r: int, j: nat) returns (k: nat, q: int)
    requires m % 2 == 1
    ensures m * k - r == q * Pow2(j)
  {
    if j == 0 {
      k, q := 0, -r;
    } else {
      var k', q' := OddReaches(m, r, j - 1);
      var p := Pow2(j - 1);
      if q' % 2 == 0 {
        k, q := k', q' / 2;
      } else {
        k, q := k' + p, (q' + m) / 2;
        Lifted(m, k', r, q', p);
      }
      Associate(q, 2, p);
    }
  }

  lemma Lifted(m: nat, k: nat, r: int, q: int, p: nat)
    requires m * k - r == q * p
    ensures m * (k + p) - r == (q + m) * p
  {
    assert m * (k + p) == m * k + m * p;
    Distribute(q + m, q, m, p);
  }

  // ---- when the loop ends ----

  /** Every alarm has the remainder of the first, and so is at most the top one. */
  lemma AtMostTop(time: nat, interval: nat, k: nat)
    requires interval > 0
    ensures interval < U32_LIMIT ==> After(time, interval, k) <= Top(time, interval)
    ensures interval < U32_LIMIT ==> After(time, interval, k) % TwoPart(interval) == time % TwoPart(interval)
  {
    if interval < U32_LIMIT {
      var e, m := TwoPartIs(interval);
      var g := Pow2(e);
      SmallPart(interval, e);
      var c := Pow2(32 - e);
      Pow32();
      PowSplit(32 - e, e);
      var v, w := After(time, interval, k), (time + k * interval) / U32_LIMIT;
      assert time + k * interval == w * U32_LIMIT + v;
      SameRemainder(time, g, k, m, w, c, v);
      BelowTop(v, c, g);
    }
  }

  lemma SmallPart(interval: nat, e: nat)
    requires 0 < interval < U32_LIMIT && Pow2(e) <= interval
    ensures e < 32
  {
    if e >= 32 {
      PowMono(32, e);
      Pow32();
    }
  }

  lemma SameRemainder(time: nat, g: nat, k: nat, m: nat, w: int, c: nat, v: nat)
    requires g > 0 && time + k * (m * g) == w * (c * g) + v
    ensures v % g == time % g
  {
    var q, r := time / g, time % g;
    assert time == q * g + r;
    Associate(k, m, g);
    Associate(w, c, g);
    assert v == (q + k * m - w * c) * g + r;
    Quotient(v, g, q + k * m - w * c, r);
  }

  lemma BelowTop(v: nat, c: nat, g: nat)
    requires g > 0 && v < c * g
    ensures v <= c * g - g + v % g
  {
    var q := v / g;
    assert v == q * g + v % g;
    if q >= c {
      MulMono(c, q, g);
    }
    MulMono(q, c - 1, g);
    assert (c - 1) * g == c * g - g;
  }

  /** And the top one is reached. */
  lemma TopReached(time: nat, interval: nat) returns (k: nat)
    requires 0 < interval < U32_LIMIT
    ensures After(time, interval, k) == Top(time, interval)
  {
    var e, m := TwoPartIs(interval);
    var g := Pow2(e);
    SmallPart(interval, e);
    var c := Pow2(32 - e);
    Pow32();
    PowSplit(32 - e, e);
    var x;
    k, x := OddReaches(m, c - 1 - time / g, 32 - e);
    StepsToTop(time, g, k, m, c, x);
    Quotient(time + k * interval, U32_LIMIT, x, U32_LIMIT - g + time % g);
  }

  lemma StepsToTop(time: nat, g: nat, k: nat, m: nat, c: nat, x: int)
    requires g > 0 && m * k - (c - 1 - time / g) == x * c
    ensures time + k * (m * g) == x * (c * g) + (c * g - g + time % g)
  {
    var q := time / g;
    assert time == q * g + time % g;
    Associate(k, m, g);
    Associate(x, c, g);
    Distribute(k * m, c - 1 - q, x * c, g);
    Distribute(c - 1 - q, c, -1 - q, g);
    assert (-1 - q) * g == 0 - (g + q * g);
  }

  /** The catch-up ends exactly if the top alarm is past the clock. */
  lemma CatchUpEndsIff(time: nat, interval: nat, now: int)
    requires 0 < interval < U32_LIMIT
    ensures (exists k :: IsPast(time, interval, now, k)) <==> now < Top(time, interval)
  {
    if k: nat :| IsPast(time, interval, now, k) {
      AtMostTop(time, interval, k);
    }
    if now < Top(time, interval) {
      var k := TopReached(time, interval);
      assert IsPast(time, interval, now, k);
    }
  }

  // ---- where the loop ends ----

  ghost function FirstPastFrom(time: nat, interval: nat, now: int, j: nat, k: nat): (r: nat)
    requires j <= k && IsPast(time, interval, now, k)
    ensures j <= r && IsPast(time, interval, now, r)
    ensures forall i :: j <= i < r ==> !IsPast(time, interval, now, i)
    decreases k - j
  {
    if IsPast(time, interval, now, j) then j else FirstPastFrom(time, interval, now, j + 1, k)
  }

  /** How many steps the loop takes. */
  ghost function Steps(time: nat, interval: U32, now: int): (r: nat)
    requires interval > 0 && now < Top(time, interval)
    ensures IsPast(time, interval, now, r)
    ensures forall i :: 0 <= i < r ==> !IsPast(time, interval, now, i)
  {
    CatchUpEndsIff(time, interval, now);
    var k: nat :| IsPast(time, interval, now, k);
    FirstPastFrom(time, interval, now, 0, k)
  }

  /** The alarm the loop ends at; if it does not end, the alarm is left as it was. */
  ghost function CaughtUp(time: U32, interval: U32, now: int): U32
    requires interval > 0
  {
    if now < Top(time, interval) then After(time, interval, Steps(time, interval, now)) else time
  }

  lemma CaughtUpIs(time: U32, interval: U32, now: int)
    requires interval > 0
    ensures now < Top(time, interval) ==> now < CaughtUp(time, interval, now)
    ensures Top(CaughtUp(time, interval, now), interval) == Top(time, interval)
    ensures now < time ==> now < Top(time, interval) && CaughtUp(time, interval, now) == time
  {
    AtMostTop(time, interval, 0);
    if now < Top(time, interval) {
      AtMostTop(time, interval, Steps(time, interval, now));
      if now < time {
        assert IsPast(time, interval, now, 0);
      }
    }
  }

  /** One turn of the loop gets one step closer to where it ends. */
  lemma OneStep(time: U32, interval: U32, now: int)
    requires interval > 0 && time <= now < Top(time, interval)
    ensures var next := After(time, interval, 1);
            && Top(next, interval) == Top(time, interval)
            && Steps(next, interval, now) == Steps(time, interval, now) - 1
            && CaughtUp(next, interval, now) == CaughtUp(time, interval, now)
  {
    var next := After(time, interval, 1);
    AtMostTop(time, interval, 1);
    forall k: nat
      ensures After(next, interval, k) == After(time, interval, k + 1)
    {
      StepFirst(time, interval, k);
    }
    hide After, Top;
    var n, m := Steps(time, interval, now), Steps(next, interval, now);
    assert !IsPast(time, interval, now, 0) by { Standing(time, interval); }
    assert n > 0 && IsPast(next, interval, now, n - 1);
    assert IsPast(time, interval, now, m + 1);
  }

  lemma Standing(time: U32, interval: nat)
    ensures After(time, interval, 0) == time
  {
  }

  lemma FirstStep(time: nat, interval: nat)
    ensures After(time, interval, 1) == (time + interval) % U32_LIMIT
  {
  }

  lemma StepFirst(time: nat, interval: nat, k: nat)
    ensures After(After(time, interval, 1), interval, k) == After(time, interval, k + 1)
  {
    var a, b := time + interval, k * interval;
    assert (k + 1) * interval == b + interval;
    var x := a % U32_LIMIT + b;
    Quotient(a + b, U32_LIMIT, a / U32_LIMIT + x / U32_LIMIT, x % U32_LIMIT);
  }

  // ---- without wrapping around ----

  /** The first of time, time + interval, ... that lies after `now`. */
  function NextAlarm(time: nat, interval: nat, now: int): nat
    requires interval > 0
  {
    if time > now then time else time + ((now - time) / interval + 1) * interval
  }

  lemma NextAlarmIs(time: nat, interval: nat, now: int)
    requires interval > 0
    ensures now < NextAlarm(time, interval, now)
    ensures time <= now ==> NextAlarm(time, interval, now) <= now + interval
  {
    if time <= now {
      var k := (now - time) / interval;
      assert now - time == k * interval + (now - time) % interval;
      assert (k + 1) * interval == k * interval + interval;
    }
  }

  /** The loop ends at the first alarm after the clock exactly if that still is a u_int32. */
  lemma CaughtUpIff(time: U32, interval: U32, now: int)
    requires interval > 0
    ensures CaughtUp(time, interval, now) == NextAlarm(time, interval, now)
       <==> NextAlarm(time, interval, now) < U32_LIMIT
    ensures NextAlarm(time, interval, now) < U32_LIMIT ==> now < Top(time, interval)
  {
    if now < time {
      CaughtUpIs(time, interval, now);
    } else if NextAlarm(time, interval, now) < U32_LIMIT {
      var n := (now - time) / interval;
      NextAlarmIs(time, interval, now);
      assert now - time == n * interval + (now - time) % interval;
      Unwrapped(time, interval, n + 1, n + 1);
      AtMostTop(time, interval, n + 1);
      assert IsPast(time, interval, now, n + 1);
      var k := Steps(time, interval, now);
      if k < n + 1 {
        Unwrapped(time, interval, k, n + 1);
        MulMono(k, n, interval);
      }
    }
  }

  lemma Unwrapped(time: nat, interval: nat, k: nat, n: nat)
    requires k <= n && time + n * interval < U32_LIMIT
    ensures After(time, interval, k) == time + k * interval
  {
    MulMono(k, n, interval);
  }

  /** An alarm close to the end of the range whose interval steps over it: no alarm is ever past the clock. */
  lemma NeverPast(k: nat)
    ensures !IsPast(0xFFFF_FFF0, 0x20, 0xFFFF_FFF0, k)
  {
    assert TwoPart(0x20) == 0x20;
    CatchUpEndsIff(0xFFFF_FFF0, 0x20, 0xFFFF_FFF0);
  }
}
