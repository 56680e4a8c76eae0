/** The capacity of a record: a u_int32 that put doubles until the next block fits. */
module Growth {
  import opened Common
  import opened Arithmetic

  function Doubled(capacity: nat): nat {
    2 * capacity % U32_LIMIT
  }

  function Doublings(capacity: nat, k: nat): nat {
    if k == 0 then capacity else Doubled(Doublings(capacity, k - 1))
  }

  /** The capacity the loop is at after `turns` turns, or where it ended before. */
  function Grown(capacity: nat, goal: nat, turns: nat): nat
    decreases turns
  {
    if goal <= capacity || turns == 0 then capacity else Grown(Doubled(capacity), goal, turns - 1)
  }

  const TURNS := 32  // no capacity takes more turns, see GrowthEndsIff

  /** The loop ends, and on the way there is always room for the `size` bytes that grow copies. */
  predicate CanGrow(capacity: nat, size: nat, goal: nat, turns: nat)
    decreases turns
  {
    goal <= capacity
    || (turns > 0 && size <= Doubled(capacity) && CanGrow(Doubled(capacity), size, goal, turns - 1))
  }

  lemma {:induction false} DoublingsIs(capacity: nat, k: nat)
    requires capacity < U32_LIMIT
    ensures Doublings(capacity, k) == capacity * Pow2(k) % U32_LIMIT
  {
    if k > 0 {
      DoublingsIs(capacity, k - 1);
      var v := capacity * Pow2(k - 1);
      assert capacity * Pow2(k) == 2 * v;
      Quotient(2 * v, U32_LIMIT, 2 * (v / U32_LIMIT) + 2 * (v % U32_LIMIT) / U32_LIMIT, Doubled(v % U32_LIMIT));
    }
  }

  lemma {:induction false} DoublingsStep(capacity: nat, k: nat)
    ensures Doublings(capacity, k + 1) == Doublings(Doubled(capacity), k)
  {
    if k > 0 {
      DoublingsStep(capacity, k - 1);
    }
  }

  /** After that many turns the loop is past the goal. */
  predicate Ends(capacity: nat, goal: nat, turns: nat) {
    goal <= Grown(capacity, goal, turns)
  }

  predicate Reaches(capacity: nat, goal: nat, k: nat) {
    goal <= Doublings(capacity, k)
  }

  lemma {:induction false} EndsAt(capacity: nat, goal: nat, turns: nat) returns (k: nat)
    requires Ends(capacity, goal, turns)
    ensures k <= turns && Reaches(capacity, goal, k)
    decreases turns
  {
    k := 0;
    if capacity < goal {
      k := EndsAt(Doubled(capacity), goal, turns - 1);
      DoublingsStep(capacity, k);
      k := k + 1;
    }
  }

  lemma {:induction false} ReachedEnds(capacity: nat, goal: nat, k: nat, turns: nat)
    requires Reaches(capacity, goal, k) && k <= turns
    ensures Ends(capacity, goal, turns)
    decreases turns
  {
    if capacity < goal && k > 0 {
      DoublingsStep(capacity, k - 1);
      ReachedEnds(Doubled(capacity), goal, k - 1, turns - 1);
    }
  }

  lemma {:induction false} ZeroStays(capacity: nat, k: nat)
    requires capacity < U32_LIMIT
    ensures Doublings(capacity, TURNS + k) == 0
  {
    if k == 0 {
      DoublingsIs(capacity, TURNS);
      Pow32();
      Quotient(capacity * U32_LIMIT, U32_LIMIT, capacity, 0);
    } else {
      ZeroStays(capacity, k - 1);
    }
  }

  /**
   * The growth loop ends exactly if one of the first 32 doublings of the capacity, modulo 2^32, reaches the
   * goal; and if it does, then within 32 turns.
   */
  lemma GrowthEndsIff(capacity: nat, goal: nat)
    requires capacity < U32_LIMIT
    ensures (exists turns :: Ends(capacity, goal, turns))
       <==> (exists k: nat | k <= TURNS :: goal <= capacity * Pow2(k) % U32_LIMIT)
    ensures (exists turns :: Ends(capacity, goal, turns)) <==> Ends(capacity, goal, TURNS)
  {
    hide Grown, Doublings, Pow2;
    if turns: nat :| Ends(capacity, goal, turns) {
      var k := EndsWithin(capacity, goal, turns);
      ReachedEnds(capacity, goal, k, TURNS);
      DoublingsIs(capacity, k);
    }
    if k: nat :| k <= TURNS && goal <= capacity * Pow2(k) % U32_LIMIT {
      DoublingsIs(capacity, k);
      ReachedEnds(capacity, goal, k, TURNS);
    }
  }

  lemma EndsWithin(capacity: nat, goal: nat, turns: nat) returns (k: nat)
    requires capacity < U32_LIMIT && Ends(capacity, goal, turns)
    ensures k <= TURNS && Reaches(capacity, goal, k)
  {
    k := EndsAt(capacity, goal, turns);
    if k > TURNS {
      ZeroStays(capacity, k - TURNS);
      k := 0;
    }
  }

  /** A capacity that is a power of two, like that of a new record, only ever reaches 2^31. */
  lemma PowerOfTwoEndsIff(p: nat, goal: nat, turns: nat)
    requires p < 32 && 32 <= turns
    ensures Ends(Pow2(p), goal, turns) <==> goal <= U32_LIMIT / 2
  {
    Pow32();
    hide Grown, Doublings, Pow2;
    if goal <= U32_LIMIT / 2 {
      PowerDoublings(p, 31 - p);
      ReachedEnds(Pow2(p), goal, 31 - p, turns);
    }
    if Ends(Pow2(p), goal, turns) {
      var k := EndsAt(Pow2(p), goal, turns);
      PowerDoublings(p, k);
      if p + k <= 31 {
        PowMono(p + k, 31);
      }
    }
  }

  lemma {:induction false} PowerDoublings(p: nat, k: nat)
    requires p < 32
    ensures Doublings(Pow2(p), k) == if p + k <= 31 then Pow2(p + k) else 0
  {
    if k > 0 {
      PowerDoublings(p, k - 1);
      Pow32();
      if p + k <= 31 {
        PowMono(p + k, 31);
      }
    }
  }

  /** In a new record of the default capacity, a block that takes it one byte beyond 2^31 never fits. */
  lemma DefaultGrowthStuck(turns: nat)
    ensures !Ends(32, 0x8000_0001, turns)
  {
    assert Pow2(5) == 32;
    PowerOfTwoEndsIff(5, 0x8000_0001, TURNS);
    GrowthEndsIff(32, 0x8000_0001);
  }

  /** Doublings of a counter that does not wrap around. */
  function Scaled(capacity: nat, k: nat): (r: nat)
    ensures capacity <= r
  {
    if k == 0 then capacity else 2 * Scaled(capacity, k - 1)
  }

  /** As long as the counter does not wrap around and is below the goal, the loop goes on. */
  lemma {:induction false} Unwrapped(capacity: nat, j: nat, size: nat, goal: nat, turns: nat)
    requires j <= turns && size <= capacity && Scaled(capacity, j) < goal <= U32_LIMIT
    ensures Grown(capacity, goal, turns) == Grown(Scaled(capacity, j), goal, turns - j)
    ensures CanGrow(capacity, size, goal, turns) <==> CanGrow(Scaled(capacity, j), size, goal, turns - j)
    decreases j
  {
    hide Grown, CanGrow, Doubled;
    if j > 0 {
      Unwrapped(capacity, j - 1, size, goal, turns);
      UnwrappedTurn(Scaled(capacity, j - 1), size, goal, turns - (j - 1));
    }
  }

  lemma UnwrappedTurn(capacity: nat, size: nat, goal: nat, turns: nat)
    requires turns > 0 && size <= capacity && 2 * capacity < goal <= U32_LIMIT
    ensures Grown(capacity, goal, turns) == Grown(2 * capacity, goal, turns - 1)
    ensures CanGrow(capacity, size, goal, turns) <==> CanGrow(2 * capacity, size, goal, turns - 1)
  {
  }

  /** A counter that wraps around can still get there: 11, 22, ..., 0xB0000000, 0x60000000, 0xC0000000. */
  lemma WrappedGrowthEnds()
    ensures CanGrow(11, 1, 0xB800_0000, TURNS) && Grown(11, 0xB800_0000, TURNS) == 0xC000_0000
  {
    hide Grown, CanGrow;
    assert Scaled(11, 8) == 0xB00;
    assert Scaled(11, 16) == 0xB_0000;
    assert Scaled(11, 24) == 0xB00_0000;
    assert Scaled(11, 28) == 0xB000_0000;
    Unwrapped(11, 28, 1, 0xB800_0000, TURNS);
    LastTurns(0xB000_0000);
  }

  lemma LastTurns(capacity: nat)
    requires capacity == 0xB000_0000
    ensures CanGrow(capacity, 1, 0xB800_0000, 4) && Grown(capacity, 0xB800_0000, 4) == 0xC000_0000
  {
  }

  lemma {:induction false} ScaledBeyond(capacity: nat, k: nat)
    ensures capacity > 0 ==> Pow2(k) <= Scaled(capacity, k)
    ensures k > 0 ==> Scaled(capacity, k) == Scaled(2 * capacity, k - 1)
  {
    if k > 0 {
      ScaledBeyond(capacity, k - 1);
    }
  }

  lemma {:induction false} ReachedUnwrapped(capacity: nat, size: nat, goal: nat, turns: nat)
    requires size <= capacity < U32_LIMIT && goal <= U32_LIMIT / 2 <= Scaled(capacity, turns)
    ensures CanGrow(capacity, size, goal, turns)
    decreases turns
  {
    if capacity < goal {
      ScaledBeyond(capacity, turns);
      ReachedUnwrapped(2 * capacity, size, goal, turns - 1);
    }
  }

  /** Every goal up to 2^31 is reached from any capacity, without wrapping around. */
  lemma HalfTheRangeIsReached(capacity: nat, size: nat, goal: nat)
    requires 0 < capacity && size <= capacity < U32_LIMIT && goal <= U32_LIMIT / 2
    ensures CanGrow(capacity, size, goal, TURNS)
  {
    Pow32();
    ScaledBeyond(capacity, TURNS);
    hide Pow2, Scaled, CanGrow;
    ReachedUnwrapped(capacity, size, goal, TURNS);
  }

  /** After that many turns there is still room for the content. */
  predicate HasRoom(capacity: nat, size: nat, goal: nat, turns: nat) {
    size <= Grown(capacity, goal, turns)
  }

  /** A put succeeds exactly if the loop ends and no capacity on the way is below the size of the content. */
  lemma {:induction false} CanGrowIff(capacity: nat, size: nat, goal: nat, turns: nat)
    requires size <= capacity
    ensures CanGrow(capacity, size, goal, turns)
       <==> Ends(capacity, goal, turns) && forall t | 0 <= t <= turns :: HasRoom(capacity, size, goal, t)
    decreases turns
  {
    if capacity < goal && turns > 0 {
      var next := Doubled(capacity);
      assert forall t | 0 < t <= turns :: HasRoom(capacity, size, goal, t) <==> HasRoom(next, size, goal, t - 1);
      assert HasRoom(capacity, size, goal, 0);
      assert HasRoom(capacity, size, goal, 1) <==> size <= next;
      if size <= next {
        CanGrowIff(next, size, goal, turns - 1);
        if forall t | 0 <= t <= turns :: HasRoom(capacity, size, goal, t) {
          forall t | 0 <= t <= turns - 1
            ensures HasRoom(next, size, goal, t)
          {
            assert HasRoom(capacity, size, goal, t + 1);
          }
        }
      }
    }
  }
}
