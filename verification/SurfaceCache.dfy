/** The reference-counted cache of surfaces. */
module SurfaceCache {
  import opened Common
  import opened Arithmetic

  /** Address of a surface; addresses of deleted surfaces may be used again. */
  type Surface = nat

  /** A cache entry: the surface, its size, and its RefCount. */
  datatype Entry = Entry(s: Surface, size: nat, refs: nat)

  type Entries = map<string, Entry>

  datatype BlendMode = AUTOMATIC | BLEND | NONE

  // ---- names ----

  function BoolText(b: bool): (s: string)
    ensures |s| == 1
  {
    if b then "1" else "0"
  }

  function BlendText(m: BlendMode): (s: string)
    ensures |s| == 1
  {
    match m
    case AUTOMATIC => "0"
    case BLEND => "1"
    case NONE => "2"
  }

  /** The name under which an image loaded with these parameters is cached. */
  function CacheName(file: string, mask: bool, invertX: bool, invertY: bool, alpha: BlendMode): (name: string)
    ensures |name| == |file| + 8
  {
    file + "_" + BoolText(mask) + "_" + BoolText(invertX) + "_" + BoolText(invertY) + "_" + BlendText(alpha)
  }

  /** The name of the file and four digits, in the order of the parameters. */
  lemma CacheNameIs(file: string, mask: bool, invertX: bool, invertY: bool, alpha: BlendMode)
    ensures CacheName(file, mask, invertX, invertY, alpha)
         == file + ['_', if mask then '1' else '0', '_', if invertX then '1' else '0',
                    '_', if invertY then '1' else '0',
                    '_', if alpha.AUTOMATIC? then '0' else if alpha.BLEND? then '1' else '2']
  {
  }

  /** Different parameters never share an entry. */
  lemma CacheNameInjective(f: string, m: bool, x: bool, y: bool, a: BlendMode,
                           f': string, m': bool, x': bool, y': bool, a': BlendMode)
    requires CacheName(f, m, x, y, a) == CacheName(f', m', x', y', a')
    ensures f == f' && m == m' && x == x' && y == y' && a == a'
  {
    NameParts(f, m, x, y, a);
    NameParts(f', m', x', y', a');
    hide CacheName;
  }

  lemma NameParts(f: string, m: bool, x: bool, y: bool, a: BlendMode)
    ensures var s, n := CacheName(f, m, x, y, a), |f|;
            && s[..n] == f && s[n + 1] == BoolText(m)[0] && s[n + 3] == BoolText(x)[0]
            && s[n + 5] == BoolText(y)[0] && s[n + 7] == BlendText(a)[0]
  {
    hide BoolText, BlendText;
  }

  // ---- sizes ----

  ghost function TotalSize(c: Entries): nat
    decreases c.Keys
  {
    if c == map[] then 0
    else
      var k :| k in c;
      c[k].size + TotalSize(c - {k})
  }

  lemma {:induction false} TotalSizeOf(c: Entries, k: string)
    requires k in c
    ensures TotalSize(c) == c[k].size + TotalSize(c - {k})
    decreases c.Keys
  {
    var j :| j in c && TotalSize(c) == c[j].size + TotalSize(c - {j});
    if j != k {
      TotalSizeOf(c - {j}, k);
      TotalSizeOf(c - {k}, j);
      assert c - {j} - {k} == c - {k} - {j};
    }
  }

  lemma TotalSizeUpdate(c: Entries, k: string, e: Entry)
    ensures TotalSize(c[k := e]) == TotalSize(c - {k}) + e.size
  {
    TotalSizeOf(c[k := e], k);
    assert c[k := e] - {k} == c - {k};
  }

  // ---- what an erased entry does ----

  /** free_by_name without the purge that follows: one reference less, never below zero. */
  function Release(c: Entries, name: string): Entries {
    if name in c && c[name].refs > 0 then c[name := c[name].(refs := c[name].refs - 1)] else c
  }

  /** A u_int32 counter. */
  function Wrap(v: int): nat {
    v % U32_LIMIT
  }

  lemma WrapPlus(a: int, d: int)
    ensures Wrap(Wrap(a) + d) == Wrap(a + d)
  {
    var x := Wrap(a) + d;
    Quotient(a + d, U32_LIMIT, a / U32_LIMIT + x / U32_LIMIT, Wrap(x));
  }

  lemma WrapMinus(a: int, b: nat)
    ensures Wrap(Wrap(a) - b) == Wrap(a - b) && Wrap(Wrap(a) + b) == Wrap(a + b)
    ensures Wrap(Wrap(a - b) + b) == Wrap(a)
  {
    WrapPlus(a, -(b as int));
    WrapPlus(a, b);
    WrapPlus(a - b, b);
    hide Wrap;
  }

  /** What a purge works on: the entries and the memory used. */
  datatype Memory = Memory(cache: Entries, used: nat)

  /** The loop of conditional_purge over the rest of the iteration; `order` is that of the map. */
  function PurgeIn(m: Memory, max: nat, keys: seq<string>, order: seq<string>): (r: Memory)
    ensures r.cache.Keys <= m.cache.Keys
    decreases m.cache.Keys, |keys|
  {
    if keys == [] || m.used < max then m
    else if keys[0] in m.cache && m.cache[keys[0]].refs == 0 then
      PurgeIn(EraseIn(m, max, keys[0], order), max, keys[1..], order)
    else PurgeIn(m, max, keys[1..], order)
  }

  /**
   * Deleting a surface and erasing its entry, whose destructor frees the surface once more: it has no name
   * any more, and so the entry called "" is released, which starts another purge.
   */
  function EraseIn(m: Memory, max: nat, k: string, order: seq<string>): (r: Memory)
    requires k in m.cache
    ensures r.cache.Keys <= m.cache.Keys - {k}
    decreases m.cache.Keys, 0
  {
    var c, used := m.cache - {k}, Wrap(m.used - m.cache[k].size);
    if "" in c then PurgeIn(Memory(Release(c, ""), used), max, order, order) else Memory(c, used)
  }

  /** Entries with references are still there with all of them. */
  predicate Harmless(m: Memory, r: Memory) {
    forall k :: k in m.cache && m.cache[k].refs > 0 ==> k in r.cache && r.cache[k] == m.cache[k]
  }

  predicate UnnamedFree(c: Entries) {
    "" in c ==> c[""].refs == 0
  }

  lemma {:induction false} PurgeHarmless(m: Memory, max: nat, keys: seq<string>, order: seq<string>)
    requires UnnamedFree(m.cache)
    ensures var r := PurgeIn(m, max, keys, order); Harmless(m, r) && UnnamedFree(r.cache)
    ensures forall k :: k in PurgeIn(m, max, keys, order).cache ==> PurgeIn(m, max, keys, order).cache[k] == m.cache[k]
    decreases m.cache.Keys, |keys|
  {
    if keys != [] && m.used >= max {
      if keys[0] in m.cache && m.cache[keys[0]].refs == 0 {
        EraseHarmless(m, max, keys[0], order);
        PurgeHarmless(EraseIn(m, max, keys[0], order), max, keys[1..], order);
      } else {
        PurgeHarmless(m, max, keys[1..], order);
      }
    }
  }

  lemma {:induction false} EraseHarmless(m: Memory, max: nat, k: string, order: seq<string>)
    requires UnnamedFree(m.cache) && k in m.cache && m.cache[k].refs == 0
    ensures var r := EraseIn(m, max, k, order); Harmless(m, r) && UnnamedFree(r.cache)
    ensures forall j :: j in EraseIn(m, max, k, order).cache ==> EraseIn(m, max, k, order).cache[j] == m.cache[j]
    decreases m.cache.Keys, 0
  {
    var c, used := m.cache - {k}, Wrap(m.used - m.cache[k].size);
    if "" in c {
      assert Release(c, "") == c;
      PurgeHarmless(Memory(c, used), max, order, order);
    }
  }

  /** No purge raises the count of the entry called "". */
  lemma {:induction false} PurgeLowers(m: Memory, max: nat, keys: seq<string>, order: seq<string>)
    ensures var r := PurgeIn(m, max, keys, order); "" in r.cache ==> r.cache[""].refs <= m.cache[""].refs
    decreases m.cache.Keys, |keys|
  {
    if keys != [] && m.used >= max {
      if keys[0] in m.cache && m.cache[keys[0]].refs == 0 {
        EraseLowers(m, max, keys[0], order);
        PurgeLowers(EraseIn(m, max, keys[0], order), max, keys[1..], order);
      } else {
        PurgeLowers(m, max, keys[1..], order);
      }
    }
  }

  lemma {:induction false} EraseLowers(m: Memory, max: nat, k: string, order: seq<string>)
    requires k in m.cache
    ensures var r := EraseIn(m, max, k, order);
            "" in r.cache ==>
              && r.cache[""].refs <= m.cache[""].refs
              && (m.cache[""].refs > 0 ==> r.cache[""].refs < m.cache[""].refs)
    decreases m.cache.Keys, 0
  {
    var c, used := m.cache - {k}, Wrap(m.used - m.cache[k].size);
    if "" in c {
      PurgeLowers(Memory(Release(c, ""), used), max, order, order);
    }
  }

  /** A purge that finds something to erase takes a reference from the entry called "". */
  lemma {:induction false} PurgeHarms(m: Memory, max: nat, keys: seq<string>, order: seq<string>)
    requires "" in m.cache && m.cache[""].refs > 0 && m.used >= max
    requires exists i :: 0 <= i < |keys| && keys[i] in m.cache && m.cache[keys[i]].refs == 0
    ensures !Harmless(m, PurgeIn(m, max, keys, order))
    decreases |keys|
  {
    if keys[0] in m.cache && m.cache[keys[0]].refs == 0 {
      EraseLowers(m, max, keys[0], order);
      PurgeLowers(EraseIn(m, max, keys[0], order), max, keys[1..], order);
    } else {
      var i :| 0 <= i < |keys| && keys[i] in m.cache && m.cache[keys[i]].refs == 0;
      assert keys[1..][i - 1] == keys[i];
      PurgeHarms(m, max, keys[1..], order);
    }
  }

  predicate Covers(order: seq<string>, c: Entries) {
    forall k :: k in c ==> k in order
  }

  /** An entry without references waits for a purge that has to free memory. */
  predicate HasWork(m: Memory, max: nat) {
    m.used >= max && exists k :: k in m.cache && m.cache[k].refs == 0
  }

  lemma {:induction false} NothingToErase(m: Memory, max: nat, keys: seq<string>, order: seq<string>)
    requires !HasWork(m, max)
    ensures PurgeIn(m, max, keys, order) == m
    decreases |keys|
  {
    if keys != [] && m.used >= max {
      NothingToErase(m, max, keys[1..], order);
    }
  }

  /**
   * A purge leaves every entry with references as it is exactly if no entry called "" has some, or there is
   * nothing to erase: whatever the names in the cache, and however far the purges nest.
   */
  lemma PurgeHarmlessIff(c: SurfaceCacher, order: seq<string>)
    requires Covers(order, c.cache)
    ensures var m := Memory(c.cache, c.memUsed);
            Harmless(m, PurgeIn(m, c.memMax, order, order)) <==> UnnamedFree(m.cache) || !HasWork(m, c.memMax)
  {
    var m := Memory(c.cache, c.memUsed);
    if UnnamedFree(m.cache) {
      PurgeHarmless(m, c.memMax, order, order);
    } else if HasWork(m, c.memMax) {
      var k :| k in m.cache && m.cache[k].refs == 0;
      assert k in order;
      PurgeHarms(m, c.memMax, order, order);
    } else {
      NothingToErase(m, c.memMax, order, order);
    }
  }

  lemma OnePurged(m0: Memory, max: nat, done: seq<string>, k: string)
    requires "" !in m0.cache && PurgeIn(m0, max, done, []).used >= max && k in PurgeIn(m0, max, done, []).cache
    ensures var m := PurgeIn(m0, max, done, []);
            PurgeIn(m0, max, done + [k], []) == if m.cache[k].refs != 0 then m
                                               else Memory(m.cache - {k}, Wrap(m.used - m.cache[k].size))
  {
    var m := PurgeIn(m0, max, done, []);
    PurgeAppend(m0, max, done, [k], [], []);
    PurgeTurn(m, max, [k], []);
    assert [k][1..] == [];
    hide PurgeIn;
    if m.cache[k].refs == 0 {
      PurgeTurn(EraseIn(m, max, k, []), max, [], []);
    } else {
      PurgeTurn(m, max, [], []);
    }
  }

  /** A purge of these entries, in some order that the map may have. */
  ghost predicate PurgedInOrder(before: Entries, usedBefore: nat, after: Entries, used: nat, max: nat) {
    exists order | Covers(order, before) ::
      Memory(after, used) == PurgeIn(Memory(before, usedBefore), max, order, order)
  }

  /** The entries looked at so far and those left, in any order, make up such a purge. */
  lemma PurgeDone(before: Entries, usedBefore: nat, done: seq<string>, todo: set<string>, after: Entries, used: nat,
                  max: nat)
    requires "" !in before && (forall k :: k in before ==> k in done || k in todo)
    requires Memory(after, used) == PurgeIn(Memory(before, usedBefore), max, done, [])
    requires todo == {} || used < max
    ensures PurgedInOrder(before, usedBefore, after, used, max)
  {
    var order := done + SeqOf(todo);
    assert SeqOf({}) == [];
    PurgeAppend(Memory(before, usedBefore), max, done, SeqOf(todo), [], order);
    assert Covers(order, before);
  }

  /** Two entries, that of an unused image and one called "" whose surface is held: the purge deletes both. */
  lemma PurgeDeletesHeld()
    ensures var c := map["" := Entry(1, 8, 1), "a_0_0_0_0" := Entry(2, 16, 0)];
            var order := ["", "a_0_0_0_0"];
            PurgeIn(Memory(c, 24), 0, order, order) == Memory(map[], 0)
  {
    var c := map["" := Entry(1, 8, 1), "a_0_0_0_0" := Entry(2, 16, 0)];
    var order := ["", "a_0_0_0_0"];
    assert c - {"a_0_0_0_0"} == map["" := Entry(1, 8, 1)];
    var c' := map["" := Entry(1, 8, 0)];
    assert Release(map["" := Entry(1, 8, 1)], "") == c' && c' - {""} == map[];
    assert order[1..] == ["a_0_0_0_0"] && order[1..][1..] == [];
    hide PurgeIn, EraseIn;
    PurgeTurn(Memory(c, 24), 0, order, order);
    PurgeTurn(Memory(c, 24), 0, order[1..], order);
    EraseTurn(Memory(c, 24), 0, "a_0_0_0_0", order);
    PurgeTurn(Memory(c', 8), 0, order, order);
    EraseTurn(Memory(c', 8), 0, "", order);
    PurgeTurn(Memory(map[], 0), 0, order[1..], order);
    PurgeTurn(Memory(map[], 0), 0, [], order);
  }

  lemma PurgeTurn(m: Memory, max: nat, keys: seq<string>, order: seq<string>)
    ensures PurgeIn(m, max, keys, order) ==
            if keys == [] || m.used < max then m
            else if keys[0] in m.cache && m.cache[keys[0]].refs == 0 then
              PurgeIn(EraseIn(m, max, keys[0], order), max, keys[1..], order)
            else PurgeIn(m, max, keys[1..], order)
  {
  }

  lemma EraseTurn(m: Memory, max: nat, k: string, order: seq<string>)
    requires k in m.cache
    ensures EraseIn(m, max, k, order) == (
              var c, used := m.cache - {k}, Wrap(m.used - m.cache[k].size);
              if "" in c then PurgeIn(Memory(Release(c, ""), used), max, order, order) else Memory(c, used))
  {
  }

  // ---- without an entry called "" ----

  /** The order of the map only matters to the nested purge, which then does not take place. */
  lemma {:induction false} PurgeAppend(m: Memory, max: nat, a: seq<string>, b: seq<string>,
                                       o: seq<string>, o': seq<string>)
    requires "" !in m.cache
    ensures "" !in PurgeIn(m, max, a, o).cache
    ensures PurgeIn(m, max, a + b, o') == PurgeIn(PurgeIn(m, max, a, o), max, b, o')
    decreases |a|
  {
    if a == [] {
      assert a + b == b;
    } else if m.used < max {
    } else {
      assert (a + b)[1..] == a[1..] + b;
      var next := if a[0] in m.cache && m.cache[a[0]].refs == 0 then EraseIn(m, max, a[0], o) else m;
      PurgeAppend(next, max, a[1..], b, o, o');
    }
  }

  ghost function SeqOf(s: set<string>): (r: seq<string>)
    ensures forall k :: k in s ==> k in r
  {
    if s == {} then []
    else
      var k :| k in s;
      [k] + SeqOf(s - {k})
  }

  // ---- the invariant ----

  type Names = map<Surface, string>

  /** No entry is called "", every cached surface has the name of its entry, and other surfaces have none. */
  ghost predicate Named(c: Entries, names: Names) {
    && "" !in c
    && (forall k :: k in c ==> c[k].s in names && names[c[k].s] == k)
    && (forall s :: s in names ==> names[s] == "" || (names[s] in c && c[names[s]].s == s))
  }

  predicate Cached(c: Entries, names: Names, s: Surface) {
    s in names && names[s] in c
  }

  /** Each count is the number of references handed out; a surface with one is in the cache. */
  ghost predicate Counted(c: Entries, names: Names, live: multiset<Surface>) {
    && (forall k :: k in c ==> c[k].refs == live[c[k].s])
    && (forall s :: s in live ==> Cached(c, names, s))
  }

  lemma EraseKeeps(c: Entries, names: Names, live: multiset<Surface>, k: string)
    requires Named(c, names) && Counted(c, names, live) && k in c && c[k].refs == 0
    ensures Named(c - {k}, names - {c[k].s}) && Counted(c - {k}, names - {c[k].s}, live)
  {
  }

  lemma ReleaseKeeps(c: Entries, names: Names, live: multiset<Surface>, k: string)
    requires Named(c, names) && Counted(c, names, live) && k in c
    ensures Named(Release(c, k), names) && Counted(Release(c, k), names, live - multiset{c[k].s})
  {
    hide TotalSize;
    if c[k].refs > 0 {
      CountedUpdate(c, names, live, k, c[k].(refs := c[k].refs - 1), live - multiset{c[k].s});
    } else {
      assert live - multiset{c[k].s} == live;
    }
  }

  lemma ReleaseSize(c: Entries, k: string)
    requires k in c
    ensures TotalSize(Release(c, k)) == TotalSize(c)
  {
    if c[k].refs > 0 {
      TotalSizeUpdate(c, k, c[k].(refs := c[k].refs - 1));
      TotalSizeOf(c, k);
    }
    hide TotalSize;
  }

  /** Changing the count of one entry along with the references to its surface. */
  lemma CountedUpdate(c: Entries, names: Names, live: multiset<Surface>, k: string, e: Entry, live': multiset<Surface>)
    requires Named(c, names) && Counted(c, names, live) && k in c && e.s == c[k].s && e.size == c[k].size
    requires e.refs == live'[e.s] && forall s :: s != e.s ==> live'[s] == live[s]
    ensures Named(c[k := e], names) && Counted(c[k := e], names, live')
    ensures TotalSize(c[k := e]) == TotalSize(c)
  {
    TotalSizeUpdate(c, k, e);
    TotalSizeOf(c, k);
    hide TotalSize;
    forall s | s in live'
      ensures Cached(c[k := e], names, s)
    {
      assert s in live || s == e.s;
    }
  }

  /** One reference more on a cached surface. */
  function NewRef(c: Entries, k: string): Entries
    requires k in c
  {
    c[k := c[k].(refs := c[k].refs + 1)]
  }

  lemma NewRefKeeps(c: Entries, names: Names, live: multiset<Surface>, k: string)
    requires Named(c, names) && Counted(c, names, live) && k in c
    ensures Named(NewRef(c, k), names) && Counted(NewRef(c, k), names, live + multiset{c[k].s})
    ensures TotalSize(NewRef(c, k)) == TotalSize(c)
  {
    hide TotalSize;
    CountedUpdate(c, names, live, k, c[k].(refs := c[k].refs + 1), live + multiset{c[k].s});
  }

  lemma InsertKeeps(c: Entries, names: Names, live: multiset<Surface>, k: string, e: Entry)
    requires Named(c, names) && Counted(c, names, live)
    requires k !in c && k != "" && !Cached(c, names, e.s) && e.refs == 2
    ensures Named(c[k := e], names[e.s := k]) && Counted(c[k := e], names[e.s := k], live + multiset{e.s, e.s})
    ensures TotalSize(c[k := e]) == TotalSize(c) + e.size
  {
    TotalSizeUpdate(c, k, e);
    assert c - {k} == c;
    hide TotalSize;
  }

  /**
   * What a purge did: only entries without references are gone; either the memory is below the limit or
   * none of them is left; and it stopped as soon as it was below.
   */
  ghost predicate Purged(before: Entries, after: Entries, used: nat, max: nat) {
    && (forall k :: k in after ==> k in before && after[k] == before[k])
    && (forall k :: k in before && k !in after ==> before[k].refs == 0)
    && (used < max || forall k :: k in after ==> after[k].refs > 0)
    && (after != before ==> exists k | k in before && k !in after :: Wrap(used + before[k].size) >= max)
  }

  lemma NamedAt(c: Entries, names: Names, k: string)
    requires Named(c, names) && k in c
    ensures Cached(c, names, c[k].s) && names[c[k].s] == k
  {
  }

  lemma PurgeKeeps(c: Entries, m: Entries, used: nat, max: nat, k: string)
    requires Purged(c, m, used, max) && k in c && c[k].refs > 0
    ensures k in m && m[k] == c[k]
  {
    hide Wrap;
  }

  /** A new entry with two references survives a purge, the release of one of them, and the purge after that. */
  lemma TwoPurges(c: Entries, name: string, e: Entry, m: Entries, used: nat, d: Entries, used': nat, max: nat)
    requires name !in c && e.refs == 2
    requires Purged(c[name := e], m, used, max) && Purged(Release(m, name), d, used', max)
    ensures name in m && m[name] == e && name in d && d[name] == e.(refs := 1)
    ensures forall k :: k in c && k !in d ==> c[k].refs == 0
    ensures forall k :: k in d && k != name ==> k in c && d[k] == c[k]
    ensures used' < max || forall k :: k in d ==> d[k].refs > 0
  {
    hide Wrap;
    var c1 := c[name := e];
    assert name in c1 && c1[name].refs == 2;
    assert name in Release(m, name) && Release(m, name)[name] == e.(refs := 1);
    forall k | k in c && k !in d
      ensures c[k].refs == 0
    {
      assert k in c1 && c1[k] == c[k];
      if k in m {
        assert k in Release(m, name) && Release(m, name)[k] == m[k];
      }
    }
  }

  /**
   * The memory used is the total size of the cached surfaces exactly if the sizes that never were added to
   * it, those of add_surface_mem, come to nothing modulo 2^32.
   */
  lemma MemUsedIsTotalIff(c: SurfaceCacher)
    requires c.Valid() && TotalSize(c.cache) < U32_LIMIT
    ensures c.memUsed == TotalSize(c.cache) <==> Wrap(c.uncounted) == 0
  {
    WrapPlus(TotalSize(c.cache) - c.uncounted, c.uncounted);
  }

  lemma WrapsBelow(v: int)
    ensures Wrap(v) < U32_LIMIT
  {
  }

  /** Without an entry called "" erasing is erasing. */
  lemma EraseAlone(m: Memory, max: nat, k: string, order: seq<string>)
    requires "" !in m.cache && k in m.cache && m.used < U32_LIMIT
    ensures var e := EraseIn(m, max, k, order);
            e.cache == m.cache - {k} && e.used < U32_LIMIT && Wrap(e.used + m.cache[k].size) == m.used
  {
    WrapMinus(m.used, m.cache[k].size);
    WrapsBelow(m.used - m.cache[k].size);
  }

  /** The entries left by the loop over these keys, and those erased. */
  lemma {:induction false} PurgeLeaves(m: Memory, max: nat, keys: seq<string>, order: seq<string>)
    requires "" !in m.cache && m.used < U32_LIMIT
    ensures var r := PurgeIn(m, max, keys, order);
            && r.used < U32_LIMIT
            && (forall k :: k in r.cache ==> r.cache[k] == m.cache[k])
            && (forall k :: k in m.cache && k !in r.cache ==> m.cache[k].refs == 0)
            && (r.used < max || forall k :: k in r.cache && k in keys ==> r.cache[k].refs > 0)
    decreases |keys|
  {
    if keys != [] && m.used >= max {
      var k := keys[0];
      if k in m.cache && m.cache[k].refs == 0 {
        EraseAlone(m, max, k, order);
        PurgeLeaves(EraseIn(m, max, k, order), max, keys[1..], order);
      } else {
        PurgeLeaves(m, max, keys[1..], order);
      }
      hide EraseIn, Wrap;
    }
  }

  /** The memory was not yet below the limit before the last entry was erased. */
  lemma {:induction false} PurgeStops(m: Memory, max: nat, keys: seq<string>, order: seq<string>)
    requires "" !in m.cache && m.used < U32_LIMIT
    ensures var r := PurgeIn(m, max, keys, order);
            if r.cache == m.cache then r.used == m.used
            else exists k | k in m.cache && k !in r.cache :: Wrap(r.used + m.cache[k].size) >= max
    decreases |keys|
  {
    if keys != [] && m.used >= max {
      var k, r := keys[0], PurgeIn(m, max, keys, order);
      if k in m.cache && m.cache[k].refs == 0 {
        EraseAlone(m, max, k, order);
        var e := EraseIn(m, max, k, order);
        PurgeStops(e, max, keys[1..], order);
        hide EraseIn, Wrap;
        assert k !in r.cache;
        if r.cache != e.cache {
          var j :| j in e.cache && j !in r.cache && Wrap(r.used + e.cache[j].size) >= max;
          assert j in m.cache && m.cache[j] == e.cache[j];
        }
      } else {
        PurgeStops(m, max, keys[1..], order);
      }
    }
  }

  lemma PurgedBy(before: Entries, usedBefore: nat, after: Entries, used: nat, max: nat)
    requires "" !in before && usedBefore < U32_LIMIT && PurgedInOrder(before, usedBefore, after, used, max)
    ensures Purged(before, after, used, max) && (after == before ==> used == usedBefore)
  {
    var order :| Covers(order, before) && Memory(after, used) == PurgeIn(Memory(before, usedBefore), max, order, order);
    PurgeLeaves(Memory(before, usedBefore), max, order, order);
    PurgeStops(Memory(before, usedBefore), max, order, order);
    hide PurgeIn, Wrap;
  }

  lemma CountedAt(c: SurfaceCacher, name: string)
    requires c.Valid() && name in c.cache && c.live[c.cache[name].s] > 0
    ensures Cached(c.cache, c.surfToString, c.cache[name].s) && c.surfToString[c.cache[name].s] == name
    ensures c.cache[name].refs == c.live[c.cache[name].s] > 0
  {
    hide TotalSize, Wrap;
  }

  lemma NamedBack(c: SurfaceCacher, surf: Surface)
    requires c.Valid() && Cached(c.cache, c.surfToString, surf)
    ensures var name := c.surfToString[surf]; name in c.cache && c.cache[name].s == surf
  {
    hide TotalSize, Wrap, Counted;
  }

  lemma StillCached(c: Entries, names: Names, surf: Surface)
    requires Cached(c, names, surf)
    ensures Cached(NewRef(c, names[surf]), names, surf)
  {
  }

  /** A reference more and one less, and the purge that follows, leave an entry that has one as it was. */
  lemma HeldThrough(c: Entries, d: Entries, name: string, used: nat, max: nat)
    requires name in c && c[name].refs > 0 && Purged(Release(NewRef(c, name), name), d, used, max)
    ensures name in d && d[name] == c[name]
  {
    var e := Release(NewRef(c, name), name);
    assert name in e && e[name] == c[name];
    hide Wrap, Release, NewRef;
  }

  class SurfaceCacher {
    var cache: Entries
    var surfToString: Names
    var memUsed: nat
    var memMax: nat
    ghost var live: multiset<Surface>  // one element per reference handed out and not yet released
    ghost var uncounted: int           // total size entered through add_surface_mem

    constructor (max: nat)
      requires max < U32_LIMIT
      ensures Valid() && cache == map[] && live == multiset{} && uncounted == 0 && memMax == max
    {
      cache, surfToString, memUsed, memMax, live, uncounted := map[], map[], 0, max, multiset{}, 0;
    }

    /** memUsed is a u_int32 that add_surface_mem does not add to, but a purge subtracts from. */
    ghost predicate Valid()
      reads this
    {
      && Named(cache, surfToString) && Counted(cache, surfToString, live)
      && memMax < U32_LIMIT && memUsed == Wrap(TotalSize(cache) - uncounted)
    }

    /** Drops entries without references until the memory is below the limit or none is left. */
    method ConditionalPurge()
      requires Valid()
      modifies this
      ensures Valid() && memMax == old(memMax) && live == old(live) && uncounted == old(uncounted)
      ensures Purged(old(cache), cache, memUsed, memMax) && (cache == old(cache) ==> memUsed == old(memUsed))
      ensures PurgedInOrder(old(cache), old(memUsed), cache, memUsed, memMax)
      decreases cache.Keys, 2
    {
      var todo := cache.Keys;
      ghost var done: seq<string>, m0 := [], Memory(cache, memUsed);
      WrapsBelow(TotalSize(cache) - uncounted);
      assert "" !in cache && memUsed < U32_LIMIT;
      hide *;
      PurgeTurn(m0, memMax, [], []);
      while todo != {} && memUsed >= memMax
        invariant Valid() && memMax == old(memMax) && live == old(live) && uncounted == old(uncounted)
        invariant todo <= cache.Keys <= m0.cache.Keys
        invariant Memory(cache, memUsed) == PurgeIn(m0, memMax, done, [])
        invariant forall k :: k in m0.cache ==> k in done || k in todo
        decreases |todo|
      {
        var k :| k in todo;
        todo := todo - {k};
        PurgeOne(k, m0, done);
        done := done + [k];
      }
      PurgeDone(m0.cache, m0.used, done, todo, cache, memUsed, memMax);
      PurgedBy(m0.cache, m0.used, cache, memUsed, memMax);
    }

    /** One turn of that loop. */
    method PurgeOne(k: string, ghost m0: Memory, ghost done: seq<string>)
      requires Valid() && k in cache && memUsed >= memMax
      requires "" !in m0.cache && Memory(cache, memUsed) == PurgeIn(m0, memMax, done, [])
      modifies this
      ensures Valid() && memMax == old(memMax) && live == old(live) && uncounted == old(uncounted)
      ensures Memory(cache, memUsed) == PurgeIn(m0, memMax, done + [k], [])
      ensures old(cache.Keys) - {k} <= cache.Keys <= old(cache.Keys)
      decreases cache.Keys, 1
    {
      hide *;
      OnePurged(m0, memMax, done, k);
      if cache[k].refs == 0 {
        EraseEntry(k);
      }
    }

    /** Deletes the surface of an entry and erases the entry, whose destructor calls back. */
    method EraseEntry(k: string)
      requires Valid() && k in cache && cache[k].refs == 0
      modifies this
      ensures Valid() && memMax == old(memMax) && live == old(live) && uncounted == old(uncounted)
      ensures cache == old(cache) - {k} && memUsed == Wrap(old(memUsed) - old(cache)[k].size)
      ensures Wrap(memUsed + old(cache)[k].size) == old(memUsed)
      decreases cache.Keys, 0
    {
      var e := cache[k];
      EraseKeeps(cache, surfToString, live, k);
      TotalSizeOf(cache, k);
      WrapMinus(TotalSize(cache) - uncounted, e.size);
      hide Named, Counted, Wrap, TotalSize, EraseIn, Release, Purged;
      surfToString := surfToString - {e.s};
      memUsed := Wrap(memUsed - e.size);
      cache := cache - {k};
      FreeSurface(e.s);
    }

    /** Releases a reference to a surface, as the destructor of every reference does. */
    method FreeSurface(surf: Surface)
      requires Valid()
      modifies this
      ensures Valid() && memMax == old(memMax) && uncounted == old(uncounted)
      ensures if old(Cached(cache, surfToString, surf))
              then
                && live == old(live) - multiset{surf}
                && Purged(Release(old(cache), old(surfToString)[surf]), cache, memUsed, memMax)
              else live == old(live) && cache == old(cache) && memUsed == old(memUsed)
      decreases cache.Keys, 4
    {
      hide *;
      var name := NameOf(surf);
      FreeByName(name);
    }

    /** SurfToString[surf], which enters an empty name for a surface without one. */
    method NameOf(surf: Surface) returns (name: string)
      requires Valid()
      modifies this`surfToString
      ensures Valid() && (name in cache <==> old(Cached(cache, surfToString, surf)))
      ensures name in cache ==> name == old(surfToString)[surf] && cache[name].s == surf
    {
      hide TotalSize, Wrap;
      if surf !in surfToString {
        surfToString := surfToString[surf := ""];
      }
      name := surfToString[surf];
    }

    method FreeByName(name: string)
      requires Valid()
      modifies this
      ensures Valid() && memMax == old(memMax) && uncounted == old(uncounted)
      ensures if name in old(cache)
              then
                && live == old(live) - multiset{old(cache)[name].s}
                && Purged(Release(old(cache), name), cache, memUsed, memMax)
              else live == old(live) && cache == old(cache) && memUsed == old(memUsed)
      decreases cache.Keys, 3
    {
      hide *;
      if name in cache {
        ReleaseOne(name);
        ConditionalPurge();
      }
    }

    /** Its first half: the reference is given back. */
    method ReleaseOne(name: string)
      requires Valid() && name in cache
      modifies this`cache, this`live
      ensures Valid() && cache == Release(old(cache), name) && live == old(live) - multiset{old(cache)[name].s}
      ensures cache.Keys == old(cache).Keys
    {
      ReleaseKeeps(cache, surfToString, live, name);
      ReleaseSize(cache, name);
      assert Release(cache, name).Keys == cache.Keys;
      hide Named, Counted, Wrap, TotalSize, Release;
      live := live - multiset{cache[name].s};
      DelRef(name);
    }

    method AddRef(name: string)
      requires name in cache
      modifies this`cache
      ensures cache == NewRef(old(cache), name)
    {
      cache := cache[name := cache[name].(refs := cache[name].refs + 1)];
    }

    method DelRef(name: string)
      requires name in cache
      modifies this`cache
      ensures cache == Release(old(cache), name)
    {
      if cache[name].refs > 0 {
        cache := cache[name := cache[name].(refs := cache[name].refs - 1)];
      }
    }

    method Purge()
      requires Valid()
      modifies this
      ensures Valid() && memMax == old(memMax) && live == old(live) && uncounted == old(uncounted)
      ensures forall k :: k in cache ==> cache[k].refs > 0 && k in old(cache) && cache[k] == old(cache)[k]
      ensures forall k :: k in old(cache) && old(cache)[k].refs > 0 ==> k in cache
    {
      var tmp := memMax;
      hide Named, Counted;
      SetMaxMem(0);
      SetMaxMem(tmp);
    }

    method SetMaxMem(mm: nat)
      requires Valid() && mm < U32_LIMIT
      modifies this
      ensures Valid() && memMax == mm && live == old(live) && uncounted == old(uncounted)
      ensures Purged(old(cache), cache, memUsed, memMax)
    {
      hide Purged;
      memMax := mm;
      ConditionalPurge();
    }

    /** A reference to a cached surface, or None. */
    method GetSurfaceMem(name: string) returns (found: bool, surf: Surface)
      requires Valid()
      modifies this`cache, this`live
      ensures Valid() && found == (name in old(cache))
      ensures found ==> surf == old(cache)[name].s && live == old(live) + multiset{surf}
                        && cache == NewRef(old(cache), name)
      ensures !found ==> live == old(live) && cache == old(cache)
    {
      found := name in cache;
      surf := 0;
      if found {
        surf := cache[name].s;
        TakeRef(name);
      }
    }

    method TakeRef(name: string)
      requires Valid() && name in cache
      modifies this`cache, this`live
      ensures Valid() && cache == NewRef(old(cache), name) && live == old(live) + multiset{old(cache)[name].s}
    {
      NewRefKeeps(cache, surfToString, live, name);
      hide Named, Counted, TotalSize, Wrap, NewRef;
      live := live + multiset{cache[name].s};
      AddRef(name);
    }

    /** Enters a surface. The local reference and the one returned count 2; the local one is freed at the end. */
    method Enter(name: string, cur: Surface, size: nat)
      requires Valid() && name !in cache && name != "" && !Cached(cache, surfToString, cur)
      modifies this
      ensures Valid() && memMax == old(memMax) && uncounted == old(uncounted) + size
      ensures live == old(live) + multiset{cur} && name in cache && cache[name] == Entry(cur, size, live[cur])
      ensures forall k :: k in old(cache) && k !in cache ==> old(cache)[k].refs == 0
      ensures forall k :: k in cache && k != name ==> k in old(cache) && cache[k] == old(cache)[k]
      ensures memUsed < memMax || forall k :: k in cache ==> cache[k].refs > 0
    {
      hide Named, Counted, TotalSize, Wrap, Purged, Release, Cached;
      ghost var before, e := cache, Entry(cur, size, 2);
      Insert(name, cur, size);
      ConditionalPurge();
      ghost var mid, used := cache, memUsed;
      PurgeKeeps(before[name := e], mid, used, memMax, name);
      NamedAt(cache, surfToString, name);
      FreeSurface(cur);
      TwoPurges(before, name, e, mid, used, cache, memUsed, memMax);
    }

    method Insert(name: string, cur: Surface, size: nat)
      requires Valid() && name !in cache && name != "" && !Cached(cache, surfToString, cur)
      modifies this
      ensures Valid() && memMax == old(memMax) && uncounted == old(uncounted) + size
      ensures live == old(live) + multiset{cur, cur} && live[cur] == 2
      ensures cache == old(cache)[name := Entry(cur, size, 2)]
    {
      assert live[cur] == 0;
      InsertKeeps(cache, surfToString, live, name, Entry(cur, size, 2));
      hide Named, Counted, TotalSize, Wrap;
      cache := cache[name := Entry(cur, size, 2)];
      surfToString := surfToString[cur := name];
      live := live + multiset{cur, cur};
      uncounted := uncounted + size;
    }

    /** Caches a surface the caller made; its size is not added to the memory used. */
    method AddSurfaceMem(name: string, surf: Surface, size: nat)
      requires Valid() && name !in cache && name != "" && !Cached(cache, surfToString, surf)
      modifies this
      ensures Valid() && memMax == old(memMax) && uncounted == old(uncounted) + size
      ensures live == old(live) + multiset{surf} && name in cache && cache[name] == Entry(surf, size, live[surf])
    {
      Enter(name, surf, size);
    }

    /**
     * A reference to the image with these parameters, which is loaded if it is not cached. `cur` is the
     * address a new surface would get, `size` its size once loaded.
     */
    method GetSurface(file: string, mask: bool, invertX: bool, invertY: bool, alpha: BlendMode, cur: Surface, size: nat)
      returns (surf: Surface)
      requires Valid() && !Cached(cache, surfToString, cur)
      modifies this
      ensures Valid() && memMax == old(memMax) && uncounted == old(uncounted)
      ensures var name := CacheName(file, mask, invertX, invertY, alpha);
              && surf == (if name in old(cache) then old(cache)[name].s else cur)
              && live == old(live) + multiset{surf}
              && name in cache && cache[name].s == surf && cache[name].refs == live[surf]
    {
      var name := CacheName(file, mask, invertX, invertY, alpha);
      var found, s := GetSurfaceMem(name);
      surf := s;
      if !found {
        WrapMinus(TotalSize(cache) - uncounted, size);
        hide Named, Counted, TotalSize, Wrap, CacheName;
        memUsed := Wrap(memUsed + size);
        uncounted := uncounted - size;
        Enter(name, cur, size);
        surf := cur;
      }
    }

    /** A second reference to a surface is taken and the first one given back. */
    method AddHolder(surf: Surface)
      requires Valid() && Cached(cache, surfToString, surf) && cache[surfToString[surf]].refs > 0
      modifies this
      ensures Valid() && memMax == old(memMax) && uncounted == old(uncounted) && live == old(live)
      ensures var name := old(surfToString[surf]); name in cache && cache[name] == old(cache)[name]
    {
      var name := surfToString[surf];
      NamedBack(this, surf);
      hide *;
      ghost var before, names := cache, surfToString;
      var found, s := GetSurfaceMem(name);
      StillCached(before, names, surf);
      FreeSurface(surf);
      HeldThrough(before, cache, name, memUsed, memMax);
    }

    /** The same, but the caller holds the bare surface and has to free it by its pointer. */
    method GetSurfaceOnly(file: string, mask: bool, invertX: bool, invertY: bool, alpha: BlendMode,
                          cur: Surface, size: nat)
      returns (surf: Surface)
      requires Valid() && !Cached(cache, surfToString, cur)
      modifies this
      ensures Valid() && memMax == old(memMax) && uncounted == old(uncounted)
      ensures var name := CacheName(file, mask, invertX, invertY, alpha);
              && surf == (if name in old(cache) then old(cache)[name].s else cur)
              && live == old(live) + multiset{surf}
              && name in cache && cache[name].s == surf && cache[name].refs == live[surf]
    {
      surf := GetSurface(file, mask, invertX, invertY, alpha, cur, size);
      hide *;
      CountedAt(this, CacheName(file, mask, invertX, invertY, alpha));
      AddHolder(surf);
    }
  }
}
