/** Pausing and resuming listeners, alone and through their factory, as values. */
module PauseCounts {
  import opened Common

  /** A listener: its pause count, its Registered flag, and how often it is in its manager's list. */
  datatype Lst = Lst(paused: nat, registered: bool, entries: nat)

  /** manager::add and manager::remove. */
  function Register(l: Lst): Lst {
    l.(registered := true, entries := l.entries + 1)
  }

  function Unregister(l: Lst): Lst {
    l.(registered := false, entries := if l.entries == 0 then 0 else l.entries - 1)
  }

  function PauseL(l: Lst, level: nat): Lst {
    var l' := if l.paused == 0 then Unregister(l) else l;
    l'.(paused := (l'.paused + level) % U16_LIMIT)
  }

  function ResumeL(l: Lst): Lst {
    if l.paused == 0 then (if l.registered then l else Register(l))
    else
      var l' := l.(paused := l.paused - 1);
      if l'.paused == 0 then Register(l') else l'
  }

  /** The destructor takes a registered listener out of the list. */
  function DeleteL(l: Lst): Lst {
    if l.registered then Unregister(l) else l
  }

  /** A listener just created by a factory that is paused `depth` times. */
  function NewL(depth: nat): Lst {
    var l := Lst(0, false, 0);
    if depth != 0 then PauseL(l, depth) else Register(l)
  }

  /** A factory and its listeners. */
  datatype World = World(depth: nat, ls: seq<Lst>)

  datatype Op = Add | Pause | Resume | PauseOne(i: nat) | ResumeOne(i: nat) | Delete(i: nat)

  function Map(ls: seq<Lst>, f: Lst -> Lst): (r: seq<Lst>)
    ensures |r| == |ls|
  {
    seq(|ls|, i requires 0 <= i < |ls| => f(ls[i]))
  }

  function Step(w: World, op: Op): World {
    match op
    case Add => w.(ls := w.ls + [NewL(w.depth)])
    case Pause => World((w.depth + 1) % U16_LIMIT, Map(w.ls, l => PauseL(l, 1)))
    case Resume => World(if w.depth == 0 then U16_LIMIT - 1 else w.depth - 1, Map(w.ls, ResumeL))
    case PauseOne(i) => if i < |w.ls| then w.(ls := w.ls[i := PauseL(w.ls[i], 1)]) else w
    case ResumeOne(i) => if i < |w.ls| then w.(ls := w.ls[i := ResumeL(w.ls[i])]) else w
    case Delete(i) => if i < |w.ls| then w.(ls := w.ls[..i] + w.ls[i + 1..]) else w
  }

  /** The pauses a caller has put on each listener itself and not yet taken back. */
  function OwnStep(own: seq<nat>, op: Op): seq<nat> {
    match op
    case Add => own + [0]
    case PauseOne(i) => if i < |own| then own[i := own[i] + 1] else own
    case ResumeOne(i) => if i < |own| && own[i] > 0 then own[i := own[i] - 1] else own
    case Delete(i) => if i < |own| then own[..i] + own[i + 1..] else own
    case _ => own
  }

  /** So many more pauses fit the u_int16 count of every listener. */
  predicate HaveRoom(w: World, own: seq<nat>, k: nat) {
    forall i :: 0 <= i < |own| ==> w.depth + own[i] + k < U16_LIMIT
  }

  /** Resumes are matched to pauses, and pauses do not overflow the counts. */
  predicate Matched(w: World, own: seq<nat>, op: Op) {
    match op
    case Pause => w.depth + 1 < U16_LIMIT && HaveRoom(w, own, 1)
    case PauseOne(i) => i < |own| ==> w.depth + own[i] + 1 < U16_LIMIT
    case Resume => w.depth > 0
    case ResumeOne(i) => i < |own| && own[i] > 0
    case _ => true
  }

  predicate AllMatched(w: World, own: seq<nat>, ops: seq<Op>)
    decreases |ops|
  {
    ops == [] || (Matched(w, own, ops[0]) && AllMatched(Step(w, ops[0]), OwnStep(own, ops[0]), ops[1..]))
  }

  function Steps(w: World, ops: seq<Op>): World
    decreases |ops|
  {
    if ops == [] then w else Steps(Step(w, ops[0]), ops[1..])
  }

  function OwnSteps(own: seq<nat>, ops: seq<Op>): seq<nat>
    decreases |ops|
  {
    if ops == [] then own else OwnSteps(OwnStep(own, ops[0]), ops[1..])
  }

  /** A listener paused `count` times: in its manager's list exactly once if 0, otherwise not at all. */
  function Settled(count: nat): Lst {
    Lst(count, count == 0, if count == 0 then 1 else 0)
  }

  /** Each listener is paused as often as its factory plus as often as on its own. */
  predicate Consistent(w: World, own: seq<nat>) {
    && |w.ls| == |own| && w.depth < U16_LIMIT
    && forall i :: 0 <= i < |own| ==> w.ls[i] == Settled(w.depth + own[i]) && w.depth + own[i] < U16_LIMIT
  }

  lemma SettledSteps(count: nat)
    requires count < U16_LIMIT
    ensures NewL(count) == Settled(count)
    ensures count + 1 < U16_LIMIT ==> PauseL(Settled(count), 1) == Settled(count + 1)
    ensures count > 0 ==> ResumeL(Settled(count)) == Settled(count - 1)
  {
  }

  lemma AddConsistent(w: World, own: seq<nat>)
    requires Consistent(w, own)
    ensures Consistent(Step(w, Add), own + [0])
  {
    SettledSteps(w.depth);
    hide Settled, NewL;
    var ls := w.ls + [NewL(w.depth)];
    assert Step(w, Add) == World(w.depth, ls);
    forall i | 0 <= i <= |own|
      ensures ls[i] == Settled(w.depth + (own + [0])[i])
    {
    }
  }

  lemma PauseConsistent(w: World, own: seq<nat>)
    requires Consistent(w, own) && w.depth + 1 < U16_LIMIT && HaveRoom(w, own, 1)
    ensures Consistent(Step(w, Pause), own)
  {
    forall i | 0 <= i < |own|
      ensures Step(w, Pause).ls[i] == Settled(w.depth + 1 + own[i]) && w.depth + 1 + own[i] < U16_LIMIT
    {
      SettledSteps(w.depth + own[i]);
      assert w.depth + own[i] + 1 < U16_LIMIT;
      hide Settled, PauseL;
    }
  }

  lemma ResumeConsistent(w: World, own: seq<nat>)
    requires Consistent(w, own) && w.depth > 0
    ensures Consistent(Step(w, Resume), own)
  {
    forall i | 0 <= i < |own|
      ensures Step(w, Resume).ls[i] == Settled(w.depth - 1 + own[i]) && w.depth - 1 + own[i] < U16_LIMIT
    {
      SettledSteps(w.depth + own[i]);
      hide Settled, ResumeL;
    }
  }

  /** One listener comes to another count. */
  lemma OneConsistent(w: World, own: seq<nat>, i: nat, l: Lst, count: nat)
    requires Consistent(w, own) && i < |own| && l == Settled(w.depth + count) && w.depth + count < U16_LIMIT
    ensures Consistent(w.(ls := w.ls[i := l]), own[i := count])
  {
    hide Settled;
  }

  lemma DeleteConsistent(w: World, own: seq<nat>, i: nat)
    requires Consistent(w, own) && i < |own|
    ensures Consistent(Step(w, Delete(i)), OwnStep(own, Delete(i)))
  {
    hide Settled;
    var ls, own' := w.ls[..i] + w.ls[i + 1..], own[..i] + own[i + 1..];
    forall j | 0 <= j < |own'|
      ensures ls[j] == Settled(w.depth + own'[j]) && w.depth + own'[j] < U16_LIMIT
    {
      var k := if j < i then j else j + 1;
      assert own'[j] == own[k] && ls[j] == w.ls[k];
    }
  }

  lemma StepConsistent(w: World, own: seq<nat>, op: Op)
    requires Consistent(w, own) && Matched(w, own, op)
    ensures Consistent(Step(w, op), OwnStep(own, op))
    ensures op.Delete? && op.i < |own| ==> DeleteL(w.ls[op.i]).entries == 0
  {
    match op
    case Add => AddConsistent(w, own);
    case Pause => PauseConsistent(w, own);
    case Resume => ResumeConsistent(w, own);
    case PauseOne(i) =>
      if i < |own| {
        SettledSteps(w.depth + own[i]);
        OneConsistent(w, own, i, PauseL(w.ls[i], 1), own[i] + 1);
      }
    case ResumeOne(i) =>
      SettledSteps(w.depth + own[i]);
      OneConsistent(w, own, i, ResumeL(w.ls[i]), own[i] - 1);
    case Delete(i) =>
      if i < |own| {
        DeleteConsistent(w, own, i);
      }
  }

  /** Over any run of matched operations the registered listeners are exactly those with count 0. */
  lemma {:induction false} RunConsistent(w: World, own: seq<nat>, ops: seq<Op>)
    requires Consistent(w, own) && AllMatched(w, own, ops)
    ensures Consistent(Steps(w, ops), OwnSteps(own, ops))
    decreases |ops|
  {
    if ops != [] {
      StepConsistent(w, own, ops[0]);
      RunConsistent(Step(w, ops[0]), OwnStep(own, ops[0]), ops[1..]);
    }
  }

  /**
   * Matching is needed: resuming a factory that is not paused wraps its count around, after which it
   * disagrees with the counts of its listeners, whatever their own pauses are taken to be.
   */
  lemma ResumeNeedsPause(w: World, own: seq<nat>)
    requires Consistent(w, own) && own != [] && w.depth + own[0] < U16_LIMIT
    ensures (exists own' :: Consistent(Step(w, Resume), own')) <==> w.depth > 0
  {
    var w' := Step(w, Resume);
    assert w.ls[0] == Settled(w.depth + own[0]) && w'.ls[0] == ResumeL(w.ls[0]);
    if w.depth > 0 {
      StepConsistent(w, own, Resume);
    } else {
      assert forall own' :: Consistent(w', own') ==> w'.ls[0].paused >= w'.depth;
    }
  }

  lemma NeverSettled(w: World, i: nat)
    requires i < |w.ls| && w.ls[i].paused == 0 && !w.ls[i].registered
    ensures forall own :: !Consistent(w, own)
  {
    assert forall count: nat :: w.ls[i] != Settled(count);
  }

  /**
   * A pause of the factory keeps the counts consistent exactly if every count has room: a count that wraps
   * around to 0 belongs to a listener that is not registered.
   */
  lemma PauseNeedsRoom(w: World, own: seq<nat>)
    requires Consistent(w, own)
    ensures (exists own' :: Consistent(Step(w, Pause), own')) <==> HaveRoom(w, own, 1)
  {
    var w' := Step(w, Pause);
    forall i | 0 <= i < |own|
      ensures w'.ls[i] == PauseL(Settled(w.depth + own[i]), 1)
    {
    }
    if HaveRoom(w, own, 1) {
      if own == [] {
        assert Consistent(w', []);
      } else {
        assert w.depth + own[0] + 1 < U16_LIMIT;
        StepConsistent(w, own, Pause);
      }
    } else {
      var i :| 0 <= i < |own| && w.depth + own[i] + 1 >= U16_LIMIT;
      assert w'.ls[i] == Lst(0, false, 0);
      NeverSettled(w', i);
    }
  }

  /** The same for a pause of one listener. */
  lemma PauseOneNeedsRoom(w: World, own: seq<nat>, i: nat)
    requires Consistent(w, own) && i < |own|
    ensures (exists own' :: Consistent(Step(w, PauseOne(i)), own')) <==> w.depth + own[i] + 1 < U16_LIMIT
  {
    var w' := Step(w, PauseOne(i));
    if w.depth + own[i] + 1 < U16_LIMIT {
      StepConsistent(w, own, PauseOne(i));
    } else {
      assert w'.ls[i] == Lst(0, false, 0);
      NeverSettled(w', i);
    }
  }

  /** Only the factory is paused and resumed, and listeners may be added. */
  predicate FactoryOnly(ops: seq<Op>) {
    forall op | op in ops :: op.Add? || op.Pause? || op.Resume?
  }

  lemma {:induction false} OwnKept(own: seq<nat>, ops: seq<Op>)
    requires FactoryOnly(ops)
    ensures var r := OwnSteps(own, ops);
            |own| <= |r| && r[..|own|] == own && forall i :: |own| <= i < |r| ==> r[i] == 0
    decreases |ops|
  {
    if ops != [] {
      assert ops[0] in ops;
      assert forall op | op in ops[1..] :: op in ops;
      OwnKept(OwnStep(own, ops[0]), ops[1..]);
    }
  }

  /**
   * Pauses and resumes of the factory that cancel out restore every listener exactly, in whatever order
   * they come; listeners added in between end up registered exactly if the factory is not paused.
   */
  lemma PausesUndone(w: World, own: seq<nat>, ops: seq<Op>)
    requires Consistent(w, own) && AllMatched(w, own, ops) && FactoryOnly(ops)
    requires Steps(w, ops).depth == w.depth
    ensures var r := Steps(w, ops);
            && |w.ls| <= |r.ls| && r.ls[..|w.ls|] == w.ls
            && forall i :: |w.ls| <= i < |r.ls| ==> r.ls[i] == Settled(w.depth)
  {
    RunConsistent(w, own, ops);
    OwnKept(own, ops);
  }

  function Times(op: Op, k: nat): seq<Op> {
    seq(k, i => op)
  }

  lemma {:induction false} StepsAppend(w: World, own: seq<nat>, a: seq<Op>, b: seq<Op>)
    ensures Steps(w, a + b) == Steps(Steps(w, a), b)
    ensures AllMatched(w, own, a) && AllMatched(Steps(w, a), OwnSteps(own, a), b) ==> AllMatched(w, own, a + b)
    decreases |a|
  {
    if a == [] {
      assert a + b == b;
    } else {
      assert (a + b)[1..] == a[1..] + b;
      StepsAppend(Step(w, a[0]), OwnStep(own, a[0]), a[1..], b);
    }
  }

  lemma {:induction false} SameOps(w: World, own: seq<nat>, op: Op, k: nat)
    requires op.Add? || (op.Pause? && w.depth + k < U16_LIMIT && HaveRoom(w, own, k)) || (op.Resume? && k <= w.depth)
    ensures AllMatched(w, own, Times(op, k))
    ensures Steps(w, Times(op, k)).depth == if op.Add? then w.depth else if op.Pause? then w.depth + k else w.depth - k
    decreases k
  {
    if k > 0 {
      assert Times(op, k)[1..] == Times(op, k - 1);
      SameOps(Step(w, op), OwnStep(own, op), op, k - 1);
    }
  }

  /** k pauses, any number of listeners added, k resumes: everything is as before, and the new ones follow. */
  lemma PauseAddResume(w: World, own: seq<nat>, k: nat, adds: nat)
    requires Consistent(w, own) && w.depth + k < U16_LIMIT && HaveRoom(w, own, k)
    ensures var r := Steps(w, Times(Pause, k) + Times(Add, adds) + Times(Resume, k));
            && r.depth == w.depth && |w.ls| <= |r.ls| && r.ls[..|w.ls|] == w.ls
            && forall i :: |w.ls| <= i < |r.ls| ==> r.ls[i] == Settled(w.depth)
  {
    var a, b, c := Times(Pause, k), Times(Add, adds), Times(Resume, k);
    SameOps(w, own, Pause, k);
    SameOps(Steps(w, a), OwnSteps(own, a), Add, adds);
    StepsAppend(w, own, a, b);
    SameOps(Steps(w, a + b), OwnSteps(own, a + b), Resume, k);
    StepsAppend(w, own, a + b, c);
    PausesUndone(w, own, a + b + c);
  }
}
