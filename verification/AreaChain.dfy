/** The real extent of an area that is assigned to another one, and so on up the chain. */
module AreaChain {
  import opened DrawingArea

  function Max(a: int, b: int): int {
    if a < b then b else a
  }

  function Min(a: int, b: int): int {
    if b < a then b else a
  }

  /** The cells two rectangles share, as a rectangle; without any, its width or height is 0. */
  function Meet(a: Rect, b: Rect): Rect {
    var x, y := Max(a.x, b.x), Max(a.y, b.y);
    var w, h := Min(b.x + b.w, a.x + a.w) - x, Min(b.y + b.h, a.y + a.h) - y;
    Make(Box(x, y, if w > 0 then w else 0, if h > 0 then h else 0))
  }

  ghost function MeetAll(r: Rect, chain: seq<Area>): Rect
    reads chain
    decreases |chain|
  {
    if chain == [] then r else MeetAll(Meet(r, chain[0].rect), chain[1..])
  }

  predicate IsEmpty(r: Rect) {
    r.w == 0 || r.h == 0
  }

  class Area {
    var rect: Rect
    var drawTo: Area?

    constructor (r: Rect)
      ensures rect == r && drawTo == null
    {
      rect, drawTo := r, null;
    }

    method AssignDrawingArea(da: Area?)
      modifies this`drawTo
      ensures drawTo == da
    {
      drawTo := da;
    }

    /** The part of this area that lies in every area of the chain it is assigned to. */
    method SetupRects(ghost chain: seq<Area>) returns (ret: Rect)
      requires IsChain(drawTo, chain)
      ensures ret == MeetAll(rect, chain)
      ensures forall c :: Covers(ret, c) <==> Covers(rect, c) && InAll(chain, c)
    {
      hide Meet, Covers;
      MeetAllExact(rect, chain);
      assert chain[0..] == chain;
      ret := rect;
      var it := drawTo;
      ghost var k := 0;
      while it != null
        invariant k <= |chain| && IsChain(it, chain[k..])
        invariant MeetAll(ret, chain[k..]) == MeetAll(rect, chain)
        decreases |chain| - k
      {
        var x, y := Max(ret.x, it.rect.x), Max(ret.y, it.rect.y);
        var w := Min(it.rect.x + it.rect.w, ret.x + ret.w) - x;
        var h := Min(it.rect.y + it.rect.h, ret.y + ret.h) - y;
        MeetIs(ret, it.rect, x, y, w, h);
        ret := Make(Box(x, y, if w > 0 then w else 0, if h > 0 then h else 0));
        assert chain[k..][1..] == chain[k + 1..];
        it := it.drawTo;
        k := k + 1;
      }
    }
  }

  lemma MeetIs(a: Rect, b: Rect, x: int, y: int, w: int, h: int)
    requires x == Max(a.x, b.x) && y == Max(a.y, b.y)
    requires w == Min(b.x + b.w, a.x + a.w) - x && h == Min(b.y + b.h, a.y + a.h) - y
    ensures Meet(a, b) == Make(Box(x, y, if w > 0 then w else 0, if h > 0 then h else 0))
  {
  }

  lemma MeetExact(a: Rect, b: Rect, c: Cell)
    ensures Covers(Meet(a, b), c) <==> Covers(a, c) && Covers(b, c)
  {
  }

  lemma {:induction false} MeetAllExact(r: Rect, chain: seq<Area>)
    ensures forall c :: Covers(MeetAll(r, chain), c) <==> Covers(r, c) && InAll(chain, c)
    decreases |chain|
  {
    hide Meet, Covers;
    if chain != [] {
      forall c
        ensures Covers(Meet(r, chain[0].rect), c) <==> Covers(r, c) && Covers(chain[0].rect, c)
      {
        MeetExact(r, chain[0].rect, c);
      }
      MeetAllExact(Meet(r, chain[0].rect), chain[1..]);
    }
  }

  /** The areas reached from `a`, in order; such a finite list exists exactly if the chain has no cycle. */
  ghost predicate IsChain(a: Area?, chain: seq<Area>)
    reads chain
    decreases |chain|
  {
    if chain == [] then a == null else a == chain[0] && IsChain(chain[0].drawTo, chain[1..])
  }

  ghost predicate InAll(chain: seq<Area>, c: Cell)
    reads chain
    decreases |chain|
  {
    chain == [] || (Covers(chain[0].rect, c) && InAll(chain[1..], c))
  }

  lemma {:induction false} InPrefix(chain: seq<Area>, k: nat, c: Cell)
    requires k <= |chain| && InAll(chain, c)
    ensures InAll(chain[..k], c)
  {
    if k > 0 {
      assert chain[..k][1..] == chain[1..][..k - 1];
      InPrefix(chain[1..], k - 1, c);
    }
  }

  lemma EmptyIffNoCells(r: Rect)
    ensures IsEmpty(r) <==> forall c :: !Covers(r, c)
  {
    assert !IsEmpty(r) ==> Covers(r, Cell(r.x, r.y));
  }

  /** Once the rectangle is empty at some area of the chain, it stays so to its end. */
  lemma EmptyStaysEmpty(r: Rect, chain: seq<Area>, k: nat)
    requires k <= |chain| && IsEmpty(MeetAll(r, chain[..k]))
    ensures IsEmpty(MeetAll(r, chain))
  {
    MeetAllExact(r, chain);
    MeetAllExact(r, chain[..k]);
    EmptyIffNoCells(MeetAll(r, chain));
    EmptyIffNoCells(MeetAll(r, chain[..k]));
    hide Covers;
    forall c
      ensures !Covers(MeetAll(r, chain), c)
    {
      if InAll(chain, c) {
        InPrefix(chain, k, c);
      }
    }
  }

  /** The rectangle is empty exactly if no cell of this area lies in all the others. */
  lemma EmptyIff(r: Rect, chain: seq<Area>)
    ensures IsEmpty(MeetAll(r, chain)) <==> forall c | Covers(r, c) :: !InAll(chain, c)
  {
    MeetAllExact(r, chain);
    EmptyIffNoCells(MeetAll(r, chain));
  }
}
