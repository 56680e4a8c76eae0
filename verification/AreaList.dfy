/** Subtracting an area from a list of areas that grows and shrinks under the iterator. */
module AreaLists {
  import opened DrawingArea

  /** No piece with cells is cut off when `b` is subtracted. */
  predicate NoneCutOff(parts: seq<Rect>, b: Rect) {
    forall i :: 0 <= i < |parts| ==> !CutsOff(parts[i], b)
  }

  predicate AllSafe(parts: seq<Rect>) {
    forall i :: 0 <= i < |parts| ==> Safe(parts[i])
  }

  /** The list after subtract_from: pieces of later areas end up in front of pieces of earlier ones. */
  function SubtractAll(parts: seq<Rect>, b: Rect): seq<Rect> {
    if parts == [] then []
    else Pieces(parts[|parts| - 1], b) + SubtractAll(parts[..|parts| - 1], b)
  }

  /** Subtracting several areas, one after the other. */
  function SubtractEach(parts: seq<Rect>, bs: seq<Rect>): seq<Rect>
    decreases |bs|
  {
    if bs == [] then parts else SubtractEach(SubtractAll(parts, bs[0]), bs[1..])
  }

  /** The same along a sequence of subtractions. */
  predicate NeverCutOff(parts: seq<Rect>, bs: seq<Rect>)
    decreases |bs|
  {
    bs == [] || (NoneCutOff(parts, bs[0]) && NeverCutOff(SubtractAll(parts, bs[0]), bs[1..]))
  }

  class AreaList {
    var items: seq<Rect>

    constructor (parts: seq<Rect>)
      ensures items == parts
    {
      items := parts;
    }

    method PushFront(b: Box)
      modifies this
      ensures items == [Make(b)] + old(items)
    {
      items := [Make(b)] + items;
    }

    /** Puts what is left of `a` without `b` in front of the list. */
    method SubtractArea(a: Rect, b: Rect)
      modifies this
      ensures items == Pieces(a, b) + old(items)
    {
      hide Make, Pieces, Compare, CompareX, CompareY;
      PiecesInFront(a, b, items);
      var f := Compare(a, b);
      var ar, ab, br, bb := a.x + a.w, a.y + a.h, b.x + b.w, b.y + b.h;
      if f == XMR + YMU {
        PushFront(Box(a.x, a.y, a.w, b.y - a.y));
        PushFront(Box(a.x, b.y, b.x - a.x, ab - b.y));
      } else if f == XMR + YOM {
        PushFront(Box(a.x, a.y, b.x - a.x, bb - a.y));
        PushFront(Box(a.x, bb, a.w, ab - bb));
      } else if f == XLM + YOM {
        PushFront(Box(br, a.y, ar - br, bb - a.y));
        PushFront(Box(a.x, bb, a.w, ab - bb));
      } else if f == XLM + YMU {
        PushFront(Box(a.x, a.y, a.w, b.y - a.y));
        PushFront(Box(br, b.y, ar - br, ab - b.y));
      } else if f == XMR + YMM {
        PushFront(Box(a.x, a.y, a.w, b.y - a.y));
        PushFront(Box(a.x, b.y, b.x - a.x, b.h));
        PushFront(Box(a.x, bb, a.w, ab - bb));
      } else if f == XMM + YOM {
        PushFront(Box(a.x, a.y, b.x - a.x, a.h));
        PushFront(Box(b.x, bb, b.w, ab - bb));
        PushFront(Box(br, a.y, ar - br, a.h));
      } else if f == XLM + YMM {
        PushFront(Box(a.x, a.y, a.w, b.y - a.y));
        PushFront(Box(br, b.y, ar - br, b.h));
        PushFront(Box(a.x, bb, a.w, ab - bb));
      } else if f == XMM + YMU {
        PushFront(Box(a.x, a.y, b.x - a.x, a.h));
        PushFront(Box(b.x, a.y, b.w, b.y - a.y));
        PushFront(Box(br, a.y, ar - br, a.h));
      } else if f == XMR + YOU {
        PushFront(Box(a.x, a.y, b.x - a.x, a.h));
      } else if f == XLR + YOM {
        PushFront(Box(a.x, bb, a.w, ab - bb));
      } else if f == XLM + YOU {
        PushFront(Box(br, a.y, ar - br, a.h));
      } else if f == XLR + YMU {
        PushFront(Box(a.x, a.y, a.w, b.y - a.y));
      } else if f == XLR + YMM {
        PushFront(Box(a.x, a.y, a.w, b.y - a.y));
        PushFront(Box(a.x, bb, a.w, ab - bb));
      } else if f == XMM + YOU {
        PushFront(Box(a.x, a.y, b.x - a.x, a.h));
        PushFront(Box(br, a.y, ar - br, a.h));
      } else if f == XLR + YOU {
      } else if f == XMM + YMM {
        PushFront(Box(a.x, a.y, a.w, b.y - a.y));
        PushFront(Box(a.x, b.y, b.x - a.x, b.h));
        PushFront(Box(br, b.y, ar - br, b.h));
        PushFront(Box(a.x, bb, a.w, ab - bb));
      } else {
        PushFront(Box(a.x, a.y, a.w, a.h));
      }
    }

    /**
     * The iterator is the number of elements in front of it. Pieces are pushed in front and so are never
     * visited; erasing the area leaves the iterator on the next old one.
     */
    method SubtractFrom(b: Rect)
      modifies this
      ensures items == SubtractAll(old(items), b)
    {
      ghost var all := items;
      ghost var k := 0;
      var area := 0;
      while area < |items|
        invariant k <= |all| && area <= |items|
        invariant items[..area] == SubtractAll(all[..k], b) && items[area..] == all[k..]
        decreases |items| - area
      {
        var before := |items|;
        SubtractArea(items[area], b);
        area := area + (|items| - before);
        items := items[..area] + items[area + 1..];
        k := k + 1;
        assert all[..k][..k - 1] == all[..k - 1];
      }
      assert all[..k] == all;
    }
  }

  /** The pieces in front of a list, as they get there one by one. */
  lemma PiecesInFront(a: Rect, b: Rect, items: seq<Rect>)
    ensures var s := Split(a, b);
            Pieces(a, b) + items == (
              if |s| == 0 then items
              else if |s| == 1 then [Make(s[0])] + items
              else if |s| == 2 then [Make(s[0])] + ([Make(s[1])] + items)
              else if |s| == 3 then [Make(s[0])] + ([Make(s[1])] + ([Make(s[2])] + items))
              else [Make(s[0])] + ([Make(s[1])] + ([Make(s[2])] + ([Make(s[3])] + items))))
  {
    hide Make, Split;
  }

  // ---- what is left ----

  lemma WithinAppend(p: seq<Rect>, q: seq<Rect>, c: Cell)
    ensures Within(p + q, c) <==> Within(p, c) || Within(q, c)
  {
    hide Covers;
    if Within(p, c) {
      var i :| 0 <= i < |p| && Covers(p[i], c);
      assert (p + q)[i] == p[i];
    }
    if Within(q, c) {
      var i :| 0 <= i < |q| && Covers(q[i], c);
      assert (p + q)[|p| + i] == q[i];
    }
  }

  lemma WithinLast(parts: seq<Rect>, c: Cell)
    requires parts != []
    ensures Within(parts, c) <==> Within(parts[..|parts| - 1], c) || Covers(parts[|parts| - 1], c)
  {
    WithinAppend(parts[..|parts| - 1], [parts[|parts| - 1]], c);
    assert parts == parts[..|parts| - 1] + [parts[|parts| - 1]];
    assert Within([parts[|parts| - 1]], c) <==> Covers(parts[|parts| - 1], c) by {
      assert [parts[|parts| - 1]][0] == parts[|parts| - 1];
    }
  }

  /** Appending keeps disjointness when the two lists share no cell. */
  lemma DisjointAppend(p: seq<Rect>, q: seq<Rect>)
    requires Disjoint(p) && Disjoint(q) && forall c :: !(Within(p, c) && Within(q, c))
    ensures Disjoint(p + q)
  {
    hide Covers;
    var s := p + q;
    forall i, j, c | 0 <= i < j < |s|
      ensures !(Covers(s[i], c) && Covers(s[j], c))
    {
      if i < |p| <= j {
        assert s[i] == p[i] && s[j] == q[j - |p|];
        assert !(Within(p, c) && Within(q, c));
      }
    }
  }

  /** Pieces of an area that is never cut off are never cut off. */
  lemma PiecesSafe(a: Rect, b: Rect)
    requires Safe(a)
    ensures AllSafe(Pieces(a, b))
  {
    forall i | 0 <= i < |Pieces(a, b)|
      ensures Safe(Pieces(a, b)[i])
    {
      PieceSafe(a, b, i);
    }
  }

  lemma PieceSafe(a: Rect, b: Rect, i: nat)
    requires Safe(a) && i < |Split(a, b)|
    ensures Safe(Make(Split(a, b)[i]))
  {
    if LastFits(a) {
      SplitFits(a, b, i);
    } else {
      EmptyPiece(a, b, i);
    }
  }

  lemma EmptyPiece(a: Rect, b: Rect, i: nat)
    requires (a.w == 0 || a.h == 0) && i < |Split(a, b)|
    ensures Make(Split(a, b)[i]).w == 0 || Make(Split(a, b)[i]).h == 0
  {
  }

  lemma {:induction false} SubtractAllSafe(parts: seq<Rect>, b: Rect)
    requires AllSafe(parts)
    ensures NoneCutOff(parts, b) && AllSafe(SubtractAll(parts, b))
  {
    if parts != [] {
      var last := parts[|parts| - 1];
      SubtractAllSafe(parts[..|parts| - 1], b);
      SafeNotCutOff(last, b);
      PiecesSafe(last, b);
      hide Safe, CutsOff, Pieces;
    }
  }

  /** Lists of areas with 16-bit last cells, or without cells, are never cut off, whatever is subtracted. */
  lemma {:induction false} SafeNeverCutOff(parts: seq<Rect>, bs: seq<Rect>)
    requires AllSafe(parts)
    ensures NeverCutOff(parts, bs)
    decreases |bs|
  {
    if bs != [] {
      SubtractAllSafe(parts, bs[0]);
      SafeNeverCutOff(SubtractAll(parts, bs[0]), bs[1..]);
    }
  }

  /** And only those: any other list is cut off by some area. */
  lemma SafeIff(parts: seq<Rect>)
    ensures (forall b :: NoneCutOff(parts, b)) <==> AllSafe(parts)
  {
    if AllSafe(parts) {
      forall b
        ensures NoneCutOff(parts, b)
      {
        SubtractAllSafe(parts, b);
      }
    } else {
      var i :| 0 <= i < |parts| && !Safe(parts[i]);
      AlwaysExactIff(parts[i]);
      var b :| !Exact(parts[i], b);
      PiecesExactIff(parts[i], b);
      assert !NoneCutOff(parts, b);
    }
  }

  /**
   * Subtracting an area from a list leaves exactly the cells of the list outside the area, and keeps the
   * areas of the list disjoint, as long as no piece is cut off.
   */
  lemma {:induction false} SubtractAllExact(parts: seq<Rect>, b: Rect)
    requires NoneCutOff(parts, b)
    ensures forall c :: Within(SubtractAll(parts, b), c) <==> Within(parts, c) && !Covers(b, c)
    ensures Disjoint(parts) ==> Disjoint(SubtractAll(parts, b))
  {
    hide CutsOff;
    if parts != [] {
      var front, last := parts[..|parts| - 1], parts[|parts| - 1];
      SubtractAllExact(front, b);
      PiecesExactIff(last, b);
      hide Covers, Pieces, Within;
      var p, q := Pieces(last, b), SubtractAll(front, b);
      forall c
        ensures Within(p + q, c) <==> Within(parts, c) && !Covers(b, c)
        ensures Disjoint(parts) ==> !(Within(p, c) && Within(q, c))
      {
        WithinAppend(p, q, c);
        WithinLast(parts, c);
        if Disjoint(parts) {
          LastApart(parts, c);
        }
      }
      if Disjoint(parts) {
        assert Disjoint(front);
        DisjointAppend(p, q);
      }
    }
  }

  lemma LastApart(parts: seq<Rect>, c: Cell)
    requires parts != [] && Disjoint(parts)
    ensures !(Within(parts[..|parts| - 1], c) && Covers(parts[|parts| - 1], c))
  {
    hide Covers;
  }

  lemma {:induction false} SubtractEachExact(parts: seq<Rect>, bs: seq<Rect>)
    requires NeverCutOff(parts, bs)
    ensures forall c :: Within(SubtractEach(parts, bs), c) <==> Within(parts, c) && !Within(bs, c)
    ensures Disjoint(parts) ==> Disjoint(SubtractEach(parts, bs))
    decreases |bs|
  {
    if bs != [] {
      SubtractAllExact(parts, bs[0]);
      SubtractEachExact(SubtractAll(parts, bs[0]), bs[1..]);
      hide SubtractAll, Disjoint, NoneCutOff;
      forall c
        ensures Within(bs, c) <==> Covers(bs[0], c) || Within(bs[1..], c)
      {
        WithinAppend([bs[0]], bs[1..], c);
        assert bs == [bs[0]] + bs[1..];
        assert Within([bs[0]], c) <==> Covers(bs[0], c) by { assert [bs[0]][0] == bs[0]; }
      }
    }
  }

  /** The cells left do not depend on the order in which areas are subtracted. */
  lemma OrderDoesNotMatter(parts: seq<Rect>, bs: seq<Rect>, cs: seq<Rect>, c: Cell)
    requires NeverCutOff(parts, bs) && NeverCutOff(parts, cs) && multiset(bs) == multiset(cs)
    ensures Within(SubtractEach(parts, bs), c) <==> Within(SubtractEach(parts, cs), c)
  {
    SubtractEachExact(parts, bs);
    SubtractEachExact(parts, cs);
    if Within(bs, c) {
      SameMembers(bs, cs, c);
    }
    if Within(cs, c) {
      SameMembers(cs, bs, c);
    }
  }

  lemma SameMembers(bs: seq<Rect>, cs: seq<Rect>, c: Cell)
    requires multiset(bs) == multiset(cs) && Within(bs, c)
    ensures Within(cs, c)
  {
    var i :| 0 <= i < |bs| && Covers(bs[i], c);
    assert bs[i] in multiset(bs);
    assert bs[i] in multiset(cs);
  }

  // ---- how much is left ----

  function Cells(r: Rect): set<Cell> {
    set x, y | r.x <= x < r.x + r.w && r.y <= y < r.y + r.h :: Cell(x, y)
  }

  function Coverage(parts: seq<Rect>): set<Cell> {
    if parts == [] then {} else Cells(parts[0]) + Coverage(parts[1..])
  }

  function TotalArea(parts: seq<Rect>): nat {
    if parts == [] then 0 else parts[0].w * parts[0].h + TotalArea(parts[1..])
  }

  function Grid(x: int, y: int, w: nat, h: nat): set<Cell> {
    set i, j | x <= i < x + w && y <= j < y + h :: Cell(i, j)
  }

  lemma {:induction false} ColumnSize(x: int, y: int, h: nat)
    ensures |Grid(x, y, 1, h)| == h
  {
    if h == 0 {
      assert Grid(x, y, 1, 0) == {};
    } else {
      ColumnSize(x, y, h - 1);
      assert Grid(x, y, 1, h) == Grid(x, y, 1, h - 1) + {Cell(x, y + h - 1)};
    }
  }

  lemma {:induction false} GridSize(x: int, y: int, w: nat, h: nat)
    ensures |Grid(x, y, w, h)| == w * h
  {
    if w == 0 {
      assert Grid(x, y, 0, h) == {};
    } else {
      GridSize(x, y, w - 1, h);
      ColumnSize(x + w - 1, y, h);
      assert Grid(x, y, w, h) == Grid(x, y, w - 1, h) + Grid(x + w - 1, y, 1, h);
      assert w * h == (w - 1) * h + h;
    }
  }

  lemma {:induction false} CoverageIs(parts: seq<Rect>, c: Cell)
    ensures c in Coverage(parts) <==> Within(parts, c)
  {
    if parts != [] {
      CoverageIs(parts[1..], c);
      WithinAppend([parts[0]], parts[1..], c);
      assert parts == [parts[0]] + parts[1..];
      assert Within([parts[0]], c) <==> Covers(parts[0], c) by { assert [parts[0]][0] == parts[0]; }
    }
  }

  /** For disjoint areas the sum of the areas is the number of cells covered. */
  lemma {:induction false} AreaIsCellCount(parts: seq<Rect>)
    requires Disjoint(parts)
    ensures TotalArea(parts) == |Coverage(parts)|
  {
    if parts != [] {
      AreaIsCellCount(parts[1..]);
      var r := parts[0];
      GridSize(r.x, r.y, r.w, r.h);
      assert Cells(r) == Grid(r.x, r.y, r.w, r.h);
      assert Cells(r) !! Coverage(parts[1..]) by {
        forall c | c in Cells(r)
          ensures c !in Coverage(parts[1..])
        {
          CoverageIs(parts[1..], c);
          assert Covers(parts[0], c);
        }
      }
    }
  }

  /** Nothing is lost or counted twice: area left plus area of the overlap is the area before. */
  lemma AreaConserved(parts: seq<Rect>, b: Rect)
    requires NoneCutOff(parts, b) && Disjoint(parts)
    ensures TotalArea(SubtractAll(parts, b)) + |Coverage(parts) * Cells(b)| == TotalArea(parts)
  {
    SubtractAllExact(parts, b);
    AreaIsCellCount(parts);
    AreaIsCellCount(SubtractAll(parts, b));
    forall c
      ensures c in Coverage(SubtractAll(parts, b)) <==> c in Coverage(parts) && c !in Cells(b)
    {
      CoverageIs(parts, c);
      CoverageIs(SubtractAll(parts, b), c);
    }
    var s, t := Coverage(parts), Cells(b);
    assert Coverage(SubtractAll(parts, b)) == s - t;
    assert s == (s - t) + (s * t);
  }
}
