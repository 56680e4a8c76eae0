/** Rectangles on the screen grid, and subtracting one from another in 16-bit coordinates. */
module DrawingArea {

  type S16 = v: int | -0x8000 <= v < 0x8000
  type U16 = v: int | 0 <= v < 0x1_0000

  /** Truncation as in a cast to a 16-bit type. */
  function ToS16(v: int): S16 {
    (v + 0x8000) % 0x1_0000 - 0x8000
  }

  function ToU16(v: int): U16 {
    v % 0x1_0000
  }

  datatype Rect = Rect(x: S16, y: S16, w: U16, h: U16)

  /** The arguments of a constructor call, before they are truncated to the parameter types. */
  datatype Box = Box(x: int, y: int, w: int, h: int)

  function Make(b: Box): Rect {
    Rect(ToS16(b.x), ToS16(b.y), ToU16(b.w), ToU16(b.h))
  }

  predicate Fits(b: Box) {
    && -0x8000 <= b.x < 0x8000 && -0x8000 <= b.y < 0x8000
    && 0 <= b.w < 0x1_0000 && 0 <= b.h < 0x1_0000
  }

  datatype Cell = Cell(x: int, y: int)

  predicate Covers(r: Rect, c: Cell) {
    r.x <= c.x < r.x + r.w && r.y <= c.y < r.y + r.h
  }

  // ---- compare ----

  const XLL := 40
  const XLM := 32
  const XLR := 24
  const XMM := 16
  const XMR := 8
  const XRR := 0
  const YOO := 5
  const YOM := 4
  const YOU := 3
  const YMM := 2
  const YMU := 1
  const YUU := 0

  function CompareX(a: Rect, da: Rect): int {
    if da.x <= a.x then
      if da.x + da.w - 1 < a.x then XLL
      else if da.x + da.w - 1 < a.x + a.w - 1 then XLM
      else XLR
    else if da.x <= a.x + a.w - 1 then
      if da.x + da.w - 1 < a.x + a.w - 1 then XMM else XMR
    else XRR
  }

  function CompareY(a: Rect, da: Rect): int {
    if da.y <= a.y then
      if da.y + da.h - 1 < a.y then YOO
      else if da.y + da.h - 1 < a.y + a.h - 1 then YOM
      else YOU
    else if da.y <= a.y + a.h - 1 then
      if da.y + da.h - 1 < a.y + a.h - 1 then YMM else YMU
    else YUU
  }

  /** The two flags use disjoint bits, so or-ing them is adding them. */
  function Compare(a: Rect, da: Rect): int {
    CompareX(a, da) + CompareY(a, da)
  }

  // ---- subtract_area ----

  /** The constructor calls of one case, in the order they end up at the front of the list. */
  function Split(a: Rect, b: Rect): (r: seq<Box>)
    ensures |r| <= 4
  {
    var f := Compare(a, b);
    var ar, ab, br, bb := a.x + a.w, a.y + a.h, b.x + b.w, b.y + b.h;
    if f == XMR + YMU then
      [Box(a.x, b.y, b.x - a.x, ab - b.y), Box(a.x, a.y, a.w, b.y - a.y)]
    else if f == XMR + YOM then
      [Box(a.x, bb, a.w, ab - bb), Box(a.x, a.y, b.x - a.x, bb - a.y)]
    else if f == XLM + YOM then
      [Box(a.x, bb, a.w, ab - bb), Box(br, a.y, ar - br, bb - a.y)]
    else if f == XLM + YMU then
      [Box(br, b.y, ar - br, ab - b.y), Box(a.x, a.y, a.w, b.y - a.y)]
    else if f == XMR + YMM then
      [Box(a.x, bb, a.w, ab - bb), Box(a.x, b.y, b.x - a.x, b.h), Box(a.x, a.y, a.w, b.y - a.y)]
    else if f == XMM + YOM then
      [Box(br, a.y, ar - br, a.h), Box(b.x, bb, b.w, ab - bb), Box(a.x, a.y, b.x - a.x, a.h)]
    else if f == XLM + YMM then
      [Box(a.x, bb, a.w, ab - bb), Box(br, b.y, ar - br, b.h), Box(a.x, a.y, a.w, b.y - a.y)]
    else if f == XMM + YMU then
      [Box(br, a.y, ar - br, a.h), Box(b.x, a.y, b.w, b.y - a.y), Box(a.x, a.y, b.x - a.x, a.h)]
    else if f == XMR + YOU then
      [Box(a.x, a.y, b.x - a.x, a.h)]
    else if f == XLR + YOM then
      [Box(a.x, bb, a.w, ab - bb)]
    else if f == XLM + YOU then
      [Box(br, a.y, ar - br, a.h)]
    else if f == XLR + YMU then
      [Box(a.x, a.y, a.w, b.y - a.y)]
    else if f == XLR + YMM then
      [Box(a.x, bb, a.w, ab - bb), Box(a.x, a.y, a.w, b.y - a.y)]
    else if f == XMM + YOU then
      [Box(br, a.y, ar - br, a.h), Box(a.x, a.y, b.x - a.x, a.h)]
    else if f == XLR + YOU then
      []
    else if f == XMM + YMM then
      [Box(a.x, bb, a.w, ab - bb), Box(br, b.y, ar - br, b.h),
       Box(a.x, b.y, b.x - a.x, b.h), Box(a.x, a.y, a.w, b.y - a.y)]
    else
      [Box(a.x, a.y, a.w, a.h)]
  }

  /** The pieces pushed by subtract_area. */
  function Pieces(a: Rect, b: Rect): (r: seq<Rect>)
    ensures |r| == |Split(a, b)|
  {
    seq(|Split(a, b)|, i requires 0 <= i < |Split(a, b)| => Make(Split(a, b)[i]))
  }

  /** The last column and row of the area are still 16-bit coordinates. */
  predicate LastFits(a: Rect) {
    a.x + a.w - 1 < 0x8000 && a.y + a.h - 1 < 0x8000
  }

  /** No piece of an area whose last cell has 16-bit coordinates is ever truncated. */
  lemma SplitFits(a: Rect, b: Rect, i: nat)
    requires LastFits(a) && i < |Split(a, b)|
    ensures var p := Split(a, b)[i];
            Fits(p) && Make(p) == Rect(p.x, p.y, p.w, p.h) && LastFits(Make(p))
  {
    SplitFitsX(a, b, i);
    SplitFitsY(a, b, i);
    hide Split;
  }

  lemma SplitFitsX(a: Rect, b: Rect, i: nat)
    requires LastFits(a) && i < |Split(a, b)|
    ensures var p := Split(a, b)[i]; -0x8000 <= p.x < 0x8000 && 0 <= p.w < 0x1_0000 && p.x + p.w - 1 < 0x8000
  {
  }

  lemma SplitFitsY(a: Rect, b: Rect, i: nat)
    requires LastFits(a) && i < |Split(a, b)|
    ensures var p := Split(a, b)[i]; -0x8000 <= p.y < 0x8000 && 0 <= p.h < 0x1_0000 && p.y + p.h - 1 < 0x8000
  {
  }

  /** And only those areas: any other is split at a truncated coordinate by some other area. */
  lemma SplitFitsIff(a: Rect)
    ensures LastFits(a) <==> forall b, i :: 0 <= i < |Split(a, b)| ==> Fits(Split(a, b)[i])
  {
    if LastFits(a) {
      forall b, i | 0 <= i < |Split(a, b)|
        ensures Fits(Split(a, b)[i])
      {
        SplitFits(a, b, i);
      }
    } else if a.x + a.w - 1 >= 0x8000 {
      var b := Rect(a.x, a.y, 0x8000 - a.x, 0xFFFF);
      assert !Fits(Split(a, b)[0]);
    } else {
      var b := Rect(a.x, a.y, 0xFFFF, 0x8000 - a.y);
      assert !Fits(Split(a, b)[0]);
    }
  }

  predicate Within(parts: seq<Rect>, c: Cell) {
    exists i :: 0 <= i < |parts| && Covers(parts[i], c)
  }

  ghost predicate Disjoint(parts: seq<Rect>) {
    forall i, j, c :: 0 <= i < j < |parts| ==> !(Covers(parts[i], c) && Covers(parts[j], c))
  }

  /** The pieces of `a` without `b` cover exactly the cells of `a` that are not in `b`. */
  ghost predicate Exact(a: Rect, b: Rect) {
    forall c :: Within(Pieces(a, b), c) <==> Covers(a, c) && !Covers(b, c)
  }

  /**
   * A piece with cells in it starts behind `b` at a coordinate that is cut off: `b` ends beyond 32767 and
   * before `a` does.
   */
  predicate CutsOff(a: Rect, b: Rect) {
    var x, y := CompareX(a, b), CompareY(a, b);
    && x != XLL && x != XRR && y != YOO && y != YUU
    && ((0x8000 <= b.x + b.w < a.x + a.w && a.h > 0 && (y == YMM ==> b.h > 0))
        || (0x8000 <= b.y + b.h < a.y + a.h && a.w > 0 && (x == XMM && y == YOM ==> b.w > 0)))
  }

  predicate HasCells(b: Box) {
    b.w != 0 && b.h != 0
  }

  /** The condition finds exactly the splits with a truncated piece that has cells. */
  lemma CutsOffIff(a: Rect, b: Rect)
    ensures CutsOff(a, b) <==> exists i :: 0 <= i < |Split(a, b)| && !Fits(Split(a, b)[i]) && HasCells(Split(a, b)[i])
  {
    var s := Split(a, b);
    if CutsOff(a, b) {
      var i := TruncatedPiece(a, b);
    }
    if i :| 0 <= i < |s| && !Fits(s[i]) && HasCells(s[i]) {
      TruncatedCuts(a, b, i);
    }
  }

  lemma TruncatedPiece(a: Rect, b: Rect) returns (i: nat)
    requires CutsOff(a, b)
    ensures i < |Split(a, b)| && !Fits(Split(a, b)[i]) && HasCells(Split(a, b)[i])
  {
    var s := Split(a, b);
    i := if !Fits(s[0]) && HasCells(s[0]) then 0 else if |s| > 1 && !Fits(s[1]) && HasCells(s[1]) then 1 else 2;
  }

  lemma TruncatedCuts(a: Rect, b: Rect, i: nat)
    requires i < |Split(a, b)| && !Fits(Split(a, b)[i]) && HasCells(Split(a, b)[i])
    ensures CutsOff(a, b)
  {
  }

  /** A truncated piece lies outside the area it was cut from. */
  lemma TruncatedOutside(a: Rect, b: Rect, i: nat)
    requires i < |Split(a, b)| && !Fits(Split(a, b)[i]) && HasCells(Split(a, b)[i])
    ensures var p := Pieces(a, b)[i]; Covers(p, Cell(p.x, p.y)) && !Covers(a, Cell(p.x, p.y))
  {
  }

  /** The pieces are exact unless one with cells is cut off; otherwise cells are lost and others appear. */
  lemma PiecesExactIff(a: Rect, b: Rect)
    ensures Exact(a, b) <==> !CutsOff(a, b)
    ensures !CutsOff(a, b) ==> Disjoint(Pieces(a, b))
  {
    if CutsOff(a, b) {
      var i := TruncatedPiece(a, b);
      TruncatedOutside(a, b, i);
      var p := Pieces(a, b)[i];
      assert Within(Pieces(a, b), Cell(p.x, p.y));
    } else {
      forall c
        ensures Within(Pieces(a, b), c) <==> Covers(a, c) && !Covers(b, c)
      {
        CellExact(a, b, c);
      }
      forall i, j, c | 0 <= i < j < |Pieces(a, b)|
        ensures !(Covers(Pieces(a, b)[i], c) && Covers(Pieces(a, b)[j], c))
      {
        CellOnce(a, b, c, i, j);
      }
    }
  }

  /** Areas that no other area cuts off: the last cell has 16-bit coordinates, or there are no cells. */
  predicate Safe(a: Rect) {
    LastFits(a) || a.w == 0 || a.h == 0
  }

  /** An area is split exactly by every other area iff it is one of those. */
  lemma AlwaysExactIff(a: Rect)
    ensures (forall b :: Exact(a, b)) <==> Safe(a)
  {
    if Safe(a) {
      forall b
        ensures Exact(a, b)
      {
        SafeNotCutOff(a, b);
        PiecesExactIff(a, b);
      }
    } else {
      var b := if a.x + a.w - 1 >= 0x8000 then Rect(a.x, a.y, 0x8000 - a.x, 0xFFFF)
               else Rect(a.x, a.y, 0xFFFF, 0x8000 - a.y);
      assert CutsOff(a, b);
      PiecesExactIff(a, b);
    }
  }

  lemma SafeNotCutOff(a: Rect, b: Rect)
    requires Safe(a)
    ensures !CutsOff(a, b)
  {
  }

  /** Taking the left half off a wide area: the column at 32768 and all after it are lost. */
  lemma CellsLost()
    ensures var a, b := Rect(32767, 0, 3, 1), Rect(32767, 0, 1, 1);
            && Covers(a, Cell(32768, 0)) && !Covers(b, Cell(32768, 0)) && !Within(Pieces(a, b), Cell(32768, 0))
            && Within(Pieces(a, b), Cell(-32768, 0)) && !Covers(a, Cell(-32768, 0))
  {
    var a, b := Rect(32767, 0, 3, 1), Rect(32767, 0, 1, 1);
    assert Pieces(a, b)[0] == Rect(-32768, 0, 2, 1);
  }

  predicate BoxCovers(b: Box, c: Cell) {
    b.x <= c.x < b.x + b.w && b.y <= c.y < b.y + b.h
  }

  predicate BoxesCover(s: seq<Box>, c: Cell) {
    || (|s| > 0 && BoxCovers(s[0], c)) || (|s| > 1 && BoxCovers(s[1], c))
    || (|s| > 2 && BoxCovers(s[2], c)) || (|s| > 3 && BoxCovers(s[3], c))
  }

  lemma BoxesSound(a: Rect, b: Rect, c: Cell)
    requires BoxesCover(Split(a, b), c)
    ensures Covers(a, c) && !Covers(b, c)
  {
  }

  lemma BoxesComplete(a: Rect, b: Rect, c: Cell)
    requires Covers(a, c) && !Covers(b, c)
    ensures BoxesCover(Split(a, b), c)
  {
  }

  lemma BoxesOnce(a: Rect, b: Rect, c: Cell, i: nat, j: nat)
    requires i < j < |Split(a, b)|
    ensures !(BoxCovers(Split(a, b)[i], c) && BoxCovers(Split(a, b)[j], c))
  {
  }

  /** Sizes are never truncated, so that a piece without cells stays without. */
  lemma SizesFit(a: Rect, b: Rect, i: nat)
    requires i < |Split(a, b)|
    ensures var p := Split(a, b)[i];
            0 <= p.w < 0x1_0000 && 0 <= p.h < 0x1_0000
  {
  }

  lemma PieceCovers(a: Rect, b: Rect, c: Cell, i: nat)
    requires !CutsOff(a, b) && i < |Split(a, b)|
    ensures Covers(Pieces(a, b)[i], c) <==> BoxCovers(Split(a, b)[i], c)
  {
    SizesFit(a, b, i);
    if !Fits(Split(a, b)[i]) && HasCells(Split(a, b)[i]) {
      TruncatedCuts(a, b, i);
    }
    hide Split, CutsOff;
  }

  lemma CellExact(a: Rect, b: Rect, c: Cell)
    requires !CutsOff(a, b)
    ensures Within(Pieces(a, b), c) <==> Covers(a, c) && !Covers(b, c)
  {
    hide Split, Make, Fits, Covers, CutsOff;
    var s, p := Split(a, b), Pieces(a, b);
    forall i | 0 <= i < |s|
      ensures Covers(p[i], c) <==> BoxCovers(s[i], c)
    {
      PieceCovers(a, b, c, i);
    }
    hide BoxCovers;
    if Covers(a, c) && !Covers(b, c) {
      BoxesComplete(a, b, c);
    }
    if BoxesCover(s, c) {
      BoxesSound(a, b, c);
    }
  }

  lemma CellOnce(a: Rect, b: Rect, c: Cell, i: nat, j: nat)
    requires !CutsOff(a, b) && i < j < |Pieces(a, b)|
    ensures !(Covers(Pieces(a, b)[i], c) && Covers(Pieces(a, b)[j], c))
  {
    hide Split, Covers, CutsOff, BoxCovers;
    BoxesOnce(a, b, c, i, j);
    PieceCovers(a, b, c, i);
    PieceCovers(a, b, c, j);
  }
}
