/** The integer line rasteriser of a surface. */
module DrawLine {
  import opened DrawingArea
  import opened AreaChain
  import opened Arithmetic

  /** `m` is the minor coordinate nearest to `i * d / n`, the lower one if two are equally near. */
  ghost predicate IsNearest(m: int, i: nat, d: nat, n: nat) {
    0 <= 2 * (m * n) - 2 * (i * d) + n < 2 * n
  }

  /** Steps along the minor axis after `i` of `n` steps along the major one, when the line climbs `d` in all. */
  function Nearest(i: nat, d: nat, n: nat): int
    requires n > 0
  {
    (2 * (i * d) + n - 1) / (2 * n)
  }

  function Abs(v: int): nat {
    if v < 0 then -v else v
  }

  function Sign(from: int, to: int): int {
    if from <= to then 1 else -1
  }

  function Steps(p: Cell, q: Cell): nat {
    Max(Abs(q.x - p.x), Abs(q.y - p.y))
  }

  /** The i-th pixel from p to q. */
  function Pixel(p: Cell, q: Cell, i: nat): Cell
    requires p != q
  {
    var dx, dy := Abs(q.x - p.x), Abs(q.y - p.y);
    if dy < dx then Cell(p.x + Sign(p.x, q.x) * i, p.y + Sign(p.y, q.y) * Nearest(i, dy, dx))
    else Cell(p.x + Sign(p.x, q.x) * Nearest(i, dx, dy), p.y + Sign(p.y, q.y) * i)
  }

  /** The pixels in front of the k-th, as far as a clip area lets them through. */
  function Clipped(p: Cell, q: Cell, k: nat, clip: Rect, clipping: bool): seq<Cell>
    requires p != q
  {
    if k == 0 then []
    else
      var c := Pixel(p, q, k - 1);
      Clipped(p, q, k - 1, clip, clipping) + if !clipping || Covers(clip, c) then [c] else []
  }

  class Surface {
    var plotted: seq<Cell>  // put_pix calls, oldest first

    constructor ()
      ensures plotted == []
    {
      plotted := [];
    }

    method PutPix(x: int, y: int)
      modifies this
      ensures plotted == old(plotted) + [Cell(x, y)]
    {
      plotted := plotted + [Cell(x, y)];
    }

    method DrawLine(x1: S16, y1: S16, x2: S16, y2: S16, da_opt: Area?, ghost chain: seq<Area>)
      returns (ghost clip: Rect)
      requires da_opt != null ==> IsChain(da_opt.drawTo, chain)
      modifies this
      ensures da_opt != null ==> forall c :: Covers(clip, c) <==> Covers(da_opt.rect, c) && InAll(chain, c)
      ensures var p, q := Cell(x1, y1), Cell(x2, y2);
              plotted == old(plotted) + if p == q then [] else Clipped(p, q, Steps(p, q) + 1, clip, da_opt != null)
    {
      var da := Rect(0, 0, 0, 0);
      if da_opt != null {
        da := da_opt.SetupRects(chain);
      }
      clip := da;
      if x1 == x2 && y1 == y2 {
        return;
      }
      if Abs(y2 - y1) < Abs(x2 - x1) {
        DrawFlat(x1, y1, x2, y2, da, da_opt != null);
      } else {
        DrawSteep(x1, y1, x2, y2, da, da_opt != null);
      }
    }

    method DrawFlat(x1: S16, y1: S16, x2: S16, y2: S16, da: Rect, clipping: bool)
      requires Abs(y2 - y1) < Abs(x2 - x1)
      modifies this
      ensures plotted == old(plotted)
        + Clipped(Cell(x1, y1), Cell(x2, y2), Abs(x2 - x1) + 1, da, clipping)
    {
      ghost var p, q := Cell(x1, y1), Cell(x2, y2);
      var incX, incY := Sign(x1, x2), Sign(y1, y2);
      var dx, dy := Abs(x2 - x1), Abs(y2 - y1);
      var x: int, y: int := x1, y1;
      ghost var m := 0;
      var inc1, inc2 := (dy - dx) * 2, dy * 2;
      var err := inc2 - dx;
      var i := 0;
      while i <= dx
        invariant i <= dx + 1 && x == x1 + incX * i && y == y1 + incY * m
        invariant IsNearest(m, i, dy, dx) && err == Err(m, i, dy, dx)
        invariant plotted == old(plotted) + Clipped(p, q, i, da, clipping)
      {
        NearestUnique(m, i, dy, dx);
        NearestStep(m, i, dy, dx);
        hide IsNearest, Err, Nearest;
        if !clipping || (x >= da.x && x < da.x + da.w && y >= da.y && y < da.y + da.h) {
          PutPix(x, y);
        }
        if err > 0 {
          y := y + incY;
          m := m + 1;
          err := err + inc1;
        } else {
          err := err + inc2;
        }
        x := x + incX;
        i := i + 1;
      }
    }

    method DrawSteep(x1: S16, y1: S16, x2: S16, y2: S16, da: Rect, clipping: bool)
      requires Abs(y2 - y1) >= Abs(x2 - x1) && y1 != y2
      modifies this
      ensures plotted == old(plotted)
        + Clipped(Cell(x1, y1), Cell(x2, y2), Abs(y2 - y1) + 1, da, clipping)
    {
      ghost var p, q := Cell(x1, y1), Cell(x2, y2);
      var incX, incY := Sign(x1, x2), Sign(y1, y2);
      var dx, dy := Abs(x2 - x1), Abs(y2 - y1);
      var x: int, y: int := x1, y1;
      ghost var m := 0;
      var inc1, inc2 := (dx - dy) * 2, dx * 2;
      var err := inc2 - dy;
      var i := 0;
      while i <= dy
        invariant i <= dy + 1 && y == y1 + incY * i && x == x1 + incX * m
        invariant IsNearest(m, i, dx, dy) && err == Err(m, i, dx, dy)
        invariant plotted == old(plotted) + Clipped(p, q, i, da, clipping)
      {
        NearestUnique(m, i, dx, dy);
        NearestStep(m, i, dx, dy);
        hide IsNearest, Err, Nearest;
        if !clipping || (x >= da.x && x < da.x + da.w && y >= da.y && y < da.y + da.h) {
          PutPix(x, y);
        }
        if err > 0 {
          x := x + incX;
          m := m + 1;
          err := err + inc1;
        } else {
          err := err + inc2;
        }
        y := y + incY;
        i := i + 1;
      }
    }
  }

  /** The error term: how far the next step overshoots the middle between two pixels, doubled. */
  ghost function Err(m: int, i: nat, d: nat, n: nat): int {
    2 * (i * d) + 2 * d - 2 * (m * n) - n
  }

  /** The error term decides correctly, and its update keeps its meaning. */
  lemma NearestStep(m: int, i: nat, d: nat, n: nat)
    requires d <= n && IsNearest(m, i, d, n)
    ensures Err(m, i, d, n) > 0 ==> IsNearest(m + 1, i + 1, d, n)
    ensures Err(m, i, d, n) <= 0 ==> IsNearest(m, i + 1, d, n)
    ensures Err(m + 1, i + 1, d, n) == Err(m, i, d, n) + (d - n) * 2
    ensures Err(m, i + 1, d, n) == Err(m, i, d, n) + d * 2
  {
    assert (m + 1) * n == m * n + n && (i + 1) * d == i * d + d;
  }

  lemma NearestUnique(m: int, i: nat, d: nat, n: nat)
    requires n > 0 && IsNearest(m, i, d, n)
    ensures m == Nearest(i, d, n)
  {
    var a := 2 * (i * d) + n - 1;
    var r := a - m * (2 * n);
    assert m * (2 * n) == 2 * (m * n);
    Quotient(a, 2 * n, m, r);
  }

  lemma NearestIs(i: nat, d: nat, n: nat)
    requires n > 0
    ensures IsNearest(Nearest(i, d, n), i, d, n)
  {
    var a, m := 2 * (i * d) + n - 1, Nearest(i, d, n);
    assert a == m * (2 * n) + a % (2 * n);
    assert m * (2 * n) == 2 * (m * n);
  }

  // ---- what a line looks like ----

  /** The lines of a surface are drawn along the longer axis, one pixel per step. */
  predicate Major(p: Cell, q: Cell) {
    Abs(q.y - p.y) < Abs(q.x - p.x)
  }

  /** Steps of a pixel from p, along the longer and along the shorter axis. */
  function Along(p: Cell, q: Cell, c: Cell): nat {
    if Major(p, q) then Abs(c.x - p.x) else Abs(c.y - p.y)
  }

  function Across(p: Cell, q: Cell, c: Cell): nat {
    if Major(p, q) then Abs(c.y - p.y) else Abs(c.x - p.x)
  }

  lemma NearestBounds(i: nat, d: nat, n: nat)
    requires n > 0 && i <= n && d <= n
    ensures 0 <= Nearest(i, d, n) <= d
  {
    NearestIs(i, d, n);
    var m := Nearest(i, d, n);
    hide Nearest;
    assert (d + 1) * n == n * d + n;
    if m < 0 {
      MulMono(m, -1, n);
      MulMono(0, i, d);
    }
    if m > d {
      MulMono(d + 1, m, n);
      MulMono(i, n, d);
    }
  }

  lemma NearestEnds(d: nat, n: nat)
    requires n > 0
    ensures Nearest(0, d, n) == 0 && Nearest(n, d, n) == d
  {
    assert 0 * n == 0 && 0 * d == 0 && d * n == n * d;
    NearestUnique(0, 0, d, n);
    NearestUnique(d, n, d, n);
  }

  /**
   * The line starts at p and ends at q; it makes one step along the longer axis per pixel, and each pixel
   * is at most half a pixel away from the ideal line across it.
   */
  lemma LineShape(p: Cell, q: Cell, i: nat)
    requires p != q && i <= Steps(p, q)
    ensures Pixel(p, q, 0) == p && Pixel(p, q, Steps(p, q)) == q
    ensures var c := Pixel(p, q, i);
            var d := if Major(p, q) then Abs(q.y - p.y) else Abs(q.x - p.x);
            && Along(p, q, c) == i
            && 2 * Abs(Across(p, q, c) * Steps(p, q) - i * d) <= Steps(p, q)
            && Min(p.x, q.x) <= c.x <= Max(p.x, q.x) && Min(p.y, q.y) <= c.y <= Max(p.y, q.y)
  {
    var n, d := Steps(p, q), if Major(p, q) then Abs(q.y - p.y) else Abs(q.x - p.x);
    NearestBounds(i, d, n);
    NearestEnds(d, n);
    NearestIs(i, d, n);
    var m := Nearest(i, d, n);
    hide Nearest;
    assert Across(p, q, Pixel(p, q, i)) == m;
  }

  /** Neighbouring pixels of the line touch, at least at a corner, and are different. */
  lemma LineConnected(p: Cell, q: Cell, i: nat)
    requires p != q && i < Steps(p, q)
    ensures var c, c' := Pixel(p, q, i), Pixel(p, q, i + 1);
            c != c' && Abs(c'.x - c.x) <= 1 && Abs(c'.y - c.y) <= 1
  {
    var n, d := Steps(p, q), if Major(p, q) then Abs(q.y - p.y) else Abs(q.x - p.x);
    var m := Nearest(i, d, n);
    NearestIs(i, d, n);
    NearestStep(m, i, d, n);
    if Err(m, i, d, n) > 0 {
      NearestUnique(m + 1, i + 1, d, n);
    } else {
      NearestUnique(m, i + 1, d, n);
    }
    hide Nearest, IsNearest, Err;
  }

  /** A line drawn without a clip area has exactly one pixel per step, the i-th at index i. */
  lemma {:induction false} UnclippedLine(p: Cell, q: Cell, k: nat, clip: Rect)
    requires p != q
    ensures Clipped(p, q, k, clip, false) == seq(k, i requires 0 <= i < k => Pixel(p, q, i))
  {
    if k > 0 {
      UnclippedLine(p, q, k - 1, clip);
      hide Pixel;
    }
  }

  /** A clip area lets exactly the pixels through that lie in it, and each of them once. */
  lemma {:induction false} ClippedLine(p: Cell, q: Cell, k: nat, clip: Rect, c: Cell)
    requires p != q && k <= Steps(p, q) + 1
    ensures multiset(Clipped(p, q, k, clip, true))[c]
         == if Covers(clip, c) && c in Clipped(p, q, k, clip, false) then 1 else 0
  {
    if k > 0 {
      ClippedLine(p, q, k - 1, clip, c);
      NewPixel(p, q, k - 1, clip);
      CountAppend(Clipped(p, q, k - 1, clip, true), Pixel(p, q, k - 1), c);
      hide Pixel, Covers, Steps;
    }
  }

  lemma CountAppend(s: seq<Cell>, last: Cell, c: Cell)
    ensures multiset(s + [last])[c] == multiset(s)[c] + if last == c then 1 else 0
  {
  }

  lemma NewPixel(p: Cell, q: Cell, k: nat, clip: Rect)
    requires p != q && k <= Steps(p, q)
    ensures Pixel(p, q, k) !in Clipped(p, q, k, clip, false)
  {
    UnclippedLine(p, q, k, clip);
    forall i: nat | i < k
      ensures Pixel(p, q, i) != Pixel(p, q, k)
    {
      LineShape(p, q, i);
      LineShape(p, q, k);
    }
    hide Pixel;
  }

  /**
   * Drawing from q to p plots, step by step, the same pixels as drawing from p to q, except where the
   * ideal line passes exactly between two pixels: there the two directions choose different ones.
   */
  lemma ReversedLine(p: Cell, q: Cell, i: nat)
    requires p != q && i <= Steps(p, q)
    ensures var d := if Major(p, q) then Abs(q.y - p.y) else Abs(q.x - p.x);
            var n := Steps(p, q);
            Pixel(q, p, n - i) == Pixel(p, q, i) <==> 2 * (i * d) % (2 * n) != n
  {
    var n, d := Steps(p, q), if Major(p, q) then Abs(q.y - p.y) else Abs(q.x - p.x);
    ReversedNearest(i, d, n);
    ReversedPixel(p, q, i, n, d);
    hide Nearest, Pixel, Steps, Major;
  }

  /** Two pixels of the two directions are the same if the steps across the line add up to all of them. */
  /** Halfway between two pixels, the one that is further back along the minor axis is plotted. */
  lemma TieStaysBack(m: nat, i: nat, d: nat, n: nat)
    requires n > 0 && 2 * (i * d) == 2 * (m * n) + n
    ensures Nearest(i, d, n) == m
  {
    Quotient(2 * (i * d) + n - 1, 2 * n, m, 2 * n - 1);
  }

  lemma ReversedPixel(p: Cell, q: Cell, i: nat, n: nat, d: nat)
    requires p != q && n == Steps(p, q) && i <= n
    requires d == if Major(p, q) then Abs(q.y - p.y) else Abs(q.x - p.x)
    ensures Pixel(q, p, n - i) == Pixel(p, q, i) <==> Nearest(n - i, d, n) == d - Nearest(i, d, n)
  {
    NearestBounds(i, d, n);
    NearestBounds(n - i, d, n);
    hide Nearest;
  }

  /** The ideal line passes halfway between two pixels. */
  lemma Tie(i: nat, d: nat, n: nat)
    requires n > 0
    ensures 2 * (i * d) % (2 * n) == n <==> 2 * (Nearest(i, d, n) * n) + n == 2 * (i * d)
  {
    var a, b, m := 2 * (i * d), 2 * n, Nearest(i, d, n);
    var k := a / b;
    assert a == k * b + a % b && k * b == 2 * (k * n) && m * b == 2 * (m * n);
    if a % b == n {
      NearestUnique(k, i, d, n);
    }
    if 2 * (m * n) + n == a {
      Quotient(a, b, m, n);
    }
  }

  lemma ReversedNearest(i: nat, d: nat, n: nat)
    requires n > 0 && i <= n
    ensures var m := Nearest(i, d, n);
            Nearest(n - i, d, n) == if 2 * (i * d) % (2 * n) != n then d - m else d - m - 1
  {
    NearestIs(i, d, n);
    var m := Nearest(i, d, n);
    Tie(i, d, n);
    assert (d - m) * n == n * d - m * n && (d - m - 1) * n == n * d - m * n - n && (n - i) * d == n * d - i * d;
    if 2 * (m * n) + n != 2 * (i * d) {
      NearestUnique(d - m, n - i, d, n);
    } else {
      NearestUnique(d - m - 1, n - i, d, n);
    }
  }
}
