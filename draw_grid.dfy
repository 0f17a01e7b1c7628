/**
 * The all-octant Bresenham rasteriser `plot_line` of util/draw_grid.py.
 * Setting a pixel on the screen is modelled as appending it to a sequence.
 */
module DrawGrid {

  type Pixel = (int, int)

  /** The direction one coordinate moves in: +1 towards a larger end, -1 otherwise. */
  function Step(from: int, to: int): (s: int)
    ensures s == 1 || s == -1
    ensures s == 1 <==> from < to
  {
    if from < to then 1 else -1
  }

  function Abs(v: int): (r: int)
    ensures r >= 0 && (r == v || r == -v)
  {
    if v < 0 then -v else v
  }

  /** b lies one step on from a: by 0 or `sx` along x and by 0 or `sy` along y, never by nothing. */
  ghost predicate UnitStep(a: Pixel, b: Pixel, sx: int, sy: int)
  {
    var dx, dy := b.0 - a.0, b.1 - a.1;
    (dx == 0 || dx == sx) && (dy == 0 || dy == sy) && (dx != 0 || dy != 0)
  }

  /** Each pixel after the first lies one unit step on from the one before it. */
  ghost predicate UnitSteps(pixels: seq<Pixel>, sx: int, sy: int)
  {
    forall k :: 0 < k < |pixels| ==> UnitStep(pixels[k - 1], pixels[k], sx, sy)
  }

  ghost predicate InRange(v: int, a: int, b: int)
  {
    (a <= v <= b) || (b <= v <= a)
  }

  /** Every pixel lies in the box spanned by the two end points. */
  ghost predicate Between(pixels: seq<Pixel>, p1: Pixel, p2: Pixel)
  {
    forall k :: 0 <= k < |pixels| ==> InRange(pixels[k].0, p1.0, p2.0) && InRange(pixels[k].1, p1.1, p2.1)
  }

  /**
   * dx*j + dy*i, spelled out by repeated addition so that the loop below keeps to
   * linear arithmetic: it is the part of the error term that the steps change.
   */
  ghost function Drift(dx: int, dy: int, i: nat, j: nat): int
  {
    if i > 0 then Drift(dx, dy, i - 1, j) + dy
    else if j > 0 then Drift(dx, dy, 0, j - 1) + dx
    else 0
  }

  lemma {:induction false} DriftIsProduct(dx: int, dy: int, i: nat, j: nat)
    ensures Drift(dx, dy, i, j) == dx * j + dy * i
  {
    if i > 0 {
      DriftIsProduct(dx, dy, i - 1, j);
    } else if j > 0 {
      DriftIsProduct(dx, dy, 0, j - 1);
    }
  }

  lemma {:induction false} DriftStepY(dx: int, dy: int, i: nat, j: nat)
    ensures Drift(dx, dy, i, j + 1) == Drift(dx, dy, i, j) + dx
  {
    if i > 0 {
      DriftStepY(dx, dy, i - 1, j);
    }
  }

  /**
   * The heart of the termination argument: with dx = |x2 - x1| and dy = -|y2 - y1|,
   * after i steps along x and j along y the error term is dx + dy + dx*j + dy*i; a step
   * along x is taken only while i < dx, one along y only while j < -dy, and at least
   * one of the two is taken.
   */
  lemma ErrorStep(dx: int, dy: int, i: nat, j: nat)
    requires i <= dx && j <= -dy && (i != dx || j != -dy)
    ensures var e2 := 2 * (dx + dy + Drift(dx, dy, i, j));
      (e2 >= dy || e2 <= dx) && (e2 >= dy ==> i < dx) && (e2 <= dx ==> j < -dy)
  {
    if i == dx {
      XExhausted(dx, dy, j);
    } else if j == -dy {
      YExhausted(dx, dy, i);
    }
  }

  /** Once x has arrived, the error is at most dy < 0: no further step along x. */
  lemma XExhausted(dx: int, dy: int, j: nat)
    requires 0 <= dx && j < -dy
    ensures dx + dy + Drift(dx, dy, dx, j) <= dy < 0
  {
    DriftIsProduct(dx, dy, dx, j);
    MulMono(dx, j, -dy - 1);
    assert dx * (-dy - 1) == -(dx * dy) - dx;
    assert dy * dx == dx * dy;
  }

  /** Once y has arrived, the error is at least dx > 0: no further step along y. */
  lemma YExhausted(dx: int, dy: int, i: nat)
    requires dy <= 0 && i < dx
    ensures dx + dy + Drift(dx, dy, i, -dy) >= dx > 0
  {
    DriftIsProduct(dx, dy, i, -dy);
    MulMono(-dy, i, dx - 1);
    assert (-dy) * (dx - 1) == -(dy * dx) + dy;
    assert (-dy) * i == -(dy * i);
    assert dx * (-dy) == -(dy * dx);
  }

  lemma MulMono(a: int, u: int, v: int)
    requires 0 <= a && u <= v
    ensures a * u <= a * v
  {
    assert a * v - a * u == a * (v - u);
  }

  /**
   * What the loop has drawn so far: it starts on p1, moves by unit steps, stays in
   * the box of p1 and p2 and has not met p2; the current pixel `cur` is one unit step
   * on from the last one drawn (or is p1 before anything is drawn).
   */
  ghost predicate Trail(pixels: seq<Pixel>, p1: Pixel, p2: Pixel, sx: int, sy: int, cur: Pixel)
  {
    (pixels == [] ==> cur == p1) &&
    (pixels != [] ==> pixels[0] == p1 && UnitStep(pixels[|pixels| - 1], cur, sx, sy)) &&
    UnitSteps(pixels, sx, sy) && Between(pixels, p1, p2) &&
    forall k :: 0 <= k < |pixels| ==> pixels[k] != p2
  }

  /** Drawing `cur`, which is not p2, and stepping on to `next` keeps the trail. */
  lemma TrailStep(pixels: seq<Pixel>, p1: Pixel, p2: Pixel, sx: int, sy: int, cur: Pixel, next: Pixel)
    requires Trail(pixels, p1, p2, sx, sy, cur) && cur != p2
    requires InRange(cur.0, p1.0, p2.0) && InRange(cur.1, p1.1, p2.1)
    requires UnitStep(cur, next, sx, sy)
    ensures Trail(pixels + [cur], p1, p2, sx, sy, next)
  {
    var r := pixels + [cur];
    forall k | 0 < k < |r| ensures UnitStep(r[k - 1], r[k], sx, sy) {
      if k < |pixels| {
        assert r[k] == pixels[k] && r[k - 1] == pixels[k - 1];
      }
    }
    forall k | 0 <= k < |r| ensures InRange(r[k].0, p1.0, p2.0) && InRange(r[k].1, p1.1, p2.1) && r[k] != p2 {
      if k < |pixels| {
        assert r[k] == pixels[k];
      }
    }
  }

  /** Drawing p2 itself closes the trail: the line runs from p1 to p2 by unit steps. */
  lemma TrailEnd(pixels: seq<Pixel>, p1: Pixel, p2: Pixel, sx: int, sy: int)
    requires Trail(pixels, p1, p2, sx, sy, p2)
    ensures var r := pixels + [p2];
      r[0] == p1 && r[|r| - 1] == p2 && (forall k :: 0 <= k < |r| - 1 ==> r[k] != p2) &&
      UnitSteps(r, sx, sy) && Between(r, p1, p2)
  {
    var r := pixels + [p2];
    forall k | 0 < k < |r| ensures UnitStep(r[k - 1], r[k], sx, sy) {
      if k < |pixels| {
        assert r[k] == pixels[k] && r[k - 1] == pixels[k - 1];
      }
    }
    forall k | 0 <= k < |r| ensures InRange(r[k].0, p1.0, p2.0) && InRange(r[k].1, p1.1, p2.1) {
      if k < |pixels| {
        assert r[k] == pixels[k];
      }
    }
    forall k | 0 <= k < |r| - 1 ensures r[k] != p2 {
      assert r[k] == pixels[k];
    }
  }

  /**
   * plot_line: `pixels` is what the loop hands to `screen.set_at`, in order.
   * The loop starts on the first point, ends exactly on the second, never meets the
   * second before the end, and moves one unit step towards it each time.
   */
  method PlotLine(point1: Pixel, point2: Pixel) returns (pixels: seq<Pixel>)
    ensures |pixels| >= 1
    ensures pixels[0] == point1
    ensures pixels[|pixels| - 1] == point2
    ensures forall k :: 0 <= k < |pixels| - 1 ==> pixels[k] != point2
    ensures UnitSteps(pixels, Step(point1.0, point2.0), Step(point1.1, point2.1))
    ensures Between(pixels, point1, point2)
    ensures |pixels| <= Abs(point2.0 - point1.0) + Abs(point2.1 - point1.1) + 1
  {
    var (x0, y0) := point1;
    var (x1, y1) := point2;
    var dx: int := Abs(x1 - x0);
    var sx: int := if x0 < x1 then 1 else -1;
    var dy: int := -Abs(y1 - y0);
    var sy: int := if y0 < y1 then 1 else -1;
    var err := dx + dy;
    // i and j count the steps taken along x and along y
    ghost var i: nat, j: nat := 0, 0;
    pixels := [];
    while true
      invariant 0 <= i <= dx && 0 <= j <= -dy
      invariant x0 == point1.0 + (if sx == 1 then i as int else 0 - i as int)
      invariant y0 == point1.1 + (if sy == 1 then j as int else 0 - j as int)
      invariant x1 == point1.0 + (if sx == 1 then dx else -dx)
      invariant y1 == point1.1 + (if sy == 1 then -dy else dy)
      invariant err == dx + dy + Drift(dx, dy, i, j)
      invariant Trail(pixels, point1, point2, sx, sy, (x0, y0))
      invariant |pixels| <= i + j
      decreases (dx - i) + (-dy - j)
    {
      ghost var drawn, cur := pixels, (x0, y0);
      pixels := pixels + [(x0, y0)];
      if x0 == x1 && y0 == y1 {
        TrailEnd(drawn, point1, point2, sx, sy);
        break;
      }
      var e2 := 2 * err;
      ErrorStep(dx, dy, i, j);
      if e2 >= dy {
        err := err + dy;
        x0 := x0 + sx;
        i := i + 1;
      }
      if e2 <= dx {
        DriftStepY(dx, dy, i, j);
        err := err + dx;
        y0 := y0 + sy;
        j := j + 1;
      }
      TrailStep(drawn, point1, point2, sx, sy, cur, (x0, y0));
    }
  }
}
