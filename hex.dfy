/**
 * util/draw_hex.py: a grid of hexagons on screen, the point-in-hexagon tests used to
 * hit-test the mouse, and the selection and highlight bookkeeping of `handleEvent`.
 * Screen coordinates are integers; the crossing tests divide, and are modelled over
 * exact reals.
 */
module HexGrid {

  type Vertex = (int, int)
  type Rect = (int, int, int, int)

  const GridWidth := 20
  const GridHeight := 20

  /** The number of edges `range(len(polygon) - 1)` walks: the last vertex closes the ring. */
  function EdgeCount(polygon: seq<Vertex>): nat
  {
    if |polygon| == 0 then 0 else |polygon| - 1
  }

  /**
   * genHexagon: the six corners `corner(0..5)` (the cosine/sine points truncated to
   * integers) followed by the first corner again.
   */
  method GenHexagon(corner: int -> Vertex) returns (hexPoints: seq<Vertex>)
    ensures |hexPoints| == 7 && EdgeCount(hexPoints) == 6
    ensures forall i :: 0 <= i < 6 ==> hexPoints[i] == corner(i)
    ensures hexPoints[6] == hexPoints[0]
  {
    hexPoints := [];
    for i := 0 to 6
      invariant |hexPoints| == i
      invariant forall k :: 0 <= k < i ==> hexPoints[k] == corner(k)
    {
      hexPoints := hexPoints + [corner(i)];
    }
    hexPoints := hexPoints + [(hexPoints[0].0, hexPoints[0].1)];
  }

  /**
   * r = (x_min, y_min, x_max - x_min, y_max - y_min) is the tightest box around the
   * points: every point lies in it and each of its four sides touches a point.
   */
  ghost predicate IsBoundingBox(points: seq<Vertex>, r: Rect)
  {
    r.2 >= 0 && r.3 >= 0 &&
    (forall k :: 0 <= k < |points| ==>
      r.0 <= points[k].0 <= r.0 + r.2 && r.1 <= points[k].1 <= r.1 + r.3) &&
    (exists k :: 0 <= k < |points| && points[k].0 == r.0) &&
    (exists k :: 0 <= k < |points| && points[k].0 == r.0 + r.2) &&
    (exists k :: 0 <= k < |points| && points[k].1 == r.1) &&
    (exists k :: 0 <= k < |points| && points[k].1 == r.1 + r.3)
  }

  /** aabb: a running minimum and maximum per axis over all points. */
  method Aabb(points: seq<Vertex>) returns (r: Rect)
    requires |points| > 0
    ensures IsBoundingBox(points, r)
  {
    var xMin, yMin, xMax, yMax := points[0].0, points[0].1, points[0].0, points[0].1;
    ghost var iXMin, iYMin, iXMax, iYMax := 0, 0, 0, 0;
    for n := 0 to |points|
      invariant 0 <= iXMin < |points| && points[iXMin].0 == xMin
      invariant 0 <= iXMax < |points| && points[iXMax].0 == xMax
      invariant 0 <= iYMin < |points| && points[iYMin].1 == yMin
      invariant 0 <= iYMax < |points| && points[iYMax].1 == yMax
      invariant xMin <= xMax && yMin <= yMax
      invariant forall k :: 0 <= k < n ==> xMin <= points[k].0 <= xMax && yMin <= points[k].1 <= yMax
    {
      var point := points[n];
      if point.0 < xMin {
        xMin, iXMin := point.0, n;
      } else if point.0 > xMax {
        xMax, iXMax := point.0, n;
      }
      if point.1 < yMin {
        yMin, iYMin := point.1, n;
      } else if point.1 > yMax {
        yMax, iYMax := point.1, n;
      }
    }
    r := (xMin, yMin, xMax - xMin, yMax - yMin);
  }

  /** D of insideHexagon: > 0 when p lies strictly left of the edge from a to b. */
  function Cross(a: Vertex, b: Vertex, p: Vertex): int
  {
    (b.0 - a.0) * (p.1 - a.1) - (p.0 - a.0) * (b.1 - a.1)
  }

  /**
   * insideHexagon from edge i on: False at the first edge with D <= 0, True past the
   * last. It holds iff the point is strictly left of every edge from i on.
   */
  function InsideFrom(point: Vertex, polygon: seq<Vertex>, i: nat): (r: bool)
    ensures r <==> forall k :: i <= k < EdgeCount(polygon) ==> Cross(polygon[k], polygon[k + 1], point) > 0
    decreases EdgeCount(polygon) - i
  {
    if i >= EdgeCount(polygon) then true
    else if Cross(polygon[i], polygon[i + 1], point) <= 0 then false
    else InsideFrom(point, polygon, i + 1)
  }

  /** insideHexagon holds iff the point is strictly left of every edge. */
  function InsideHexagon(point: Vertex, polygon: seq<Vertex>): (r: bool)
    ensures r <==> forall k :: 0 <= k < EdgeCount(polygon) ==> Cross(polygon[k], polygon[k + 1], point) > 0
  {
    InsideFrom(point, polygon, 0)
  }

  /** A vertex lies on its own edges, where D is 0, so it is never inside. */
  lemma VertexNotInside(polygon: seq<Vertex>, j: int)
    requires |polygon| >= 2 && 0 <= j < |polygon|
    ensures !InsideHexagon(polygon[j], polygon)
  {
    if j < EdgeCount(polygon) {
      assert Cross(polygon[j], polygon[j + 1], polygon[j]) == 0;
    } else {
      var a, b := polygon[j - 1], polygon[j];
      assert Cross(a, b, b) == (b.0 - a.0) * (b.1 - a.1) - (b.0 - a.0) * (b.1 - a.1);
    }
  }

  /**
   * Dividing by a non-zero d: u < v / d iff u d < v for positive d, and iff u d > v for
   * negative d.
   */
  lemma LessQuotient(u: real, v: real, d: real)
    requires d != 0.0
    ensures d > 0.0 ==> (u < v / d <==> u * d < v)
    ensures d < 0.0 ==> (u < v / d <==> u * d > v)
  {
    assert (v / d) * d == v;
    if d > 0.0 {
      if u < v / d {
        assert u * d < (v / d) * d;
      } else {
        assert u * d >= (v / d) * d;
      }
    } else {
      if u < v / d {
        assert u * d > (v / d) * d;
      } else {
        assert u * d <= (v / d) * d;
      }
    }
  }

  /**
   * An edge from a to b crosses the horizontal ray right of p: it goes up past p's
   * height (a at or below, b above) with p strictly left of it, or down past it (b at
   * or below, a above) with p strictly right of its direction.
   */
  predicate RayCrosses(p: Vertex, a: Vertex, b: Vertex)
  {
    (a.1 <= p.1 < b.1 && Cross(a, b, p) > 0) || (b.1 <= p.1 < a.1 && Cross(a, b, p) < 0)
  }

  /**
   * The crossing test of hex_cn_PnPoly for the edge from a to b: the edge crosses the
   * horizontal line through p (upwards or downwards), at an x right of p.
   */
  function CnCrosses(p: Vertex, a: Vertex, b: Vertex): (r: bool)
    ensures r <==> RayCrosses(p, a, b)
  {
    if (a.1 <= p.1 && b.1 > p.1) || (a.1 > p.1 && b.1 <= p.1) then
      // the straddle guarantees b.1 != a.1, so the division is defined
      var d := (b.1 - a.1) as real;
      var vt := (p.1 - a.1) as real / d;
      LessQuotient((p.0 - a.0) as real, (p.1 - a.1) as real * (b.0 - a.0) as real, d);
      assert vt * (b.0 - a.0) as real == (p.1 - a.1) as real * (b.0 - a.0) as real / d;
      (p.0 as real) < a.0 as real + vt * (b.0 - a.0) as real
    else
      false
  }

  /** The same test as hex_collide writes it: a differently grouped formula. */
  function CollideCrosses(p: Vertex, a: Vertex, b: Vertex): (r: bool)
    ensures r <==> RayCrosses(p, a, b)
  {
    if (a.1 > p.1) != (b.1 > p.1) then
      var d := (b.1 - a.1) as real;
      LessQuotient((p.0 - a.0) as real, (b.0 - a.0) as real * (p.1 - a.1) as real, d);
      (p.0 as real) < ((b.0 - a.0) as real * (p.1 - a.1) as real) / (b.1 - a.1) as real + a.0 as real
    else
      false
  }

  /** Over exact arithmetic the two crossing tests agree on every edge. */
  lemma CrossingTestsAgree(p: Vertex, a: Vertex, b: Vertex)
    ensures CnCrosses(p, a, b) <==> CollideCrosses(p, a, b)
  {
  }

  /** The number of the first n edges that cross right of the point. */
  function Crossings(point: Vertex, polygon: seq<Vertex>, n: nat): nat
    requires n <= EdgeCount(polygon)
  {
    if n == 0 then 0
    else Crossings(point, polygon, n - 1) + (if CnCrosses(point, polygon[n - 1], polygon[n]) then 1 else 0)
  }

  /** hex_cn_PnPoly: the parity of the crossing count, 0 (outside) or 1 (inside). */
  method CnPnPoly(point: Vertex, polygon: seq<Vertex>) returns (r: int)
    ensures r == Crossings(point, polygon, EdgeCount(polygon)) % 2
    ensures r == 0 || r == 1
  {
    var cn := 0;
    var vertexCount := |polygon| - 1;
    for i := 0 to (if vertexCount < 0 then 0 else vertexCount)
      invariant cn == Crossings(point, polygon, i)
    {
      var a, b := polygon[i], polygon[i + 1];
      if (a.1 <= point.1 && b.1 > point.1) || (a.1 > point.1 && b.1 <= point.1) {
        var vt := (point.1 - a.1) as real / (b.1 - a.1) as real;
        if (point.0 as real) < a.0 as real + vt * (b.0 - a.0) as real {
          cn := cn + 1;
        }
      }
    }
    r := cn % 2;
  }

  /** hex_collide: flips `odd` at each crossing; it answers exactly as hex_cn_PnPoly does. */
  method HexCollide(point: Vertex, polygon: seq<Vertex>) returns (odd: bool)
    ensures odd <==> Crossings(point, polygon, EdgeCount(polygon)) % 2 == 1
  {
    odd := false;
    var vertexCount := |polygon| - 1;
    for i := 0 to (if vertexCount < 0 then 0 else vertexCount)
      invariant odd <==> Crossings(point, polygon, i) % 2 == 1
    {
      CollideStep(point, polygon, i);
      if CollideCrosses(point, polygon[i], polygon[i + 1]) {
        odd := !odd;
      }
    }
  }

  /** One more edge: the parity of the crossing count flips exactly when hex_collide's test holds. */
  lemma CollideStep(point: Vertex, polygon: seq<Vertex>, i: nat)
    requires i < EdgeCount(polygon)
    ensures (Crossings(point, polygon, i + 1) % 2 == 1) <==>
      ((Crossings(point, polygon, i) % 2 == 1) != CollideCrosses(point, polygon[i], polygon[i + 1]))
  {
    var a, b := polygon[i], polygon[i + 1];
    CrossingTestsAgree(point, a, b);
    ParityStep(Crossings(point, polygon, i), CnCrosses(point, a, b));
  }

  lemma ParityStep(n: nat, c: bool)
    ensures ((n + if c then 1 else 0) % 2 == 1) <==> ((n % 2 == 1) != c)
  {
  }

  /** `list.remove(t)`: drops the first occurrence of t. */
  function RemoveFirst(s: seq<Vertex>, t: Vertex): (r: seq<Vertex>)
    ensures t in s ==> |r| == |s| - 1
    ensures t !in s ==> r == s
    ensures forall u :: u in r ==> u in s
    ensures forall u :: u != t ==> (u in r <==> u in s)
    ensures multiset(r) == multiset(s) - multiset{t}
  {
    if s == [] then []
    else if s[0] == t then
      assert s == [s[0]] + s[1..];
      s[1..]
    else
      assert s == [s[0]] + s[1..];
      [s[0]] + RemoveFirst(s[1..], t)
  }

  predicate NoDuplicates(s: seq<Vertex>)
  {
    forall i, j :: 0 <= i < j < |s| ==> s[i] != s[j]
  }

  /**
   * One click on hex t: remove it from the selection if there, else append it. One
   * occurrence of t goes or comes, and no other hex is affected.
   */
  function Toggle(sel: seq<Vertex>, t: Vertex): (r: seq<Vertex>)
    ensures multiset(r) == if t in sel then multiset(sel) - multiset{t} else multiset(sel) + multiset{t}
    ensures forall u :: u != t ==> (u in r <==> u in sel)
  {
    if t in sel then RemoveFirst(sel, t) else sel + [t]
  }

  /**
   * Toggling flips the membership of t and no other; on a selection without
   * duplicates it keeps none.
   */
  lemma ToggleFlips(sel: seq<Vertex>, t: Vertex)
    requires NoDuplicates(sel)
    ensures (t in Toggle(sel, t)) <==> t !in sel
    ensures forall u :: u != t ==> (u in Toggle(sel, t) <==> u in sel)
    ensures NoDuplicates(Toggle(sel, t))
  {
    if t in sel {
      var r := RemoveFirst(sel, t);
      NoDupMultiset(sel);
      assert multiset(sel)[t] == 1;
      assert multiset(r)[t] == 0;
      MultisetNoDup(r, sel);
    } else {
      var r := sel + [t];
      forall i, j | 0 <= i < j < |r| ensures r[i] != r[j] {
        if j == |sel| {
          assert r[i] == sel[i];
        }
      }
    }
  }

  lemma {:induction false} NoDupMultiset(s: seq<Vertex>)
    requires NoDuplicates(s)
    ensures forall u :: multiset(s)[u] <= 1
  {
    if s != [] {
      var init := s[..|s| - 1];
      assert s == init + [s[|s| - 1]];
      NoDupMultiset(init);
      assert s[|s| - 1] !in init;
    }
  }

  /** A sequence whose counts stay within those of a duplicate-free one has no duplicates. */
  lemma {:induction false} MultisetNoDup(r: seq<Vertex>, s: seq<Vertex>)
    requires NoDuplicates(s) && multiset(r) <= multiset(s)
    ensures NoDuplicates(r)
  {
    NoDupMultiset(s);
    forall i, j | 0 <= i < j < |r| ensures r[i] != r[j] {
      TwoOccurrences(r, i, j);
    }
  }

  lemma TwoOccurrences(r: seq<Vertex>, i: int, j: int)
    requires 0 <= i < j < |r|
    ensures r[i] == r[j] ==> multiset(r)[r[i]] >= 2
  {
    assert r == r[..i] + [r[i]] + r[i + 1..j] + [r[j]] + r[j + 1..];
  }

  /** A list entry of `self.Hex`: its grid index, outline, box and highlight flag. */
  class HexCell {
    const xIdx: int
    const yIdx: int
    const area: seq<Vertex>
    const box: Rect
    var highlight: bool

    constructor (xIdx: int, yIdx: int, area: seq<Vertex>, box: Rect)
      ensures this.xIdx == xIdx && this.yIdx == yIdx && this.area == area && this.box == box
      ensures !highlight
    {
      this.xIdx := xIdx;
      this.yIdx := yIdx;
      this.area := area;
      this.box := box;
      this.highlight := false;
    }
  }

  /** The event kinds handleEvent reacts to; every other kind is ignored. */
  datatype MouseEvent = MouseButtonDown(pos: Vertex) | MouseMotion(pos: Vertex) | OtherEvent

  /** The hexes, in list order, hit by the point: inside their box and inside their outline. */
  function Hits(cells: seq<HexCell>, point: Vertex, collide: (Rect, Vertex) -> bool): (r: seq<Vertex>)
    ensures |r| <= |cells|
  {
    if cells == [] then []
    else
      var a := cells[0];
      (if collide(a.box, point) && InsideHexagon(point, a.area) then [(a.xIdx, a.yIdx)] else []) +
      Hits(cells[1..], point, collide)
  }

  /** The selection after toggling each hit in turn. */
  function ToggleAll(sel: seq<Vertex>, targets: seq<Vertex>): seq<Vertex>
    decreases |targets|
  {
    if targets == [] then sel else ToggleAll(Toggle(sel, targets[0]), targets[1..])
  }

  lemma {:induction false} ToggleAllNoDuplicates(sel: seq<Vertex>, targets: seq<Vertex>)
    requires NoDuplicates(sel)
    ensures NoDuplicates(ToggleAll(sel, targets))
    decreases |targets|
  {
    if targets != [] {
      ToggleFlips(sel, targets[0]);
      ToggleAllNoDuplicates(Toggle(sel, targets[0]), targets[1..]);
    }
  }

  /** When a click hits exactly one hex, that hex's membership flips and nothing else changes. */
  lemma SingleHitFlips(sel: seq<Vertex>, t: Vertex)
    requires NoDuplicates(sel)
    ensures (t in ToggleAll(sel, [t])) <==> t !in sel
    ensures forall u :: u != t ==> (u in ToggleAll(sel, [t]) <==> u in sel)
  {
    ToggleFlips(sel, t);
    assert [t][1..] == [];
  }

  class HexGridView {
    const xOffset: int
    const yOffset: int
    const hexes: seq<HexCell>
    var visible: bool
    var isEnabled: bool
    var selectedCell: seq<Vertex>

    /**
     * __init__: a GridWidth x GridHeight grid of hexes, row by row; corner(x, y, i) is
     * the i-th corner of hex (x, y) as the trigonometry places it.
     */
    constructor (corner: (int, int, int) -> Vertex, xOffset: int, yOffset: int)
      ensures this.xOffset == xOffset && this.yOffset == yOffset
      ensures visible && isEnabled && selectedCell == []
      ensures |hexes| == GridWidth * GridHeight
      ensures forall k :: 0 <= k < |hexes| ==>
        var a := hexes[k];
        a.xIdx == k % GridWidth && a.yIdx == k / GridWidth && !a.highlight &&
        |a.area| == 7 && a.area[6] == a.area[0] &&
        (forall i :: 0 <= i < 6 ==> a.area[i] == corner(a.xIdx, a.yIdx, i)) &&
        IsBoundingBox(a.area, a.box)
    {
      var cells: seq<HexCell> := [];
      for y := 0 to GridHeight
        invariant |cells| == GridWidth * y
        invariant forall k :: 0 <= k < |cells| ==> CellFor(cells[k], corner, k)
      {
        for x := 0 to GridWidth
          invariant |cells| == GridWidth * y + x
          invariant forall k :: 0 <= k < |cells| ==> CellFor(cells[k], corner, k)
        {
          var hex := GenHexagon(i => corner(x, y, i));
          var box := Aabb(hex);
          var tmp := new HexCell(x, y, hex, box);
          assert (GridWidth * y + x) % GridWidth == x && (GridWidth * y + x) / GridWidth == y;
          cells := cells + [tmp];
        }
      }
      this.xOffset := xOffset;
      this.yOffset := yOffset;
      this.hexes := cells;
      this.visible := true;
      this.isEnabled := true;
      this.selectedCell := [];
    }

    /**
     * `(int(pos[0] - x_offset), int(pos[1] - y_offset))`, with integer positions and
     * offsets: the screen position relative to the grid's origin.
     */
    function Point(pos: Vertex): (r: Vertex)
      ensures r.0 + xOffset == pos.0 && r.1 + yOffset == pos.1
    {
      (pos.0 - xOffset, pos.1 - yOffset)
    }

    /**
     * handleEvent: a click toggles, in list order, every hex whose box and outline
     * contain the point; a motion sets each hex's highlight to whether it contains the
     * point. Nothing happens while hidden or disabled.
     */
    method HandleEvent(ev: MouseEvent, collide: (Rect, Vertex) -> bool)
      modifies this, hexes
      ensures visible == old(visible) && isEnabled == old(isEnabled)
      ensures var active := visible && isEnabled;
        (active && ev.MouseButtonDown? ==>
           selectedCell == ToggleAll(old(selectedCell), Hits(hexes, Point(ev.pos), collide))) &&
        (!(active && ev.MouseButtonDown?) ==> selectedCell == old(selectedCell))
      ensures visible && isEnabled && ev.MouseMotion? ==>
        forall a :: a in hexes ==>
          a.highlight == (collide(a.box, Point(ev.pos)) && InsideHexagon(Point(ev.pos), a.area))
      ensures !(visible && isEnabled && ev.MouseMotion?) ==>
        forall a :: a in hexes ==> a.highlight == old(a.highlight)
      ensures old(NoDuplicates(selectedCell)) ==> NoDuplicates(selectedCell)
    {
      if visible && isEnabled && !ev.OtherEvent? {
        var point := Point(ev.pos);
        if ev.MouseButtonDown? {
          ToggleHits(point, collide);
        } else {
          HighlightHits(point, collide);
        }
      }
    }

    /** The button-down branch of handle_event: toggle every cell under the point, in grid order. */
    method ToggleHits(point: Vertex, collide: (Rect, Vertex) -> bool)
      modifies this
      ensures visible == old(visible) && isEnabled == old(isEnabled)
      ensures selectedCell == ToggleAll(old(selectedCell), Hits(hexes, point, collide))
      ensures old(NoDuplicates(selectedCell)) ==> NoDuplicates(selectedCell)
    {
      for n := 0 to |hexes|
        invariant selectedCell == ToggleAll(old(selectedCell), Hits(hexes[..n], point, collide))
        invariant visible == old(visible) && isEnabled == old(isEnabled)
      {
        var a := hexes[n];
        ToggleStep(old(selectedCell), hexes, n, point, collide);
        if collide(a.box, point) && InsideHexagon(point, a.area) {
          var target := (a.xIdx, a.yIdx);
          if target in selectedCell {
            selectedCell := RemoveFirst(selectedCell, target);
          } else {
            selectedCell := selectedCell + [target];
          }
        }
      }
      assert hexes[..|hexes|] == hexes;
      if old(NoDuplicates(selectedCell)) {
        ToggleAllNoDuplicates(old(selectedCell), Hits(hexes, point, collide));
      }
    }

    /** The motion branch of handle_event: a cell is highlighted exactly when it is under the point. */
    method HighlightHits(point: Vertex, collide: (Rect, Vertex) -> bool)
      modifies hexes
      ensures forall a :: a in hexes ==> a.highlight == (collide(a.box, point) && InsideHexagon(point, a.area))
    {
      for n := 0 to |hexes|
        invariant forall k :: 0 <= k < n ==>
          hexes[k].highlight == (collide(hexes[k].box, point) && InsideHexagon(point, hexes[k].area))
      {
        var a := hexes[n];
        if collide(a.box, point) {
          if InsideHexagon(point, a.area) {
            a.highlight := true;
          } else {
            a.highlight := false;
          }
        } else {
          a.highlight := false;
        }
      }
    }
  }

  /** The constructor's promise about list entry k. */
  ghost predicate CellFor(a: HexCell, corner: (int, int, int) -> Vertex, k: int)
    reads a
  {
    a.xIdx == k % GridWidth && a.yIdx == k / GridWidth && !a.highlight &&
    |a.area| == 7 && a.area[6] == a.area[0] &&
    (forall i :: 0 <= i < 6 ==> a.area[i] == corner(a.xIdx, a.yIdx, i)) &&
    IsBoundingBox(a.area, a.box)
  }

  lemma HitsAppend(cells: seq<HexCell>, a: HexCell, point: Vertex, collide: (Rect, Vertex) -> bool)
    ensures Hits(cells + [a], point, collide) ==
      Hits(cells, point, collide) + (if collide(a.box, point) && InsideHexagon(point, a.area) then [(a.xIdx, a.yIdx)] else [])
  {
    if cells != [] {
      assert (cells + [a])[1..] == cells[1..] + [a];
      HitsAppend(cells[1..], a, point, collide);
    }
  }

  /** One more cell scanned: its hit, if any, is toggled after all the earlier ones. */
  lemma ToggleStep(sel: seq<Vertex>, cells: seq<HexCell>, n: nat, point: Vertex, collide: (Rect, Vertex) -> bool)
    requires n < |cells|
    ensures var a := cells[n];
      var done := ToggleAll(sel, Hits(cells[..n], point, collide));
      ToggleAll(sel, Hits(cells[..n + 1], point, collide)) ==
        if collide(a.box, point) && InsideHexagon(point, a.area) then Toggle(done, (a.xIdx, a.yIdx)) else done
  {
    var a := cells[n];
    var before := Hits(cells[..n], point, collide);
    assert cells[..n + 1] == cells[..n] + [a];
    HitsAppend(cells[..n], a, point, collide);
    if collide(a.box, point) && InsideHexagon(point, a.area) {
      ToggleAllAppend(sel, before, (a.xIdx, a.yIdx));
    } else {
      assert before + [] == before;
    }
  }

  lemma ToggleAllAppend(sel: seq<Vertex>, targets: seq<Vertex>, t: Vertex)
    ensures ToggleAll(sel, targets + [t]) == Toggle(ToggleAll(sel, targets), t)
    decreases |targets|
  {
    if targets != [] {
      assert (targets + [t])[1..] == targets[1..] + [t];
      ToggleAllAppend(Toggle(sel, targets[0]), targets[1..], t);
    } else {
      assert [t][1..] == [];
    }
  }
}
