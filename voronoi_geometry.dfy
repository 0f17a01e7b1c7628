/**
 * The real-arithmetic helpers of the Fortune sweep in
 * util/voronoi_fortune_algorithm.py: parabola intersections (`intersection`,
 * `intersect`) and circumcircles (`circle`). The sweep line moves along x; a site p
 * with the sweep line at x = l defines the parabola of points equidistant from p and
 * the line. `math.sqrt` is a parameter: any function returning the non-negative
 * square root of non-negative arguments.
 */
module VoronoiGeometry {
  import opened Wrappers

  datatype Point = Point(x: real, y: real)

  ghost predicate IsSqrt(sqrt: real -> real)
  {
    forall v :: v >= 0.0 ==> sqrt(v) >= 0.0 && sqrt(v) * sqrt(v) == v
  }

  /** q is as far from the focus f as from the vertical line x = l: it lies on f's parabola. */
  ghost predicate OnParabola(q: Point, f: Point, l: real)
  {
    ((q.x - f.x) * (q.x - f.x)) + ((q.y - f.y) * (q.y - f.y)) == ((q.x - l) * (q.x - l))
  }

  /**
   * "Plug back into one of the parabola equations": the point of f's parabola at
   * height py.
   */
  function PlugBack(f: Point, py: real, l: real): (q: Point)
    requires f.x != l
    ensures q.y == py && OnParabola(q, f, l)
  {
    var q := Point(((f.x * f.x) + ((f.y - py) * (f.y - py)) - (l * l)) / (2.0 * f.x - 2.0 * l), py);
    PlugBackOnParabola(f, py, l, q);
    q
  }

  lemma PlugBackOnParabola(f: Point, py: real, l: real, q: Point)
    requires f.x != l && q == Point(((f.x * f.x) + ((f.y - py) * (f.y - py)) - (l * l)) / (2.0 * f.x - 2.0 * l), py)
    ensures OnParabola(q, f, l)
  {
    var d := 2.0 * f.x - 2.0 * l;
    var n := (f.x * f.x) + ((f.y - py) * (f.y - py)) - (l * l);
    assert q.x * d == n;
    assert ((q.x - f.x) * (q.x - f.x)) - ((q.x - l) * (q.x - l)) == (l - f.x) * (2.0 * q.x - f.x - l);
    assert (l - f.x) * (2.0 * q.x) == -(q.x * d);
    assert (l - f.x) * (- f.x - l) == (f.x * f.x) - (l * l);
  }

  /** The coefficients of `intersection`'s quadratic, for foci off the line and at different x. */
  function Coefficients(p0: Point, p1: Point, l: real): (abc: (real, real, real))
    requires p0.x != l && p1.x != l && p0.x != p1.x
    ensures abc.0 != 0.0
  {
    var z0 := 2.0 * (p0.x - l);
    var z1 := 2.0 * (p1.x - l);
    var a := 1.0 / z0 - 1.0 / z1;
    var b := -2.0 * (p0.y / z0 - p1.y / z1);
    var c := ((p0.y * p0.y) + (p0.x * p0.x) - (l * l)) / z0 - ((p1.y * p1.y) + (p1.x * p1.x) - (l * l)) / z1;
    InverseDiffers(z0, z1);
    (a, b, c)
  }

  lemma InverseDiffers(z0: real, z1: real)
    requires z0 != 0.0 && z1 != 0.0 && z0 != z1
    ensures 1.0 / z0 - 1.0 / z1 != 0.0
  {
    assert (1.0 / z0 - 1.0 / z1) * (z0 * z1) == z1 - z0;
  }

  function Discriminant(p0: Point, p1: Point, l: real): real
    requires p0.x != l && p1.x != l && p0.x != p1.x
  {
    var abc := Coefficients(p0, p1, l);
    abc.1 * abc.1 - 4.0 * abc.0 * abc.2
  }

  /**
   * intersection(p0, p1, l): where the parabolas of p0 and p1 meet, taking the root
   * `(-b - sqrt(b*b - 4ac)) / 2a`. None where the source raises: ZeroDivisionError when
   * both foci lie on the line, ValueError when the discriminant is negative.
   */
  function Intersection(p0: Point, p1: Point, l: real, sqrt: real -> real): (r: Option<Point>)
    requires IsSqrt(sqrt)
    ensures r.None? <==>
      (p0.x == p1.x == l) ||
      (p0.x != p1.x && p0.x != l && p1.x != l && Discriminant(p0, p1, l) < 0.0)
  {
    if p0.x == p1.x then
      if p0.x == l then None
      else Some(PlugBack(p0, (p0.y + p1.y) / 2.0, l))
    else if p1.x == l then
      Some(PlugBack(p0, p1.y, l))
    else if p0.x == l then
      Some(PlugBack(p1, p0.y, l))
    else
      var (a, b, c) := Coefficients(p0, p1, l);
      var disc := Discriminant(p0, p1, l);
      if disc < 0.0 then None
      else Some(PlugBack(p0, (-b - sqrt(disc)) / (2.0 * a), l))
  }

  /**
   * With both foci on the same side of the line (or one on it, not both), the
   * discriminant is never negative: `intersection` does not raise.
   */
  lemma IntersectionDefined(p0: Point, p1: Point, l: real, sqrt: real -> real)
    requires IsSqrt(sqrt)
    requires (p0.x - l) * (p1.x - l) >= 0.0 && !(p0.x == l && p1.x == l)
    ensures Intersection(p0, p1, l, sqrt).Some?
  {
    if p0.x != p1.x && p0.x != l && p1.x != l {
      var (a, b, c) := Coefficients(p0, p1, l);
      var u, v := p0.x - l, p1.x - l;
      var z := 2.0 * u * 2.0 * v;
      DiscriminantScaled(p0, p1, l, z);
      assert u * v > 0.0;
      assert z > 0.0;
      WeightedSquaresNonNegative(u * v, p0.y - p1.y, u - v);
      NonNegativeScaled(b * b - 4.0 * a * c, z, 16.0 * (u * v) * (((p0.y - p1.y) * (p0.y - p1.y)) + ((u - v) * (u - v))));
    }
  }

  /**
   * b^2 - 4ac, scaled by (z0 z1)^2, is 16 u v ((y0 - y1)^2 + (u - v)^2) with
   * u = x0 - l and v = x1 - l: never negative when both foci are on one side.
   */
  lemma DiscriminantScaled(p0: Point, p1: Point, l: real, z: real)
    requires p0.x != l && p1.x != l && p0.x != p1.x
    requires z == 2.0 * (p0.x - l) * 2.0 * (p1.x - l)
    ensures var (a, b, c) := Coefficients(p0, p1, l);
      var u, v := p0.x - l, p1.x - l;
      (b * b - 4.0 * a * c) * (z * z) == 16.0 * (u * v) * (((p0.y - p1.y) * (p0.y - p1.y)) + ((u - v) * (u - v)))
  {
    var abc := Coefficients(p0, p1, l);
    ScaledCoefficientA(p0, p1, l, z);
    ScaledCoefficientB(p0, p1, l, z);
    ScaledCoefficientC(p0, p1, l, z);
    DiscriminantOfScaled(abc.0, abc.1, abc.2, z, p0.y, p1.y, p0.x - l, p1.x - l);
  }

  lemma NonNegativeQuotient(x: real, y: real)
    requires y > 0.0 && x * y >= 0.0
    ensures x >= 0.0
  {
  }

  /** A quantity that becomes non-negative once scaled by a positive square is non-negative. */
  lemma NonNegativeScaled(d: real, z: real, r: real)
    requires z > 0.0 && r >= 0.0 && d * (z * z) == r
    ensures d >= 0.0
  {
    assert (d * z) * z == r;
    NonNegativeQuotient(d * z, z);
    NonNegativeQuotient(d, z);
  }

  lemma WeightedSquaresNonNegative(w: real, s: real, t: real)
    requires w > 0.0
    ensures 16.0 * w * ((s * s) + (t * t)) >= 0.0
  {
    SqNonNegative(s);
    SqNonNegative(t);
  }

  /**
   * Where `intersection` succeeds with neither focus on the line, the point it
   * returns is on both parabolas: it is where their arcs meet on the beach line.
   */
  lemma IntersectionOnParabolas(p0: Point, p1: Point, l: real, sqrt: real -> real)
    requires IsSqrt(sqrt)
    requires p0.x != l && p1.x != l && Intersection(p0, p1, l, sqrt).Some?
    ensures var q := Intersection(p0, p1, l, sqrt).value;
      OnParabola(q, p0, l) && OnParabola(q, p1, l)
  {
    var q := Intersection(p0, p1, l, sqrt).value;
    if p0.x == p1.x {
      MidpointMeets(p0, p1, l);
    } else {
      var abc := Coefficients(p0, p1, l);
      SquaredRoot(p0, p1, l, sqrt);
      RootMeets(p0, p1, l, abc.0, abc.1, abc.2, sqrt(Discriminant(p0, p1, l)));
    }
  }

  lemma SquaredRoot(p0: Point, p1: Point, l: real, sqrt: real -> real)
    requires IsSqrt(sqrt) && p0.x != l && p1.x != l && p0.x != p1.x
    requires Discriminant(p0, p1, l) >= 0.0
    ensures var abc, s := Coefficients(p0, p1, l), sqrt(Discriminant(p0, p1, l));
      s * s == abc.1 * abc.1 - 4.0 * abc.0 * abc.2
  {
  }

  /** Foci at the same x: both parabolas pass through the point at the height between them. */
  lemma MidpointMeets(p0: Point, p1: Point, l: real)
    requires p0.x == p1.x != l
    ensures var py := (p0.y + p1.y) / 2.0; PlugBack(p1, py, l) == PlugBack(p0, py, l)
  {
    var py := (p0.y + p1.y) / 2.0;
    assert (p1.y - py) * (p1.y - py) == (p0.y - py) * (p0.y - py);
  }

  /**
   * With s a square root of the discriminant, the root `(-b - s) / 2a` is a height
   * at which the two parabolas share their point.
   */
  lemma RootMeets(p0: Point, p1: Point, l: real, a: real, b: real, c: real, s: real)
    requires p0.x != l && p1.x != l && p0.x != p1.x
    requires (a, b, c) == Coefficients(p0, p1, l) && s * s == b * b - 4.0 * a * c
    ensures var py := (-b - s) / (2.0 * a); PlugBack(p1, py, l) == PlugBack(p0, py, l)
  {
    var py := (-b - s) / (2.0 * a);
    QuadraticRoot(a, b, c, b * b - 4.0 * a * c, s, py);
    PlugBackDifference(p0, p1, l, py);
  }

  /** The root `(-b - s) / 2a` with s*s == b*b - 4ac solves the quadratic. */
  lemma QuadraticRoot(a: real, b: real, c: real, d: real, s: real, py: real)
    requires a != 0.0 && d == b * b - 4.0 * a * c && s * s == d && py == (-b - s) / (2.0 * a)
    ensures a * py * py + b * py + c == 0.0
  {
    assert 2.0 * a * py + b == -s;
    assert (2.0 * a * py + b) * (2.0 * a * py + b) == b * b - 4.0 * a * c;
    assert 4.0 * a * (a * py * py + b * py + c) == 0.0;
  }

  /**
   * Along a horizontal line at height py, the parabola of p0 lies to the right of
   * that of p1 by exactly a*py^2 + b*py + c: the quadratic of `intersection`.
   */
  lemma PlugBackDifference(p0: Point, p1: Point, l: real, py: real)
    requires p0.x != l && p1.x != l && p0.x != p1.x
    ensures var abc := Coefficients(p0, p1, l); var a, b, c := abc.0, abc.1, abc.2;
      PlugBack(p0, py, l).x - PlugBack(p1, py, l).x == a * py * py + b * py + c
  {
    var abc := Coefficients(p0, p1, l); var a, b, c := abc.0, abc.1, abc.2;
    var z0, z1 := 2.0 * (p0.x - l), 2.0 * (p1.x - l);
    PlugBackTerms(p0, l, py);
    PlugBackTerms(p1, l, py);
    assert a == 1.0 / z0 - 1.0 / z1;
    ScaleInverses(py * py, z0, z1);
    assert a * py * py == py * py / z0 - py * py / z1;
    assert b == -2.0 * (p0.y / z0 - p1.y / z1);
    assert b * py == -2.0 * py * p0.y / z0 + 2.0 * py * p1.y / z1;
  }

  lemma ScaleInverses(w: real, z0: real, z1: real)
    requires z0 != 0.0 && z1 != 0.0
    ensures (1.0 / z0 - 1.0 / z1) * w == w / z0 - w / z1
  {
  }

  lemma PlugBackTerms(f: Point, l: real, py: real)
    requires f.x != l
    ensures var z := 2.0 * (f.x - l);
      PlugBack(f, py, l).x
        == py * py / z - 2.0 * py * f.y / z + ((f.y * f.y) + (f.x * f.x) - (l * l)) / z
  {
    var z := 2.0 * (f.x - l);
    assert 2.0 * f.x - 2.0 * l == z;
    assert (f.x * f.x) + ((f.y - py) * (f.y - py)) - (l * l)
      == py * py - 2.0 * py * f.y + ((f.y * f.y) + (f.x * f.x) - (l * l));
  }

  /**
   * b^2 - 4ac, scaled by (z0 z1)^2, is 16 u v ((y0 - y1)^2 + (u - v)^2) with
   * u = x0 - l and v = x1 - l; here on plain numbers, a, b and c known only
   * through a z, b z and c z (`ScaledCoefficients`).
   */
  lemma DiscriminantOfScaled(a: real, b: real, c: real, z: real, y0: real, y1: real, u: real, v: real)
    requires a * z == 2.0 * (v - u) && b * z == -4.0 * (y0 * v - y1 * u)
    requires c * z == 2.0 * (v * (y0 * y0) - u * (y1 * y1) + u * v * (u - v))
    ensures (b * b - 4.0 * a * c) * (z * z) == 16.0 * (u * v) * (((y0 - y1) * (y0 - y1)) + ((u - v) * (u - v)))
  {
    var az, bz := 2.0 * (v - u), -4.0 * (y0 * v - y1 * u);
    var cz := 2.0 * (v * (y0 * y0) - u * (y1 * y1) + u * v * (u - v));
    Expand(bz, az, cz, z, b, a, c);
    PolyIdentity(y0, y1, u, v, az, bz, cz);
  }

  /** The coefficients of `intersection`, each multiplied by z0 z1 = 2u 2v. */
  lemma ScaledCoefficients(p0: Point, p1: Point, l: real, z: real)
    requires p0.x != l && p1.x != l && p0.x != p1.x
    requires z == 2.0 * (p0.x - l) * 2.0 * (p1.x - l)
    ensures var (a, b, c) := Coefficients(p0, p1, l);
      var u, v := p0.x - l, p1.x - l;
      a * z == 2.0 * (v - u) && b * z == -4.0 * (p0.y * v - p1.y * u) &&
      c * z == 2.0 * (v * (p0.y * p0.y) - u * (p1.y * p1.y) + u * v * (u - v))
  {
    ScaledCoefficientA(p0, p1, l, z);
    ScaledCoefficientB(p0, p1, l, z);
    ScaledCoefficientC(p0, p1, l, z);
  }

  lemma ScaledCoefficientA(p0: Point, p1: Point, l: real, z: real)
    requires p0.x != l && p1.x != l && p0.x != p1.x
    requires z == 2.0 * (p0.x - l) * 2.0 * (p1.x - l)
    ensures Coefficients(p0, p1, l).0 * z == 2.0 * ((p1.x - l) - (p0.x - l))
  {
    var z0, z1 := 2.0 * (p0.x - l), 2.0 * (p1.x - l);
    assert z == z0 * z1;
    ScaledA(z0, z1);
  }

  lemma ScaledCoefficientB(p0: Point, p1: Point, l: real, z: real)
    requires p0.x != l && p1.x != l && p0.x != p1.x
    requires z == 2.0 * (p0.x - l) * 2.0 * (p1.x - l)
    ensures Coefficients(p0, p1, l).1 * z == -4.0 * (p0.y * (p1.x - l) - p1.y * (p0.x - l))
  {
    var u, v := p0.x - l, p1.x - l;
    var z0, z1 := 2.0 * u, 2.0 * v;
    assert z == z0 * z1;
    ScaledB(p0.y, p1.y, z0, z1);
    assert p0.y * z1 - p1.y * z0 == 2.0 * (p0.y * v - p1.y * u);
  }

  lemma ScaledCoefficientC(p0: Point, p1: Point, l: real, z: real)
    requires p0.x != l && p1.x != l && p0.x != p1.x
    requires z == 2.0 * (p0.x - l) * 2.0 * (p1.x - l)
    ensures var u, v := p0.x - l, p1.x - l;
      Coefficients(p0, p1, l).2 * z == 2.0 * (v * (p0.y * p0.y) - u * (p1.y * p1.y) + u * v * (u - v))
  {
    var u, v := p0.x - l, p1.x - l;
    assert z == (2.0 * u) * (2.0 * v);
    ScaledC(p0, p1, l);
  }

  lemma Expand(bz: real, az: real, cz: real, z: real, b: real, a: real, c: real)
    requires bz == b * z && az == a * z && cz == c * z
    ensures (b * b - 4.0 * a * c) * (z * z) == bz * bz - 4.0 * az * cz
  {
  }

  lemma ScaledA(z0: real, z1: real)
    requires z0 != 0.0 && z1 != 0.0
    ensures (1.0 / z0 - 1.0 / z1) * (z0 * z1) == z1 - z0
  {
  }

  lemma ScaledB(y0: real, y1: real, z0: real, z1: real)
    requires z0 != 0.0 && z1 != 0.0
    ensures (-2.0 * (y0 / z0 - y1 / z1)) * (z0 * z1) == -2.0 * (y0 * z1 - y1 * z0)
  {
    assert (y0 / z0) * (z0 * z1) == y0 * z1;
    assert (y1 / z1) * (z0 * z1) == y1 * z0;
  }

  lemma ScaledC(p0: Point, p1: Point, l: real)
    requires p0.x != l && p1.x != l
    ensures var u, v := p0.x - l, p1.x - l;
      (((p0.y * p0.y) + (p0.x * p0.x) - (l * l)) / (2.0 * u) - ((p1.y * p1.y) + (p1.x * p1.x) - (l * l)) / (2.0 * v))
        * ((2.0 * u) * (2.0 * v))
      == 2.0 * (v * (p0.y * p0.y) - u * (p1.y * p1.y) + u * v * (u - v))
  {
    var u, v := p0.x - l, p1.x - l;
    var n0, n1 := (p0.y * p0.y) + (p0.x * p0.x) - (l * l), (p1.y * p1.y) + (p1.x * p1.x) - (l * l);
    assert (n0 / (2.0 * u)) * ((2.0 * u) * (2.0 * v)) == n0 * (2.0 * v);
    assert (n1 / (2.0 * v)) * ((2.0 * u) * (2.0 * v)) == n1 * (2.0 * u);
    assert (p0.x * p0.x) - (l * l) == u * (u + 2.0 * l);
    assert (p1.x * p1.x) - (l * l) == v * (v + 2.0 * l);
  }

  lemma PolyIdentity(y0: real, y1: real, u: real, v: real, az: real, bz: real, cz: real)
    requires bz == -4.0 * (y0 * v - y1 * u) && az == 2.0 * (v - u)
    requires cz == 2.0 * (v * (y0 * y0) - u * (y1 * y1) + u * v * (u - v))
    ensures bz * bz - 4.0 * az * cz == 16.0 * (u * v) * (((y0 - y1) * (y0 - y1)) + ((u - v) * (u - v)))
  {
    Expanded(y0, y1, u, v);
  }

  lemma Expanded(y0: real, y1: real, u: real, v: real)
    ensures 16.0 * ((y0 * v - y1 * u) * (y0 * v - y1 * u))
        - 16.0 * ((v - u) * (v * y0 * y0 - u * y1 * y1 + u * v * (u - v)))
      == 16.0 * (u * v) * ((y0 - y1) * (y0 - y1) + (u - v) * (u - v))
  {
  }

  lemma SqNonNegative(v: real)
    ensures (v * v) >= 0.0
  {
  }
  /** What `intersect` finds for a new site p against the arc of `focus`: raises become Raised. */
  datatype Probe = Miss | Hit(z: Point) | Raised

  /**
   * intersect(p, i): the arc of `focus`, between the breakpoints it shares with the
   * arcs of `prev` and `next` (None at either end of the beach line), is hit by the
   * horizontal ray from p when p.y lies between the two breakpoints; the hit point is
   * on the arc at height p.y.
   */
  function Intersect(p: Point, focus: Point, prev: Option<Point>, next: Option<Point>, sqrt: real -> real): (r: Probe)
    requires IsSqrt(sqrt)
    ensures r.Raised? <==>
      (focus.x != p.x &&
       ((prev.Some? && Intersection(prev.value, focus, p.x, sqrt).None?) ||
        (next.Some? && Intersection(focus, next.value, p.x, sqrt).None?)))
    ensures r.Hit? <==>
      (focus.x != p.x && !r.Raised? &&
       (prev.None? || Intersection(prev.value, focus, p.x, sqrt).value.y <= p.y) &&
       (next.None? || p.y <= Intersection(focus, next.value, p.x, sqrt).value.y))
    ensures r.Hit? ==> r.z.y == p.y && OnParabola(r.z, focus, p.x)
  {
    if focus.x == p.x then Miss
    else
      var lower := if prev.Some? then Intersection(prev.value, focus, p.x, sqrt) else Some(p);
      var upper := if next.Some? then Intersection(focus, next.value, p.x, sqrt) else Some(p);
      if lower.None? || upper.None? then Raised
      else if (prev.None? || lower.value.y <= p.y) && (next.None? || p.y <= upper.value.y) then
        Hit(PlugBack(focus, p.y, p.x))
      else Miss
  }

  /**
   * Sites are processed in order of x, so every focus on the beach line is at or
   * left of the new site: then `intersect` never raises.
   */
  lemma IntersectNeverRaises(p: Point, focus: Point, prev: Option<Point>, next: Option<Point>, sqrt: real -> real)
    requires IsSqrt(sqrt)
    requires focus.x <= p.x
    requires prev.Some? ==> prev.value.x <= p.x
    requires next.Some? ==> next.value.x <= p.x
    ensures !Intersect(p, focus, prev, next, sqrt).Raised?
  {
    if focus.x != p.x {
      if prev.Some? {
        OnSameSide(prev.value.x - p.x, focus.x - p.x);
        IntersectionDefined(prev.value, focus, p.x, sqrt);
      }
      if next.Some? {
        OnSameSide(focus.x - p.x, next.value.x - p.x);
        IntersectionDefined(focus, next.value, p.x, sqrt);
      }
    }
  }

  lemma OnSameSide(u: real, v: real)
    requires u <= 0.0 && v <= 0.0
    ensures u * v >= 0.0
  {
  }

  function Dist2(o: Point, q: Point): real
  {
    (q.x - o.x) * (q.x - o.x) + (q.y - o.y) * (q.y - o.y)
  }

  /** Twice the signed area of the triangle a, b, c: positive when they turn left. */
  function Orientation(a: Point, b: Point, c: Point): real
  {
    (b.x - a.x) * (c.y - a.y) - (c.x - a.x) * (b.y - a.y)
  }

  /** o is the centre of a circle through a, b and c. */
  ghost predicate Circumscribes(o: Point, a: Point, b: Point, c: Point)
  {
    Dist2(o, a) == Dist2(o, b) == Dist2(o, c)
  }

  /** x is the rightmost x of the circle around o through a: o.x plus the radius. */
  ghost predicate Rightmost(x: real, o: Point, a: Point)
  {
    x >= o.x && (x - o.x) * (x - o.x) == Dist2(o, a)
  }

  /** A circle event candidate: the rightmost x of the circle through three sites, and its centre. */
  datatype Circumcircle = NoCircle | CircleAt(x: real, o: Point)

  /**
   * circle(a, b, c): for three sites turning right (clockwise), the centre o of the
   * circle through them and x = o.x + radius, the sweep position at which the middle
   * arc vanishes. Sites turning left or in line give no circle.
   */
  function Circle(a: Point, b: Point, c: Point, sqrt: real -> real): (r: Circumcircle)
    requires IsSqrt(sqrt)
    ensures r.CircleAt? <==> Orientation(a, b, c) < 0.0
    ensures r.CircleAt? ==> Circumscribes(r.o, a, b, c) && Rightmost(r.x, r.o, a)
  {
    if Orientation(a, b, c) > 0.0 then NoCircle
    else if Denominator(a, b, c) == 0.0 then NoCircle
    else
      var o := Centre(a, b, c);
      Radius(o, a, sqrt);
      CircleAt(o.x + sqrt(Dist2(o, a)), o)
  }

  /** G of `circle`: twice the orientation of a, b, c. */
  function Denominator(a: Point, b: Point, c: Point): (g: real)
    ensures g == 2.0 * Orientation(a, b, c)
  {
    var A, B := b.x - a.x, b.y - a.y;
    assert A * (c.y - b.y) - B * (c.x - b.x)
      == A * (c.y - a.y) - (c.x - a.x) * B;
    2.0 * (A * (c.y - b.y) - B * (c.x - b.x))
  }

  /** E and F of `circle`: |b|^2 - |a|^2, written as (b - a).(a + b). */
  function Chord(a: Point, b: Point): real
  {
    (b.x - a.x) * (a.x + b.x) + (b.y - a.y) * (a.y + b.y)
  }

  /** (ox, oy) of `circle`: equidistant from the three sites. */
  function Centre(a: Point, b: Point, c: Point): (o: Point)
    requires Denominator(a, b, c) != 0.0
    ensures Circumscribes(o, a, b, c)
  {
    var o := Solve(a, b, c);
    EquidistantBoth(a, b, c, o);
    o
  }

  /** o is on the perpendicular bisector of ab: 2 (b - a).o == |b|^2 - |a|^2. */
  ghost predicate OnBisector(a: Point, b: Point, o: Point)
  {
    2.0 * ((b.x - a.x) * o.x + (b.y - a.y) * o.y) == Chord(a, b)
  }

  /** The centre as `circle` computes it, from the two bisector equations. */
  function Solve(a: Point, b: Point, c: Point): (o: Point)
    requires Denominator(a, b, c) != 0.0
    ensures OnBisector(a, b, o) && OnBisector(a, c, o)
  {
    var A, B, C, D := b.x - a.x, b.y - a.y, c.x - a.x, c.y - a.y;
    var E, F := Chord(a, b), Chord(a, c);
    var G := Denominator(a, b, c);
    assert G == 2.0 * (A * D - C * B) && G != 0.0;
    var o := Cramer(A, B, C, D, E, F, G);
    Bisectors(a, b, c, o, A, B, C, D, E, F);
    o
  }

  lemma Bisectors(a: Point, b: Point, c: Point, o: Point, A: real, B: real, C: real, D: real, E: real, F: real)
    requires A == b.x - a.x && B == b.y - a.y && C == c.x - a.x && D == c.y - a.y
    requires E == Chord(a, b) && F == Chord(a, c)
    requires Solves(A, B, C, D, E, F, o)
    ensures OnBisector(a, b, o) && OnBisector(a, c, o)
  {
  }

  ghost predicate Solves(A: real, B: real, C: real, D: real, E: real, F: real, o: Point)
  {
    2.0 * (A * o.x + B * o.y) == E && 2.0 * (C * o.x + D * o.y) == F
  }

  /** Cramer's rule for 2(A ox + B oy) = E and 2(C ox + D oy) = F, with G = 2(AD - CB). */
  function Cramer(A: real, B: real, C: real, D: real, E: real, F: real, G: real): (o: Point)
    requires G == 2.0 * (A * D - C * B) && G != 0.0
    ensures Solves(A, B, C, D, E, F, o)
  {
    var o := Point((D * E - B * F) / G, (A * F - C * E) / G);
    CentreEquations(A, B, C, D, E, F, G, o.x, o.y);
    o
  }

  lemma Radius(o: Point, a: Point, sqrt: real -> real)
    requires IsSqrt(sqrt)
    ensures Rightmost(o.x + sqrt(Dist2(o, a)), o, a)
  {
    Dist2NonNegative(o, a);
    var s := sqrt(Dist2(o, a));
    assert o.x + s - o.x == s;
  }

  lemma Dist2NonNegative(o: Point, q: Point)
    ensures Dist2(o, q) >= 0.0
  {
    SqNonNegative(q.x - o.x);
    SqNonNegative(q.y - o.y);
  }

  lemma CentreEquations(A: real, B: real, C: real, D: real, E: real, F: real, G: real, ox: real, oy: real)
    requires G == 2.0 * (A * D - C * B) && G != 0.0
    requires ox == (D * E - B * F) / G && oy == (A * F - C * E) / G
    ensures 2.0 * (A * ox + B * oy) == E && 2.0 * (C * ox + D * oy) == F
  {
    assert G * ox == D * E - B * F;
    assert G * oy == A * F - C * E;
    assert G * (A * ox + B * oy) == A * (G * ox) + B * (G * oy);
    assert G * (A * ox + B * oy) == E * (A * D - C * B);
    assert G * (C * ox + D * oy) == C * (G * ox) + D * (G * oy);
    assert G * (C * ox + D * oy) == F * (A * D - C * B);
  }

  lemma EquidistantBoth(a: Point, b: Point, c: Point, o: Point)
    requires OnBisector(a, b, o) && OnBisector(a, c, o)
    ensures Dist2(o, a) == Dist2(o, b) == Dist2(o, c)
  {
    ChordEquation(a, b, o);
    ChordEquation(a, c, o);
  }

  /** o is as far from a as from b exactly when it lies on the perpendicular bisector of ab. */
  lemma ChordEquation(a: Point, b: Point, o: Point)
    ensures Dist2(o, b) - Dist2(o, a) == Chord(a, b) - 2.0 * ((b.x - a.x) * o.x + (b.y - a.y) * o.y)
  {
  }
}
