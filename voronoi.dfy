/**
 * Fortune's sweep of util/voronoi_fortune_algorithm.py: the beach line is a doubly
 * linked list of `Arc` objects, site and circle events wait in two `PriorityQueue`s,
 * and the Voronoi edges are `Segment` objects appended to `output` and finished once.
 * Python exceptions (KeyError, ZeroDivisionError, ValueError, AttributeError on
 * None) end an operation early; here they are a false or `Raised` result.
 */
module Voronoi {
  import opened Wrappers
  import opened VoronoiGeometry
  import opened PriorityQueues

  /** The colours the segments are drawn in. */
  datatype Colour = Black | Red | Blue | Green

  /** A Voronoi edge: a start point, and an end point set once by `finish`. */
  class Segment {
    const start: Point
    const color: Colour
    var end: Option<Point>
    var done: bool

    constructor(p: Point, color: Colour)
      ensures start == p && this.color == color && end == None && !done
    {
      start := p;
      this.color := color;
      end := None;
      done := false;
    }

    /** finish: the first call fixes the end point; later calls change nothing. */
    method Finish(p: Point)
      modifies this
      ensures done
      ensures old(done) ==> end == old(end)
      ensures !old(done) ==> end == Some(p)
    {
      if done {
        return;
      }
      end := Some(p);
      done := true;
    }
  }

  /** A circle event: the sweep position x, the circle's centre p, and the arc a that vanishes. */
  class Event {
    const x: real
    const p: Point
    const a: Arc
    var valid: bool

    constructor(x: real, p: Point, a: Arc)
      ensures this.x == x && this.p == p && this.a == a && valid
    {
      this.x := x;
      this.p := p;
      this.a := a;
      valid := true;
    }
  }

  /**
   * A parabola arc of the beach line. `rank` orders the arcs along the list: it is
   * proof bookkeeping only, and gives the list walks a termination measure.
   */
  class Arc {
    const p: Point
    var pprev: Arc?
    var pnext: Arc?
    var e: Event?
    var s0: Segment?
    var s1: Segment?
    ghost const rank: real

    constructor(p: Point, a: Arc?, b: Arc?, ghost rank: real)
      ensures this.p == p && pprev == a && pnext == b && this.rank == rank
      ensures e == null && s0 == null && s1 == null
    {
      this.p := p;
      pprev := a;
      pnext := b;
      this.rank := rank;
      e := null;
      s0 := null;
      s1 := null;
    }
  }

  /**
   * A site in the site queue. Python queues `Point` objects and de-duplicates them by
   * identity; `id`, the position in the input, plays that part.
   */
  datatype Site = Site(id: nat, p: Point)

  function SiteKey(s: Site): (real, real)
  {
    (s.p.x, s.p.y)
  }

  /** An event's key is (x, y) with the class attribute y = 0.0, which no event overrides. */
  function EventKey(e: Event): (real, real)
  {
    (e.x, 0.0)
  }

  /** The site queue after the first k input points were pushed, in input order. */
  ghost predicate Queued(pq: seq<Entry<Site>>, pts: seq<(real, real)>, k: nat)
  {
    k <= |pts| && |pq| == k &&
    forall j :: 0 <= j < k ==> pq[j] == Entry((pts[j].0, pts[j].1), j, Some(Site(j, Point(pts[j].0, pts[j].1))))
  }

  lemma QueuedPush(pq: seq<Entry<Site>>, pts: seq<(real, real)>, k: nat)
    requires Queued(pq, pts, k) && k < |pts|
    ensures Queued(pq + [Entry((pts[k].0, pts[k].1), k, Some(Site(k, Point(pts[k].0, pts[k].1))))], pts, k + 1)
  {
  }

  /** The box [x0, x1] x [y0, y1] holds the first k input points. */
  ghost predicate Covers(x0: real, x1: real, y0: real, y1: real, pts: seq<(real, real)>, k: nat)
  {
    k <= |pts| && forall j :: 0 <= j < k ==> x0 <= pts[j].0 <= x1 && y0 <= pts[j].1 <= y1
  }

  lemma CoversExtend(x0: real, x1: real, y0: real, y1: real, x0': real, x1': real, y0': real, y1': real,
                     pts: seq<(real, real)>, k: nat)
    requires Covers(x0, x1, y0, y1, pts, k) && k < |pts|
    requires x0' == (if pts[k].0 < x0 then pts[k].0 else x0) && x1' == (if pts[k].0 > x1 then pts[k].0 else x1)
    requires y0' == (if pts[k].1 < y0 then pts[k].1 else y0) && y1' == (if pts[k].1 > y1 then pts[k].1 else y1)
    ensures Covers(x0', x1', y0', y1', pts, k + 1)
  {
  }

  /** The box (x0, x1, y0, y1) stretched to take in the point p, one bound at a time. */
  function Grow(b: (real, real, real, real), p: (real, real)): (real, real, real, real)
  {
    (if p.0 < b.0 then p.0 else b.0, if p.0 > b.1 then p.0 else b.1,
     if p.1 < b.2 then p.1 else b.2, if p.1 > b.3 then p.1 else b.3)
  }

  /** The box (x0, x1, y0, y1) that __init__ grows over the first k points, from x in [-50, -50] and y in [550, 550]. */
  function Box(pts: seq<(real, real)>, k: nat): (real, real, real, real)
    requires k <= |pts|
  {
    if k == 0 then (-50.0, -50.0, 550.0, 550.0)
    else
      Grow(Box(pts, k - 1), pts[k - 1])
  }

  /** The grown box covers the first k points and its starting box. */
  lemma {:induction false} BoxCovers(pts: seq<(real, real)>, k: nat)
    requires k <= |pts|
    ensures var b := Box(pts, k);
      b.0 <= -50.0 <= b.1 && b.2 <= 550.0 <= b.3 && Covers(b.0, b.1, b.2, b.3, pts, k)
  {
    if k > 0 {
      BoxCovers(pts, k - 1);
      var a, b := Box(pts, k - 1), Box(pts, k);
      CoversExtend(a.0, a.1, a.2, a.3, b.0, b.1, b.2, b.3, pts, k - 1);
    }
  }

  /** Each bound of the grown box is its start or a coordinate of one of the first k points: it is the smallest cover. */
  lemma {:induction false} BoxTight(pts: seq<(real, real)>, k: nat)
    requires k <= |pts|
    ensures var b := Box(pts, k);
      (b.0 == -50.0 || exists j :: 0 <= j < k && b.0 == pts[j].0) &&
      (b.1 == -50.0 || exists j :: 0 <= j < k && b.1 == pts[j].0) &&
      (b.2 == 550.0 || exists j :: 0 <= j < k && b.2 == pts[j].1) &&
      (b.3 == 550.0 || exists j :: 0 <= j < k && b.3 == pts[j].1)
  {
    if k > 0 {
      BoxTight(pts, k - 1);
    }
  }

  /** A margin that is positive on both sides turns the closed cover into a strict one. */
  lemma CoversWiden(x0: real, x1: real, y0: real, y1: real, x0': real, x1': real, y0': real, y1': real,
                    pts: seq<(real, real)>)
    requires x0 <= x1 && y0 <= y1 && Covers(x0, x1, y0, y1, pts, |pts|)
    requires x0' == x0 - (x1 - x0 + 1.0) / 5.0 && x1' == x1 + (x1 - x0 + 1.0) / 5.0
    requires y0' == y0 - (y1 - y0 + 1.0) / 5.0 && y1' == y1 + (y1 - y0 + 1.0) / 5.0
    ensures forall j :: 0 <= j < |pts| ==> x0' < pts[j].0 < x1' && y0' < pts[j].1 < y1'
  {
  }

  /** Every live event in the queue belongs to an arc of the beach line's history. */
  ghost predicate EventArcs(pq: seq<Entry<Event>>, arcs: set<Arc>)
  {
    forall k :: 0 <= k < |pq| && pq[k].item.Some? ==> pq[k].item.value.a in arcs
  }

  lemma EventArcsPush(pq: seq<Entry<Event>>, arcs: set<Arc>, e: Entry<Event>)
    requires EventArcs(pq, arcs) && (e.item.Some? ==> e.item.value.a in arcs)
    ensures EventArcs(pq + [e], arcs)
  {
    var r := pq + [e];
    forall k | 0 <= k < |r| && r[k].item.Some? ensures r[k].item.value.a in arcs {
      if k < |pq| {
        assert r[k] == pq[k];
      }
    }
  }

  lemma EventArcsAbove(pq: seq<Entry<Event>>, arcs: set<Arc>, w: Entry<Event>)
    requires EventArcs(pq, arcs)
    ensures EventArcs(Above(pq, w), arcs)
  {
    var r := Above(pq, w);
    forall k | 0 <= k < |r| && r[k].item.Some? ensures r[k].item.value.a in arcs {
      var j :| 0 <= j < |pq| && pq[j] == r[k];
    }
  }

  lemma EventArcsLive(pq: seq<Entry<Event>>, arcs: set<Arc>, w: Entry<Event>)
    requires EventArcs(pq, arcs) && w in pq && w.item.Some?
    ensures w.item.value.a in arcs
  {
  }

  /** The queue entries of the events evs that exist, in order, with counts from c on. */
  function EntriesOf(evs: seq<Event?>, c: nat): seq<Entry<Event>>
  {
    if evs == [] then []
    else if evs[0] == null then EntriesOf(evs[1..], c)
    else [Entry(EventKey(evs[0]), c, Some(evs[0]))] + EntriesOf(evs[1..], c + 1)
  }

  /** The entries of evs + fs are those of evs, then those of fs counted on from there. */
  lemma {:induction false} EntriesOfSplit(evs: seq<Event?>, fs: seq<Event?>, c: nat)
    ensures EntriesOf(evs + fs, c) == EntriesOf(evs, c) + EntriesOf(fs, c + |EntriesOf(evs, c)|)
  {
    if evs != [] {
      assert (evs + fs)[1..] == evs[1..] + fs;
      EntriesOfSplit(evs[1..], fs, if evs[0] == null then c else c + 1);
    } else {
      assert evs + fs == fs;
    }
  }

  /** Two rounds of checks queue the entries of both, in order. */
  lemma QueueTwice(base: seq<Entry<Event>>, pq1: seq<Entry<Event>>, pq2: seq<Entry<Event>>,
                   e1: seq<Event?>, e2: seq<Event?>, c0: nat, c1: nat, c2: nat)
    requires pq1 == base + EntriesOf(e1, c0) && c1 == c0 + |EntriesOf(e1, c0)|
    requires pq2 == pq1 + EntriesOf(e2, c1) && c2 == c1 + |EntriesOf(e2, c1)|
    ensures pq2 == base + EntriesOf(e1 + e2, c0) && c2 == c0 + |EntriesOf(e1 + e2, c0)|
  {
    EntriesOfSplit(e1, e2, c0);
  }

  function Focus(a: Arc?): Option<Point>
  {
    if a == null then None else Some(a.p)
  }

  /** What `process` ends with. */
  datatype Outcome = Finished | Aborted | OutOfFuel

  /** Which branch `front_insert` took. */
  datatype Inserted = FirstArc | Split(z: Point) | Appended | InsertRaised

  /** A drawn segment as get_output lists it: start, end and colour. */
  type Line = (real, real, real, real, Colour)

  function LineOf(s: Segment): Line
    requires s.end.Some?
    reads s
  {
    (s.start.x, s.start.y, s.end.value.x, s.end.value.y, s.color)
  }

  /** The lines of the segments that have an end, in order. */
  function Drawn(segs: seq<Segment>): (r: seq<Line>)
    reads segs
    ensures |r| <= |segs|
  {
    if segs == [] then []
    else
      var s := segs[|segs| - 1];
      Drawn(segs[..|segs| - 1]) + if s.end.Some? then [LineOf(s)] else []
  }

  /** Every segment with an end is drawn. */
  lemma {:induction false} DrawnComplete(segs: seq<Segment>)
    ensures forall k :: 0 <= k < |segs| && segs[k].end.Some? ==> LineOf(segs[k]) in Drawn(segs)
  {
    if segs != [] {
      var init := segs[..|segs| - 1];
      DrawnComplete(init);
      forall k | 0 <= k < |segs| - 1 && segs[k].end.Some?
        ensures LineOf(segs[k]) in Drawn(segs)
      {
        assert segs[k] == init[k];
      }
    }
  }

  /** Every drawn line is that of a segment with an end. */
  lemma {:induction false} DrawnSound(segs: seq<Segment>)
    ensures forall l :: l in Drawn(segs) ==> exists k :: 0 <= k < |segs| && segs[k].end.Some? && l == LineOf(segs[k])
  {
    if segs != [] {
      var init := segs[..|segs| - 1];
      DrawnSound(init);
      forall l | l in Drawn(segs)
        ensures exists k :: 0 <= k < |segs| && segs[k].end.Some? && l == LineOf(segs[k])
      {
        if l in Drawn(init) {
          var k :| 0 <= k < |init| && init[k].end.Some? && l == LineOf(init[k]);
          assert segs[k] == init[k];
        } else {
          assert segs[|segs| - 1].end.Some? && l == LineOf(segs[|segs| - 1]);
        }
      }
    }
  }

  class Voronoi {
    var output: seq<Segment>
    var arc: Arc?
    const points: PriorityQueue<Site>
    const event: PriorityQueue<Event>
    /** The bounding box, fixed by `__init__`. */
    const X0: real
    const X1: real
    const Y0: real
    const Y1: real
    const sqrt: real -> real
    /** Every arc and every circle event created so far. */
    ghost var arcs: set<Arc>
    ghost var events: set<Event>

    /**
     * __init__: every input point becomes a site, pushed in input order, and the
     * bounding box, started at x in [-50, -50] and y in [550, 550], grows to cover them
     * and then gets a margin of a fifth of its size plus one on each side.
     */
    constructor(pts: seq<(real, real)>, sqrt: real -> real)
      requires IsSqrt(sqrt)
      ensures Valid() && fresh(points) && fresh(event)
      ensures output == [] && arc == null && arcs == {} && events == {} && this.sqrt == sqrt
      ensures Queued(points.pq, pts, |pts|)
      ensures event.pq == []
      ensures var b := Box(pts, |pts|);
        X0 == b.0 - (b.1 - b.0 + 1.0) / 5.0 && X1 == b.1 + (b.1 - b.0 + 1.0) / 5.0 &&
        Y0 == b.2 - (b.3 - b.2 + 1.0) / 5.0 && Y1 == b.3 + (b.3 - b.2 + 1.0) / 5.0
      ensures forall k :: 0 <= k < |pts| ==> X0 < pts[k].0 < X1 && Y0 < pts[k].1 < Y1
    {
      var q := new PriorityQueue(SiteKey);
      var box := (-50.0, -50.0, 550.0, 550.0);
      for k := 0 to |pts|
        invariant q.Valid() && q.key == SiteKey && q.counter == k
        invariant Queued(q.pq, pts, k)
        invariant forall s :: s in q.entryFinder ==> s.id < k
        invariant box == Box(pts, k)
      {
        var site := Site(k, Point(pts[k].0, pts[k].1));
        assert site !in q.entryFinder;
        ghost var before := q.pq;
        q.Push(site);
        QueuedPush(before, pts, k);
        box := Grow(box, (site.p.x, site.p.y));
      }
      var (x0, x1, y0, y1) := box;
      var dx := (x1 - x0 + 1.0) / 5.0;
      var dy := (y1 - y0 + 1.0) / 5.0;
      output := [];
      arc := null;
      points := q;
      event := new PriorityQueue(EventKey);
      X0, X1, Y0, Y1 := x0 - dx, x1 + dx, y0 - dy, y1 + dy;
      this.sqrt := sqrt;
      arcs := {};
      events := {};
      BoxCovers(pts, |pts|);
      CoversWiden(x0, x1, y0, y1, x0 - dx, x1 + dx, y0 - dy, y1 + dy, pts);
    }

    /** The link structure: neighbours are arcs of the model, ranked along the list. */
    ghost predicate Linked()
      reads this, arcs
    {
      (arc != null ==> arc in arcs) &&
      forall a {:trigger ArcLinked(a)} :: a in arcs ==> ArcLinked(a)
    }

    ghost predicate ArcLinked(a: Arc)
      reads this, a
    {
      (a.pnext != null ==> a.pnext in arcs && a.rank < a.pnext.rank) &&
      (a.pprev != null ==> a.pprev in arcs && a.pprev.rank < a.rank) &&
      (a.s0 != null ==> a.s0 in output) &&
      (a.s1 != null ==> a.s1 in output) &&
      (a.e != null ==> a.e in events && a.e.a == a)
    }

    ghost predicate Valid()
      reads this, arcs, points, event
    {
      IsSqrt(sqrt) && Linked() &&
      (points as object) != (event as object) &&
      points.Valid() && event.Valid() && points.key == SiteKey && event.key == EventKey &&
      EventArcs(event.pq, arcs)
    }

    /** Objects are only ever added: new arcs, events and segments are fresh, output only grows. */
    twostate predicate Grown()
      reads this
    {
      old(arcs) <= arcs && (forall a :: a in arcs ==> a in old(arcs) || fresh(a)) &&
      old(events) <= events && (forall ev :: ev in events ==> ev in old(events) || fresh(ev)) &&
      old(output) <= output && (forall k :: |old(output)| <= k < |output| ==> fresh(output[k]))
    }

    /** The arcs ranked at or after a. */
    ghost function From(a: Arc): set<Arc>
      reads this, arcs
    {
      set b | b in arcs && b.rank >= a.rank
    }

    lemma FromShrinks(a: Arc)
      requires Linked() && a in arcs && a.pnext != null
      ensures From(a.pnext) < From(a) && |From(a.pnext)| < |From(a)|
    {
      assert ArcLinked(a);
      assert a in From(a) && a !in From(a.pnext);
      var big, small := From(a), From(a.pnext);
      assert big == small + (big - small);
      assert small * (big - small) == {};
    }

    /** The beach line from a onwards, following pnext. */
    ghost function Chain(a: Arc): (c: seq<Arc>)
      requires Linked() && a in arcs
      reads this, arcs
      ensures |c| >= 1 && c[0] == a
      ensures forall k :: 0 <= k < |c| ==> c[k] in arcs
      ensures forall b :: b in c ==> b in arcs
      ensures forall k :: 0 <= k < |c| - 1 ==> c[k].pnext == c[k + 1]
      ensures c[|c| - 1].pnext == null
      decreases |From(a)|
    {
      if a.pnext == null then [a]
      else
        assert ArcLinked(a);
        FromShrinks(a);
        [a] + Chain(a.pnext)
    }

    /** intersect(p, a) for an arc of the model. */
    function ProbeArc(p: Point, a: Arc): Probe
      requires IsSqrt(sqrt)
      reads a
    {
      Intersect(p, a.p, Focus(a.pprev), Focus(a.pnext), sqrt)
    }

    /**
     * Where the walk of front_insert along c stops: the first arc that the new parabola
     * hits or whose breakpoints raise, or |c| when every arc misses.
     */
    ghost function Locate(p: Point, c: seq<Arc>): (r: (Probe, nat))
      requires IsSqrt(sqrt)
      reads c
      ensures r.1 <= |c|
      ensures forall j :: 0 <= j < r.1 ==> ProbeArc(p, c[j]).Miss?
      ensures r.1 < |c| ==> r.0 == ProbeArc(p, c[r.1]) && !r.0.Miss?
      ensures r.1 == |c| ==> r.0.Miss?
    {
      if c == [] then (Miss, 0)
      else if !ProbeArc(p, c[0]).Miss? then (ProbeArc(p, c[0]), 0)
      else
        var r := Locate(p, c[1..]);
        (r.0, r.1 + 1)
    }

    /** The stopping point is determined by the probes: the first k that does not miss. */
    lemma {:induction false} LocateAt(p: Point, c: seq<Arc>, k: nat)
      requires IsSqrt(sqrt) && k <= |c|
      requires forall j :: 0 <= j < k ==> ProbeArc(p, c[j]).Miss?
      requires k < |c| ==> !ProbeArc(p, c[k]).Miss?
      ensures Locate(p, c).1 == k
    {
      if k > 0 {
        assert ProbeArc(p, c[0]).Miss?;
        forall j | 0 <= j < k - 1 ensures ProbeArc(p, c[1..][j]).Miss? {
          assert c[1..][j] == c[j + 1];
        }
        if k - 1 < |c[1..]| {
          assert c[1..][k - 1] == c[k];
        }
        LocateAt(p, c[1..], k - 1);
      }
    }

    /** The arc's neighbours and segments: what the beach-line updates change. */
    function Links(a: Arc): (Arc?, Arc?, Segment?, Segment?)
      reads a
    {
      (a.pprev, a.pnext, a.s0, a.s1)
    }

    /** The circle through the foci of i's neighbours and i, when i has both neighbours. */
    function CircleOf(i: Arc): Circumcircle
      requires IsSqrt(sqrt)
      reads i
    {
      if i.pprev == null || i.pnext == null then NoCircle else Circle(i.pprev.p, i.p, i.pnext.p, sqrt)
    }

    /** Whether check_circle_event queues an event for the circle c at sweep position x0. */
    static predicate Fires(c: Circumcircle, x0: real)
    {
      c.CircleAt? && c.x > x0
    }

    /** The event `pop` hands out next: the live entry of least key, if there is one. */
    ghost function NextEvent(): Option<Event>
      reads this, event
    {
      var m := MinLive(event.pq);
      if m.Some? then m.value.item else None
    }

    /** The site `pop` hands out next. */
    ghost function NextSite(): Option<Site>
      reads this, points
    {
      var m := MinLive(points.pq);
      if m.Some? then m.value.item else None
    }

    /** The arc b as a list: empty for None. */
    static function Opt(b: Arc?): seq<Arc>
    {
      if b == null then [] else [b]
    }

    /** The neighbours a has, the previous one first: the arcs process_event checks again. */
    function Sides(a: Arc): seq<Arc>
      reads a
    {
      Opt(a.pprev) + Opt(a.pnext)
    }

    /** The event b holds, as a set: empty when b is None or holds none. */
    static function Held(b: Arc?): set<Event>
      reads b
    {
      if b == null || b.e == null then {} else {b.e}
    }

    /** The events the arcs cs hold, in order. */
    function EventsOf(cs: seq<Arc>): seq<Event?>
      reads cs
    {
      if cs == [] then [] else [cs[0].e] + EventsOf(cs[1..])
    }

    lemma {:induction false} EventsOfAppend(cs: seq<Arc>, ds: seq<Arc>)
      ensures EventsOf(cs + ds) == EventsOf(cs) + EventsOf(ds)
    {
      if cs == [] {
        assert cs + ds == ds;
      } else {
        assert (cs + ds)[1..] == cs[1..] + ds;
        EventsOfAppend(cs[1..], ds);
      }
    }

    /** The event queue after the arcs cs were checked in order: their new events follow base. */
    twostate predicate QueuedAfter(new base: seq<Entry<Event>>, new cs: seq<Arc>)
      reads this, event, cs
    {
      event.pq == base + EntriesOf(EventsOf(cs), old(event.counter)) &&
      event.counter == old(event.counter) + |EntriesOf(EventsOf(cs), old(event.counter))|
    }

    /**
     * The first step of check_circle_event(i, x0) has run, ev being the event i held before:
     * that event is now invalid unless it is at x0.
     */
    twostate predicate Invalidated(ev: Event?, x0: real)
      reads ev
    {
      ev != null ==> ev.valid == (old(ev.valid) && ev.x == x0)
    }

    /**
     * check_circle_event(i, x0) has run, c being the circle of i and its neighbours and
     * ev the event i now holds: a fresh valid event of i for c when c fires, none otherwise.
     */
    twostate predicate Rechecked(new i: Arc, new ev: Event?, c: Circumcircle, x0: real)
      reads ev
    {
      if Fires(c, x0) then ev != null && fresh(ev) && ev.x == c.x && ev.p == c.o && ev.a == i && ev.valid
      else ev == null
    }

    /** The arc b as a set: empty for None. */
    static function ArcSet(b: Arc?): set<Arc>
    {
      if b == null then {} else {b}
    }

    /** The event ev as a set: empty for None. */
    static function EventSet(ev: Event?): set<Event>
    {
      if ev == null then {} else {ev}
    }

    /** The first step of check_circle_event: i's old event is invalidated unless it is at x0, and dropped. */
    method DropEvent(i: Arc, x0: real)
      requires Valid() && i in arcs
      modifies i`e, i.e
      ensures Valid() && i.e == null && Links(i) == old(Links(i))
      ensures old(i.e) != null ==> old(i.e).valid == (old(i.e.valid) && old(i.e.x) == x0)
    {
      if i.e != null && i.e.x != x0 {
        i.e.valid := false;
      }
      i.e := null;
      forall b | b in arcs
        ensures ArcLinked(b)
      {
        assert old(ArcLinked(b));
      }
    }

    /** A new circle event for i at x, centred on o, becomes i's event and is queued. */
    method QueueEvent(i: Arc, x: real, o: Point)
      requires Valid() && i in arcs && i.e == null
      modifies this, i`e, event
      ensures Valid() && Links(i) == old(Links(i))
      ensures output == old(output) && arc == old(arc) && arcs == old(arcs)
      ensures i.e != null && fresh(i.e) && events == old(events) + {i.e}
      ensures i.e.x == x && i.e.p == o && i.e.a == i && i.e.valid
      ensures event.pq == old(event.pq) + [Entry((x, 0.0), old(event.counter), Some(i.e))]
      ensures event.entryFinder == old(event.entryFinder)[i.e := old(event.counter)]
      ensures event.counter == old(event.counter) + 1
    {
      var ev := new Event(x, o, i);
      i.e := ev;
      events := events + {ev};
      EventArcsPush(event.pq, arcs, Entry((ev.x, 0.0), event.counter, Some(ev)));
      event.Push(ev);
      forall b | b in arcs
        ensures ArcLinked(b)
      {
        assert old(ArcLinked(b));
      }
    }

    /**
     * check_circle_event(i, x0): an old event of i is invalidated unless it is at x0;
     * a new event is queued exactly when i has two neighbours whose circle with i
     * reaches right of x0, and it then becomes i's event.
     */
    method CheckCircleEvent(i: Arc, x0: real)
      requires Valid() && i in arcs
      modifies this, i`e, i.e, event
      ensures Valid() && output == old(output) && arc == old(arc) && arcs == old(arcs)
      ensures Invalidated(old(i.e), x0) && Rechecked(i, i.e, old(CircleOf(i)), x0) && QueuedAfter(old(event.pq), [i])
      ensures events == old(events) + if i.e == null then {} else {i.e}
    {
      DropEvent(i, x0);
      if i.pprev != null && i.pnext != null {
        var c := Circle(i.pprev.p, i.p, i.pnext.p, sqrt);
        if c.CircleAt? && c.x > x0 {
          QueueEvent(i, c.x, c.o);
        }
      }
    }

    /** A new segment from p, appended to `output` as every `Segment(...)` of the source is. */
    method AddSegment(p: Point, color: Colour) returns (s: Segment)
      requires Valid()
      modifies this
      ensures Valid() && fresh(s) && s.start == p && s.color == color && !s.done && s.end == None
      ensures output == old(output) + [s] && arc == old(arc) && arcs == old(arcs) && events == old(events)
    {
      s := new Segment(p, color);
      output := output + [s];
      forall b | b in arcs
        ensures ArcLinked(b)
      {
        assert old(ArcLinked(b));
      }
    }

    /** The unlinking step of process_event: a's neighbours skip a and share the new segment s. */
    method Unlink(a: Arc, s: Segment)
      requires Linked() && a in arcs && s in output
      modifies a.pprev, a.pnext
      ensures Linked()
      ensures Links(a) == old(Links(a))
      ensures a.pprev != null ==> a.pprev.e == old(a.pprev.e)
      ensures a.pnext != null ==> a.pnext.e == old(a.pnext.e)
      ensures a.pprev != null ==> Links(a.pprev) == (old(a.pprev.pprev), a.pnext, old(a.pprev.s0), s)
      ensures a.pnext != null ==> Links(a.pnext) == (a.pprev, old(a.pnext.pnext), s, old(a.pnext.s1))
    {
      assert ArcLinked(a);
      assert a.pprev != null ==> ArcLinked(a.pprev);
      assert a.pnext != null ==> ArcLinked(a.pnext);
      if a.pprev != null {
        a.pprev.pnext := a.pnext;
        a.pprev.s1 := s;
      }
      if a.pnext != null {
        a.pnext.pprev := a.pprev;
        a.pnext.s0 := s;
      }
    }

    /** The segments on either side of arc a end at p (the first `finish` of each wins). */
    static method FinishArc(a: Arc, p: Point)
      modifies a.s0, a.s1
      ensures a.s0 != null ==> a.s0.done && (!old(a.s0.done) ==> a.s0.end == Some(p))
      ensures a.s1 != null ==> a.s1.done && (!old(a.s1.done) ==> a.s1.end == Some(p))
      ensures a.s0 != null && old(a.s0.done) ==> a.s0.end == old(a.s0.end)
      ensures a.s1 != null && old(a.s1.done) ==> a.s1.end == old(a.s1.end)
    {
      if a.s0 != null {
        a.s0.Finish(p);
      }
      if a.s1 != null {
        a.s1.Finish(p);
      }
    }

    /**
     * check_circle_event(b1, x) and then check_circle_event(b2, x), each when it is an
     * arc; the arcs ka and the events ke, none of them checked here, stay as they were.
     */
    method CheckPair(b1: Arc?, b2: Arc?, x: real, ghost ka: set<Arc>, ghost ke: set<Event>, ghost ks: set<Segment>)
      requires Valid() && (b1 != null ==> b1 in arcs) && (b2 != null ==> b2 in arcs && b2 != b1)
      requires b1 !in ka && b2 !in ka && (b1 != null ==> b1.e !in ke) && (b2 != null ==> b2.e !in ke)
      modifies this, event, ArcSet(b1)`e, ArcSet(b2)`e, events
      ensures Valid() && output == old(output) && arc == old(arc) && arcs == old(arcs)
      ensures old(events) <= events && forall ev :: ev in events ==> ev in old(events) || fresh(ev)
      ensures b1 != null ==> Invalidated(old(b1.e), x) && Rechecked(b1, b1.e, old(CircleOf(b1)), x)
      ensures b2 != null ==> Invalidated(old(b2.e), x) && Rechecked(b2, b2.e, old(CircleOf(b2)), x)
      ensures QueuedAfter(old(event.pq), Opt(b1) + Opt(b2)) && unchanged(ka) && unchanged(ke) && unchanged(ks)
      ensures (b1 != null ==> Links(b1) == old(Links(b1))) && (b2 != null ==> Links(b2) == old(Links(b2)))
    {
      ghost var e1: Event? := if b1 == null then null else b1.e;
      assert b1 != null ==> ArcLinked(b1);
      assert b2 != null ==> ArcLinked(b2);
      CheckSide(b1, x, ka + ArcSet(b2), ke + (if b2 == null then {} else EventSet(b2.e)), ks);
      ghost var pq1, c1 := event.pq, event.counter;
      CheckSide(b2, x, ka + ArcSet(b1), ke + (if b1 == null then {} else EventSet(b1.e)) + EventSet(e1), ks);
      EventsOfAppend(Opt(b1), Opt(b2));
      QueueTwice(old(event.pq), pq1, event.pq, EventsOf(Opt(b1)), EventsOf(Opt(b2)), old(event.counter), c1, event.counter);
    }

    /** check_circle_event(b, x) when b is an arc, and nothing when it is None; ka and ke stay as they were. */
    method CheckSide(b: Arc?, x: real, ghost ka: set<Arc>, ghost ke: set<Event>, ghost ks: set<Segment>)
      requires Valid() && (b != null ==> b in arcs && b !in ka && b.e !in ke)
      modifies this, event, ArcSet(b)`e, events
      ensures Valid() && output == old(output) && arc == old(arc) && arcs == old(arcs)
      ensures old(events) <= events && forall ev :: ev in events ==> ev in old(events) || fresh(ev)
      ensures b != null ==> Invalidated(old(b.e), x) && Rechecked(b, b.e, old(CircleOf(b)), x)
      ensures QueuedAfter(old(event.pq), Opt(b)) && unchanged(ka) && unchanged(ke) && unchanged(ks)
      ensures b != null ==> Links(b) == old(Links(b))
    {
      if b != null {
        assert ArcLinked(b);
        CheckCircleEvent(b, x);
      }
    }

    /** finish(p) has run on seg, if there is one: its end is p unless it was already finished. */
    twostate predicate FinishedAt(seg: Segment?, p: Point)
      reads seg
    {
      seg != null ==> seg.done && seg.end == if old(seg.done) then old(seg.end) else Some(p)
    }

    /**
     * The first part of the valid-event branch of process_event has run for the arc a and
     * the event's centre p, s being the new segment: a's neighbours skip a and share s,
     * the segments of a are finished at p.
     */
    twostate predicate Detached(a: Arc, p: Point, new s: Segment)
      reads *
    {
      var l, r := old(a.pprev), old(a.pnext);
      a.pprev == l && a.pnext == r && a.s0 == old(a.s0) && a.s1 == old(a.s1) &&
      s.start == p && s.color == Red && !s.done &&
      FinishedAt(old(a.s0), p) && FinishedAt(old(a.s1), p) &&
      (l != null ==> l.pprev == old(l.pprev) && l.pnext == r && l.s0 == old(l.s0) && l.s1 == s) &&
      (r != null ==> r.pprev == l && r.pnext == old(r.pnext) && r.s0 == s && r.s1 == old(r.s1))
    }

    /** The segment seg as a set: empty for None. */
    static function SegSet(seg: Segment?): set<Segment>
    {
      if seg == null then {} else {seg}
    }

    /**
     * The first part of the valid-event branch of process_event: a new red segment from p,
     * the unlinking of a, and the finishing of a's segments at p.
     */
    method Detach(a: Arc, p: Point) returns (s: Segment)
      requires Valid() && a in arcs
      modifies this, a.pprev, a.pnext, a.s0, a.s1
      ensures Valid() && arcs == old(arcs) && arc == old(arc) && events == old(events)
      ensures output == old(output) + [s] && fresh(s) && Detached(a, p, s)
      ensures a.pprev != null ==> a.pprev.e == old(a.pprev.e)
      ensures a.pnext != null ==> a.pnext.e == old(a.pnext.e)
    {
      assert ArcLinked(a);
      s := AddSegment(p, Red);
      Unlink(a, s);
      FinishArc(a, p);
      forall b | b in arcs
        ensures ArcLinked(b)
      {
        assert old(ArcLinked(b));
      }
    }

    /**
     * The branch of process_event for a valid event e: a new red segment starts at the
     * circle's centre and joins the two neighbours of e.a, which now skip e.a; the
     * segments of e.a end there; both neighbours are checked for circle events again,
     * and the events found are queued in that order.
     */
    method Vanish(e: Event)
      requires Valid() && e.a in arcs
      modifies this, event, e.a.pprev, e.a.pnext, e.a.s0, e.a.s1, events
      ensures Valid() && arcs == old(arcs) && arc == old(arc)
      ensures old(events) <= events && forall ev :: ev in events ==> ev in old(events) || fresh(ev)
      ensures |output| == |old(output)| + 1
      ensures var s := output[|old(output)|];
        output == old(output) + [s] && fresh(s)
      ensures Detached(e.a, e.p, output[|old(output)|])
      ensures old(e.a.pprev) != null ==> var l := old(e.a.pprev);
        Invalidated(old(l.e), e.x) && Rechecked(l, l.e, CircleOf(l), e.x)
      ensures old(e.a.pnext) != null ==> var r := old(e.a.pnext);
        Invalidated(old(r.e), e.x) && Rechecked(r, r.e, CircleOf(r), e.x)
      ensures QueuedAfter(old(event.pq), Opt(old(e.a.pprev)) + Opt(old(e.a.pnext)))
      ensures unchanged(old(events - Held(e.a.pprev) - Held(e.a.pnext)))
    {
      var a := e.a;
      var l, r := a.pprev, a.pnext;
      ghost var others := events - Held(l) - Held(r);
      assert ArcLinked(a);
      var s := Detach(a, e.p);
      assert unchanged(events);
      assert l != null ==> ArcLinked(l);
      assert r != null ==> ArcLinked(r);
      CheckPair(l, r, e.x, {a}, others, SegSet(a.s0) + SegSet(a.s1) + {s});
    }

    /**
     * process_event: pops the next circle event (none left is the KeyError of `pop`)
     * and, when it is still valid, removes its arc (`Vanish`). An invalid event is
     * dropped and nothing else changes.
     */
    method ProcessEvent() returns (popped: Option<Event>)
      requires Valid()
      modifies this, event, arcs, events, output
      ensures Valid() && Grown() && arcs == old(arcs) && arc == old(arc)
      ensures popped == old(NextEvent())
      ensures popped.None? ==> event.pq == [] && event.counter == old(event.counter)
      ensures popped.None? || !old(popped.value.valid) ==>
        output == old(output) && events == old(events) && event.counter == old(event.counter) &&
        unchanged(arcs) && unchanged(events) && unchanged(output)
      ensures popped.Some? && !old(popped.value.valid) ==>
        event.pq == Above(old(event.pq), old(MinLive(event.pq)).value) &&
        event.entryFinder == old(event.entryFinder) - {popped.value}
      ensures popped.Some? && old(popped.value.valid) ==>
        |output| == |old(output)| + 1 && output[..|old(output)|] == old(output)
    {
      popped := PopEvent();
      assert Grown() && unchanged(arcs) && unchanged(events) && unchanged(output);
      if popped.Some? && popped.value.valid {
        var a := popped.value.a;
        assert old(popped.value.valid);
        assert ArcLinked(a);
        assert a.pprev != null ==> ArcLinked(a.pprev);
        assert a.pnext != null ==> ArcLinked(a.pnext);
        assert a.s0 != null ==> a.s0 in output;
        assert a.s1 != null ==> a.s1 in output;
        Vanish(popped.value);
        forall k | |old(output)| <= k < |output|
          ensures fresh(output[k])
        {
          assert k == |old(output)|;
        }
      }
    }

    /** The `pop` that starts process_event: the next event leaves the queue, nothing else changes. */
    method PopEvent() returns (popped: Option<Event>)
      requires Valid()
      modifies event
      ensures Valid() && popped == old(NextEvent()) && event.counter == old(event.counter)
      ensures popped.Some? ==> popped.value.a in arcs
      ensures popped.None? ==> event.pq == [] && event.entryFinder == old(event.entryFinder)
      ensures popped.Some? ==>
        event.pq == Above(old(event.pq), old(MinLive(event.pq)).value) &&
        event.entryFinder == old(event.entryFinder) - {popped.value}
    {
      ghost var before := event.pq;
      ghost var w := MinLive(before);
      if w.Some? {
        EventArcsAbove(before, arcs, w.value);
        EventArcsLive(before, arcs, w.value);
      }
      popped := event.Pop();
    }

    /** The walk to the end of the beach line that precedes the tail branch of front_insert. */
    method LastArc() returns (last: Arc)
      requires Valid() && arc != null
      ensures last == Chain(arc)[|Chain(arc)| - 1] && last in arcs && last.pnext == null
    {
      ghost var c := Chain(arc);
      ghost var k := 0;
      last := arc;
      while last.pnext != null
        invariant k < |c| && last == c[k]
        invariant k < |c| - 1 ==> last.pnext == c[k + 1]
        decreases |c| - k
      {
        last := last.pnext;
        k := k + 1;
      }
    }

    /**
     * The tail branch of front_insert has put an arc for p after last, joined to it by a new
     * black segment that starts on the left edge of the box halfway between the two foci.
     */
    twostate predicate AppendedAfter(last: Arc, p: Point)
      reads *
    {
      |output| == |old(output)| + 1 &&
      var s, n := output[|old(output)|], last.pnext;
      output == old(output) + [s] && fresh(s) && s.start == Point(X0, (p.y + last.p.y) / 2.0) &&
      s.color == Black && !s.done && s.end == None &&
      n != null && fresh(n) && n.p == p && n.e == null &&
      Links(last) == (old(last.pprev), n, old(last.s0), s) && Links(n) == (last, null, s, null)
    }

    /**
     * The split branch of front_insert has put an arc for p right after i and a copy of i
     * right after that, joined by two new segments from z: blue between i and the new arc,
     * green between the new arc and the copy, which takes over i's old right segment.
     */
    twostate predicate SplitAfter(i: Arc, p: Point, z: Point)
      reads *
    {
      |output| == |old(output)| + 2 &&
      var blue, green, n := output[|old(output)|], output[|old(output)| + 1], i.pnext;
      output == old(output) + [blue, green] && fresh(blue) && fresh(green) &&
      blue.start == z && blue.color == Blue && green.start == z && green.color == Green &&
      n != null && fresh(n) && n.p == p && n.pnext != null && fresh(n.pnext) && n.pnext.p == i.p &&
      Links(i) == (old(i.pprev), n, old(i.s0), blue) && Links(n) == (i, n.pnext, blue, green) &&
      Links(n.pnext) == (n, n.pnext.pnext, green, old(i.s1))
    }

    /**
     * The circle checks that end the split branch at sweep position x: the new arc after
     * i, then i, then its copy are checked again, and what they find is queued in that order.
     */
    twostate predicate SplitChecked(i: Arc, x: real)
      requires IsSqrt(sqrt)
      reads *
    {
      var n := i.pnext;
      n != null && n.pnext != null &&
      Rechecked(n, n.e, CircleOf(n), x) &&
      Invalidated(old(i.e), x) && Rechecked(i, i.e, CircleOf(i), x) &&
      Rechecked(n.pnext, n.pnext.e, CircleOf(n.pnext), x) &&
      QueuedAfter(old(event.pq), [n, i, n.pnext])
    }

    /**
     * What the split branch at i leaves alone: every other arc, except that i's old next
     * arc may point back to the copy, and every event except i's old one.
     */
    twostate predicate SplitKept(i: Arc)
      reads *
    {
      unchanged(old(arcs) - {i} - ArcSet(old(i.pnext))) && unchanged(old(events - Held(i))) &&
      (old(i.pnext) != null ==> var nx := old(i.pnext);
        nx.pnext == old(nx.pnext) && nx.s0 == old(nx.s0) && nx.s1 == old(nx.s1) && nx.e == old(nx.e))
    }

    /** What the tail branch leaves alone: the queue, every event, and every arc but last, which keeps its event. */
    twostate predicate AppendKept(last: Arc)
      reads *
    {
      unchanged(event) && events == old(events) && unchanged(old(events)) &&
      unchanged(old(arcs) - {last}) && last.e == old(last.e)
    }

    /**
     * The tail branch of front_insert: an arc for p after the last arc, joined to it by a
     * black segment starting on the left edge of the box, halfway between the two foci.
     */
    method AppendAfter(last: Arc, p: Point) returns (n: Arc)
      requires Valid() && last in arcs && last.pnext == null
      modifies this, last
      ensures Valid() && arc == old(arc) && events == old(events)
      ensures fresh(n) && arcs == old(arcs) + {n} && n == last.pnext && last.e == old(last.e)
      ensures AppendedAfter(last, p) && AppendKept(last)
    {
      var s := AddSegment(Point(X0, (p.y + last.p.y) / 2.0), Black);
      assert ArcLinked(last);
      n := new Arc(p, last, null, last.rank + 1.0);
      n.s0 := s;
      last.pnext := n;
      last.s1 := s;
      arcs := arcs + {n};
      forall b | b in arcs
        ensures ArcLinked(b)
      {
        if b != n && b != last {
          assert old(ArcLinked(b));
        }
      }
    }

    /** A copy of i goes between i and its next arc. */
    method CopyBetween(i: Arc) returns (dup: Arc)
      requires Valid() && i in arcs && i.pnext != null
      modifies this, i, i.pnext`pprev
      ensures Valid() && output == old(output) && arc == old(arc) && events == old(events)
      ensures fresh(dup) && arcs == old(arcs) + {dup} && dup.p == i.p && dup.e == null
      ensures Links(dup) == (i, old(i.pnext), null, old(i.s1))
      ensures Links(i) == (old(i.pprev), dup, old(i.s0), old(i.s1)) && i.e == old(i.e)
      ensures var nxt := old(i.pnext); Links(nxt) == (dup, old(nxt.pnext), old(nxt.s0), old(nxt.s1))
    {
      assert ArcLinked(i);
      var nxt := i.pnext;
      assert ArcLinked(nxt);
      dup := new Arc(i.p, i, nxt, (i.rank + nxt.rank) / 2.0);
      nxt.pprev := dup;
      i.pnext := dup;
      dup.s1 := i.s1;
      arcs := arcs + {dup};
      forall b | b in arcs
        ensures ArcLinked(b)
      {
        if b != dup && b != i && b != nxt {
          assert old(ArcLinked(b));
        }
      }
    }

    /**
     * A copy of i becomes the last arc after i. When i had a next arc, that arc drops
     * out of the list; its own pprev still names i.
     */
    method CopyLast(i: Arc) returns (dup: Arc)
      requires Valid() && i in arcs
      modifies this, i
      ensures Valid() && output == old(output) && arc == old(arc) && events == old(events)
      ensures fresh(dup) && arcs == old(arcs) + {dup} && dup.p == i.p && dup.e == null
      ensures Links(dup) == (i, null, null, old(i.s1))
      ensures Links(i) == (old(i.pprev), dup, old(i.s0), old(i.s1)) && i.e == old(i.e)
    {
      assert ArcLinked(i);
      var rank := if i.pnext == null then i.rank + 1.0 else (i.rank + i.pnext.rank) / 2.0;
      dup := new Arc(i.p, i, null, rank);
      i.pnext := dup;
      dup.s1 := i.s1;
      arcs := arcs + {dup};
      forall b | b in arcs
        ensures ArcLinked(b)
      {
        if b != dup && b != i {
          assert old(ArcLinked(b));
        }
      }
    }

    /**
     * The first step of the split branch of front_insert: i gets a copy of itself as its
     * next arc. When the new parabola misses the old next arc, the copy goes in between;
     * when it hits it, the copy replaces it and the old next arc drops out of the list;
     * when probing it raises, nothing changes.
     */
    method Duplicate(i: Arc, p: Point) returns (dup: Arc?)
      requires Valid() && i in arcs
      modifies this, i, ArcSet(i.pnext)`pprev
      ensures Valid() && output == old(output) && arc == old(arc) && events == old(events)
      ensures old(i.pnext) == null ==> dup != null && dup.pnext == null
      ensures old(i.pnext) != null ==>
        var nxt, q := old(i.pnext), old(ProbeArc(p, i.pnext));
        (q.Raised? <==> dup == null) &&
        (q.Miss? ==> dup.pnext == nxt && Links(nxt) == (dup, old(nxt.pnext), old(nxt.s0), old(nxt.s1))) &&
        (q.Hit? ==> dup.pnext == null && Links(nxt) == old(Links(nxt)))
      ensures dup == null ==> old(i.pnext) != null && unchanged(this, i, old(i.pnext))
      ensures dup != null ==>
        fresh(dup) && arcs == old(arcs) + {dup} && dup.p == i.p && dup.e == null &&
        dup.pprev == i && dup.s0 == null && dup.s1 == old(i.s1) &&
        Links(i) == (old(i.pprev), dup, old(i.s0), old(i.s1)) && i.e == old(i.e)
    {
      var nxt := i.pnext;
      if nxt == null {
        dup := CopyLast(i);
        return;
      }
      var q := Intersect(p, nxt.p, Focus(nxt.pprev), Focus(nxt.pnext), sqrt);
      if q.Raised? {
        dup := null;
      } else if q.Miss? {
        dup := CopyBetween(i);
      } else {
        assert ArcLinked(i);
        dup := CopyLast(i);
      }
    }

    /** The two segments of the split branch, both from z: first blue, then green. */
    method SplitSegments(z: Point) returns (blue: Segment, green: Segment)
      requires Valid()
      modifies this
      ensures Valid() && arc == old(arc) && arcs == old(arcs) && events == old(events)
      ensures output == old(output) + [blue, green] && fresh(blue) && fresh(green)
      ensures blue.start == z && blue.color == Blue && !blue.done && blue.end == None
      ensures green.start == z && green.color == Green && !green.done && green.end == None
    {
      blue := AddSegment(z, Blue);
      green := AddSegment(z, Green);
    }

    /**
     * The second step of the split branch: an arc for p goes between i and its copy;
     * blue becomes the border between i and the new arc, green the border between
     * the new arc and the copy.
     */
    method Splice(i: Arc, dup: Arc, p: Point, blue: Segment, green: Segment) returns (n: Arc)
      requires Valid() && i in arcs && dup in arcs && i.pnext == dup && dup.pprev == i
      requires blue in output && green in output
      modifies this, i, dup
      ensures Valid() && arc == old(arc) && events == old(events) && output == old(output)
      ensures fresh(n) && arcs == old(arcs) + {n}
      ensures n.p == p && Links(n) == (i, dup, blue, green) && n.e == null
      ensures Links(i) == (old(i.pprev), n, old(i.s0), blue) && i.e == old(i.e)
      ensures Links(dup) == (n, old(dup.pnext), green, old(dup.s1)) && dup.e == old(dup.e)
    {
      assert ArcLinked(i) && ArcLinked(dup);
      n := new Arc(p, i, dup, (i.rank + dup.rank) / 2.0);
      n.s0 := blue;
      n.s1 := green;
      i.pnext := n;
      i.s1 := blue;
      dup.pprev := n;
      dup.s0 := green;
      arcs := arcs + {n};
      forall b | b in arcs
        ensures ArcLinked(b)
      {
        if b != n && b != i && b != dup {
          assert old(ArcLinked(b));
        }
      }
    }

    /**
     * The last step of the split branch: check_circle_event at x for the new arc n (which
     * holds no event yet), then for its previous arc l, then for its next arc r.
     */
    method RecheckSplit(l: Arc, n: Arc, r: Arc, x: real, ghost ke: set<Event>)
      requires Valid() && n in arcs && n.pprev == l && n.pnext == r && n.e == null
      requires l.e !in ke && r.e !in ke
      modifies this, event, {n, l, r}`e, events
      ensures Valid() && output == old(output) && arc == old(arc) && arcs == old(arcs)
      ensures old(events) <= events && forall ev :: ev in events ==> ev in old(events) || fresh(ev)
      ensures Rechecked(n, n.e, old(CircleOf(n)), x)
      ensures Invalidated(old(l.e), x) && Rechecked(l, l.e, old(CircleOf(l)), x)
      ensures Invalidated(old(r.e), x) && Rechecked(r, r.e, old(CircleOf(r)), x)
      ensures QueuedAfter(old(event.pq), [n, l, r])
      ensures unchanged(ke)
    {
      assert ArcLinked(n);
      CheckSide(n, x, {l, r}, EventSet(l.e) + EventSet(r.e) + ke, {});
      ghost var pq1, c1 := event.pq, event.counter;
      assert ArcLinked(l) && ArcLinked(r);
      CheckPair(l, r, x, {n}, EventSet(n.e) + ke, {});
      EventsOfAppend([n], [l, r]);
      assert Opt(l) + Opt(r) == [l, r];
      QueueTwice(old(event.pq), pq1, event.pq, EventsOf([n]), EventsOf([l, r]), old(event.counter), c1, event.counter);
    }

    /**
     * The second half of the split branch: the new arc for p goes between i and its copy
     * dup, joined to them by a blue and a green segment from z, and the three arcs are
     * checked for circle events at p.x.
     */
    method Attach(i: Arc, dup: Arc, p: Point, z: Point) returns (n: Arc)
      requires Valid() && i in arcs && dup in arcs && i.pnext == dup && dup.pprev == i
      modifies this, event, i, dup, events
      ensures Valid() && arc == old(arc)
      ensures old(events) <= events && forall ev :: ev in events ==> ev in old(events) || fresh(ev)
      ensures fresh(n) && arcs == old(arcs) + {n} && |output| == |old(output)| + 2
      ensures var blue, green := output[|old(output)|], output[|old(output)| + 1];
        output == old(output) + [blue, green] && fresh(blue) && fresh(green) &&
        blue.start == z && blue.color == Blue && green.start == z && green.color == Green &&
        n.p == p && Links(n) == (i, dup, blue, green) &&
        Links(i) == (old(i.pprev), n, old(i.s0), blue) &&
        Links(dup) == (n, old(dup.pnext), green, old(dup.s1))
      ensures forall b :: b in old(arcs) && b != i && b != dup ==> Links(b) == old(Links(b))
      ensures Rechecked(n, n.e, CircleOf(n), p.x)
      ensures Invalidated(old(i.e), p.x) && Rechecked(i, i.e, CircleOf(i), p.x)
      ensures Invalidated(old(dup.e), p.x) && Rechecked(dup, dup.e, CircleOf(dup), p.x)
      ensures QueuedAfter(old(event.pq), [n, i, dup])
      ensures unchanged(old(events - Held(i) - Held(dup)))
    {
      ghost var others := events - Held(i) - Held(dup);
      var blue, green := SplitSegments(z);
      n := Splice(i, dup, p, blue, green);
      assert unchanged(events);
      assert ArcLinked(i) && ArcLinked(dup);
      RecheckSplit(i, n, dup, p.x, others);
    }

    /**
     * The split branch of front_insert for the arc i that the parabola of p hits at z:
     * afterwards i, an arc for p and a copy of i follow each other, or nothing changes
     * when probing the old next arc raises (ok is false).
     */
    method SplitArc(i: Arc, p: Point, z: Point) returns (ok: bool)
      requires Valid() && i in arcs
      modifies this, event, i, ArcSet(i.pnext)`pprev, events
      ensures Valid() && arc == old(arc)
      ensures old(events) <= events && forall ev :: ev in events ==> ev in old(events) || fresh(ev)
      ensures ok <==> old(i.pnext) == null || !old(ProbeArc(p, i.pnext)).Raised?
      ensures !ok ==> unchanged(this, event) && unchanged(arcs) && unchanged(events)
      ensures ok ==> SplitAfter(i, p, z)
      ensures ok ==>
        var n := i.pnext;
        n != null && n.pnext != null && arcs == old(arcs) + {n, n.pnext} &&
        (old(i.pnext) == null || old(ProbeArc(p, i.pnext)).Hit? ==> n.pnext.pnext == null) &&
        (old(i.pnext) != null && old(ProbeArc(p, i.pnext)).Miss? ==>
          n.pnext.pnext == old(i.pnext) && old(i.pnext).pprev == n.pnext)
      ensures ok ==> SplitChecked(i, p.x)
      ensures SplitKept(i)
    {
      assert ArcLinked(i);
      var dup := Duplicate(i, p);
      if dup == null {
        return false;
      }
      var n := Attach(i, dup, p, z);
      ok := true;
    }

    /** The front_insert branch for an empty beach line: p's arc becomes the whole of it. */
    method Plant(p: Point)
      requires Valid() && arc == null
      modifies this
      ensures Valid() && output == old(output) && events == old(events)
      ensures arc != null && fresh(arc) && arcs == old(arcs) + {arc}
      ensures arc.p == p && Links(arc) == (null, null, null, null) && arc.e == null
    {
      var a := new Arc(p, null, null, 0.0);
      arc := a;
      arcs := arcs + {a};
      forall b | b in arcs
        ensures ArcLinked(b)
      {
        if b != a {
          assert old(ArcLinked(b));
        }
      }
    }

    /** Whether probing the next arc of h raises: the split at h then aborts. */
    ghost function NextRaises(p: Point, h: Arc): bool
      requires IsSqrt(sqrt)
      reads h, h.pnext
    {
      h.pnext != null && ProbeArc(p, h.pnext).Raised?
    }

    /**
     * What front_insert does once the walk stopped at arc i with probe q (i is null when
     * every arc missed): abort on a raise, split i on a hit, append after the last arc
     * on a miss.
     */
    method InsertAt(i: Arc?, p: Point, q: Probe) returns (r: Inserted)
      requires Valid() && arc != null && (i != null ==> i in arcs) && (q.Miss? <==> i == null)
      modifies this, event, arcs, events
      ensures Valid() && Grown() && arc == old(arc)
      ensures q.Raised? ==> r == InsertRaised
      ensures q.Miss? ==> r == Appended
      ensures q.Hit? ==> r == if old(NextRaises(p, i)) then InsertRaised else Split(q.z)
      ensures r == InsertRaised ==> unchanged(this, event) && unchanged(arcs) && unchanged(events)
      ensures r.Split? ==> i != null && SplitAfter(i, p, r.z) && SplitChecked(i, p.x) && SplitKept(i)
      ensures r == Appended ==> var c := old(Chain(arc)); AppendedAfter(c[|c| - 1], p) && AppendKept(c[|c| - 1])
    {
      if q.Raised? {
        return InsertRaised;
      }
      if q.Hit? {
        assert ArcLinked(i);
        var ok := SplitArc(i, p, q.z);
        r := if ok then Split(q.z) else InsertRaised;
        return;
      }
      var last := LastArc();
      var n := AppendAfter(last, p);
      r := Appended;
    }

    /**
     * front_insert(p) on a non-empty beach line: the walk from the root probes each arc
     * until one is hit or raises. A raise aborts, a hit arc is split around a new arc for
     * p (two segments from the hit point), and when every arc misses p's arc is appended
     * after the last one (one segment from the left edge of the box).
     */
    method InsertInto(p: Point) returns (r: Inserted)
      requires Valid() && arc != null
      modifies this, event, arcs, events
      ensures Valid() && Grown() && arc == old(arc)
      ensures var c, l := old(Chain(arc)), old(Locate(p, Chain(arc)));
        (l.0.Raised? ==> r == InsertRaised) &&
        (l.0.Miss? ==> r == Appended) &&
        (l.0.Hit? ==> r == if old(NextRaises(p, c[l.1])) then InsertRaised else Split(l.0.z))
      ensures r == InsertRaised ==> unchanged(this, event) && unchanged(arcs) && unchanged(events)
      ensures var c, l := old(Chain(arc)), old(Locate(p, Chain(arc)));
        (r.Split? ==> SplitAfter(c[l.1], p, r.z) && SplitChecked(c[l.1], p.x) && SplitKept(c[l.1])) &&
        (r == Appended ==> AppendedAfter(c[|c| - 1], p) && AppendKept(c[|c| - 1]))
    {
      ghost var c := Chain(arc);
      ghost var k := 0;
      var i: Arc? := arc;
      var q := Miss;
      while i != null
        invariant k <= |c| && (k < |c| <==> i != null) && (i != null ==> i == c[k])
        invariant forall j :: 0 <= j < k ==> ProbeArc(p, c[j]).Miss?
        invariant q.Miss?
        modifies {}
        decreases |c| - k
      {
        q := Intersect(p, i.p, Focus(i.pprev), Focus(i.pnext), sqrt);
        if !q.Miss? {
          break;
        }
        assert k < |c| - 1 ==> i.pnext == c[k + 1];
        i := i.pnext;
        k := k + 1;
      }
      LocateAt(p, c, k);
      r := InsertAt(i, p, q);
    }

    /**
     * front_insert(p): on an empty beach line p's arc becomes the root; otherwise
     * `InsertInto` walks and inserts.
     */
    method FrontInsert(p: Point) returns (r: Inserted)
      requires Valid()
      modifies this, event, arcs, events
      ensures Valid() && Grown()
      ensures old(arc) == null <==> r == FirstArc
      ensures old(arc) == null ==>
        arc != null && arc.p == p && Links(arc) == (null, null, null, null) && output == old(output)
      ensures old(arc) != null ==> arc == old(arc)
      ensures old(arc) != null ==> var c, l := old(Chain(arc)), old(Locate(p, Chain(arc)));
        (l.0.Raised? ==> r == InsertRaised) &&
        (l.0.Miss? ==> r == Appended && AppendedAfter(c[|c| - 1], p) && AppendKept(c[|c| - 1])) &&
        (l.0.Hit? ==> r == if old(NextRaises(p, c[l.1])) then InsertRaised else Split(l.0.z)) &&
        (r.Split? ==> SplitAfter(c[l.1], p, r.z) && SplitChecked(c[l.1], p.x) && SplitKept(c[l.1]))
      ensures r == InsertRaised ==> unchanged(this, event) && unchanged(arcs) && unchanged(events)
    {
      if arc == null {
        Plant(p);
        return FirstArc;
      }
      r := InsertInto(p);
    }

    /** process_point: the next site is popped (none left is the KeyError of `pop`) and inserted. */
    method ProcessPoint() returns (r: Option<Inserted>)
      requires Valid()
      modifies this, points, event, arcs, events
      ensures Valid() && Grown()
      ensures r.None? <==> old(NextSite()).None?
      ensures r.None? ==> output == old(output) && arc == old(arc) && arcs == old(arcs) && points.pq == []
      ensures r.Some? ==>
        var w := MinLive(old(points.pq)).value;
        points.pq == Above(old(points.pq), w) && points.entryFinder == old(points.entryFinder) - {w.item.value} &&
        (old(arc) == null ==> r.value == FirstArc && arc != null && arc.p == w.item.value.p) &&
        (old(arc) != null ==> arc == old(arc) && r.value != FirstArc)
    {
      var site := points.Pop();
      if site.None? {
        return None;
      }
      var ins := FrontInsert(site.value.p);
      r := Some(ins);
    }

    /**
     * The test of the first loop of process: a circle event goes first when the event
     * queue is not empty and its least event is at or left of the least site (ties go
     * to the event). Both `top` calls re-push what they look at; None is the KeyError
     * of a `top` that finds nothing live.
     */
    method EventFirst() returns (r: Option<bool>)
      requires Valid()
      modifies points, event
      ensures Valid()
      ensures old(event.pq) == [] ==>
        r == Some(false) && event.pq == old(event.pq) && points.pq == old(points.pq)
      ensures old(event.pq) != [] ==>
        (r.Some? <==> old(NextEvent()).Some? && old(NextSite()).Some?) &&
        (r.Some? ==> r.value == (old(NextEvent()).value.x <= old(NextSite()).value.p.x))
      ensures old(event.pq) != [] ==>
        event.pq == AfterTop(old(event.pq), EventKey, old(event.counter)) &&
        (old(NextEvent()).None? ==> event.counter == old(event.counter) && event.entryFinder == old(event.entryFinder)) &&
        (old(NextEvent()).Some? ==>
           event.counter == old(event.counter) + 1 &&
           event.entryFinder == old(event.entryFinder)[old(NextEvent()).value := old(event.counter)])
      ensures old(event.pq) == [] || old(NextEvent()).None? ==> unchanged(points)
      ensures old(event.pq) != [] && old(NextEvent()).Some? ==>
        points.pq == AfterTop(old(points.pq), SiteKey, old(points.counter)) &&
        (old(NextSite()).None? ==> points.counter == old(points.counter) && points.entryFinder == old(points.entryFinder)) &&
        (old(NextSite()).Some? ==>
           points.counter == old(points.counter) + 1 &&
           points.entryFinder == old(points.entryFinder)[old(NextSite()).value := old(points.counter)])
    {
      if event.Empty() {
        return Some(false);
      }
      ghost var before := event.pq;
      ghost var w := MinLive(before);
      if w.Some? {
        EventArcsAbove(before, arcs, w.value);
        EventArcsLive(before, arcs, w.value);
      }
      var e := event.Top();
      if e.None? {
        return None;
      }
      EventArcsPush(Above(before, w.value), arcs, Entry(EventKey(e.value), old(event.counter), e));
      var s := points.Top();
      if s.None? {
        return None;
      }
      r := Some(e.value.x <= s.value.p.x);
    }

    /**
     * Where finish_edges ends the right segment of an arc a followed by b: where the two
     * parabolas meet when the sweep line is at 2 l, l = X1 + (X1 - X0) + (Y1 - Y0), far right
     * of the box.
     */
    ghost function Meet(a: Arc, b: Arc): Option<Point>
      requires IsSqrt(sqrt)
    {
      Intersection(a.p, b.p, (X1 + (X1 - X0) + (Y1 - Y0)) * 2.0, sqrt)
    }

    /** The right segment of a, if it has one, is finished. */
    ghost predicate RightDone(a: Arc)
      reads a, a.s1
    {
      a.s1 != null ==> a.s1.done
    }

    /** Every arc of the beach line but the last has its right segment, if any, finished. */
    ghost predicate EdgesFinished()
      requires Linked()
      reads this, arcs, output
    {
      arc != null &&
      var c := Chain(arc);
      assert forall k :: 0 <= k < |c| ==> ArcLinked(c[k]);
      AllDone(RightsOf(c), |c| - 1)
    }

    /** finish_edges can compute every intersection it needs: no arc with a right segment raises. */
    ghost predicate IntersectionsDefined()
      requires IsSqrt(sqrt) && Linked() && arc != null
      reads this, arcs
    {
      var c := Chain(arc);
      AllMeet(RightsOf(c), Meets(c))
    }

    /** The right segments of the arcs c, in order. */
    ghost function RightsOf(c: seq<Arc>): (ss: seq<Segment?>)
      reads c
      ensures |ss| == |c| && forall k :: 0 <= k < |c| ==> ss[k] == c[k].s1
    {
      seq(|c|, k requires 0 <= k < |c| reads c => c[k].s1)
    }

    /** Where each arc of c but the last meets the next one. */
    ghost function Meets(c: seq<Arc>): (ms: seq<Option<Point>>)
      requires IsSqrt(sqrt) && |c| >= 1
      ensures |ms| == |c| - 1 && forall k :: 0 <= k < |ms| ==> ms[k] == Meet(c[k], c[k + 1])
    {
      seq(|c| - 1, k requires 0 <= k < |c| - 1 => Meet(c[k], c[k + 1]))
    }

    /** Every arc with a right segment meets the next one (the k-th of ms for the k-th of ss). */
    ghost predicate AllMeet(ss: seq<Segment?>, ms: seq<Option<Point>>)
      requires |ms| <= |ss|
    {
      forall k :: 0 <= k < |ms| && ss[k] != null ==> ms[k].Some?
    }

    /** The first n right segments of ss that exist are finished. */
    ghost predicate AllDone(ss: seq<Segment?>, n: nat)
      requires n <= |ss|
      reads ss
    {
      forall k :: 0 <= k < n && ss[k] != null ==> ss[k].done
    }

    /** No right segment before the k-th of ss is the k-th one. */
    ghost predicate FirstAt(ss: seq<Segment?>, k: nat)
      requires k < |ss|
    {
      forall j :: 0 <= j < k ==> ss[j] != ss[k]
    }

    /**
     * Each right segment of ss that was unfinished ends where the first arc holding it
     * meets the next one.
     */
    twostate predicate EndsAt(ss: seq<Segment?>, new ms: seq<Option<Point>>)
      requires |ms| <= |ss|
      reads ss
    {
      forall k :: 0 <= k < |ms| && ss[k] != null && !old(ss[k].done) && FirstAt(ss, k) ==> ss[k].end == ms[k]
    }

    /** One step of finish_edges: the right segment of i, if any, is finished where i meets its next arc. */
    method FinishRight(i: Arc) returns (ok: bool)
      requires IsSqrt(sqrt) && i.pnext != null
      modifies i.s1
      ensures ok <==> i.s1 == null || Meet(i, i.pnext).Some?
      ensures ok ==> RightDone(i)
      ensures i.s1 != null && old(i.s1.done) ==> i.s1.done && i.s1.end == old(i.s1.end)
      ensures i.s1 != null && ok && !old(i.s1.done) ==> i.s1.end == Meet(i, i.pnext)
      ensures !ok ==> unchanged(i.s1)
    {
      if i.s1 != null {
        var l := X1 + (X1 - X0) + (Y1 - Y0);
        var q := Intersection(i.p, i.pnext.p, l * 2.0, sqrt);
        if q.None? {
          return false;
        }
        i.s1.Finish(q.value);
      }
      ok := true;
    }

    /** The segments among ss. */
    static ghost function Segs(ss: seq<Segment?>): (r: set<Segment>)
      ensures forall k :: 0 <= k < |ss| && ss[k] != null ==> ss[k] in r
      ensures forall s :: s in r ==> s in ss
    {
      set k | 0 <= k < |ss| && ss[k] != null :: ss[k]
    }

    /** Where a segment of Segs(ss) sits in ss. */
    static lemma SegsIndex(ss: seq<Segment?>, s: Segment) returns (k: nat)
      requires s in Segs(ss)
      ensures k < |ss| && ss[k] == s
    {
      k :| 0 <= k < |ss| && ss[k] == s;
    }

    /**
     * Where the walk of finish_edges stands after k arcs, against the state before it began
     * (wasDone, wasEnd): the right segments of the first k arcs are finished, each one that
     * was not finished before ends where its first arc meets the next, each later one that
     * was not finished before still is not, and each one finished before keeps its end.
     */
    ghost predicate Walked(ss: seq<Segment?>, ms: seq<Option<Point>>, wasDone: seq<bool>, wasEnd: seq<Option<Point>>, k: nat)
      requires k <= |ms| < |ss| == |wasDone| == |wasEnd|
      reads ss
    {
      (forall j :: 0 <= j < k && ss[j] != null ==> ss[j].done && ms[j].Some?) &&
      (forall j :: 0 <= j < k && ss[j] != null && !wasDone[j] && FirstAt(ss, j) ==> ss[j].end == ms[j]) &&
      (forall m :: k <= m < |ss| && ss[m] != null && !wasDone[m] && FirstAt(ss, m) ==> !ss[m].done) &&
      (forall j :: 0 <= j < |ss| && ss[j] != null && wasDone[j] ==> ss[j].done && ss[j].end == wasEnd[j])
    }

    /** One step of the walk: finishing the k-th right segment moves the walk on by one arc. */
    method WalkStep(i: Arc, ghost ss: seq<Segment?>, ghost ms: seq<Option<Point>>, ghost wasDone: seq<bool>,
                    ghost wasEnd: seq<Option<Point>>, ghost k: nat)
      returns (ok: bool)
      requires IsSqrt(sqrt) && k < |ms| < |ss| == |wasDone| == |wasEnd| && i.pnext != null
      requires i.s1 == ss[k] && Meet(i, i.pnext) == ms[k] && Walked(ss, ms, wasDone, wasEnd, k)
      modifies i.s1
      ensures ok <==> ss[k] == null || ms[k].Some?
      ensures ok ==> Walked(ss, ms, wasDone, wasEnd, k + 1)
      ensures !ok ==> Walked(ss, ms, wasDone, wasEnd, k)
    {
      ok := FinishRight(i);
      if ok {
        forall m | k < m < |ss| && ss[m] != null && FirstAt(ss, m)
          ensures ss[m] != ss[k]
        {
        }
      }
    }

    /** The right segments of the beach line: the only segments finish_edges may finish. */
    ghost function RightSegs(): set<Segment>
      requires Linked()
      reads this, arcs
    {
      if arc == null then {} else Segs(RightsOf(Chain(arc)))
    }

    /**
     * The walk of finish_edges along the arcs c, whose right segments are ss, starting from
     * the first: the right segment of every arc but the last is finished where that arc
     * meets the next one (ms), until an intersection raises.
     */
    method FinishWalk(first: Arc, ghost c: seq<Arc>, ghost ss: seq<Segment?>, ghost ms: seq<Option<Point>>,
                      ghost others: set<Segment>)
      returns (ok: bool)
      requires IsSqrt(sqrt) && |c| >= 1 && c[0] == first && |ss| == |c| && |ms| == |c| - 1
      requires forall k :: 0 <= k < |c| ==> c[k].s1 == ss[k]
      requires forall k :: 0 <= k < |c| - 1 ==> c[k].pnext == c[k + 1]
      requires forall k :: 0 <= k < |ms| ==> ms[k] == Meet(c[k], c[k + 1])
      requires c[|c| - 1].pnext == null
      requires forall k :: 0 <= k < |c| && ss[k] != null ==> ss[k] in output && ss[k] !in others
      modifies output
      ensures RightsOf(c) == ss && unchanged(this, arcs, points, event) && unchanged(others)
      ensures ok <==> AllMeet(ss, ms)
      ensures ok ==> AllDone(ss, |ms|) && EndsAt(ss, ms)
      ensures forall k :: 0 <= k < |ss| && ss[k] != null && old(ss[k].done) ==> ss[k].done && ss[k].end == old(ss[k].end)
    {
      ghost var wasDone := seq(|ss|, j requires 0 <= j < |ss| reads ss => ss[j] != null && ss[j].done);
      ghost var wasEnd := seq(|ss|, j requires 0 <= j < |ss| reads ss => if ss[j] != null then ss[j].end else None);
      var i := first;
      ghost var k := 0;
      ok := true;
      while i.pnext != null
        invariant k < |c| && i == c[k] && i.s1 == ss[k] && ok
        invariant k < |c| - 1 ==> i.pnext == c[k + 1] && c[k + 1].s1 == ss[k + 1] && Meet(i, i.pnext) == ms[k]
        invariant k <= |ms| && Walked(ss, ms, wasDone, wasEnd, k)
        invariant unchanged(this, arcs, points, event) && unchanged(others)
        decreases |c| - k
      {
        ok := WalkStep(i, ss, ms, wasDone, wasEnd, k);
        if !ok {
          break;
        }
        i := i.pnext;
        k := k + 1;
      }
    }

    /**
     * finish_edges: the walk above along the whole beach line. With no arc at all it fails
     * on the missing root.
     */
    method FinishEdges() returns (ok: bool)
      requires Valid()
      modifies output
      ensures Valid()
      ensures ok <==> arc != null && IntersectionsDefined()
      ensures ok ==> EdgesFinished()
      ensures ok ==> var c := old(Chain(arc)); EndsAt(old(RightsOf(c)), Meets(c))
      ensures forall s :: s in old(output) && (old(s.done) || s !in old(RightSegs())) ==>
        s.done == old(s.done) && s.end == old(s.end)
    {
      if arc == null {
        return false;
      }
      ghost var c := Chain(arc);
      ghost var ss, ms := RightsOf(c), Meets(c);
      forall k | 0 <= k < |c| && ss[k] != null
        ensures ss[k] in output
      {
        assert ArcLinked(c[k]);
      }
      ghost var others := (set s | s in output) - Segs(ss);
      ok := FinishWalk(arc, c, ss, ms, others);
      assert Chain(arc) == c;
      forall s | s in old(output) && (old(s.done) || s !in old(RightSegs()))
        ensures s.done == old(s.done) && s.end == old(s.end)
      {
        if s in others {
        } else if old(s.done) {
          var k := SegsIndex(ss, s);
        }
      }
    }

    /** get_output: (x0, y0, x1, y1, colour) for every segment of `output` that has an end, in order. */
    method GetOutput() returns (res: seq<Line>)
      ensures res == Drawn(output)
    {
      res := [];
      for k := 0 to |output|
        invariant res == Drawn(output[..k])
      {
        assert output[..k + 1][..k] == output[..k];
        var o := output[k];
        if o.end.Some? {
          res := res + [(o.start.x, o.start.y, o.end.value.x, o.end.value.y, o.color)];
        }
      }
      assert output[..|output|] == output;
    }

    /**
     * One step of the first loop of process: the circle event or the site that comes
     * first is handled (ties go to the event); false when the source raises.
     */
    method SiteStep() returns (ok: bool)
      requires Valid()
      modifies this, points, event, arcs, events, output
      ensures Valid() && Grown()
    {
      var first := EventFirst();
      if first.None? {
        return false;
      }
      if first.value {
        var e := ProcessEvent();
        ok := e.Some?;
      } else {
        var ins := ProcessPoint();
        ok := ins.Some? && ins.value != InsertRaised;
      }
    }

    /**
     * The first loop of process: while sites are left, one step each, spending one unit
     * of fuel; `stop` is the outcome when the loop ends early.
     */
    method SweepSites(fuel: nat) returns (stop: Option<Outcome>, left: nat)
      requires Valid()
      modifies this, points, event, arcs, events, output
      ensures Valid() && Grown() && left <= fuel
      ensures stop.None? ==> points.pq == []
      ensures stop.Some? ==> stop.value != Finished
    {
      left := fuel;
      while !points.Empty()
        invariant Valid() && Grown() && left <= fuel
        decreases left
      {
        if left == 0 {
          return Some(OutOfFuel), left;
        }
        left := left - 1;
        var ok := SiteStep();
        if !ok {
          return Some(Aborted), left;
        }
      }
      stop := None;
    }

    /**
     * The second loop of process: the remaining circle events are handled, one unit of
     * fuel each; `stop` is the outcome when the loop ends early.
     */
    method SweepEvents(fuel: nat) returns (stop: Option<Outcome>)
      requires Valid() && points.pq == []
      modifies this, event, arcs, events, output
      ensures Valid() && Grown() && points.pq == []
      ensures stop.None? ==> event.pq == []
      ensures stop.Some? ==> stop.value != Finished
    {
      var left := fuel;
      while !event.Empty()
        invariant Valid() && Grown() && points.pq == []
        decreases left
      {
        if left == 0 {
          return Some(OutOfFuel);
        }
        left := left - 1;
        var e := ProcessEvent();
        if e.None? {
          return Some(Aborted);
        }
      }
      stop := None;
    }

    /**
     * process: the two loops above, then the edges are finished. Aborted is an exception
     * of the source, OutOfFuel a run cut short.
     */
    method Process(fuel: nat) returns (r: Outcome)
      requires Valid()
      modifies this, points, event, arcs, events, output
      ensures Valid() && Grown()
      ensures r == Finished ==> points.pq == [] && event.pq == [] && EdgesFinished()
    {
      var stop, left := SweepSites(fuel);
      if stop.Some? {
        return stop.value;
      }
      stop := SweepEvents(left);
      if stop.Some? {
        return stop.value;
      }
      var ok := FinishEdges();
      r := if ok then Finished else Aborted;
    }
  }
}
