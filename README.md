# python_sandbox core, modelled in Dafny

The repository is a set of pygame demos. This project models the sequential
logic inside them, with drawing, input events and randomness taken out:

- **Fortune's sweep** for Voronoi diagrams (`util/voronoi_fortune_algorithm.py`).
  - `PriorityQueue` is a lazy-deletion heap of `(key, count, item)` entries.
    An `entry_finder` dictionary de-duplicates pushes, and `'Removed'` markers are skipped by `pop`/`top`.
  - The beach line is a doubly linked list of `Arc` objects.
  - Voronoi edges are `Segment` objects, each finished once.
  - The geometry is `intersection`, `intersect` and `circle`, over exact reals.
  - The driver is `process`: site events and circle events, with ties going to the circle event, then `finish_edges`.
  - Files: `voronoi_geometry.dfy`, `priority_queue.dfy` and `voronoi.dfy`.
- **Conway's Game of Life.**
  - `life_rules.dfy` defines the neighbour count and the four rules once.
  - `game_of_life.dfy` models the module functions of `game/gameoflife.py`.
  - `game_of_life_object.dfy` models the class of `game/gameoflife2.py`, whose `life` field is updated in place.
- **Bresenham's line** `plot_line` of `util/draw_grid.py` is `draw_grid.dfy`. The pixels handed to `screen.set_at` form the output sequence.
- **The Sudoku board** of `util/draw_Sudoku.py` is `sudoku.dfy`. It covers:
  - the blank board;
  - the pattern-based generator;
  - the blanking of 60 cells;
  - the click-to-cell arithmetic;
  - the guard of `drawSelected`.
- **The cube facelets** of `util/draw_cube.py` are `cube.dfy`. It covers the colour enum, `FaceCube` parsing and `to_string`, and the 54-rect face layout.
- **The hex grid** of `util/draw_hex.py` is `hex.dfy`. It covers:
  - `genHexagon` and `aabb`;
  - the three point-in-polygon tests;
  - the selection and highlight bookkeeping of `handleEvent`.

Classes whose fields the source updates in place are Dafny classes: `Segment`,
`Arc`, `Event`, `PriorityQueue`, `Voronoi`, `game_of_life`, `SudokuBoard`,
`FaceCube`, `draw_cube_face` and the hex view. Their methods carry `modifies`
clauses and state the new state.

Loops of the source are `while` or `for` loops with invariants. Each loop method is
proved against a specification function whose properties are lemmas.

Most Python exceptions are modelled as an explicit outcome, such as a `None`,
`false`, `Raised` or `Aborted` result. This covers the `ZeroDivisionError` and
square root of a negative number in `intersection`, the `AttributeError` on
`None` in `finish_edges`, which make `process` end with `Aborted`. Some members instead
exclude the raising input with a `requires`: `Cube.FromOrdinal`, `Cube.Named`,
`Cube.FaceCube.constructor`, `HexGrid.Aabb`, the `GetNeighbours` and
`NextGeneration` members of both game-of-life files, and
`GameOfLifeObject.GameOfLife.constructor`. Each has its own line under
"Left out".

## Model

| member | source | states |
|---|---|---|
| VoronoiGeometry.PlugBack | util/voronoi_fortune_algorithm.py:368-370 | the plugged-back point has the requested height and lies on the focus's parabola (as far from the focus as from the sweep line) |
| VoronoiGeometry.PlugBackOnParabola | util/voronoi_fortune_algorithm.py:369-370 | the point (px, py) of the plug-back formula is as far from the focus as from the sweep line |
| VoronoiGeometry.Coefficients | util/voronoi_fortune_algorithm.py:359-364 | the leading coefficient of the quadratic is never zero for foci at different x, both off the line |
| VoronoiGeometry.Intersection | util/voronoi_fortune_algorithm.py:347-371 | `intersection` raises (None) exactly when both foci lie on the line (division by zero) or the discriminant is negative (sqrt of a negative) |
| VoronoiGeometry.IntersectionDefined | util/voronoi_fortune_algorithm.py:357-366 | with both foci on the same side of the sweep line (not both on it), `intersection` never raises: b²-4ac scaled by (z0 z1)² is 16uv((y0-y1)²+(u-v)²) ≥ 0 |
| VoronoiGeometry.DiscriminantScaled | util/voronoi_fortune_algorithm.py:359-366 | the discriminant times (z0 z1)² equals 16uv((y0-y1)²+(u-v)²), u, v the distances of the foci from the line |
| VoronoiGeometry.IntersectionOnParabolas | util/voronoi_fortune_algorithm.py:347-371 | the point `intersection` returns (foci off the line) lies on both parabolas: it is the breakpoint of the two arcs |
| VoronoiGeometry.MidpointMeets | util/voronoi_fortune_algorithm.py:350-351 | foci at equal x: both parabolas pass through the point at the mean height |
| VoronoiGeometry.RootMeets | util/voronoi_fortune_algorithm.py:362-366 | the root (-b - s)/2a of the quadratic is a height where the two parabolas share their point |
| VoronoiGeometry.QuadraticRoot | util/voronoi_fortune_algorithm.py:366 | (-b - s)/2a with s² = b²-4ac solves a y² + b y + c = 0 |
| VoronoiGeometry.PlugBackDifference | util/voronoi_fortune_algorithm.py:359-369 | the horizontal gap between the two parabolas at height py is a py² + b py + c: the quadratic solved by `intersection` |
| VoronoiGeometry.SquaredRoot | util/voronoi_fortune_algorithm.py:366 | the sqrt parameter applied to the discriminant squares back to it |
| VoronoiGeometry.Intersect | util/voronoi_fortune_algorithm.py:327-344 | a focus at the site's x is a miss; otherwise `intersect` raises exactly when the `intersection` of a neighbour's breakpoint raises, and hits exactly when the site's y lies between the two breakpoints; a hit point has the site's y and lies on the arc's parabola |
| VoronoiGeometry.IntersectNeverRaises | util/voronoi_fortune_algorithm.py:327-339 | sites come in order of x, so with every focus at or left of the new site `intersect` never raises |
| VoronoiGeometry.Circle | util/voronoi_fortune_algorithm.py:301-324 | a circle is reported exactly when the three sites turn right (orientation < 0, which also excludes G = 0); its centre is equidistant from the three sites and x is the centre's x plus the radius |
| VoronoiGeometry.Denominator | util/voronoi_fortune_algorithm.py:312 | G is twice the orientation determinant of a, b, c |
| VoronoiGeometry.Centre | util/voronoi_fortune_algorithm.py:306-318 | (ox, oy) is equidistant from a, b and c |
| VoronoiGeometry.Solve | util/voronoi_fortune_algorithm.py:306-318 | the computed centre lies on the perpendicular bisectors of ab and ac |
| VoronoiGeometry.Cramer | util/voronoi_fortune_algorithm.py:317-318 | Cramer's rule solves 2(A ox + B oy) = E and 2(C ox + D oy) = F |
| VoronoiGeometry.Bisectors | util/voronoi_fortune_algorithm.py:306-311 | E and F are the chord terms, so a solution of the two linear equations lies on both bisectors |
| VoronoiGeometry.Radius | util/voronoi_fortune_algorithm.py:321 | x = ox + sqrt(dist²) is the rightmost x of the circle, ≥ ox |
| VoronoiGeometry.CentreEquations | util/voronoi_fortune_algorithm.py:317-318 | the quotients by G satisfy both linear equations |
| VoronoiGeometry.EquidistantBoth | util/voronoi_fortune_algorithm.py:317-321 | a point on both bisectors is equally far from a, b and c |
| VoronoiGeometry.ChordEquation | util/voronoi_fortune_algorithm.py:310-311 | the difference of squared distances to a and b is the chord term minus 2(b-a)·o |
| PriorityQueues.BeforeTotal | util/voronoi_fortune_algorithm.py:113 | entries with distinct counts are always ordered one way or the other |
| PriorityQueues.MinLive | util/voronoi_fortune_algorithm.py:121-127 | the entry `pop` returns is a live entry of the queue preceded by no live entry; there is none exactly when no entry is live |
| PriorityQueues.LeastLiveUnique | util/voronoi_fortune_algorithm.py:121-127 | with distinct counts the least live entry is unique: `pop` is deterministic |
| PriorityQueues.Above | util/voronoi_fortune_algorithm.py:122-123 | the entries after w are exactly those of the queue that w precedes |
| PriorityQueues.RemoveLeast | util/voronoi_fortune_algorithm.py:123 | taking out the least entry (`heappop`) leaves exactly the entries after it |
| PriorityQueues.AboveTwice | util/voronoi_fortune_algorithm.py:122-126 | popping past v and then past a later w is popping past w |
| PriorityQueues.AboveDistinct | util/voronoi_fortune_algorithm.py:122-123 | popping keeps counts distinct |
| PriorityQueues.MarkRemoved | util/voronoi_fortune_algorithm.py:117-119 | `remove_entry` turns the item of the entry with that count into 'Removed' and changes nothing else |
| PriorityQueues.PushKeeps | util/voronoi_fortune_algorithm.py:108-115 | pushing a new item with the next count keeps the queue, finder and counter consistent |
| PriorityQueues.RemoveKeeps | util/voronoi_fortune_algorithm.py:117-119 | marking an entry 'Removed' and forgetting its item keeps them consistent |
| PriorityQueues.PopKeeps | util/voronoi_fortune_algorithm.py:121-126 | dropping every entry up to the least live one and forgetting its item keeps them consistent |
| PriorityQueues.AboveLiveItems | util/voronoi_fortune_algorithm.py:121-126 | after a pop the tracked items are the old ones minus the popped item |
| PriorityQueues.PriorityQueue.constructor | util/voronoi_fortune_algorithm.py:103-106 | an empty heap, an empty finder, the counter at 0 |
| PriorityQueues.PriorityQueue.Push | util/voronoi_fortune_algorithm.py:108-115 | an item already tracked changes nothing; otherwise one entry with the item's key and the current count is added, the finder maps the item to that count and the counter grows by one |
| PriorityQueues.PriorityQueue.RemoveEntry | util/voronoi_fortune_algorithm.py:117-119 | false (KeyError) exactly when the item is not tracked; otherwise the item is forgotten and its entry marked 'Removed' |
| PriorityQueues.PriorityQueue.Pop | util/voronoi_fortune_algorithm.py:121-127 | returns the item of the least live entry by (key, count) and the queue keeps only the entries after it; None (KeyError) when nothing is live, leaving the heap empty |
| PriorityQueues.PriorityQueue.Top | util/voronoi_fortune_algorithm.py:129-136 | returns what `pop` would; the item is re-pushed with a fresh count, so the tracked items are unchanged |
| PriorityQueues.TopQueuesLast | util/voronoi_fortune_algorithm.py:129-136 | after `top` the re-pushed item is the last entry, and every other entry with its key comes before it: among equal keys it is now the last to be popped |
| PriorityQueues.PriorityQueue.Empty | util/voronoi_fortune_algorithm.py:138-139 | true iff the heap list holds no entry; an empty queue has nothing to pop |
| PriorityQueues.PriorityQueue.PopLive | util/voronoi_fortune_algorithm.py:122-127 | the `while self.pq` loop pops until a live entry appears, and removes exactly the entries up to it |
| PriorityQueues.LiveInStart | util/voronoi_fortune_algorithm.py:122-126 | the first live entry the loop meets is the least live entry of the queue it started from |
| PriorityQueues.DroppedBefore | util/voronoi_fortune_algorithm.py:122-124 | every 'Removed' entry the loop drops precedes every live entry |
| PriorityQueues.NothingLive | util/voronoi_fortune_algorithm.py:122-127 | when the loop empties the heap, no live entry was there: the KeyError case |
| Voronoi.Segment.constructor | util/voronoi_fortune_algorithm.py:81-85 | a segment with the given start and colour, no end, not done |
| Voronoi.Segment.Finish | util/voronoi_fortune_algorithm.py:87-90 | the first call sets the end and marks it done; later calls change nothing |
| Voronoi.Event.constructor | util/voronoi_fortune_algorithm.py:54-58 | an event at x with centre p for arc a, valid |
| Voronoi.Arc.constructor | util/voronoi_fortune_algorithm.py:68-74 | an arc with focus p and the given neighbours, no event and no segments |
| Voronoi.QueuedPush | util/voronoi_fortune_algorithm.py:156-158 | pushing the k-th input point extends the site queue by the entry for that site |
| Voronoi.CoversExtend | util/voronoi_fortune_algorithm.py:159-163 | the four running min/max updates keep a box around every point seen so far |
| Voronoi.CoversWiden | util/voronoi_fortune_algorithm.py:165-171 | the positive margins turn the closed box into one that holds every site strictly inside |
| Voronoi.EventArcsPush | util/voronoi_fortune_algorithm.py:298-299 | queueing an event for a known arc keeps every queued event tied to a known arc |
| Voronoi.EventArcsAbove | util/voronoi_fortune_algorithm.py:195 | popping keeps every queued event tied to a known arc |
| Voronoi.EventArcsLive | util/voronoi_fortune_algorithm.py:195-203 | the arc of a popped event is a known arc |
| Voronoi.EntriesOfSplit | util/voronoi_fortune_algorithm.py:298-299 | the queue entries pushed for a run of events followed by another are those of the first run, then those of the second counted on from there |
| Voronoi.QueueTwice | util/voronoi_fortune_algorithm.py:217-221 | two rounds of checks in a row leave the queue with the entries of both rounds after the old ones, in order, with consecutive counts |
| Voronoi.Drawn | util/voronoi_fortune_algorithm.py:393-400 | at most one line per segment |
| Voronoi.DrawnComplete | util/voronoi_fortune_algorithm.py:393-400 | every segment with an end has its line in the output of `get_output` |
| Voronoi.DrawnSound | util/voronoi_fortune_algorithm.py:393-400 | every line in the output comes from a segment with an end |
| Voronoi.Voronoi.constructor | util/voronoi_fortune_algorithm.py:142-171 | every input point is queued as a site, in input order; X0, X1, Y0, Y1 are the running bounds `Box` grows from (-50, -50, 550, 550), widened by a fifth of the width (height) plus one on each side; every point lies strictly inside; the event queue, output and beach line are empty |
| Voronoi.BoxCovers | util/voronoi_fortune_algorithm.py:152-163 | the running bounds contain every point seen so far and the starting bounds |
| Voronoi.BoxTight | util/voronoi_fortune_algorithm.py:152-163 | each running bound is its starting value or a coordinate of a point seen so far, so the box is the smallest that covers them |
| Voronoi.Voronoi.FromShrinks | util/voronoi_fortune_algorithm.py:229-269 | following pnext strictly shrinks the set of arcs ahead: the list walks terminate |
| Voronoi.Voronoi.Chain | util/voronoi_fortune_algorithm.py:272-274 | the beach line from an arc is a sequence of known arcs linked by pnext and ending at the last arc |
| Voronoi.Voronoi.Locate | util/voronoi_fortune_algorithm.py:229-269 | the walk of `front_insert` stops at the first arc that is hit or raises; every arc before it misses; it runs off the end only when all miss |
| Voronoi.Voronoi.LocateAt | util/voronoi_fortune_algorithm.py:229-269 | the stopping index is the first probe that does not miss |
| Voronoi.Voronoi.DropEvent | util/voronoi_fortune_algorithm.py:289-291 | the arc's old event is made invalid unless its x equals x0, and the arc keeps no event |
| Voronoi.Voronoi.QueueEvent | util/voronoi_fortune_algorithm.py:298-299 | a fresh valid event (x, centre, arc) becomes the arc's event and is pushed onto the event queue |
| Voronoi.Voronoi.EventsOfAppend | util/voronoi_fortune_algorithm.py:217-221 | the events held by two runs of arcs are those of the first run followed by those of the second |
| Voronoi.Voronoi.CheckCircleEvent | util/voronoi_fortune_algorithm.py:287-299 | an old event is invalidated unless at x0; a new valid event for the arc, at the circle's x and centre, exists exactly when the arc has both neighbours and their circle reaches strictly right of x0, and it is then the only entry pushed after the old queue; otherwise the arc ends with no event; no link changes |
| Voronoi.Voronoi.CheckSide | util/voronoi_fortune_algorithm.py:218-221 | `check_circle_event(b, x)` when b is an arc, nothing when it is None: the arc's old event invalidated unless at x, a new event exactly when its circle fires right of x, queued after the old queue; no link changes; the arcs, events and segments named as kept are unchanged |
| Voronoi.Voronoi.CheckPair | util/voronoi_fortune_algorithm.py:217-221 | the two optional arcs are checked in that order: each as `CheckSide` states it, and the queue ends with the first arc's new event and then the second's; no link changes; the arcs, events and segments named as kept are unchanged |
| Voronoi.Voronoi.AddSegment | util/voronoi_fortune_algorithm.py:199-200 | a fresh unfinished segment is appended to the output |
| Voronoi.Voronoi.Unlink | util/voronoi_fortune_algorithm.py:204-209 | prev.pnext = a.pnext and next.pprev = a.pprev; both now hold the new segment (prev.s1, next.s0) |
| Voronoi.Voronoi.Detach | util/voronoi_fortune_algorithm.py:199-215 | a fresh red segment from p is appended; the arc's neighbours skip it and both hold the new segment; its segments are finished at p (one finished before keeps its end); no other arc's links change and no event changes |
| Voronoi.Voronoi.Vanish | util/voronoi_fortune_algorithm.py:197-221 | for a valid event: as `Detach` states, and then the old previous arc and the old next arc, in that order, each have their old event invalidated unless at the event's x and a new event exactly when their new circle fires right of it; the queue ends with those new events in that order; of the arcs and segments only its two neighbours and its two segments change, and every event except those the neighbours held is unchanged |
| Voronoi.Voronoi.FinishArc | util/voronoi_fortune_algorithm.py:211-215 | both segments of the vanishing arc are finished; one not finished before ends at the circle's centre, one finished before keeps its end |
| Voronoi.Voronoi.PopEvent | util/voronoi_fortune_algorithm.py:195 | the next event leaves the queue: the queue keeps only the entries after the least live one and forgets its item; None (KeyError) leaves the queue empty; the counter and everything else are unchanged |
| Voronoi.Voronoi.ProcessEvent | util/voronoi_fortune_algorithm.py:193-221 | returns the popped event, None exactly when none is live (the KeyError); None leaves the queue empty, an invalid event leaves it holding only the entries after that event, and in both cases no arc, event or segment changes; a valid event appends exactly one segment, and `Vanish` states the rest |
| Voronoi.Voronoi.LastArc | util/voronoi_fortune_algorithm.py:272-274 | the walk finds the last arc of the beach line |
| Voronoi.Voronoi.AppendAfter | util/voronoi_fortune_algorithm.py:276-284 | a fresh arc for p becomes the last arc's next and the new tail; one fresh black segment from (X0, mean of the two foci's y) is appended and becomes the last arc's s1 and the new arc's s0; the event queue, every event, every other arc and the last arc's event are unchanged |
| Voronoi.Voronoi.CopyBetween | util/voronoi_fortune_algorithm.py:238-243 | a copy of i with i's s1 goes between i and its old next arc; of the old arcs only i and the old next arc's pprev change |
| Voronoi.Voronoi.CopyLast | util/voronoi_fortune_algorithm.py:234-243 | a copy of i with i's s1 becomes i's next arc and has no next; an old next arc drops out of the list |
| Voronoi.Voronoi.Duplicate | util/voronoi_fortune_algorithm.py:233-243 | i gets a copy with its s1 as its next arc: between i and the old next arc when the parabola misses it, replacing it when the parabola hits it or when there is none; when probing the old next arc raises nothing at all changes; of the old arcs only i and the old next arc's pprev can change |
| Voronoi.Voronoi.SplitSegments | util/voronoi_fortune_algorithm.py:252-258 | a blue and then a green segment, both from z, are appended to the output |
| Voronoi.Voronoi.Splice | util/voronoi_fortune_algorithm.py:245-260 | the new arc goes between i and its copy; blue is i.s1 and the new arc's s0; green is the new arc's s1 and the copy's s0 |
| Voronoi.Voronoi.RecheckSplit | util/voronoi_fortune_algorithm.py:262-265 | the new arc, then its previous arc, then its next arc are checked at x: each old event invalidated unless at x, a new event exactly when the arc's circle fires right of x; the queue ends with the three new events in that order; no link changes; the events named as kept are unchanged |
| Voronoi.Voronoi.Attach | util/voronoi_fortune_algorithm.py:245-265 | a blue and then a green segment from z are appended; the new arc for p goes between i and its copy with blue on its left and green on its right; no other arc's links change; then the new arc, i and the copy are checked at p.x in that order, as `RecheckSplit` states, with their new events queued in that order; every event except those i and the copy held is unchanged |
| Voronoi.Voronoi.SplitArc | util/voronoi_fortune_algorithm.py:233-267 | fails exactly when probing the old next arc raises, and then nothing changes; otherwise i, a fresh arc for p and a fresh copy of i follow each other, joined by the blue and green segments from z, the copy taking i's old s1 and followed by the old next arc on a miss or by nothing on a hit; the three arcs are checked at p.x in the source's order and their new events queued in that order (`SplitChecked`); every arc but i and the old next arc and every event but i's is unchanged, and the old next arc keeps its next, segments and event (`SplitKept`) |
| Voronoi.Voronoi.Plant | util/voronoi_fortune_algorithm.py:224-226 | on an empty beach line a single arc for p becomes the root |
| Voronoi.Voronoi.InsertAt | util/voronoi_fortune_algorithm.py:231-284 | a raise aborts with nothing changed (model, queue, arcs and events); a hit splits the hit arc as `SplitArc` places it (new arc, copy, blue and green segments from the hit point) with its rechecks, queue entries and kept arcs and events, unless the next probe raises; a miss everywhere appends after the old last arc with one black segment, keeping the queue, every event and every other arc |
| Voronoi.Voronoi.InsertInto | util/voronoi_fortune_algorithm.py:229-284 | on the old beach line, `Locate` decides: a raise aborts with nothing changed (model, queue, arcs and events), a hit at arc k splits arc k around a new arc for p with the blue and green segments from the hit point, rechecks and kept state as `SplitArc` states them, and a miss on every arc appends after the last arc with a black segment from (X0, mean y), keeping the queue, every event and every other arc |
| Voronoi.Voronoi.FrontInsert | util/voronoi_fortune_algorithm.py:223-284 | FirstArc exactly on an empty beach line, and then a single arc for p and no segment; otherwise the root is kept and the outcome and placement are those `InsertInto` states for where `Locate` stops on the old beach line |
| Voronoi.Voronoi.ProcessPoint | util/voronoi_fortune_algorithm.py:187-191 | pops the least site (None exactly when no site is live, the KeyError) so that the site queue keeps only the entries after it; the site becomes the root on an empty beach line, and otherwise the root is kept and the result is never FirstArc |
| Voronoi.Voronoi.EventFirst | util/voronoi_fortune_algorithm.py:176 | a circle event goes first exactly when the event queue is non-empty and its top x is at most the top site's x (ties to the event); each `top` leaves its queue as `AfterTop` describes, with the counter and finder moved on exactly when it found a live entry; the site queue is untouched when the event queue is empty or its `top` raised |
| Voronoi.Voronoi.RightsOf | util/voronoi_fortune_algorithm.py:380 | the k-th entry is the s1 of the k-th arc |
| Voronoi.Voronoi.Meets | util/voronoi_fortune_algorithm.py:381 | the k-th entry is where arc k meets arc k+1 with the sweep line at 2l |
| Voronoi.Voronoi.FinishRight | util/voronoi_fortune_algorithm.py:380-383 | fails exactly when the arc has an s1 and the intersection raises; otherwise s1 is finished, at the intersection if it was not finished before |
| Voronoi.Voronoi.WalkStep | util/voronoi_fortune_algorithm.py:379-384 | one turn of the walk changes only the k-th right segment: it finishes it and extends the walked prefix by one arc, and every segment finished before the walk keeps its end |
| Voronoi.Voronoi.FinishWalk | util/voronoi_fortune_algorithm.py:378-384 | succeeds exactly when every intersection it needs is defined; then every right segment but the last arc's is finished, each newly finished one where its arc meets the next; only right segments change, and one finished before keeps its end |
| Voronoi.Voronoi.FinishEdges | util/voronoi_fortune_algorithm.py:373-384 | fails on an empty beach line (`self.arc` is None) or when an intersection raises; otherwise the s1 of every non-tail arc is finished at the intersection with its next arc; any outcome leaves every segment that was finished before, or that is no arc's right segment, with its end and done flag |
| Voronoi.Voronoi.GetOutput | util/voronoi_fortune_algorithm.py:393-400 | the result is the line of every output segment with an end, in order |
| Voronoi.Voronoi.SiteStep | util/voronoi_fortune_algorithm.py:176-179 | one turn of the first loop keeps the beach line and queues valid and only adds arcs, events and segments |
| Voronoi.Voronoi.SweepSites | util/voronoi_fortune_algorithm.py:175-179 | when it runs to the end the site queue is empty; it stops early only on an exception or out of fuel |
| Voronoi.Voronoi.SweepEvents | util/voronoi_fortune_algorithm.py:182-183 | when it runs to the end the event queue is empty |
| Voronoi.Voronoi.Process | util/voronoi_fortune_algorithm.py:174-185 | Finished means both queues are empty and every non-tail arc's right segment is finished |
| LifeRules.CountedIsCardinality | game/gameoflife.py:63-75 | the running count after k of the nine scanned cells is the number of live in-bounds non-self cells among them |
| LifeRules.LiveAroundStep | game/gameoflife.py:65-74 | examining one more cell adds it to the counted set exactly when it is an in-bounds live cell other than the centre |
| LifeRules.CountedAt | game/gameoflife.py:65-74 | the cell at offset (x, y) is the one the scan examines at step 3(x+1)+(y+1) |
| LifeRules.CountedBounds | game/gameoflife.py:63-75 | after k scanned cells the count is between 0 and k (k-1 once the cell itself was passed) |
| LifeRules.Neighbours | game/gameoflife.py:63-75 | the neighbour count is in 0..8, is the number of live in-bounds cells among the eight around the cell, and never counts the cell itself |
| LifeRules.NoLiveNoCount | game/gameoflife.py:63-75 | with no live cell the count is 0 |
| LifeRules.NextState | game/gameoflife.py:86-97 | a live cell survives iff 2 or 3 neighbours; a dead cell is born iff exactly 3; the result is 0 or 1 |
| LifeRules.Step | game/gameoflife.py:82-98 | one generation: exactly the 0/1-valued cells have an entry, each 0 or 1; a live cell stays live iff it has 2 or 3 live neighbours, a dead cell becomes live iff it has exactly 3 |
| LifeRules.StepKeepsBoard | game/gameoflife.py:82-98 | a 0/1 board on exactly the grid's cells stays one, with the same keys |
| LifeRules.AllDeadStaysDead | game/gameoflife.py:93-98 | an all-dead grid maps to an all-dead grid with the same keys |
| GameOfLife.BlankGrid | game/gameoflife.py:36-41 | the keys are exactly the cells of the 80 x 80 grid, all 0 |
| GameOfLife.InitLife | game/gameoflife.py:43-46 | the keys are kept and each value is the cell's random 0 or 1 |
| GameOfLife.GetNeighbours | game/gameoflife.py:63-75 | the result is the neighbour count: 0..8, live in-bounds cells around the cell, never the cell itself |
| GameOfLife.NextGeneration | game/gameoflife.py:82-98 | the new map applies the rules to every 0/1 cell; its keys are the 0/1-valued keys of the argument |
| GameOfLifeObject.GameOfLife.constructor | game/gameoflife2.py:18-30 | cell_width = width // cell_size and cell_height = height // cell_size; `life` has exactly that grid of keys, each a random 0 or 1 |
| GameOfLifeObject.GameOfLife.BlankGrid | game/gameoflife2.py:38-41 | every grid cell is set to 0; other keys keep their values |
| GameOfLifeObject.GameOfLife.InitLife | game/gameoflife2.py:43-45 | the key set is kept and each value is the cell's random 0 or 1 |
| GameOfLifeObject.GameOfLife.GetNeighbours | game/gameoflife2.py:64-76 | the neighbour count: 0..8, live in-bounds cells around the cell, never the cell itself |
| GameOfLifeObject.GameOfLife.NextGeneration | game/gameoflife2.py:83-99 | `life` becomes the rule-applied old grid; a valid board stays valid with the same keys |
| DrawGrid.Step | util/draw_grid.py:23-31 | the step is +1 exactly when the coordinate must grow, else -1 |
| DrawGrid.Abs | util/draw_grid.py:22-27 | dx = \|x1-x0\| ≥ 0, so dy = -\|y1-y0\| ≤ 0 |
| DrawGrid.DriftIsProduct | util/draw_grid.py:39-45 | the accumulated error change after i x-steps and j y-steps is dx·j + dy·i |
| DrawGrid.ErrorStep | util/draw_grid.py:39-45 | each turn moves at least one coordinate, and never one that has already arrived |
| DrawGrid.XExhausted | util/draw_grid.py:40-42 | once x has arrived the error test for an x-step fails |
| DrawGrid.YExhausted | util/draw_grid.py:43-45 | once y has arrived the error test for a y-step fails |
| DrawGrid.TrailStep | util/draw_grid.py:36-45 | plotting a pixel that is not the end and stepping on keeps the trail: unit steps, inside the box, end not yet met |
| DrawGrid.TrailEnd | util/draw_grid.py:36-38 | plotting the end point completes a unit-step line from the first point to the second |
| DrawGrid.PlotLine | util/draw_grid.py:19-45 | terminates for all integer end points; the first pixel is point1, the last is point2 and no earlier one is; each pixel moves x by 0 or sx and y by 0 or sy, never by nothing; all pixels lie in the box of the two points; at most \|dx\|+\|dy\|+1 pixels |
| Sudoku.EmptiesIsSixty | util/draw_Sudoku.py:141-142 | squares * 3 // 4 = 60 |
| Sudoku.Pattern | util/draw_Sudoku.py:117-118 | the pattern value is an index 0..8 |
| Sudoku.Order | util/draw_Sudoku.py:124-126 | the row/column order has nine entries |
| Sudoku.OrderIsPerm | util/draw_Sudoku.py:124-126 | the shuffled order is a permutation of 0..8 that keeps bands together |
| Sudoku.OrderEntry | util/draw_Sudoku.py:125 | position 3a + b is in band bands[a], at row inner[a][b] within it |
| Sudoku.OrderDistinct | util/draw_Sudoku.py:124-126 | two positions of the shuffled order hold different rows |
| Sudoku.OrderAt | util/draw_Sudoku.py:125 | position 3a + b of the order is row 3 bands[a] + inner[a][b] |
| Sudoku.Pigeonhole | util/draw_Sudoku.py:121-127 | a permutation of lo..lo+n-1 takes every value |
| Sudoku.PickAllOnce | util/draw_Sudoku.py:127-130 | nine distinct picks from a permutation of 1..9 hold each of 1..9 once |
| Sudoku.PatternRow | util/draw_Sudoku.py:117-118 | in a row, distinct columns give distinct pattern values |
| Sudoku.PatternColumn | util/draw_Sudoku.py:117-118 | in a column, distinct rows give distinct pattern values |
| Sudoku.PatternBox | util/draw_Sudoku.py:117-118 | inside a 3x3 box, distinct cells give distinct pattern values |
| Sudoku.Solved | util/draw_Sudoku.py:130 | the board comprehension is a 9 x 9 grid |
| Sudoku.Solution | util/draw_Sudoku.py:114-130 | the generated solution is a 9 x 9 grid |
| Sudoku.SolutionIsSudoku | util/draw_Sudoku.py:114-130 | with band- and stack-preserving orders and any numbering of 1..9, every row, column and box holds each of 1..9 once |
| Sudoku.RowsAllOnce | util/draw_Sudoku.py:117-130 | every row holds each of 1..9 once |
| Sudoku.ColumnsAllOnce | util/draw_Sudoku.py:117-130 | every column holds each of 1..9 once |
| Sudoku.BoxesAllOnce | util/draw_Sudoku.py:117-130 | every 3x3 box holds each of 1..9 once |
| Sudoku.BoxAllOnce | util/draw_Sudoku.py:117-130 | box b of the generated solution holds each of 1..9 once |
| Sudoku.Blanked | util/draw_Sudoku.py:141-144 | blanking keeps a 9 x 9 grid |
| Sudoku.BlankCount | util/draw_Sudoku.py:141-144 | the cells that are 0 after blanking are exactly the sampled ones, so their number is the number of distinct cells sampled (60) |
| Sudoku.BlankedAt | util/draw_Sudoku.py:143-144 | cell p is 0 after blanking exactly when p was sampled |
| Sudoku.BlankedStep | util/draw_Sudoku.py:143-144 | one more sampled cell p zeroes board[p // 9][p % 9] and nothing else |
| Sudoku.CellIndex | util/draw_Sudoku.py:237-239 | the floor quotient is in 0..9, picks the block holding the click, and is 9 only on the far edge |
| Sudoku.ZeroGrid | util/draw_Sudoku.py:98-102 | every cell is 0 |
| Sudoku.OverlayAll | util/draw_Sudoku.py:133-155 | the row-by-row writes set every board cell from the grid and keep every other key |
| Sudoku.OverlayKeys | util/draw_Sudoku.py:133-155 | after the writes the keys are the old keys plus the 81 board cells |
| Sudoku.SudokuBoard.constructor | util/draw_Sudoku.py:72-87 | (9, 9) is selected; board and solution have exactly the 81 cells; the solution is the generated one and the board is it with the sampled cells blanked |
| Sudoku.SudokuBoard.BlankBoard | util/draw_Sudoku.py:98-102 | all 81 cells of board and solution become 0; other keys and the selection are unchanged |
| Sudoku.SudokuBoard.GenerateNew | util/draw_Sudoku.py:113-155 | the solution map gets the generated grid and the board map the blanked grid |
| Sudoku.SudokuBoard.OnSelect | util/draw_Sudoku.py:234-245 | a click inside the board, edges included, selects ((px-startX)//blockSize, (py-startY)//blockSize); any other click leaves the selection alone; board and solution never change; false where Python divides by zero (a zero blockSize and a click on the board's corner) |
| Sudoku.SudokuBoard.SelectedRect | util/draw_Sudoku.py:159-166 | a rect is drawn exactly when both indices are in 0..8 and the board cell is 0; it is the selected cell's square |
| Sudoku.FreshBoardSelectsNothing | util/draw_Sudoku.py:159-162 | with (9, 9) selected nothing is drawn |
| Sudoku.PuzzleOfSolution | util/draw_Sudoku.py:133-155 | every board cell is 0 or its solution value, and exactly 60 cells are 0 |
| Sudoku.Fill | util/draw_Sudoku.py:133-155 | the map after the nested loops holds every grid value at its (x, y) and every other key unchanged |
| Cube.Ordinal | util/draw_cube.py:24-30 | every colour's number is in 0..5 |
| Cube.FromOrdinal | util/draw_cube.py:24-30 | `Color(n)` is the colour numbered n |
| Cube.Name | util/draw_cube.py:24-30 | a colour's name is the letter at its number's position in "URFDLB", so `Color(i).name` in `to_string` (line 126) is a cube-string letter |
| Cube.Named | util/draw_cube.py:122 | `Color[ch]` is the colour whose name is ch |
| Cube.Decode | util/draw_cube.py:120-122 | a cube string gives 54 facelet numbers |
| Cube.Encode | util/draw_cube.py:126 | one letter per facelet |
| Cube.SolvedFacelets | util/draw_cube.py:115-122 | the default cube has facelet i = i // 9: nine 0s, nine 1s, ..., nine 5s |
| Cube.EncodeDecode | util/draw_cube.py:120-126 | to_string(FaceCube(s)) is s (its first 54 letters) |
| Cube.DecodeEncode | util/draw_cube.py:120-126 | parsing what to_string wrote gives the same facelets |
| Cube.FaceCube.constructor | util/draw_cube.py:115-122 | `f` is the decoded string: 54 values in 0..5 |
| Cube.FaceCube.ToString | util/draw_cube.py:124-126 | a 54-letter cube string that parses back to `f` |
| Cube.DrawCubeFace.Layout | util/draw_cube.py:145-153 | the first n rects of the layout |
| Cube.DrawCubeFace.constructor | util/draw_cube.py:129-153 | cellsize = cell_size + 2, facesize = 3 cellsize; 54 rects; cell (xx, yy) of face g is at index 9g + 3yy + xx with origin (startX + gx facesize + xx cellsize, startY + gy facesize + yy cellsize) |
| Cube.DrawCubeFace.LayoutAppend | util/draw_cube.py:145-153 | the next rect appended by the nested loops is cell (n mod 3, n mod 9 div 3) of face n div 9 |
| Cube.DrawCubeFace.PaintCells | util/draw_cube.py:155-162 | on the constructor's layout, draw fills cell (xx, yy) of face g, the square at the cross position Grid[g] offset by xx and yy cell pitches, with facelet 9g + 3yy + xx of the cube string |
| Cube.DrawCubeFace.PaintSolved | util/draw_cube.py:155-162 | drawing the solved cube fills all nine cells of face g with colour g |
| HexGrid.GenHexagon | util/draw_hex.py:86-96 | seven vertices, the six corners in order and then the first again |
| HexGrid.Aabb | util/draw_hex.py:98-110 | (x_min, y_min, x_max-x_min, y_max-y_min) holds every point, and each side touches a point |
| HexGrid.InsideFrom | util/draw_hex.py:189-196 | the early-return loop from edge i is true iff D > 0 for every later edge |
| HexGrid.InsideHexagon | util/draw_hex.py:189-196 | `insideHexagon` is true iff D > 0 for every edge: the point is strictly left of each edge |
| HexGrid.VertexNotInside | util/draw_hex.py:189-196 | a vertex of the polygon is never inside |
| HexGrid.CnCrosses | util/draw_hex.py:154-158 | the crossing test of `hex_cn_PnPoly` holds iff the edge goes up past the point's height with the point strictly left of it, or down past it with the point strictly right of it (`RayCrosses`) |
| HexGrid.CollideCrosses | util/draw_hex.py:172-174 | the crossing test of `hex_collide` holds for exactly the same edges, `RayCrosses` |
| HexGrid.LessQuotient | util/draw_hex.py:157-158 | comparing with a quotient by d is comparing with the product by d, the inequality turning over for negative d |
| HexGrid.CrossingTestsAgree | util/draw_hex.py:154-174 | over exact arithmetic the two crossing tests agree on every edge |
| HexGrid.CnPnPoly | util/draw_hex.py:149-161 | the result is 0 or 1, the parity of the crossing count (the crossing test divides only on an edge that straddles the point's y, a well-formedness condition of the model) |
| HexGrid.HexCollide | util/draw_hex.py:164-178 | true iff the crossing count is odd, that is iff `hex_cn_PnPoly` returns 1 |
| HexGrid.CollideStep | util/draw_hex.py:167-176 | one more edge flips the parity of the crossing count exactly when `hex_collide`'s test holds for it |
| HexGrid.RemoveFirst | util/draw_hex.py:214 | `list.remove` drops one occurrence of t and nothing else |
| HexGrid.Toggle | util/draw_hex.py:213-216 | one click removes one occurrence of the target if it is selected and adds one otherwise; every other hex keeps its membership |
| HexGrid.ToggleFlips | util/draw_hex.py:212-216 | toggling flips the membership of the target only and brings in no duplicate |
| HexGrid.HexCell.constructor | util/draw_hex.py:62-67 | a cell with its index, outline, box, not highlighted |
| HexGrid.Hits | util/draw_hex.py:204-212 | at most one hit per hex |
| HexGrid.ToggleAllNoDuplicates | util/draw_hex.py:204-216 | toggling a sequence of targets brings in no duplicate |
| HexGrid.SingleHitFlips | util/draw_hex.py:210-216 | a click hitting one hex flips that hex's membership only |
| HexGrid.HexGridView.constructor | util/draw_hex.py:37-69 | a 20 x 20 grid of hexes row by row: entry k has index (k mod 20, k div 20), a closed seven-vertex outline from the corners of that hex and its tightest bounding box, not highlighted; visible, enabled, nothing selected |
| HexGrid.HexGridView.Point | util/draw_hex.py:201 | the point is the position relative to the grid's offsets: adding them back gives the position |
| HexGrid.HexGridView.HandleEvent | util/draw_hex.py:199-230 | a click toggles every hex whose box and outline contain the point; a motion sets each highlight to that test; nothing happens while hidden or disabled; no duplicate is brought in |
| HexGrid.HexGridView.ToggleHits | util/draw_hex.py:204-216 | the selection becomes the old one with each hit toggled in list order |
| HexGrid.HexGridView.HighlightHits | util/draw_hex.py:217-227 | each hex is highlighted exactly when its box and outline contain the point |
| HexGrid.HitsAppend | util/draw_hex.py:204-212 | scanning one more hex adds its target exactly when it is hit |
| HexGrid.ToggleAllAppend | util/draw_hex.py:204-216 | toggling one more target after a sequence is one more `Toggle` |
| HexGrid.ToggleStep | util/draw_hex.py:204-216 | one more scanned hex toggles its target after all earlier hits |

## Left out

- `math.sqrt` is the parameter `sqrt`, constrained only to return the non-negative root of a non-negative argument. Floating point is exact real arithmetic, and `==` on coordinates is exact equality.
- `heapq`'s array layout is not modelled. The heap is a sequence of entries and a pop removes the least one by (key, count). Only that order is observable.
- Python de-duplicates site pushes by object identity. `Site` carries the input position as its identity. Each event is a class instance, so identity is kept for events.
- `remove_entry` is modelled (`PriorityQueue.RemoveEntry`). The sweep never calls it.
- Voronoi.Voronoi.Process: runs with a `fuel` bound and returns `OutOfFuel` when it runs out. The source's termination depends on the geometry of the diagram and is not proved.
- Voronoi.Voronoi.SiteStep: states only that the model stays valid and grows. Which branch runs is stated by `EventFirst`, `ProcessEvent` and `ProcessPoint`, which it calls.
- Voronoi.Voronoi.ProcessEvent: for a valid event, it states only that one segment is appended. Unlinking the arc, finishing its two segments and rechecking its neighbours are stated by `Vanish`, relative to the state right after the pop that `PopEvent` describes. Restating them relative to the state before the pop is beyond the verifier's resource limit.
- Voronoi.Voronoi.ProcessPoint: the placement of the new arc (appended, split or raised) is stated by `FrontInsert`, relative to the state right after the pop. The pop changes only the site queue. ProcessPoint itself states the popped site, that the beach-line root is kept, and that a non-empty beach line does not yield `FirstArc`.
- Voronoi.Voronoi.Process: does not state that the output is a Voronoi diagram. Only per-operation contracts are proved.
- The beach-line arcs carry a ghost `rank` that orders them along the list and gives the list walks a termination measure. The source has no such field.
- The two quirks of `front_insert` are modelled as written:
  - when the new parabola also hits the old next arc, that arc drops out of the list (`CopyLast`);
  - the tail segment starts on the box's left edge at the mean height of the two foci.
- `finish_edges` on an empty beach line is a failure result (`FinishEdges` returns false). In the source it is an AttributeError.
- The UI and I/O of the Voronoi file are not modelled: `funcBottons`, `fortune_sweep`, the text-file reads and writes, `print_output`, `Segment.get`, `Point.get` and random point generation.
- Randomness is an input throughout:
  - `random.randint` in `initLife` is the `coin` parameter;
  - `sample`/`shuffle` in `generateNew` are permutations;
  - the 60 blanked cells are a list of distinct cell numbers.
- GameOfLife.GetNeighbours: requires every in-bounds cell of the grid to be a key (`Covers`). The source (game/gameoflife.py:68-70) raises KeyError only when one of the at most nine in-bounds cells around the item is missing, so the requirement is stronger than what raises. The grids `blankGrid` builds have every in-bounds key.
- GameOfLife.NextGeneration: requires `Covers`, like `GetNeighbours`, instead of modelling the KeyError as an outcome. The source (game/gameoflife.py:82-85) raises it only when some key has a missing in-bounds cell around it.
- GameOfLife.InitLife: returns the filled-in map instead of assigning into the caller's dictionary (game/gameoflife.py:43-46). `main`, which relies on the update in place and ignores the returned value (game/gameoflife.py:108), is not part of this model.
- GameOfLifeObject.GameOfLife.GetNeighbours: requires every in-bounds cell of the grid to be a key (`Covers`). The source (game/gameoflife2.py:69-71) raises KeyError only when one of the at most nine in-bounds cells around the item is missing, so the requirement is stronger than what raises. The grids `blankGrid` builds have every in-bounds key.
- GameOfLifeObject.GameOfLife.NextGeneration: requires `Covers`, like `GetNeighbours`, instead of modelling the KeyError as an outcome. The source (game/gameoflife2.py:83-86) raises it only when some key has a missing in-bounds cell around it.
- GameOfLifeObject.GameOfLife.constructor: requires a positive cell size. A zero size raises ZeroDivisionError in the source. A negative size is not meaningful for a screen grid.
- The game-of-life screen constants are the source's own (800 x 800 pixels, 10-pixel cells). The `assert`s that the sizes are multiples of the cell size hold for them.
- All pygame rendering is left out: surfaces, fonts, colours, `drawGrid`, `showLife`, `colourGrid`, the highlight cross and the event loops. So are the `draw` methods of `util/draw_Sudoku.py`, `util/draw_hex.py` and the GUI classes of `util/voronoi_fortune_algorithm.py`, and the empty `draw` of `draw_cube` (util/draw_cube.py:173-174). The `draw` of `draw_cube_face` (util/draw_cube.py:155-162) is modelled by `Cube.DrawCubeFace.Paint`. `pygame.Rect` is a 4-tuple of integers.
- `Rect.collidepoint` is the parameter `collide` of `HandleEvent`, so its library semantics are not modelled.
- HexGrid.Aabb: requires a non-empty point list. The source raises IndexError on `points[0]` for an empty list (util/draw_hex.py:99). Its only caller passes the seven vertices of a hexagon.
- HexGrid.HexGridView.Point: positions and offsets are integers. The source's `main` passes the float x offset `(screen_width - 500)/2` (util/draw_hex.py:241-244) and truncates the difference with `int()` (util/draw_hex.py:201). For whole-number offsets that truncation changes nothing; fractional offsets are not modelled.
- Cube.FromOrdinal: requires an ordinal from 0 to 5. `Color(n)` raises ValueError for any other value, which the cube's own facelets never hold.
- Cube.Named: requires one of the six letters URFDLB. `Color[ch]` raises KeyError for any other letter.
- Cube.FaceCube.constructor: requires a string of at least 54 letters from URFDLB. The source raises IndexError for a shorter string and KeyError for another letter (util/draw_cube.py:122); these are not modelled as outcomes.
- The trigonometry of `genHexagon` and the float-to-int hex centres are the parameter `corner`. The model proves the shape of the vertex list, not where the corners fall.
- Sudoku.SudokuBoard.OnSelect: a click outside the board goes to the number pad (`numberBoard.onSelected`), which is not part of this model. Only the board is stated to be unchanged.
- The `cube_solver` stub, the `numberBoard` buttons, the Sudoku number drawing and `pyimgui/hello_pyimgui.py` are not part of this model.
