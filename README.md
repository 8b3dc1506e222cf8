# locate-intersections in Dafny

A model of `locateIntersections` from frodare/locate-intersections. It is a
simplified Bentley–Ottmann plane sweep that finds the points where the edges
of a set of polylines cross. The model covers the whole algorithm in
`src/index.ts`:

- `geometry.dfy` (module `Geometry`): points, segments and the parametric
  intersection test `findIntersection`. Coordinates are exact reals.
- `events.dfy` (module `SweepEvents`): sweep events, the event comparator
  `priority`, and `fill`, which turns every edge into a start event and an
  end event. The events live in one sequence in the order `fill` pushes them.
  The `otherEvent` reference becomes the index of the partner event, so the
  events of the k-th edge sit at indices 2k and 2k + 1.
- `active.dfy` (module `ActiveSegments`): the active-segment record, the
  active-list comparator `segmentPriority`, the adjacency filter
  `isAdjoiningSegments`, and the inner loop of `sweep`, which tests a new
  segment against every active one.
- `sweep.dfy` (module `PlaneSweep`): the `sweep` driver and the entry point
  `locateIntersections`, plus three small clients (`PerpendicularLines`,
  `CrossingDiagonals`, `TwoEdgePolyline`).

Both priority queues are `TinyQueue` binary heaps in the source. The model
keeps only what a binary heap ordered by the source's comparators
guarantees:

- The event queue is the set of pending event indices. A pop yields some
  pending event with the least x, because `priority` orders by x whenever
  the x values differ. Which of several events with equal x comes first is
  left open. `priority` is consistent between two events of one line
  (`PrioritySameLine`); across lines, the line-26 tie-break makes it
  inconsistent. A binary heap compares a parent only with its children, so
  once that tie-break is involved, even two events of one line at equal x
  need not come out in `priority` order.
- The active list is a sequence. A pop removes some segment that no other
  active segment ends strictly before under `segmentPriority`. That segment
  need not be the one whose end event fired. Popping an empty list does
  nothing, as `TinyQueue.pop` does.

The sweep methods return ghost witnesses beside the points. For each point,
a ghost pair names the two start events, or the two edges, that produced it.

Points where the comparators are not the plain order "x, then y":

- `priority` adds a tie-break at equal x (src/index.ts:26): a start event of
  one line comes before an end event of another, whatever their y values.
  So it is not antisymmetric (`PriorityNotAntisymmetric`).
- `segmentPriority` orders far endpoints by y descending at equal x. It
  returns 1, never 0, when the far endpoints are equal.

The routine returns bare points (src/index.ts:96, 120, 125). The model
returns bare points too; the edge identities of each point exist only as
ghost witnesses.

## Model

| member | source | states |
|---|---|---|
| Geometry.FindIntersection | src/index.ts:69-77 | `findIntersection`, branch for branch over exact reals. It has no ensures of its own; its contract is stated by `FindIntersectionExact` (both directions against lying on both closed segments), `FindIntersectionSound`, `FindIntersectionComplete` and `ParallelNeverIntersects` |
| Geometry.ParallelNeverIntersects | src/index.ts:69-71 | when the determinant of the two direction vectors is zero (parallel or collinear, overlapping or not), no point is reported |
| Geometry.FindIntersectionSound | src/index.ts:69-76 | a reported point comes with a non-zero determinant and both parameters ua, ub in [0, 1]; it equals P1 + ua·(P2 − P1) and also P3 + ub·(P4 − P3), so it lies on both closed segments |
| Geometry.FindIntersectionComplete | src/index.ts:69-76 | for non-parallel segments, any point on both closed segments, at parameters t and u in [0, 1], is the point reported |
| Geometry.FindIntersectionExact | src/index.ts:69-76 | for non-parallel segments, a point is reported if and only if it lies on both closed segments |
| Geometry.FindIntersectionSymmetric | src/index.ts:69-76 | swapping the two segments does not change the answer |
| Geometry.FindIntersectionReverse | src/index.ts:69-76 | swapping the endpoints of the first segment does not change the answer |
| Geometry.FindIntersectionOrientationFree | src/index.ts:69-76 | any combination of reversing either segment and swapping the two segments gives the same answer |
| Geometry.SharedEndpointIsReported | src/index.ts:74-76 | the bounds are inclusive: two non-parallel segments where one ends where the other starts are reported at that shared endpoint |
| Geometry.PerpendicularCrossing | src/index.ts:69-76 | a vertical and a horizontal segment crossing at the origin are reported at the origin |
| SweepEvents.Priority | src/index.ts:21-29 | the comparator's result is always -1, 0 or 1 |
| SweepEvents.PriorityByX | src/index.ts:21-25 | when the x values differ, the sign is decided by x alone, and swapping the arguments negates it |
| SweepEvents.PriorityZero | src/index.ts:21-29 | the result is 0 exactly when the two vertices are equal and the start-before-end tie-break does not fire |
| SweepEvents.PriorityTieBreak | src/index.ts:26 | at equal x, a start event of one line comes before an end event of another line, whatever their y values |
| SweepEvents.PrioritySameLine | src/index.ts:21-29 | for two events of the same line, the result is positive exactly when the first vertex is after the second in the order "x, then y", and negative exactly when it is before |
| SweepEvents.PriorityNotAntisymmetric | src/index.ts:24-28 | a start at (0, 5) and an end of another line at (0, 0) each come before the other, so `priority` is not a total order |
| SweepEvents.Fill | src/index.ts:31-67 | produces 2 · (number of edges) events. Each pair references its partner and carries the edge's line index and first-vertex index. Exactly one event of each pair is a start. The first vertex of a pair is the start exactly when it is not after the second vertex. Every edge of every line has its pair, in line-then-edge order |
| SweepEvents.StartNotAfterPartner | src/index.ts:54-60 | a start event's vertex is never after its partner's vertex in the order "x, then y" |
| SweepEvents.StartCount | src/index.ts:54-60 | exactly one event of each pair is a start, so the first 2m events hold exactly m starts |
| SweepEvents.FollowingEventsCover | src/index.ts:32-62 | a full set of events numbered line by line and edge by edge contains the pair of every edge |
| ActiveSegments.SegmentPriority | src/index.ts:79-88 | `segmentPriority`, branch for branch. It has no ensures of its own; its contract is stated by `SegmentPriorityDecides` (never 0, -1 exactly when the first far endpoint ends before the second) and `SegmentPriorityTie` |
| ActiveSegments.SegmentPriorityDecides | src/index.ts:79-88 | `segmentPriority` never returns 0. It returns -1 exactly when the first far endpoint is before the second (x ascending, then y descending), and 1 otherwise |
| ActiveSegments.SegmentPriorityTie | src/index.ts:87 | two segments with the same far endpoint each rank after the other |
| ActiveSegments.EndsBeforeStrictOrder | src/index.ts:79-88 | the "ends before" relation behind `segmentPriority` is irreflexive, asymmetric and transitive |
| ActiveSegments.TopExists | src/index.ts:105-106 | a non-empty active list has a segment that no other active segment ends before, which is what the heap pops |
| ActiveSegments.IsAdjoining | src/index.ts:90-93 | `isAdjoiningSegments`, branch for branch. It has no ensures of its own; its contract is stated by `AdjoiningSymmetric` (symmetric, and exactly same line with vertex indices equal or one apart) |
| ActiveSegments.AdjoiningSymmetric | src/index.ts:90-93 | adjacency is symmetric, and holds exactly for the same line with vertex indices equal or one apart |
| ActiveSegments.ReportableSymmetric | src/index.ts:69-93 | whether a pair of segments passes the adjacency filter and the intersection test does not depend on which is tested against which |
| ActiveSegments.ConsecutiveEdgesMeetAtJoint | src/index.ts:90-93 | consecutive edges of one line, unless parallel, would be reported at their shared vertex, which is what the filter suppresses |
| ActiveSegments.CollectCrossings | src/index.ts:116-121 | each point found comes from a distinct, non-adjoining active segment for which the test reports that point, in list order, and every non-adjoining active segment for which the test reports a point gets its point |
| PlaneSweep.EarliestExists | src/index.ts:99-100 | a non-empty event queue has a pending event with the least x, which is what it pops |
| PlaneSweep.EndEvent | src/index.ts:105-108 | an end event removes one segment that is minimal under `segmentPriority`, not necessarily its own, from a non-empty active list, and nothing else changes; the set of started events is unchanged. On an empty list it does nothing and is counted. The sweep invariants are kept |
| PlaneSweep.StartEvent | src/index.ts:110-123 | a start event's segment runs from its vertex to its partner's vertex, and is appended to the active list. The new points are the earlier points followed by the points found, at most one per active segment. Each point found comes from one non-adjoining active segment the test reports it for, and every such active segment is among those tested with a point. The ghost pairs grow by exactly the pairs of this event with those active segments' events |
| PlaneSweep.SweepStep | src/index.ts:99-124 | one loop turn pops an event with the least pending x, appends it to the pop order, keeps every earlier point, and keeps the whole loop invariant: the sweep invariants, the pop order, and the completeness bookkeeping |
| PlaneSweep.OrderStep | src/index.ts:99-100 | popping an event with the least pending x keeps the pop order free of repeats, in non-decreasing x, and never to the right of a pending event |
| PlaneSweep.StartStepComplete | src/index.ts:116-123 | a start event popped while every earlier start is still active is tested against all of them, so every reportable pair of started events stays reported |
| PlaneSweep.SegmentOf | src/index.ts:110-114 | the record a start event becomes. It has no ensures of its own; `SegmentOfIsEdge` states that it is the event's input edge, possibly with its endpoints swapped |
| PlaneSweep.SegmentOfIsEdge | src/index.ts:110-114 | the segment built for an event is its edge of the input, possibly with its endpoints swapped |
| PlaneSweep.Sweep | src/index.ts:95-126 | each reported point comes from two distinct, non-adjoining start events whose segments the test reports it for. No unordered pair is reported twice. With E edges there are at most E·(E − 1)/2 points. If no edge is vertical or zero-length, no end event finds the active list empty. The events are popped each once, in non-decreasing x, and the event a point was found for was popped after its partner in the pair. If every start lies left of every end, every two start events whose segments are reportable are reported |
| PlaneSweep.EventX | src/index.ts:54-60 | for a non-vertical edge, its start event sits at the edge's left end and its end event at its right end |
| PlaneSweep.LeftEndsFirstStartsFirst | src/index.ts:54-62 | if every edge's left end lies left of every edge's right end, every start event lies left of every end event |
| PlaneSweep.EdgeCompleteness | src/index.ts:128-132 | when every reportable pair of start events is reported, every pair of distinct, non-adjoining edges for which the test reports a point is among the reported edge pairs |
| PlaneSweep.LocateIntersections | src/index.ts:128-132 | each point comes from two distinct, non-adjoining edges of the input; the test reports that point for them in drawing order, and it lies on both. No unordered pair of edges is reported twice. There are at most E·(E − 1)/2 points for E edges. Without vertical or zero-length edges, no segment-list pop is empty. If every edge's left end lies left of every edge's right end, every crossable pair of edges is reported |
| PlaneSweep.PerpendicularLines | src/index.ts:128-132 | for a vertical and a horizontal line crossing at the origin, at most one point is reported, and any reported point is the origin |
| PlaneSweep.CrossingDiagonals | src/index.ts:128-132 | the two diagonals from (−10, −10) to (10, 10) and from (−10, 10) to (10, −10) give exactly one point, the origin |
| PlaneSweep.CrossingsOfOneLine | src/index.ts:118 | within one line, only edges at least two vertices apart can be a reported pair |
| PlaneSweep.TwoEdgePolyline | src/index.ts:116-132 | a single polyline of two edges reports nothing, because its only pair of edges is adjoining |

## Left out

- `console.log` in the sweep loop (src/index.ts:103): output only, with no effect on the result.
- The internals of `TinyQueue`, a foreign library: the heap's array layout is not modelled. That layout fixes the order of events with equal x and the iteration order of `segmentList.data`, so the model makes no promise about the order of the reported points.
- IEEE-754 floating point: the `denom === 0` test and the divisions are exact over the reals, so rounding and non-finite coordinates are not modelled.
- The `event === undefined` break (src/index.ts:101): the loop runs only while the queue is non-empty, and the model's pop always yields an event.
- The `otherEvent === undefined` skip (src/index.ts:102): `Fill` never produces such an event, and `Sweep` requires fully paired events, so the branch cannot be reached and is not modelled.
- SweepEvents.Priority: its own contract states only the range of the result. A total-order property is not stated because the line-26 tie-break makes `priority` not antisymmetric; the guarded cases are lemmas instead.
- PlaneSweep.Sweep: states completeness only when every start lies strictly left of every end. In general, whether a crossing is found depends on the pop order at equal x and on which segment an end event removes; the model leaves both open.
- PlaneSweep.LocateIntersections: completeness is stated only when every edge's left end lies left of every edge's right end, for the same reason. Determinism, independence from input order, and the four-point regression fixture are not stated either, because the model's queue choices are nondeterministic; the fixture's polylines are also not part of this model.
- PlaneSweep.PerpendicularLines: does not state that the origin is found, though the program finds it. The vertical edge's two events share x = 0. The program's heap ranks them by y, start first (`PrioritySameLine`), but the model's queue promises only the least x, so it admits popping the end first, which removes the horizontal segment before the vertical one starts.
- test/locateIntersections.test.ts is not part of this model. It is an Excalidraw adapter plus timing loops, and it reads `.point` from results that the code returns as bare points.
