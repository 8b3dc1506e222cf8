/**
 * Sweep events, the event comparator `priority` and the event generator
 * `fill` of src/index.ts.
 *
 * The source links the two events of an edge by object references
 * (`otherEvent`). Here the events live in one sequence in the order `fill`
 * pushes them, and `otherEvent` holds the index of the partner: the events
 * of the k-th edge are at indices 2k and 2k + 1.
 */
module SweepEvents {
  import opened Geometry

  /** A polyline: its consecutive vertices define its edges. */
  type Line = seq<Point>

  /**
   * One endpoint of an edge. `lineIndex` and `vertexIndex` identify the edge
   * (`vertexIndex` is the index of its first vertex); `otherEvent` is the
   * index of the partner event, absent only while `fill` builds the pair.
   */
  datatype SweepEvent = SweepEvent(
    vertex: Point,
    lineIndex: nat,
    vertexIndex: nat,
    otherEvent: Option<nat>,
    isStart: bool)

  /** `p` comes after `q` in the order "x, then y". */
  predicate LexGreater(p: Point, q: Point) {
    p.x > q.x || (p.x == q.x && p.y > q.y)
  }

  /** `priority`: by x; then a start of one line before an end of another; then by y. */
  function Priority(e1: SweepEvent, e2: SweepEvent): (r: int)
    ensures -1 <= r <= 1
  {
    if e1.vertex.x > e2.vertex.x then 1
    else if e1.vertex.x < e2.vertex.x then -1
    else if e1.lineIndex != e2.lineIndex && e1.isStart && !e2.isStart then -1
    else if e1.vertex.y == e2.vertex.y then 0
    else if e1.vertex.y > e2.vertex.y then 1
    else -1
  }

  /** The tie-break of `priority` that fires at equal x. */
  predicate StartBeforeEnd(e1: SweepEvent, e2: SweepEvent) {
    e1.lineIndex != e2.lineIndex && e1.isStart && !e2.isStart
  }

  /** When the x coordinates differ, `priority` is decided by x alone. */
  lemma PriorityByX(e1: SweepEvent, e2: SweepEvent)
    requires e1.vertex.x != e2.vertex.x
    ensures Priority(e1, e2) == (if e1.vertex.x < e2.vertex.x then -1 else 1)
    ensures Priority(e1, e2) == -Priority(e2, e1)
  {
  }

  /** `priority` is 0 only for equal points on which the start/end tie-break does not fire. */
  lemma PriorityZero(e1: SweepEvent, e2: SweepEvent)
    ensures Priority(e1, e2) == 0 <==> e1.vertex == e2.vertex && !StartBeforeEnd(e1, e2)
  {
  }

  /** At equal x, a start of one line precedes an end of another line whatever the y values. */
  lemma PriorityTieBreak(e1: SweepEvent, e2: SweepEvent)
    requires e1.vertex.x == e2.vertex.x && StartBeforeEnd(e1, e2)
    ensures Priority(e1, e2) == -1
  {
  }

  /** Between two events of the same line, `priority` is the order "x, then y". */
  lemma PrioritySameLine(e1: SweepEvent, e2: SweepEvent)
    requires e1.lineIndex == e2.lineIndex
    ensures Priority(e1, e2) > 0 <==> LexGreater(e1.vertex, e2.vertex)
    ensures Priority(e1, e2) < 0 <==> LexGreater(e2.vertex, e1.vertex)
  {
  }

  /**
   * `priority` is not antisymmetric, so it is not a total order: a start at
   * (0, 5) and an end of another line at (0, 0) each precede the other.
   */
  lemma PriorityNotAntisymmetric()
    ensures var a := SweepEvent(Point(0.0, 5.0), 0, 0, None, true);
            var b := SweepEvent(Point(0.0, 0.0), 1, 0, None, false);
            Priority(a, b) == -1 && Priority(b, a) == -1
  {
  }

  /** Number of edges of a line: `length - 1`, none for fewer than two vertices. */
  function EdgeCount(line: Line): nat {
    if |line| > 0 then |line| - 1 else 0
  }

  /** Number of edges of the first `l` lines. */
  function EdgeBase(lines: seq<Line>, l: nat): nat
    requires l <= |lines|
  {
    if l == 0 then 0 else EdgeBase(lines, l - 1) + EdgeCount(lines[l - 1])
  }

  /** Number of edges of all lines. */
  function NumEdges(lines: seq<Line>): nat {
    EdgeBase(lines, |lines|)
  }

  /** The drawing-order segment of edge `v` of line `l`. */
  function Edge(lines: seq<Line>, l: nat, v: nat): Segment
    requires l < |lines| && v < EdgeCount(lines[l])
  {
    Segment(lines[l][v], lines[l][v + 1])
  }

  /** The index of the other event of the pair that index `i` belongs to. */
  function Partner(i: nat): nat {
    if i % 2 == 0 then i + 1 else i - 1
  }

  /**
   * Events `i` and `Partner(i)` reference each other, carry the same edge
   * identity, and exactly one is a start; the first event of the pair is the
   * start exactly when its vertex is not after its partner's.
   */
  predicate PairedAt(events: seq<SweepEvent>, i: nat)
    requires i < |events| && |events| % 2 == 0
  {
    var j := Partner(i);
    events[i].otherEvent == Some(j) &&
    events[i].lineIndex == events[j].lineIndex &&
    events[i].vertexIndex == events[j].vertexIndex &&
    events[i].isStart != events[j].isStart &&
    (i % 2 == 0 ==> (events[i].isStart <==> !LexGreater(events[i].vertex, events[j].vertex)))
  }

  predicate PairedEvents(events: seq<SweepEvent>) {
    |events| % 2 == 0 &&
    forall i :: 0 <= i < |events| ==> PairedAt(events, i)
  }

  /**
   * Every event names an existing edge, sits in the pair of that edge (pairs
   * are numbered line by line, edge by edge), and its vertex is the edge's
   * first vertex at even indices and its second at odd ones.
   */
  predicate FollowsLines(lines: seq<Line>, events: seq<SweepEvent>) {
    forall i :: 0 <= i < |events| ==>
      var e := events[i];
      e.lineIndex < |lines| &&
      e.vertexIndex < EdgeCount(lines[e.lineIndex]) &&
      i / 2 == EdgeBase(lines, e.lineIndex) + e.vertexIndex &&
      e.vertex == lines[e.lineIndex][e.vertexIndex + i % 2]
  }

  /** Index of the first event of the pair of edge `v` of line `l`. */
  function FirstEventOf(lines: seq<Line>, l: nat, v: nat): nat
    requires l < |lines|
  {
    2 * (EdgeBase(lines, l) + v)
  }

  /** Every edge has its pair of events. */
  predicate CoversEdges(lines: seq<Line>, events: seq<SweepEvent>) {
    forall l, v :: 0 <= l < |lines| && 0 <= v < EdgeCount(lines[l]) ==>
      FirstEventOf(lines, l, v) + 1 < |events| &&
      events[FirstEventOf(lines, l, v)].lineIndex == l &&
      events[FirstEventOf(lines, l, v)].vertexIndex == v
  }

  lemma {:induction false} EdgeBaseMonotone(lines: seq<Line>, l1: nat, l2: nat)
    requires l1 <= l2 <= |lines|
    ensures EdgeBase(lines, l1) <= EdgeBase(lines, l2)
    decreases l2
  {
    if l1 < l2 {
      EdgeBaseMonotone(lines, l1, l2 - 1);
    }
  }

  /** Edge `v` of line `l` gets slot `EdgeBase(l) + v`, and different edges get different slots. */
  lemma EdgeSlotsDistinct(lines: seq<Line>, l1: nat, v1: nat, l2: nat, v2: nat)
    requires l1 < |lines| && v1 < EdgeCount(lines[l1])
    requires l2 < |lines| && v2 < EdgeCount(lines[l2])
    requires EdgeBase(lines, l1) + v1 == EdgeBase(lines, l2) + v2
    ensures l1 == l2 && v1 == v2
  {
    if l1 < l2 {
      EdgeBaseMonotone(lines, l1 + 1, l2);
    } else if l2 < l1 {
      EdgeBaseMonotone(lines, l2 + 1, l1);
    }
  }

  /** A full set of events that follows the lines has a pair for every edge. */
  lemma FollowingEventsCover(lines: seq<Line>, events: seq<SweepEvent>)
    requires |events| == 2 * NumEdges(lines)
    requires FollowsLines(lines, events)
    ensures CoversEdges(lines, events)
  {
    forall l, v | 0 <= l < |lines| && 0 <= v < EdgeCount(lines[l])
      ensures FirstEventOf(lines, l, v) + 1 < |events|
      ensures events[FirstEventOf(lines, l, v)].lineIndex == l
      ensures events[FirstEventOf(lines, l, v)].vertexIndex == v
    {
      EdgeBaseMonotone(lines, l + 1, |lines|);
      var i := FirstEventOf(lines, l, v);
      var e := events[i];
      assert i / 2 == EdgeBase(lines, e.lineIndex) + e.vertexIndex;
      EdgeSlotsDistinct(lines, l, v, e.lineIndex, e.vertexIndex);
    }
  }

  /** Appending the two events of the next edge keeps both invariants of `fill`. */
  lemma AppendEdgeEvents(lines: seq<Line>, events: seq<SweepEvent>, l: nat, v: nat,
                         e1: SweepEvent, e2: SweepEvent)
    requires PairedEvents(events) && FollowsLines(lines, events)
    requires l < |lines| && v < EdgeCount(lines[l])
    requires |events| == 2 * (EdgeBase(lines, l) + v)
    requires e1.vertex == lines[l][v] && e2.vertex == lines[l][v + 1]
    requires e1.lineIndex == e2.lineIndex == l && e1.vertexIndex == e2.vertexIndex == v
    requires e1.otherEvent == Some(|events| + 1) && e2.otherEvent == Some(|events|)
    requires e1.isStart == !LexGreater(e1.vertex, e2.vertex) && e2.isStart == !e1.isStart
    ensures PairedEvents(events + [e1, e2]) && FollowsLines(lines, events + [e1, e2])
  {
    var n := |events|;
    var es := events + [e1, e2];
    forall i | 0 <= i < |es|
      ensures PairedAt(es, i)
    {
      if i < n {
        assert PairedAt(events, i);
        assert Partner(i) < n;
      }
    }
  }

  /**
   * `fill`: for every edge of every line, in order, two events with the
   * edge's identity that reference each other; the start is the one whose
   * vertex is not after the other's (the first vertex on a tie).
   */
  method Fill(lines: seq<Line>) returns (events: seq<SweepEvent>)
    ensures |events| == 2 * NumEdges(lines)
    ensures PairedEvents(events)
    ensures FollowsLines(lines, events)
    ensures CoversEdges(lines, events)
  {
    events := [];
    var lineIndex := 0;
    while lineIndex < |lines|
      invariant 0 <= lineIndex <= |lines|
      invariant |events| == 2 * EdgeBase(lines, lineIndex)
      invariant PairedEvents(events)
      invariant FollowsLines(lines, events)
    {
      var line := lines[lineIndex];
      // The source reads `line[0]` even for an empty line; it is unused then.
      var vertex := if |line| > 0 then line[0] else Point(0.0, 0.0);
      var vertexIndex := 0;
      while vertexIndex < |line| - 1
        invariant 0 <= vertexIndex <= EdgeCount(line)
        invariant vertexIndex < |line| ==> vertex == line[vertexIndex]
        invariant |events| == 2 * (EdgeBase(lines, lineIndex) + vertexIndex)
        invariant PairedEvents(events)
        invariant FollowsLines(lines, events)
      {
        var nextVertex := line[vertexIndex + 1];
        var n := |events|;
        var e1 := SweepEvent(vertex, lineIndex, vertexIndex, None, true);
        var e2 := SweepEvent(nextVertex, lineIndex, vertexIndex, Some(n), false);
        e1 := e1.(otherEvent := Some(n + 1));
        PrioritySameLine(e1, e2);
        if Priority(e1, e2) > 0 {
          e2 := e2.(isStart := true);
          e1 := e1.(isStart := false);
        } else {
          e1 := e1.(isStart := true);
          e2 := e2.(isStart := false);
        }
        AppendEdgeEvents(lines, events, lineIndex, vertexIndex, e1, e2);
        events := events + [e1, e2];
        vertex := nextVertex;
        vertexIndex := vertexIndex + 1;
      }
      lineIndex := lineIndex + 1;
    }
    FollowingEventsCover(lines, events);
  }

  /** The start event's vertex is never after its partner's, in the order "x, then y". */
  lemma StartNotAfterPartner(events: seq<SweepEvent>, i: nat)
    requires PairedEvents(events) && i < |events| && events[i].isStart
    ensures !LexGreater(events[i].vertex, events[Partner(i)].vertex)
  {
    assert PairedAt(events, i);
    if i % 2 == 1 {
      assert PairedAt(events, i - 1);
    }
  }

  /** The indices of the start events among the first `2 * m` events. */
  function StartsBelow(events: seq<SweepEvent>, m: nat): set<nat>
    requires 2 * m <= |events|
  {
    set i: nat | i < 2 * m && events[i].isStart
  }

  /** Exactly one event of each pair is a start, so there are as many starts as edges. */
  lemma {:induction false} StartCount(events: seq<SweepEvent>, m: nat)
    requires PairedEvents(events) && 2 * m <= |events|
    ensures |StartsBelow(events, m)| == m
  {
    if m > 0 {
      StartCount(events, m - 1);
      var i := 2 * (m - 1);
      assert PairedAt(events, i);
      var s := if events[i].isStart then i else i + 1;
      assert StartsBelow(events, m) == StartsBelow(events, m - 1) + {s};
    } else {
      assert StartsBelow(events, m) == {};
    }
  }
}
