/**
 * Active segments: the segment record of the sweep, the ordering of the
 * active-segment heap (`segmentPriority`), the adjacency filter
 * (`isAdjoiningSegments`) and the test of a newly started segment against
 * every active one (the inner loop of `sweep`), all from src/index.ts.
 */
module ActiveSegments {
  import opened Geometry
  import opened SweepEvents

  /**
   * An edge open at the sweep line: its identity and its segment, start
   * vertex first; `segment.q` is the far endpoint, where it ends.
   */
  datatype ActiveSegment = ActiveSegment(lineIndex: nat, vertexIndex: nat, segment: Segment)

  /** `segmentPriority`: far endpoint by x ascending, then by y descending; 1 on a tie, never 0. */
  function SegmentPriority(a: ActiveSegment, b: ActiveSegment): int {
    var far1, far2 := a.segment.q, b.segment.q;
    if far1.x > far2.x then 1
    else if far1.x < far2.x then -1
    else if far1.y != far2.y then (if far1.y < far2.y then 1 else -1)
    else 1
  }

  /** `a` ends strictly before `b` in the active-segment order. */
  predicate EndsBefore(a: ActiveSegment, b: ActiveSegment) {
    var far1, far2 := a.segment.q, b.segment.q;
    far1.x < far2.x || (far1.x == far2.x && far1.y > far2.y)
  }

  /**
   * `segmentPriority` never returns 0: it returns -1 exactly when the first
   * segment ends strictly before the second, and 1 otherwise, ties included.
   */
  lemma SegmentPriorityDecides(a: ActiveSegment, b: ActiveSegment)
    ensures SegmentPriority(a, b) != 0
    ensures SegmentPriority(a, b) == -1 <==> EndsBefore(a, b)
    ensures SegmentPriority(a, b) == 1 <==> !EndsBefore(a, b)
  {
  }

  /** Segments with the same far endpoint each rank after the other. */
  lemma SegmentPriorityTie(a: ActiveSegment, b: ActiveSegment)
    requires a.segment.q == b.segment.q
    ensures SegmentPriority(a, b) == 1 && SegmentPriority(b, a) == 1
  {
  }

  /** "ends strictly before" is a strict order, so a non-empty heap has a least element. */
  lemma EndsBeforeStrictOrder(a: ActiveSegment, b: ActiveSegment, c: ActiveSegment)
    ensures !EndsBefore(a, a)
    ensures EndsBefore(a, b) ==> !EndsBefore(b, a)
    ensures EndsBefore(a, b) && EndsBefore(b, c) ==> EndsBefore(a, c)
  {
  }

  /** Position `r` holds a segment that no active segment ends strictly before. */
  predicate IsTop(active: seq<ActiveSegment>, r: int) {
    0 <= r < |active| &&
    forall t :: 0 <= t < |active| ==> SegmentPriority(active[t], active[r]) != -1
  }

  /** A non-empty list of active segments has a top, which the heap pops. */
  lemma {:induction false} TopExists(active: seq<ActiveSegment>)
    requires |active| > 0
    ensures exists r :: IsTop(active, r)
  {
    if |active| == 1 {
      assert IsTop(active, 0);
    } else {
      var init := active[..|active| - 1];
      var last := |active| - 1;
      TopExists(init);
      var r :| IsTop(init, r);
      if EndsBefore(active[last], active[r]) {
        forall t | 0 <= t < |active|
          ensures SegmentPriority(active[t], active[last]) != -1
        {
          if t < last {
            assert active[t] == init[t];
            EndsBeforeStrictOrder(active[t], active[last], active[r]);
          }
        }
        assert IsTop(active, last);
      } else {
        forall t | 0 <= t < |active|
          ensures SegmentPriority(active[t], active[r]) != -1
        {
          if t < last {
            assert active[t] == init[t];
          }
        }
        assert IsTop(active, r);
      }
    }
  }

  function Abs(n: int): nat {
    if n < 0 then -n else n
  }

  /** `isAdjoiningSegments`: same line and vertex indices at most one apart. */
  function IsAdjoining(a: ActiveSegment, b: ActiveSegment): bool {
    if a.lineIndex != b.lineIndex then false
    else Abs(a.vertexIndex - b.vertexIndex) <= 1
  }

  /** Adjacency is symmetric and holds exactly for the same edge or its neighbours in the same line. */
  lemma AdjoiningSymmetric(a: ActiveSegment, b: ActiveSegment)
    ensures IsAdjoining(a, b) == IsAdjoining(b, a)
    ensures IsAdjoining(a, b) <==>
      a.lineIndex == b.lineIndex &&
      (a.vertexIndex == b.vertexIndex || a.vertexIndex == b.vertexIndex + 1 || b.vertexIndex == a.vertexIndex + 1)
  {
  }

  /**
   * Why the filter exists: consecutive edges of one line share a vertex, and
   * unless they are parallel the intersection test reports that vertex.
   */
  lemma ConsecutiveEdgesMeetAtJoint(lines: seq<Line>, l: nat, v: nat)
    requires l < |lines| && v + 1 < EdgeCount(lines[l])
    requires Denom(Edge(lines, l, v), Edge(lines, l, v + 1)) != 0.0
    ensures FindIntersection(Edge(lines, l, v), Edge(lines, l, v + 1)) == Some(lines[l][v + 1])
  {
    SharedEndpointIsReported(Edge(lines, l, v), Edge(lines, l, v + 1));
  }

  /** `s` and `other` are not adjoining and the intersection test reports a point for them. */
  predicate Reportable(s: ActiveSegment, other: ActiveSegment) {
    !IsAdjoining(s, other) && FindIntersection(s.segment, other.segment).Some?
  }

  /** Whether a pair is reported does not depend on which segment is tested first. */
  lemma ReportableSymmetric(s: ActiveSegment, other: ActiveSegment)
    ensures Reportable(s, other) == Reportable(other, s)
  {
    AdjoiningSymmetric(s, other);
    FindIntersectionSymmetric(s.segment, other.segment);
  }

  /**
   * The inner loop of `sweep`: test `s` against every active segment, skip
   * adjoining ones, and collect every point the intersection test reports.
   * `slots` are the positions in `active` at which a point was found.
   */
  method CollectCrossings(s: ActiveSegment, active: seq<ActiveSegment>)
    returns (found: seq<Point>, ghost slots: seq<nat>)
    ensures |found| == |slots| <= |active|
    ensures forall k :: 0 <= k < |slots| ==>
      slots[k] < |active| && !IsAdjoining(s, active[slots[k]]) &&
      FindIntersection(s.segment, active[slots[k]].segment) == Some(found[k])
    ensures forall k, m :: 0 <= k < m < |slots| ==> slots[k] < slots[m]
    ensures forall t :: 0 <= t < |active| && Reportable(s, active[t]) ==> t in slots
    ensures forall p :: p in found ==>
      exists t :: 0 <= t < |active| && !IsAdjoining(s, active[t]) && FindIntersection(s.segment, active[t].segment) == Some(p)
  {
    found, slots := [], [];
    var i := 0;
    while i < |active|
      invariant 0 <= i <= |active|
      invariant |found| == |slots| <= i
      invariant forall k :: 0 <= k < |slots| ==>
        slots[k] < i && !IsAdjoining(s, active[slots[k]]) &&
        FindIntersection(s.segment, active[slots[k]].segment) == Some(found[k])
      invariant forall k, m :: 0 <= k < m < |slots| ==> slots[k] < slots[m]
      invariant forall t :: 0 <= t < i && Reportable(s, active[t]) ==> t in slots
    {
      var otherSegment := active[i];
      if !IsAdjoining(s, otherSegment) {
        var intersection := FindIntersection(s.segment, otherSegment.segment);
        if intersection.Some? {
          found := found + [intersection.value];
          slots := slots + [i];
        }
      }
      i := i + 1;
    }
    forall p | p in found
      ensures exists t :: 0 <= t < |active| && !IsAdjoining(s, active[t]) && FindIntersection(s.segment, active[t].segment) == Some(p)
    {
      var k :| 0 <= k < |found| && found[k] == p;
      assert slots[k] < |active|;
    }
  }
}
