/**
 * The sweep driver `sweep` and the entry point `locateIntersections` of
 * src/index.ts.
 *
 * The event queue and the active-segment list are `TinyQueue` binary heaps
 * in the source, a library whose internals are not part of this model. They
 * are modelled by what a binary heap ordered by the two comparators
 * guarantees:
 *  - the event queue is the set `pending` of indices of events not yet
 *    popped; a pop yields some pending event with the least x, because
 *    `priority` orders by x whenever the x values differ (which event among
 *    equal x comes first is left open: `priority` is consistent there
 *    between events of one line (`PrioritySameLine`), but the line-26
 *    tie-break makes it inconsistent across lines);
 *  - the active-segment list is a sequence; a pop removes some segment that
 *    no other active segment ends strictly before (`IsTop`), and popping an
 *    empty list does nothing. The sequence's order is not the heap's array
 *    order, so nothing below depends on the order of the reported points.
 */
module PlaneSweep {
  import opened Geometry
  import opened SweepEvents
  import opened ActiveSegments

  /** The active-segment record `sweep` builds for start event `a`: its vertex, then its partner's. */
  function SegmentOf(events: seq<SweepEvent>, a: nat): ActiveSegment
    requires PairedEvents(events) && a < |events|
  {
    assert PairedAt(events, a);
    var e := events[a];
    ActiveSegment(e.lineIndex, e.vertexIndex, Segment(e.vertex, events[e.otherEvent.value].vertex))
  }

  /** All event indices below `n`: the queue after `fill`. */
  function Indices(n: nat): (r: set<nat>)
    ensures forall i :: i in r <==> 0 <= i < n
  {
    if n == 0 then {} else Indices(n - 1) + {n - 1}
  }

  /** Event `k` is pending and no pending event has a smaller x. */
  predicate IsEarliest(events: seq<SweepEvent>, pending: set<nat>, k: nat) {
    k in pending && k < |events| &&
    forall m :: m in pending && m < |events| ==> events[k].vertex.x <= events[m].vertex.x
  }

  /** A non-empty event queue has an event with the least x. */
  lemma {:induction false} EarliestExists(events: seq<SweepEvent>, pending: set<nat>)
    requires pending != {} && forall m :: m in pending ==> m < |events|
    ensures exists k :: IsEarliest(events, pending, k)
    decreases |pending|
  {
    var y :| y in pending;
    if pending == {y} {
      assert IsEarliest(events, pending, y);
    } else {
      var rest := pending - {y};
      EarliestExists(events, rest);
      var k: nat :| IsEarliest(events, rest, k);
      if events[y].vertex.x < events[k].vertex.x {
        assert IsEarliest(events, pending, y);
      } else {
        assert IsEarliest(events, pending, k);
      }
    }
  }

  /** Some edge has both endpoints at the same x: it is vertical or has length zero. */
  ghost predicate HasVerticalEdge(events: seq<SweepEvent>) {
    exists i :: 0 <= i < |events| && Partner(i) < |events| &&
      events[i].vertex.x == events[Partner(i)].vertex.x
  }

  /**
   * The two start events `pr` each yield a segment; the segments are not
   * adjoining and the intersection test, new segment first, reports `p`.
   */
  ghost predicate ReportedPair(events: seq<SweepEvent>, pr: (nat, nat), p: Point)
    requires PairedEvents(events)
  {
    pr.0 < |events| && pr.1 < |events| && pr.0 != pr.1 &&
    events[pr.0].isStart && events[pr.1].isStart &&
    !IsAdjoining(SegmentOf(events, pr.0), SegmentOf(events, pr.1)) &&
    FindIntersection(SegmentOf(events, pr.0).segment, SegmentOf(events, pr.1).segment) == Some(p)
  }

  /** The same unordered pair. */
  predicate SamePair<T(==)>(p1: (T, T), p2: (T, T)) {
    p1 == p2 || p1 == (p2.1, p2.0)
  }

  // Invariants of the sweep loop, in three groups.

  /** `started` is exactly the set of start events popped so far. */
  ghost predicate StartedInv(events: seq<SweepEvent>, pending: set<nat>, started: set<nat>) {
    (forall m :: m in pending ==> m < |events|) &&
    (forall i :: i in started <==> 0 <= i < |events| && i !in pending && events[i].isStart)
  }

  /**
   * The active list holds the segments of distinct popped start events,
   * listed in `activeIds`.
   */
  ghost predicate ActiveInv(events: seq<SweepEvent>, pending: set<nat>, active: seq<ActiveSegment>,
                            activeIds: seq<nat>, started: set<nat>)
    requires PairedEvents(events)
  {
    StartedInv(events, pending, started) &&
    |activeIds| == |active| &&
    (forall t :: 0 <= t < |activeIds| ==>
       activeIds[t] in started && activeIds[t] < |events| && active[t] == SegmentOf(events, activeIds[t])) &&
    (forall t, u :: 0 <= t < u < |activeIds| ==> activeIds[t] != activeIds[u])
  }

  /**
   * Every reported point comes from a pair of started edges, no unordered
   * pair twice, and after S starts there are at most S * (S - 1) / 2 points.
   */
  ghost predicate ReportInv(events: seq<SweepEvent>, started: set<nat>, points: seq<Point>, pairs: seq<(nat, nat)>)
    requires PairedEvents(events)
  {
    |pairs| == |points| &&
    (forall k :: 0 <= k < |pairs| ==>
       ReportedPair(events, pairs[k], points[k]) && pairs[k].0 in started && pairs[k].1 in started) &&
    (forall k, m :: 0 <= k < m < |pairs| ==> !SamePair(pairs[k], pairs[m])) &&
    2 * |points| <= |started| * (|started| - 1)
  }

  /**
   * Bookkeeping of the end events: `activeCount` is the starts minus the
   * pops that removed something; `normalEnded` holds the edges whose end came
   * after their start, `premature` counts the other end events, and every
   * pop that found the list empty is matched by a premature end.
   */
  ghost predicate PopInv(events: seq<SweepEvent>, pending: set<nat>, activeCount: nat, started: set<nat>,
                         normalEnded: set<nat>, nonEmptyPops: nat, emptyPops: nat, premature: nat)
  {
    activeCount + nonEmptyPops == |started| &&
    normalEnded <= started &&
    (forall s :: s in normalEnded ==> Partner(s) !in pending) &&
    |normalEnded| + premature == nonEmptyPops + emptyPops &&
    emptyPops <= premature &&
    (premature > 0 ==> HasVerticalEdge(events))
  }

  lemma SubsetCard<T>(a: set<T>, b: set<T>)
    requires a <= b
    ensures |a| <= |b|
  {
    assert b == a + (b - a);
  }

  /** Popping an end event removes nothing from `started` and keeps the active list consistent. */
  lemma EndStepActive(events: seq<SweepEvent>, pending: set<nat>, active: seq<ActiveSegment>,
                      activeIds: seq<nat>, started: set<nat>, k: nat)
    requires PairedEvents(events) && ActiveInv(events, pending, active, activeIds, started)
    requires k in pending && k < |events| && !events[k].isStart
    ensures ActiveInv(events, pending - {k}, active, activeIds, started)
  {
  }

  /** Removing the segment at position `r` keeps the active list consistent. */
  lemma RemoveKeepsActiveInv(events: seq<SweepEvent>, pending: set<nat>, active: seq<ActiveSegment>,
                             activeIds: seq<nat>, started: set<nat>, r: nat)
    requires PairedEvents(events) && ActiveInv(events, pending, active, activeIds, started)
    requires r < |active|
    ensures ActiveInv(events, pending, active[..r] + active[r + 1..], activeIds[..r] + activeIds[r + 1..], started)
  {
    var ids := activeIds[..r] + activeIds[r + 1..];
    var segs := active[..r] + active[r + 1..];
    assert forall t :: 0 <= t < |ids| ==> ids[t] == activeIds[if t < r then t else t + 1];
    assert forall t :: 0 <= t < |segs| ==> segs[t] == active[if t < r then t else t + 1];
  }

  /**
   * Popping end event `k` keeps the bookkeeping: an empty pop at an end whose
   * start was popped is impossible unless an earlier premature end took a
   * segment, and a premature end exists only for an edge with equal x at
   * both ends, because the queue yields a start no later in x than its end.
   */
  lemma EndStepPop(events: seq<SweepEvent>, pending: set<nat>, activeCount: nat, started: set<nat>,
                   normalEnded: set<nat>, nonEmptyPops: nat, emptyPops: nat, premature: nat, k: nat)
    requires PairedEvents(events) && StartedInv(events, pending, started)
    requires PopInv(events, pending, activeCount, started, normalEnded, nonEmptyPops, emptyPops, premature)
    requires IsEarliest(events, pending, k) && !events[k].isStart
    ensures var normal := Partner(k) in started;
      PopInv(events, pending - {k}, if activeCount > 0 then activeCount - 1 else 0, started,
             if normal then normalEnded + {Partner(k)} else normalEnded,
             if activeCount > 0 then nonEmptyPops + 1 else nonEmptyPops,
             if activeCount > 0 then emptyPops else emptyPops + 1,
             if normal then premature else premature + 1)
  {
    assert PairedAt(events, k);
    var j := Partner(k);
    assert Partner(j) == k;
    assert events[j].isStart;
    if j in started {
      assert j !in normalEnded;
      SubsetCard(normalEnded + {j}, started);
    } else {
      assert j in pending;
      StartNotAfterPartner(events, j);
      assert events[k].vertex.x <= events[j].vertex.x;
      assert events[j].vertex.x == events[Partner(j)].vertex.x;
      assert HasVerticalEdge(events);
    }
  }

  /** The pairs a new start event `k` forms with the active segments at `slots`. */
  ghost function NewPairs(k: nat, activeIds: seq<nat>, slots: seq<nat>): seq<(nat, nat)>
    requires forall m :: 0 <= m < |slots| ==> slots[m] < |activeIds|
  {
    seq(|slots|, m requires 0 <= m < |slots| => (k, activeIds[slots[m]]))
  }

  lemma TriangleStep(s: nat, p: nat, f: nat)
    requires 2 * p <= s * (s - 1) && f <= s
    ensures 2 * (p + f) <= (s + 1) * s
  {
  }

  /** Appending the segment of a newly popped start event keeps the active list consistent. */
  lemma AppendKeepsActiveInv(events: seq<SweepEvent>, pending: set<nat>, active: seq<ActiveSegment>,
                             activeIds: seq<nat>, started: set<nat>, k: nat)
    requires PairedEvents(events) && ActiveInv(events, pending, active, activeIds, started)
    requires k in pending && k < |events| && events[k].isStart
    ensures ActiveInv(events, pending - {k}, active + [SegmentOf(events, k)], activeIds + [k], started + {k})
  {
    var ids' := activeIds + [k];
    var segs' := active + [SegmentOf(events, k)];
    assert forall t :: 0 <= t < |activeIds| ==> ids'[t] == activeIds[t] && segs'[t] == active[t];
  }

  /** The segment of `k` and the active segments at `slots` gave the points `found`. */
  ghost predicate CrossingsOf(events: seq<SweepEvent>, k: nat, active: seq<ActiveSegment>,
                              found: seq<Point>, slots: seq<nat>)
    requires PairedEvents(events) && k < |events|
  {
    |found| == |slots| <= |active| &&
    (forall m :: 0 <= m < |slots| ==>
      slots[m] < |active| && !IsAdjoining(SegmentOf(events, k), active[slots[m]]) &&
      FindIntersection(SegmentOf(events, k).segment, active[slots[m]].segment) == Some(found[m])) &&
    (forall m, m' :: 0 <= m < m' < |slots| ==> slots[m] < slots[m'])
  }

  /** Each new pair is reported correctly and consists of started edges. */
  lemma NewPairsReported(events: seq<SweepEvent>, pending: set<nat>, active: seq<ActiveSegment>,
                         activeIds: seq<nat>, started: set<nat>, k: nat, found: seq<Point>, slots: seq<nat>)
    requires PairedEvents(events) && ActiveInv(events, pending, active, activeIds, started)
    requires k in pending && k < |events| && events[k].isStart
    requires CrossingsOf(events, k, active, found, slots)
    ensures forall m :: 0 <= m < |slots| ==>
      ReportedPair(events, NewPairs(k, activeIds, slots)[m], found[m]) &&
      NewPairs(k, activeIds, slots)[m].0 == k && NewPairs(k, activeIds, slots)[m].1 in started
  {
    var np := NewPairs(k, activeIds, slots);
    assert k !in started;
    forall m | 0 <= m < |np|
      ensures ReportedPair(events, np[m], found[m]) && np[m].0 == k && np[m].1 in started
    {
      var b := activeIds[slots[m]];
      assert b in started;
      assert active[slots[m]] == SegmentOf(events, b);
    }
  }

  /** The new pairs differ from each other and, as unordered pairs, from all earlier ones. */
  lemma NewPairsDistinct(pairs: seq<(nat, nat)>, activeIds: seq<nat>, started: set<nat>, k: nat, slots: seq<nat>)
    requires forall m :: 0 <= m < |pairs| ==> pairs[m].0 in started && pairs[m].1 in started
    requires forall m, m' :: 0 <= m < m' < |pairs| ==> !SamePair(pairs[m], pairs[m'])
    requires forall t :: 0 <= t < |activeIds| ==> activeIds[t] in started
    requires forall t, u :: 0 <= t < u < |activeIds| ==> activeIds[t] != activeIds[u]
    requires k !in started
    requires forall m :: 0 <= m < |slots| ==> slots[m] < |activeIds|
    requires forall m, m' :: 0 <= m < m' < |slots| ==> slots[m] < slots[m']
    ensures var pairs' := pairs + NewPairs(k, activeIds, slots);
      forall m, m' :: 0 <= m < m' < |pairs'| ==> !SamePair(pairs'[m], pairs'[m'])
  {
    var pairs' := pairs + NewPairs(k, activeIds, slots);
    forall m, m' | 0 <= m < m' < |pairs'|
      ensures !SamePair(pairs'[m], pairs'[m'])
    {
      if m' >= |pairs| {
        var b' := activeIds[slots[m' - |pairs|]];
        assert pairs'[m'] == (k, b') && b' in started;
        if m >= |pairs| {
          assert slots[m - |pairs|] < slots[m' - |pairs|];
          assert pairs'[m] == (k, activeIds[slots[m - |pairs|]]);
        } else {
          assert pairs'[m] == pairs[m];
        }
      } else {
        assert pairs'[m] == pairs[m] && pairs'[m'] == pairs[m'];
      }
    }
  }

  /** Recording the points of a new start event keeps the report invariant. */
  lemma StartStepReport(events: seq<SweepEvent>, pending: set<nat>, active: seq<ActiveSegment>,
                        activeIds: seq<nat>, started: set<nat>, points: seq<Point>, pairs: seq<(nat, nat)>,
                        k: nat, found: seq<Point>, slots: seq<nat>)
    requires PairedEvents(events) && ActiveInv(events, pending, active, activeIds, started)
    requires ReportInv(events, started, points, pairs)
    requires k in pending && k < |events| && events[k].isStart
    requires |active| <= |started|
    requires CrossingsOf(events, k, active, found, slots)
    ensures ReportInv(events, started + {k}, points + found, pairs + NewPairs(k, activeIds, slots))
  {
    var started' := started + {k};
    var np := NewPairs(k, activeIds, slots);
    var pairs' := pairs + np;
    var points' := points + found;
    assert k !in started;
    NewPairsReported(events, pending, active, activeIds, started, k, found, slots);
    forall m | 0 <= m < |pairs'|
      ensures ReportedPair(events, pairs'[m], points'[m]) && pairs'[m].0 in started' && pairs'[m].1 in started'
    {
      if m >= |pairs| {
        assert pairs'[m] == np[m - |pairs|] && points'[m] == found[m - |pairs|];
      } else {
        assert pairs'[m] == pairs[m] && points'[m] == points[m];
      }
    }
    NewPairsDistinct(pairs, activeIds, started, k, slots);
    assert |started'| == |started| + 1;
    TriangleStep(|started|, |points|, |found|);
  }

  lemma TriangleMonotone(s: nat, e: nat, p: nat)
    requires s <= e && 2 * p <= s * (s - 1)
    ensures p <= e * (e - 1) / 2
  {
    if s > 0 {
      assert s * (s - 1) <= e * (e - 1);
    }
  }

  /** After the sweep there are at most E * (E - 1) / 2 points for E edges. */
  lemma FinalBound(events: seq<SweepEvent>, started: set<nat>, points: seq<Point>, pairs: seq<(nat, nat)>)
    requires PairedEvents(events) && StartedInv(events, {}, started)
    requires ReportInv(events, started, points, pairs)
    ensures |points| <= (|events| / 2) * (|events| / 2 - 1) / 2
  {
    StartCount(events, |events| / 2);
    assert started == StartsBelow(events, |events| / 2);
    TriangleMonotone(|started|, |events| / 2, |points|);
  }

  /** Every start event lies strictly left of every end event. */
  predicate StartsFirst(events: seq<SweepEvent>) {
    forall i, j :: 0 <= i < |events| && 0 <= j < |events| && events[i].isStart && !events[j].isStart ==>
      events[i].vertex.x < events[j].vertex.x
  }

  /** `order` lists the popped events, each once, and no pending event among them. */
  ghost predicate OrderMembers(events: seq<SweepEvent>, pending: set<nat>, order: seq<nat>) {
    (forall p :: 0 <= p < |order| ==> order[p] < |events| && order[p] !in pending) &&
    (forall p, q :: 0 <= p < q < |order| ==> order[p] != order[q]) &&
    (forall i :: 0 <= i < |events| ==> i in pending || i in order)
  }

  /** `order` is in non-decreasing x, and no pending event lies left of a popped one. */
  ghost predicate OrderSorted(events: seq<SweepEvent>, pending: set<nat>, order: seq<nat>)
    requires forall p :: 0 <= p < |order| ==> order[p] < |events|
  {
    (forall p, q :: 0 <= p <= q < |order| ==> events[order[p]].vertex.x <= events[order[q]].vertex.x) &&
    (forall p, m :: 0 <= p < |order| && m in pending && m < |events| ==>
       events[order[p]].vertex.x <= events[m].vertex.x)
  }

  /** The pop order so far. */
  ghost predicate OrderInv(events: seq<SweepEvent>, pending: set<nat>, order: seq<nat>) {
    OrderMembers(events, pending, order) && OrderSorted(events, pending, order)
  }

  /** In the pop order `order`, event `a` comes after event `b`. */
  ghost predicate PoppedAfter(order: seq<nat>, a: nat, b: nat) {
    exists p, q :: 0 <= q < p < |order| && order[p] == a && order[q] == b
  }

  /** In every reported pair, the event tested first was popped after the other one. */
  ghost predicate PairsOrdered(pairs: seq<(nat, nat)>, order: seq<nat>) {
    forall k :: 0 <= k < |pairs| ==> PoppedAfter(order, pairs[k].0, pairs[k].1)
  }

  lemma OrderStepMembers(events: seq<SweepEvent>, pending: set<nat>, order: seq<nat>, k: nat)
    requires OrderMembers(events, pending, order) && k in pending && k < |events|
    ensures OrderMembers(events, pending - {k}, order + [k])
  {
    var order' := order + [k];
    assert forall p :: 0 <= p < |order| ==> order'[p] == order[p];
    forall i | 0 <= i < |events|
      ensures i in pending - {k} || i in order'
    {
      if i !in pending - {k} && i != k {
        var p :| 0 <= p < |order| && order[p] == i;
        assert order'[p] == i;
      }
    }
  }

  lemma OrderStepSorted(events: seq<SweepEvent>, pending: set<nat>, order: seq<nat>, k: nat)
    requires forall p :: 0 <= p < |order| ==> order[p] < |events|
    requires OrderSorted(events, pending, order) && IsEarliest(events, pending, k)
    ensures OrderSorted(events, pending - {k}, order + [k])
  {
    var order' := order + [k];
    assert forall p :: 0 <= p < |order| ==> order'[p] == order[p];
    assert order'[|order|] == k;
  }

  /** Popping the earliest pending event `k` extends the pop order. */
  lemma OrderStep(events: seq<SweepEvent>, pending: set<nat>, order: seq<nat>, k: nat)
    requires OrderInv(events, pending, order) && IsEarliest(events, pending, k)
    ensures OrderInv(events, pending - {k}, order + [k])
  {
    OrderStepMembers(events, pending, order, k);
    OrderStepSorted(events, pending, order, k);
  }

  /** The pairs of popped start event `k` with active (hence popped) events keep the pairs ordered. */
  lemma PairsOrderedStart(events: seq<SweepEvent>, pending: set<nat>, order: seq<nat>, pairs: seq<(nat, nat)>,
                          activeIds: seq<nat>, started: set<nat>, k: nat, slots: seq<nat>)
    requires StartedInv(events, pending, started) && OrderInv(events, pending, order)
    requires PairsOrdered(pairs, order)
    requires forall t :: 0 <= t < |activeIds| ==> activeIds[t] in started
    requires forall m :: 0 <= m < |slots| ==> slots[m] < |activeIds|
    ensures PairsOrdered(pairs + NewPairs(k, activeIds, slots), order + [k])
  {
    var order' := order + [k];
    var pairs' := pairs + NewPairs(k, activeIds, slots);
    forall n | 0 <= n < |pairs'|
      ensures PoppedAfter(order', pairs'[n].0, pairs'[n].1)
    {
      if n < |pairs| {
        assert pairs'[n] == pairs[n];
        assert PoppedAfter(order, pairs[n].0, pairs[n].1);
        var p0, q0 :| 0 <= q0 < p0 < |order| && order[p0] == pairs[n].0 && order[q0] == pairs[n].1;
        assert 0 <= q0 < p0 < |order'| && order'[p0] == pairs'[n].0 && order'[q0] == pairs'[n].1;
      } else {
        var c := activeIds[slots[n - |pairs|]];
        assert pairs'[n] == (k, c);
        assert c in started;
        var q0 :| 0 <= q0 < |order| && order[q0] == c;
        var p0 := |order|;
        assert 0 <= q0 < p0 < |order'| && order'[p0] == pairs'[n].0 && order'[q0] == pairs'[n].1;
      }
    }
  }

  /** Every two started events with a reportable pair of segments have been reported. */
  ghost predicate AllReported(events: seq<SweepEvent>, started: set<nat>, pairs: seq<(nat, nat)>)
    requires PairedEvents(events)
  {
    forall a, c ::
      (a in started && c in started && a != c && a < |events| && c < |events| &&
       Reportable(SegmentOf(events, a), SegmentOf(events, c))) ==>
      exists m :: 0 <= m < |pairs| && SamePair(pairs[m], (a, c))
  }

  /**
   * A start event popped while every earlier start is still active is tested
   * against all of them, so every reportable pair stays reported.
   */
  lemma StartStepComplete(events: seq<SweepEvent>, pending: set<nat>, active: seq<ActiveSegment>,
                          activeIds: seq<nat>, started: set<nat>, pairs: seq<(nat, nat)>,
                          k: nat, found: seq<Point>, slots: seq<nat>)
    requires PairedEvents(events) && ActiveInv(events, pending, active, activeIds, started)
    requires k in pending && k < |events| && events[k].isStart
    requires forall s :: s in started ==> s in activeIds
    requires AllReported(events, started, pairs)
    requires CrossingsOf(events, k, active, found, slots)
    requires forall t :: 0 <= t < |active| && Reportable(SegmentOf(events, k), active[t]) ==> t in slots
    ensures AllReported(events, started + {k}, pairs + NewPairs(k, activeIds, slots))
  {
    var pairs' := pairs + NewPairs(k, activeIds, slots);
    forall a, c | a in started + {k} && c in started + {k} && a != c && a < |events| && c < |events| &&
      Reportable(SegmentOf(events, a), SegmentOf(events, c))
      ensures exists m :: 0 <= m < |pairs'| && SamePair(pairs'[m], (a, c))
    {
      if a in started && c in started {
        var m :| 0 <= m < |pairs| && SamePair(pairs[m], (a, c));
        assert pairs'[m] == pairs[m];
      } else {
        var o := if a == k then c else a;
        assert o in started;
        ReportableSymmetric(SegmentOf(events, a), SegmentOf(events, c));
        var t :| 0 <= t < |activeIds| && activeIds[t] == o;
        assert active[t] == SegmentOf(events, o);
        assert t in slots;
        var j :| 0 <= j < |slots| && slots[j] == t;
        assert pairs'[|pairs| + j] == (k, o);
      }
    }
  }

  /** Once an end event is popped first under `StartsFirst`, no start is pending. */
  lemma EndStepStartsDone(events: seq<SweepEvent>, pending: set<nat>, k: nat)
    requires StartsFirst(events) && IsEarliest(events, pending, k) && !events[k].isStart
    ensures forall i :: i in pending && i < |events| ==> !events[i].isStart
  {
  }

  /**
   * `order` lists every event exactly once, in non-decreasing x: the order
   * in which the event queue yields them.
   */
  ghost predicate PopOrder(events: seq<SweepEvent>, order: seq<nat>) {
    (forall p :: 0 <= p < |order| ==> order[p] < |events|) &&
    (forall i :: 0 <= i < |events| ==> i in order) &&
    (forall p, q :: 0 <= p < q < |order| ==> order[p] != order[q]) &&
    (forall p, q :: 0 <= p <= q < |order| ==> events[order[p]].vertex.x <= events[order[q]].vertex.x)
  }

  /** Every two distinct start events whose segments are reportable form a reported pair. */
  ghost predicate ReportsEveryPair(events: seq<SweepEvent>, pairs: seq<(nat, nat)>)
    requires PairedEvents(events)
  {
    forall a, c ::
      (0 <= a < |events| && 0 <= c < |events| && a != c && events[a].isStart && events[c].isStart &&
       Reportable(SegmentOf(events, a), SegmentOf(events, c))) ==>
      exists m :: 0 <= m < |pairs| && SamePair(pairs[m], (a, c))
  }

  /** The proof-only bookkeeping of the sweep. */
  datatype SweepGhosts = SweepGhosts(activeIds: seq<nat>, started: set<nat>, normalEnded: set<nat>,
                         nonEmptyPops: nat, premature: nat)

  /** The invariant of the sweep loop. */
  ghost predicate SweepInv(events: seq<SweepEvent>, pending: set<nat>, active: seq<ActiveSegment>,
                           points: seq<Point>, pairs: seq<(nat, nat)>, emptyPops: nat, b: SweepGhosts)
    requires PairedEvents(events)
  {
    ActiveInv(events, pending, active, b.activeIds, b.started) &&
    ReportInv(events, b.started, points, pairs) &&
    PopInv(events, pending, |active|, b.started, b.normalEnded, b.nonEmptyPops, emptyPops, b.premature)
  }

  /**
   * The completeness bookkeeping when every start lies left of every end:
   * until the first end event every started segment is still active, after
   * it no start is pending, and every reportable pair of started events has
   * been reported.
   */
  ghost predicate CompleteInv(events: seq<SweepEvent>, pending: set<nat>, b: SweepGhosts,
                              pairs: seq<(nat, nat)>, endsSeen: bool)
    requires PairedEvents(events)
  {
    StartsFirst(events) ==>
      (endsSeen ==> forall i :: i in pending && i < |events| ==> !events[i].isStart) &&
      (!endsSeen ==> forall s :: s in b.started ==> s in b.activeIds) &&
      AllReported(events, b.started, pairs)
  }

  lemma EndStepComplete(events: seq<SweepEvent>, pending: set<nat>, b: SweepGhosts, b': SweepGhosts,
                        pairs: seq<(nat, nat)>, endsSeen: bool, k: nat)
    requires PairedEvents(events) && CompleteInv(events, pending, b, pairs, endsSeen)
    requires IsEarliest(events, pending, k) && !events[k].isStart && b'.started == b.started
    ensures CompleteInv(events, pending - {k}, b', pairs, true)
  {
    if StartsFirst(events) {
      EndStepStartsDone(events, pending, k);
    }
  }

  lemma StartStepKeepsCompleteInv(events: seq<SweepEvent>, pending: set<nat>, active: seq<ActiveSegment>, b: SweepGhosts,
                           pairs: seq<(nat, nat)>, endsSeen: bool, k: nat, found: seq<Point>, slots: seq<nat>)
    requires PairedEvents(events) && ActiveInv(events, pending, active, b.activeIds, b.started)
    requires CompleteInv(events, pending, b, pairs, endsSeen)
    requires k in pending && k < |events| && events[k].isStart
    requires CrossingsOf(events, k, active, found, slots)
    requires forall t :: 0 <= t < |active| && Reportable(SegmentOf(events, k), active[t]) ==> t in slots
    ensures CompleteInv(events, pending - {k},
                        SweepGhosts(b.activeIds + [k], b.started + {k}, b.normalEnded, b.nonEmptyPops, b.premature),
                        pairs + NewPairs(k, b.activeIds, slots), endsSeen)
  {
    if StartsFirst(events) {
      StartStepComplete(events, pending, active, b.activeIds, b.started, pairs, k, found, slots);
    }
  }

  /** After the last pop under `StartsFirst`, every reportable pair of start events has been reported. */
  lemma FinalComplete(events: seq<SweepEvent>, b: SweepGhosts, pairs: seq<(nat, nat)>, endsSeen: bool)
    requires PairedEvents(events) && StartedInv(events, {}, b.started)
    requires CompleteInv(events, {}, b, pairs, endsSeen)
    ensures StartsFirst(events) ==> ReportsEveryPair(events, pairs)
  {
  }

  /**
   * An end event `k`: `segmentList.pop()` removes a top segment of the active
   * list, which need not be the segment of `k`'s edge, or does nothing when
   * the list is empty.
   */
  method EndEvent(events: seq<SweepEvent>, pending: set<nat>, active: seq<ActiveSegment>, k: nat,
                  ghost points: seq<Point>, ghost pairs: seq<(nat, nat)>, ghost emptyPops: nat, ghost b: SweepGhosts)
    returns (active': seq<ActiveSegment>, ghost emptyPops': nat, ghost b': SweepGhosts)
    requires PairedEvents(events) && SweepInv(events, pending, active, points, pairs, emptyPops, b)
    requires IsEarliest(events, pending, k) && !events[k].isStart
    ensures SweepInv(events, pending - {k}, active', points, pairs, emptyPops', b')
    ensures |active| == 0 ==> active' == []
    ensures |active| > 0 ==> exists r :: IsTop(active, r) && active' == active[..r] + active[r + 1..]
    ensures emptyPops' == if |active| == 0 then emptyPops + 1 else emptyPops
    ensures b'.started == b.started
  {
    EndStepPop(events, pending, |active|, b.started, b.normalEnded, b.nonEmptyPops, emptyPops, b.premature, k);
    EndStepActive(events, pending, active, b.activeIds, b.started, k);
    var normal := Partner(k) in b.started;
    var normalEnded := if normal then b.normalEnded + {Partner(k)} else b.normalEnded;
    var premature := if normal then b.premature else b.premature + 1;
    if |active| > 0 {
      TopExists(active);
      var r :| IsTop(active, r);
      RemoveKeepsActiveInv(events, pending - {k}, active, b.activeIds, b.started, r);
      active' := active[..r] + active[r + 1..];
      emptyPops' := emptyPops;
      b' := SweepGhosts(b.activeIds[..r] + b.activeIds[r + 1..], b.started, normalEnded, b.nonEmptyPops + 1, premature);
    } else {
      active' := active;
      emptyPops' := emptyPops + 1;
      b' := SweepGhosts(b.activeIds, b.started, normalEnded, b.nonEmptyPops, premature);
    }
  }

  /**
   * A start event `k`: build its segment (its vertex, then its partner's),
   * test it against every active segment, record the points found, and
   * make it active.
   */
  method StartEvent(events: seq<SweepEvent>, pending: set<nat>, active: seq<ActiveSegment>, k: nat,
                    points: seq<Point>, ghost pairs: seq<(nat, nat)>, ghost emptyPops: nat, ghost b: SweepGhosts)
    returns (active': seq<ActiveSegment>, points': seq<Point>, found: seq<Point>,
             ghost slots: seq<nat>, ghost pairs': seq<(nat, nat)>, ghost b': SweepGhosts)
    requires PairedEvents(events) && SweepInv(events, pending, active, points, pairs, emptyPops, b)
    requires k in pending && k < |events| && events[k].isStart
    ensures active' == active + [SegmentOf(events, k)]
    ensures points' == points + found
    ensures |found| <= |active|
    ensures forall p :: p in found ==> exists t ::
      0 <= t < |active| && Reportable(SegmentOf(events, k), active[t]) &&
      FindIntersection(SegmentOf(events, k).segment, active[t].segment) == Some(p)
    ensures CrossingsOf(events, k, active, found, slots)
    ensures forall t :: 0 <= t < |active| && Reportable(SegmentOf(events, k), active[t]) ==> t in slots
    ensures pairs' == pairs + NewPairs(k, b.activeIds, slots)
    ensures b' == SweepGhosts(b.activeIds + [k], b.started + {k}, b.normalEnded, b.nonEmptyPops, b.premature)
    ensures SweepInv(events, pending - {k}, active', points', pairs', emptyPops, b')
  {
    var event := events[k];
    assert PairedAt(events, k);
    var segment := ActiveSegment(event.lineIndex, event.vertexIndex,
                                 Segment(event.vertex, events[event.otherEvent.value].vertex));
    assert segment == SegmentOf(events, k);
    found, slots := CollectCrossings(segment, active);
    assert CrossingsOf(events, k, active, found, slots);
    StartStepReport(events, pending, active, b.activeIds, b.started, points, pairs, k, found, slots);
    AppendKeepsActiveInv(events, pending, active, b.activeIds, b.started, k);
    points' := points + found;
    pairs' := pairs + NewPairs(k, b.activeIds, slots);
    active' := active + [segment];
    b' := SweepGhosts(b.activeIds + [k], b.started + {k}, b.normalEnded, b.nonEmptyPops, b.premature);
  }

  /** Every invariant of the sweep loop, including the pop order and the completeness bookkeeping. */
  ghost predicate LoopInv(events: seq<SweepEvent>, pending: set<nat>, active: seq<ActiveSegment>,
                          points: seq<Point>, pairs: seq<(nat, nat)>, emptyPops: nat, b: SweepGhosts,
                          order: seq<nat>, endsSeen: bool)
    requires PairedEvents(events)
  {
    SweepInv(events, pending, active, points, pairs, emptyPops, b) &&
    OrderInv(events, pending, order) && PairsOrdered(pairs, order) &&
    CompleteInv(events, pending, b, pairs, endsSeen)
  }

  /**
   * One turn of the `sweep` loop: pop an event `k` with the least x and
   * handle it as an end event or a start event.
   */
  method SweepStep(events: seq<SweepEvent>, pending: set<nat>, active: seq<ActiveSegment>,
                   points: seq<Point>, ghost pairs: seq<(nat, nat)>, ghost emptyPops: nat, ghost b: SweepGhosts,
                   ghost order: seq<nat>, ghost endsSeen: bool)
    returns (pending': set<nat>, active': seq<ActiveSegment>, points': seq<Point>,
             ghost pairs': seq<(nat, nat)>, ghost emptyPops': nat, ghost b': SweepGhosts,
             ghost order': seq<nat>, ghost endsSeen': bool)
    requires PairedEvents(events) && pending != {}
    requires LoopInv(events, pending, active, points, pairs, emptyPops, b, order, endsSeen)
    ensures exists k :: IsEarliest(events, pending, k) && pending' == pending - {k} && order' == order + [k]
    ensures |points| <= |points'| && points'[..|points|] == points
    ensures LoopInv(events, pending', active', points', pairs', emptyPops', b', order', endsSeen')
  {
    EarliestExists(events, pending);
    var k: nat :| IsEarliest(events, pending, k);
    if !events[k].isStart {
      active', points', pairs', emptyPops', b', endsSeen' := SweepEnd(events, pending, active, points, pairs, emptyPops, b, order, endsSeen, k);
    } else {
      active', points', pairs', emptyPops', b', endsSeen' := SweepStart(events, pending, active, points, pairs, emptyPops, b, order, endsSeen, k);
    }
    pending' := pending - {k};
    order' := order + [k];
  }

  /** The end-event turn of `SweepStep`. */
  method SweepEnd(events: seq<SweepEvent>, pending: set<nat>, active: seq<ActiveSegment>,
                  points: seq<Point>, ghost pairs: seq<(nat, nat)>, ghost emptyPops: nat, ghost b: SweepGhosts,
                  ghost order: seq<nat>, ghost endsSeen: bool, k: nat)
    returns (active': seq<ActiveSegment>, points': seq<Point>,
             ghost pairs': seq<(nat, nat)>, ghost emptyPops': nat, ghost b': SweepGhosts, ghost endsSeen': bool)
    requires PairedEvents(events) && IsEarliest(events, pending, k) && !events[k].isStart
    requires LoopInv(events, pending, active, points, pairs, emptyPops, b, order, endsSeen)
    ensures points' == points
    ensures LoopInv(events, pending - {k}, active', points', pairs', emptyPops', b', order + [k], endsSeen')
  {
    OrderStep(events, pending, order, k);
    active', emptyPops', b' := EndEvent(events, pending, active, k, points, pairs, emptyPops, b);
    EndStepComplete(events, pending, b, b', pairs, endsSeen, k);
    points', pairs', endsSeen' := points, pairs, true;
  }

  /** The start-event turn of `SweepStep`. */
  method SweepStart(events: seq<SweepEvent>, pending: set<nat>, active: seq<ActiveSegment>,
                    points: seq<Point>, ghost pairs: seq<(nat, nat)>, ghost emptyPops: nat, ghost b: SweepGhosts,
                    ghost order: seq<nat>, ghost endsSeen: bool, k: nat)
    returns (active': seq<ActiveSegment>, points': seq<Point>,
             ghost pairs': seq<(nat, nat)>, ghost emptyPops': nat, ghost b': SweepGhosts, ghost endsSeen': bool)
    requires PairedEvents(events) && IsEarliest(events, pending, k) && events[k].isStart
    requires LoopInv(events, pending, active, points, pairs, emptyPops, b, order, endsSeen)
    ensures |points| <= |points'| && points'[..|points|] == points
    ensures LoopInv(events, pending - {k}, active', points', pairs', emptyPops', b', order + [k], endsSeen')
  {
    OrderStep(events, pending, order, k);
    var found;
    ghost var slots;
    active', points', found, slots, pairs', b' := StartEvent(events, pending, active, k, points, pairs, emptyPops, b);
    PairsOrderedStart(events, pending, order, pairs, b.activeIds, b.started, k, slots);
    StartStepKeepsCompleteInv(events, pending, active, b, pairs, endsSeen, k, found, slots);
    emptyPops', endsSeen' := emptyPops, endsSeen;
  }

  /** What the loop invariant gives once no event is pending. */
  lemma SweepDone(events: seq<SweepEvent>, active: seq<ActiveSegment>, points: seq<Point>,
                  pairs: seq<(nat, nat)>, emptyPops: nat, b: SweepGhosts, order: seq<nat>, endsSeen: bool)
    requires PairedEvents(events) && LoopInv(events, {}, active, points, pairs, emptyPops, b, order, endsSeen)
    ensures |pairs| == |points|
    ensures forall k :: 0 <= k < |pairs| ==> ReportedPair(events, pairs[k], points[k])
    ensures forall k, m :: 0 <= k < m < |pairs| ==> !SamePair(pairs[k], pairs[m])
    ensures |points| <= (|events| / 2) * (|events| / 2 - 1) / 2
    ensures !HasVerticalEdge(events) ==> emptyPops == 0
    ensures PopOrder(events, order) && PairsOrdered(pairs, order)
    ensures StartsFirst(events) ==> ReportsEveryPair(events, pairs)
  {
    FinalBound(events, b.started, points, pairs);
    FinalComplete(events, b, pairs, endsSeen);
  }

  /**
   * `sweep`: pop every event; an end event pops the top of the active list
   * (whichever segment that is); a start event tests its segment against
   * every active segment, records each reported point, then becomes active.
   *
   * `pairs[k]` names the two start events whose segments gave `points[k]`;
   * `emptyPops` counts end events that found the active list empty.
   */
  method Sweep(events: seq<SweepEvent>)
    returns (points: seq<Point>, ghost pairs: seq<(nat, nat)>, ghost emptyPops: nat, ghost order: seq<nat>)
    requires PairedEvents(events)
    ensures |pairs| == |points|
    ensures forall k :: 0 <= k < |pairs| ==> ReportedPair(events, pairs[k], points[k])
    ensures forall k, m :: 0 <= k < m < |pairs| ==> !SamePair(pairs[k], pairs[m])
    ensures |points| <= (|events| / 2) * (|events| / 2 - 1) / 2
    ensures !HasVerticalEdge(events) ==> emptyPops == 0
    ensures PopOrder(events, order) && PairsOrdered(pairs, order)
    ensures StartsFirst(events) ==> ReportsEveryPair(events, pairs)
  {
    var pending: set<nat> := Indices(|events|);
    var active: seq<ActiveSegment> := [];
    ghost var b := SweepGhosts([], {}, {}, 0, 0);
    ghost var endsSeen := false;
    points, pairs, emptyPops, order := [], [], 0, [];
    while |pending| > 0
      invariant LoopInv(events, pending, active, points, pairs, emptyPops, b, order, endsSeen)
      decreases |pending|
    {
      pending, active, points, pairs, emptyPops, b, order, endsSeen :=
        SweepStep(events, pending, active, points, pairs, emptyPops, b, order, endsSeen);
    }
    SweepDone(events, active, points, pairs, emptyPops, b, order, endsSeen);
  }

  /** The identity of an edge: its line and the index of its first vertex. */
  datatype EdgeId = EdgeId(lineIndex: nat, vertexIndex: nat)

  predicate ValidEdge(lines: seq<Line>, a: EdgeId) {
    a.lineIndex < |lines| && a.vertexIndex < EdgeCount(lines[a.lineIndex])
  }

  /**
   * Edges `a` and `b` of `lines` are distinct, not neighbours in the same
   * line, and the intersection test reports `p` for their segments in
   * drawing order; `p` then lies on both.
   */
  ghost predicate EdgesCross(lines: seq<Line>, pr: (EdgeId, EdgeId), p: Point) {
    var (a, b) := pr;
    ValidEdge(lines, a) && ValidEdge(lines, b) && a != b &&
    (a.lineIndex != b.lineIndex || Abs(a.vertexIndex - b.vertexIndex) > 1) &&
    FindIntersection(Edge(lines, a.lineIndex, a.vertexIndex), Edge(lines, b.lineIndex, b.vertexIndex)) == Some(p) &&
    CommonPoint(Edge(lines, a.lineIndex, a.vertexIndex), Edge(lines, b.lineIndex, b.vertexIndex), p)
  }

  function IdOf(events: seq<SweepEvent>, i: nat): EdgeId
    requires i < |events|
  {
    EdgeId(events[i].lineIndex, events[i].vertexIndex)
  }

  /** The segment of an event generated from `lines` is its edge, possibly reversed. */
  lemma SegmentOfIsEdge(lines: seq<Line>, events: seq<SweepEvent>, i: nat)
    requires PairedEvents(events) && FollowsLines(lines, events) && i < |events|
    ensures ValidEdge(lines, IdOf(events, i))
    ensures var s := SegmentOf(events, i);
      var edge := Edge(lines, s.lineIndex, s.vertexIndex);
      s.lineIndex == events[i].lineIndex && s.vertexIndex == events[i].vertexIndex &&
      (s.segment == edge || s.segment == Reverse(edge))
  {
    assert PairedAt(events, i);
    var j := Partner(i);
    assert j % 2 == 1 - i % 2;
  }

  /** Different start events generated from `lines` belong to different edges. */
  lemma StartsHaveDistinctEdges(lines: seq<Line>, events: seq<SweepEvent>, i: nat, j: nat)
    requires PairedEvents(events) && FollowsLines(lines, events)
    requires i < |events| && j < |events| && events[i].isStart && events[j].isStart
    requires IdOf(events, i) == IdOf(events, j)
    ensures i == j
  {
    assert i / 2 == j / 2;
    assert PairedAt(events, i);
  }

  /** Lifts a reported pair of start events to the pair of edges they belong to. */
  lemma ReportedPairCrosses(lines: seq<Line>, events: seq<SweepEvent>, pr: (nat, nat), p: Point)
    requires PairedEvents(events) && FollowsLines(lines, events)
    requires ReportedPair(events, pr, p)
    ensures EdgesCross(lines, (IdOf(events, pr.0), IdOf(events, pr.1)), p)
  {
    var (a, b) := pr;
    SegmentOfIsEdge(lines, events, a);
    SegmentOfIsEdge(lines, events, b);
    var sa, sb := SegmentOf(events, a), SegmentOf(events, b);
    var ea := Edge(lines, sa.lineIndex, sa.vertexIndex);
    var eb := Edge(lines, sb.lineIndex, sb.vertexIndex);
    FindIntersectionOrientationFree(ea, eb, sa.segment != ea, sb.segment != eb, false);
    FindIntersectionSound(ea, eb, p);
    if IdOf(events, a) == IdOf(events, b) {
      StartsHaveDistinctEdges(lines, events, a, b);
    }
  }

  /** No edge of the input has both endpoints at the same x. */
  predicate NoVerticalEdge(lines: seq<Line>) {
    forall l, v :: 0 <= l < |lines| && 0 <= v < EdgeCount(lines[l]) ==> lines[l][v].x != lines[l][v + 1].x
  }

  /** Events generated from lines without vertical edges have no vertical edge either. */
  lemma NoVerticalEvents(lines: seq<Line>, events: seq<SweepEvent>)
    requires PairedEvents(events) && FollowsLines(lines, events) && NoVerticalEdge(lines)
    ensures !HasVerticalEdge(events)
  {
    forall i | 0 <= i < |events| && Partner(i) < |events|
      ensures events[i].vertex.x != events[Partner(i)].vertex.x
    {
      assert PairedAt(events, i);
      assert Partner(i) % 2 == 1 - i % 2;
      var l, v := events[i].lineIndex, events[i].vertexIndex;
      assert lines[l][v].x != lines[l][v + 1].x;
    }
  }

  /** The smaller and the larger x of a segment's endpoints. */
  function LeftX(s: Segment): real {
    if s.p.x <= s.q.x then s.p.x else s.q.x
  }

  function RightX(s: Segment): real {
    if s.p.x <= s.q.x then s.q.x else s.p.x
  }

  /**
   * Every edge's left end lies strictly left of every edge's right end
   * (for one edge: no edge is vertical). Then all start events come first.
   */
  predicate LeftEndsFirst(lines: seq<Line>) {
    forall l1, v1, l2, v2 ::
      (0 <= l1 < |lines| && 0 <= v1 < EdgeCount(lines[l1]) && 0 <= l2 < |lines| && 0 <= v2 < EdgeCount(lines[l2])) ==>
      LeftX(Edge(lines, l1, v1)) < RightX(Edge(lines, l2, v2))
  }

  /** A start event sits at its edge's left end, an end event at its right end. */
  lemma EventX(lines: seq<Line>, events: seq<SweepEvent>, i: nat)
    requires PairedEvents(events) && FollowsLines(lines, events) && i < |events|
    requires var e := Edge(lines, events[i].lineIndex, events[i].vertexIndex); LeftX(e) < RightX(e)
    ensures var e := Edge(lines, events[i].lineIndex, events[i].vertexIndex);
      events[i].vertex.x == if events[i].isStart then LeftX(e) else RightX(e)
  {
    assert PairedAt(events, i);
    var j := Partner(i);
    assert j % 2 == 1 - i % 2;
    if events[i].isStart {
      StartNotAfterPartner(events, i);
    } else {
      assert Partner(j) == i;
      StartNotAfterPartner(events, j);
    }
  }

  lemma LeftEndsFirstStartsFirst(lines: seq<Line>, events: seq<SweepEvent>)
    requires PairedEvents(events) && FollowsLines(lines, events) && LeftEndsFirst(lines)
    ensures StartsFirst(events)
  {
    forall i, j | 0 <= i < |events| && 0 <= j < |events| && events[i].isStart && !events[j].isStart
      ensures events[i].vertex.x < events[j].vertex.x
    {
      var ei := Edge(lines, events[i].lineIndex, events[i].vertexIndex);
      var ej := Edge(lines, events[j].lineIndex, events[j].vertexIndex);
      assert LeftX(ei) < RightX(ei) && LeftX(ej) < RightX(ej) && LeftX(ei) < RightX(ej);
      EventX(lines, events, i);
      EventX(lines, events, j);
    }
  }

  /** Two distinct, non-adjoining edges for which the intersection test reports a point. */
  ghost predicate Crossable(lines: seq<Line>, a: EdgeId, c: EdgeId) {
    ValidEdge(lines, a) && ValidEdge(lines, c) && a != c &&
    (a.lineIndex != c.lineIndex || Abs(a.vertexIndex - c.vertexIndex) > 1) &&
    FindIntersection(Edge(lines, a.lineIndex, a.vertexIndex), Edge(lines, c.lineIndex, c.vertexIndex)).Some?
  }

  /** Every crossable pair of edges is among `crossings`, in one order or the other. */
  ghost predicate ReportsEveryCrossing(lines: seq<Line>, crossings: seq<(EdgeId, EdgeId)>) {
    forall a, c :: Crossable(lines, a, c) ==> exists m :: 0 <= m < |crossings| && SamePair(crossings[m], (a, c))
  }

  /** The start event of edge `a`. */
  lemma StartOfEdge(lines: seq<Line>, events: seq<SweepEvent>, a: EdgeId) returns (s: nat)
    requires PairedEvents(events) && CoversEdges(lines, events) && ValidEdge(lines, a)
    ensures s < |events| && events[s].isStart && IdOf(events, s) == a
  {
    var f := FirstEventOf(lines, a.lineIndex, a.vertexIndex);
    assert PairedAt(events, f);
    s := if events[f].isStart then f else f + 1;
  }

  /** The start events of two crossable edges have a reportable pair of segments. */
  lemma CrossableStarts(lines: seq<Line>, events: seq<SweepEvent>, a: EdgeId, c: EdgeId) returns (sa: nat, sc: nat)
    requires PairedEvents(events) && FollowsLines(lines, events) && CoversEdges(lines, events)
    requires Crossable(lines, a, c)
    ensures sa < |events| && sc < |events| && sa != sc && events[sa].isStart && events[sc].isStart
    ensures IdOf(events, sa) == a && IdOf(events, sc) == c
    ensures Reportable(SegmentOf(events, sa), SegmentOf(events, sc))
  {
    sa := StartOfEdge(lines, events, a);
    sc := StartOfEdge(lines, events, c);
    SegmentOfIsEdge(lines, events, sa);
    SegmentOfIsEdge(lines, events, sc);
    var ga, gc := SegmentOf(events, sa), SegmentOf(events, sc);
    var ea := Edge(lines, a.lineIndex, a.vertexIndex);
    var ec := Edge(lines, c.lineIndex, c.vertexIndex);
    FindIntersectionOrientationFree(ea, ec, ga.segment != ea, gc.segment != ec, false);
  }

  /** A reported pair of start events shows up, as edge identities, among `crossings`. */
  lemma PairToCrossing(events: seq<SweepEvent>, pairs: seq<(nat, nat)>, crossings: seq<(EdgeId, EdgeId)>,
                       sa: nat, sc: nat)
    requires PairedEvents(events) && ReportsEveryPair(events, pairs)
    requires |crossings| == |pairs|
    requires forall k :: 0 <= k < |pairs| ==>
      pairs[k].0 < |events| && pairs[k].1 < |events| &&
      crossings[k] == (IdOf(events, pairs[k].0), IdOf(events, pairs[k].1))
    requires sa < |events| && sc < |events| && sa != sc && events[sa].isStart && events[sc].isStart
    requires Reportable(SegmentOf(events, sa), SegmentOf(events, sc))
    ensures exists m :: 0 <= m < |crossings| && SamePair(crossings[m], (IdOf(events, sa), IdOf(events, sc)))
  {
    var m :| 0 <= m < |pairs| && SamePair(pairs[m], (sa, sc));
    assert crossings[m] == (IdOf(events, pairs[m].0), IdOf(events, pairs[m].1));
  }

  /** Lifts the completeness of the sweep from start events to edges. */
  lemma EdgeCompleteness(lines: seq<Line>, events: seq<SweepEvent>, pairs: seq<(nat, nat)>,
                         crossings: seq<(EdgeId, EdgeId)>)
    requires PairedEvents(events) && FollowsLines(lines, events) && CoversEdges(lines, events)
    requires ReportsEveryPair(events, pairs)
    requires |crossings| == |pairs|
    requires forall k :: 0 <= k < |pairs| ==>
      pairs[k].0 < |events| && pairs[k].1 < |events| &&
      crossings[k] == (IdOf(events, pairs[k].0), IdOf(events, pairs[k].1))
    ensures ReportsEveryCrossing(lines, crossings)
  {
    forall a, c | Crossable(lines, a, c)
      ensures exists m :: 0 <= m < |crossings| && SamePair(crossings[m], (a, c))
    {
      var sa, sc := CrossableStarts(lines, events, a, c);
      PairToCrossing(events, pairs, crossings, sa, sc);
    }
  }

  /**
   * `locateIntersections`: every reported point comes from two distinct,
   * non-adjoining edges of the input whose intersection test reports it (so
   * it lies on both), no unordered pair of edges is reported twice, and for E
   * edges there are at most E * (E - 1) / 2 points. `emptyPops` counts end
   * events that found the active list empty: none unless some edge is
   * vertical or has length zero. When every edge's left end lies left of
   * every edge's right end, every crossable pair of edges is reported.
   */
  method LocateIntersections(lines: seq<Line>)
    returns (points: seq<Point>, ghost crossings: seq<(EdgeId, EdgeId)>, ghost emptyPops: nat)
    ensures |crossings| == |points|
    ensures forall k :: 0 <= k < |points| ==> EdgesCross(lines, crossings[k], points[k])
    ensures forall k, m :: 0 <= k < m < |crossings| ==> !SamePair(crossings[k], crossings[m])
    ensures |points| <= NumEdges(lines) * (NumEdges(lines) - 1) / 2
    ensures NoVerticalEdge(lines) ==> emptyPops == 0
    ensures LeftEndsFirst(lines) ==> ReportsEveryCrossing(lines, crossings)
  {
    var queue := Fill(lines);
    ghost var pairs;
    ghost var order;
    points, pairs, emptyPops, order := Sweep(queue);
    if NoVerticalEdge(lines) {
      NoVerticalEvents(lines, queue);
    }
    crossings := seq(|pairs|, k requires 0 <= k < |pairs| => (IdOf(queue, pairs[k].0), IdOf(queue, pairs[k].1)));
    if LeftEndsFirst(lines) {
      LeftEndsFirstStartsFirst(lines, queue);
      EdgeCompleteness(lines, queue, pairs, crossings);
    }
    forall k | 0 <= k < |points|
      ensures EdgesCross(lines, crossings[k], points[k])
    {
      ReportedPairCrosses(lines, queue, pairs[k], points[k]);
    }
    forall k, m | 0 <= k < m < |crossings|
      ensures !SamePair(crossings[k], crossings[m])
    {
      var (a, b) := pairs[k];
      var (c, d) := pairs[m];
      assert ReportedPair(queue, pairs[k], points[k]) && ReportedPair(queue, pairs[m], points[m]);
      if crossings[k] == crossings[m] {
        StartsHaveDistinctEdges(lines, queue, a, c);
        StartsHaveDistinctEdges(lines, queue, b, d);
      } else if crossings[k] == (crossings[m].1, crossings[m].0) {
        StartsHaveDistinctEdges(lines, queue, a, d);
        StartsHaveDistinctEdges(lines, queue, b, c);
      }
    }
  }

  /**
   * A client: one vertical and one horizontal segment crossing at the
   * origin. Any reported point is the origin and there is at most one. The
   * vertical edge's two events share x = 0; the program's heap ranks them by
   * y, start first, but the model's queue only promises the least x, so it
   * also admits popping the end first, which removes the horizontal segment
   * before the vertical one starts.
   */
  method PerpendicularLines() returns (points: seq<Point>)
    ensures |points| <= 1
    ensures forall k :: 0 <= k < |points| ==> points[k] == Point(0.0, 0.0)
  {
    var a: Line := [Point(0.0, -10.0), Point(0.0, 10.0)];
    var b: Line := [Point(-10.0, 0.0), Point(10.0, 0.0)];
    ghost var crossings, emptyPops;
    var lines := [a, b];
    assert EdgeBase(lines, 1) == 1 && NumEdges(lines) == 2;
    points, crossings, emptyPops := LocateIntersections(lines);
    var origin := Point(0.0, 0.0);
    assert FindIntersection(Edge(lines, 0, 0), Edge(lines, 1, 0)) == Some(origin);
    assert FindIntersection(Edge(lines, 1, 0), Edge(lines, 0, 0)) == Some(origin);
    forall k | 0 <= k < |points|
      ensures points[k] == origin
    {
      var (x, y) := crossings[k];
      assert EdgesCross(lines, (x, y), points[k]);
      assert EdgeCount(lines[0]) == 1 && EdgeCount(lines[1]) == 1;
      assert x.vertexIndex == 0 && y.vertexIndex == 0;
      assert (x, y) == (EdgeId(0, 0), EdgeId(1, 0)) || (x, y) == (EdgeId(1, 0), EdgeId(0, 0));
    }
  }

  /** The two diagonals: two edges, every left end left of every right end, crossing at the origin. */
  lemma DiagonalsCross(lines: seq<Line>)
    requires lines == [[Point(-10.0, -10.0), Point(10.0, 10.0)], [Point(-10.0, 10.0), Point(10.0, -10.0)]]
    ensures NumEdges(lines) == 2 && EdgeCount(lines[0]) == 1 && EdgeCount(lines[1]) == 1
    ensures LeftEndsFirst(lines) && Crossable(lines, EdgeId(0, 0), EdgeId(1, 0))
    ensures FindIntersection(Edge(lines, 0, 0), Edge(lines, 1, 0)) == Some(Point(0.0, 0.0))
    ensures FindIntersection(Edge(lines, 1, 0), Edge(lines, 0, 0)) == Some(Point(0.0, 0.0))
  {
    assert EdgeBase(lines, 1) == 1;
    forall l1, v1, l2, v2 |
      0 <= l1 < |lines| && 0 <= v1 < EdgeCount(lines[l1]) && 0 <= l2 < |lines| && 0 <= v2 < EdgeCount(lines[l2])
      ensures LeftX(Edge(lines, l1, v1)) < RightX(Edge(lines, l2, v2))
    {
      assert v1 == 0 && v2 == 0;
      assert LeftX(Edge(lines, l1, v1)) == -10.0 && RightX(Edge(lines, l2, v2)) == 10.0;
    }
  }

  /**
   * A client: two diagonals crossing at the origin. Every start lies left of
   * every end, so the crossing is found, and it is the only point.
   */
  method CrossingDiagonals() returns (points: seq<Point>)
    ensures points == [Point(0.0, 0.0)]
  {
    var a: Line := [Point(-10.0, -10.0), Point(10.0, 10.0)];
    var b: Line := [Point(-10.0, 10.0), Point(10.0, -10.0)];
    var lines := [a, b];
    ghost var crossings, emptyPops;
    DiagonalsCross(lines);
    points, crossings, emptyPops := LocateIntersections(lines);
    ghost var m :| 0 <= m < |crossings| && SamePair(crossings[m], (EdgeId(0, 0), EdgeId(1, 0)));
    assert |points| == 1;
    assert EdgesCross(lines, crossings[0], points[0]);
  }

  /** In a single line, only edges at least two vertices apart can cross. */
  lemma CrossingsOfOneLine(lines: seq<Line>)
    requires |lines| == 1
    ensures forall pr, p :: EdgesCross(lines, pr, p) ==>
      pr.0.vertexIndex + 2 <= pr.1.vertexIndex || pr.1.vertexIndex + 2 <= pr.0.vertexIndex
  {
  }

  /**
   * A client: a polyline of two edges reports nothing, since its only pair
   * of edges is adjoining.
   */
  method TwoEdgePolyline(p0: Point, p1: Point, p2: Point) returns (points: seq<Point>)
    ensures points == []
  {
    var lines: seq<Line> := [[p0, p1, p2]];
    ghost var crossings, emptyPops;
    assert EdgeCount(lines[0]) == 2;
    CrossingsOfOneLine(lines);
    points, crossings, emptyPops := LocateIntersections(lines);
    assert points == [] || EdgesCross(lines, crossings[0], points[0]);
  }
}
