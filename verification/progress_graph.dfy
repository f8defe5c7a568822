/** The arithmetic behind the roadmap card's donut chart: the completion
    percentage shown in the middle, the per-status segments, and the angular
    layout of the wedges. Angles are degrees measured clockwise from the top; the
    trigonometry that turns them into SVG coordinates is not modelled. */
module ProgressGraph {
  import opened RoadmapData

  // ---------------------------------------------------------------------------
  // Percentages
  // ---------------------------------------------------------------------------

  /** `Math.round(c / t * 100)` for a count `c` out of `t > 0`: the integer nearest
      to 100·c/t, halves rounded up. */
  function RoundPercent(c: nat, t: nat): (p: nat)
    requires t > 0
    ensures 2 * t * p <= 200 * c + t < 2 * t * (p + 1)
    ensures c <= t ==> p <= 100
  {
    var p := (200 * c + t) / (2 * t);
    if c <= t then PercentAtMostHundred(c, t, p); p else p
  }

  lemma PercentAtMostHundred(c: nat, t: nat, p: nat)
    requires 0 < t && c <= t
    requires 2 * t * p <= 200 * c + t
    ensures p <= 100
  {
    assert 2 * t * p < 2 * t * 101;
    MulStrictCancel(2 * t, p, 101);
  }

  lemma MulStrictCancel(k: nat, a: nat, b: nat)
    requires k * a < k * b
    ensures a < b
  {
    if a >= b {
      MulMonotone(k, b, a);
    }
  }

  lemma MulMonotone(k: nat, a: nat, b: nat)
    requires a <= b
    ensures k * a <= k * b
  {
  }

  /** The bracket of `RoundPercent` pins the percentage down: any `p` inside it is
      the rounded value. */
  lemma RoundPercentUnique(c: nat, t: nat, p: nat)
    requires t > 0
    requires 2 * t * p <= 200 * c + t < 2 * t * (p + 1)
    ensures RoundPercent(c, t) == p
  {
    var q := RoundPercent(c, t);
    if q < p {
      MulMonotone(2 * t, q + 1, p);
    } else if p < q {
      MulMonotone(2 * t, p + 1, q);
    }
  }

  /** A count that is the whole total rounds to 100. */
  lemma RoundPercentWhole(n: nat)
    requires n > 0
    ensures RoundPercent(n, n) == 100
  {
    RoundPercentUnique(n, n, 100);
  }

  /** The percentage in the middle of the chart: completed deliverables out of all,
      rounded; 0 when there are none. */
  function CompletionPercent(ds: seq<Deliverable>): (p: nat)
    ensures p <= 100
    ensures |ds| == 0 ==> p == 0
    ensures |ds| > 0 ==> 2 * |ds| * p <= 200 * CountStatus(ds, Completed) + |ds| < 2 * |ds| * (p + 1)
  {
    var totalTasks := |ds|;
    var completedCount := StatusCounts(ds)[Completed];
    if totalTasks > 0 then RoundPercent(completedCount, totalTasks) else 0
  }

  // ---------------------------------------------------------------------------
  // Segments
  // ---------------------------------------------------------------------------

  /** One status's share of the chart. */
  datatype Segment = Segment(status: TaskStatus, count: nat, percent: nat)

  /** Display positions and ranks agree. */
  lemma RankOfPosition(k: nat)
    requires k < |TaskStatuses|
    ensures Rank(TaskStatuses[k]) == k
    ensures forall s :: Rank(s) == k ==> s == TaskStatuses[k]
  {
  }

  /** The segments for the statuses from display position `k` on: one per status
      with a non-zero count, in display order, each with its count and rounded
      percentage. */
  function SegmentsFrom(k: nat, counts: map<TaskStatus, nat>, total: nat): (r: seq<Segment>)
    requires k <= |TaskStatuses|
    requires forall s :: s in counts && counts[s] <= total
    ensures forall i :: 0 <= i < |r| ==>
      && k <= Rank(r[i].status)
      && r[i].count == counts[r[i].status] > 0
      && r[i].percent == RoundPercent(r[i].count, total) <= 100
    ensures forall i, j :: 0 <= i < j < |r| ==> Rank(r[i].status) < Rank(r[j].status)
    ensures forall s :: k <= Rank(s) && counts[s] > 0 ==> Segment(s, counts[s], RoundPercent(counts[s], total)) in r
    decreases |TaskStatuses| - k
  {
    if k == |TaskStatuses| then []
    else
      var s := TaskStatuses[k];
      var rest := SegmentsFrom(k + 1, counts, total);
      if counts[s] > 0 then
        var head := Segment(s, counts[s], RoundPercent(counts[s], total));
        SegmentsFromStep(k, counts, total, head, rest);
        [head] + rest
      else
        SegmentsFromSkip(k, counts, total, rest);
        rest
  }

  /** A status at position `k` with no deliverables contributes no segment: the
      segments from position `k + 1` on are already all of them from `k` on. */
  lemma SegmentsFromSkip(k: nat, counts: map<TaskStatus, nat>, total: nat, rest: seq<Segment>)
    requires k < |TaskStatuses|
    requires forall s :: s in counts && counts[s] <= total
    requires counts[TaskStatuses[k]] == 0
    requires forall i :: 0 <= i < |rest| ==> k + 1 <= Rank(rest[i].status)
    requires forall s :: k + 1 <= Rank(s) && counts[s] > 0 ==> Segment(s, counts[s], RoundPercent(counts[s], total)) in rest
    ensures forall i :: 0 <= i < |rest| ==> k <= Rank(rest[i].status)
    ensures forall s :: k <= Rank(s) && counts[s] > 0 ==> Segment(s, counts[s], RoundPercent(counts[s], total)) in rest
  {
    RankOfPosition(k);
  }

  /** Putting the segment of the status at position `k` in front of the segments
      from position `k + 1` on keeps every segment's count and percentage right,
      keeps the display order and misses no status. */
  lemma SegmentsFromStep(k: nat, counts: map<TaskStatus, nat>, total: nat, head: Segment, rest: seq<Segment>)
    requires k < |TaskStatuses| && total > 0
    requires forall s :: s in counts && counts[s] <= total
    requires head == Segment(TaskStatuses[k], counts[TaskStatuses[k]], RoundPercent(counts[TaskStatuses[k]], total))
    requires head.count > 0
    requires forall i :: 0 <= i < |rest| ==>
      && k + 1 <= Rank(rest[i].status)
      && rest[i].count == counts[rest[i].status] > 0
      && rest[i].percent == RoundPercent(rest[i].count, total) <= 100
    requires forall i, j :: 0 <= i < j < |rest| ==> Rank(rest[i].status) < Rank(rest[j].status)
    requires forall s :: k + 1 <= Rank(s) && counts[s] > 0 ==> Segment(s, counts[s], RoundPercent(counts[s], total)) in rest
    ensures forall i :: 0 <= i < |[head] + rest| ==>
      && k <= Rank(([head] + rest)[i].status)
      && ([head] + rest)[i].count == counts[([head] + rest)[i].status] > 0
      && ([head] + rest)[i].percent == RoundPercent(([head] + rest)[i].count, total) <= 100
    ensures forall i, j :: 0 <= i < j < |[head] + rest| ==> Rank(([head] + rest)[i].status) < Rank(([head] + rest)[j].status)
    ensures forall s :: k <= Rank(s) && counts[s] > 0 ==> Segment(s, counts[s], RoundPercent(counts[s], total)) in [head] + rest
  {
    RankOfPosition(k);
    HeadSegmentInRange(k, counts, total, head);
    ConsKeepsSegments(k, head, rest, counts, total);
    ConsKeepsOrder(k, head, rest);
    ConsKeepsCompleteness(k, head, rest, counts, total);
  }

  lemma HeadSegmentInRange(k: nat, counts: map<TaskStatus, nat>, total: nat, head: Segment)
    requires k < |TaskStatuses| && total > 0
    requires forall s :: s in counts && counts[s] <= total
    requires head == Segment(TaskStatuses[k], counts[TaskStatuses[k]], RoundPercent(counts[TaskStatuses[k]], total))
    ensures head.percent <= 100
  {
    assert counts[TaskStatuses[k]] <= total;
  }

  lemma ConsKeepsSegments(k: nat, head: Segment, rest: seq<Segment>, counts: map<TaskStatus, nat>, total: nat)
    requires total > 0
    requires forall s :: s in counts
    requires k <= Rank(head.status) && head.count == counts[head.status] > 0
    requires head.percent == RoundPercent(head.count, total) <= 100
    requires forall i :: 0 <= i < |rest| ==>
      && k + 1 <= Rank(rest[i].status)
      && rest[i].count == counts[rest[i].status] > 0
      && rest[i].percent == RoundPercent(rest[i].count, total) <= 100
    ensures forall i :: 0 <= i < |[head] + rest| ==>
      && k <= Rank(([head] + rest)[i].status)
      && ([head] + rest)[i].count == counts[([head] + rest)[i].status] > 0
      && ([head] + rest)[i].percent == RoundPercent(([head] + rest)[i].count, total) <= 100
  {
    var r := [head] + rest;
    forall i | 0 <= i < |r|
      ensures k <= Rank(r[i].status)
      ensures r[i].count == counts[r[i].status] > 0
      ensures r[i].percent == RoundPercent(r[i].count, total) <= 100
    {
      if i > 0 {
        assert r[i] == rest[i - 1];
      }
    }
  }

  lemma ConsKeepsOrder(k: nat, head: Segment, rest: seq<Segment>)
    requires Rank(head.status) == k
    requires forall i :: 0 <= i < |rest| ==> k + 1 <= Rank(rest[i].status)
    requires forall i, j :: 0 <= i < j < |rest| ==> Rank(rest[i].status) < Rank(rest[j].status)
    ensures forall i, j :: 0 <= i < j < |[head] + rest| ==> Rank(([head] + rest)[i].status) < Rank(([head] + rest)[j].status)
  {
    var r := [head] + rest;
    forall i, j | 0 <= i < j < |r| ensures Rank(r[i].status) < Rank(r[j].status) {
      if i > 0 {
        assert r[i] == rest[i - 1] && r[j] == rest[j - 1];
      } else {
        assert r[j] == rest[j - 1];
      }
    }
  }

  lemma ConsKeepsCompleteness(k: nat, head: Segment, rest: seq<Segment>, counts: map<TaskStatus, nat>, total: nat)
    requires k < |TaskStatuses| && total > 0
    requires forall s :: s in counts
    requires head == Segment(TaskStatuses[k], counts[TaskStatuses[k]], RoundPercent(counts[TaskStatuses[k]], total))
    requires forall s :: k + 1 <= Rank(s) && counts[s] > 0 ==> Segment(s, counts[s], RoundPercent(counts[s], total)) in rest
    ensures forall s :: k <= Rank(s) && counts[s] > 0 ==> Segment(s, counts[s], RoundPercent(counts[s], total)) in [head] + rest
  {
    RankOfPosition(k);
    var r := [head] + rest;
    forall s | k <= Rank(s) && counts[s] > 0 ensures Segment(s, counts[s], RoundPercent(counts[s], total)) in r {
      if Rank(s) == k {
        assert r[0] == head;
      } else {
        var seg := Segment(s, counts[s], RoundPercent(counts[s], total));
        var i :| 0 <= i < |rest| && rest[i] == seg;
        assert r[i + 1] == seg;
      }
    }
  }

  /** The chart's segments for a list of deliverables: exactly the statuses some
      deliverable has, in display order, each carrying its count and its rounded
      share of the total. */
  function Segments(ds: seq<Deliverable>): (r: seq<Segment>)
    ensures forall i :: 0 <= i < |r| ==>
      && r[i].count == CountStatus(ds, r[i].status) > 0
      && r[i].percent == RoundPercent(r[i].count, |ds|) <= 100
    ensures forall i, j :: 0 <= i < j < |r| ==> Rank(r[i].status) < Rank(r[j].status)
    ensures forall s :: CountStatus(ds, s) > 0 ==> Segment(s, CountStatus(ds, s), RoundPercent(CountStatus(ds, s), |ds|)) in r
  {
    SegmentsFrom(0, StatusCounts(ds), |ds|)
  }

  /** The chart shows its empty state exactly when there are no deliverables. */
  lemma SegmentsEmptyIffNoDeliverables(ds: seq<Deliverable>)
    ensures Segments(ds) == [] <==> |ds| == 0
  {
    if |ds| > 0 {
      assert CountStatus(ds, ds[0].status) > 0;
    }
  }

  /** When every deliverable shares one status the chart is a single full segment. */
  lemma SingleStatusSegment(ds: seq<Deliverable>, s: TaskStatus)
    requires |ds| > 0
    requires forall i :: 0 <= i < |ds| ==> ds[i].status == s
    ensures Segments(ds) == [Segment(s, |ds|, 100)]
  {
    var counts := StatusCounts(ds);
    forall t ensures counts[t] == if t == s then |ds| else 0 {
      CountUniformStatus(ds, s, t);
    }
    SegmentsFromSingle(0, counts, |ds|, s);
    RoundPercentWhole(|ds|);
  }

  /** With only status `s` counted, the segments from position `k` on are the one
      segment of `s` if `s` is not yet behind, and none otherwise. */
  lemma {:induction false} SegmentsFromSingle(k: nat, counts: map<TaskStatus, nat>, total: nat, s: TaskStatus)
    requires k <= |TaskStatuses|
    requires forall t :: t in counts && counts[t] <= total
    requires forall t :: t != s ==> counts[t] == 0
    requires counts[s] > 0
    ensures SegmentsFrom(k, counts, total) ==
      if k <= Rank(s) then [Segment(s, counts[s], RoundPercent(counts[s], total))] else []
    decreases |TaskStatuses| - k
  {
    if k < |TaskStatuses| {
      SegmentsFromSingle(k + 1, counts, total, s);
      RankOfPosition(k);
      var seg := Segment(s, counts[s], RoundPercent(counts[s], total));
      if k == Rank(s) {
        SegmentsFromPresent(k, counts, total, seg);
        assert SegmentsFrom(k + 1, counts, total) == [];
      } else if k < Rank(s) {
        SegmentsFromAbsent(k, counts, total);
        assert SegmentsFrom(k + 1, counts, total) == [seg];
      } else {
        SegmentsFromAbsent(k, counts, total);
        assert SegmentsFrom(k + 1, counts, total) == [];
      }
    }
  }

  // ---------------------------------------------------------------------------
  // Wedge layout
  // ---------------------------------------------------------------------------

  /** An angle in tenths of a degree, clockwise from twelve o'clock. Every angle
      the layout produces is a whole number of tenths: a 1% share is 3.6 degrees,
      the gap 3, half the gap 1.5, the minimum sweep 2, and the drawn sweeps are
      even so the midpoints are whole too. */
  type Angle = int

  /** The full circle, 360 degrees. */
  const FullTurn: Angle := 3600
  /** Half a turn, beyond which SVG must draw the long way round. */
  const HalfTurn: Angle := 1800
  /** 3 degrees left blank between neighbouring wedges. */
  const GapAngle: Angle := 30
  /** The narrowest wedge drawn, 2 degrees, however small its share. */
  const MinSweep: Angle := 20
  const InnerRadius: int := 44
  const OuterRadius: int := 72
  /** Percentage labels are drawn only on segments of at least this share. */
  const LabelMinPercent: nat := 12

  /** The angle a share of `percent` takes of the full circle. */
  function IdealSweep(percent: int): Angle {
    36 * percent
  }

  /** The drawn sweep: the ideal sweep less the gap, but never below the minimum. */
  function AdjustedSweep(percent: int): (a: Angle)
    ensures a >= MinSweep && a >= IdealSweep(percent) - GapAngle
    ensures a == MinSweep || a == IdealSweep(percent) - GapAngle
    ensures a % 2 == 0
  {
    var segmentAngle := IdealSweep(percent);
    if segmentAngle - GapAngle > MinSweep then segmentAngle - GapAngle else MinSweep
  }

  /** One drawn wedge: its segment, its angular extent, where its label sits, the
      SVG large-arc flag and whether the label is drawn. */
  datatype Arc = Arc(
    segment: Segment,
    startAngle: Angle,
    endAngle: Angle,
    labelAngle: Angle,
    labelRadius: int,
    largeArc: bool,
    showLabel: bool)

  /** The wedge of `seg` when the running cursor stands at `cursor`. */
  function ArcAt(seg: Segment, cursor: Angle): Arc {
    var startAngle := cursor + GapAngle / 2;
    var endAngle := startAngle + AdjustedSweep(seg.percent);
    var midAngle := (startAngle + endAngle) / 2;
    var labelRadius := (InnerRadius + OuterRadius) / 2;
    Arc(seg, startAngle, endAngle, midAngle, labelRadius,
        endAngle - startAngle > HalfTurn, !(seg.percent < LabelMinPercent))
  }

  /** The geometry of a wedge: it starts half a gap past the cursor, sweeps the
      adjusted angle, carries its label midway along the arc and midway across the
      ring, takes the long way round exactly when it sweeps more than half a turn,
      labels exactly the shares of at least 12%, and for a share of at least 1%
      stays inside the slot from the cursor to the cursor plus its ideal sweep. */
  lemma ArcGeometry(seg: Segment, cursor: Angle)
    ensures ArcAt(seg, cursor).segment == seg
    ensures 2 * ArcAt(seg, cursor).startAngle == 2 * cursor + GapAngle
    ensures ArcAt(seg, cursor).endAngle - ArcAt(seg, cursor).startAngle == AdjustedSweep(seg.percent)
    ensures seg.percent >= 1 ==>
      cursor <= ArcAt(seg, cursor).startAngle && ArcAt(seg, cursor).endAngle <= cursor + IdealSweep(seg.percent)
    ensures ArcAt(seg, cursor).startAngle < ArcAt(seg, cursor).labelAngle < ArcAt(seg, cursor).endAngle
    ensures ArcAt(seg, cursor).labelAngle - ArcAt(seg, cursor).startAngle == ArcAt(seg, cursor).endAngle - ArcAt(seg, cursor).labelAngle
    ensures InnerRadius < ArcAt(seg, cursor).labelRadius < OuterRadius
    ensures ArcAt(seg, cursor).labelRadius - InnerRadius == OuterRadius - ArcAt(seg, cursor).labelRadius
    ensures ArcAt(seg, cursor).largeArc <==> ArcAt(seg, cursor).endAngle - ArcAt(seg, cursor).startAngle > HalfTurn
    ensures ArcAt(seg, cursor).showLabel <==> seg.percent >= LabelMinPercent
  {
  }

  /** The sum of the segments' percentages. */
  function SumPercents(segs: seq<Segment>): nat {
    if |segs| == 0 then 0 else SumPercents(segs[..|segs| - 1]) + segs[|segs| - 1].percent
  }

  /** The running total after segment `i` is the total before it plus its share. */
  lemma SumPercentsSnoc(segs: seq<Segment>, i: nat)
    requires i < |segs|
    ensures SumPercents(segs[..i + 1]) == SumPercents(segs[..i]) + segs[i].percent
  {
    assert segs[..i + 1][..i] == segs[..i];
  }

  /** The wedges and the cursor after the last one. */
  datatype Layout = Layout(arcs: seq<Arc>, cursor: Angle)

  /** Lays the segments out in order from `cursor`, one wedge each, the running
      cursor advancing by each segment's ideal sweep; the final cursor has
      advanced by the ideal sweep of the total percentage. */
  function LayoutArcs(segs: seq<Segment>, cursor: Angle): (l: Layout)
    ensures |l.arcs| == |segs|
    ensures l.cursor == cursor + IdealSweep(SumPercents(segs))
  {
    if |segs| == 0 then Layout([], cursor)
    else
      var before := LayoutArcs(segs[..|segs| - 1], cursor);
      var seg := segs[|segs| - 1];
      Layout(before.arcs + [ArcAt(seg, before.cursor)], before.cursor + IdealSweep(seg.percent))
  }

  /** The last segment's wedge starts from the cursor the earlier ones leave. */
  lemma LastWedge(segs: seq<Segment>, cursor: Angle, i: nat)
    requires i + 1 == |segs|
    ensures LayoutArcs(segs, cursor).arcs[i] == ArcAt(segs[i], cursor + IdealSweep(SumPercents(segs[..i])))
  {
  }

  /** Laying out one more segment leaves the earlier wedges where they were. */
  lemma EarlierWedge(segs: seq<Segment>, cursor: Angle, i: nat)
    requires i + 1 < |segs|
    ensures LayoutArcs(segs, cursor).arcs[i] == LayoutArcs(segs[..|segs| - 1], cursor).arcs[i]
  {
  }

  /** Segment i's wedge is placed at the starting cursor plus the ideal sweeps of
      the segments before it. */
  lemma {:induction false} LayoutPlacesWedge(segs: seq<Segment>, cursor: Angle, i: nat)
    requires i < |segs|
    ensures LayoutArcs(segs, cursor).arcs[i] == ArcAt(segs[i], cursor + IdealSweep(SumPercents(segs[..i])))
    decreases |segs|
  {
    if i + 1 < |segs| {
      var prefix := segs[..|segs| - 1];
      LayoutPlacesWedge(prefix, cursor, i);
      EarlierWedge(segs, cursor, i);
      assert prefix[..i] == segs[..i];
      assert prefix[i] == segs[i];
    } else {
      LastWedge(segs, cursor, i);
    }
  }

  /** Every wedge is at least the minimum sweep wide. */
  lemma WedgesAreVisible(segs: seq<Segment>, cursor: Angle, i: nat)
    requires i < |segs|
    ensures LayoutArcs(segs, cursor).arcs[i].endAngle - LayoutArcs(segs, cursor).arcs[i].startAngle >= MinSweep
  {
    LayoutPlacesWedge(segs, cursor, i);
    ArcGeometry(segs[i], cursor + IdealSweep(SumPercents(segs[..i])));
  }

  /** A wedge whose share is at least 1% ends no later than the next one starts. */
  lemma WedgesDoNotOverlap(segs: seq<Segment>, cursor: Angle, i: nat)
    requires i + 1 < |segs|
    requires segs[i].percent >= 1
    ensures LayoutArcs(segs, cursor).arcs[i].endAngle <= LayoutArcs(segs, cursor).arcs[i + 1].startAngle
  {
    SumPercentsSnoc(segs, i);
    LayoutPlacesWedge(segs, cursor, i);
    LayoutPlacesWedge(segs, cursor, i + 1);
    ArcGeometry(segs[i], cursor + IdealSweep(SumPercents(segs[..i])));
    ArcGeometry(segs[i + 1], cursor + IdealSweep(SumPercents(segs[..i + 1])));
  }

  /** A segment whose share rounds to 0% is still drawn at the minimum sweep, so its
      wedge runs the whole minimum sweep past the start of the next one. */
  lemma ZeroPercentWedgeOverlapsNext(segs: seq<Segment>, cursor: Angle, i: nat)
    requires i + 1 < |segs|
    requires segs[i].percent == 0
    ensures LayoutArcs(segs, cursor).arcs[i].endAngle == LayoutArcs(segs, cursor).arcs[i + 1].startAngle + MinSweep
  {
    SumPercentsSnoc(segs, i);
    LayoutPlacesWedge(segs, cursor, i);
    LayoutPlacesWedge(segs, cursor, i + 1);
    ArcGeometry(segs[i], cursor + IdealSweep(SumPercents(segs[..i])));
    ArcGeometry(segs[i + 1], cursor + IdealSweep(SumPercents(segs[..i + 1])));
  }

  /** Percentages adding up to 100 close the circle exactly. */
  lemma FullCircle(segs: seq<Segment>)
    requires SumPercents(segs) == 100
    ensures LayoutArcs(segs, 0).cursor == FullTurn
  {
  }

  // ---------------------------------------------------------------------------
  // Worked examples
  // ---------------------------------------------------------------------------

  /** Two completed, one implementing, one on hold, one not started: the histogram
      is 2/1/1/1 with nothing in planning, the chart reads 40% complete, and it
      shows four segments in display order, Completed at 40% and the other three
      at 20%, with planning left out. */
  lemma {:induction false} FiveDeliverablesExample(ds: seq<Deliverable>)
    requires |ds| == 5
    requires ds[0].status == Completed && ds[1].status == Completed && ds[2].status == Implementing
    requires ds[3].status == OnHold && ds[4].status == NotStarted
    ensures forall s :: StatusCounts(ds)[s] == (if s == Completed then 2 else if s == PlanningAndResearch then 0 else 1)
    ensures CompletionPercent(ds) == 40
    ensures Segments(ds) == [Segment(NotStarted, 1, 20), Segment(Implementing, 1, 20), Segment(OnHold, 1, 20), Segment(Completed, 2, 40)]
  {
    FiveHistogram(ds);
    FifthsRound();
    FiveSegments(StatusCounts(ds));
  }

  /** The histogram of the five deliverables above. */
  lemma {:induction false} FiveHistogram(ds: seq<Deliverable>)
    requires |ds| == 5
    requires ds[0].status == Completed && ds[1].status == Completed && ds[2].status == Implementing
    requires ds[3].status == OnHold && ds[4].status == NotStarted
    ensures forall s :: StatusCounts(ds)[s] == (if s == Completed then 2 else if s == PlanningAndResearch then 0 else 1)
  {
    forall s ensures CountStatus(ds, s) == (if s == Completed then 2 else if s == PlanningAndResearch then 0 else 1) {
      assert ds[4..][1..] == [];
      assert ds[3..][1..] == ds[4..];
      assert ds[2..][1..] == ds[3..];
      assert ds[1..][1..] == ds[2..];
      assert CountStatus(ds[3..], s) == (if s == OnHold || s == NotStarted then 1 else 0);
      assert CountStatus(ds[1..], s) == (if s == PlanningAndResearch then 0 else 1);
    }
  }

  /** The segments of the 1/0/1/1/2 histogram over five deliverables, built from
      the last display position back to the first. */
  lemma FiveSegments(counts: map<TaskStatus, nat>)
    requires forall s :: s in counts && counts[s] == (if s == Completed then 2 else if s == PlanningAndResearch then 0 else 1)
    ensures SegmentsFrom(0, counts, 5) == [Segment(NotStarted, 1, 20), Segment(Implementing, 1, 20), Segment(OnHold, 1, 20), Segment(Completed, 2, 40)]
  {
    FifthsRound();
    SegmentsFromPresent(0, counts, 5, Segment(NotStarted, 1, 20));
    FiveSegmentsFromOne(counts);
    PrependThree(Segment(NotStarted, 1, 20), Segment(Implementing, 1, 20), Segment(OnHold, 1, 20), Segment(Completed, 2, 40));
  }

  lemma FiveSegmentsFromOne(counts: map<TaskStatus, nat>)
    requires forall s :: s in counts && counts[s] == (if s == Completed then 2 else if s == PlanningAndResearch then 0 else 1)
    ensures SegmentsFrom(1, counts, 5) == [Segment(Implementing, 1, 20), Segment(OnHold, 1, 20), Segment(Completed, 2, 40)]
  {
    SegmentsFromAbsent(1, counts, 5);
    FiveSegmentsFromTwo(counts);
  }

  lemma FiveSegmentsFromTwo(counts: map<TaskStatus, nat>)
    requires forall s :: s in counts && counts[s] == (if s == Completed then 2 else if s == PlanningAndResearch then 0 else 1)
    ensures SegmentsFrom(2, counts, 5) == [Segment(Implementing, 1, 20), Segment(OnHold, 1, 20), Segment(Completed, 2, 40)]
  {
    FifthsRound();
    SegmentsFromPresent(2, counts, 5, Segment(Implementing, 1, 20));
    FiveSegmentsFromThree(counts);
    PrependTwo(Segment(Implementing, 1, 20), Segment(OnHold, 1, 20), Segment(Completed, 2, 40));
  }

  lemma FiveSegmentsFromThree(counts: map<TaskStatus, nat>)
    requires forall s :: s in counts && counts[s] == (if s == Completed then 2 else if s == PlanningAndResearch then 0 else 1)
    ensures SegmentsFrom(3, counts, 5) == [Segment(OnHold, 1, 20), Segment(Completed, 2, 40)]
  {
    FifthsRound();
    SegmentsFromPresent(3, counts, 5, Segment(OnHold, 1, 20));
    FiveSegmentsFromFour(counts);
    PrependOne(Segment(OnHold, 1, 20), Segment(Completed, 2, 40));
  }

  lemma FiveSegmentsFromFour(counts: map<TaskStatus, nat>)
    requires forall s :: s in counts && counts[s] == (if s == Completed then 2 else if s == PlanningAndResearch then 0 else 1)
    ensures SegmentsFrom(4, counts, 5) == [Segment(Completed, 2, 40)]
  {
    FifthsRound();
    SegmentsFromPresent(4, counts, 5, Segment(Completed, 2, 40));
    PrependNone(Segment(Completed, 2, 40));
  }

  /** One and two fifths round to 20% and 40%. */
  lemma FifthsRound()
    ensures RoundPercent(1, 5) == 20 && RoundPercent(2, 5) == 40
  {
    RoundPercentUnique(1, 5, 20);
    RoundPercentUnique(2, 5, 40);
  }

  lemma PrependNone(a: Segment)
    ensures [a] + [] == [a]
  {
  }

  lemma PrependOne(a: Segment, b: Segment)
    ensures [a] + [b] == [a, b]
  {
  }

  lemma PrependTwo(a: Segment, b: Segment, c: Segment)
    ensures [a] + [b, c] == [a, b, c]
  {
  }

  lemma PrependThree(a: Segment, b: Segment, c: Segment, d: Segment)
    ensures [a] + [b, c, d] == [a, b, c, d]
  {
  }

  /** A status at position `k` with deliverables puts its segment in front of the
      segments from `k + 1` on. */
  lemma SegmentsFromPresent(k: nat, counts: map<TaskStatus, nat>, total: nat, head: Segment)
    requires k < |TaskStatuses|
    requires forall s :: s in counts && counts[s] <= total
    requires counts[TaskStatuses[k]] > 0
    requires head == Segment(TaskStatuses[k], counts[TaskStatuses[k]], RoundPercent(counts[TaskStatuses[k]], total))
    ensures SegmentsFrom(k, counts, total) == [head] + SegmentsFrom(k + 1, counts, total)
  {
  }

  /** A status at position `k` without deliverables adds no segment. */
  lemma SegmentsFromAbsent(k: nat, counts: map<TaskStatus, nat>, total: nat)
    requires k < |TaskStatuses|
    requires forall s :: s in counts && counts[s] <= total
    requires counts[TaskStatuses[k]] == 0
    ensures SegmentsFrom(k, counts, total) == SegmentsFrom(k + 1, counts, total)
  {
  }

  /** Independent rounding need not add up to 100: one deliverable in each of three
      statuses gives three 33% segments, whose wedges stop 3.6 degrees short of
      the full circle. */
  lemma ThirdsLeaveAGap(segs: seq<Segment>)
    requires |segs| == 3
    requires forall i :: 0 <= i < 3 ==> segs[i].count == 1
    requires forall i :: 0 <= i < 3 ==> segs[i].percent == RoundPercent(segs[i].count, 3)
    ensures forall i :: 0 <= i < 3 ==> segs[i].percent == 33
    ensures LayoutArcs(segs, 0).cursor == 3564
  {
    assert RoundPercent(1, 3) == 33;
    assert segs[0].percent == 33 && segs[1].percent == 33 && segs[2].percent == 33;
    assert SumPercents(segs[..1]) == 33 by { assert segs[..1][..0] == []; }
    assert SumPercents(segs[..2]) == 66 by { assert segs[..2][..1] == segs[..1]; }
    assert SumPercents(segs) == 99 by { assert segs[..2] == segs[..|segs| - 1]; }
  }

  // ---------------------------------------------------------------------------
  // The rendered chart
  // ---------------------------------------------------------------------------

  /** What the chart shows: the empty state, or the completion percentage and the
      wedges. */
  datatype Chart = NoDeliverables | Donut(completionPercent: nat, arcs: seq<Arc>)

  /** The chart for a list of deliverables: the empty state exactly when the list is
      empty, otherwise one wedge per segment laid out from angle 0. */
  function ProgressChart(ds: seq<Deliverable>): (c: Chart)
    ensures c.NoDeliverables? <==> |ds| == 0
    ensures c.Donut? ==> c.completionPercent == CompletionPercent(ds) && c.arcs == LayoutArcs(Segments(ds), 0).arcs
  {
    var segments := Segments(ds);
    SegmentsEmptyIffNoDeliverables(ds);
    if |segments| == 0 then NoDeliverables
    else Donut(CompletionPercent(ds), LayoutArcs(segments, 0).arcs)
  }
}
