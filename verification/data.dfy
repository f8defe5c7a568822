/** Deliverable records and the scheduling utilities of the roadmap feature:
    the enclosing span of a list of deliverables, the next free start date, the
    date-range overlap check and the per-status histogram.

    Calendar dates are integer day numbers. Projecting a deliverable's end date
    is delegated to the working-day calendar `addWorkingDays(start, days,
    excludeHolidays, excludeSaturdays)`, which this model does not define: every
    operation takes it as a parameter, so nothing proved here depends on how the
    calendar counts days. */
module RoadmapData {
  import opened Wrappers

  datatype TaskStatus = NotStarted | PlanningAndResearch | Implementing | OnHold | Completed

  /** The closed status set, in display order. */
  const TaskStatuses: seq<TaskStatus> := [NotStarted, PlanningAndResearch, Implementing, OnHold, Completed]

  /** The position of `s` in the display order. */
  function Rank(s: TaskStatus): (k: nat)
    ensures k < |TaskStatuses| && TaskStatuses[k] == s
  {
    match s
    case NotStarted => 0
    case PlanningAndResearch => 1
    case Implementing => 2
    case OnHold => 3
    case Completed => 4
  }

  /** The two optional calendar flags a deliverable, or an options argument, may
      carry; `None` is a flag that was never set. */
  datatype Exclusions = Exclusions(excludeHolidays: Option<bool>, excludeSaturdays: Option<bool>)

  /** An options argument that is absent altogether sets neither flag. */
  const NoExclusions: Exclusions := Exclusions(None, None)

  /** The flags actually handed to the working-day calendar. */
  datatype Config = Config(excludeHolidays: bool, excludeSaturdays: bool)

  /** The defaults applied at every projection: holidays are excluded unless
      explicitly switched off, Saturdays are worked unless explicitly excluded. */
  function Resolve(e: Exclusions): (c: Config)
    ensures c.excludeHolidays <==> e.excludeHolidays != Some(false)
    ensures c.excludeSaturdays <==> e.excludeSaturdays == Some(true)
  {
    Config(e.excludeHolidays.GetOr(true), e.excludeSaturdays.GetOr(false))
  }

  datatype Deliverable = Deliverable(
    id: string,
    text: string,
    status: TaskStatus,
    startDate: int,
    durationDays: int,
    exclusions: Exclusions)

  /** The working-day calendar: (start, days, excludeHolidays, excludeSaturdays) to end. */
  type Projector = (int, int, bool, bool) -> int

  /** The projected end of a range starting at `start` and lasting `days` working days. */
  function ProjectEnd(start: int, days: int, e: Exclusions, addWorkingDays: Projector): int {
    var c := Resolve(e);
    addWorkingDays(start, days, c.excludeHolidays, c.excludeSaturdays)
  }

  /** The projected end of a deliverable, under its own flags. */
  function EndOf(d: Deliverable, addWorkingDays: Projector): int {
    ProjectEnd(d.startDate, d.durationDays, d.exclusions, addWorkingDays)
  }

  /** With no flags set, a projection excludes holidays and works Saturdays. */
  lemma DefaultProjection(start: int, days: int, addWorkingDays: Projector)
    ensures ProjectEnd(start, days, NoExclusions, addWorkingDays) == addWorkingDays(start, days, true, false)
  {
  }

  // ---------------------------------------------------------------------------
  // Aggregated span
  // ---------------------------------------------------------------------------

  /** The earliest start date, folded left to right: a later element replaces the
      running minimum only when it starts strictly earlier. */
  function MinStart(ds: seq<Deliverable>): (m: int)
    requires |ds| > 0
    ensures forall i :: 0 <= i < |ds| ==> m <= ds[i].startDate
    ensures exists i :: 0 <= i < |ds| && ds[i].startDate == m
  {
    if |ds| == 1 then ds[0].startDate
    else
      var m := MinStart(ds[..|ds| - 1]);
      var s := ds[|ds| - 1].startDate;
      assert forall i :: 0 <= i < |ds| - 1 ==> ds[..|ds| - 1][i] == ds[i];
      if s < m then s else m
  }

  /** The latest projected end date, folded left to right: a later element replaces
      the running maximum only when it ends strictly later. */
  function MaxEnd(ds: seq<Deliverable>, addWorkingDays: Projector): (m: int)
    requires |ds| > 0
    ensures forall i :: 0 <= i < |ds| ==> EndOf(ds[i], addWorkingDays) <= m
    ensures exists i :: 0 <= i < |ds| && EndOf(ds[i], addWorkingDays) == m
  {
    if |ds| == 1 then EndOf(ds[0], addWorkingDays)
    else
      var m := MaxEnd(ds[..|ds| - 1], addWorkingDays);
      var e := EndOf(ds[|ds| - 1], addWorkingDays);
      assert forall i :: 0 <= i < |ds| - 1 ==> ds[..|ds| - 1][i] == ds[i];
      if e > m then e else m
  }

  /** The span a roadmap card shows for its deliverables. */
  datatype Span = Span(startDate: int, endDate: int, durationDays: int)

  /** The enclosing span of a list of deliverables: absent for an empty list;
      otherwise it starts at the earliest start, ends at the latest projected end,
      and its length is the number of calendar days between the two. */
  function ComputeCardDuration(ds: seq<Deliverable>, addWorkingDays: Projector): (r: Option<Span>)
    ensures r.None? <==> |ds| == 0
    ensures r.Some? ==>
      && (forall i :: 0 <= i < |ds| ==> r.value.startDate <= ds[i].startDate)
      && (exists i :: 0 <= i < |ds| && ds[i].startDate == r.value.startDate)
      && (forall i :: 0 <= i < |ds| ==> EndOf(ds[i], addWorkingDays) <= r.value.endDate)
      && (exists i :: 0 <= i < |ds| && EndOf(ds[i], addWorkingDays) == r.value.endDate)
      && r.value.durationDays == r.value.endDate - r.value.startDate
  {
    if |ds| == 0 then None
    else
      var start := MinStart(ds);
      var end := MaxEnd(ds, addWorkingDays);
      Some(Span(start, end, end - start))
  }

  /** The suggested start for a new deliverable: `today` for an empty list,
      otherwise the end of the card's span, which no existing deliverable
      outlasts. */
  function NextAvailableDate(ds: seq<Deliverable>, today: int, addWorkingDays: Projector): (r: int)
    ensures |ds| == 0 ==> r == today
    ensures |ds| > 0 ==> r == ComputeCardDuration(ds, addWorkingDays).value.endDate
    ensures forall i :: 0 <= i < |ds| ==> EndOf(ds[i], addWorkingDays) <= r
  {
    if |ds| == 0 then today else MaxEnd(ds, addWorkingDays)
  }

  /** A one-deliverable card spans exactly that deliverable. */
  lemma SingleDeliverableSpan(d: Deliverable, addWorkingDays: Projector)
    ensures ComputeCardDuration([d], addWorkingDays)
         == Some(Span(d.startDate, EndOf(d, addWorkingDays), EndOf(d, addWorkingDays) - d.startDate))
  {
  }

  // ---------------------------------------------------------------------------
  // Overlap detection
  // ---------------------------------------------------------------------------

  /** Whether the scan skips `d`: only a non-empty `excludeId` skips anything. */
  predicate Skipped(d: Deliverable, excludeId: Option<string>) {
    excludeId.Some? && excludeId.value != "" && d.id == excludeId.value
  }

  /** Strict intersection of two date ranges; ranges that only touch do not overlap. */
  predicate Overlaps(newStart: int, newEnd: int, existingStart: int, existingEnd: int) {
    newStart < existingEnd && newEnd > existingStart
  }

  /** Whether deliverable `d`, unless skipped, collides with the range [newStart, newEnd]. */
  predicate ConflictsWith(d: Deliverable, newStart: int, newEnd: int, excludeId: Option<string>, addWorkingDays: Projector) {
    !Skipped(d, excludeId) && Overlaps(newStart, newEnd, d.startDate, EndOf(d, addWorkingDays))
  }

  /** The scan loop from position `k` on, returning at the first collision. */
  function ScanFrom(ds: seq<Deliverable>, k: nat, newStart: int, newEnd: int, excludeId: Option<string>, addWorkingDays: Projector): (r: bool)
    requires k <= |ds|
    ensures r <==> exists i :: k <= i < |ds| && ConflictsWith(ds[i], newStart, newEnd, excludeId, addWorkingDays)
    decreases |ds| - k
  {
    if k == |ds| then false
    else if Skipped(ds[k], excludeId) then ScanFrom(ds, k + 1, newStart, newEnd, excludeId, addWorkingDays)
    else if Overlaps(newStart, newEnd, ds[k].startDate, EndOf(ds[k], addWorkingDays)) then true
    else ScanFrom(ds, k + 1, newStart, newEnd, excludeId, addWorkingDays)
  }

  /** Whether the candidate range (start, duration, options) overlaps some
      deliverable other than the one `excludeId` names. */
  function IsDateRangeOccupied(ds: seq<Deliverable>, startDate: int, durationDays: int,
                               excludeId: Option<string>, options: Exclusions, addWorkingDays: Projector): (r: bool)
    ensures var newEnd := ProjectEnd(startDate, durationDays, options, addWorkingDays);
      r <==> exists i :: 0 <= i < |ds| && ConflictsWith(ds[i], startDate, newEnd, excludeId, addWorkingDays)
    ensures |ds| == 0 ==> !r
  {
    var newEnd := ProjectEnd(startDate, durationDays, options, addWorkingDays);
    ScanFrom(ds, 0, startDate, newEnd, excludeId, addWorkingDays)
  }

  /** An empty or absent `excludeId` skips nothing. */
  lemma EmptyExcludeIdSkipsNothing(ds: seq<Deliverable>, startDate: int, durationDays: int,
                                   options: Exclusions, addWorkingDays: Projector)
    ensures IsDateRangeOccupied(ds, startDate, durationDays, Some(""), options, addWorkingDays)
         == IsDateRangeOccupied(ds, startDate, durationDays, None, options, addWorkingDays)
  {
    var e := ProjectEnd(startDate, durationDays, options, addWorkingDays);
    assert forall i :: 0 <= i < |ds| ==>
      (ConflictsWith(ds[i], startDate, e, Some(""), addWorkingDays) <==> ConflictsWith(ds[i], startDate, e, None, addWorkingDays));
  }

  /** A candidate that starts where a deliverable ends and ends where another
      starts collides with neither of them. */
  lemma TouchingRangesDoNotOverlap(before: Deliverable, after: Deliverable, startDate: int, durationDays: int,
                                   options: Exclusions, addWorkingDays: Projector)
    requires startDate == EndOf(before, addWorkingDays)
    requires ProjectEnd(startDate, durationDays, options, addWorkingDays) == after.startDate
    ensures !IsDateRangeOccupied([before, after], startDate, durationDays, None, options, addWorkingDays)
  {
  }

  /** Overlap is symmetric: checking deliverable `a` as the candidate against `b`
      gives the same answer as checking `b` against `a`. */
  lemma OverlapIsSymmetric(a: Deliverable, b: Deliverable, addWorkingDays: Projector)
    ensures IsDateRangeOccupied([b], a.startDate, a.durationDays, None, a.exclusions, addWorkingDays)
         == IsDateRangeOccupied([a], b.startDate, b.durationDays, None, b.exclusions, addWorkingDays)
  {
    var ea := EndOf(a, addWorkingDays);
    var eb := EndOf(b, addWorkingDays);
    assert IsDateRangeOccupied([b], a.startDate, a.durationDays, None, a.exclusions, addWorkingDays)
       <==> Overlaps(a.startDate, ea, b.startDate, eb);
    assert IsDateRangeOccupied([a], b.startDate, b.durationDays, None, b.exclusions, addWorkingDays)
       <==> Overlaps(b.startDate, eb, a.startDate, ea);
  }

  /** A range starting at the next available date collides with no deliverable,
      whatever its length and flags. */
  lemma NextAvailableDateIsFree(ds: seq<Deliverable>, today: int, durationDays: int,
                                excludeId: Option<string>, options: Exclusions, addWorkingDays: Projector)
    ensures !IsDateRangeOccupied(ds, NextAvailableDate(ds, today, addWorkingDays), durationDays, excludeId, options, addWorkingDays)
  {
    var start := NextAvailableDate(ds, today, addWorkingDays);
    var e := ProjectEnd(start, durationDays, options, addWorkingDays);
    forall i | 0 <= i < |ds|
      ensures !ConflictsWith(ds[i], start, e, excludeId, addWorkingDays)
    {
      assert EndOf(ds[i], addWorkingDays) <= start;
    }
  }

  // ---------------------------------------------------------------------------
  // Status histogram
  // ---------------------------------------------------------------------------

  /** The number of deliverables with status `s`. */
  function CountStatus(ds: seq<Deliverable>, s: TaskStatus): (n: nat)
    ensures n <= |ds|
  {
    if |ds| == 0 then 0
    else (if ds[0].status == s then 1 else 0) + CountStatus(ds[1..], s)
  }

  lemma {:induction false} CountStatusSnoc(ds: seq<Deliverable>, d: Deliverable, s: TaskStatus)
    ensures CountStatus(ds + [d], s) == CountStatus(ds, s) + (if d.status == s then 1 else 0)
    decreases |ds|
  {
    if |ds| == 0 {
      assert ds + [d] == [d];
    } else {
      assert (ds + [d])[1..] == ds[1..] + [d];
      CountStatusSnoc(ds[1..], d, s);
    }
  }

  /** The histogram with every status at zero. */
  const ZeroCounts: map<TaskStatus, nat> :=
    map[NotStarted := 0, PlanningAndResearch := 0, Implementing := 0, OnHold := 0, Completed := 0]

  lemma ZeroCountsComplete()
    ensures forall s :: s in ZeroCounts && ZeroCounts[s] == 0
  {
    forall s ensures s in ZeroCounts && ZeroCounts[s] == 0 {
      match s
      case NotStarted =>
      case PlanningAndResearch =>
      case Implementing =>
      case OnHold =>
      case Completed =>
    }
  }

  /** The status histogram, built as the source does: start from all zeros and
      increment the bucket of each deliverable in turn. Every status is a key, and
      each bucket holds exactly the number of deliverables with that status. */
  function StatusCounts(ds: seq<Deliverable>): (counts: map<TaskStatus, nat>)
    ensures forall s :: s in counts && counts[s] == CountStatus(ds, s)
  {
    if |ds| == 0 then
      ZeroCountsComplete();
      ZeroCounts
    else
      var prefix := ds[..|ds| - 1];
      var d := ds[|ds| - 1];
      var counts := StatusCounts(prefix);
      assert prefix + [d] == ds;
      CountStatusSnoc(prefix, d, NotStarted);
      CountStatusSnoc(prefix, d, PlanningAndResearch);
      CountStatusSnoc(prefix, d, Implementing);
      CountStatusSnoc(prefix, d, OnHold);
      CountStatusSnoc(prefix, d, Completed);
      counts[d.status := counts[d.status] + 1]
  }

  /** The buckets add up to the number of deliverables. */
  lemma {:induction false} StatusCountsTotal(ds: seq<Deliverable>)
    ensures var c := StatusCounts(ds);
      c[NotStarted] + c[PlanningAndResearch] + c[Implementing] + c[OnHold] + c[Completed] == |ds|
    decreases |ds|
  {
    if |ds| > 0 {
      StatusCountsTotal(ds[1..]);
    }
  }

  /** When every deliverable has status `s`, the bucket of `s` holds them all and
      every other bucket is empty. */
  lemma {:induction false} CountUniformStatus(ds: seq<Deliverable>, s: TaskStatus, t: TaskStatus)
    requires forall i :: 0 <= i < |ds| ==> ds[i].status == s
    ensures CountStatus(ds, t) == if t == s then |ds| else 0
    decreases |ds|
  {
    if |ds| > 0 {
      CountUniformStatus(ds[1..], s, t);
    }
  }
}
