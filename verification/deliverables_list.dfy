/** The editing logic of a roadmap card's deliverable list: which items are
    shown, the completed-items badge, and the event handlers that turn the list
    into the updated list handed back to the card (`onUpdate`). The list itself
    belongs to the caller; the editor's own state (the new item's text, whether
    the add box is open, the id awaiting delete confirmation) is a plain value
    each handler returns a new copy of. */
module DeliverablesList {
  import opened Wrappers
  import opened RoadmapData
  import JsString

  // ---------------------------------------------------------------------------
  // Sequence helpers (JavaScript's Array.prototype.filter and map)
  // ---------------------------------------------------------------------------

  /** `a` can be obtained from `b` by deleting elements: its elements occur in `b`
      in the same order. */
  predicate IsSubsequence<T(==)>(a: seq<T>, b: seq<T>)
    decreases |b|
  {
    if |a| == 0 then true
    else if |b| == 0 then false
    else if a[0] == b[0] then IsSubsequence(a[1..], b[1..])
    else IsSubsequence(a, b[1..])
  }

  /** `xs.filter(keep)`: the elements satisfying `keep`, each as often as in `xs`,
      in their original order. */
  function Filter<T(==,!new)>(xs: seq<T>, keep: T -> bool): (r: seq<T>)
    ensures IsSubsequence(r, xs)
    ensures forall x :: multiset(r)[x] == if keep(x) then multiset(xs)[x] else 0
  {
    if |xs| == 0 then []
    else
      var rest := Filter(xs[1..], keep);
      assert xs == [xs[0]] + xs[1..];
      if keep(xs[0]) then [xs[0]] + rest
      else
        assert |rest| > 0 ==> rest[0] in multiset(rest);
        rest
  }

  /** `ds.map(d => d.id === id ? change(d) : d)`: the items with id `id` are replaced
      by their changed copies, everything else stays where it was. */
  function MapMatching(ds: seq<Deliverable>, id: string, change: Deliverable -> Deliverable): (r: seq<Deliverable>)
    ensures |r| == |ds|
    ensures forall i :: 0 <= i < |ds| ==> r[i] == if ds[i].id == id then change(ds[i]) else ds[i]
  {
    if |ds| == 0 then []
    else [if ds[0].id == id then change(ds[0]) else ds[0]] + MapMatching(ds[1..], id, change)
  }

  // ---------------------------------------------------------------------------
  // What the list shows
  // ---------------------------------------------------------------------------

  /** How many items the collapsed list shows. */
  const CollapsedLength: nat := 2

  /** The items rendered: all of them on a large screen or when expanded, otherwise
      the first two (fewer if there are fewer), in order. */
  function VisibleDeliverables(ds: seq<Deliverable>, isLargeScreen: bool, isExpanded: bool): (r: seq<Deliverable>)
    ensures r <= ds
    ensures isLargeScreen || isExpanded ==> r == ds
    ensures !(isLargeScreen || isExpanded) ==>
      |r| <= CollapsedLength && (|ds| <= CollapsedLength ==> r == ds) && (|ds| > CollapsedLength ==> |r| == CollapsedLength)
  {
    var showAll := isLargeScreen || isExpanded;
    if showAll then ds
    else ds[..if |ds| < CollapsedLength then |ds| else CollapsedLength]
  }

  /** The number in the "+N more items" control. */
  function HiddenCount(ds: seq<Deliverable>): int {
    |ds| - CollapsedLength
  }

  /** Whether the show-more/show-less control is rendered. */
  predicate ShowMoreControl(ds: seq<Deliverable>, isLargeScreen: bool) {
    !isLargeScreen && |ds| > CollapsedLength
  }

  /** Whenever the control is rendered it announces a positive number, and that
      number is exactly how many items the collapsed list leaves out. */
  lemma ShowMoreCountsHiddenItems(ds: seq<Deliverable>, isLargeScreen: bool)
    requires ShowMoreControl(ds, isLargeScreen)
    ensures HiddenCount(ds) > 0
    ensures |VisibleDeliverables(ds, isLargeScreen, false)| + HiddenCount(ds) == |ds|
  {
  }

  predicate IsCompleted(d: Deliverable) {
    d.status == Completed
  }

  lemma {:induction false} CompletedFilterCount(ds: seq<Deliverable>)
    ensures |Filter(ds, IsCompleted)| == CountStatus(ds, Completed)
    decreases |ds|
  {
    if |ds| > 0 {
      CompletedFilterCount(ds[1..]);
    }
  }

  /** The completed-items badge: the number of completed deliverables, the same
      number the status histogram files under Completed. */
  function CompletedCount(ds: seq<Deliverable>): (n: nat)
    ensures n == StatusCounts(ds)[Completed]
  {
    CompletedFilterCount(ds);
    |Filter(ds, IsCompleted)|
  }

  // ---------------------------------------------------------------------------
  // Handlers
  // ---------------------------------------------------------------------------

  /** The editor's own state. */
  datatype Editor = Editor(newText: string, isAdding: bool, deleteId: Option<string>)

  /** The outcome of a handler: the list passed to `onUpdate`, if it was called,
      and the editor's next state. */
  datatype Step = Step(update: Option<seq<Deliverable>>, editor: Editor)

  /** Status change: every item with id `id` takes the new status; length, order,
      every other field and every other item are unchanged. */
  function HandleStatusChange(ds: seq<Deliverable>, id: string, status: TaskStatus): (r: seq<Deliverable>)
    ensures |r| == |ds|
    ensures forall i :: 0 <= i < |ds| ==>
      && r[i].status == (if ds[i].id == id then status else ds[i].status)
      && r[i].(status := ds[i].status) == ds[i]
  {
    MapMatching(ds, id, (d: Deliverable) => d.(status := status))
  }

  /** Setting the same status twice is the same as setting it once. */
  lemma StatusChangeIdempotent(ds: seq<Deliverable>, id: string, status: TaskStatus)
    ensures HandleStatusChange(HandleStatusChange(ds, id, status), id, status) == HandleStatusChange(ds, id, status)
  {
    var once := HandleStatusChange(ds, id, status);
    var twice := HandleStatusChange(once, id, status);
    forall i | 0 <= i < |ds| ensures twice[i] == once[i] {
      assert once[i].id == ds[i].id;
    }
  }

  /** The status badge's callback: on a read-only list nothing is updated. */
  function StatusBadgeChange(ds: seq<Deliverable>, isEditable: bool, id: string, status: TaskStatus): (r: Option<seq<Deliverable>>)
    ensures r.Some? <==> isEditable
    ensures r.Some? ==> r.value == HandleStatusChange(ds, id, status)
  {
    if isEditable then Some(HandleStatusChange(ds, id, status)) else None
  }

  /** Whether a delete is awaiting confirmation: an empty id counts as none. */
  predicate DeletePending(ed: Editor) {
    ed.deleteId.Some? && ed.deleteId.value != ""
  }

  /** Confirming a delete: with a pending id, the update drops exactly the items
      with that id, keeps every other item in order, and the pending id is
      cleared; with none, nothing happens. */
  function ConfirmDelete(ds: seq<Deliverable>, ed: Editor): (r: Step)
    ensures !DeletePending(ed) ==> r == Step(None, ed)
    ensures DeletePending(ed) ==>
      && r.update.Some?
      && r.editor == ed.(deleteId := None)
      && IsSubsequence(r.update.value, ds)
      && forall d :: multiset(r.update.value)[d] == if d.id == ed.deleteId.value then 0 else multiset(ds)[d]
  {
    if DeletePending(ed) then
      var deleteId := ed.deleteId.value;
      var updated := Filter(ds, (d: Deliverable) => d.id != deleteId);
      Step(Some(updated), ed.(deleteId := None))
    else
      Step(None, ed)
  }

  /** After a confirmed delete no remaining item carries the deleted id, and a
      second confirmation finds nothing pending. */
  lemma DeleteRemovesId(ds: seq<Deliverable>, ed: Editor)
    requires DeletePending(ed)
    ensures var r := ConfirmDelete(ds, ed);
      && (forall i :: 0 <= i < |r.update.value| ==> r.update.value[i].id != ed.deleteId.value)
      && ConfirmDelete(r.update.value, r.editor) == Step(None, r.editor)
  {
    var u := ConfirmDelete(ds, ed).update.value;
    forall i | 0 <= i < |u| ensures u[i].id != ed.deleteId.value {
      assert u[i] in multiset(u);
    }
  }

  /** A new deliverable lasts a week. */
  const NewDurationDays: int := 7

  /** Adding: blank text changes nothing; otherwise the update is the old list with
      one item appended, carrying the trimmed text, status Not Started, a week's
      duration with holidays excluded and Saturdays worked, and the next available
      date as its start; the text box is cleared and closed. */
  function HandleAdd(ds: seq<Deliverable>, ed: Editor, today: int, newId: string, addWorkingDays: Projector): (r: Step)
    ensures JsString.AllWhitespace(ed.newText) ==> r == Step(None, ed)
    ensures !JsString.AllWhitespace(ed.newText) ==>
      && r.update.Some?
      && |r.update.value| == |ds| + 1
      && r.update.value[..|ds|] == ds
      && r.editor == Editor("", false, ed.deleteId)
      && var item := r.update.value[|ds|];
      && item.id == newId
      && item.text == JsString.Trim(ed.newText)
      && item.status == NotStarted
      && item.startDate == NextAvailableDate(ds, today, addWorkingDays)
      && item.durationDays == NewDurationDays
      && item.exclusions == Exclusions(Some(true), Some(false))
  {
    var text := JsString.Trim(ed.newText);
    JsString.TrimEmptyIffBlank(ed.newText);
    if text == "" then Step(None, ed)
    else
      var nextStartDate := NextAvailableDate(ds, today, addWorkingDays);
      var newItem := Deliverable(newId, text, NotStarted, nextStartDate, NewDurationDays, Exclusions(Some(true), Some(false)));
      assert (ds + [newItem])[..|ds|] == ds;
      Step(Some(ds + [newItem]), ed.(newText := "", isAdding := false))
  }

  /** An added deliverable never collides with the ones already on the card, and
      its text is non-empty with no white space at either end. */
  lemma AddedDeliverableIsFree(ds: seq<Deliverable>, ed: Editor, today: int, newId: string, addWorkingDays: Projector)
    requires !JsString.AllWhitespace(ed.newText)
    ensures var item := HandleAdd(ds, ed, today, newId, addWorkingDays).update.value[|ds|];
      && !IsDateRangeOccupied(ds, item.startDate, item.durationDays, None, item.exclusions, addWorkingDays)
      && item.text != ""
      && !JsString.IsWhitespace(item.text[0])
      && !JsString.IsWhitespace(item.text[|item.text| - 1])
  {
    JsString.TrimEmptyIffBlank(ed.newText);
    NextAvailableDateIsFree(ds, today, NewDurationDays, None, Exclusions(Some(true), Some(false)), addWorkingDays);
  }

  /** `{...old, ...options}` on the two flags: a flag present in `options`
      overrides, an absent one leaves the old value. */
  function SpreadExclusions(base: Exclusions, options: Exclusions): Exclusions {
    Exclusions(
      if options.excludeHolidays.Some? then options.excludeHolidays else base.excludeHolidays,
      if options.excludeSaturdays.Some? then options.excludeSaturdays else base.excludeSaturdays)
  }

  /** Rescheduling: items with id `id` take the new start date and duration, and
      each flag given in `options`; flags not given, the id, text and status are
      kept; every other item is untouched. */
  function HandleDurationUpdate(ds: seq<Deliverable>, id: string, startDate: int, durationDays: int, options: Exclusions): (r: seq<Deliverable>)
    ensures |r| == |ds|
    ensures forall i :: 0 <= i < |ds| && ds[i].id != id ==> r[i] == ds[i]
    ensures forall i :: 0 <= i < |ds| && ds[i].id == id ==>
      && r[i].id == id && r[i].text == ds[i].text && r[i].status == ds[i].status
      && r[i].startDate == startDate && r[i].durationDays == durationDays
      && (options.excludeHolidays.Some? ==> r[i].exclusions.excludeHolidays == options.excludeHolidays)
      && (options.excludeHolidays.None? ==> r[i].exclusions.excludeHolidays == ds[i].exclusions.excludeHolidays)
      && (options.excludeSaturdays.Some? ==> r[i].exclusions.excludeSaturdays == options.excludeSaturdays)
      && (options.excludeSaturdays.None? ==> r[i].exclusions.excludeSaturdays == ds[i].exclusions.excludeSaturdays)
  {
    MapMatching(ds, id, (d: Deliverable) => d.(startDate := startDate, durationDays := durationDays,
                                 exclusions := SpreadExclusions(d.exclusions, options)))
  }

  /** Keys in the add box: Enter adds, Escape clears and closes the box without
      touching the list, any other key does nothing. Only Enter on non-blank text
      ever updates the list. */
  function HandleKeyDown(key: string, ds: seq<Deliverable>, ed: Editor, today: int, newId: string, addWorkingDays: Projector): (r: Step)
    ensures key == "Enter" ==> r == HandleAdd(ds, ed, today, newId, addWorkingDays)
    ensures key == "Escape" ==> r.update.None? && r.editor == Editor("", false, ed.deleteId)
    ensures key != "Enter" && key != "Escape" ==> r == Step(None, ed)
    ensures r.update.Some? ==> key == "Enter" && !JsString.AllWhitespace(ed.newText)
  {
    if key == "Enter" then HandleAdd(ds, ed, today, newId, addWorkingDays)
    else if key == "Escape" then Step(None, ed.(newText := "", isAdding := false))
    else Step(None, ed)
  }
}
