/** The selection engine of the date-range picker component: its state
    slots as one immutable value, every handler as a pure function of that
    value, and the events of the widget as a reducer.  The `onChange` call of
    a commit is returned as a payload instead of being performed. */
module DateRangePicker {
  import opened Options
  import opened Civil
  import opened JsDate
  import opened Text
  import opened DatepickerUtils

  /** What the calendar panel shows */
  datatype ViewMode = DateView | MonthView | YearView

  /** All state slots of the component: the committed range, the tentative
      range being edited, the month shown (`month` counts January as 0), the
      panel's view, whether the panel is open, and the text of the input box */
  datatype PickerState = PickerState(
    start: Option<Day>,
    end: Option<Day>,
    tempStart: Option<Day>,
    tempEnd: Option<Day>,
    year: int,
    month: int,
    view: ViewMode,
    isOpen: bool,
    inputValue: string)

  /** The arguments of one `onChange(range, weekends)` call */
  datatype ChangePayload = ChangePayload(rangeStart: string, rangeEnd: string, weekends: seq<string>)

  /** The gestures the component reacts to */
  datatype Event =
    | CellClick(date: Day)                        // a day cell of a month grid
    | InputChange(text: string)                   // the input box's new text
    | ApplyPredefined(rangeStart: Day, rangeEnd: Day)  // a predefined-range button
    | Commit                                      // the OK button
    | OutsideClick                                // a mouse press outside the widget
    | Clear                                       // the clear button of the input box
    | Focus                                       // focus on the input box
    | PrevMonth
    | NextMonth
    | ShowMonthView                               // the month label of a panel
    | ShowYearView                                // the year label of a panel
    | ChooseMonth(index: int)                     // cell `index` of the month selector
    | ChooseYear(index: int)                      // cell `index` of the year selector
    | PrevYearPage
    | NextYearPage

  /** The month and year selectors have twelve cells each, so these are the
      only indices their handlers are created with */
  predicate Offered(e: Event) {
    match e
    case ChooseMonth(i) => 0 <= i < 12
    case ChooseYear(i) => 0 <= i < 12
    case _ => true
  }

  /** The state of a freshly mounted component; the cursor starts at the
      current month, which the caller passes in */
  function Initial(today: Day): (s: PickerState)
    ensures Invariant(s) && !s.isOpen && s.inputValue == []
    ensures s.tempStart.None? && s.tempEnd.None? && s.start.None? && s.end.None?
    ensures s.year == FullYear(today) && s.month == Month(today) && s.view == DateView
  {
    PickerState(None, None, None, None, FullYear(today), Month(today), DateView, false, "")
  }

  // ---------------------------------------------------------------------
  // Invariants

  /** A tentative end is only ever set together with a tentative start */
  predicate EndNeedsStart(s: PickerState) {
    s.tempEnd.Some? ==> s.tempStart.Some?
  }

  /** A complete tentative range is in order */
  predicate TentativeOrdered(s: PickerState) {
    s.tempStart.Some? && s.tempEnd.Some? ==> s.tempStart.value <= s.tempEnd.value
  }

  /** The committed range is either absent or a complete range in order */
  predicate CommittedRange(s: PickerState) {
    && (s.start.Some? <==> s.end.Some?)
    && (s.start.Some? && s.end.Some? ==> s.start.value <= s.end.value)
  }

  /** The state the component's handlers keep */
  predicate Invariant(s: PickerState) {
    && EndNeedsStart(s)
    && TentativeOrdered(s)
    && CommittedRange(s)
    && 0 <= s.month <= 11
  }

  /** Both states show the same month in the same view */
  predicate SameCursor(a: PickerState, b: PickerState) {
    a.year == b.year && a.month == b.month && a.view == b.view
  }

  /** Both states hold the same committed and tentative ranges and text */
  predicate SameSelection(a: PickerState, b: PickerState) {
    && a.start == b.start && a.end == b.end
    && a.tempStart == b.tempStart && a.tempEnd == b.tempEnd
    && a.inputValue == b.inputValue
  }

  // ---------------------------------------------------------------------
  // Selection handlers

  /** `handleDateClick`: the normalised date starts a new range when there is
      no tentative start or the range is complete; otherwise it completes the
      range on the side of the start it lies on, and is ignored when it is
      the start itself */
  function HandleDateClick(s: PickerState, date: Day): (r: PickerState)
    ensures r.tempStart.Some?
    ensures r.tempStart == Some(NormalizeDate(date)) || r.tempEnd == Some(NormalizeDate(date))
    ensures s.tempStart.None? || s.tempEnd.Some? ==>
              r.tempStart == Some(NormalizeDate(date)) && r.tempEnd.None?
    ensures r.start == s.start && r.end == s.end && r.inputValue == s.inputValue
    ensures SameCursor(s, r) && r.isOpen == s.isOpen
  {
    var d := NormalizeDate(date);
    if s.tempStart.None? || s.tempEnd.Some? then
      s.(tempStart := Some(d), tempEnd := None)
    else if d > s.tempStart.value then
      s.(tempEnd := Some(d))
    else if d < s.tempStart.value then
      s.(tempStart := Some(d), tempEnd := s.tempStart)
    else
      s
  }

  /** A click on a cell: weekend cells ignore it, other cells pass their date
      on to `handleDateClick` */
  function ClickCell(s: PickerState, date: Day): (r: PickerState)
    ensures IsWeekend(NormalizeDate(date)) ==> r == s
    ensures !IsWeekend(NormalizeDate(date)) ==>
              r.tempStart == Some(NormalizeDate(date)) || r.tempEnd == Some(NormalizeDate(date))
    ensures r.start == s.start && r.end == s.end && r.inputValue == s.inputValue
    ensures SameCursor(s, r) && r.isOpen == s.isOpen
  {
    if IsWeekend(NormalizeDate(date)) then s else HandleDateClick(s, date)
  }

  /** The range the typed text denotes, if the component accepts it: the text
      splits on " ~ " into exactly two pieces, both parse to dates, and the
      first is not after the second.  An Invalid Date compares false with
      anything, so it is never accepted. */
  function TypedRange(text: string): (r: Option<(Day, Day)>)
    ensures r.Some? <==> Accepted(text)
    ensures r.Some? ==> r.value.0 <= r.value.1
    ensures r.Some? ==> |Split(text, " ~ ")| == 2
                        && ParseDate(Split(text, " ~ ")[0]) == ValidDate(r.value.0)
                        && ParseDate(Split(text, " ~ ")[1]) == ValidDate(r.value.1)
  {
    var parts := Split(text, " ~ ");
    if |parts| == 2 then
      match (ParseDate(parts[0]), ParseDate(parts[1]))
      case (ValidDate(a), ValidDate(b)) => if a <= b then Some((a, b)) else None
      case _ => None
    else None
  }

  /** The text splits on " ~ " into exactly two pieces that both parse to
      dates, the first not after the second */
  predicate Accepted(text: string) {
    var parts := Split(text, " ~ ");
    && |parts| == 2
    && ParseDate(parts[0]).ValidDate? && ParseDate(parts[1]).ValidDate?
    && ParseDate(parts[0]).day <= ParseDate(parts[1]).day
  }

  /** `handleInputChange`: the text is always kept; the tentative range takes
      the typed range only when the text is accepted */
  function HandleInputChange(s: PickerState, text: string): (r: PickerState)
    ensures r.inputValue == text
    ensures TypedRange(text).Some? ==>
              r.tempStart == Some(TypedRange(text).value.0) && r.tempEnd == Some(TypedRange(text).value.1)
    ensures TypedRange(text).None? ==> r.tempStart == s.tempStart && r.tempEnd == s.tempEnd
    ensures r.start == s.start && r.end == s.end && SameCursor(s, r) && r.isOpen == s.isOpen
  {
    var s1 := s.(inputValue := text);
    match TypedRange(text)
    case Some((a, b)) => s1.(tempStart := Some(a), tempEnd := Some(b))
    case None => s1
  }

  /** The text the input box shows for a committed range */
  function RangeText(a: Day, b: Day): string {
    FormatDate(a) + " ~ " + FormatDate(b)
  }

  /** `applyDateRange`: a complete tentative range is committed, reported and
      written into the input box; the panel closes either way */
  function ApplyDateRange(s: PickerState): (r: (PickerState, Option<ChangePayload>))
    ensures !r.0.isOpen && SameCursor(s, r.0)
    ensures r.0.tempStart == s.tempStart && r.0.tempEnd == s.tempEnd
    ensures r.1.Some? <==> s.tempStart.Some? && s.tempEnd.Some?
    ensures r.1.Some? ==>
              && r.0.start == s.tempStart && r.0.end == s.tempEnd
              && r.0.inputValue == RangeText(s.tempStart.value, s.tempEnd.value)
              && r.1.value.rangeStart == FormatDate(s.tempStart.value)
              && r.1.value.rangeEnd == FormatDate(s.tempEnd.value)
              && r.1.value.weekends == WeekendsInRange(s.tempStart.value, s.tempEnd.value)
    ensures r.1.None? ==> r.0 == s.(isOpen := false)
  {
    if s.tempStart.Some? && s.tempEnd.Some? then
      var a, b := s.tempStart.value, s.tempEnd.value;
      var payload := ChangePayload(FormatDate(a), FormatDate(b), WeekendsInRange(a, b));
      (s.(start := s.tempStart, end := s.tempEnd, inputValue := RangeText(a, b), isOpen := false),
       Some(payload))
    else
      (s.(isOpen := false), None)
  }

  /** `applyPredefinedRange`: both ends, normalised, become the tentative range */
  function ApplyPredefinedRange(s: PickerState, a: Day, b: Day): (r: PickerState)
    ensures r.tempStart == Some(NormalizeDate(a)) && r.tempEnd == Some(NormalizeDate(b))
    ensures r.start == s.start && r.end == s.end && r.inputValue == s.inputValue
    ensures SameCursor(s, r) && r.isOpen == s.isOpen
  {
    s.(tempStart := Some(NormalizeDate(a)), tempEnd := Some(NormalizeDate(b)))
  }

  /** `cancelSelection`: the tentative range goes back to the committed one
      and the panel closes */
  function CancelSelection(s: PickerState): (r: PickerState)
    ensures r.tempStart == s.start && r.tempEnd == s.end && !r.isOpen
    ensures r.start == s.start && r.end == s.end && r.inputValue == s.inputValue && SameCursor(s, r)
  {
    s.(tempStart := s.start, tempEnd := s.end, isOpen := false)
  }

  /** The outside-click listener as registered: the effect that installs it
      has no dependencies, so it keeps calling the `cancelSelection` of the
      first render, whose committed range is the initial "none" */
  function OutsideClickAsWritten(s: PickerState): (r: PickerState)
    ensures r.tempStart.None? && r.tempEnd.None? && !r.isOpen
    ensures r.start == s.start && r.end == s.end && r.inputValue == s.inputValue && SameCursor(s, r)
  {
    var first := s.(start := None, end := None);
    var cancelled := CancelSelection(first);
    cancelled.(start := s.start, end := s.end)
  }

  /** `clearDate`: both ranges and the text are emptied */
  function ClearDate(s: PickerState): (r: PickerState)
    ensures r.start.None? && r.end.None? && r.tempStart.None? && r.tempEnd.None?
    ensures r.inputValue == []
    ensures SameCursor(s, r) && r.isOpen == s.isOpen
  {
    s.(start := None, end := None, tempStart := None, tempEnd := None, inputValue := "")
  }

  // ---------------------------------------------------------------------
  // Navigation handlers

  /** The month shown, counted in months from January of year 0 */
  function MonthNumber(s: PickerState): int {
    s.year * 12 + s.month
  }

  /** The left arrow: one month back, wrapping January to December of the
      previous year */
  function PrevMonthOf(s: PickerState): (r: PickerState)
    requires 0 <= s.month <= 11
    ensures 0 <= r.month <= 11 && MonthNumber(r) == MonthNumber(s) - 1
    ensures SameSelection(s, r) && r.view == s.view && r.isOpen == s.isOpen
  {
    if s.month > 0 then s.(month := s.month - 1) else s.(month := 11, year := s.year - 1)
  }

  /** The right arrow: one month on, wrapping December to January of the
      next year */
  function NextMonthOf(s: PickerState): (r: PickerState)
    requires 0 <= s.month <= 11
    ensures 0 <= r.month <= 11 && MonthNumber(r) == MonthNumber(s) + 1
    ensures SameSelection(s, r) && r.view == s.view && r.isOpen == s.isOpen
  {
    if s.month < 11 then s.(month := s.month + 1) else s.(month := 0, year := s.year + 1)
  }

  /** The first year of the twelve the year selector offers */
  function FirstListedYear(s: PickerState): int {
    s.year - 6
  }

  // ---------------------------------------------------------------------
  // The reducer

  /** What one event leaves behind: the next state and, for a commit, the
      `onChange` arguments */
  datatype StepResult = StepResult(state: PickerState, payload: Option<ChangePayload>)

  /** The component's reaction to one event.  The outside click restores the
      committed range, as `cancelSelection` is written to do (see
      OutsideClickAsWritten for what the registered listener does). */
  function Step(s: PickerState, e: Event): (r: StepResult)
    requires 0 <= s.month <= 11
    ensures r.payload.Some? <==> e == Commit && s.tempStart.Some? && s.tempEnd.Some?
  {
    match e
    case CellClick(date) => StepResult(ClickCell(s, date), None)
    case InputChange(text) => StepResult(HandleInputChange(s, text), None)
    case ApplyPredefined(a, b) => StepResult(ApplyPredefinedRange(s, a, b), None)
    case Commit =>
      var (next, payload) := ApplyDateRange(s);
      StepResult(next, payload)
    case OutsideClick => StepResult(CancelSelection(s.(isOpen := false)), None)
    case Clear => StepResult(ClearDate(s), None)
    case Focus => StepResult(s.(isOpen := true), None)
    case PrevMonth => StepResult(PrevMonthOf(s), None)
    case NextMonth => StepResult(NextMonthOf(s), None)
    case ShowMonthView => StepResult(s.(view := MonthView), None)
    case ShowYearView => StepResult(s.(view := YearView), None)
    case ChooseMonth(i) => StepResult(s.(month := i, view := DateView), None)
    case ChooseYear(i) => StepResult(s.(year := FirstListedYear(s) + i, view := MonthView), None)
    case PrevYearPage => StepResult(s.(year := s.year - 12), None)
    case NextYearPage => StepResult(s.(year := s.year + 12), None)
  }

  /** A predefined range whose ends are in order after normalisation */
  predicate OrderedPredefined(e: Event) {
    e.ApplyPredefined? ==> NormalizeDate(e.rangeStart) <= NormalizeDate(e.rangeEnd)
  }

  /** Every offered event keeps the invariant, provided a predefined range is
      in order */
  lemma StepKeepsInvariant(s: PickerState, e: Event)
    requires Invariant(s) && Offered(e) && OrderedPredefined(e)
    ensures Invariant(Step(s, e).state)
  {
    match e
    case CellClick(date) =>
      if !IsWeekend(NormalizeDate(date)) {
        ClickKeepsOrder(s, date);
      }
    case _ =>
  }

  /** A click keeps the tentative range in order and its end tied to its start */
  lemma ClickKeepsOrder(s: PickerState, date: Day)
    requires EndNeedsStart(s) && TentativeOrdered(s)
    ensures EndNeedsStart(HandleDateClick(s, date)) && TentativeOrdered(HandleDateClick(s, date))
  {
  }

  /** An unordered predefined range breaks the order: the handler does not
      check it */
  lemma PredefinedMayBreakOrder(s: PickerState, a: Day, b: Day)
    requires 0 <= s.month <= 11 && NormalizeDate(b) < NormalizeDate(a)
    ensures !TentativeOrdered(Step(s, ApplyPredefined(a, b)).state)
  {
  }

  /** Events applied one after another, with the payloads they emit */
  function Run(s: PickerState, events: seq<Event>): (r: (PickerState, seq<ChangePayload>))
    requires 0 <= s.month <= 11
    requires forall i :: 0 <= i < |events| ==> Offered(events[i])
    ensures 0 <= r.0.month <= 11
    decreases |events|
  {
    if events == [] then (s, [])
    else
      var step := Step(s, events[0]);
      MonthStaysInRange(s, events[0]);
      var rest := Run(step.state, events[1..]);
      (rest.0, (if step.payload.Some? then [step.payload.value] else []) + rest.1)
  }

  /** The month index stays in 0..11 under every offered event */
  lemma MonthStaysInRange(s: PickerState, e: Event)
    requires 0 <= s.month <= 11 && Offered(e)
    ensures 0 <= Step(s, e).state.month <= 11
  {
  }

  /** Any run of offered events keeps the invariant, provided every
      predefined range in it is in order */
  lemma {:induction false} RunKeepsInvariant(s: PickerState, events: seq<Event>)
    requires Invariant(s)
    requires forall i :: 0 <= i < |events| ==> Offered(events[i]) && OrderedPredefined(events[i])
    ensures Invariant(Run(s, events).0)
    decreases |events|
  {
    if events != [] {
      StepKeepsInvariant(s, events[0]);
      var next := Step(s, events[0]).state;
      assert forall i :: 0 <= i < |events[1..]| ==> Offered(events[1..][i]) && OrderedPredefined(events[1..][i]) by {
        forall i | 0 <= i < |events[1..]|
          ensures Offered(events[1..][i]) && OrderedPredefined(events[1..][i])
        {
          assert events[1..][i] == events[i + 1];
        }
      }
      RunKeepsInvariant(next, events[1..]);
    }
  }

  /** The part of the invariant that holds whatever the predefined ranges
      are: a tentative end only beside a tentative start, both committed ends
      or neither, and the month index in range */
  predicate WellFormed(s: PickerState) {
    && EndNeedsStart(s)
    && (s.start.Some? <==> s.end.Some?)
    && 0 <= s.month <= 11
  }

  /** Every offered event keeps the well-formedness, with no condition on
      predefined ranges */
  lemma StepKeepsWellFormed(s: PickerState, e: Event)
    requires WellFormed(s) && Offered(e)
    ensures WellFormed(Step(s, e).state)
  {
  }

  /** Any run of offered events keeps the well-formedness */
  lemma {:induction false} RunKeepsWellFormed(s: PickerState, events: seq<Event>)
    requires WellFormed(s)
    requires forall i :: 0 <= i < |events| ==> Offered(events[i])
    ensures WellFormed(Run(s, events).0)
    decreases |events|
  {
    if events != [] {
      StepKeepsWellFormed(s, events[0]);
      assert forall i :: 0 <= i < |events[1..]| ==> Offered(events[1..][i]) by {
        forall i | 0 <= i < |events[1..]|
          ensures Offered(events[1..][i])
        {
          assert events[1..][i] == events[i + 1];
        }
      }
      RunKeepsWellFormed(Step(s, events[0]).state, events[1..]);
    }
  }

  /** Only OK reports: a run without a commit reports nothing */
  lemma {:induction false} RunReportsOnlyCommits(s: PickerState, events: seq<Event>)
    requires 0 <= s.month <= 11
    requires forall i :: 0 <= i < |events| ==> Offered(events[i]) && events[i] != Commit
    ensures Run(s, events).1 == []
    decreases |events|
  {
    if events != [] {
      RunReportsOnlyCommits(Step(s, events[0]).state, events[1..]);
    }
  }

  // ---------------------------------------------------------------------
  // Clicks

  /** A tentative range that is strictly in order when complete */
  predicate StrictlyOrdered(s: PickerState) {
    s.tempStart.Some? && s.tempEnd.Some? ==> s.tempStart.value < s.tempEnd.value
  }

  /** Cell clicks applied one after another */
  function Clicks(s: PickerState, dates: seq<Day>): (r: PickerState)
    ensures r.start == s.start && r.end == s.end && r.inputValue == s.inputValue
    ensures SameCursor(s, r) && r.isOpen == s.isOpen
    decreases |dates|
  {
    if dates == [] then s else Clicks(ClickCell(s, dates[0]), dates[1..])
  }

  /** A click never produces a one-day range: the end it sets lies strictly
      after the start */
  lemma ClickKeepsStrictOrder(s: PickerState, date: Day)
    requires EndNeedsStart(s) && StrictlyOrdered(s)
    ensures EndNeedsStart(ClickCell(s, date)) && StrictlyOrdered(ClickCell(s, date))
  {
  }

  /** After any sequence of clicks from a state without a one-day range, a
      complete tentative range has its start strictly before its end */
  lemma {:induction false} ClicksKeepStrictOrder(s: PickerState, dates: seq<Day>)
    requires EndNeedsStart(s) && StrictlyOrdered(s)
    ensures EndNeedsStart(Clicks(s, dates)) && StrictlyOrdered(Clicks(s, dates))
    decreases |dates|
  {
    if dates != [] {
      ClickKeepsStrictOrder(s, dates[0]);
      ClicksKeepStrictOrder(ClickCell(s, dates[0]), dates[1..]);
    }
  }

  /** Clicking a weekend cell changes nothing */
  lemma WeekendClickIgnored(s: PickerState, date: Day)
    requires 0 <= s.month <= 11 && IsWeekend(NormalizeDate(date))
    ensures Step(s, CellClick(date)) == StepResult(s, None)
  {
  }

  /** A click with no tentative start, or on a complete range, starts a new
      range at the clicked day */
  lemma ClickRestartsCompleteRange(s: PickerState, date: Day)
    requires (s.tempStart.None? || s.tempEnd.Some?) && !IsWeekend(NormalizeDate(date))
    ensures ClickCell(s, date).tempStart == Some(NormalizeDate(date))
    ensures ClickCell(s, date).tempEnd.None?
  {
  }

  /** A second click on another day completes the range, in order, from the
      two days clicked */
  lemma SecondClickCompletes(s: PickerState, date: Day)
    requires s.tempStart.Some? && s.tempEnd.None? && !IsWeekend(NormalizeDate(date))
    requires NormalizeDate(date) != s.tempStart.value
    ensures var r := ClickCell(s, date);
            var d := NormalizeDate(date);
            var a := s.tempStart.value;
            && r.tempStart == Some(if d < a then d else a)
            && r.tempEnd == Some(if d < a then a else d)
  {
  }

  /** A second click on the start day itself changes nothing */
  lemma SameDayClickIgnored(s: PickerState, date: Day)
    requires s.tempStart == Some(NormalizeDate(date)) && s.tempEnd.None?
    ensures ClickCell(s, date) == s
  {
  }

  // ---------------------------------------------------------------------
  // Typed text

  /** Text made of digits and "-" contains no " ~ " */
  lemma NoRangeSeparator(t: string)
    requires forall k :: 0 <= k < |t| ==> DateTextChar(t[k])
    ensures forall k :: 0 <= k < |t| ==> t[k] != ' '
    ensures forall j :: !OccursAt(t, " ~ ", j)
  {
    forall j
      ensures !OccursAt(t, " ~ ", j)
    {
      if 0 <= j && j + 3 <= |t| {
        assert t[j..j + 3][0] == t[j] != ' ';
      }
    }
  }

  /** The text of a committed range splits back into the two formatted dates */
  lemma RangeTextSplits(a: Day, b: Day)
    ensures Split(RangeText(a, b), " ~ ") == [FormatDate(a), FormatDate(b)]
  {
    var fa, fb := FormatDate(a), FormatDate(b);
    FormatChars(FullYear(a), Month(a) + 1, Date(a));
    FormatChars(FullYear(b), Month(b) + 1, Date(b));
    NoRangeSeparator(fa);
    NoRangeSeparator(fb);
    SplitAfter(fa, " ~ ", fb);
    SplitNone(fb, " ~ ");
  }

  /** Typing the text a commit writes gives back the committed range, for
      years from 100 on and a range in order */
  lemma RangeTextRoundTrip(a: Day, b: Day)
    requires FullYear(a) >= 100 && FullYear(b) >= 100 && a <= b
    ensures TypedRange(RangeText(a, b)) == Some((a, b))
  {
    RangeTextSplits(a, b);
    ParseFormatRoundTrip(a);
    ParseFormatRoundTrip(b);
  }

  /** Typed text whose two pieces parse to an end before the start is kept
      as text, but the tentative range stays as it was */
  lemma InvertedTextIgnored(s: PickerState, text: string)
    requires |Split(text, " ~ ")| == 2
    requires ParseDate(Split(text, " ~ ")[0]).ValidDate? && ParseDate(Split(text, " ~ ")[1]).ValidDate?
    requires ParseDate(Split(text, " ~ ")[1]).day < ParseDate(Split(text, " ~ ")[0]).day
    ensures var r := HandleInputChange(s, text);
            r.tempStart == s.tempStart && r.tempEnd == s.tempEnd && r.inputValue == text
  {
  }

  /** The text a commit would write for an inverted range is such text */
  lemma InvertedRangeTextIgnored(s: PickerState, a: Day, b: Day)
    requires FullYear(a) >= 100 && FullYear(b) >= 100 && b < a
    ensures var r := HandleInputChange(s, RangeText(a, b));
            r.tempStart == s.tempStart && r.tempEnd == s.tempEnd && r.inputValue == RangeText(a, b)
  {
    RangeTextSplits(a, b);
    ParseFormatRoundTrip(a);
    ParseFormatRoundTrip(b);
    InvertedTextIgnored(s, RangeText(a, b));
  }

  /** Text without " ~ ", or with more than one, never changes the range */
  lemma TextWithoutTwoPiecesIgnored(s: PickerState, text: string)
    requires |Split(text, " ~ ")| != 2
    ensures HandleInputChange(s, text).tempStart == s.tempStart
    ensures HandleInputChange(s, text).tempEnd == s.tempEnd
  {
  }

  /** A piece that is not three numbers joined by "-" makes the text ignored */
  lemma UnparsableTextIgnored(s: PickerState, text: string)
    requires |Split(text, " ~ ")| == 2
    requires !ParseDate(Split(text, " ~ ")[0]).ValidDate? || !ParseDate(Split(text, " ~ ")[1]).ValidDate?
    ensures HandleInputChange(s, text).tempStart == s.tempStart
    ensures HandleInputChange(s, text).tempEnd == s.tempEnd
  {
  }

  // ---------------------------------------------------------------------
  // Commit, cancel and clear

  /** A commit reports the committed range as text with every weekend day of
      it, and writes that range into the input box */
  lemma CommitReports(s: PickerState)
    requires 0 <= s.month <= 11 && s.tempStart.Some? && s.tempEnd.Some?
    ensures var r := Step(s, Commit);
            var a, b := s.tempStart.value, s.tempEnd.value;
            && r.state.start == Some(a) && r.state.end == Some(b)
            && !r.state.isOpen
            && r.payload == Some(ChangePayload(FormatDate(a), FormatDate(b), WeekendsInRange(a, b)))
            && |r.payload.value.weekends| == |WeekendDays(a, b)|
            && (forall i :: 0 <= i < |r.payload.value.weekends| ==>
                  r.payload.value.weekends[i] == FormatDate(WeekendDays(a, b)[i]))
  {
    WeekendsInRangeDays(s.tempStart.value, s.tempEnd.value);
  }

  /** With the end missing, OK only closes the panel */
  lemma CommitIncompleteOnlyCloses(s: PickerState)
    requires 0 <= s.month <= 11 && s.tempEnd.None?
    ensures Step(s, Commit) == StepResult(s.(isOpen := false), None)
  {
  }

  /** After a commit, typing the text it wrote back in keeps the range
      (years from 100 on) */
  lemma CommitTextRetyped(s: PickerState)
    requires 0 <= s.month <= 11 && Invariant(s) && s.tempStart.Some? && s.tempEnd.Some?
    requires FullYear(s.tempStart.value) >= 100 && FullYear(s.tempEnd.value) >= 100
    ensures var c := Step(s, Commit).state;
            var t := Step(c, InputChange(c.inputValue)).state;
            t.tempStart == s.tempStart && t.tempEnd == s.tempEnd && t.start == s.tempStart
  {
    RangeTextRoundTrip(s.tempStart.value, s.tempEnd.value);
  }

  /** An outside click discards the edits: the tentative range is the
      committed one again, nothing else but visibility changes */
  lemma OutsideClickRestores(s: PickerState)
    requires 0 <= s.month <= 11
    ensures var r := Step(s, OutsideClick);
            && r.state == s.(tempStart := s.start, tempEnd := s.end, isOpen := false)
            && r.payload.None?
  {
  }

  /** Edits followed by an outside click leave the committed range, the text
      and the tentative range as they were after the last commit */
  lemma EditsThenOutsideClick(s: PickerState, dates: seq<Day>)
    requires 0 <= s.month <= 11 && s.tempStart == s.start && s.tempEnd == s.end
    ensures var r := Step(Clicks(s, dates), OutsideClick).state;
            r.start == s.start && r.end == s.end && r.tempStart == s.tempStart
            && r.tempEnd == s.tempEnd && r.inputValue == s.inputValue && !r.isOpen
  {
  }

  /** The registered listener differs from `cancelSelection` whenever a range
      has been committed: it empties the tentative range instead */
  lemma OutsideClickAsWrittenLosesRange(s: PickerState)
    requires s.start.Some?
    ensures OutsideClickAsWritten(s).tempStart.None?
    ensures CancelSelection(s).tempStart == s.start
    ensures OutsideClickAsWritten(s) != CancelSelection(s)
  {
  }

  /** Right after a commit the tentative range is the committed one, so an
      outside click as `cancelSelection` means it changes nothing, while the
      registered listener throws the committed range out of the tentative one */
  lemma CommitThenOutsideClick(s: PickerState)
    requires 0 <= s.month <= 11 && s.tempStart.Some? && s.tempEnd.Some?
    ensures var c := Step(s, Commit).state;
            && Step(c, OutsideClick).state == c
            && c.tempStart.Some? && OutsideClickAsWritten(c).tempStart.None?
  {
  }

  /** Clear empties both ranges and the text, and leaves the panel as it was */
  lemma ClearEmpties(s: PickerState)
    requires 0 <= s.month <= 11
    ensures var r := Step(s, Clear);
            && r.state == s.(start := None, end := None, tempStart := None, tempEnd := None, inputValue := "")
            && r.payload.None?
  {
  }

  /** A run after a clear and without commits reports nothing */
  lemma ClearThenNoReport(s: PickerState, events: seq<Event>)
    requires 0 <= s.month <= 11
    requires forall i :: 0 <= i < |events| ==> Offered(events[i]) && events[i] != Commit
    ensures Run(Step(s, Clear).state, events).1 == []
  {
    RunReportsOnlyCommits(Step(s, Clear).state, events);
  }

  // ---------------------------------------------------------------------
  // Navigation

  /** The arrows move the shown month by one, keep the month index in range
      and do not touch the selection */
  lemma ArrowsMoveOneMonth(s: PickerState)
    requires 0 <= s.month <= 11
    ensures MonthNumber(Step(s, PrevMonth).state) == MonthNumber(s) - 1
    ensures MonthNumber(Step(s, NextMonth).state) == MonthNumber(s) + 1
    ensures 0 <= Step(s, PrevMonth).state.month <= 11 && 0 <= Step(s, NextMonth).state.month <= 11
    ensures SameSelection(s, Step(s, PrevMonth).state) && SameSelection(s, Step(s, NextMonth).state)
  {
  }

  /** Going one month forth and back shows the same month again */
  lemma ArrowsInverse(s: PickerState)
    requires 0 <= s.month <= 11
    ensures Step(Step(s, NextMonth).state, PrevMonth).state == s
    ensures Step(Step(s, PrevMonth).state, NextMonth).state == s
  {
  }

  /** The year-page buttons move by twelve years and are inverse */
  lemma YearPagesMoveTwelveYears(s: PickerState)
    requires 0 <= s.month <= 11
    ensures Step(s, PrevYearPage).state == s.(year := s.year - 12)
    ensures Step(s, NextYearPage).state == s.(year := s.year + 12)
    ensures Step(Step(s, NextYearPage).state, PrevYearPage).state == s
  {
  }

  /** Choosing a year cell shows that year's month selector; the year
      selector lists twelve consecutive years centred on the current one */
  lemma ChooseYearShowsMonths(s: PickerState, i: int)
    requires 0 <= s.month <= 11 && 0 <= i < 12
    ensures var r := Step(s, ChooseYear(i)).state;
            && r.year == s.year - 6 + i && r.view == MonthView
            && s.year - 6 <= r.year <= s.year + 5
            && r.month == s.month && SameSelection(s, r)
  {
  }

  /** Choosing a month cell shows that month's days */
  lemma ChooseMonthShowsDays(s: PickerState, i: int)
    requires 0 <= s.month <= 11 && 0 <= i < 12
    ensures var r := Step(s, ChooseMonth(i)).state;
            r.month == i && r.year == s.year && r.view == DateView && SameSelection(s, r)
  {
  }

  /** Navigation events never touch the selection, and selection events
      never move the cursor */
  lemma NavigationSeparate(s: PickerState, e: Event)
    requires 0 <= s.month <= 11
    ensures (e.PrevMonth? || e.NextMonth? || e.ShowMonthView? || e.ShowYearView? ||
             e.ChooseMonth? || e.ChooseYear? || e.PrevYearPage? || e.NextYearPage? || e.Focus?) ==>
              SameSelection(s, Step(s, e).state) && Step(s, e).payload.None?
    ensures (e.CellClick? || e.InputChange? || e.ApplyPredefined? || e.Commit? ||
             e.OutsideClick? || e.Clear? || e.Focus?) ==>
              SameCursor(s, Step(s, e).state)
  {
  }

  // ---------------------------------------------------------------------
  // Derived views

  /** How a day cell is drawn */
  datatype CellClass = CellClass(isToday: bool, selected: bool, inRange: bool, weekend: bool)

  /** `renderCalendarCell`'s classes, with the current date passed in */
  function ClassifyCell(s: PickerState, date: Day, today: Day): (c: CellClass)
    ensures c.selected <==> Some(NormalizeDate(date)) in {s.tempStart, s.tempEnd}
    ensures c.inRange <==> s.tempStart.Some? && s.tempEnd.Some?
                           && s.tempStart.value <= NormalizeDate(date) <= s.tempEnd.value
    ensures c.isToday <==> NormalizeDate(date) == today
    ensures c.weekend <==> Weekday(NormalizeDate(date)) in {0, 6}
  {
    var d := NormalizeDate(date);
    CellClass(
      d == today,
      (s.tempStart.Some? && d == s.tempStart.value) || (s.tempEnd.Some? && d == s.tempEnd.value),
      s.tempStart.Some? && s.tempEnd.Some? && s.tempStart.value <= d && d <= s.tempEnd.value,
      IsWeekend(d))
  }

  /** The OK button's `disabled` expression */
  function OkDisabled(s: PickerState): (b: bool)
    ensures b <==> s.tempEnd.None?
  {
    (s.tempStart.None? && s.tempEnd.None?) || (s.tempStart.Some? && s.tempEnd.None?)
  }

  /** With the end tied to the start, OK is disabled exactly when the end is
      missing, that is exactly when a commit would report nothing */
  lemma OkDisabledMeansNoEnd(s: PickerState)
    requires EndNeedsStart(s) && 0 <= s.month <= 11
    ensures OkDisabled(s) <==> s.tempEnd.None?
    ensures OkDisabled(s) <==> Step(s, Commit).payload.None?
  {
  }

  /** The clicked (non-weekend) cell is drawn selected afterwards */
  lemma ClickedCellSelected(s: PickerState, date: Day, today: Day)
    requires !IsWeekend(NormalizeDate(date))
    ensures ClassifyCell(ClickCell(s, date), date, today).selected
  {
  }

  /** Each end of a complete tentative range is drawn selected and in range */
  lemma EndsInRange(s: PickerState, today: Day)
    requires TentativeOrdered(s) && s.tempStart.Some? && s.tempEnd.Some?
    requires !(0 <= FullYear(s.tempStart.value) <= 99) && !(0 <= FullYear(s.tempEnd.value) <= 99)
    ensures var a := ClassifyCell(s, s.tempStart.value, today);
            var b := ClassifyCell(s, s.tempEnd.value, today);
            a.selected && a.inRange && b.selected && b.inRange
  {
    NormalizeKeepsDate(s.tempStart.value);
    NormalizeKeepsDate(s.tempEnd.value);
  }

  /** The date view draws `generateCalendarGrid(year, month + offset)` for
      offsets 0 and 1.  The month the right panel shows (month index
      `month + 1`, rolled over by the constructor) starts the day after the left panel's month
      ends, so the two panels show consecutive months */
  lemma DualCalendarConsecutive(s: PickerState)
    ensures FirstOfMonth(s.year, s.month + 1) == FirstOfMonth(s.year, s.month) + MonthLength(s.year, s.month)
  {
    NextMonthFollows(s.year, s.month);
  }
}
