# Date-range picker: a Dafny model

This project models the selection engine of the `calendar-component`
repository's `DateRangePicker` widget. The widget shows two month grids.
The user builds a tentative range by clicking days, typing
`YYYY-MM-DD ~ YYYY-MM-DD` or choosing a predefined range. The OK button
commits the range and reports it through `onChange`, together with the
list of weekend days it contains.

The model covers two parts:

- The date utilities of `src/utils/datepickerUtils.ts`:
  - `normalizeDate`, `formatDate`, `parseDate` and `isWeekend`;
  - `calculateWeekendsInRange` and `generateCalendarGrid`;
  - `getPredefinedDateRanges`.
- The state machine of `src/components/DateRangePicker.tsx`:
  - every handler as a pure function of one immutable `PickerState`;
  - a reducer `Step` over the widget's events, with `Run` applying a
    sequence of events and collecting the `onChange` payloads.

Modules:

- `Options`: the `Option` type.
- `Civil`: the proleptic Gregorian calendar on day numbers. Day 0 is
  1970-01-01. A conversion in each direction is proved to be a round trip.
- `JsDate`: the part of ECMAScript `Date` the widget relies on.
  - `MakeDay` rolls the month index over into the year and counts the day
    on from the first of the month.
  - The `Date(y, m, d)` constructor reads years 0..99 as 1900..1999.
  - `getFullYear`, `getMonth`, `getDate` and `getDay` read the fields back.
- `Text`: the string functions.
  - `String(n)`, `Number(s)` on the strings the widget produces;
  - `padStart`;
  - `split` with a non-empty separator, and its inverse `Join`.
- `DatepickerUtils`: the utilities file.
- `DateRangePicker`: the component.

A `Date` is a whole local day (a `Day`, an `int`). The wall clock is a
parameter (`today`). `onChange` is not called: a commit returns its
arguments as a `ChangePayload`.

## Model

| member | source | states |
|---|---|---|
| JsDate.ConstructorYear | src/utils/datepickerUtils.ts:34 | the constructor keeps a year unchanged exactly when it is outside 0..99 |
| JsDate.MakeDay | src/utils/datepickerUtils.ts:83-98 | the day number for a year, any month index and any day count: the month index rolls into the year, and the day counts on from the first of the month, so 0 and negative days fall in the month before; MakeDayLinear and MakeDayRolled state this |
| JsDate.NewDate | src/utils/datepickerUtils.ts:34 | `new Date(y, m, d)`: MakeDay on the constructor's year, so years 0..99 mean 1900..1999 (ConstructorYear) |
| JsDate.FullYear | src/utils/datepickerUtils.ts:39 | `getFullYear()`: the proleptic Gregorian year of the day; MakeDayOfFields and MakeDayFields tie it to MakeDay |
| JsDate.Month | src/utils/datepickerUtils.ts:40 | `getMonth()` is a month index in 0..11 |
| JsDate.Date | src/utils/datepickerUtils.ts:41 | `getDate()` is a day of the month in 1..31 |
| JsDate.Weekday | src/utils/datepickerUtils.ts:56 | `getDay()` is in 0..6, Sunday being 0 |
| JsDate.MakeDayOfFields | src/utils/datepickerUtils.ts:34 | rebuilding a day from its year, month and date gives back the same day |
| JsDate.MakeDayFields | src/utils/datepickerUtils.ts:34 | a constructed in-range date reads back as the year, month and day it was built from |
| JsDate.LastDayOfMonth | src/utils/datepickerUtils.ts:76-78 | day 0 of the next month is the last day of the (rolled-over) month, and its date is that month's length |
| JsDate.MonthSpan | src/utils/datepickerUtils.ts:26-27 | day 1 and day 0 of the following month lie in the same month, are its first and last day, and the last is the day before the next month starts |
| JsDate.WeekdayShift | src/utils/datepickerUtils.ts:15 | moving a date by k days moves its weekday by k modulo 7 |
| Text.ToNumber | src/utils/datepickerUtils.ts:49 | `Number` gives a number exactly for digit strings, and 0 for the empty string |
| Text.DigitsValueOfNatToString | src/utils/datepickerUtils.ts:49 | reading back the decimal text of a number gives the number |
| Text.IntToStringInjective | src/utils/datepickerUtils.ts:39-42 | two integers have the same text exactly when they are equal |
| Text.PadStart | src/utils/datepickerUtils.ts:40-41 | `padStart` reaches the target length, keeps the text as a suffix and fills only in front |
| Text.TwoDigitsRoundTrip | src/utils/datepickerUtils.ts:40-41 | a number below 100 pads to exactly two digits that read back as the number |
| Text.TwoDigitsInjective | src/utils/datepickerUtils.ts:40-41 | distinct numbers below 100 have distinct two-digit texts |
| Text.IndexOf | src/utils/datepickerUtils.ts:47 | the position found is the first occurrence at or after the start, and None means there is no occurrence |
| Text.Split | src/utils/datepickerUtils.ts:47 | `split` returns at least one piece, and no piece contains the separator |
| Text.SplitJoin | src/utils/datepickerUtils.ts:47 | joining the pieces of a split with the separator gives back the string |
| Text.SplitAfter | src/components/DateRangePicker.tsx:43 | text before the first separator becomes the first piece, and the rest is split on |
| DatepickerUtils.NormalizeDate | src/utils/datepickerUtils.ts:33-35 | `normalizeDate`: the day rebuilt from its year, month and date by the constructor; NormalizeKeepsDate, NormalizeEarlyYear and NormalizeIdempotent state its effect |
| DatepickerUtils.NormalizeKeepsDate | src/utils/datepickerUtils.ts:33-35 | `normalizeDate` returns a date outside years 0..99 unchanged |
| DatepickerUtils.NormalizeEarlyYear | src/utils/datepickerUtils.ts:33-35 | `normalizeDate` moves a date of years 0..99 to 1900 years later with the same month and day, unless that day does not exist in the later year, when it becomes March 1 |
| DatepickerUtils.EarlyYearMissingDay | src/utils/datepickerUtils.ts:33-35 | the only day of years 0..99 missing 1900 years later is February 29 of year 0 |
| DatepickerUtils.NormalizeIdempotent | src/utils/datepickerUtils.ts:33-35 | normalising twice is normalising once |
| DatepickerUtils.FormatDate | src/utils/datepickerUtils.ts:38-43 | `formatDate`: the year's text, then month and day padded to two digits, joined by "-"; FieldsLayout, FormatInjective and ParseFormat state its properties |
| DatepickerUtils.FieldsLayout | src/utils/datepickerUtils.ts:38-43 | a formatted date is the year text, "-", two month digits, "-", two day digits |
| DatepickerUtils.FormatFieldsInjective | src/utils/datepickerUtils.ts:38-43 | the year, month and day can all be read back from the formatted text |
| DatepickerUtils.FormatInjective | src/utils/datepickerUtils.ts:38-43 | two days format to the same text exactly when they are the same day |
| DatepickerUtils.FormatLength | src/utils/datepickerUtils.ts:38-43 | a date of a four-digit year formats to ten characters |
| DatepickerUtils.FormatChars | src/utils/datepickerUtils.ts:38-43 | a formatted date contains only digits and "-" |
| DatepickerUtils.ParseFields | src/utils/datepickerUtils.ts:46-53 | the pieces are not three exactly when the split does not give three; a piece is not a number exactly when one of the three is not all digits |
| DatepickerUtils.ParseDate | src/utils/datepickerUtils.ts:46-53 | `parseDate` returns null exactly when the split does not give three pieces, an Invalid Date exactly when a piece is not a number, and a date otherwise |
| DatepickerUtils.ParseFormat | src/utils/datepickerUtils.ts:38-53 | parsing a formatted date of a year of at least 0 gives the normalised date |
| DatepickerUtils.ParseFormatRoundTrip | src/utils/datepickerUtils.ts:38-53 | parsing a formatted date of a year of at least 100 gives the date back |
| DatepickerUtils.ParseFormatNegativeYear | src/utils/datepickerUtils.ts:38-53 | a formatted date of a negative year splits into four pieces, so it parses to null |
| DatepickerUtils.ParseMonthRollover | src/utils/datepickerUtils.ts:49-50 | month 13 is January of the next year |
| DatepickerUtils.ParseDayRollover | src/utils/datepickerUtils.ts:49-50 | day 32 of a 31-day month is the first of the next month |
| DatepickerUtils.IsWeekend | src/utils/datepickerUtils.ts:55-58 | `isWeekend`: the weekday is Sunday or Saturday; TwoWeekendDaysPerWeek counts them |
| DatepickerUtils.WeekendsInRange | src/utils/datepickerUtils.ts:60-72 | the formatted weekend days of the inclusive range, oldest first; WeekendsInRangeDays and WeekendsInRangeExact tie it to the reference WeekendDays |
| DatepickerUtils.WeekendDays | src/utils/datepickerUtils.ts:55-58 | the reference list: exactly the Saturdays and Sundays of the inclusive range, strictly ascending |
| DatepickerUtils.TwoWeekendDaysPerWeek | src/utils/datepickerUtils.ts:55-58 | any seven consecutive days hold exactly two weekend days |
| DatepickerUtils.CalculateWeekendsInRange | src/utils/datepickerUtils.ts:60-72 | the day-by-day loop returns the formatted weekend days of the range |
| DatepickerUtils.WeekendsInRangeDays | src/utils/datepickerUtils.ts:60-72 | the loop's result is the reference weekend list, each day formatted, in the same order |
| DatepickerUtils.WeekendsInRangeExact | src/utils/datepickerUtils.ts:60-72 | a text is in the result exactly when it formats a weekend day of the range; no entry repeats |
| DatepickerUtils.GenerateCalendarGrid | src/utils/datepickerUtils.ts:74-102 | the three loops build the grid defined cell by cell: consecutive days, rows of seven, from the Sunday on or before the first |
| DatepickerUtils.FillGrid | src/utils/datepickerUtils.ts:80-99 | every row has seven days, the first cell is a Sunday, and there is one extra row after the last full week |
| DatepickerUtils.MonthLengthFacts | src/utils/datepickerUtils.ts:75-78 | the length read from day 0 of the next month is the calendar length of the rolled-over month, and the next month starts right after it |
| DatepickerUtils.MonthDayFields | src/utils/datepickerUtils.ts:87-88 | each cell pushed by the middle loop is that day of the rolled-over month |
| DatepickerUtils.MonthDayOffsets | src/utils/datepickerUtils.ts:83-98 | the leading, month and trailing cells are consecutive day numbers counted from the first of the month |
| DatepickerUtils.GridConsecutive | src/utils/datepickerUtils.ts:80-99 | each cell is the day after the previous one, across row ends too |
| DatepickerUtils.GridFirstRow | src/utils/datepickerUtils.ts:83-85 | the first of the month sits in the first row, in its weekday's column |
| DatepickerUtils.GridHoldsDayOnce | src/utils/datepickerUtils.ts:87-93 | each day of the month occupies exactly one cell, at the row and column its offset gives |
| DatepickerUtils.GridHoldsMonthOnce | src/utils/datepickerUtils.ts:74-102 | each day of the shown month appears exactly once in its grid |
| DatepickerUtils.GridShape | src/utils/datepickerUtils.ts:95-99 | a month of 28..31 days gets five or six rows; when the month ends on a Saturday the whole last row follows the month |
| DatepickerUtils.GridRowsBounds | src/utils/datepickerUtils.ts:74-102 | every month grid has five or six rows; when the month ends on a Saturday the last row starts on the first of the next month |
| DatepickerUtils.GetPredefinedDateRanges | src/utils/datepickerUtils.ts:4-30 | four ranges: Today; This Week from the Sunday on or before today; Last 7 Days ending today; Last Month; each starts no later than it ends |
| DatepickerUtils.MonthStartBeforeEnd | src/utils/datepickerUtils.ts:26-27 | a month's day 1 is not after its last day |
| DatepickerUtils.LastMonthOf | src/utils/datepickerUtils.ts:23-28 | the Last Month entry is named so and is in order |
| DatepickerUtils.LastMonthRange | src/utils/datepickerUtils.ts:23-28 | Last Month runs from day 1 to the last day of the month before today's, and ends the day before the first of today's month |
| DatepickerUtils.LastMonthEndsBeforeThisMonth | src/utils/datepickerUtils.ts:26-27 | outside years 0..99, Last Month ends as many days before today as today's date |
| DateRangePicker.Initial | src/components/DateRangePicker.tsx:26-34 | a fresh component is closed, holds no range and no text, shows today's month, and satisfies the invariant |
| DateRangePicker.HandleDateClick | src/components/DateRangePicker.tsx:83-95 | after a click a tentative start exists and the normalised day is one of the two ends; with no tentative start or a complete range, the day becomes the start and the end is cleared; the committed range, text and month shown stay |
| DateRangePicker.ClickKeepsOrder | src/components/DateRangePicker.tsx:83-95 | a click keeps the tentative range in order, with an end only beside a start |
| DateRangePicker.ClickKeepsStrictOrder | src/components/DateRangePicker.tsx:89-94 | a click sets an end only strictly after the start, so it never makes a one-day range |
| DateRangePicker.ClicksKeepStrictOrder | src/components/DateRangePicker.tsx:83-95 | any sequence of clicks keeps a complete tentative range strictly ordered |
| DateRangePicker.WeekendClickIgnored | src/components/DateRangePicker.tsx:155-158 | clicking a weekend cell changes nothing and reports nothing |
| DateRangePicker.ClickRestartsCompleteRange | src/components/DateRangePicker.tsx:86-88 | a weekday click with no tentative start, or on a complete range, starts a new range at the clicked day with no end |
| DateRangePicker.SecondClickCompletes | src/components/DateRangePicker.tsx:89-94 | a second click on another day completes the range from the two days, earlier one first |
| DateRangePicker.SameDayClickIgnored | src/components/DateRangePicker.tsx:89-94 | a second click on the start day itself changes nothing |
| DateRangePicker.ClickCell | src/components/DateRangePicker.tsx:155-158 | a weekend cell leaves the state unchanged; a weekday cell makes its normalised day one of the tentative ends; the committed range, text and month shown stay |
| DateRangePicker.ClickedCellSelected | src/components/DateRangePicker.tsx:135-158 | a weekday cell that was clicked is drawn selected afterwards |
| DateRangePicker.TypedRange | src/components/DateRangePicker.tsx:43-51 | text is accepted exactly when it splits on " ~ " into two pieces that both parse to dates with the first not after the second, and then the range is those two dates |
| DateRangePicker.HandleInputChange | src/components/DateRangePicker.tsx:39-53 | the text is always kept; the tentative range becomes the typed range when the text is accepted and stays otherwise |
| DateRangePicker.TextWithoutTwoPiecesIgnored | src/components/DateRangePicker.tsx:43-44 | text that does not split into two pieces leaves the tentative range alone |
| DateRangePicker.UnparsableTextIgnored | src/components/DateRangePicker.tsx:45-48 | text with a piece that is null or an Invalid Date leaves the tentative range alone |
| DateRangePicker.InvertedTextIgnored | src/components/DateRangePicker.tsx:48 | any text whose two pieces parse to an end before the start is kept as text but not taken |
| DateRangePicker.InvertedRangeTextIgnored | src/components/DateRangePicker.tsx:43-51 | the text of an inverted range in the committed format (years from 100 on) is such text, so it is not taken |
| DateRangePicker.RangeText | src/components/DateRangePicker.tsx:105-107 | the input text a commit writes: both formatted dates joined by " ~ "; RangeTextSplits and RangeTextRoundTrip show it reads back |
| DateRangePicker.RangeTextSplits | src/components/DateRangePicker.tsx:105-107 | the text a commit writes splits back into the two formatted dates |
| DateRangePicker.RangeTextRoundTrip | src/components/DateRangePicker.tsx:43-51 | typing the text of an ordered range (years from 100 on) gives back exactly that range |
| DateRangePicker.ApplyDateRange | src/components/DateRangePicker.tsx:97-110 | OK always closes; it reports exactly when both tentative ends are set, and then commits them, writes their text and reports their formatted dates with the weekend list |
| DateRangePicker.CommitReports | src/components/DateRangePicker.tsx:97-110 | a commit reports the two formatted ends and the formatted weekend days of the range, in ascending order |
| DateRangePicker.CommitIncompleteOnlyCloses | src/components/DateRangePicker.tsx:97-110 | with the end missing, OK only closes the panel |
| DateRangePicker.CommitTextRetyped | src/components/DateRangePicker.tsx:105-107 | typing back the text a commit wrote leaves the range as committed (years from 100 on) |
| DateRangePicker.OkDisabled | src/components/DateRangePicker.tsx:325-328 | the `disabled` expression of OK holds exactly when there is no tentative end |
| DateRangePicker.OkDisabledMeansNoEnd | src/components/DateRangePicker.tsx:325-328 | OK is disabled exactly when the tentative end is missing, which is exactly when a commit would report nothing |
| DateRangePicker.ApplyPredefinedRange | src/components/DateRangePicker.tsx:112-119 | a predefined button sets both normalised ends as the tentative range and touches nothing else |
| DateRangePicker.PredefinedMayBreakOrder | src/components/DateRangePicker.tsx:112-119 | a predefined range given in reverse order is taken as is, so the tentative range is out of order |
| DateRangePicker.CancelSelection | src/components/DateRangePicker.tsx:55-59 | cancel puts the committed range back as the tentative one and closes, leaving the committed range and the text |
| DateRangePicker.OutsideClickRestores | src/components/DateRangePicker.tsx:55-59 | an outside click, handled by `cancelSelection`, restores the committed range, closes and reports nothing |
| DateRangePicker.EditsThenOutsideClick | src/components/DateRangePicker.tsx:55-59 | any clicks followed by an outside click leave the selection as it was after the last commit |
| DateRangePicker.CommitThenOutsideClick | src/components/DateRangePicker.tsx:55-81 | after a commit an outside click by `cancelSelection` changes nothing, while the registered listener empties the tentative range |
| DateRangePicker.OutsideClickAsWritten | src/components/DateRangePicker.tsx:62-81 | the listener registered once calls the first render's `cancelSelection`, which empties the tentative range |
| DateRangePicker.OutsideClickAsWrittenLosesRange | src/components/DateRangePicker.tsx:62-81 | once a range is committed, the registered listener's result differs from `cancelSelection`'s |
| DateRangePicker.ClearDate | src/components/DateRangePicker.tsx:286-292 | clear leaves no committed range, no tentative range and no text, with the panel and month as they were |
| DateRangePicker.ClearEmpties | src/components/DateRangePicker.tsx:286-292 | the clear event empties both ranges and the text, keeps the panel, the month and the view, and reports nothing |
| DateRangePicker.ClearThenNoReport | src/components/DateRangePicker.tsx:286-292 | after a clear, nothing is reported until a commit |
| DateRangePicker.PrevMonthOf | src/components/DateRangePicker.tsx:219-223 | the left arrow shows the month before, wrapping into the previous year, and keeps the month index in 0..11 |
| DateRangePicker.NextMonthOf | src/components/DateRangePicker.tsx:249-253 | the right arrow shows the month after, wrapping into the next year, and keeps the month index in 0..11 |
| DateRangePicker.ArrowsMoveOneMonth | src/components/DateRangePicker.tsx:218-254 | the arrows move the shown month by exactly one and leave the selection alone |
| DateRangePicker.ArrowsInverse | src/components/DateRangePicker.tsx:218-254 | forward then back, or back then forward, gives the same state |
| DateRangePicker.YearPagesMoveTwelveYears | src/components/DateRangePicker.tsx:185-190 | the year-page buttons move the year by twelve and undo each other |
| DateRangePicker.ChooseYearShowsMonths | src/components/DateRangePicker.tsx:193-203 | year cell i picks year current-6+i, one of the twelve years around the current one, and shows the month selector |
| DateRangePicker.ChooseMonthShowsDays | src/components/DateRangePicker.tsx:167-174 | month cell i shows month i of the same year in the date view |
| DateRangePicker.NavigationSeparate | src/components/DateRangePicker.tsx:165-302 | navigation events never touch the selection or report; selection events never move the month shown |
| DateRangePicker.DualCalendarConsecutive | src/components/DateRangePicker.tsx:272 | the right panel's month starts the day after the left panel's month ends |
| DateRangePicker.ClassifyCell | src/components/DateRangePicker.tsx:135-154 | a cell is selected exactly when it is a tentative end, in range exactly when it lies between the two ends of a complete range, today exactly when it is today, weekend exactly on Saturday and Sunday |
| DateRangePicker.EndsInRange | src/components/DateRangePicker.tsx:137-144 | both ends of an ordered complete range are drawn selected and in range |
| DateRangePicker.Step | src/components/DateRangePicker.tsx:98-103 | an event reports a payload exactly when it is OK with both tentative ends set |
| DateRangePicker.StepKeepsInvariant | src/components/DateRangePicker.tsx:39-119 | every offered event keeps four facts: the tentative end needs a start, the tentative range is ordered, the committed range is whole and ordered, and the month index is in 0..11 (predefined ranges must be ordered) |
| DateRangePicker.Run | src/components/DateRangePicker.tsx:39-292 | offered events applied in order, collecting the payloads of the commits; the month index stays in 0..11 |
| DateRangePicker.StepKeepsWellFormed | src/components/DateRangePicker.tsx:83-119 | every offered event, with no condition on predefined ranges, keeps a tentative end only beside a tentative start, both committed ends or neither, and the month index in 0..11 |
| DateRangePicker.RunKeepsWellFormed | src/components/DateRangePicker.tsx:83-119 | any run of offered events keeps the same three facts |
| DateRangePicker.RunKeepsInvariant | src/components/DateRangePicker.tsx:39-119 | any run of offered events keeps the invariant (predefined ranges must be ordered) |
| DateRangePicker.RunReportsOnlyCommits | src/components/DateRangePicker.tsx:97-110 | a run without OK reports nothing |

## Left out

- `Number` accepts more than digit strings: surrounding whitespace, a sign, exponents, hexadecimal and fractions. The model reads only digit strings and the empty string; anything else is NaN. A date written with such a piece is modelled as an Invalid Date.
- Digit strings beyond 2^53 lose precision in `Number`; the model reads them exactly.
- Time of day, time zones and daylight saving are not modelled: a `Date` is a whole local day. `getTime()` equality and `<`/`<=` on dates become comparisons of day numbers, and `toDateString()` equality becomes day equality.
- The `Date` value range (about 273,790 years either side of 1970) is not modelled. Beyond it JavaScript produces an Invalid Date; the model keeps counting days.
- The month and year labels (`toLocaleString`) and the cell's date label are left out. They are presentation only.
- DOM plumbing is left out. This covers the outside-click containment test on the refs, the registration and removal of the listener, and the rendering of the predefined buttons. These become events: `OutsideClick`, and `ApplyPredefined` with any two days.
- The input box is `readOnly`, so a browser does not deliver typed text to `handleInputChange`. The handler is modelled anyway, as the `InputChange` event.
- Events are not restricted to what the rendered UI offers:
  - the clear button shows only when the text is non-empty;
  - OK cannot be clicked while disabled;
  - day cells exist only in the open date view.
  
  The model accepts every event in every state. `OkDisabledMeansNoEnd` shows that a disabled OK would only close the panel.
- Focus (`onFocus`, DateRangePicker.tsx:302) sets the panel open and changes nothing else; in particular the tentative range is not reset to the committed one when the panel opens.
- The wall clock is a parameter, `today`. This applies to `Initial`, `GetPredefinedDateRanges` and `ClassifyCell`.
- `src/App.tsx` is not part of this model.
- React batches the state setters of one handler into one update. Each handler is modelled as a single state change.
- `DateRangePicker.StepKeepsInvariant`: holds only when predefined ranges are ordered after normalisation, because `applyPredefinedRange` does not check the order (`PredefinedMayBreakOrder`). The hypothesis is needed only for the two order facts; `StepKeepsWellFormed` keeps the rest of the invariant without it.
- `DateRangePicker.RunKeepsInvariant`: the same hypothesis on predefined ranges, for the same reason; `RunKeepsWellFormed` needs none.
- `DateRangePicker.RangeTextRoundTrip`: stated for years from 100 on. For years 0..99, parsing moves the date by 1900 years (`ParseFormat`); for negative years the text does not parse (`ParseFormatNegativeYear`).
- `DateRangePicker.CommitTextRetyped`: years from 100 on, for the same reason.
- `DateRangePicker.EndsInRange`: years outside 0..99, where normalising a day keeps it.
- `DatepickerUtils.ParseFormatRoundTrip`: years from 100 on, for the same reason.
- `DatepickerUtils.ParseMonthRollover`: shown only for month 13. `JsDate.MakeDayRolled` states rollover of any month index.
- `DatepickerUtils.ParseDayRollover`: shown only for day 32 of 31-day months. `JsDate.MakeDayLinear` states that days count on linearly.
- `DateRangePicker.Step`: the month selector and the year selector offer only indices 0..11. `Step` requires the month index of the state to be in 0..11, which every offered event keeps.

## Findings

| source | as written | input that shows it | evidently intended | confidence | as-written member | corrected member |
|---|---|---|---|---|---|---|
| src/components/DateRangePicker.tsx:62-81 | The outside-click listener is installed by an effect with no dependencies. It therefore keeps calling the `cancelSelection` of the first render, whose committed range is the initial null, and so empties the tentative range. | Commit a range, then press the mouse outside the widget. The tentative range becomes empty instead of the committed range, and reopening shows no selection. | An outside click restores the committed range as the tentative one, as `cancelSelection` (lines 55-59) is written to do. | high; not executed | DateRangePicker.OutsideClickAsWrittenLosesRange | DateRangePicker.OutsideClickRestores |
