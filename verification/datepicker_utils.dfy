/** The date utilities of the picker: normalising, formatting and parsing
    dates, the weekend test, the weekend list of a range, the month grid and
    the catalog of predefined ranges.  "Today" is a parameter: the source
    reads the wall clock. */
module DatepickerUtils {
  import opened Options
  import opened Civil
  import opened JsDate
  import opened Text

  // ---------------------------------------------------------------------
  // normalizeDate

  /** `normalizeDate`: rebuild the date from its year, month and day with the
      `Date` constructor.  On day numbers this is the identity, except that
      the constructor reads years 0..99 as 1900..1999. */
  function NormalizeDate(d: Day): Day {
    NewDate(FullYear(d), Month(d), Date(d))
  }

  /** A date outside years 0..99 is already normal */
  lemma NormalizeKeepsDate(d: Day)
    requires !(0 <= FullYear(d) <= 99)
    ensures NormalizeDate(d) == d
  {
    MakeDayOfFields(d);
  }

  /** Years 1900 + y and y (for y in 0..99) have the same leap years, except year 0 */
  lemma LeapEarlyYear(y: int)
    requires 0 <= y <= 99
    ensures IsLeapYear(y + 1900) <==> IsLeapYear(y) && y != 0
  {
    DivModUnique(y + 1900, 4, y / 4 + 475, y % 4);
    DivModUnique(y + 1900, 100, 19, y);
    DivModUnique(y + 1900, 400, 4, y + 300);
    DivModUnique(y, 100, 0, y);
    DivModUnique(y, 400, 0, y);
  }

  /** February 29 of a common year is March 1 */
  lemma LeapDayOfCommonYear(y: int)
    requires !IsLeapYear(y)
    ensures MakeDay(y, 1, 29) == MakeDay(y, 2, 1)
  {
    MonthIndexInRange(1);
    MakeDayNextMonth(y, 1);
    MakeDayLinear(y, 1, 29);
  }

  /** February 29 of a common year reads back as March 1 of that year */
  lemma LeapDayOfCommonYearFields(y: int)
    requires !IsLeapYear(y)
    ensures FullYear(MakeDay(y, 1, 29)) == y
    ensures Month(MakeDay(y, 1, 29)) == 2 && Date(MakeDay(y, 1, 29)) == 1
  {
    LeapDayOfCommonYear(y);
    MakeDayFields(y, 2, 1);
  }

  /** The constructor moves a date of years 0..99 to the same month and day
      1900 years later; a day missing from that year (February 29 of a year
      whose later counterpart is common) becomes March 1 */
  lemma EarlyYearDate(y: int, m0: int, d: int)
    requires 0 <= y <= 99 && 0 <= m0 <= 11 && 1 <= d <= DaysInMonth(y, m0 + 1)
    ensures var n := NewDate(y, m0, d);
            && FullYear(n) == y + 1900
            && (d <= DaysInMonth(y + 1900, m0 + 1) ==> Month(n) == m0 && Date(n) == d)
            && (d > DaysInMonth(y + 1900, m0 + 1) ==> Month(n) == 2 && Date(n) == 1)
  {
    assert NewDate(y, m0, d) == MakeDay(y + 1900, m0, d);
    if d <= DaysInMonth(y + 1900, m0 + 1) {
      MakeDayFields(y + 1900, m0, d);
    } else {
      MissingDay(y + 1900, m0, d, y);
    }
  }

  /** A day of a month that a common year lacks (February 29) is March 1 */
  lemma MissingDay(y: int, m0: int, d: int, other: int)
    requires 0 <= m0 <= 11 && DaysInMonth(y, m0 + 1) < d <= DaysInMonth(other, m0 + 1)
    ensures FullYear(MakeDay(y, m0, d)) == y
    ensures Month(MakeDay(y, m0, d)) == 2 && Date(MakeDay(y, m0, d)) == 1
  {
    assert m0 == 1 && d == 29 && !IsLeapYear(y);
    LeapDayOfCommonYearFields(y);
  }

  /** February 29 of year 0 is the only day of years 0..99 missing 1900 years later */
  lemma EarlyYearMissingDay(y: int, m: int, d: int)
    requires 0 <= y <= 99 && 1 <= m <= 12 && 1 <= d <= DaysInMonth(y, m)
    ensures d > DaysInMonth(y + 1900, m) <==> y == 0 && m == 2 && d == 29
  {
    LeapEarlyYear(y);
  }

  /** A date in years 0..99 moves to 1900..1999 with its month and day; the
      one day missing from the later year (EarlyYearMissingDay) becomes
      March 1 */
  lemma NormalizeEarlyYear(d: Day)
    requires 0 <= FullYear(d) <= 99
    ensures FullYear(NormalizeDate(d)) == FullYear(d) + 1900
    ensures Date(d) <= DaysInMonth(FullYear(d) + 1900, Month(d) + 1) ==>
              Month(NormalizeDate(d)) == Month(d) && Date(NormalizeDate(d)) == Date(d)
    ensures Date(d) > DaysInMonth(FullYear(d) + 1900, Month(d) + 1) ==>
              Month(NormalizeDate(d)) == 2 && Date(NormalizeDate(d)) == 1
  {
    DateInMonth(d);
    EarlyYearDate(FullYear(d), Month(d), Date(d));
  }

  /** normalizeDate is idempotent */
  lemma NormalizeIdempotent(d: Day)
    ensures NormalizeDate(NormalizeDate(d)) == NormalizeDate(d)
  {
    if 0 <= FullYear(d) <= 99 {
      NormalizeEarlyYear(d);
      NormalizeKeepsDate(NormalizeDate(d));
    } else {
      NormalizeKeepsDate(d);
    }
  }

  // ---------------------------------------------------------------------
  // formatDate

  /** The text of a year, a 1-based month and a day: the year as printed by
      `String`, then month and day padded to two digits, joined by "-" */
  function FormatFields(y: int, m: nat, dd: nat): string {
    IntToString(y) + "-" + TwoDigits(m) + "-" + TwoDigits(dd)
  }

  /** `formatDate` */
  function FormatDate(d: Day): string {
    FormatFields(FullYear(d), Month(d) + 1, Date(d))
  }

  /** The layout of a formatted date: year text, "-", two month digits, "-",
      two day digits */
  lemma FieldsLayout(y: int, m: nat, dd: nat)
    requires m < 100 && dd < 100
    ensures var s := FormatFields(y, m, dd);
            && |s| == |IntToString(y)| + 6
            && s[..|s| - 6] == IntToString(y)
            && s[|s| - 6] == '-' && s[|s| - 3] == '-'
            && s[|s| - 5..|s| - 3] == TwoDigits(m)
            && s[|s| - 2..] == TwoDigits(dd)
  {
    TwoDigitsRoundTrip(m);
    TwoDigitsRoundTrip(dd);
    TextLayout(IntToString(y), TwoDigits(m), TwoDigits(dd));
  }

  /** Where the pieces of `a + "-" + b + "-" + c` sit, for two-character `b` and `c` */
  lemma TextLayout(a: string, b: string, c: string)
    requires |b| == 2 && |c| == 2
    ensures var s := a + "-" + b + "-" + c;
            && |s| == |a| + 6
            && s[..|s| - 6] == a
            && s[|s| - 6] == '-' && s[|s| - 3] == '-'
            && s[|s| - 5..|s| - 3] == b
            && s[|s| - 2..] == c
  {
  }

  /** The fields of a formatted date can be read back from the text */
  lemma FormatFieldsInjective(y: int, m: nat, dd: nat, y': int, m': nat, dd': nat)
    requires m < 100 && dd < 100 && m' < 100 && dd' < 100
    ensures FormatFields(y, m, dd) == FormatFields(y', m', dd') <==>
              y == y' && m == m' && dd == dd'
  {
    if FormatFields(y, m, dd) == FormatFields(y', m', dd') {
      SameFormatSameYearText(y, m, dd, y', m', dd');
      IntToStringInjective(y, y');
      SameFormatSameDigits(y, m, dd, y', m', dd');
      TwoDigitsInjective(m, m');
      TwoDigitsInjective(dd, dd');
    }
  }

  lemma SameFormatSameYearText(y: int, m: nat, dd: nat, y': int, m': nat, dd': nat)
    requires m < 100 && dd < 100 && m' < 100 && dd' < 100
    requires FormatFields(y, m, dd) == FormatFields(y', m', dd')
    ensures IntToString(y) == IntToString(y')
  {
    FieldsLayout(y, m, dd);
    FieldsLayout(y', m', dd');
  }

  lemma SameFormatSameDigits(y: int, m: nat, dd: nat, y': int, m': nat, dd': nat)
    requires m < 100 && dd < 100 && m' < 100 && dd' < 100
    requires FormatFields(y, m, dd) == FormatFields(y', m', dd')
    ensures TwoDigits(m) == TwoDigits(m') && TwoDigits(dd) == TwoDigits(dd')
  {
    FieldsLayout(y, m, dd);
    FieldsLayout(y', m', dd');
  }

  /** Distinct days format differently */
  lemma FormatInjective(a: Day, b: Day)
    ensures FormatDate(a) == FormatDate(b) <==> a == b
  {
    FormatFieldsInjective(FullYear(a), Month(a) + 1, Date(a), FullYear(b), Month(b) + 1, Date(b));
    if FormatDate(a) == FormatDate(b) {
      MakeDayOfFields(a);
      MakeDayOfFields(b);
    }
  }

  /** Dates of four-digit years format to ten characters */
  lemma FormatLength(d: Day)
    requires 1000 <= FullYear(d) <= 9999
    ensures |FormatDate(d)| == 10
  {
    FieldsLayout(FullYear(d), Month(d) + 1, Date(d));
    NatToStringFourDigits(FullYear(d));
  }

  /** The characters a formatted date is made of */
  predicate DateTextChar(c: char) {
    IsDigit(c) || c == '-'
  }

  /** A formatted date holds only digits and "-" */
  lemma FormatChars(y: int, m: nat, dd: nat)
    requires m < 100 && dd < 100
    ensures forall k :: 0 <= k < |FormatFields(y, m, dd)| ==> DateTextChar(FormatFields(y, m, dd)[k])
  {
    TwoDigitsRoundTrip(m);
    TwoDigitsRoundTrip(dd);
    var ys := IntToString(y);
    assert forall k :: 0 <= k < |ys| ==> DateTextChar(ys[k]) by {
      if y < 0 {
        assert ys == "-" + NatToString(-y);
      }
    }
  }

  // ---------------------------------------------------------------------
  // parseDate

  /** The numbers `parseDate` reads from a string: no three pieces, some
      piece not a number, or three numbers */
  datatype DateFields = NotThreePieces | NotANumber | Fields(y: int, m: int, d: int)

  /** Split on "-" and read each of exactly three pieces with `Number` */
  function ParseFields(s: string): (r: DateFields)
    ensures r == NotThreePieces <==> |Split(s, "-")| != 3
    ensures r == NotANumber <==>
              |Split(s, "-")| == 3 && !(AllDigits(Split(s, "-")[0])
                                        && AllDigits(Split(s, "-")[1])
                                        && AllDigits(Split(s, "-")[2]))
  {
    var parts := Split(s, "-");
    if |parts| == 3 then
      match (ToNumber(parts[0]), ToNumber(parts[1]), ToNumber(parts[2]))
      case (Some(y), Some(m), Some(d)) => Fields(y, m, d)
      case _ => NotANumber
    else NotThreePieces
  }

  /** What `parseDate` returns: null, an Invalid Date (a NaN component), or a date */
  datatype ParsedDate = NullDate | InvalidDate | ValidDate(day: Day)

  /** `parseDate`: three numbers are given to the `Date` constructor with the
      month less one, so an out-of-range month or day rolls over into the
      neighbouring month or year */
  function ParseDate(s: string): (r: ParsedDate)
    ensures r == NullDate <==> |Split(s, "-")| != 3
    ensures r == InvalidDate <==> ParseFields(s) == NotANumber
    ensures r.ValidDate? <==> ParseFields(s).Fields?
  {
    match ParseFields(s)
    case NotThreePieces => NullDate
    case NotANumber => InvalidDate
    case Fields(y, m, d) => ValidDate(NewDate(y, m - 1, d))
  }

  /** A string of digits contains no separator that starts with a non-digit */
  lemma NoSeparatorInDigits(s: string, sep: string)
    requires |sep| > 0 && !IsDigit(sep[0]) && AllDigits(s)
    ensures forall j :: !OccursAt(s, sep, j)
    ensures forall k :: 0 <= k < |s| ==> s[k] != sep[0]
  {
  }

  /** Three groups of digits joined by "-" read as their values */
  lemma ParseDigitGroups(a: string, b: string, c: string)
    requires AllDigits(a) && AllDigits(b) && AllDigits(c)
    ensures ParseFields(a + "-" + b + "-" + c) == Fields(DigitsValue(a), DigitsValue(b), DigitsValue(c))
  {
    SplitDigitGroups(a, b, c);
  }

  /** Three groups of digits joined by "-" split back into the groups */
  lemma SplitDigitGroups(a: string, b: string, c: string)
    requires AllDigits(a) && AllDigits(b) && AllDigits(c)
    ensures Split(a + "-" + b + "-" + c, "-") == [a, b, c]
  {
    NoSeparatorInDigits(a, "-");
    NoSeparatorInDigits(b, "-");
    NoSeparatorInDigits(c, "-");
    assert a + "-" + b + "-" + c == a + "-" + (b + "-" + c);
    SplitAfter(a, "-", b + "-" + c);
    SplitAfter(b, "-", c);
    SplitNone(c, "-");
  }

  /** The fields of a formatted date read back, for a year of at least 0 */
  lemma ParseFormatFields(y: nat, m: nat, dd: nat)
    requires m < 100 && dd < 100
    ensures ParseFields(FormatFields(y, m, dd)) == Fields(y, m, dd)
  {
    TwoDigitsRoundTrip(m);
    TwoDigitsRoundTrip(dd);
    DigitsValueOfNatToString(y);
    ParseDigitGroups(NatToString(y), TwoDigits(m), TwoDigits(dd));
  }

  /** A negative year prints with a leading "-", so the text splits into four pieces */
  lemma ParseFormatFieldsNegative(y: int, m: nat, dd: nat)
    requires y < 0 && m < 100 && dd < 100
    ensures ParseFields(FormatFields(y, m, dd)) == NotThreePieces
  {
    TwoDigitsRoundTrip(m);
    TwoDigitsRoundTrip(dd);
    var rest := NatToString(-y) + "-" + TwoDigits(m) + "-" + TwoDigits(dd);
    assert IntToString(y) == "-" + NatToString(-y);
    SignedText(NatToString(-y), TwoDigits(m), TwoDigits(dd));
    SplitLeadingSeparator(rest);
    SplitDigitGroups(NatToString(-y), TwoDigits(m), TwoDigits(dd));
  }

  /** Regrouping the text after a leading sign */
  lemma SignedText(a: string, b: string, c: string)
    ensures ("-" + a) + "-" + b + "-" + c == "-" + (a + "-" + b + "-" + c)
  {
  }

  /** A leading "-" splits off an empty first piece */
  lemma SplitLeadingSeparator(rest: string)
    ensures Split("-" + rest, "-") == [""] + Split(rest, "-")
  {
    assert "" + "-" + rest == "-" + rest;
    SplitAfter("", "-", rest);
  }

  /** Round trip: for a year of at least 0, parsing the formatted date gives
      the normalised date */
  lemma ParseFormat(d: Day)
    requires FullYear(d) >= 0
    ensures ParseDate(FormatDate(d)) == ValidDate(NormalizeDate(d))
  {
    ParseFormatFields(FullYear(d), Month(d) + 1, Date(d));
  }

  /** Round trip: for a year of at least 100, parsing the formatted date gives the date */
  lemma ParseFormatRoundTrip(d: Day)
    requires FullYear(d) >= 100
    ensures ParseDate(FormatDate(d)) == ValidDate(d)
  {
    ParseFormat(d);
    NormalizeKeepsDate(d);
  }

  /** A date of a negative year formats to text that does not parse */
  lemma ParseFormatNegativeYear(d: Day)
    requires FullYear(d) < 0
    ensures ParseDate(FormatDate(d)) == NullDate
  {
    ParseFormatFieldsNegative(FullYear(d), Month(d) + 1, Date(d));
  }

  /** Three numbers written in decimal and joined by "-" read back */
  lemma ParseNumbers(y: nat, m: nat, d: nat)
    ensures ParseFields(NatToString(y) + "-" + NatToString(m) + "-" + NatToString(d)) == Fields(y, m, d)
  {
    DigitsValueOfNatToString(y);
    DigitsValueOfNatToString(m);
    DigitsValueOfNatToString(d);
    ParseDigitGroups(NatToString(y), NatToString(m), NatToString(d));
  }

  /** Month 13 rolls over into January of the next year */
  lemma ParseMonthRollover(y: nat, d: nat)
    requires y >= 100
    ensures ParseDate(NatToString(y) + "-13-" + NatToString(d)) == ValidDate(NewDate(y + 1, 0, d))
  {
    NatToStringOfTwoDigits(13);
    assert NatToString(13) == "13";
    assert NatToString(y) + "-13-" + NatToString(d) == NatToString(y) + "-" + NatToString(13) + "-" + NatToString(d);
    ParseNumbers(y, 13, d);
    NextYearJanuary(y, d);
  }

  /** Day `d` of month index 12 is day `d` of January of the next year */
  lemma NextYearJanuary(y: nat, d: int)
    requires y >= 100
    ensures NewDate(y, 12, d) == NewDate(y + 1, 0, d)
  {
    MakeDayYearCarry(y, 0, d, 1);
  }

  /** Day 32 of a 31-day month is the first of the next month */
  lemma DayAfterLongMonth(y: int, m: int)
    requires 1 <= m <= 12 && DaysInMonth(y, m) == 31
    ensures MakeDay(y, m - 1, 32) == MakeDay(y, m, 1)
  {
    DayAfterMonth(y, m - 1, 31);
  }

  /** The day after the last of a month is the first of the next */
  lemma DayAfterMonth(y: int, m0: int, len: int)
    requires 0 <= m0 <= 11 && len == DaysInMonth(y, m0 + 1)
    ensures MakeDay(y, m0, len + 1) == MakeDay(y, m0 + 1, 1)
  {
    MonthIndexInRange(m0);
    MakeDayNextMonth(y, m0);
  }

  /** Day 32 of a 31-day month rolls over into the first of the next month */
  lemma ParseDayRollover(y: nat, m: nat)
    requires y >= 100 && 1 <= m <= 12 && DaysInMonth(y, m) == 31
    ensures ParseDate(NatToString(y) + "-" + NatToString(m) + "-32") == ValidDate(NewDate(y, m, 1))
  {
    DayThirtyTwoText(y, m);
    DayAfterLongMonth(y, m);
  }

  /** The text with day 32 reads as three numbers */
  lemma DayThirtyTwoText(y: nat, m: nat)
    ensures ParseFields(NatToString(y) + "-" + NatToString(m) + "-32") == Fields(y, m, 32)
  {
    NatToStringOfTwoDigits(32);
    assert NatToString(32) == "32";
    assert NatToString(y) + "-" + NatToString(m) + "-32"
        == NatToString(y) + "-" + NatToString(m) + "-" + NatToString(32);
    ParseNumbers(y, m, 32);
  }

  // ---------------------------------------------------------------------
  // isWeekend and calculateWeekendsInRange

  /** `isWeekend`: Sunday (0) or Saturday (6) */
  predicate IsWeekend(d: Day) {
    Weekday(d) == 0 || Weekday(d) == 6
  }

  /** The weekend days of the inclusive range [s, e], in ascending order */
  function WeekendDays(s: Day, e: Day): (ws: seq<Day>)
    ensures forall i :: 0 <= i < |ws| ==> s <= ws[i] <= e && IsWeekend(ws[i])
    ensures forall d :: s <= d <= e && IsWeekend(d) ==> d in ws
    ensures forall i, j :: 0 <= i < j < |ws| ==> ws[i] < ws[j]
    decreases e - s
  {
    if s > e then [] else WeekendDays(s, e - 1) + (if IsWeekend(e) then [e] else [])
  }

  /** The formatted weekend days of [s, e]: what `calculateWeekendsInRange` returns */
  function WeekendsInRange(s: Day, e: Day): seq<string>
    decreases e - s
  {
    if s > e then [] else WeekendsInRange(s, e - 1) + (if IsWeekend(e) then [FormatDate(e)] else [])
  }

  /** The weekend list is the weekend days of the range, each formatted */
  lemma {:induction false} WeekendsInRangeDays(s: Day, e: Day)
    ensures |WeekendsInRange(s, e)| == |WeekendDays(s, e)|
    ensures forall i :: 0 <= i < |WeekendsInRange(s, e)| ==>
              WeekendsInRange(s, e)[i] == FormatDate(WeekendDays(s, e)[i])
    decreases e - s
  {
    if s <= e {
      WeekendsInRangeDays(s, e - 1);
    }
  }

  /** Every entry is the formatted form of a weekend day of the range, every
      weekend day of the range is listed, and no entry repeats */
  lemma WeekendsInRangeExact(s: Day, e: Day)
    ensures forall x :: x in WeekendsInRange(s, e) <==>
              exists d :: s <= d <= e && IsWeekend(d) && x == FormatDate(d)
    ensures forall i, j :: 0 <= i < j < |WeekendsInRange(s, e)| ==>
              WeekendsInRange(s, e)[i] != WeekendsInRange(s, e)[j]
  {
    var ws := WeekendDays(s, e);
    var r := WeekendsInRange(s, e);
    WeekendsInRangeDays(s, e);
    forall x | x in r
      ensures exists d :: s <= d <= e && IsWeekend(d) && x == FormatDate(d)
    {
      var i :| 0 <= i < |r| && r[i] == x;
      assert s <= ws[i] <= e && IsWeekend(ws[i]);
    }
    forall d | s <= d <= e && IsWeekend(d)
      ensures FormatDate(d) in r
    {
      var i :| 0 <= i < |ws| && ws[i] == d;
      assert r[i] == FormatDate(d);
    }
    forall i, j | 0 <= i < j < |r|
      ensures r[i] != r[j]
    {
      FormatInjective(ws[i], ws[j]);
    }
  }

  /** One more day at the end of the range adds one entry when it is a weekend day */
  lemma WeekendDaysLength(s: Day, e: Day)
    requires s <= e
    ensures |WeekendDays(s, e)| == |WeekendDays(s, e - 1)| + (if IsWeekend(e) then 1 else 0)
  {
  }

  /** Any seven consecutive days hold exactly two weekend days */
  lemma TwoWeekendDaysPerWeek(s: Day)
    ensures |WeekendDays(s, s + 6)| == 2
  {
    assert |WeekendDays(s, s - 1)| == 0;
    WeekendDaysLength(s, s);
    WeekendDaysLength(s, s + 1);
    WeekendDaysLength(s, s + 2);
    WeekendDaysLength(s, s + 3);
    WeekendDaysLength(s, s + 4);
    WeekendDaysLength(s, s + 5);
    WeekendDaysLength(s, s + 6);
    WeekendsOfWeek(s);
  }

  /** 1 for a weekend day, 0 otherwise */
  function WeekendCount(d: Day): nat {
    if IsWeekend(d) then 1 else 0
  }

  /** Of seven consecutive weekdays, exactly Saturday and Sunday are weekend days */
  lemma WeekendsOfWeek(s: Day)
    ensures WeekendCount(s) + WeekendCount(s + 1) + WeekendCount(s + 2) + WeekendCount(s + 3)
          + WeekendCount(s + 4) + WeekendCount(s + 5) + WeekendCount(s + 6) == 2
  {
    WeekdayShift(s, 1);
    WeekdayShift(s, 2);
    WeekdayShift(s, 3);
    WeekdayShift(s, 4);
    WeekdayShift(s, 5);
    WeekdayShift(s, 6);
  }

  /** One more day at the end of the range adds its text when it is a weekend day */
  lemma WeekendsInRangeStep(s: Day, e: Day)
    requires s <= e
    ensures WeekendsInRange(s, e)
         == WeekendsInRange(s, e - 1) + (if Weekday(e) == 0 || Weekday(e) == 6 then [FormatDate(e)] else [])
  {
  }

  /** `calculateWeekendsInRange`: walk day by day from `start` while the day
      is not after `end`, collecting the formatted Saturdays and Sundays */
  method CalculateWeekendsInRange(start: Day, end: Day) returns (weekends: seq<string>)
    ensures weekends == WeekendsInRange(start, end)
  {
    weekends := [];
    var current := start;
    while current <= end
      invariant start <= current && (current <= end + 1 || current == start)
      invariant weekends == WeekendsInRange(start, current - 1)
      decreases end - current
    {
      WeekendsInRangeStep(start, current);
      var text := FormatDate(current);
      if Weekday(current) == 0 || Weekday(current) == 6 {
        weekends := weekends + [text];
      }
      current := current + 1;
    }
  }

  // ---------------------------------------------------------------------
  // generateCalendarGrid

  /** The day `new Date(year, month, 1)` of the (rolled-over) month shown */
  function FirstOfMonth(year: int, month: int): Day {
    NewDate(year, month, 1)
  }

  /** Number of days of the month, read as the date of `new Date(year, month + 1, 0)` */
  function MonthLength(year: int, month: int): (n: int)
    ensures 1 <= n <= 31
  {
    Date(NewDate(year, month + 1, 0))
  }

  /** Row `r` of a grid whose first cell is day `base`: seven consecutive days */
  function Week(base: Day, r: int): seq<Day> {
    seq(7, c => base + 7 * r + c)
  }

  /** The grid of a month that starts on day `first` and has `length` days:
      consecutive days in rows of seven from the Sunday on or before `first`,
      one row per full week of leading and month days plus the row the
      trailing loop always fills */
  function GridFrom(first: Day, length: nat): seq<seq<Day>> {
    seq((Weekday(first) + length) / 7 + 1, r => Week(first - Weekday(first), r))
  }

  /** The month grid described cell by cell */
  function CalendarGrid(year: int, month: int): seq<seq<Day>> {
    GridFrom(FirstOfMonth(year, month), MonthLength(year, month))
  }

  /** The month's length is the length of the rolled-over calendar month, and
      the next month starts right after it */
  lemma MonthLengthFacts(year: int, month: int)
    ensures var y := ConstructorYear(year) + month / 12;
            var m := month % 12 + 1;
            && MonthLength(year, month) == DaysInMonth(y, m)
            && FirstOfMonth(year, month + 1) == FirstOfMonth(year, month) + MonthLength(year, month)
  {
    LastDayOfMonth(ConstructorYear(year), month);
    MakeDayNextMonth(ConstructorYear(year), month);
  }

  /** The next month starts right after this one */
  lemma NextMonthFollows(year: int, month: int)
    ensures FirstOfMonth(year, month + 1) == FirstOfMonth(year, month) + MonthLength(year, month)
  {
    MonthLengthFacts(year, month);
  }

  /** Day k of the month, for k in 1..length, is that calendar day of the
      rolled-over month */
  lemma MonthDayFields(year: int, month: int, k: int)
    requires 1 <= k <= MonthLength(year, month)
    ensures var n := NewDate(year, month, k);
            && FullYear(n) == ConstructorYear(year) + month / 12
            && Month(n) == month % 12
            && Date(n) == k
  {
    MonthLengthFacts(year, month);
    MakeDayRolled(ConstructorYear(year), month, k);
  }

  /** Day `k` of the month shown, for any `k`: `new Date(year, month, k)` is
      the first of the month moved by `k - 1` days, and day `n` of the next
      month is day `length + n` of this one */
  lemma MonthDayOffsets(year: int, month: int, k: int)
    ensures NewDate(year, month, k) == FirstOfMonth(year, month) + k - 1
    ensures NewDate(year, month + 1, k) == FirstOfMonth(year, month) + MonthLength(year, month) + k - 1
  {
    MakeDayLinear(ConstructorYear(year), month, k);
    MakeDayLinear(ConstructorYear(year), month + 1, k);
    MonthLengthFacts(year, month);
  }

  /** `generateCalendarGrid`: leading days of the previous month back to a
      Sunday, the month's days in weeks of seven, then days of the next month
      until the last week is full.  When the month ends on a Saturday the
      last loop fills a whole row with the next month. */
  method GenerateCalendarGrid(year: int, month: int) returns (grid: seq<seq<Day>>)
    ensures grid == CalendarGrid(year, month)
  {
    var firstDay := NewDate(year, month, 1);
    var lastDay := NewDate(year, month + 1, 0);
    var startDay := Weekday(firstDay);
    var daysInMonth := Date(lastDay);
    grid := FillGrid(firstDay, startDay, daysInMonth);
  }

  /** The three loops of `generateCalendarGrid`, on day numbers: day `k` of the
      month is `firstDay + k - 1` (MonthDayOffsets), so the leading cells
      `new Date(year, month, -i)` are `firstDay - i - 1`, the month's cells are
      `firstDay + i - 1`, and the trailing cells `new Date(year, month + 1, n)`
      are `firstDay + daysInMonth + n - 1` */
  method FillGrid(firstDay: Day, startDay: int, daysInMonth: nat) returns (grid: seq<seq<Day>>)
    requires startDay == Weekday(firstDay)
    ensures grid == GridFrom(firstDay, daysInMonth)
    ensures forall r :: 0 <= r < |grid| ==> |grid[r]| == 7
    ensures Weekday(grid[0][0]) == 0
  {
    var base := firstDay - startDay;
    grid := [];
    var week: seq<Day> := [];

    var i := startDay - 1;
    while i >= 0
      invariant -1 <= i < startDay
      invariant |week| == startDay - 1 - i
      invariant forall c :: 0 <= c < |week| ==> week[c] == base + c
    {
      week := week + [firstDay - i - 1];
      i := i - 1;
    }

    i := 1;
    while i <= daysInMonth
      invariant 1 <= i <= daysInMonth + 1
      invariant 7 * |grid| + |week| == startDay + i - 1
      invariant |week| < 7
      invariant forall r :: 0 <= r < |grid| ==> grid[r] == Week(base, r)
      invariant forall c :: 0 <= c < |week| ==> week[c] == base + 7 * |grid| + c
    {
      week := week + [firstDay + i - 1];
      if |week| == 7 {
        assert week == Week(base, |grid|);
        grid := grid + [week];
        week := [];
      }
      i := i + 1;
    }
    DivModUnique(startDay + daysInMonth, 7, |grid|, |week|);

    var nextDay := 1;
    while |week| < 7
      invariant |week| <= 7
      invariant 7 * |grid| + |week| == startDay + daysInMonth + nextDay - 1
      invariant forall c :: 0 <= c < |week| ==> week[c] == base + 7 * |grid| + c
      decreases 7 - |week|
    {
      week := week + [firstDay + daysInMonth + nextDay - 1];
      nextDay := nextDay + 1;
    }
    assert week == Week(base, |grid|);
    grid := grid + [week];
    WeekdayShift(firstDay, -startDay);
  }

  /** Every cell follows the previous one by a day, row by row */
  lemma GridConsecutive(first: Day, length: nat)
    ensures var g := GridFrom(first, length);
            && (forall r, c :: 0 <= r < |g| && 0 <= c < 6 ==> g[r][c + 1] == g[r][c] + 1)
            && (forall r :: 0 <= r < |g| - 1 ==> g[r + 1][0] == g[r][6] + 1)
  {
  }

  /** Each day of the month appears in exactly one cell, at the position its
      weekday and week give */
  lemma GridHoldsDayOnce(first: Day, length: nat, k: int)
    requires 1 <= k <= length
    ensures var g := GridFrom(first, length);
            var p := Weekday(first) + k - 1;
            && p / 7 < |g|
            && g[p / 7][p % 7] == first + k - 1
            && forall r, c :: 0 <= r < |g| && 0 <= c < 7 && g[r][c] == first + k - 1 ==>
                 r == p / 7 && c == p % 7
  {
    var g := GridFrom(first, length);
    var p := Weekday(first) + k - 1;
    forall r, c | 0 <= r < |g| && 0 <= c < 7 && g[r][c] == first + k - 1
      ensures r == p / 7 && c == p % 7
    {
      DivModUnique(p, 7, r, c);
    }
  }

  /** The first day of the month sits in the first row, in its weekday's column */
  lemma GridFirstRow(first: Day, length: nat)
    ensures GridFrom(first, length)[0][Weekday(first)] == first
  {
  }

  /** Day k of the month shown appears in exactly one cell of its grid */
  lemma GridHoldsMonthOnce(year: int, month: int, k: int)
    requires 1 <= k <= MonthLength(year, month)
    ensures var g := CalendarGrid(year, month);
            var p := Weekday(FirstOfMonth(year, month)) + k - 1;
            && p / 7 < |g|
            && g[p / 7][p % 7] == NewDate(year, month, k)
            && forall r, c :: 0 <= r < |g| && 0 <= c < 7 && g[r][c] == NewDate(year, month, k) ==>
                 r == p / 7 && c == p % 7
  {
    MonthDayOffsets(year, month, k);
    GridHoldsDayOnce(FirstOfMonth(year, month), MonthLength(year, month), k);
  }

  /** A grid of a month of 28..31 days has five or six rows, and when the month
      ends on a Saturday its whole last row lies after the month */
  lemma GridShape(first: Day, length: nat)
    requires 28 <= length <= 31
    ensures var g := GridFrom(first, length);
            && 5 <= |g| <= 6
            && ((Weekday(first) + length) % 7 == 0 ==> g[|g| - 1][0] == first + length)
  {
    var w := Weekday(first);
    DivModUnique(w + length, 7, (w + length) / 7, (w + length) % 7);
  }

  /** A month grid has five or six rows, and when the month ends on a
      Saturday its last row starts on the first of the next month */
  lemma GridRowsBounds(year: int, month: int)
    ensures 5 <= |CalendarGrid(year, month)| <= 6
    ensures var g := CalendarGrid(year, month);
            (Weekday(FirstOfMonth(year, month)) + MonthLength(year, month)) % 7 == 0 ==>
              g[|g| - 1][0] == FirstOfMonth(year, month + 1)
  {
    MonthLengthFacts(year, month);
    GridShape(FirstOfMonth(year, month), MonthLength(year, month));
  }

  // ---------------------------------------------------------------------
  // getPredefinedDateRanges

  datatype PredefinedRange = PredefinedRange(name: string, start: Day, end: Day)

  /** A month's first day is not after its last */
  lemma MonthStartBeforeEnd(y: int, m0: int)
    ensures NewDate(y, m0, 1) <= NewDate(y, m0 + 1, 0)
  {
    MakeDayNextMonth(ConstructorYear(y), m0);
  }

  /** `getPredefinedDateRanges` with the current date passed in as `today` */
  function GetPredefinedDateRanges(today: Day): (r: seq<PredefinedRange>)
    ensures |r| == 4
    ensures r[0] == PredefinedRange("Today", today, today)
    ensures r[1].name == "This Week" && r[1].end == today
    ensures Weekday(r[1].start) == 0 && today - 6 <= r[1].start <= today
    ensures r[2] == PredefinedRange("Last 7 Days", today - 6, today)
    ensures r[3].name == "Last Month"
    ensures forall i :: 0 <= i < |r| ==> r[i].start <= r[i].end
  {
    WeekdayShift(today, -Weekday(today));
    [ PredefinedRange("Today", today, today),
      PredefinedRange("This Week", today - Weekday(today), today),
      PredefinedRange("Last 7 Days", today - 6, today),
      LastMonthOf(FullYear(today), Month(today)) ]
  }

  /** The "Last Month" entry for a current year `y` and month index `m0`:
      day 1 and day 0 (the last day of the month before) read by the
      constructor */
  function LastMonthOf(y: int, m0: int): (r: PredefinedRange)
    ensures r.name == "Last Month" && r.start <= r.end
  {
    MonthStartBeforeEnd(y, m0 - 1);
    PredefinedRange("Last Month", NewDate(y, m0 - 1, 1), NewDate(y, m0, 0))
  }

  /** The "Last Month" entry is the whole month before `m0` */
  lemma LastMonthFields(y: int, m0: int)
    ensures var lm := LastMonthOf(y, m0);
            var yr := ConstructorYear(y);
            var prev := m0 - 1;
            && FullYear(lm.start) == FullYear(lm.end) == yr + prev / 12
            && Month(lm.start) == Month(lm.end) == prev % 12
            && Date(lm.start) == 1
            && Date(lm.end) == DaysInMonth(yr + prev / 12, prev % 12 + 1)
            && lm.end + 1 == NewDate(y, m0, 1)
  {
    MonthSpan(ConstructorYear(y), m0 - 1);
  }

  /** "Last Month" runs from day 1 to the last day of the month before the
      current one, and ends the day before the first of the current month */
  lemma LastMonthRange(today: Day)
    ensures var lm := GetPredefinedDateRanges(today)[3];
            var y := ConstructorYear(FullYear(today));
            var prev := Month(today) - 1;
            && FullYear(lm.start) == FullYear(lm.end) == y + prev / 12
            && Month(lm.start) == Month(lm.end) == prev % 12
            && Date(lm.start) == 1
            && Date(lm.end) == DaysInMonth(y + prev / 12, prev % 12 + 1)
            && lm.end + 1 == NewDate(FullYear(today), Month(today), 1)
  {
    LastMonthFields(FullYear(today), Month(today));
  }

  /** Outside years 0..99, "Last Month" ends on the day before the first of
      today's month */
  lemma LastMonthEndsBeforeThisMonth(today: Day)
    requires !(0 <= FullYear(today) <= 99)
    ensures GetPredefinedDateRanges(today)[3].end == today - Date(today)
  {
    DayBeforeMonthStart(today);
  }

  /** Day 0 of a date's month is the day before its first */
  lemma DayBeforeMonthStart(n: Day)
    requires !(0 <= FullYear(n) <= 99)
    ensures NewDate(FullYear(n), Month(n), 0) == n - Date(n)
  {
    MakeDayOfFields(n);
    MakeDayLinear(FullYear(n), Month(n), Date(n));
  }
}
