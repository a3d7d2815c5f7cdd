/** The part of the ECMAScript `Date` object the picker uses, on day numbers.

    Only local calendar days matter to the picker, so a `Date` is a `Day`
    and time-of-day, time zones and daylight saving are not represented. */
module JsDate {
  import opened Civil

  /** The year the `Date(y, m, d)` constructor uses: 0..99 mean 1900..1999 */
  function ConstructorYear(y: int): (yr: int)
    ensures yr == y <==> !(0 <= y <= 99)
  {
    if 0 <= y <= 99 then 1900 + y else y
  }

  /** ECMAScript MakeDay for a local date: the month index rolls into the
      year with floor division, and the day counts on from the first of that
      month, so month 12 is January of the next year and day 0 is the last
      day of the previous month. */
  function MakeDay(y: int, m0: int, d: int): Day {
    DaysFromCivil(CivilDate(y + m0 / 12, m0 % 12 + 1, 1)) + d - 1
  }

  /** `new Date(y, m0, d)` */
  function NewDate(y: int, m0: int, d: int): Day {
    MakeDay(ConstructorYear(y), m0, d)
  }

  /** `getFullYear()` */
  function FullYear(n: Day): int {
    ToCivil(n).year
  }

  /** `getMonth()`, counting January as 0 */
  function Month(n: Day): (m0: int)
    ensures 0 <= m0 <= 11
  {
    ToCivilValid(n);
    ToCivil(n).month - 1
  }

  /** `getDate()`, the day of the month */
  function Date(n: Day): (d: int)
    ensures 1 <= d <= 31
  {
    ToCivilValid(n);
    ToCivil(n).day
  }

  /** `getDay()`: 0 is Sunday and 6 is Saturday; day 0 was a Thursday */
  function Weekday(n: Day): (w: int)
    ensures 0 <= w <= 6
  {
    (n + 4) % 7
  }

  /** A month index in 0..11 does not roll over */
  lemma MonthIndexInRange(m0: int)
    requires 0 <= m0 <= 11
    ensures m0 / 12 == 0 && m0 % 12 == m0
  {
  }

  /** MakeDay of an in-range month index is the day number of that date */
  lemma MakeDayInRange(y: int, m0: int, d: int)
    requires 0 <= m0 <= 11
    ensures MakeDay(y, m0, d) == DaysFromCivil(CivilDate(y, m0 + 1, d))
  {
    MonthIndexInRange(m0);
    DaysFromCivilShift(y, m0 + 1, d);
  }

  /** MakeDay builds back every day from its year, month and date */
  lemma MakeDayOfFields(n: Day)
    ensures MakeDay(FullYear(n), Month(n), Date(n)) == n
  {
    ToCivilValid(n);
    var c := ToCivil(n);
    MakeDayInRange(c.year, c.month - 1, c.day);
  }

  /** A day's date exists in its month */
  lemma DateInMonth(n: Day)
    ensures Date(n) <= DaysInMonth(FullYear(n), Month(n) + 1)
  {
    ToCivilValid(n);
  }

  /** MakeDay of an in-range month and day is that calendar date */
  lemma MakeDayFields(y: int, m0: int, d: int)
    requires 0 <= m0 <= 11 && 1 <= d <= DaysInMonth(y, m0 + 1)
    ensures FullYear(MakeDay(y, m0, d)) == y
    ensures Month(MakeDay(y, m0, d)) == m0
    ensures Date(MakeDay(y, m0, d)) == d
  {
    MakeDayInRange(y, m0, d);
    CivilRoundTrip(CivilDate(y, m0 + 1, d));
  }

  /** MakeDay counts days on linearly from the first of the month */
  lemma MakeDayLinear(y: int, m0: int, d: int)
    ensures MakeDay(y, m0, d) == MakeDay(y, m0, 1) + d - 1
  {
  }

  /** MakeDay of any month index is a date of the rolled-over month: the year
      gains `m0 / 12` and the month index becomes `m0 % 12` */
  lemma MakeDayRolled(y: int, m0: int, d: int)
    requires 1 <= d <= DaysInMonth(y + m0 / 12, m0 % 12 + 1)
    ensures MakeDay(y, m0, d) == MakeDay(y + m0 / 12, m0 % 12, d)
    ensures FullYear(MakeDay(y, m0, d)) == y + m0 / 12
    ensures Month(MakeDay(y, m0, d)) == m0 % 12
    ensures Date(MakeDay(y, m0, d)) == d
  {
    MakeDayRoll(y, m0, d);
    MakeDayFields(y + m0 / 12, m0 % 12, d);
  }

  /** The month index of MakeDay can be rolled into the year beforehand */
  lemma MakeDayRoll(y: int, m0: int, d: int)
    ensures MakeDay(y, m0, d) == MakeDay(y + m0 / 12, m0 % 12, d)
  {
    MonthIndexInRange(m0 % 12);
  }

  /** Twelve months are one year */
  lemma MakeDayYearCarry(y: int, m0: int, d: int, k: int)
    ensures MakeDay(y, m0 + 12 * k, d) == MakeDay(y + k, m0, d)
  {
    DivModUnique(m0 + 12 * k, 12, m0 / 12 + k, m0 % 12);
  }

  /** The month index after `m0`, rolled over: the year carries past December */
  lemma NextMonthIndex(m0: int)
    ensures (m0 + 1) / 12 == (if m0 % 12 == 11 then m0 / 12 + 1 else m0 / 12)
    ensures (m0 + 1) % 12 == (if m0 % 12 == 11 then 0 else m0 % 12 + 1)
  {
    if m0 % 12 == 11 {
      DivModUnique(m0 + 1, 12, m0 / 12 + 1, 0);
    } else {
      DivModUnique(m0 + 1, 12, m0 / 12, m0 % 12 + 1);
    }
  }

  /** The first of the month after month index `m0` comes as many days after
      the first of `m0` as the (rolled-over) month `m0` has */
  lemma MakeDayNextMonth(y: int, m0: int)
    ensures MakeDay(y, m0 + 1, 1)
         == MakeDay(y, m0, 1) + DaysInMonth(y + m0 / 12, m0 % 12 + 1)
  {
    var yy := y + m0 / 12;
    var mm := m0 % 12 + 1;
    NextMonthStart(yy, mm);
    NextMonthIndex(m0);
    var next := NextMonth(yy, mm);
    assert next == CivilDate(y + (m0 + 1) / 12, (m0 + 1) % 12 + 1, 1);
  }

  /** The day before the first of the next month is the month's last day */
  lemma LastDayOfMonth(y: int, m0: int)
    ensures var last := MakeDay(y, m0 + 1, 0);
            && FullYear(last) == y + m0 / 12
            && Month(last) == m0 % 12
            && Date(last) == DaysInMonth(y + m0 / 12, m0 % 12 + 1)
  {
    var dim := DaysInMonth(y + m0 / 12, m0 % 12 + 1);
    MakeDayNextMonth(y, m0);
    assert MakeDay(y, m0 + 1, 0) == MakeDay(y, m0, dim);
    MakeDayRolled(y, m0, dim);
  }

  /** The first and the last day of the (rolled-over) month `m0`: both lie in
      that month, and the last is the day before the next month starts */
  lemma MonthSpan(y: int, m0: int)
    ensures var first := MakeDay(y, m0, 1);
            var last := MakeDay(y, m0 + 1, 0);
            && FullYear(first) == FullYear(last) == y + m0 / 12
            && Month(first) == Month(last) == m0 % 12
            && Date(first) == 1
            && Date(last) == DaysInMonth(y + m0 / 12, m0 % 12 + 1)
            && last + 1 == MakeDay(y, m0 + 1, 1)
  {
    LastDayOfMonth(y, m0);
    MakeDayRolled(y, m0, 1);
  }

  /** Moving `k` days moves the weekday by `k`, modulo 7 */
  lemma WeekdayShift(n: Day, k: int)
    ensures Weekday(n + k) == (Weekday(n) + k) % 7
  {
    var q, w := (n + 4) / 7, (n + 4) % 7;
    DivModUnique(n + k + 4, 7, q + (w + k) / 7, (w + k) % 7);
  }
}
