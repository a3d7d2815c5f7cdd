/** The proleptic Gregorian calendar over integer day numbers.

    A day is an `int` counting days from 1970-01-01 (day 0, a Thursday).
    The conversion works with March-based years, so that a leap day is always
    the last day of its year.  A March-based year is split into a 400-year
    era, a century of that era, a 4-year cycle of that century and a year of
    that cycle; each component is recovered by one division. */
module Civil {

  /** Days since 1970-01-01 */
  type Day = int

  /** Days from 0000-03-01 to 1970-01-01 */
  const EpochShift := 719468

  const DaysPerEra := 146097      // 400 years
  const DaysPerCentury := 36524   // 100 years whose last year is not leap
  const DaysPerCycle := 1461      // 4 years whose last year is leap

  predicate IsLeapYear(y: int) {
    y % 4 == 0 && (y % 100 != 0 || y % 400 == 0)
  }

  function DaysInMonth(y: int, m: int): (n: int)
    requires 1 <= m <= 12
    ensures 28 <= n <= 31
    ensures n == 29 <==> m == 2 && IsLeapYear(y)
  {
    if m == 2 then (if IsLeapYear(y) then 29 else 28)
    else if m == 4 || m == 6 || m == 9 || m == 11 then 30
    else 31
  }

  /** A calendar date with `month` in 1..12 (January is 1) */
  datatype CivilDate = CivilDate(year: int, month: int, day: int)

  predicate Valid(c: CivilDate) {
    1 <= c.month <= 12 && 1 <= c.day <= DaysInMonth(c.year, c.month)
  }

  // ---------------------------------------------------------------------
  // Months of a March-based year

  /** Position of month `m` in a year that starts in March: March is 0, February is 11 */
  function MarchIndex(m: int): (mi: int)
    requires 1 <= m <= 12
    ensures 0 <= mi <= 11
  {
    if m >= 3 then m - 3 else m + 9
  }

  /** The calendar month (1..12) of March-based month index `mi` */
  function MonthOfMarchIndex(mi: int): (m: int)
    requires 0 <= mi <= 11
    ensures 1 <= m <= 12 && MarchIndex(m) == mi
  {
    if mi < 10 then mi + 3 else mi - 9
  }

  /** Days from March 1 to the first day of March-based month `mi` */
  function MarchOffset(mi: int): int
    requires 0 <= mi <= 11
  {
    if mi < 6 then [0, 31, 61, 92, 122, 153][mi]
    else [184, 214, 245, 275, 306, 337][mi - 6]
  }

  /** The length of March-based month `mi` in a year whose February has `feb` days */
  function MarchMonthLength(mi: int, feb: int): int
    requires 0 <= mi <= 11
  {
    if mi == 11 then feb else if mi == 10 then 31 else MarchOffset(mi + 1) - MarchOffset(mi)
  }

  /** The March-based month that holds day-of-year `doy` */
  function MarchMonthOf(doy: int): (mi: int)
    requires 0 <= doy < 366
    ensures 0 <= mi <= 11
    ensures MarchOffset(mi) <= doy < MarchOffset(mi) + MarchMonthLength(mi, 29)
  {
    if doy < 153 then
      (if doy < 31 then 0 else if doy < 61 then 1 else if doy < 92 then 2
       else if doy < 122 then 3 else 4)
    else
      (if doy < 184 then 5 else if doy < 214 then 6 else if doy < 245 then 7
       else if doy < 275 then 8 else if doy < 306 then 9 else if doy < 337 then 10 else 11)
  }

  /** A day of a March-based month determines the month */
  lemma MarchMonthUnique(mi: int, doy: int)
    requires 0 <= mi <= 11 && 0 <= doy < 366
    requires MarchOffset(mi) <= doy < MarchOffset(mi) + MarchMonthLength(mi, 29)
    ensures MarchMonthOf(doy) == mi
  {
  }

  /** Month lengths of the calendar, read in March-based order */
  lemma MarchMonthLengthIsDaysInMonth(y: int, m: int)
    requires 1 <= m <= 12
    ensures DaysInMonth(y, m)
         == MarchMonthLength(MarchIndex(m), if IsLeapYear(y) then 29 else 28)
  {
  }

  // ---------------------------------------------------------------------
  // March-based years

  /** Days from the start of a 400-year era to March 1 of its year `yoe` */
  function YearStartInEra(yoe: int): int
    requires 0 <= yoe < 400
  {
    (yoe / 100) * DaysPerCentury + ((yoe % 100) / 4) * DaysPerCycle + (yoe % 4) * 365
  }

  /** Days from 0000-03-01 to March 1 of year `yp` */
  function MarchYearStart(yp: int): int {
    (yp / 400) * DaysPerEra + YearStartInEra(yp % 400)
  }

  /** The March-based year `yp` runs to the end of February of `yp + 1` */
  function MarchYearLength(yp: int): int {
    if IsLeapYear(yp + 1) then 366 else 365
  }

  /** Leapness of year `era * 400 + k` depends only on `k` */
  lemma LeapInEra(era: int, k: int)
    requires 1 <= k <= 400
    ensures IsLeapYear(era * 400 + k) <==> k % 4 == 0 && (k % 100 != 0 || k == 400)
  {
    var y := era * 400 + k;
    DivModUnique(y, 4, era * 100 + k / 4, k % 4);
    DivModUnique(y, 100, era * 4 + k / 100, k % 100);
    DivModUnique(y, 400, era + k / 400, k % 400);
  }

  /** For a year written as `400 era + 100 cen + 4 cyc + yr`, its March 1 and
      its length read off the components */
  lemma YearOfComponents(era: int, cen: int, cyc: int, yr: int)
    requires 0 <= cen <= 3 && 0 <= cyc <= 24 && 0 <= yr <= 3
    ensures var yp := era * 400 + cen * 100 + cyc * 4 + yr;
            && MarchYearStart(yp)
               == era * DaysPerEra + cen * DaysPerCentury + cyc * DaysPerCycle + yr * 365
            && (MarchYearLength(yp) == 366 <==> yr == 3 && (cyc < 24 || cen == 3))
  {
    var yoe := cen * 100 + cyc * 4 + yr;
    var yp := era * 400 + yoe;
    DivModUnique(yp, 400, era, yoe);
    DivModUnique(yoe, 100, cen, cyc * 4 + yr);
    DivModUnique(cyc * 4 + yr, 4, cyc, yr);
    DivModUnique(yoe, 4, cen * 25 + cyc, yr);
    var k := yoe + 1;
    LeapInEra(era, k);
    if yr == 3 {
      if cyc < 24 {
        DivModUnique(k, 100, cen, (cyc + 1) * 4);
      } else {
        DivModUnique(k, 100, cen + 1, 0);
      }
    } else {
      DivModUnique(k, 4, cen * 25 + cyc, yr + 1);
    }
  }

  /** Every year number splits into era, century, cycle and year of cycle */
  lemma SplitYear(yp: int) returns (era: int, cen: int, cyc: int, yr: int)
    ensures 0 <= cen <= 3 && 0 <= cyc <= 24 && 0 <= yr <= 3
    ensures yp == era * 400 + cen * 100 + cyc * 4 + yr
  {
    era := yp / 400;
    var yoe := yp % 400;
    cen := yoe / 100;
    cyc := (yoe % 100) / 4;
    yr := yoe % 4;
  }

  /** The next March-based year starts right after this one ends */
  lemma MarchYearStep(yp: int)
    ensures MarchYearStart(yp + 1) == MarchYearStart(yp) + MarchYearLength(yp)
  {
    var era, cen, cyc, yr := SplitYear(yp);
    YearOfComponents(era, cen, cyc, yr);
    if yr < 3 {
      YearOfComponents(era, cen, cyc, yr + 1);
    } else if cyc < 24 {
      YearOfComponents(era, cen, cyc + 1, 0);
    } else if cen < 3 {
      YearOfComponents(era, cen + 1, 0, 0);
    } else {
      YearOfComponents(era + 1, 0, 0, 0);
    }
  }

  /** March-based years follow each other without gaps or overlaps */
  lemma {:induction false} MarchYearsOrdered(a: int, b: int)
    requires a < b
    ensures MarchYearStart(a) + MarchYearLength(a) <= MarchYearStart(b)
    decreases b - a
  {
    MarchYearStep(a);
    if a + 1 < b {
      MarchYearsOrdered(a + 1, b);
    }
  }

  /** A day falls in exactly one March-based year */
  lemma MarchYearUnique(a: int, da: int, b: int, db: int)
    requires 0 <= da < MarchYearLength(a) && 0 <= db < MarchYearLength(b)
    requires MarchYearStart(a) + da == MarchYearStart(b) + db
    ensures a == b && da == db
  {
    if a < b {
      MarchYearsOrdered(a, b);
    } else if b < a {
      MarchYearsOrdered(b, a);
    }
  }

  // ---------------------------------------------------------------------
  // Day number of a date, and date of a day number

  /** The day number of a calendar date.  The day is linear, so an
      out-of-range `day` counts on from the first of the month. */
  function DaysFromCivil(c: CivilDate): Day
    requires 1 <= c.month <= 12
  {
    var yp := if c.month <= 2 then c.year - 1 else c.year;
    MarchYearStart(yp) + MarchOffset(MarchIndex(c.month)) + c.day - 1 - EpochShift
  }

  /** The century of an era (0..3) holding day-of-era `doe`; the era's last
      century is a day longer than the others */
  function CenturyOfEra(doe: int): (cen: int)
    requires 0 <= doe < DaysPerEra
    ensures 0 <= cen <= 3
    ensures 0 <= doe - cen * DaysPerCentury <= DaysPerCentury
    ensures doe - cen * DaysPerCentury == DaysPerCentury ==> cen == 3
  {
    if doe / DaysPerCentury < 3 then doe / DaysPerCentury else 3
  }

  /** The year of a 4-year cycle (0..3) holding day-of-cycle `doq`; the
      cycle's last year holds the leap day */
  function YearOfCycle(doq: int): (yr: int)
    requires 0 <= doq < DaysPerCycle
    ensures 0 <= yr <= 3
    ensures 0 <= doq - yr * 365 <= 365
    ensures doq - yr * 365 == 365 ==> yr == 3
  {
    if doq / 365 < 3 then doq / 365 else 3
  }

  /** A March-based year and a day of it */
  datatype YearDay = YearDay(yp: int, doy: int)

  /** The day `doy` is a day of the March-based year `yp` */
  predicate InYear(yd: YearDay) {
    0 <= yd.doy < MarchYearLength(yd.yp)
  }

  /** The March-based year and day of year of day `z` counted from 0000-03-01 */
  function ToYearDay(z: int): (r: YearDay)
    ensures InYear(r)
    ensures MarchYearStart(r.yp) + r.doy == z
  {
    var era := z / DaysPerEra;
    var doe := z % DaysPerEra;
    var cen := CenturyOfEra(doe);
    var doc := doe - cen * DaysPerCentury;
    var cyc := doc / DaysPerCycle;
    var doq := doc % DaysPerCycle;
    var yr := YearOfCycle(doq);
    YearOfComponents(era, cen, cyc, yr);
    YearDay(era * 400 + cen * 100 + cyc * 4 + yr, doq - yr * 365)
  }

  /** The March-based year and day of year of a date */
  function YearDayOf(c: CivilDate): YearDay
    requires 1 <= c.month <= 12
  {
    YearDay(if c.month <= 2 then c.year - 1 else c.year, MarchOffset(MarchIndex(c.month)) + c.day - 1)
  }

  /** The date of a day of a March-based year */
  function FromYearDay(yd: YearDay): (c: CivilDate)
    requires InYear(yd)
    ensures 1 <= c.month <= 12
  {
    var mi := MarchMonthOf(yd.doy);
    var m := MonthOfMarchIndex(mi);
    CivilDate(if m <= 2 then yd.yp + 1 else yd.yp, m, yd.doy - MarchOffset(mi) + 1)
  }

  /** The calendar date of day `n` */
  function ToCivil(n: Day): CivilDate {
    FromYearDay(ToYearDay(n + EpochShift))
  }

  // ---------------------------------------------------------------------
  // Round trips

  /** The day number of a date counts from March 1 of its March-based year */
  lemma DaysFromYearDay(c: CivilDate)
    requires 1 <= c.month <= 12
    ensures DaysFromCivil(c) == MarchYearStart(YearDayOf(c).yp) + YearDayOf(c).doy - EpochShift
  {
  }

  /** A valid date is a day of its March-based year, and reads back from it */
  lemma FromYearDayOf(c: CivilDate)
    requires Valid(c)
    ensures InYear(YearDayOf(c))
    ensures FromYearDay(YearDayOf(c)) == c
  {
    var mi := MarchIndex(c.month);
    MarchMonthLengthIsDaysInMonth(c.year, c.month);
    if c.month <= 2 {
      assert IsLeapYear(YearDayOf(c).yp + 1) == IsLeapYear(c.year);
    }
    MarchMonthUnique(mi, YearDayOf(c).doy);
  }

  /** A day of a March-based year is a valid date of that year and day */
  lemma YearDayOfFrom(yd: YearDay)
    requires InYear(yd)
    ensures Valid(FromYearDay(yd))
    ensures YearDayOf(FromYearDay(yd)) == yd
  {
    var c := FromYearDay(yd);
    MarchMonthLengthIsDaysInMonth(c.year, c.month);
    if c.month <= 2 {
      assert c.year == yd.yp + 1;
    }
  }

  lemma ToCivilValid(n: Day)
    ensures Valid(ToCivil(n))
    ensures DaysFromCivil(ToCivil(n)) == n
  {
    var yd := ToYearDay(n + EpochShift);
    YearDayOfFrom(yd);
    DaysFromYearDay(FromYearDay(yd));
  }

  lemma CivilRoundTrip(c: CivilDate)
    requires Valid(c)
    ensures ToCivil(DaysFromCivil(c)) == c
  {
    var yd := YearDayOf(c);
    FromYearDayOf(c);
    DaysFromYearDay(c);
    var yd' := ToYearDay(DaysFromCivil(c) + EpochShift);
    MarchYearUnique(yd.yp, yd.doy, yd'.yp, yd'.doy);
    assert yd' == yd;
  }

  /** Day numbers of valid dates are distinct */
  lemma DaysFromCivilInjective(a: CivilDate, b: CivilDate)
    requires Valid(a) && Valid(b)
    ensures DaysFromCivil(a) == DaysFromCivil(b) <==> a == b
  {
    if DaysFromCivil(a) == DaysFromCivil(b) {
      CivilRoundTrip(a);
      CivilRoundTrip(b);
    }
  }

  // ---------------------------------------------------------------------
  // Consecutive days and months

  /** The day number is linear in the day of the month */
  lemma DaysFromCivilShift(y: int, m: int, d: int)
    requires 1 <= m <= 12
    ensures DaysFromCivil(CivilDate(y, m, d)) == DaysFromCivil(CivilDate(y, m, 1)) + d - 1
  {
  }

  /** The month after (y, m), with the carry from December into January */
  function NextMonth(y: int, m: int): (r: CivilDate)
    requires 1 <= m <= 12
    ensures 1 <= r.month <= 12 && r.day == 1
    ensures r.year * 12 + r.month == y * 12 + m + 1
  {
    if m == 12 then CivilDate(y + 1, 1, 1) else CivilDate(y, m + 1, 1)
  }

  /** The first of the next month is DaysInMonth days after the first of this one */
  lemma NextMonthStart(y: int, m: int)
    requires 1 <= m <= 12
    ensures DaysFromCivil(NextMonth(y, m)) == DaysFromCivil(CivilDate(y, m, 1)) + DaysInMonth(y, m)
  {
    if m == 2 {
      MarchYearStep(y - 1);
    }
  }

  // ---------------------------------------------------------------------
  // Division

  /** Euclidean division is determined by a quotient and a remainder in range */
  lemma DivModUnique(x: int, k: int, q: int, r: int)
    requires 0 < k && 0 <= r < k && x == q * k + r
    ensures x / k == q && x % k == r
  {
    var q', r' := x / k, x % k;
    if q' < q {
      assert (q - q') * k == q * k - q' * k;
      MulNonnegative(q - q' - 1, k);
    } else if q' > q {
      assert (q' - q) * k == q' * k - q * k;
      MulNonnegative(q' - q - 1, k);
    }
  }

  lemma MulNonnegative(a: int, b: int)
    requires a >= 0 && b >= 0
    ensures a * b >= 0
  {
  }
}
