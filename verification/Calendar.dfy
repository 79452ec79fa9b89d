/** Civil dates and day counts: the two calendar functions of the event writer.

  `DaysFromCivil` and `CivilFromDays` are related here to the proleptic Gregorian
  calendar itself: a date is valid by the 4/100/400 leap rule, and `NextDay` is the
  naive step from one calendar day to the next.
*/
module Calendar {

  datatype Date = Date(year: int, month: int, day: int)

  const SECONDS_PER_DAY := 86_400
  const DAYS_PER_ERA := 146_097
  const EPOCH_SHIFT := 719_468

  predicate IsLeap(year: int) {
    year % 4 == 0 && (year % 100 != 0 || year % 400 == 0)
  }

  function DaysInMonth(year: int, month: int): int
    requires 1 <= month <= 12
  {
    if month == 2 then (if IsLeap(year) then 29 else 28)
    else if month in {4, 6, 9, 11} then 30
    else 31
  }

  predicate ValidDate(d: Date) {
    1 <= d.month <= 12 && 1 <= d.day <= DaysInMonth(d.year, d.month)
  }

  /** The calendar day after `d`. */
  function NextDay(d: Date): Date
    requires ValidDate(d)
  {
    if d.day < DaysInMonth(d.year, d.month) then Date(d.year, d.month, d.day + 1)
    else if d.month < 12 then Date(d.year, d.month + 1, 1)
    else Date(d.year + 1, 1, 1)
  }

  /** Chronological order of dates. */
  predicate Before(a: Date, b: Date) {
    a.year < b.year || (a.year == b.year && (a.month < b.month || (a.month == b.month && a.day < b.day)))
  }

  /** Integer division that rounds toward zero, as `/` on `i64` does. */
  function TruncDiv(a: int, b: int): int
    requires b > 0
  {
    if a >= 0 then a / b else -((-a) / b)
  }

  function DaysFromCivil(year: int, month: int, day: int): int {
    var y := if month <= 2 then year - 1 else year;
    var era := TruncDiv(if y >= 0 then y else y - 399, 400);
    var yearOfEra := y - era * 400;
    var monthShift := if month > 2 then month - 3 else month + 9;
    var dayOfYear := TruncDiv(153 * monthShift + 2, 5) + day - 1;
    var dayOfEra := yearOfEra * 365 + TruncDiv(yearOfEra, 4) - TruncDiv(yearOfEra, 100) + dayOfYear;
    era * DAYS_PER_ERA + dayOfEra - EPOCH_SHIFT
  }

  function CivilFromDays(days: int): Date {
    var z := days + EPOCH_SHIFT;
    var era := z / DAYS_PER_ERA;
    var doe := z % DAYS_PER_ERA;
    var yoe := TruncDiv(doe - TruncDiv(doe, 1460) + TruncDiv(doe, 36_524) - TruncDiv(doe, 146_096), 365);
    var y := yoe + era * 400;
    var doy := doe - (365 * yoe + TruncDiv(yoe, 4) - TruncDiv(yoe, 100));
    var mp := TruncDiv(5 * doy + 2, 153);
    var d := doy - TruncDiv(153 * mp + 2, 5) + 1;
    var m := if mp < 10 then mp + 3 else mp - 9;
    Date(if m <= 2 then y + 1 else y, m, d)
  }

  function CivilFromUnix(seconds: int): Date {
    CivilFromDays(seconds / SECONDS_PER_DAY)
  }

  // ---- the era year: years that begin on 1 March ----

  /** Days of an era that precede its year `y`. */
  function YearStart(y: int): int {
    365 * y + y / 4 - y / 100
  }

  /** The year a day of the era falls in, from the century, leap-cycle and year digits of the day. */
  lemma YearStartDigits(c: int, q: int, k: int)
    requires 0 <= c <= 3 && 0 <= q <= 24 && 0 <= k <= 3
    ensures YearStart(100 * c + 4 * q + k) == 36_524 * c + 1461 * q + 365 * k
  {
    assert (100 * c + 4 * q + k) / 4 == 25 * c + q;
    assert (100 * c + 4 * q + k) / 100 == c;
  }

  /** The correction terms of `CivilFromDays` turn a day of the era into its year. */
  lemma YearOfEraDigits(doe: int, c: int, q: int, s: int)
    requires 0 <= c <= 3 && 0 <= q <= 24 && 0 <= s <= 1460
    requires doe == 36_524 * c + 1461 * q + s < DAYS_PER_ERA
    requires c < 3 ==> 1461 * q + s < 36_524
    ensures (doe - doe / 1460 + doe / 36_524 - doe / 146_096) / 365
         == 100 * c + 4 * q + (if s == 1460 then 3 else s / 365)
  {
    var e := if 24 * c + q + s >= 1460 then 1 else 0;
    assert doe / 1460 == 25 * c + q + e;
    assert doe / 36_524 - doe / 146_096 == c;
    var k := if s == 1460 then 3 else s / 365;
    assert doe - doe / 1460 + doe / 36_524 - doe / 146_096 == 365 * (100 * c + 4 * q + k) + (s - e - 365 * k);
    assert 0 <= s - e - 365 * k < 365;
  }

  lemma YearOfEra(doe: int)
    requires 0 <= doe < DAYS_PER_ERA
    ensures var yoe := (doe - doe / 1460 + doe / 36_524 - doe / 146_096) / 365;
            && 0 <= yoe <= 399
            && YearStart(yoe) <= doe
            && doe < (if yoe == 399 then DAYS_PER_ERA else YearStart(yoe + 1))
  {
    var c := if doe / 36_524 > 3 then 3 else doe / 36_524;
    var r := doe - 36_524 * c;
    var q := r / 1461;
    var k := if r % 1461 == 1460 then 3 else r % 1461 / 365;
    YearOfEraDigits(doe, c, q, r % 1461);
    YearStartDigits(c, q, k);
    if k < 3 {
      YearStartDigits(c, q, k + 1);
    } else if q < 24 {
      YearStartDigits(c, q + 1, 0);
    } else if c < 3 {
      YearStartDigits(c + 1, 0, 0);
    }
  }

  /** Days before 1 March of `y`, counted from 1 March of year 0: every quotient is a floor. */
  function MarchDays(y: int): int {
    365 * y + y / 4 - y / 100 + y / 400
  }

  /** Days of a March-based year before the month `shift` months after March. */
  function MonthStart(shift: int): int {
    (153 * shift + 2) / 5
  }

  /** The day number without eras. */
  function ClosedForm(year: int, month: int, day: int): int {
    var y := if month <= 2 then year - 1 else year;
    var shift := if month > 2 then month - 3 else month + 9;
    MarchDays(y) + MonthStart(shift) + day - 1 - EPOCH_SHIFT
  }

  /** Eras repeat: shifting a year by whole eras shifts its day count by whole eras. */
  lemma ErasRepeat(yoe: int, era: int)
    ensures MarchDays(yoe + 400 * era) == MarchDays(yoe) + era * DAYS_PER_ERA
  {
    var y := yoe + 400 * era;
    assert y / 4 == yoe / 4 + 100 * era;
    assert y / 100 == yoe / 100 + 4 * era;
    assert y / 400 == yoe / 400 + era;
  }

  /** The truncating `year / 400` with its bias is a floor. */
  lemma EraIsFloor(y: int)
    ensures var era := TruncDiv(if y >= 0 then y else y - 399, 400); 0 <= y - 400 * era < 400
  {
  }

  /** Hence the era form has no seam at year 0. */
  lemma ErasAreFloors(year: int, month: int, day: int)
    requires 1 <= month <= 12
    ensures DaysFromCivil(year, month, day) == ClosedForm(year, month, day)
  {
    var y := if month <= 2 then year - 1 else year;
    var era := TruncDiv(if y >= 0 then y else y - 399, 400);
    var shift := if month > 2 then month - 3 else month + 9;
    assert TruncDiv(153 * shift + 2, 5) == MonthStart(shift);
    hide MarchDays, TruncDiv, MonthStart, YearStart;
    EraIsFloor(y);
    ErasRepeat(y - 400 * era, era);
    EraYears(y - 400 * era);
  }

  lemma EraYears(yoe: int)
    requires 0 <= yoe < 400
    ensures MarchDays(yoe) == YearStart(yoe)
    ensures YearStart(yoe) == yoe * 365 + TruncDiv(yoe, 4) - TruncDiv(yoe, 100)
  {
  }

  /** Dates and day numbers step together. */
  lemma NextDayIsOneDayLater(d: Date)
    requires ValidDate(d)
    ensures ValidDate(NextDay(d))
    ensures var n := NextDay(d); DaysFromCivil(n.year, n.month, n.day) == DaysFromCivil(d.year, d.month, d.day) + 1
  {
    hide DaysFromCivil, MarchDays, IsLeap;
    var n := NextDay(d);
    ErasAreFloors(d.year, d.month, d.day);
    ErasAreFloors(n.year, n.month, n.day);
    LeapDays(d.year);
  }

  lemma FourthYears(y: int)
    ensures y / 4 - (y - 1) / 4 == if y % 4 == 0 then 1 else 0
  {
  }

  lemma Centuries(y: int)
    ensures y / 100 - (y - 1) / 100 == if y % 100 == 0 then 1 else 0
  {
  }

  lemma FourthCenturies(y: int)
    ensures y / 400 - (y - 1) / 400 == if y % 400 == 0 then 1 else 0
  {
  }

  lemma CenturiesAreFourthYears(y: int)
    ensures y % 100 == 0 ==> y % 4 == 0
    ensures y % 400 == 0 ==> y % 100 == 0
  {
    var q := y / 100;
    assert y % 100 == 0 ==> y == 4 * (25 * q);
    var c := y / 400;
    assert y % 400 == 0 ==> y == 100 * (4 * c);
  }

  /** A March-based year has a leap day exactly when it ends in a leap year. */
  lemma LeapDays(year: int)
    ensures MarchDays(year) - MarchDays(year - 1) == if IsLeap(year) then 366 else 365
  {
    FourthYears(year);
    Centuries(year);
    FourthCenturies(year);
    CenturiesAreFourthYears(year);
  }

  /** Within one month, day numbers differ as the days do. */
  lemma DaysOfOneMonth(year: int, month: int, day: int)
    requires 1 <= month <= 12
    ensures DaysFromCivil(year, month, day) == DaysFromCivil(year, month, 1) + day - 1
  {
    hide TruncDiv;
  }

  /** First day of the `k`-th month counted from January of year 0. */
  function MonthFirst(k: int): int {
    DaysFromCivil(k / 12, k % 12 + 1, 1)
  }

  function MonthLength(k: int): int {
    DaysInMonth(k / 12, k % 12 + 1)
  }

  lemma MonthsAbut(k: int)
    ensures MonthFirst(k) + MonthLength(k) == MonthFirst(k + 1) && MonthLength(k) > 0
  {
    hide DaysFromCivil, IsLeap;
    var year, month := k / 12, k % 12 + 1;
    var last := Date(year, month, DaysInMonth(year, month));
    NextDayIsOneDayLater(last);
    DaysOfOneMonth(year, month, last.day);
    assert NextDay(last) == Date((k + 1) / 12, (k + 1) % 12 + 1, 1);
  }

  lemma {:induction false} MonthsAscend(j: int, k: int)
    requires j < k
    ensures MonthFirst(j) + MonthLength(j) <= MonthFirst(k)
    decreases k - j
  {
    hide MonthFirst, MonthLength;
    MonthsAbut(j);
    if j + 1 < k {
      MonthsAscend(j + 1, k);
      MonthsAbut(j + 1);
    }
  }

  /** Day numbers order dates as the calendar does. */
  lemma DaysFromCivilIsMonotone(a: Date, b: Date)
    requires ValidDate(a) && ValidDate(b) && Before(a, b)
    ensures DaysFromCivil(a.year, a.month, a.day) < DaysFromCivil(b.year, b.month, b.day)
  {
    hide DaysFromCivil, IsLeap;
    var j, k := 12 * a.year + a.month - 1, 12 * b.year + b.month - 1;
    assert j / 12 == a.year && j % 12 + 1 == a.month;
    assert k / 12 == b.year && k % 12 + 1 == b.month;
    DaysOfOneMonth(a.year, a.month, a.day);
    DaysOfOneMonth(b.year, b.month, b.day);
    if j < k {
      MonthsAscend(j, k);
    }
  }

  lemma LeapYearsRepeat(year: int, era: int)
    ensures IsLeap(year + 400 * era) == IsLeap(year)
  {
    hide IsLeap, MarchDays;
    LeapDays(year);
    LeapDays(year + 400 * era);
    ErasRepeat(year, era);
    ErasRepeat(year - 1, era);
    assert year - 1 + 400 * era == year + 400 * era - 1;
  }

  /** Day 365 of a March-based year exists only when the year ends in a leap year. */
  lemma MarchYear(yoe: int, doy: int, era: int)
    requires 0 <= yoe <= 399 && 0 <= doy
    requires doy + YearStart(yoe) < (if yoe == 399 then DAYS_PER_ERA else YearStart(yoe + 1))
    ensures doy <= 365 && (doy == 365 ==> IsLeap(yoe + 400 * era + 1))
  {
    EraYears(yoe);
    if yoe < 399 {
      EraYears(yoe + 1);
    } else {
      assert MarchDays(400) == DAYS_PER_ERA;
    }
    LeapDays(yoe + 1);
    LeapYearsRepeat(yoe + 1, era);
    hide IsLeap, MarchDays, YearStart;
    assert yoe + 400 * era + 1 == yoe + 1 + 400 * era;
  }

  /** The date of day `doy` of the year that begins on 1 March of `year`. */
  function MarchDate(year: int, doy: int): Date {
    var mp := (5 * doy + 2) / 153;
    var m := if mp < 10 then mp + 3 else mp - 9;
    Date(if m <= 2 then year + 1 else year, m, doy - MonthStart(mp) + 1)
  }

  lemma MarchDateIsValid(year: int, doy: int)
    requires 0 <= doy <= 365 && (doy == 365 ==> IsLeap(year + 1))
    ensures ValidDate(MarchDate(year, doy))
  {
    hide IsLeap;
    var mp := (5 * doy + 2) / 153;
    assert 0 <= mp <= 11;
  }

  lemma MarchDateCounts(year: int, doy: int)
    requires 0 <= doy <= 365
    ensures var d := MarchDate(year, doy);
            1 <= d.month <= 12 && DaysFromCivil(d.year, d.month, d.day) == MarchDays(year) + doy - EPOCH_SHIFT
  {
    var d := MarchDate(year, doy);
    assert 0 <= (5 * doy + 2) / 153 <= 11;
    ErasAreFloors(d.year, d.month, d.day);
    hide MarchDays, DaysFromCivil, MonthStart;
  }

  /** `CivilFromDays` splits a day number into era, year of the era and day of that year. */
  lemma CivilInParts(days: int, era: int, doe: int, yoe: int)
    requires era == (days + EPOCH_SHIFT) / DAYS_PER_ERA && doe == (days + EPOCH_SHIFT) % DAYS_PER_ERA
    requires yoe == (doe - doe / 1460 + doe / 36_524 - doe / 146_096) / 365
    requires 0 <= yoe <= 399 && YearStart(yoe) <= doe
    ensures CivilFromDays(days) == MarchDate(yoe + 400 * era, doe - YearStart(yoe))
  {
    hide YearStart;
    EraYears(yoe);
    var doy := doe - YearStart(yoe);
    var mp := (5 * doy + 2) / 153;
    assert 0 <= mp;
    assert TruncDiv(doe - TruncDiv(doe, 1460) + TruncDiv(doe, 36_524) - TruncDiv(doe, 146_096), 365) == yoe by {
      assert 0 <= doe / 1460 <= doe;
    }
    assert TruncDiv(5 * doy + 2, 153) == mp && TruncDiv(153 * mp + 2, 5) == MonthStart(mp);
    hide TruncDiv;
  }

  /** Every day number is a valid date, and that date counts back to it. */
  lemma DaysRoundTrip(days: int)
    ensures ValidDate(CivilFromDays(days))
    ensures var d := CivilFromDays(days); DaysFromCivil(d.year, d.month, d.day) == days
  {
    hide IsLeap, DaysFromCivil, CivilFromDays, MarchDate, YearStart, MarchDays;
    var era, doe := (days + EPOCH_SHIFT) / DAYS_PER_ERA, (days + EPOCH_SHIFT) % DAYS_PER_ERA;
    YearOfEra(doe);
    var yoe := (doe - doe / 1460 + doe / 36_524 - doe / 146_096) / 365;
    var doy := doe - YearStart(yoe);
    MarchYear(yoe, doy, era);
    MarchDateIsValid(yoe + 400 * era, doy);
    MarchDateCounts(yoe + 400 * era, doy);
    ErasRepeat(yoe, era);
    EraYears(yoe);
    CivilInParts(days, era, doe, yoe);
  }

  /** Every valid date survives the trip through its day number. */
  lemma CivilRoundTrip(d: Date)
    requires ValidDate(d)
    ensures CivilFromDays(DaysFromCivil(d.year, d.month, d.day)) == d
  {
    hide CivilFromDays, DaysFromCivil;
    var n := DaysFromCivil(d.year, d.month, d.day);
    DaysRoundTrip(n);
    var e := CivilFromDays(n);
    if Before(d, e) {
      DaysFromCivilIsMonotone(d, e);
    } else if Before(e, d) {
      DaysFromCivilIsMonotone(e, d);
    }
  }

  /** The date of a Unix second is valid, and it is the date of the day the second falls in. */
  lemma UnixSecondsFallInTheirDay(seconds: int)
    ensures ValidDate(CivilFromUnix(seconds))
    ensures var d := CivilFromUnix(seconds);
            var n := DaysFromCivil(d.year, d.month, d.day);
            n * SECONDS_PER_DAY <= seconds < (n + 1) * SECONDS_PER_DAY
  {
    hide CivilFromDays, DaysFromCivil;
    DaysRoundTrip(seconds / SECONDS_PER_DAY);
  }

  /** The naive calendar: `n` single steps from the epoch date. */
  function DayByDay(n: nat): (d: Date)
    ensures ValidDate(d)
  {
    if n == 0 then Date(1970, 1, 1)
    else
      NextDayIsOneDayLater(DayByDay(n - 1));
      NextDay(DayByDay(n - 1))
  }

  /** Consecutive day numbers are consecutive calendar days, before and after the epoch. */
  lemma CivilFollowsTheCalendar(days: int)
    ensures ValidDate(CivilFromDays(days)) && CivilFromDays(days + 1) == NextDay(CivilFromDays(days))
  {
    hide CivilFromDays, DaysFromCivil;
    DaysRoundTrip(days);
    var d := CivilFromDays(days);
    NextDayIsOneDayLater(d);
    CivilRoundTrip(NextDay(d));
  }

  lemma CivilOfTheEpoch()
    ensures CivilFromDays(0) == Date(1970, 1, 1)
  {
    assert EPOCH_SHIFT / DAYS_PER_ERA == 4 && EPOCH_SHIFT % DAYS_PER_ERA == 135_080;
    assert TruncDiv(135_080, 1460) == 92 && TruncDiv(135_080, 36_524) == 3 && TruncDiv(135_080, 146_096) == 0;
    assert TruncDiv(134_991, 365) == 369 && TruncDiv(369, 4) == 92 && TruncDiv(369, 100) == 3;
    assert TruncDiv(1532, 153) == 10 && TruncDiv(1532, 5) == 306;
    hide TruncDiv;
  }

  /** Both conversions agree with counting days one by one. */
  lemma {:induction false} CivilCountsDays(n: nat)
    ensures CivilFromDays(n) == DayByDay(n)
    ensures var d := DayByDay(n); DaysFromCivil(d.year, d.month, d.day) == n
  {
    hide CivilFromDays, DaysFromCivil, NextDay;
    if n == 0 {
      CivilOfTheEpoch();
    } else {
      CivilCountsDays(n - 1);
      CivilFollowsTheCalendar(n - 1);
    }
    DaysRoundTrip(n);
  }

  /** Seconds of one day share its date, and a later day has a later date. */
  lemma CivilFromUnixIsMonotone(s: int, t: int)
    ensures s / SECONDS_PER_DAY == t / SECONDS_PER_DAY ==> CivilFromUnix(s) == CivilFromUnix(t)
    ensures s / SECONDS_PER_DAY < t / SECONDS_PER_DAY ==> Before(CivilFromUnix(s), CivilFromUnix(t))
  {
    hide CivilFromDays, DaysFromCivil;
    DaysRoundTrip(s / SECONDS_PER_DAY);
    DaysRoundTrip(t / SECONDS_PER_DAY);
    var d, e := CivilFromUnix(s), CivilFromUnix(t);
    if Before(e, d) {
      DaysFromCivilIsMonotone(e, d);
    }
  }
}
