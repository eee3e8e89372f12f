/** The proleptic Gregorian calendar of `crates/abora-log`: a day-by-day reference calendar and the
    era / day-of-era algorithm that computes the same dates without stepping. */
module Calendar {
  import opened Products

  datatype Date = Date(year: int, month: int, day: int)

  // ----- The reference calendar: step one day at a time from 1970-01-01 -----

  predicate Leap(year: int) {
    year % 4 == 0 && (year % 100 != 0 || year % 400 == 0)
  }

  function DaysInMonth(year: int, month: int): (n: int)
    requires 1 <= month <= 12
    ensures 28 <= n <= 31
  {
    if month == 2 then (if Leap(year) then 29 else 28)
    else if month == 4 || month == 6 || month == 9 || month == 11 then 30
    else 31
  }

  predicate ValidDate(date: Date) {
    1 <= date.month <= 12 && 1 <= date.day <= DaysInMonth(date.year, date.month)
  }

  function NextDay(date: Date): (next: Date)
    requires ValidDate(date)
    ensures ValidDate(next)
  {
    if date.day < DaysInMonth(date.year, date.month) then date.(day := date.day + 1)
    else if date.month < 12 then Date(date.year, date.month + 1, 1)
    else Date(date.year + 1, 1, 1)
  }

  function PreviousDay(date: Date): (previous: Date)
    requires ValidDate(date)
    ensures ValidDate(previous) && NextDay(previous) == date
  {
    if date.day > 1 then date.(day := date.day - 1)
    else if date.month > 1 then Date(date.year, date.month - 1, DaysInMonth(date.year, date.month - 1))
    else Date(date.year - 1, 12, 31)
  }

  const EPOCH := Date(1970, 1, 1)

  /** The date reached by stepping `days` days from 1970-01-01 (backwards when negative). */
  function DateAfter(days: int): (date: Date)
    ensures ValidDate(date)
    decreases if days < 0 then -days else days
  {
    if days == 0 then EPOCH
    else if days > 0 then NextDay(DateAfter(days - 1))
    else PreviousDay(DateAfter(days + 1))
  }

  // ----- The algorithm: nested divisions, no stepping -----

  /** Rust's `/` on signed integers with a positive divisor: rounds toward zero. */
  function TruncatingDivide(a: int, b: int): int
    requires b > 0
  {
    if a >= 0 then a / b else -((-a) / b)
  }

  function Era(days: int): int {
    var z := days + 719468;
    TruncatingDivide(if z >= 0 then z else z - 146096, 146097)
  }

  function DayOfEra(days: int): int {
    days + 719468 - Era(days) * 146097
  }

  function YearOfEra(doe: int): int {
    (doe - doe / 1460 + doe / 36524 - doe / 146096) / 365
  }

  function DayOfYear(doe: int): int {
    var yoe := YearOfEra(doe);
    doe - (365 * yoe + yoe / 4 - yoe / 100)
  }

  function MonthIndex(doy: int): int {
    (5 * doy + 2) / 153
  }

  function CivilFromDays(days: int): Date {
    var doe := DayOfEra(days);
    var doy := DayOfYear(doe);
    var mp := MonthIndex(doy);
    var day := doy - (153 * mp + 2) / 5 + 1;
    var month := if mp < 10 then mp + 3 else mp - 9;
    var year := YearOfEra(doe) + Era(days) * 400;
    Date(if month <= 2 then year + 1 else year, month, day)
  }

  // ----- Proof that the two agree -----

  /** Day of era on which year `yoe` (counted from 1 March) begins. */
  function YearStart(yoe: int): int {
    365 * yoe + yoe / 4 - yoe / 100
  }

  lemma EraSplits(days: int)
    ensures 0 <= DayOfEra(days) < 146097
    ensures days + 719468 == Era(days) * 146097 + DayOfEra(days)
  {}

  /** A day of era is `century` centuries, `quad` leap cycles and `rest` days; the last day of an era
      belongs to its 400th year. */
  lemma YearOfEraSplits(century: int, quad: int, rest: int)
    requires 0 <= century < 4 && 0 <= quad < 25 && 0 <= rest <= 1460
    requires rest == 1460 && quad == 24 ==> century == 3
    ensures var doe := 36524 * century + 1461 * quad + rest;
      YearOfEra(doe) == 100 * century + 4 * quad + (if rest < 1460 then rest / 365 else 3)
  {
    var doe := 36524 * century + 1461 * quad + rest;
    var k := if 24 * century + quad + rest >= 1460 then 1 else 0;
    assert doe / 1460 == 25 * century + quad + k;
    assert doe / 36524 - doe / 146096 == century;
    var year := if rest < 1460 then rest / 365 else 3;
    assert 365 * year <= rest - k < 365 * (year + 1);
  }

  lemma YearStartSplits(century: int, quad: int, year: int)
    requires 0 <= century < 4 && 0 <= quad < 25 && 0 <= year < 4
    ensures YearStart(100 * century + 4 * quad + year) == 36524 * century + 1461 * quad + 365 * year
  {
    assert (100 * century + 4 * quad + year) / 4 == 25 * century + quad;
    assert (100 * century + 4 * quad + year) / 100 == century;
  }

  lemma YearOfEraBrackets(doe: int)
    requires 0 <= doe < 146097
    ensures var yoe := YearOfEra(doe);
      0 <= yoe < 400 && YearStart(yoe) <= doe && (yoe < 399 ==> doe < YearStart(yoe + 1))
  {
    var century := if doe == 146096 then 3 else doe / 36524;
    var inCentury := doe - 36524 * century;
    var quad := if inCentury == 36524 then 24 else inCentury / 1461;
    var rest := inCentury - 1461 * quad;
    var year := if rest < 1460 then rest / 365 else 3;
    YearOfEraSplits(century, quad, rest);
    YearStartSplits(century, quad, year);
    if year < 3 {
      YearStartSplits(century, quad, year + 1);
    } else if quad < 24 {
      YearStartSplits(century, quad + 1, 0);
    } else if century < 3 {
      YearStartSplits(century + 1, 0, 0);
    }
  }

  lemma YearStartMonotone(a: int, b: int)
    requires 0 <= a <= b
    ensures YearStart(a) <= YearStart(b)
  {}

  lemma YearOfEraUnique(doe: int, yoe: int)
    requires 0 <= doe < 146097 && 0 <= yoe < 400
    requires YearStart(yoe) <= doe && (yoe < 399 ==> doe < YearStart(yoe + 1))
    ensures YearOfEra(doe) == yoe
  {
    YearOfEraBrackets(doe);
    if YearOfEra(doe) < yoe {
      YearStartMonotone(YearOfEra(doe) + 1, yoe);
    } else if yoe < YearOfEra(doe) {
      YearStartMonotone(yoe + 1, YearOfEra(doe));
    }
  }

  lemma LeapIsPeriodic(era: int, year: int)
    ensures Leap(era * 400 + year) == Leap(year)
  {
    Recompose(year, 4);
    QuotientUnique(era * 400 + year, 4, 100 * era + year / 4, year % 4);
    Recompose(year, 100);
    QuotientUnique(era * 400 + year, 100, 4 * era + year / 100, year % 100);
    Recompose(year, 400);
    QuotientUnique(era * 400 + year, 400, era + year / 400, year % 400);
  }

  /** Length of the year that starts on 1 March of `yoe`: it contains the February of `yoe + 1`. */
  function YearLength(yoe: int): int {
    if Leap(yoe + 1) then 366 else 365
  }

  lemma YearStartStep(yoe: int)
    requires 0 <= yoe < 400
    ensures YearLength(yoe) == (if yoe < 399 then YearStart(yoe + 1) else 146097) - YearStart(yoe)
  {
    assert (yoe + 1) / 4 - yoe / 4 == if (yoe + 1) % 4 == 0 then 1 else 0;
    assert (yoe + 1) / 100 - yoe / 100 == if (yoe + 1) % 100 == 0 then 1 else 0;
  }

  /** The `doy`-th day of the year that starts on 1 March of `marchYear`. */
  function MarchDate(marchYear: int, doy: int): Date {
    var mp := MonthIndex(doy);
    var month := if mp < 10 then mp + 3 else mp - 9;
    Date(if month <= 2 then marchYear + 1 else marchYear, month, doy - (153 * mp + 2) / 5 + 1)
  }

  lemma MarchDateStep(marchYear: int, doy: int)
    requires 0 <= doy < YearLength(marchYear)
    ensures ValidDate(MarchDate(marchYear, doy))
    ensures NextDay(MarchDate(marchYear, doy)) ==
      if doy + 1 < YearLength(marchYear) then MarchDate(marchYear, doy + 1) else MarchDate(marchYear + 1, 0)
  {
    var mp, mp' := MonthIndex(doy), MonthIndex(doy + 1);
    assert 0 <= mp <= 11 && (mp' == mp || mp' == mp + 1);
    assert 153 * mp <= 5 * doy + 2 < 153 * (mp + 1);
  }

  /** The year, counted from 1 March, of a day. */
  function MarchYear(days: int): int {
    YearOfEra(DayOfEra(days)) + Era(days) * 400
  }

  lemma CivilIsMarchDate(days: int)
    ensures CivilFromDays(days) == MarchDate(MarchYear(days), DayOfYear(DayOfEra(days)))
    ensures 0 <= DayOfYear(DayOfEra(days)) < YearLength(YearOfEra(DayOfEra(days)))
    ensures YearLength(MarchYear(days)) == YearLength(YearOfEra(DayOfEra(days)))
  {
    EraSplits(days);
    YearOfEraBrackets(DayOfEra(days));
    YearStartStep(YearOfEra(DayOfEra(days)));
    LeapIsPeriodic(Era(days), YearOfEra(DayOfEra(days)) + 1);
  }

  /** Each day's date is valid and the next day's date is the next day of the reference calendar. */
  lemma CivilStep(days: int)
    ensures ValidDate(CivilFromDays(days))
    ensures CivilFromDays(days + 1) == NextDay(CivilFromDays(days))
  {
    CivilIsMarchDate(days);
    CivilIsMarchDate(days + 1);
    NextMarchDay(days);
    MarchDatesStep(CivilFromDays(days), MarchYear(days), DayOfYear(DayOfEra(days)),
                   CivilFromDays(days + 1), MarchYear(days + 1), DayOfYear(DayOfEra(days + 1)));
  }

  lemma MarchDatesStep(a: Date, marchYear: int, doy: int, b: Date, marchYear': int, doy': int)
    requires a == MarchDate(marchYear, doy) && b == MarchDate(marchYear', doy') && 0 <= doy < YearLength(marchYear)
    requires if doy + 1 < YearLength(marchYear) then marchYear' == marchYear && doy' == doy + 1
             else marchYear' == marchYear + 1 && doy' == 0
    ensures ValidDate(a) && b == NextDay(a)
  {
    MarchDateStep(marchYear, doy);
  }

  lemma NextMarchDay(days: int)
    ensures var (doy, doy') := (DayOfYear(DayOfEra(days)), DayOfYear(DayOfEra(days + 1)));
      if doy + 1 < YearLength(YearOfEra(DayOfEra(days))) then MarchYear(days + 1) == MarchYear(days) && doy' == doy + 1
      else MarchYear(days + 1) == MarchYear(days) + 1 && doy' == 0
  {
    NextYearOfEra(days);
  }

  lemma NextYearOfEra(days: int)
    ensures var doe, doe' := DayOfEra(days), DayOfEra(days + 1);
      var yoe, yoe' := YearOfEra(doe), YearOfEra(doe');
      if DayOfYear(doe) + 1 < YearLength(yoe)
      then Era(days + 1) == Era(days) && yoe' == yoe && DayOfYear(doe') == DayOfYear(doe) + 1
      else yoe' + Era(days + 1) * 400 == yoe + Era(days) * 400 + 1 && DayOfYear(doe') == 0
  {
    EraSplits(days);
    EraSplits(days + 1);
    var doe, doe' := DayOfEra(days), DayOfEra(days + 1);
    YearOfEraBrackets(doe);
    var yoe := YearOfEra(doe);
    YearStartStep(yoe);
    if doe == 146096 {
      assert Era(days + 1) == Era(days) + 1 && doe' == 0;
      YearOfEraUnique(doe, 399);
    } else {
      assert Era(days + 1) == Era(days) && doe' == doe + 1;
      if DayOfYear(doe) + 1 < YearLength(yoe) {
        YearOfEraUnique(doe', yoe);
      } else {
        YearStartMonotone(yoe + 1, yoe + 2);
        YearStartStep(yoe + 1);
        YearOfEraUnique(doe', yoe + 1);
      }
    }
  }

  lemma PreviousUndoesNext(date: Date)
    requires ValidDate(date)
    ensures PreviousDay(NextDay(date)) == date
  {}

  /** Only one calendar starts at the epoch and advances one day at a time. */
  lemma {:induction false} CalendarIsUnique(calendar: int -> Date, days: int)
    requires calendar(0) == EPOCH
    requires forall n :: ValidDate(calendar(n)) && calendar(n + 1) == NextDay(calendar(n))
    ensures calendar(days) == DateAfter(days)
    decreases if days < 0 then -days else days
  {
    if days > 0 {
      CalendarIsUnique(calendar, days - 1);
      assert calendar(days - 1 + 1) == NextDay(calendar(days - 1));
    } else if days < 0 {
      CalendarIsUnique(calendar, days + 1);
      assert calendar(days + 1) == NextDay(calendar(days));
      PreviousUndoesNext(calendar(days));
    }
  }

  lemma CivilAtEpoch()
    ensures CivilFromDays(0) == EPOCH
  {
    assert Era(0) == 4 && DayOfEra(0) == 135080 && YearOfEra(135080) == 369 && DayOfYear(135080) == 306;
  }

  lemma CivilStepsEverywhere()
    ensures forall n :: ValidDate(CivilFromDays(n)) && CivilFromDays(n + 1) == NextDay(CivilFromDays(n))
  {
    forall n ensures ValidDate(CivilFromDays(n)) && CivilFromDays(n + 1) == NextDay(CivilFromDays(n)) {
      CivilStep(n);
    }
  }

  /** The algorithm computes the reference calendar, for every day before and after the epoch. */
  lemma CivilIsReferenceCalendar(days: int)
    ensures CivilFromDays(days) == DateAfter(days)
  {
    CivilAtEpoch();
    CivilStepsEverywhere();
    CalendarIsUnique(CivilFromDays, days);
  }

  // ----- The algorithm is a bijection between day numbers and valid dates -----

  function DaysBeforeYear(year: int): int {
    365 * (year - 1) + (year - 1) / 4 - (year - 1) / 100 + (year - 1) / 400
  }

  function DaysBeforeMonth(year: int, month: int): (n: int)
    requires 1 <= month <= 12
    ensures 28 * (month - 1) <= n <= 31 * (month - 1)
  {
    if month == 1 then 0 else DaysBeforeMonth(year, month - 1) + DaysInMonth(year, month - 1)
  }

  /** Days from 1970-01-01 to `date`, counted by whole years and whole months. */
  function DayNumber(date: Date): int
    requires ValidDate(date)
  {
    DaysBeforeYear(date.year) + DaysBeforeMonth(date.year, date.month) + date.day - 1 - 719162
  }

  lemma QuotientStep(year: int, d: nat)
    requires d > 0
    ensures year / d - (year - 1) / d == if year % d == 0 then 1 else 0
  {
    Recompose(year, d);
    if year % d == 0 {
      OneLess(year / d, d);
      QuotientUnique(year - 1, d, year / d - 1, d - 1);
    } else {
      QuotientUnique(year - 1, d, year / d, year % d - 1);
    }
  }

  lemma MonthsOfYear(year: int)
    ensures DaysBeforeMonth(year, 12) + 31 == if Leap(year) then 366 else 365
  {
    assert DaysBeforeMonth(year, 3) == 31 + DaysInMonth(year, 2);
    assert DaysBeforeMonth(year, 5) == DaysBeforeMonth(year, 3) + 61;
    assert DaysBeforeMonth(year, 7) == DaysBeforeMonth(year, 5) + 61;
    assert DaysBeforeMonth(year, 9) == DaysBeforeMonth(year, 7) + 62;
    assert DaysBeforeMonth(year, 11) == DaysBeforeMonth(year, 9) + 61;
  }

  lemma LeapMeans(year: int)
    ensures year % 400 == 0 ==> year % 100 == 0
    ensures year % 100 == 0 ==> year % 4 == 0
  {
    Recompose(year, 400);
    Recompose(year, 100);
    if year % 400 == 0 {
      QuotientUnique(year, 100, 4 * (year / 400), 0);
    }
    if year % 100 == 0 {
      QuotientUnique(year, 4, 25 * (year / 100), 0);
    }
  }

  lemma WholeYear(year: int)
    ensures DaysBeforeMonth(year, 12) + 31 == if Leap(year) then 366 else 365
    ensures DaysBeforeYear(year + 1) - DaysBeforeYear(year) == if Leap(year) then 366 else 365
  {
    MonthsOfYear(year);
    QuotientStep(year, 4);
    QuotientStep(year, 100);
    QuotientStep(year, 400);
    LeapMeans(year);
  }

  lemma DayNumberStep(date: Date)
    requires ValidDate(date)
    ensures DayNumber(NextDay(date)) == DayNumber(date) + 1
  {
    WholeYear(date.year);
  }

  lemma {:induction false} DayNumberCounts(days: int)
    ensures DayNumber(DateAfter(days)) == days
    decreases if days < 0 then -days else days
  {
    if days == 0 {
      EpochNumber(days);
    } else if days > 0 {
      DayNumberCounts(days - 1);
      CountsNext(days - 1);
    } else {
      DayNumberCounts(days + 1);
      CountsNext(days);
    }
  }

  lemma EpochNumber(days: int)
    requires days == 0
    ensures DayNumber(DateAfter(days)) == days
  {
    assert DateAfter(days) == EPOCH;
  }

  lemma CountsNext(days: int)
    ensures DayNumber(DateAfter(days + 1)) == DayNumber(DateAfter(days)) + 1
  {
    DateAfterStep(days);
    DayNumberStep(DateAfter(days));
  }

  lemma DateAfterStep(days: int)
    ensures DateAfter(days + 1) == NextDay(DateAfter(days))
  {}

  lemma MonthsAreOrdered(year: int, a: int, b: int)
    requires 1 <= a < b <= 12
    ensures DaysBeforeMonth(year, a) + DaysInMonth(year, a) <= DaysBeforeMonth(year, b)
  {}

  lemma YearsAreOrdered(a: int, b: int)
    requires a <= b
    ensures DaysBeforeYear(a) <= DaysBeforeYear(b)
    decreases b - a
  {
    if a < b {
      WholeYear(b - 1);
      YearsAreOrdered(a, b - 1);
    }
  }

  predicate Earlier(a: Date, b: Date) {
    a.year < b.year || (a.year == b.year && (a.month < b.month || (a.month == b.month && a.day < b.day)))
  }

  lemma DaysWithinYear(date: Date)
    requires ValidDate(date)
    ensures DaysBeforeYear(date.year) <= DayNumber(date) + 719162 < DaysBeforeYear(date.year + 1)
  {
    WholeYear(date.year);
    if date.month < 12 {
      MonthsAreOrdered(date.year, date.month, 12);
    }
  }

  lemma DayNumberOrders(a: Date, b: Date)
    requires ValidDate(a) && ValidDate(b) && Earlier(a, b)
    ensures DayNumber(a) < DayNumber(b)
  {
    if a.year < b.year {
      DaysWithinYear(a);
      DaysWithinYear(b);
      YearsAreOrdered(a.year + 1, b.year);
    } else if a.month < b.month {
      MonthsAreOrdered(a.year, a.month, b.month);
    }
  }

  lemma DateAfterReaches(date: Date)
    requires ValidDate(date)
    ensures DateAfter(DayNumber(date)) == date
  {
    DayNumberCounts(DayNumber(date));
    var other := DateAfter(DayNumber(date));
    if Earlier(other, date) {
      DayNumberOrders(other, date);
    } else if Earlier(date, other) {
      DayNumberOrders(date, other);
    }
  }

  /** Dates and day numbers correspond one to one, so no date is skipped and none occurs twice. */
  lemma CivilIsBijection(days: int, date: Date)
    requires ValidDate(date)
    ensures ValidDate(CivilFromDays(days)) && DayNumber(CivilFromDays(days)) == days
    ensures CivilFromDays(DayNumber(date)) == date
  {
    CivilIsReferenceCalendar(days);
    DayNumberCounts(days);
    CivilIsReferenceCalendar(DayNumber(date));
    DateAfterReaches(date);
  }

  lemma DateAfterIsMonotone(a: int, b: int)
    ensures a < b <==> Earlier(DateAfter(a), DateAfter(b))
  {
    DayNumberCounts(a);
    DayNumberCounts(b);
    if Earlier(DateAfter(a), DateAfter(b)) {
      DayNumberOrders(DateAfter(a), DateAfter(b));
    } else if Earlier(DateAfter(b), DateAfter(a)) {
      DayNumberOrders(DateAfter(b), DateAfter(a));
    }
  }

  lemma DateAfterCompares(days: int, date: Date)
    requires ValidDate(date)
    ensures Earlier(DateAfter(days), date) <==> days < DayNumber(date)
  {
    DateAfterReaches(date);
    DateAfterIsMonotone(days, DayNumber(date));
  }

  /** Later days have later dates. */
  lemma CivilIsMonotone(a: int, b: int)
    ensures a < b <==> Earlier(CivilFromDays(a), CivilFromDays(b))
  {
    CivilIsReferenceCalendar(a);
    CivilIsReferenceCalendar(b);
    DateAfterIsMonotone(a, b);
  }

  // ----- Machine integers -----

  const I64_MIN := -0x8000_0000_0000_0000
  const I64_MAX := 0x7FFF_FFFF_FFFF_FFFF

  predicate FitsI64(n: int) { I64_MIN <= n <= I64_MAX }

  /** On every day number whose shift by 719468 fits in an `i64`, no signed step overflows, no unsigned
      subtraction goes below zero, and the month and day that are cast to `u32` are small. */
  lemma IntermediatesStayInRange(days: int)
    requires FitsI64(days) && FitsI64(days + 719468)
    ensures var z := days + 719468;
      && (z < 0 ==> FitsI64(z - 146096)) && FitsI64(Era(days) * 146097) && FitsI64(Era(days) * 400 + 400)
    ensures var doe := DayOfEra(days);
      var yoe, doy := YearOfEra(doe), DayOfYear(doe);
      var mp := MonthIndex(doy);
      && 0 <= doe < 146097 && doe / 1460 <= doe
      && doe / 146096 <= doe - doe / 1460 + doe / 36524
      && 0 <= yoe < 400 && yoe / 100 <= 365 * yoe + yoe / 4 <= doe + yoe / 100
      && 0 <= doy <= 365 && 0 <= mp <= 11 && (153 * mp + 2) / 5 <= doy
    ensures var date := CivilFromDays(days); 1 <= date.month <= 12 && 1 <= date.day <= 31
  {
    EraSplits(days);
    YearOfEraBrackets(DayOfEra(days));
    YearStartStep(YearOfEra(DayOfEra(days)));
    CivilStep(days);
  }
}
