/** RFC 3339 timestamps with milliseconds, as `crates/abora-log` prints them. */
module Timestamp {
  import opened Calendar
  import opened Products
  import opened Text

  /** Rust's `as i64` on an unsigned 64-bit number. */
  function AsI64(n: nat): int {
    var low := n % 0x1_0000_0000_0000_0000;
    if low <= I64_MAX then low else low - 0x1_0000_0000_0000_0000
  }

  /** Rust's `{:04}` on a signed number: the sign counts toward the width. */
  function PadSigned(n: int): string {
    if n >= 0 then PadZero(n, 4) else "-" + PadZero(-n, 3)
  }

  datatype Clock = Clock(days: int, hour: nat, minute: nat, second: nat, milli: nat)

  /** The fields printed for the instant `ms` milliseconds after the epoch. */
  function Reading(ms: nat): Clock {
    var secs := AsI64(ms / 1000);
    var daySecs := secs % 86400;
    Clock(secs / 86400, daySecs / 3600, daySecs % 3600 / 60, daySecs % 60, ms % 1000)
  }

  function PrintSeconds(t: Clock): string {
    PadZero(t.second, 2) + "." + (PadZero(t.milli, 3) + "Z")
  }

  function PrintTime(t: Clock): string {
    PadZero(t.hour, 2) + ":" + (PadZero(t.minute, 2) + ":" + PrintSeconds(t))
  }

  function PrintDateTime(date: Date, t: Clock): string
    requires date.month >= 0 && date.day >= 0
  {
    PadSigned(date.year) + "-" + (PadZero(date.month, 2) + "-" + (PadZero(date.day, 2) + "T" + PrintTime(t)))
  }

  /** `{year:04}-{month:02}-{day:02}T{h:02}:{mi:02}:{s:02}.{millis:03}Z` */
  function Rfc3339Millis(ms: nat): string {
    var t := Reading(ms);
    CivilStep(t.days);
    PrintDateTime(CivilFromDays(t.days), t)
  }

  /** First millisecond of year 10000. */
  const END_OF_9999: nat := 2932897 * 86_400_000

  // ----- Order -----

  /** A fixed-width number followed by one separator decides the order before what follows it. */
  lemma FieldOrder(n: nat, m: nat, width: nat, separator: string, rest: string, rest': string)
    requires width > 0 && n < Power10(width) && m < Power10(width) && |separator| == 1
    ensures |PadZero(n, width)| == width == |PadZero(m, width)|
    ensures LexLess(PadZero(n, width) + separator + rest, PadZero(m, width) + separator + rest') <==>
      n < m || (n == m && LexLess(rest, rest'))
  {
    PadIsFixed(n, width);
    PadIsFixed(m, width);
    FixedDigitsOrdered(n, m, width);
    var (x, y) := (FixedDigits(n, width), FixedDigits(m, width));
    LexConcat(x + separator, rest, y + separator, rest');
    LexConcat(x, separator, y, separator);
    LexIrreflexive(separator);
    if x + separator == y + separator {
      assert x == (x + separator)[..width] == (y + separator)[..width] == y;
    }
  }

  predicate InRange(t: Clock) {
    t.hour < 24 && t.minute < 60 && t.second < 60 && t.milli < 1000
  }

  predicate SecondsLess(t: Clock, u: Clock) {
    t.second < u.second || (t.second == u.second && t.milli < u.milli)
  }

  predicate TimeLess(t: Clock, u: Clock) {
    t.hour < u.hour || (t.hour == u.hour && (t.minute < u.minute || (t.minute == u.minute && SecondsLess(t, u))))
  }

  lemma Powers()
    ensures Power10(2) == 100 && Power10(3) == 1000 && Power10(4) == 10000
  {}

  lemma SecondsOrder(t: Clock, u: Clock)
    requires InRange(t) && InRange(u)
    ensures |PrintSeconds(t)| == 7
    ensures LexLess(PrintSeconds(t), PrintSeconds(u)) <==> SecondsLess(t, u)
  {
    Powers();
    FieldOrder(t.second, u.second, 2, ".", PadZero(t.milli, 3) + "Z", PadZero(u.milli, 3) + "Z");
    FieldOrder(t.milli, u.milli, 3, "Z", "", "");
    assert PadZero(t.milli, 3) + "Z" + "" == PadZero(t.milli, 3) + "Z";
    assert PadZero(u.milli, 3) + "Z" + "" == PadZero(u.milli, 3) + "Z";
  }

  lemma TimeOrder(t: Clock, u: Clock)
    requires InRange(t) && InRange(u)
    ensures |PrintTime(t)| == 13
    ensures LexLess(PrintTime(t), PrintTime(u)) <==> TimeLess(t, u)
  {
    Powers();
    SecondsOrder(t, u);
    FieldOrder(t.minute, u.minute, 2, ":", PrintSeconds(t), PrintSeconds(u));
    FieldOrder(t.hour, u.hour, 2, ":", PadZero(t.minute, 2) + ":" + PrintSeconds(t),
               PadZero(u.minute, 2) + ":" + PrintSeconds(u));
  }

  lemma DateTimeOrder(d: Date, t: Clock, e: Date, u: Clock)
    requires ValidDate(d) && ValidDate(e) && 0 <= d.year <= 9999 && 0 <= e.year <= 9999
    requires InRange(t) && InRange(u)
    ensures |PrintDateTime(d, t)| == 24
    ensures LexLess(PrintDateTime(d, t), PrintDateTime(e, u)) <==> Earlier(d, e) || (d == e && TimeLess(t, u))
  {
    Powers();
    TimeOrder(t, u);
    var (dayD, dayE) := (PadZero(d.day, 2) + "T" + PrintTime(t), PadZero(e.day, 2) + "T" + PrintTime(u));
    FieldOrder(d.day, e.day, 2, "T", PrintTime(t), PrintTime(u));
    FieldOrder(d.month, e.month, 2, "-", dayD, dayE);
    FieldOrder(d.year, e.year, 4, "-", PadZero(d.month, 2) + "-" + dayD, PadZero(e.month, 2) + "-" + dayE);
  }

  lemma ReadingInRange(ms: nat)
    requires ms / 1000 <= I64_MAX
    ensures var t := Reading(ms);
      && 0 <= t.days && InRange(t)
      && ms == (((t.days * 24 + t.hour) * 60 + t.minute) * 60 + t.second) * 1000 + t.milli
    ensures Reading(ms).days < 2932897 <==> ms < END_OF_9999
  {
    assert AsI64(ms / 1000) == ms / 1000;
  }

  lemma ReferenceYearInRange(days: int)
    requires 0 <= days
    ensures 1970 <= DateAfter(days).year
    ensures DateAfter(days).year <= 9999 <==> days < 2932897
  {
    DateAfterCompares(days, Date(1970, 1, 1));
    DateAfterCompares(days, Date(10000, 1, 1));
  }

  lemma DateOf(ms: nat) returns (t: Clock, date: Date)
    requires ms / 1000 <= I64_MAX
    ensures t == Reading(ms) && date == DateAfter(t.days) && Rfc3339Millis(ms) == PrintDateTime(date, t)
    ensures 1970 <= date.year && (date.year <= 9999 <==> ms < END_OF_9999)
  {
    t := Reading(ms);
    date := DateAfter(t.days);
    ReadingInRange(ms);
    ReferenceYearInRange(t.days);
    CivilIsReferenceCalendar(t.days);
  }

  function FieldText(date: Date, hour: nat, minute: nat, second: nat, milli: nat): string
    requires ValidDate(date) && date.year >= 0
  {
    FixedDigits(date.year, 4) + "-" + (FixedDigits(date.month, 2) + "-" + (FixedDigits(date.day, 2) + "T"
    + (FixedDigits(hour, 2) + ":" + (FixedDigits(minute, 2) + ":" + (FixedDigits(second, 2) + "."
    + (FixedDigits(milli, 3) + "Z"))))))
  }

  /** The date-time of section 5.6 of RFC 3339: the date is that of the instant's day, and hour, minute, second and
      millisecond are those of the instant, each in its place with leading zeros. */
  lemma TimestampFields(ms: nat)
    requires ms < END_OF_9999
    ensures var date := DateAfter(ms / 86_400_000);
      && 1970 <= date.year <= 9999
      && Rfc3339Millis(ms) ==
        FieldText(date, ms / 3_600_000 % 24, ms / 60_000 % 60, ms / 1000 % 60, ms % 1000)
  {
    var t, date := DateOf(ms);
    ReadingInRange(ms);
    ClockFields(ms, t);
    Powers();
    PadIsFixed(date.year, 4);
    PadIsFixed(date.month, 2);
    PadIsFixed(date.day, 2);
    PadIsFixed(t.hour, 2);
    PadIsFixed(t.minute, 2);
    PadIsFixed(t.second, 2);
    PadIsFixed(t.milli, 3);
  }

  lemma ClockFields(ms: nat, t: Clock)
    requires t.days >= 0 && InRange(t)
    requires ms == (((t.days * 24 + t.hour) * 60 + t.minute) * 60 + t.second) * 1000 + t.milli
    ensures t.days == ms / 86_400_000 && t.hour == ms / 3_600_000 % 24 && t.minute == ms / 60_000 % 60
    ensures t.second == ms / 1000 % 60 && t.milli == ms % 1000
  {
    var hours := t.days * 24 + t.hour;
    var minutes := hours * 60 + t.minute;
    var seconds := minutes * 60 + t.second;
    QuotientUnique(ms, 1000, seconds, t.milli);
    QuotientUnique(seconds, 60, minutes, t.second);
    QuotientUnique(ms, 60_000, minutes, t.second * 1000 + t.milli);
    QuotientUnique(minutes, 60, hours, t.minute);
    QuotientUnique(ms, 3_600_000, hours, (t.minute * 60 + t.second) * 1000 + t.milli);
    QuotientUnique(hours, 24, t.days, t.hour);
    QuotientUnique(ms, 86_400_000, t.days, ((t.hour * 60 + t.minute) * 60 + t.second) * 1000 + t.milli);
  }

  /** Each field denotes its number. */
  lemma FieldsDenote(year: nat, two: nat, three: nat)
    requires year < 10000 && two < 100 && three < 1000
    ensures DecimalValue(FixedDigits(year, 4)) == year && DecimalValue(FixedDigits(two, 2)) == two
    ensures DecimalValue(FixedDigits(three, 3)) == three
  {
    Powers();
    FixedDigitsDenote(year, 4);
    FixedDigitsDenote(two, 2);
    FixedDigitsDenote(three, 3);
  }

  /** From the epoch to the end of year 9999, timestamps sort as strings exactly as the instants do, so
      two different milliseconds never print alike. */
  lemma TimestampsSortAsInstants(a: nat, b: nat)
    requires a < END_OF_9999 && b < END_OF_9999
    ensures a < b <==> LexLess(Rfc3339Millis(a), Rfc3339Millis(b))
    ensures a != b ==> Rfc3339Millis(a) != Rfc3339Millis(b)
  {
    TimestampsSort(a, b);
    if a != b {
      TimestampsSort(b, a);
      LexIrreflexive(Rfc3339Millis(a));
    }
  }

  lemma TimestampsSort(a: nat, b: nat)
    requires a < END_OF_9999 && b < END_OF_9999
    ensures a < b <==> LexLess(Rfc3339Millis(a), Rfc3339Millis(b))
  {
    var t, d := DateOf(a);
    var u, e := DateOf(b);
    ReadingInRange(a);
    ReadingInRange(b);
    DateTimeOrder(d, t, e, u);
    DateAfterIsMonotone(t.days, u.days);
    DateAfterIsMonotone(u.days, t.days);
    InstantOrder(a, t, b, u);
  }

  lemma InstantOrder(a: nat, t: Clock, b: nat, u: Clock)
    requires InRange(t) && InRange(u)
    requires a == (((t.days * 24 + t.hour) * 60 + t.minute) * 60 + t.second) * 1000 + t.milli
    requires b == (((u.days * 24 + u.hour) * 60 + u.minute) * 60 + u.second) * 1000 + u.milli
    ensures a < b <==> t.days < u.days || (t.days == u.days && TimeLess(t, u))
  {}

  lemma DateTimeLength(d: Date, t: Clock)
    requires ValidDate(d) && InRange(t)
    ensures |PrintDateTime(d, t)| == |PadSigned(d.year)| + 20
  {
    Powers();
    TimeOrder(t, t);
    PadIsFixed(d.day, 2);
    PadIsFixed(d.month, 2);
  }

  lemma YearLengthIsFour(year: int)
    ensures |PadSigned(year)| == 4 <==> -999 <= year <= 9999
  {
    Powers();
    if year >= 0 {
      DecimalLength(year, 4);
    } else {
      DecimalLength(-year, 3);
    }
  }

  lemma YearBounds(days: int)
    ensures DateAfter(days).year >= -999 <==> days >= DayNumber(Date(-999, 1, 1))
    ensures DateAfter(days).year <= 9999 <==> days < 2932897
  {
    DateAfterCompares(days, Date(-999, 1, 1));
    DateAfterCompares(days, Date(10000, 1, 1));
  }

  lemma ReadingFields(ms: nat)
    ensures InRange(Reading(ms))
  {}

  /** A timestamp is 24 characters long exactly when its day lies in the years -999 to 9999. While the seconds fit in 63
      bits, so that the cast to `i64` keeps them, that means until the end of year 9999. */
  lemma TimestampLength(ms: nat)
    ensures |Rfc3339Millis(ms)| == 24 <==> DayNumber(Date(-999, 1, 1)) <= Reading(ms).days < 2932897
    ensures ms / 1000 <= I64_MAX ==> (|Rfc3339Millis(ms)| == 24 <==> ms < END_OF_9999)
  {
    var t := Reading(ms);
    ReadingFields(ms);
    CivilIsReferenceCalendar(t.days);
    DateTimeLength(DateAfter(t.days), t);
    YearLengthIsFour(DateAfter(t.days).year);
    YearBounds(t.days);
    if ms / 1000 <= I64_MAX {
      ReadingInRange(ms);
      FirstDayIsLate();
    }
  }

  lemma FirstDayIsLate()
    ensures DayNumber(Date(-999, 1, 1)) < 0
  {}

  /** The order is lost at year 10000: its first instant sorts before the last one of 9999. */
  lemma OrderEndsWithYear9999(last: nat, next: nat)
    requires last == END_OF_9999 - 1 && next == END_OF_9999
    ensures LexLess(Rfc3339Millis(next), Rfc3339Millis(last))
  {
    ReadingInRange(last);
    ReadingInRange(next);
    FirstDigit(last, 9999);
    FirstDigit(next, 10000);
    FirstDigits();
  }

  lemma FirstDigits()
    ensures Decimal(9999)[0] == '9' && Decimal(10000)[0] == '1'
  {
    assert Decimal(9999) == Decimal(999) + ['9'] && Decimal(999) == Decimal(99) + ['9'];
    assert Decimal(10000) == Decimal(1000) + ['0'] && Decimal(1000) == Decimal(100) + ['0'];
  }

  lemma FirstDigit(ms: nat, year: nat)
    requires year >= 1000 && ms / 1000 <= I64_MAX
    requires DayNumber(Date(year, 1, 1)) <= Reading(ms).days < DayNumber(Date(year + 1, 1, 1))
    ensures Rfc3339Millis(ms) != "" && Rfc3339Millis(ms)[0] == Decimal(year)[0]
  {
    var t, date := DateOf(ms);
    DateAfterCompares(t.days, Date(year, 1, 1));
    DateAfterCompares(t.days, Date(year + 1, 1, 1));
    Powers();
    DecimalLength(year, 3);
    assert PadSigned(date.year) == Decimal(year);
  }
}
