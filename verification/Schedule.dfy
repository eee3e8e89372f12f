/** Update policy (`crates/abora-config`): clock times, durations, maintenance windows, and what is permitted
    at one moment. */
module Schedule {
  import opened Prelude
  import opened Text
  import opened UpdateTypes

  // ----- Clock times -----

  /** `HH:MM` as minutes since midnight. */
  function ParseClock(value: string): (r: Option<nat>)
    ensures r.Some? ==> r.value < 1440
  {
    match SplitOnce(value, ':')
    case None => None
    case Some((hour, minute)) =>
      if |hour| != 2 || |minute| != 2 || !AllDigits(hour) || !AllDigits(minute) then None
      else
        var (h, m) := (DecimalValue(hour), DecimalValue(minute));
        if h > 23 || m > 59 then None else Some(h * 60 + m)
  }

  function FormatClock(minutes: nat): string {
    FixedDigits(minutes / 60, 2) + ":" + FixedDigits(minutes % 60, 2)
  }

  lemma OneDigitText(c: char)
    requires IsDigit(c)
    ensures DecimalValue([c]) == DigitValue(c) && FixedDigits(DigitValue(c), 1) == [c]
  {
    assert [c][..0] == "";
    assert FixedDigits(DigitValue(c) / 10, 0) == "";
    assert Digit(DigitValue(c)) == c;
  }

  lemma TwoDigitText(a: char, b: char)
    requires IsDigit(a) && IsDigit(b)
    ensures DecimalValue([a, b]) == 10 * DigitValue(a) + DigitValue(b)
    ensures FixedDigits(10 * DigitValue(a) + DigitValue(b), 2) == [a, b]
  {
    OneDigitText(a);
    assert [a, b][..1] == [a];
    var n := 10 * DigitValue(a) + DigitValue(b);
    assert n / 10 == DigitValue(a) && n % 10 == DigitValue(b) && Digit(DigitValue(b)) == b;
    assert FixedDigits(n, 2) == FixedDigits(n / 10, 1) + [Digit(n % 10)];
  }

  lemma TwoDigits(s: string)
    requires |s| == 2 && AllDigits(s)
    ensures DecimalValue(s) == 10 * DigitValue(s[0]) + DigitValue(s[1])
    ensures FixedDigits(DecimalValue(s), 2) == s
  {
    assert s == [s[0], s[1]];
    TwoDigitText(s[0], s[1]);
  }

  lemma TwoDigitValue(n: nat)
    requires n < 100
    ensures DecimalValue(FixedDigits(n, 2)) == n
  {
    var s := FixedDigits(n, 2);
    TwoDigits(s);
    assert s[..1] == FixedDigits(n / 10, 1) == [Digit(n / 10)];
    assert s[0] == s[..1][0];
  }

  lemma FormattedClockParses(minutes: nat)
    requires minutes < 1440
    ensures ParseClock(FormatClock(minutes)) == Some(minutes)
  {
    var hour, minute := FixedDigits(minutes / 60, 2), FixedDigits(minutes % 60, 2);
    assert FormatClock(minutes) == hour + [':'] + minute;
    SplitOnceAt(hour, ':', minute);
    TwoDigitValue(minutes / 60);
    TwoDigitValue(minutes % 60);
  }

  /** Minutes of the day and `HH:MM` texts correspond one to one: every minute prints to a text that parses
      back, and nothing else parses to it. */
  lemma ClockBijection(minutes: nat, value: string)
    requires minutes < 1440
    ensures ParseClock(value) == Some(minutes) <==> value == FormatClock(minutes)
  {
    FormattedClockParses(minutes);
    if ParseClock(value) == Some(minutes) {
      var (hour, minute) := SplitOnce(value, ':').value;
      TwoDigits(hour);
      TwoDigits(minute);
      assert DecimalValue(hour) == minutes / 60 && DecimalValue(minute) == minutes % 60;
    }
  }

  // ----- Durations -----

  function UnitSeconds(unit: string): Option<nat> {
    if unit == "s" then Some(1) else if unit == "m" then Some(60)
    else if unit == "h" then Some(3600) else if unit == "d" then Some(86400) else None
  }

  /** Position of the first character that is not a digit, or the length. */
  function DigitsEnd(s: string): (i: nat)
    ensures i <= |s| && AllDigits(s[..i]) && (i < |s| ==> !IsDigit(s[i]))
  {
    if s == "" || !IsDigit(s[0]) then 0
    else
      var i := 1 + DigitsEnd(s[1..]);
      assert forall k :: 0 < k < i ==> s[k] == s[1..][k - 1];
      i
  }

  /** Digits and a unit, as seconds. The product is taken modulo 2^64. */
  function ParseDuration(value: string): Option<nat> {
    var text := Trim(value);
    var i := DigitsEnd(text);
    if i == |text| || i == 0 then None
    else match (ParseU64(text[..i]), UnitSeconds(text[i..]))
      case (Some(number), Some(mult)) => if number == 0 then None else Some(number * mult % U64_LIMIT)
      case _ => None
  }

  lemma PrintedDurationSplits(number: nat, unit: string)
    requires UnitSeconds(unit).Some?
    ensures var text := Decimal(number) + unit;
      Trim(text) == text && DigitsEnd(text) == |Decimal(number)|
  {
    var text := Decimal(number) + unit;
    assert |unit| == 1 && !IsDigit(unit[0]) && !IsWhitespace(unit[0]);
    assert text[0] == Decimal(number)[0];
    assert forall k :: 0 <= k < |Decimal(number)| ==> text[k] == Decimal(number)[k];
  }

  lemma PrintedDurationParses(number: nat, unit: string)
    requires 0 < number < U64_LIMIT && UnitSeconds(unit).Some?
    ensures ParseDuration(Decimal(number) + unit) == Some(number * UnitSeconds(unit).value % U64_LIMIT)
  {
    var text := Decimal(number) + unit;
    PrintedDurationSplits(number, unit);
    assert text[..|Decimal(number)|] == Decimal(number) && text[|Decimal(number)|..] == unit;
    ParseU64Exact(Decimal(number));
    DecimalDenotes(number);
  }

  /** Seconds, minutes, hours and days, while they fit in 64 bits. */
  lemma UnitsMean(n: nat, unit: string, seconds: nat)
    requires 0 < n < U64_LIMIT && n * seconds < U64_LIMIT
    requires (unit == "s" && seconds == 1) || (unit == "m" && seconds == 60)
      || (unit == "h" && seconds == 3600) || (unit == "d" && seconds == 86400)
    ensures ParseDuration(Decimal(n) + unit) == Some(n * seconds)
  {
    UnitsAre();
    DurationMeansWhatItSays(n, unit);
  }

  lemma UnitsAre()
    ensures UnitSeconds("s") == Some(1) && UnitSeconds("m") == Some(60)
    ensures UnitSeconds("h") == Some(3600) && UnitSeconds("d") == Some(86400)
  {}

  /** What is read: digits of a positive 64-bit number and a unit, with white space on either side. */
  ghost predicate ReadsAs(text: string, digits: string, unit: string, seconds: nat) {
    && text == digits + unit && digits != "" && AllDigits(digits) && UnitSeconds(unit).Some?
    && 0 < DecimalValue(digits) < U64_LIMIT
    && seconds == DecimalValue(digits) * UnitSeconds(unit).value % U64_LIMIT
  }

  /** Nothing else is read as a duration. */
  lemma DurationReads(value: string, seconds: nat)
    ensures ParseDuration(value) == Some(seconds) <==>
      exists digits, unit :: ReadsAs(Trim(value), digits, unit, seconds)
  {
    var text := Trim(value);
    if ParseDuration(value) == Some(seconds) {
      var i := DigitsEnd(text);
      ParseU64Exact(text[..i]);
      assert text == text[..i] + text[i..];
      assert ReadsAs(text, text[..i], text[i..], seconds);
    }
    if digits, unit :| ReadsAs(text, digits, unit, seconds) {
      UnitStartsAfterDigits(digits, unit);
      assert text[..|digits|] == digits && text[|digits|..] == unit;
      ParseU64Exact(digits);
    }
  }

  lemma UnitStartsAfterDigits(digits: string, unit: string)
    requires AllDigits(digits) && UnitSeconds(unit).Some?
    ensures DigitsEnd(digits + unit) == |digits| < |digits + unit|
  {
    var text := digits + unit;
    assert |unit| == 1 && !IsDigit(unit[0]);
    assert text[|digits|] == unit[0];
    assert forall k :: 0 <= k < |digits| ==> text[k] == digits[k];
  }

  /** A printed duration means what it says exactly when its number of seconds fits in 64 bits. */
  lemma DurationMeansWhatItSays(number: nat, unit: string)
    requires 0 < number < U64_LIMIT && UnitSeconds(unit).Some?
    ensures ParseDuration(Decimal(number) + unit) == Some(number * UnitSeconds(unit).value) <==>
      number * UnitSeconds(unit).value < U64_LIMIT
  {
    PrintedDurationParses(number, unit);
    ParsedOrWrapped(ParseDuration(Decimal(number) + unit), number * UnitSeconds(unit).value);
  }

  lemma ParsedOrWrapped(parsed: Option<nat>, product: nat)
    requires parsed == Some(product % U64_LIMIT)
    ensures parsed == Some(product) <==> product < U64_LIMIT
  {
    WrapsOnlyAbove(product);
  }

  lemma WrapsOnlyAbove(n: nat)
    ensures n % U64_LIMIT == n <==> n < U64_LIMIT
  {}

  /** The wrap-around is reachable, and it even turns a huge interval into none at all. */
  lemma HugeIntervalWrapsToZero(days: nat)
    requires days == 0x200_0000_0000_0000
    ensures ParseDuration(Decimal(days) + "d") == Some(0)
  {
    PrintedDurationParses(days, "d");
    WrapsToZero(days);
  }

  lemma WrapsToZero(days: nat)
    requires days == 0x200_0000_0000_0000
    ensures days * 86400 % U64_LIMIT == 0
  {}

  const DEFAULT_INTERVAL: nat := 6 * 60 * 60

  function CheckInterval(config: Config): nat {
    match ParseDuration(config.checkInterval)
    case Some(seconds) => seconds
    case None => DEFAULT_INTERVAL
  }

  /** The interval is the configured one, or six hours where the text cannot be read. */
  lemma CheckIntervalMeans(config: Config, seconds: nat)
    ensures (exists digits, unit :: ReadsAs(Trim(config.checkInterval), digits, unit, seconds)) ==>
      CheckInterval(config) == seconds
    ensures ParseDuration(config.checkInterval).None? ==> CheckInterval(config) == 21600
  {
    DurationReads(config.checkInterval, seconds);
  }

  // ----- Windows -----

  datatype LocalTime = LocalTime(weekday: Weekday, minutes: nat)

  predicate Contains(w: MaintenanceWindow, now: LocalTime) {
    match (ParseClock(w.start), ParseClock(w.end))
    case (Some(start), Some(end)) => now.weekday in w.days && start <= now.minutes < end
    case _ => false
  }

  predicate InWindow(windows: seq<MaintenanceWindow>, now: LocalTime) {
    exists i :: 0 <= i < |windows| && Contains(windows[i], now)
  }

  /** What validation accepts: some day, times of day that parse, the end after the start, no zero limit. */
  predicate ValidWindow(w: MaintenanceWindow) {
    && w.days != [] && w.maxDurationMinutes != Some(0)
    && match (ParseClock(w.start), ParseClock(w.end))
       case (Some(start), Some(end)) => start < end
       case _ => false
  }

  /** What is wrong with the window at a position. */
  datatype WindowProblem = NoDays(at: nat) | BadStart(at: nat) | BadEnd(at: nat) | EndNotAfterStart(at: nat)
    | ZeroDuration(at: nat)

  /** A start or end that does not parse hides whatever would be checked after it. */
  predicate HasProblem(w: MaintenanceWindow, i: nat, problem: WindowProblem) {
    var (start, end) := (ParseClock(w.start), ParseClock(w.end));
    problem.at == i && match problem
    case NoDays(_) => w.days == []
    case BadStart(_) => start.None?
    case BadEnd(_) => start.Some? && end.None?
    case EndNotAfterStart(_) => start.Some? && end.Some? && end.value <= start.value
    case ZeroDuration(_) => start.Some? && end.Some? && w.maxDurationMinutes == Some(0)
  }

  lemma ValidWindowHasNoProblem(w: MaintenanceWindow, i: nat)
    ensures ValidWindow(w) <==> forall p :: !HasProblem(w, i, p)
  {
    assert HasProblem(w, i, NoDays(i)) <==> w.days == [];
    assert HasProblem(w, i, BadStart(i)) <==> ParseClock(w.start).None?;
    assert HasProblem(w, i, BadEnd(i)) <==> ParseClock(w.start).Some? && ParseClock(w.end).None?;
    assert ParseClock(w.start).Some? && ParseClock(w.end).Some? ==>
      (HasProblem(w, i, EndNotAfterStart(i)) <==> ParseClock(w.end).value <= ParseClock(w.start).value)
      && (HasProblem(w, i, ZeroDuration(i)) <==> w.maxDurationMinutes == Some(0));
  }

  /** The problems of the first `n` windows. */
  ghost predicate ProblemsOf(windows: seq<MaintenanceWindow>, n: nat, errors: seq<WindowProblem>)
    requires n <= |windows|
  {
    && (forall p :: p in errors <==> p.at < n && HasProblem(windows[p.at], p.at, p))
    && (errors == [] <==> forall k :: 0 <= k < n ==> ValidWindow(windows[k]))
  }

  lemma NextWindow(windows: seq<MaintenanceWindow>, n: nat, errors: seq<WindowProblem>, found: seq<WindowProblem>)
    requires n < |windows| && ProblemsOf(windows, n, errors)
    requires forall p :: p in found <==> HasProblem(windows[n], n, p)
    requires found == [] <==> ValidWindow(windows[n])
    ensures ProblemsOf(windows, n + 1, errors + found)
  {
    forall p ensures p in errors + found <==> p.at < n + 1 && HasProblem(windows[p.at], p.at, p) {
      assert p in errors + found <==> p in errors || p in found;
      assert p in found ==> p.at == n;
    }
  }

  /** Exactly the problems of all windows are reported, so nothing is exactly when every window is valid. */
  method ValidateWindows(windows: seq<MaintenanceWindow>) returns (errors: seq<WindowProblem>)
    ensures forall p :: p in errors <==> p.at < |windows| && HasProblem(windows[p.at], p.at, p)
    ensures errors == [] <==> forall i :: 0 <= i < |windows| ==> ValidWindow(windows[i])
  {
    errors := [];
    var i := 0;
    while i < |windows|
      invariant 0 <= i <= |windows| && ProblemsOf(windows, i, errors)
    {
      var found := WindowProblems(windows[i], i);
      NextWindow(windows, i, errors, found);
      errors := errors + found;
      i := i + 1;
    }
  }

  method WindowProblems(w: MaintenanceWindow, i: nat) returns (errors: seq<WindowProblem>)
    ensures forall p :: p in errors <==> HasProblem(w, i, p)
    ensures errors == [] <==> ValidWindow(w)
  {
    ValidWindowHasNoProblem(w, i);
    errors := if w.days == [] then [NoDays(i)] else [];
    var start := ParseClock(w.start);
    if start.None? { return errors + [BadStart(i)]; }
    var end := ParseClock(w.end);
    if end.None? { return errors + [BadEnd(i)]; }
    if end.value <= start.value {
      errors := errors + [EndNotAfterStart(i)];
    }
    if w.maxDurationMinutes == Some(0) {
      errors := errors + [ZeroDuration(i)];
    }
  }

  // ----- Permissions -----

  datatype Permissions = Permissions(inMaintenanceWindow: Option<bool>, applyPermitted: bool,
                                     installsPermitted: bool, rebootPermitted: bool)

  /** What policy permits at a local time, or without one. */
  function PermissionsAt(config: Config, now: Option<LocalTime>): Permissions {
    var open := now.Some? && config.maintenanceEnabled && InWindow(config.windows, now.value);
    Permissions(
      if now.Some? then Some(InWindow(config.windows, now.value)) else None,
      open,
      config.automatic && open,
      match config.rebootPolicy case Always => true case Never => false case Ask => open)
  }

  predicate OpenBetween(w: MaintenanceWindow, now: LocalTime, start: nat, end: nat) {
    && start < end < 1440 && w.start == FormatClock(start) && w.end == FormatClock(end)
    && now.weekday in w.days && start <= now.minutes < end
  }

  /** The window as an administrator reads it: one of its days, from its start until before its end. */
  ghost predicate IsOpen(w: MaintenanceWindow, now: LocalTime) {
    exists start: nat, end: nat :: OpenBetween(w, now, start, end)
  }

  lemma OpenIsContained(w: MaintenanceWindow, now: LocalTime, start: nat, end: nat)
    requires OpenBetween(w, now, start, end)
    ensures Contains(w, now)
  {
    ClockBijection(start, w.start);
    ClockBijection(end, w.end);
  }

  lemma ContainedIsOpen(w: MaintenanceWindow, now: LocalTime)
    requires ValidWindow(w) && Contains(w, now)
    ensures IsOpen(w, now)
  {
    var (start, end) := (ParseClock(w.start).value, ParseClock(w.end).value);
    ClockBijection(start, w.start);
    ClockBijection(end, w.end);
    assert OpenBetween(w, now, start, end);
  }

  lemma ValidWindowMeans(w: MaintenanceWindow, now: LocalTime)
    requires ValidWindow(w)
    ensures Contains(w, now) <==> IsOpen(w, now)
  {
    if Contains(w, now) {
      ContainedIsOpen(w, now);
    } else if IsOpen(w, now) {
      var start: nat, end: nat :| OpenBetween(w, now, start, end);
      OpenIsContained(w, now, start, end);
    }
  }

  /** Some window is open, as an administrator reads it. */
  ghost predicate SomeOpen(windows: seq<MaintenanceWindow>, now: LocalTime) {
    exists i :: 0 <= i < |windows| && IsOpen(windows[i], now)
  }

  lemma InWindowMeans(windows: seq<MaintenanceWindow>, now: LocalTime)
    requires forall i :: 0 <= i < |windows| ==> ValidWindow(windows[i])
    ensures InWindow(windows, now) <==> SomeOpen(windows, now)
  {
    forall i | 0 <= i < |windows| ensures Contains(windows[i], now) <==> IsOpen(windows[i], now) {
      ValidWindowMeans(windows[i], now);
    }
  }

  /** An apply is permitted exactly when the local time is known, maintenance is enabled, and some window is open;
      an automatic one needs `automatic` besides. */
  lemma ApplyNeedsAnOpenWindow(config: Config, now: Option<LocalTime>)
    requires forall i :: 0 <= i < |config.windows| ==> ValidWindow(config.windows[i])
    ensures PermissionsAt(config, now).applyPermitted <==>
      now.Some? && config.maintenanceEnabled && SomeOpen(config.windows, now.value)
    ensures PermissionsAt(config, now).installsPermitted <==>
      config.automatic && now.Some? && config.maintenanceEnabled && SomeOpen(config.windows, now.value)
  {
    if now.Some? {
      InWindowMeans(config.windows, now.value);
    }
  }

  /** A reboot is always permitted under policy `Always`, never under `Never`, and under `Ask` exactly when an apply is.
      Whether a window is open is reported wherever the time is known, even with maintenance disabled. */
  lemma RebootFollowsPolicy(config: Config, now: Option<LocalTime>)
    requires forall i :: 0 <= i < |config.windows| ==> ValidWindow(config.windows[i])
    ensures PermissionsAt(config, now).rebootPermitted <==>
      || config.rebootPolicy.Always?
      || (config.rebootPolicy.Ask? && now.Some? && config.maintenanceEnabled && SomeOpen(config.windows, now.value))
    ensures now.None? ==> PermissionsAt(config, now).inMaintenanceWindow == None
    ensures now.Some? ==>
      PermissionsAt(config, now).inMaintenanceWindow == Some(SomeOpen(config.windows, now.value))
  {
    if now.Some? {
      InWindowMeans(config.windows, now.value);
    }
  }

  /** The condition for an automatic apply. */
  predicate ShouldAutoApply(perms: Permissions, hasAvailable: bool, pending: bool, sinceLast: Option<nat>,
                            interval: nat) {
    perms.installsPermitted && hasAvailable && !pending && (sinceLast.Some? ==> sinceLast.value >= interval)
  }

  const RETRY_AFTER_FAILURE: nat := 15 * 60

  predicate CheckIsDue(sinceLast: nat, lastSucceeded: bool, interval: nat) {
    sinceLast >= if lastSucceeded || interval < RETRY_AFTER_FAILURE then interval else RETRY_AFTER_FAILURE
  }
}
