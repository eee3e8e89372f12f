/** Semantic versions (`crates/abora-core`): printing and parsing (sections 2, 9 and 10 of SemVer 2.0.0). */
module Version {
  import opened Prelude
  import opened Text

  datatype Version = Version(major: nat, minor: nat, patch: nat, prerelease: Option<string>, build: Option<string>)

  datatype VersionError = WrongPartCount | BadComponent(part: string)

  /** The numbers fit in 64 bits. */
  predicate Representable(v: Version) {
    v.major < U64_LIMIT && v.minor < U64_LIMIT && v.patch < U64_LIMIT
  }

  function Suffix(mark: char, text: Option<string>): string {
    if text.None? then "" else [mark] + text.value
  }

  function Display(v: Version): string {
    Decimal(v.major) + "." + Decimal(v.minor) + "." + Decimal(v.patch)
    + Suffix('-', v.prerelease) + Suffix('+', v.build)
  }

  function ParseComponent(part: string): Result<nat, VersionError> {
    if part == "" || !AllDigits(part) then Err(BadComponent(part))
    else match ParseU64(part)
      case Some(n) => Ok(n)
      case None => Err(BadComponent(part))
  }

  /** The text before the first `mark`, and what follows it. */
  function CutAt(s: string, mark: char): (string, Option<string>) {
    match SplitOnce(s, mark)
    case Some((head, tail)) => (head, Some(tail))
    case None => (s, None)
  }

  /** All three numbers, or the first one that is malformed. */
  function ParseNumbers(parts: seq<string>): (r: Result<seq<nat>, VersionError>)
    requires |parts| == 3
    ensures r.Ok? ==> |r.value| == 3
  {
    var (a, b, c) := (ParseComponent(parts[0]), ParseComponent(parts[1]), ParseComponent(parts[2]));
    if a.Err? then Err(a.error)
    else if b.Err? then Err(b.error)
    else if c.Err? then Err(c.error)
    else Ok([a.value, b.value, c.value])
  }

  function ParseVersion(input: string): Result<Version, VersionError> {
    var (rest, build) := CutAt(input, '+');
    var (core, prerelease) := CutAt(rest, '-');
    var parts := Split(core, '.');
    if |parts| != 3 then Err(WrongPartCount)
    else match ParseNumbers(parts)
      case Err(e) => Err(e)
      case Ok(nums) => Ok(Version(nums[0], nums[1], nums[2], prerelease, build))
  }

  method Parse(input: string) returns (r: Result<Version, VersionError>)
    ensures r == ParseVersion(input)
  {
    var (rest, build) := CutAt(input, '+');
    var (core, prerelease) := CutAt(rest, '-');
    var parts := Split(core, '.');
    if |parts| != 3 { return Err(WrongPartCount); }
    var nums := new nat[3](_ => 0);
    var i := 0;
    while i < 3
      invariant 0 <= i <= 3 && forall k :: 0 <= k < i ==> ParseComponent(parts[k]) == Ok(nums[k])
    {
      var num := ParseComponent(parts[i]);
      if num.Err? { return Err(num.error); }
      nums[i] := num.value;
      i := i + 1;
    }
    r := Ok(Version(nums[0], nums[1], nums[2], prerelease, build));
  }

  // ----- Parsing undoes printing -----

  lemma ComponentRoundTrip(n: nat)
    requires n < U64_LIMIT
    ensures ParseComponent(Decimal(n)) == Ok(n)
  {
    ParseU64Exact(Decimal(n));
    DecimalDenotes(n);
  }

  function Core(major: string, minor: string, patch: string): string {
    major + "." + minor + "." + patch
  }

  lemma CoreSplits(major: string, minor: string, patch: string)
    requires '.' !in major && '.' !in minor && '.' !in patch
    ensures Split(Core(major, minor, patch), '.') == [major, minor, patch]
  {
    var tail := minor + "." + patch;
    assert Core(major, minor, patch) == major + ['.'] + tail;
    SplitOnceAt(major, '.', tail);
    assert tail == minor + ['.'] + patch;
    SplitOnceAt(minor, '.', patch);
    assert Split(patch, '.') == [patch];
    assert Split(tail, '.') == [minor] + [patch];
  }

  lemma CutSuffix(head: string, mark: char, suffix: Option<string>)
    requires mark !in head
    ensures CutAt(head + Suffix(mark, suffix), mark) == (head, suffix)
  {
    if suffix.Some? {
      SplitOnceAt(head, mark, suffix.value);
      assert head + Suffix(mark, suffix) == head + [mark] + suffix.value;
    } else {
      assert head + "" == head;
    }
  }

  /** Parsing a printed version gives it back exactly when its prerelease contains no `+`. The build metadata
      may contain anything. */
  lemma VersionRoundTrip(v: Version)
    requires Representable(v)
    ensures ParseVersion(Display(v)) == Ok(v) <==> !(v.prerelease.Some? && '+' in v.prerelease.value)
  {
    if v.prerelease.Some? && '+' in v.prerelease.value {
      ParsedPrereleaseHasNoPlus(Display(v));
    } else {
      var core := Core(Decimal(v.major), Decimal(v.minor), Decimal(v.patch));
      PrintedVersionParses(v, core, core + Suffix('-', v.prerelease));
    }
  }

  /** What becomes of such a version: the end of its prerelease is read as build metadata. */
  lemma PlusMovesToBuild(v: Version)
    requires v == Version(1, 0, 0, Some("rc+1"), None)
    ensures ParseVersion(Display(v)) == Ok(Version(1, 0, 0, Some("rc"), Some("1")))
  {
    var read := Version(1, 0, 0, Some("rc"), Some("1"));
    var core := Core(Decimal(1), Decimal(0), Decimal(0));
    assert Display(v) == core + "-" + "rc+1" == core + "-" + "rc" + "+" + "1" == Display(read);
    assert '+' !in "rc";
    VersionRoundTrip(read);
  }

  lemma PrintedVersionParses(v: Version, core: string, head: string)
    requires Representable(v) && (v.prerelease.Some? ==> '+' !in v.prerelease.value)
    requires core == Core(Decimal(v.major), Decimal(v.minor), Decimal(v.patch))
      && head == core + Suffix('-', v.prerelease)
    ensures ParseVersion(Display(v)) == Ok(v)
  {
    assert Display(v) == head + Suffix('+', v.build);
    CoreHasNoMarks(v, core);
    assert '+' !in head;
    CutSuffix(head, '+', v.build);
    CutSuffix(core, '-', v.prerelease);
    PrintedNumbers(v);
    PiecesParse(Display(v), head, core, v);
  }

  lemma CoreHasNoMarks(v: Version, core: string)
    requires core == Core(Decimal(v.major), Decimal(v.minor), Decimal(v.patch))
    ensures '+' !in core && '-' !in core
  {
    assert forall i :: 0 <= i < |core| ==> IsDigit(core[i]) || core[i] == '.';
  }

  lemma PiecesParse(input: string, head: string, core: string, v: Version)
    requires CutAt(input, '+') == (head, v.build) && CutAt(head, '-') == (core, v.prerelease)
    requires |Split(core, '.')| == 3 && ParseNumbers(Split(core, '.')) == Ok([v.major, v.minor, v.patch])
    ensures ParseVersion(input) == Ok(v)
  {}

  lemma PrintedNumbers(v: Version)
    requires Representable(v)
    ensures var parts := Split(Core(Decimal(v.major), Decimal(v.minor), Decimal(v.patch)), '.');
      |parts| == 3 && ParseNumbers(parts) == Ok([v.major, v.minor, v.patch])
  {
    CoreSplits(Decimal(v.major), Decimal(v.minor), Decimal(v.patch));
    ComponentRoundTrip(v.major);
    ComponentRoundTrip(v.minor);
    ComponentRoundTrip(v.patch);
  }

  lemma ParsedPrereleaseHasNoPlus(input: string)
    ensures var r := ParseVersion(input);
      r.Ok? && r.value.prerelease.Some? ==> '+' !in r.value.prerelease.value
  {
    var (rest, build) := CutAt(input, '+');
    assert '+' !in rest;
  }

  // ----- Printing undoes parsing, up to leading zeros -----

  /** The dotted numbers of a version text. */
  function CoreOf(input: string): string { CutAt(CutAt(input, '+').0, '-').0 }

  /** Printing a parsed version gives the input back exactly when no number had a leading zero. */
  lemma DisplayRestoresInput(input: string)
    requires ParseVersion(input).Ok?
    ensures Representable(ParseVersion(input).value)
    ensures var parts := Split(CoreOf(input), '.');
      && |parts| == 3
      && (Display(ParseVersion(input).value) == input <==>
        Canonical(parts[0]) && Canonical(parts[1]) && Canonical(parts[2]))
  {
    var parts, v := ParsedShape(input);
    DisplayIsInput(v, parts[0], parts[1], parts[2]);
  }

  lemma DisplayIsInput(v: Version, a: string, b: string, c: string)
    requires a != "" && b != "" && c != "" && AllDigits(a) && AllDigits(b) && AllDigits(c)
    requires v.major == DecimalValue(a) && v.minor == DecimalValue(b) && v.patch == DecimalValue(c)
    ensures Display(v) == Core(a, b, c) + Suffix('-', v.prerelease) + Suffix('+', v.build) <==>
      Canonical(a) && Canonical(b) && Canonical(c)
  {
    NumbersRestore(a, b, c);
    var printed, s, t :=
      Core(Decimal(v.major), Decimal(v.minor), Decimal(v.patch)), Suffix('-', v.prerelease), Suffix('+', v.build);
    assert Display(v) == printed + s + t;
    if Display(v) == Core(a, b, c) + s + t {
      SameCore(printed, Core(a, b, c), s, t);
    }
  }

  lemma ParsedShape(input: string) returns (parts: seq<string>, v: Version)
    requires ParseVersion(input).Ok?
    ensures v == ParseVersion(input).value && parts == Split(CoreOf(input), '.')
    ensures |parts| == 3 && forall i :: 0 <= i < 3 ==> parts[i] != "" && AllDigits(parts[i])
    ensures v.major == DecimalValue(parts[0]) && v.minor == DecimalValue(parts[1]) && v.patch == DecimalValue(parts[2])
    ensures Representable(v)
    ensures input == Core(parts[0], parts[1], parts[2]) + Suffix('-', v.prerelease) + Suffix('+', v.build)
  {
    v := ParseVersion(input).value;
    var rest := CutAt(input, '+').0;
    var core := CutAt(rest, '-').0;
    parts := Split(core, '.');
    ParsedNumbers(parts);
    ThreePartsRejoin(core);
    CutRejoins(input, '+');
    CutRejoins(rest, '-');
  }

  lemma CutRejoins(s: string, mark: char)
    ensures s == CutAt(s, mark).0 + Suffix(mark, CutAt(s, mark).1)
  {
    if mark !in s {
      assert s + "" == s;
    }
  }

  lemma NumbersRestore(a: string, b: string, c: string)
    requires a != "" && b != "" && c != "" && AllDigits(a) && AllDigits(b) && AllDigits(c)
    ensures Core(Decimal(DecimalValue(a)), Decimal(DecimalValue(b)), Decimal(DecimalValue(c))) == Core(a, b, c) <==>
      Canonical(a) && Canonical(b) && Canonical(c)
  {
    DecimalRestores(a);
    DecimalRestores(b);
    DecimalRestores(c);
    CoreSplits(a, b, c);
    CoreSplits(Decimal(DecimalValue(a)), Decimal(DecimalValue(b)), Decimal(DecimalValue(c)));
  }

  lemma SameCore(a: string, b: string, s: string, t: string)
    requires a + s + t == b + s + t
    ensures a == b
  {
    assert |a + s + t| == |a| + |s| + |t| && |b + s + t| == |b| + |s| + |t|;
    assert (a + s + t)[..|a|] == a && (b + s + t)[..|a|] == b;
  }

  lemma ThreePartsRejoin(core: string)
    requires |Split(core, '.')| == 3
    ensures var parts := Split(core, '.'); core == Core(parts[0], parts[1], parts[2])
  {
    var parts := Split(core, '.');
    SplitRejoins(core, '.');
    JoinThree(parts[0], parts[1], parts[2]);
    assert parts == [parts[0], parts[1], parts[2]];
  }

  lemma JoinThree(a: string, b: string, c: string)
    ensures Join([a, b, c], '.') == Core(a, b, c)
  {
    assert [a, b, c][1..] == [b, c] && [b, c][1..] == [c];
    assert Join([b, c], '.') == b + ['.'] + c;
    assert Core(a, b, c) == a + ['.'] + (b + ['.'] + c);
  }

  lemma ParsedNumbers(parts: seq<string>)
    requires |parts| == 3 && ParseNumbers(parts).Ok?
    ensures forall i :: 0 <= i < 3 ==> parts[i] != "" && AllDigits(parts[i])
    ensures ParseNumbers(parts).value == [DecimalValue(parts[0]), DecimalValue(parts[1]), DecimalValue(parts[2])]
    ensures forall i :: 0 <= i < 3 ==> DecimalValue(parts[i]) < U64_LIMIT
  {
    ParseU64Exact(parts[0]);
    ParseU64Exact(parts[1]);
    ParseU64Exact(parts[2]);
  }
}
