/** What the daemon knows about updates (`services/aborad/src/state.rs`): the available packages, how they
    become an apply request, and how the helper's result becomes a history entry. */
module UpdatesState {
  import opened Prelude
  import opened Text
  import opened NameSets
  import opened UpdateTypes
  import opened AptSimulation
  import opened ApplyRules
  import opened Store
  import opened Schedule
  import Version

  // ----- Checking -----

  /** The updates that a simulation's output lists. */
  function Found(output: string, channel: Channel): (updates: seq<AvailableUpdate>)
    ensures Components(updates) == Names(ParseSimulation(output))
    ensures forall i :: 0 <= i < |updates| ==> updates[i].channel == channel
  {
    var upgrades := ParseSimulation(output);
    var updates := seq(|upgrades|, i requires 0 <= i < |upgrades| => AvailableUpdate(channel, upgrades[i].name));
    assert Components(updates) == Names(upgrades);
    updates
  }

  function Components(available: seq<AvailableUpdate>): (names: seq<string>)
    ensures |names| == |available| && forall i :: 0 <= i < |names| ==> names[i] == available[i].component
  {
    seq(|available|, i requires 0 <= i < |available| => available[i].component)
  }

  predicate ValidNames(available: seq<AvailableUpdate>) {
    forall i :: 0 <= i < |available| ==> ValidPackageName(available[i].component)
  }

  // ----- Asking for an apply -----

  function HexDigit(n: nat): (c: char)
    requires n < 16
    ensures IsHex(c)
  {
    if n < 10 then '0' + n as char else 'a' + (n - 10) as char
  }

  predicate IsHex(c: char) { '0' <= c <= '9' || 'a' <= c <= 'f' }

  function FixedHex(n: nat, width: nat): (s: string)
    ensures |s| == width && forall i :: 0 <= i < width ==> IsHex(s[i])
  {
    if width == 0 then "" else FixedHex(n / 16, width - 1) + [HexDigit(n % 16)]
  }

  /** The id made from a 64-bit hash. */
  function NewRequestId(hash: nat): (id: string)
    ensures Generated(id)
  {
    "apply-" + FixedHex(hash, 16)
  }

  /** Different 64-bit hashes make different ids. */
  lemma IdsDiffer(a: nat, b: nat)
    requires a < U64_LIMIT && b < U64_LIMIT && a != b
    ensures NewRequestId(a) != NewRequestId(b)
  {
    Power16Is(16);
    HexDiffers(a, b, 16);
    var (x, y) := (NewRequestId(a), NewRequestId(b));
    assert x[6..] == FixedHex(a, 16) && y[6..] == FixedHex(b, 16);
  }

  function Power16(k: nat): (p: nat)
    ensures p > 0
  {
    if k == 0 then 1 else 16 * Power16(k - 1)
  }

  lemma Power16Is(k: nat)
    requires k == 16
    ensures Power16(k) == U64_LIMIT
  {
    assert Power16(4) == 65536;
    assert Power16(8) == 65536 * Power16(4) && Power16(12) == 65536 * Power16(8) && Power16(k) == 65536 * Power16(12);
  }

  lemma {:induction false} HexDiffers(a: nat, b: nat, width: nat)
    requires a < Power16(width) && b < Power16(width) && a != b
    ensures FixedHex(a, width) != FixedHex(b, width)
    decreases width
  {
    if width > 0 {
      var (x, y) := (FixedHex(a, width), FixedHex(b, width));
      assert x[..width - 1] == FixedHex(a / 16, width - 1) && y[..width - 1] == FixedHex(b / 16, width - 1);
      if a / 16 != b / 16 {
        HexDiffers(a / 16, b / 16, width - 1);
      } else {
        assert x[width - 1] == HexDigit(a % 16) && y[width - 1] == HexDigit(b % 16);
      }
    }
  }

  /** The form of every id the daemon makes. */
  predicate Generated(id: string) {
    |id| == 22 && "apply-" <= id && forall i :: 6 <= i < 22 ==> IsHex(id[i])
  }

  lemma GeneratedIdIsValid(id: string)
    requires Generated(id)
    ensures ValidRequestId(id) && id != "invalid"
  {
    assert forall i :: 0 <= i < 6 ==> id[i] == "apply-"[i];
  }

  datatype Block = AlreadyPending | NothingAvailable | OutsideWindow

  datatype ApplyResponse = ApplyResponse(dryRun: bool, permitted: bool, reason: Option<Block>, id: Option<string>,
                                         packages: seq<string>)

  datatype ApplyRefusal = Conflict(reason: Block) | Internal

  /** What a request would name: the available components, sorted, without duplicates. */
  function Packages(available: seq<AvailableUpdate>): seq<string> {
    SortDedup(Components(available))
  }

  function BlockedBy(pending: bool, available: seq<AvailableUpdate>, permitted: bool): Option<Block> {
    if pending then Some(AlreadyPending)
    else if available == [] then Some(NothingAvailable)
    else if !permitted then Some(OutsideWindow)
    else None
  }

  function AnswerApply(available: seq<AvailableUpdate>, pending: bool, permitted: bool, dryRun: bool, id: string,
                       writeOk: bool): Result<ApplyResponse, ApplyRefusal> {
    var block := BlockedBy(pending, available, permitted);
    if dryRun then Ok(ApplyResponse(true, block.None?, block, None, Packages(available)))
    else if block.Some? then Err(Conflict(block.value))
    else if !writeOk then Err(Internal)
    else Ok(ApplyResponse(false, true, None, Some(id), Packages(available)))
  }

  /** A dry run permits exactly when the real call would not be refused with a conflict, gives that conflict's
      reason otherwise, and names the packages the real call would. */
  lemma DryRunAgrees(available: seq<AvailableUpdate>, pending: bool, permitted: bool, id: string, writeOk: bool)
    ensures var dry, actual := AnswerApply(available, pending, permitted, true, id, writeOk),
                             AnswerApply(available, pending, permitted, false, id, writeOk);
      && dry.Ok? && dry.value.dryRun && dry.value.id == None
      && (dry.value.permitted <==> !(actual.Err? && actual.error.Conflict?))
      && (!dry.value.permitted ==> dry.value.reason.Some? && actual == Err(Conflict(dry.value.reason.value)))
      && (actual.Ok? ==> actual.value.packages == dry.value.packages)
  {}

  /** A real call writes its request exactly when none waits, something is available, and an apply is permitted;
      otherwise it names the first of these that fails. */
  lemma WritesExactlyWhenAllowed(available: seq<AvailableUpdate>, pending: bool, permitted: bool, id: string,
                                 writeOk: bool)
    ensures var r := AnswerApply(available, pending, permitted, false, id, writeOk);
      && (r.Ok? <==> !pending && available != [] && permitted && writeOk)
      && (r.Ok? ==> r.value == ApplyResponse(false, true, None, Some(id), Packages(available)))
      && (r == Err(Conflict(AlreadyPending)) <==> pending)
      && (r == Err(Conflict(NothingAvailable)) <==> !pending && available == [])
      && (r == Err(Conflict(OutsideWindow)) <==> !pending && available != [] && !permitted)
      && (r == Err(Internal) <==> !pending && available != [] && permitted && !writeOk)
  {}

  lemma PackagesAreAvailable(available: seq<AvailableUpdate>)
    ensures StrictlySorted(Packages(available))
    ensures forall n :: n in Packages(available) <==> exists i :: 0 <= i < |available| && available[i].component == n
    ensures Packages(available) == [] <==> available == []
  {
    SortDedupSorts(Components(available));
    assert forall i :: 0 <= i < |available| ==> Components(available)[i] == available[i].component;
    forall n | n in Components(available) ensures exists i :: 0 <= i < |available| && available[i].component == n {
      var i :| 0 <= i < |available| && Components(available)[i] == n;
      assert available[i].component == n;
    }
    assert available != [] ==> available[0].component in Packages(available);
  }

  /** A request for a nonempty list of available packages passes the helper's validation exactly when it names
      no more than 2000 packages. */
  lemma RequestPassesValidation(available: seq<AvailableUpdate>, id: string, at: string, caller: string)
    requires ValidNames(available) && available != [] && Generated(id)
    ensures ValidateRequest(ApplyRequest(id, at, caller, Packages(available))).None? <==>
      |Packages(available)| <= MAX_PACKAGES
    ensures |available| <= MAX_PACKAGES ==> |Packages(available)| <= MAX_PACKAGES
  {
    GeneratedIdIsValid(id);
    PackagesAreAvailable(available);
    SortDedupSorts(Components(available));
    var packages := Packages(available);
    forall i | 0 <= i < |packages| ensures ValidPackageName(packages[i]) {
      assert packages[i] in packages;
    }
  }

  /** Updates of `n` packages named 0, 1, 2 and so on. */
  function Numbered(n: nat): (available: seq<AvailableUpdate>)
    ensures |available| == n && forall k :: 0 <= k < n ==> available[k].component == Decimal(k)
  {
    seq(n, k requires 0 <= k < n => AvailableUpdate(Stable, Decimal(k)))
  }

  lemma NumberedAreValid(n: nat)
    requires n <= 10000
    ensures ValidNames(Numbered(n)) && Distinct(Components(Numbered(n)))
  {
    var names := Components(Numbered(n));
    forall k | 0 <= k < n ensures ValidPackageName(names[k]) {
      assert Power10(4) == 10000 by { assert Power10(2) == 100; }
      DecimalLength(k, 4);
    }
    forall i, j | 0 <= i < j < n ensures names[i] != names[j] {
      DecimalDenotes(i);
      DecimalDenotes(j);
    }
  }

  /** With 2001 packages available the daemon writes a request that the helper refuses. */
  lemma TooManyAreRefused(available: seq<AvailableUpdate>, id: string, at: string, caller: string)
    requires available == Numbered(MAX_PACKAGES + 1) && Generated(id)
    ensures AnswerApply(available, false, true, false, id, true).Ok?
    ensures ValidateRequest(ApplyRequest(id, at, caller, Packages(available))) == Some(TooManyPackages)
  {
    NumberedAreValid(MAX_PACKAGES + 1);
    GeneratedIdIsValid(id);
    SortDedupKeepsDistinct(Components(available));
    RequestPassesValidation(available, id, at, caller);
  }

  // ----- Recording a result -----

  function Key(id: string): string { "apply " + id }

  function NoteFor(result: ApplyResult): string {
    Key(result.id) + ": " + Decimal(|result.packages|) + " package(s)"
    + (if result.note.Some? then "; " + result.note.value else "")
    + (if result.rebootStarted then "; reboot started" else "")
  }

  const ZERO := Version.Version(0, 0, 0, None, None)

  function EntryFor(result: ApplyResult, channel: Channel): HistoryEntry {
    HistoryEntry(result.finishedAt, ZERO, ZERO, channel, "host packages", result.succeeded, Some(NoteFor(result)))
  }

  /** What an entry tells about a result: when it was finished, whether it succeeded, and in its note the request, the
      number of packages, the result's own note, and whether a reboot was started. */
  predicate Describes(entry: HistoryEntry, result: ApplyResult, channel: Channel) {
    && entry.appliedAt == result.finishedAt && entry.succeeded == result.succeeded
    && entry.channel == channel && entry.component == "host packages"
    && entry.fromVersion == entry.toVersion == Version.Version(0, 0, 0, None, None)
    && entry.note == Some(
      "apply " + result.id + ": " + Decimal(|result.packages|) + " package(s)"
      + (if result.note.Some? then "; " + result.note.value else "")
      + if result.rebootStarted then "; reboot started" else "")
  }

  lemma EntryDescribes(result: ApplyResult, channel: Channel)
    ensures Describes(EntryFor(result, channel), result, channel)
  {}

  /** The newest entry of a history that was just added to and cut. */
  lemma LastIsDescribed(before: seq<HistoryEntry>, result: ApplyResult, channel: Channel)
    ensures var history := LastN(before + [EntryFor(result, channel)], MAX_HISTORY);
      history != [] && Describes(history[|history| - 1], result, channel)
  {
    EntryDescribes(result, channel);
    LastNKeepsLast(before, EntryFor(result, channel), MAX_HISTORY);
  }

  predicate Mentions(entry: HistoryEntry, id: string) {
    entry.note.Some? && Key(id) <= entry.note.value
  }

  predicate AlreadyRecorded(history: seq<HistoryEntry>, id: string) {
    exists i :: 0 <= i < |history| && Mentions(history[i], id)
  }

  const INVALID: string := "invalid"

  /** The result in the file, if it can be read, parses, and has an acceptable id. */
  function ReadResult(file: Option<FileEntry<ApplyResult>>, readable: bool): (r: Option<ApplyResult>)
    ensures r.Some? <==>
      && file.Some? && file.value.Regular? && readable && file.value.size <= 1024 * 1024
      && file.value.content.Json?
      && (ValidRequestId(file.value.content.value.id) || file.value.content.value.id == "invalid")
    ensures r.Some? ==> r.value == file.value.content.value
  {
    if file.None? then None
    else match ReadRegular(file.value, 0, None, readable)
      case Ok(Json(result)) => if ValidRequestId(result.id) || result.id == INVALID then Some(result) else None
      case _ => None
  }

  /** The result to record: one that history does not mention yet. */
  function Unrecorded(file: Option<FileEntry<ApplyResult>>, readable: bool,
                      history: seq<HistoryEntry>): Option<ApplyResult> {
    var result := ReadResult(file, readable);
    if result.Some? && !AlreadyRecorded(history, result.value.id) then result else None
  }

  /** The ids that occur are prefix-free: an entry mentions exactly the id it was made for. */
  lemma EntryMentionsItsId(result: ApplyResult, channel: Channel, id: string)
    requires Generated(result.id) || result.id == INVALID
    requires Generated(id) || id == INVALID
    ensures Mentions(EntryFor(result, channel), id) <==> id == result.id
  {
    var note, rest := NoteFor(result), NoteFor(result)[|Key(result.id)|..];
    assert note == "apply " + (result.id + rest);
    assert Key(id) <= note <==> id <= result.id + rest by {
      assert note[6..] == result.id + rest && Key(id)[6..] == id;
      if id <= result.id + rest {
        assert note == Key(id) + (result.id + rest)[|id|..];
      }
    }
    if id <= result.id + rest {
      assert id[0] == result.id[0];
      assert "apply-"[0] == 'a' && INVALID[0] == 'i';
      assert |id| == |result.id|;
      assert id == (result.id + rest)[..|id|] == result.id;
    }
  }

  /** What stays listed after some packages were upgraded. */
  function Remaining(available: seq<AvailableUpdate>, upgraded: seq<string>): (rest: seq<AvailableUpdate>)
    ensures ValidNames(available) ==> ValidNames(rest)
  {
    if available == [] then []
    else
      var rest := Remaining(available[1..], upgraded);
      if available[0].component in upgraded then rest else [available[0]] + rest
  }

  /** Exactly the updates of other components stay. */
  lemma {:induction false} OthersRemain(available: seq<AvailableUpdate>, upgraded: seq<string>, u: AvailableUpdate)
    ensures u in Remaining(available, upgraded) <==> u in available && u.component !in upgraded
  {
    if available != [] {
      OthersRemain(available[1..], upgraded, u);
    }
  }

  /** They keep their order, every copy of them. */
  lemma {:induction false} RemainingAppends(a: seq<AvailableUpdate>, b: seq<AvailableUpdate>, upgraded: seq<string>)
    ensures Remaining(a + b, upgraded) == Remaining(a, upgraded) + Remaining(b, upgraded)
    decreases |a|
  {
    if a == [] {
      assert a + b == b;
    } else {
      RemainingAppends(a[1..], b, upgraded);
      assert (a + b)[0] == a[0] && (a + b)[1..] == a[1..] + b;
      var first := if a[0].component in upgraded then [] else [a[0]];
      UpdatesSum(first, Remaining(a[1..], upgraded), Remaining(b, upgraded));
    }
  }

  lemma UpdatesSum(a: seq<AvailableUpdate>, b: seq<AvailableUpdate>, c: seq<AvailableUpdate>)
    ensures a + (b + c) == a + b + c
  {}

  // ----- Pending reboots -----

  function FirstLines(lines: seq<string>, n: nat): string {
    if n == 0 || lines == [] then ""
    else if n == 1 || |lines| == 1 then lines[0]
    else lines[0] + ", " + FirstLines(lines[1..], n - 1)
  }

  /** Why a reboot is pending, from the file that lists packages next to the marker, if it has any. */
  function MarkerReason(listed: Option<string>): string {
    var packages := if listed.Some? then FirstLines(Lines(listed.value), 5) else "";
    if packages == "" then "the system reports that a reboot is required"
    else "updated packages need a reboot: " + packages
  }

  /** What to store about a pending reboot, if it has changed: a marker that is new, or one that has gone. */
  function RebootNews(current: RebootStatus, marker: bool, listed: Option<string>, now: string): Option<RebootStatus> {
    if marker == current.required then None
    else if marker then Some(RebootStatus(true, Some(MarkerReason(listed)), Some(now)))
    else Some(NO_REBOOT)
  }

  /** Something is stored exactly when the marker and the record disagree; then the record says what the marker does,
      since when, and why. Without a marker there is no pending reboot. */
  lemma NewsMatchMarker(current: RebootStatus, marker: bool, listed: Option<string>, now: string)
    ensures var news := RebootNews(current, marker, listed, now);
      && (news.None? <==> marker == current.required)
      && (news.Some? ==>
          && news.value.required == marker
          && news.value.pendingSince == (if marker then Some(now) else None)
          && (news.value.reason.Some? <==> marker))
      && !NO_REBOOT.required
  {}

  /** The reason names the listed packages, if there are any: the first five lines. */
  lemma ReasonNamesPackages(a: string, b: string)
    requires a != "" && b != "" && '\n' !in a && '\n' !in b && a[|a| - 1] != '\r' && b[|b| - 1] != '\r'
    ensures MarkerReason(None) == MarkerReason(Some("")) == "the system reports that a reboot is required"
    ensures MarkerReason(Some(a + "\n" + (b + "\n" + ""))) == "updated packages need a reboot: " + (a + ", " + b)
  {
    LineEndings(a, b + "\n" + "");
    LineEndings(b, "");
    assert Lines("") == [];
    var lines := [a] + ([b] + []);
    assert lines == [a, b] && lines[1..] == [b];
    assert FirstLines(lines, 5) == a + ", " + FirstLines([b], 4);
  }

  // ----- The daemon's object -----

  class UpdatesState {
    const store: UpdateStore
    const files: ApplyFiles
    var available: seq<AvailableUpdate>

    ghost predicate Valid()
      reads this, store, store.disk
    {
      store.Valid() && ValidNames(available)
    }

    constructor (store: UpdateStore, files: ApplyFiles)
      requires store.Valid()
      ensures Valid() && this.store == store && this.files == files && available == []
    {
      this.store, this.files, available := store, files, [];
    }

    /** Check for updates: the list is replaced only when apt answered and the check could be recorded. */
    method Refresh(channel: Channel, output: Result<string, string>, when: string, fault: Fault)
      returns (count: Option<nat>, crashed: bool)
      requires Valid()
      modifies this`available, store, store.disk
      ensures crashed <==> output.Ok? && store.disk != null && OutcomeOf(fault).Crashed?
      ensures !crashed ==> Valid()
      ensures count.Some? <==> output.Ok? && (store.disk == null || fault.Healthy?)
      ensures count.Some? ==> count.value == |available| && available == Found(output.value, channel)
      ensures count.Some? ==> store.data == TrimData(old(store.data).(lastCheck := Some(when)))
      ensures count.None? ==> available == old(available) && store.data == old(store.data)
      ensures store.disk != null && output.Err? ==> store.disk.file == old(store.disk.file)
      ensures store.disk != null && output.Ok? ==>
        store.disk.file == ChangedFile(old(store.disk.file), old(store.data), RecordCheck(when), fault)
    {
      if output.Err? { return None, false; }
      var outcome := store.Change(RecordCheck(when), fault);
      if !outcome.Saved? { return None, outcome.Crashed?; }
      available := Found(output.value, channel);
      return Some(|available|), false;
    }

    /** The reboot status; news about the marker is stored first. */
    method RebootRequired(marker: bool, listed: Option<string>, now: string, fault: Fault)
      returns (status: Option<RebootStatus>, crashed: bool)
      requires Valid()
      modifies store, store.disk
      ensures var news := RebootNews(old(store.data).reboot, marker, listed, now);
        && (status.Some? <==> news.None? || store.disk == null || fault.Healthy?)
        && (status.Some? ==> status.value.required == marker)
        && (status.Some? ==>
          status.value == if news.Some? then news.value else if marker then store.data.reboot else NO_REBOOT)
        && (crashed <==> news.Some? && store.disk != null && OutcomeOf(fault).Crashed?)
        && store.data ==
          (if news.Some? && status.Some? then TrimData(old(store.data).(reboot := news.value)) else old(store.data))
        && (store.disk != null && news.None? ==> store.disk.file == old(store.disk.file))
        && (store.disk != null && news.Some? ==>
            store.disk.file == ChangedFile(old(store.disk.file), old(store.data), SetReboot(news.value), fault))
      ensures !crashed ==> Valid()
    {
      var current := store.data.reboot;
      var outcome;
      if !marker {
        if current.required {
          outcome := store.Change(SetReboot(NO_REBOOT), fault);
          if !outcome.Saved? { return None, outcome.Crashed?; }
        }
        return Some(NO_REBOOT), false;
      }
      if current.required { return Some(current), false; }
      var noticed := RebootStatus(true, Some(MarkerReason(listed)), Some(now));
      outcome := store.Change(SetReboot(noticed), fault);
      if !outcome.Saved? { return None, outcome.Crashed?; }
      return Some(noticed), false;
    }

    /** Write a request for everything available, or answer what a request would do. */
    method RequestApply(config: Config, caller: string, dryRun: bool, localTime: Option<LocalTime>, hash: nat,
                        at: string, size: nat, modified: int, writeOk: bool)
      returns (r: Result<ApplyResponse, ApplyRefusal>)
      requires Valid()
      modifies files`request
      ensures Valid()
      ensures var id := NewRequestId(hash);
        && r == AnswerApply(available, old(files.request).Some?, PermissionsAt(config, localTime).applyPermitted,
                            dryRun, id, writeOk)
        && files.request == if r.Ok? && !dryRun
           then Some(Regular(Json(ApplyRequest(id, at, caller, Packages(available))), size, modified))
           else old(files.request)
    {
      var packages := SortDedup(Components(available));
      PackagesAreAvailable(available);
      var permitted := PermissionsAt(config, localTime).applyPermitted;
      var block := None;
      if files.request.Some? {
        block := Some(AlreadyPending);
      } else if packages == [] {
        block := Some(NothingAvailable);
      } else if !permitted {
        block := Some(OutsideWindow);
      }
      if dryRun { return Ok(ApplyResponse(true, block.None?, block, None, packages)); }
      if block.Some? { return Err(Conflict(block.value)); }
      var id := NewRequestId(hash);
      if !writeOk { return Err(Internal); }
      files.request := Some(Regular(Json(ApplyRequest(id, at, caller, packages)), size, modified));
      r := Ok(ApplyResponse(false, true, None, Some(id), packages));
    }

    /** Some entry, looked at newest first, mentions the id. */
    method IsRecorded(id: string) returns (known: bool)
      requires Valid()
      ensures known == AlreadyRecorded(store.data.history, id)
    {
      var history := store.History();
      ghost var oldest := store.data.history;
      var i := 0;
      while i < |history|
        invariant 0 <= i <= |history|
        invariant forall k :: |oldest| - i <= k < |oldest| ==> !Mentions(oldest[k], id)
      {
        if Mentions(history[i], id) {
          assert Mentions(oldest[|oldest| - 1 - i], id);
          return true;
        }
        i := i + 1;
      }
      known := false;
    }

    /** Record the result that the helper left, unless an entry mentions its id already. */
    method IngestApplyResult(channel: Channel, readable: bool, fault: Fault) returns (recorded: bool, crashed: bool)
      requires Valid()
      modifies this`available, store, store.disk
      ensures var pending := Unrecorded(files.result, readable, old(store.data).history);
        && (recorded <==> pending.Some? && (store.disk == null || fault.Healthy?))
        && (crashed <==> pending.Some? && store.disk != null && OutcomeOf(fault).Crashed?)
        && (store.disk != null && pending.None? ==> store.disk.file == old(store.disk.file))
        && (store.disk != null && pending.Some? ==>
            store.disk.file ==
              ChangedFile(old(store.disk.file), old(store.data), Edit.RecordUpdate(EntryFor(pending.value, channel)),
                          fault))
        && (recorded ==>
            && store.data == TrimData(ApplyEdit(old(store.data), Edit.RecordUpdate(EntryFor(pending.value, channel))))
            && available == if pending.value.succeeded then Remaining(old(available), pending.value.packages)
              else old(available))
      ensures recorded ==>
        && store.data.history != [] && files.result.Some? && files.result.value.Regular?
        && files.result.value.content.Json?
        && Describes(store.data.history[|store.data.history| - 1], files.result.value.content.value, channel)
      ensures !recorded ==> store.data == old(store.data) && available == old(available)
      ensures !crashed ==> Valid()
    {
      var found := ReadResult(files.result, readable);
      if found.None? { return false, false; }
      var result := found.value;
      var known := IsRecorded(result.id);
      if known { return false, false; }
      ghost var oldest := store.data.history;
      var outcome := store.RecordUpdate(EntryFor(result, channel), fault);
      recorded, crashed := outcome.Saved?, outcome.Crashed?;
      LastIsDescribed(oldest, result, channel);
      if recorded && result.succeeded {
        available := Remaining(available, result.packages);
      }
    }
  }
}
