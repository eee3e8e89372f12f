/** What the daemon records, over every run of the protocol in which only the daemon writes the request file: each
    generated id enters the history at most once ever, although only the newest 500 entries are looked at. */
module RecordedOnce {
  import opened Prelude
  import opened NameSets
  import opened UpdateTypes
  import opened ApplyRules
  import opened Schedule
  import opened Helper
  import opened UpdatesState
  import opened Protocol
  import Store

  // ----- Ids alone -----

  /** If it was recorded, then last of all, or just before the last one, which is "invalid". */
  predicate Recent(id: string, ids: seq<string>) {
    id in ids ==>
      ids[|ids| - 1] == id || (|ids| >= 2 && ids[|ids| - 1] == INVALID && ids[|ids| - 2] == id)
  }

  /** How the waiting request's id, the id in the result file, and the ids recorded so far are related. */
  predicate InStep(request: Option<string>, result: Option<string>, ids: seq<string>) {
    && (result.None? ==> ids == [])
    && (request.Some? ==> request.value != INVALID && Recent(request.value, ids))
    && (result.Some? && result.value != INVALID ==> Recent(result.value, ids))
    && (request.Some? && result.Some? && result.value != INVALID && result != request ==> request.value !in ids)
    && (forall i, j :: 0 <= i < j < |ids| && ids[i] != INVALID ==> ids[i] != ids[j])
  }

  /** The daemon looks at no fewer than the last two ids. */
  predicate Unseen(id: string, ids: seq<string>) {
    (|ids| >= 1 ==> ids[|ids| - 1] != id) && (|ids| >= 2 ==> ids[|ids| - 2] != id)
  }

  lemma RecordingStaysInStep(request: Option<string>, id: string, ids: seq<string>)
    requires InStep(request, Some(id), ids) && Unseen(id, ids)
    ensures InStep(request, Some(id), ids + [id])
  {
    if id != INVALID {
      assert id !in ids;
    }
    if request.Some? && request.value in ids + [id] {
      assert request.value == id || request.value in ids;
    }
  }

  lemma WritingStaysInStep(request: Option<string>, result: Option<string>, ids: seq<string>, id: string)
    requires InStep(request, result, ids) && (id == INVALID || request == Some(id))
    ensures InStep(request, Some(id), ids)
  {}

  // ----- Files -----

  predicate NoForeignWrites(actions: seq<Action>) {
    forall i :: 0 <= i < |actions| ==> !actions[i].ReplaceRequest?
  }

  function RequestId(w: World): Option<string> {
    if w.request.Some? && w.request.value.Regular? && w.request.value.content.Json?
    then Some(w.request.value.content.value.id) else None
  }

  function ResultId(w: World): Option<string> {
    if w.result.Some? && w.result.value.Regular? && w.result.value.content.Json?
    then Some(w.result.value.content.value.id) else None
  }

  /** The answer the helper is about to give is for the waiting request, or for "invalid". */
  predicate AnswersRequest(phase: Phase, request: Option<string>) {
    match phase
    case Accepted(_, _, r) => request == Some(r.id)
    case Permitted(_, r, _) => request == Some(r.id)
    case Planned(_, r, _, _, _) => request == Some(r.id)
    case Finished(outcome) => outcome.result.id == INVALID || request == Some(outcome.result.id)
    case _ => true
  }

  predicate FilesKept(w: World) {
    && (w.request.Some? ==> RequestId(w).Some? && RequestId(w).value in w.issued)
    && (w.result.Some? ==> ResultId(w).Some? && (ResultId(w).value == INVALID || ResultId(w).value in w.issued))
    && (forall id :: id in w.issued ==> Generated(id))
    && (forall i :: 0 <= i < |w.ids| ==> w.ids[i] == INVALID || w.ids[i] in w.issued)
    && AnswersRequest(w.phase, RequestId(w))
  }

  predicate Tidy(w: World) {
    FilesKept(w) && InStep(RequestId(w), ResultId(w), w.ids)
  }

  lemma SameFilesStayTidy(w: World, next: World)
    requires Tidy(w) && next.request == w.request && next.result == w.result && next.ids == w.ids
      && next.issued == w.issued
    requires AnswersRequest(next.phase, RequestId(w))
    ensures Tidy(next)
  {}

  lemma ReadAnswersRequest(w: World, env: Environment)
    requires w.phase.Started?
    ensures AnswersRequest(ReadStep(w, env).phase, RequestId(w))
  {}

  lemma EarlyStepStaysTidy(w: World, env: Environment)
    requires Tidy(w)
      && (w.phase.Idle? || w.phase.Started? || w.phase.Accepted? || w.phase.Permitted? || w.phase.Planned?)
    ensures Tidy(HelperStep(w, env))
  {
    if w.phase.Started? {
      ReadAnswersRequest(w, env);
    }
    SameFilesStayTidy(w, HelperStep(w, env));
  }

  lemma WriteStaysTidy(w: World, env: Environment)
    requires Tidy(w) && w.phase.Finished?
    ensures Tidy(WriteStep(w, env))
  {
    WritingStaysInStep(RequestId(w), ResultId(w), w.ids, w.phase.outcome.result.id);
  }

  lemma DeleteStaysTidy(w: World, env: Environment)
    requires Tidy(w) && w.phase.Written?
    ensures Tidy(DeleteStep(w, env))
  {}

  lemma HelperStaysTidy(w: World, env: Environment)
    requires Tidy(w)
    ensures Tidy(HelperStep(w, env))
  {
    match w.phase
    case Finished(_) => WriteStaysTidy(w, env);
    case Written(_) => DeleteStaysTidy(w, env);
    case Deleted(_) => SameFilesStayTidy(w, RebootStep(w));
    case _ => EarlyStepStaysTidy(w, env);
  }

  lemma AskStaysTidy(w: World, a: Action)
    requires Tidy(w) && a.Ask?
    ensures Tidy(AskStep(w, a))
  {
    var next := AskStep(w, a);
    if next.request != w.request {
      var id := NewRequestId(a.hash);
      GeneratedIdIsValid(id);
      assert RequestId(next) == Some(id) && RequestId(w) == None;
      assert id !in w.ids;
    }
  }

  // ----- History -----

  /** The entry was made for this id, and looks like no other. */
  ghost predicate EntryOf(entry: HistoryEntry, id: string) {
    forall other :: Generated(other) || other == INVALID ==> (Mentions(entry, other) <==> other == id)
  }

  ghost predicate HistoryKept(w: World, initial: seq<HistoryEntry>) {
    && w.store.data.history == LastN(initial + w.entries, Store.MAX_HISTORY)
    && |w.entries| == |w.ids| && forall i :: 0 <= i < |w.ids| ==> EntryOf(w.entries[i], w.ids[i])
  }

  /** An entry among the newest 500 is in the history. */
  lemma EntryInHistory(w: World, initial: seq<HistoryEntry>, k: nat)
    requires HistoryKept(w, initial) && |w.entries| - Store.MAX_HISTORY <= k < |w.entries|
    ensures var h := w.store.data.history;
      0 <= |h| - (|w.entries| - k) < |h| && h[|h| - (|w.entries| - k)] == w.entries[k]
  {
    assert (initial + w.entries)[|initial| + k] == w.entries[k];
  }

  lemma RecentIsRecorded(w: World, initial: seq<HistoryEntry>, k: nat)
    requires HistoryKept(w, initial) && |w.ids| - Store.MAX_HISTORY <= k < |w.ids|
    requires Generated(w.ids[k]) || w.ids[k] == INVALID
    ensures AlreadyRecorded(w.store.data.history, w.ids[k])
  {
    EntryInHistory(w, initial, k);
    assert EntryOf(w.entries[k], w.ids[k]);
    assert Mentions(w.entries[k], w.ids[k]);
  }

  lemma UnrecordedIsUnseen(w: World, initial: seq<HistoryEntry>, readable: bool)
    requires FilesKept(w) && HistoryKept(w, initial)
    requires Unrecorded(w.result, readable, w.store.data.history).Some?
    ensures var result := Unrecorded(w.result, readable, w.store.data.history).value;
      ResultId(w) == Some(result.id) && Unseen(result.id, w.ids) && (result.id == INVALID || Generated(result.id))
  {
    var result := Unrecorded(w.result, readable, w.store.data.history).value;
    assert ResultId(w) == Some(result.id);
    if |w.ids| >= 1 && w.ids[|w.ids| - 1] == result.id {
      RecentIsRecorded(w, initial, |w.ids| - 1);
    }
    if |w.ids| >= 2 && w.ids[|w.ids| - 2] == result.id {
      RecentIsRecorded(w, initial, |w.ids| - 2);
    }
  }

  lemma ChangeKeepsHistory(w: World, edit: Store.Edit, fault: Store.Fault)
    requires Store.Consistent(w.store)
    ensures Change(w, edit, fault).store.data.history ==
      if edit.RecordUpdate? && Store.Commits(fault) then LastN(w.store.data.history + [edit.entry], Store.MAX_HISTORY)
      else w.store.data.history
  {
    Store.StepAppliesCommitted(w.store, Store.Attempt(edit, fault));
    assert |w.store.data.history| <= Store.MAX_HISTORY;
  }

  lemma IngestStaysTidy(w: World, initial: seq<HistoryEntry>, channel: Channel, readable: bool, fault: Store.Fault)
    requires Tidy(w) && HistoryKept(w, initial) && Store.Consistent(w.store)
    ensures Tidy(IngestStep(w, channel, readable, fault))
  {
    var found := Unrecorded(w.result, readable, w.store.data.history);
    if found.Some? && Store.Commits(fault) {
      UnrecordedIsUnseen(w, initial, readable);
      RecordingStaysInStep(RequestId(w), found.value.id, w.ids);
      var next := IngestStep(w, channel, readable, fault);
      assert RequestId(next) == RequestId(w) && ResultId(next) == ResultId(w) && next.ids == w.ids + [found.value.id];
    } else {
      SameFilesStayTidy(w, IngestStep(w, channel, readable, fault));
    }
  }

  lemma EntryIsOf(result: ApplyResult, channel: Channel)
    requires Generated(result.id) || result.id == INVALID
    ensures EntryOf(EntryFor(result, channel), result.id)
  {
    forall other | Generated(other) || other == INVALID
      ensures Mentions(EntryFor(result, channel), other) <==> other == result.id
    {
      EntryMentionsItsId(result, channel, other);
    }
  }

  lemma AppendKeepsHistory(w: World, next: World, initial: seq<HistoryEntry>, id: string, entry: HistoryEntry)
    requires HistoryKept(w, initial) && EntryOf(entry, id)
    requires next.ids == w.ids + [id] && next.entries == w.entries + [entry]
    requires next.store.data.history == LastN(w.store.data.history + [entry], Store.MAX_HISTORY)
    ensures HistoryKept(next, initial)
  {
    LastNAppend(initial + w.entries, [entry], Store.MAX_HISTORY);
    assert initial + w.entries + [entry] == initial + (w.entries + [entry]);
  }

  lemma SameHistoryIsKept(w: World, next: World, initial: seq<HistoryEntry>)
    requires HistoryKept(w, initial) && next.ids == w.ids && next.entries == w.entries
    requires next.store.data.history == w.store.data.history
    ensures HistoryKept(next, initial)
  {}

  lemma IngestKeepsHistory(w: World, initial: seq<HistoryEntry>, channel: Channel, readable: bool, fault: Store.Fault)
    requires FilesKept(w) && HistoryKept(w, initial) && Store.Consistent(w.store)
    ensures HistoryKept(IngestStep(w, channel, readable, fault), initial)
  {
    var next := IngestStep(w, channel, readable, fault);
    var found := Unrecorded(w.result, readable, w.store.data.history);
    if found.Some? {
      var entry := EntryFor(found.value, channel);
      ChangeKeepsHistory(w, Store.Edit.RecordUpdate(entry), fault);
      if Store.Commits(fault) {
        UnrecordedIsUnseen(w, initial, readable);
        EntryIsOf(found.value, channel);
        AppendKeepsHistory(w, next, initial, found.value.id, entry);
      } else {
        SameHistoryIsKept(w, next, initial);
      }
    }
  }

  // ----- Every run -----

  lemma OthersLeaveFiles(w: World, a: Action)
    requires Store.Consistent(w.store) && !a.Advance? && !a.Ask? && !a.Ingest? && !a.ReplaceRequest?
    ensures var next := Step(w, a);
      && next.request == w.request && next.result == w.result && next.ids == w.ids && next.issued == w.issued
      && (next.phase == w.phase || next.phase.Idle?)
  {}

  lemma StepStaysTidy(w: World, initial: seq<HistoryEntry>, a: Action)
    requires Tidy(w) && HistoryKept(w, initial) && Store.Consistent(w.store) && !a.ReplaceRequest?
    ensures Tidy(Step(w, a))
  {
    if a.Advance? {
      HelperStaysTidy(w, a.env);
    } else if a.Ask? {
      AskStaysTidy(w, a);
    } else if a.Ingest? {
      IngestStaysTidy(w, initial, a.channel, a.readable, a.fault);
    } else {
      OthersLeaveFiles(w, a);
      SameFilesStayTidy(w, Step(w, a));
    }
  }

  lemma OthersKeepHistory(w: World, a: Action)
    requires Store.Consistent(w.store) && !a.Ingest?
    ensures Step(w, a).store.data.history == w.store.data.history && Step(w, a).ids == w.ids
      && Step(w, a).entries == w.entries
  {
    if a.Check? {
      ChangeKeepsHistory(w, Store.RecordCheck(a.when), a.fault);
    } else if a.NoteReboot? {
      ChangeKeepsHistory(w, Store.SetReboot(a.status), a.fault);
    } else if a.RestartDaemon? {
      Store.StepAppliesCommitted(w.store, Store.Restart);
    }
  }

  lemma StepKeepsHistory(w: World, initial: seq<HistoryEntry>, a: Action)
    requires FilesKept(w) && HistoryKept(w, initial) && Store.Consistent(w.store)
    ensures HistoryKept(Step(w, a), initial)
  {
    if a.Ingest? {
      IngestKeepsHistory(w, initial, a.channel, a.readable, a.fault);
    } else {
      OthersKeepHistory(w, a);
      SameHistoryIsKept(w, Step(w, a), initial);
    }
  }

  lemma {:induction false} RunKeepsAll(w: World, initial: seq<HistoryEntry>, actions: seq<Action>)
    requires Tidy(w) && HistoryKept(w, initial) && Store.Consistent(w.store) && NoForeignWrites(actions)
    ensures Tidy(After(w, actions)) && HistoryKept(After(w, actions), initial)
    decreases |actions|
  {
    if actions != [] {
      StepStaysTidy(w, initial, actions[0]);
      StepKeepsHistory(w, initial, actions[0]);
      RunKeepsAll(Step(w, actions[0]), initial, actions[1..]);
    }
  }

  lemma InitiallyKept(w: World)
    requires Initial(w)
    ensures Tidy(w) && HistoryKept(w, w.store.data.history)
  {
    assert w.store.data.history + w.entries == w.store.data.history;
  }

  /** Whatever crashes, fails or is restarted, and however often the helper handles the same request again: the
      daemon records each id it ever generated at most once. History is the newest 500 of the initial entries and
      all those recorded, and each of these mentions its own id and no other. */
  lemma RecordedAtMostOnce(w: World, actions: seq<Action>)
    requires Initial(w) && NoForeignWrites(actions)
    ensures var last := After(w, actions);
      && last.store.data.history == LastN(w.store.data.history + last.entries, Store.MAX_HISTORY)
      && |last.entries| == |last.ids| && (forall i :: 0 <= i < |last.ids| ==> EntryOf(last.entries[i], last.ids[i]))
      && (forall i, j :: 0 <= i < j < |last.ids| && Generated(last.ids[i]) ==> last.ids[i] != last.ids[j])
      && (forall i :: 0 <= i < |last.ids| ==> last.ids[i] == INVALID || last.ids[i] in last.issued)
  {
    InitiallyKept(w);
    RunKeepsAll(w, w.store.data.history, actions);
    assert !Generated(INVALID);
  }

  /** So no two entries that the daemon ever recorded mention the same generated id. */
  lemma NoTwoEntriesForOneId(w: World, actions: seq<Action>, id: string, i: nat, j: nat)
    requires Initial(w) && NoForeignWrites(actions) && Generated(id) && i < j < |After(w, actions).entries|
    ensures !(Mentions(After(w, actions).entries[i], id) && Mentions(After(w, actions).entries[j], id))
  {
    RecordedAtMostOnce(w, actions);
    var last := After(w, actions);
    assert EntryOf(last.entries[i], last.ids[i]) && EntryOf(last.entries[j], last.ids[j]);
  }

  /** The initial entries that `recorded` newer ones leave in the history. */
  function StillKept(initial: seq<HistoryEntry>, recorded: nat): seq<HistoryEntry> {
    LastN(initial, if recorded < Store.MAX_HISTORY then Store.MAX_HISTORY - recorded else 0)
  }

  /** And nothing is suppressed by mistake: the result in the file is up for recording exactly when its id is not among
      the last 500 recorded, which for a generated id means that it was never recorded, and no entry from before the
      run that is still in the history looks like one for it. */
  lemma IngestIsExact(w: World, actions: seq<Action>, readable: bool)
    requires Initial(w) && NoForeignWrites(actions)
    requires ReadResult(After(w, actions).result, readable).Some?
    ensures var last := After(w, actions);
      var id := ReadResult(last.result, readable).value.id;
      && (Unrecorded(last.result, readable, last.store.data.history).Some? <==>
          id !in LastN(last.ids, Store.MAX_HISTORY)
            && !AlreadyRecorded(StillKept(w.store.data.history, |last.entries|), id))
      && (id != INVALID ==> Generated(id) && (id in last.ids <==> id in LastN(last.ids, Store.MAX_HISTORY)))
  {
    InitiallyKept(w);
    RunKeepsAll(w, w.store.data.history, actions);
    var last := After(w, actions);
    var id := ReadResult(last.result, readable).value.id;
    HistoryMatchesIds(last, w.store.data.history, id);
    if id in last.ids && id != INVALID {
      RecentIsLast(last.ids, id);
    }
  }

  lemma RecentIsLast(ids: seq<string>, id: string)
    requires id in ids && Recent(id, ids)
    ensures id in LastN(ids, Store.MAX_HISTORY)
  {
    LastHasPosition(ids, Store.MAX_HISTORY, if ids[|ids| - 1] == id then |ids| - 1 else |ids| - 2);
  }

  /** In particular a second refusal under "invalid" leaves no entry while the first is among the last 500. */
  lemma LaterRefusalsLeaveNoEntry(w: World, actions: seq<Action>, env: Environment, channel: Channel, readable: bool,
                                  fault: Store.Fault)
    requires Initial(w) && NoForeignWrites(actions) && env.writeOk
    requires After(w, actions).phase.Finished? && After(w, actions).phase.outcome.result.id == INVALID
    requires INVALID in LastN(After(w, actions).ids, Store.MAX_HISTORY)
    ensures var written := WriteStep(After(w, actions), env);
      OnFile(written, After(w, actions).phase.outcome.result)
        && IngestStep(written, channel, readable, fault) == written
  {
    InitiallyKept(w);
    RunKeepsAll(w, w.store.data.history, actions);
    HistoryMatchesIds(After(w, actions), w.store.data.history, INVALID);
  }

  predicate OnFile(w: World, result: ApplyResult) {
    w.result.Some? && w.result.value.Regular? && w.result.value.content == Json(result)
  }

  lemma HistoryMatchesIds(w: World, initial: seq<HistoryEntry>, id: string)
    requires HistoryKept(w, initial) && (Generated(id) || id == INVALID)
    ensures AlreadyRecorded(w.store.data.history, id) <==>
      id in LastN(w.ids, Store.MAX_HISTORY) || AlreadyRecorded(StillKept(initial, |w.entries|), id)
  {
    var kept, new_ := StillKept(initial, |w.entries|), LastN(w.entries, Store.MAX_HISTORY);
    HistorySplits(initial, w.entries, Store.MAX_HISTORY);
    AppendRecorded(kept, new_, id);
    if id in LastN(w.ids, Store.MAX_HISTORY) {
      var k := PositionInLast(w.ids, Store.MAX_HISTORY, id);
      RecentIsRecorded(w, initial, k);
    }
    if AlreadyRecorded(new_, id) {
      var i :| 0 <= i < |new_| && Mentions(new_[i], id);
      var k := |w.entries| - |new_| + i;
      assert w.entries[k] == new_[i] && EntryOf(w.entries[k], w.ids[k]);
      LastHasPosition(w.ids, Store.MAX_HISTORY, k);
    }
  }

  lemma HistorySplits(initial: seq<HistoryEntry>, entries: seq<HistoryEntry>, n: nat)
    ensures LastN(initial + entries, n) ==
      LastN(initial, if |entries| < n then n - |entries| else 0) + LastN(entries, n)
  {}

  lemma AppendRecorded(a: seq<HistoryEntry>, b: seq<HistoryEntry>, id: string)
    ensures AlreadyRecorded(a + b, id) <==> AlreadyRecorded(a, id) || AlreadyRecorded(b, id)
  {
    if i :| 0 <= i < |a| && Mentions(a[i], id) {
      assert Mentions((a + b)[i], id);
    }
    if i :| 0 <= i < |b| && Mentions(b[i], id) {
      assert Mentions((a + b)[|a| + i], id);
    }
  }

  lemma PositionInLast(ids: seq<string>, n: nat, id: string) returns (k: nat)
    requires id in LastN(ids, n)
    ensures |ids| - n <= k < |ids| && ids[k] == id
  {
    var recent := LastN(ids, n);
    var at :| 0 <= at < |recent| && recent[at] == id;
    k := |ids| - |recent| + at;
  }

  lemma LastHasPosition(ids: seq<string>, n: nat, k: nat)
    requires |ids| - n <= k < |ids|
    ensures ids[k] in LastN(ids, n)
  {
    var recent := LastN(ids, n);
    assert recent[k - (|ids| - |recent|)] == ids[k];
  }

  // ----- Requests -----

  lemma StepKeepsNames(w: World, a: Action)
    requires ValidNames(w.available) && Store.Consistent(w.store)
    ensures ValidNames(Step(w, a).available)
  {}

  lemma {:induction false} RunKeepsNames(w: World, actions: seq<Action>)
    requires ValidNames(w.available) && Store.Consistent(w.store)
    ensures ValidNames(After(w, actions).available)
    decreases |actions|
  {
    if actions != [] {
      StepKeepsNames(w, actions[0]);
      RunKeepsNames(Step(w, actions[0]), actions[1..]);
    }
  }

  /** A request is written exactly when its id is new, none waits, something is available, and an apply is permitted at
      that time. */
  lemma RequestsAreWrittenWhenAllowed(w: World, a: Action)
    requires a.Ask? && Store.Consistent(w.store)
    ensures Step(w, a).request != w.request <==>
      && NewRequestId(a.hash) !in w.issued && w.request == None && w.available != [] && a.writeOk
      && WindowOpen(a.config, a.localTime)
  {
    var permitted := PermissionsAt(a.config, a.localTime).applyPermitted;
    WritesExactlyWhenAllowed(w.available, w.request.Some?, permitted, NewRequestId(a.hash), a.writeOk);
  }

  /** In every reachable state, a request the daemon writes is sorted without duplicates, names exactly the
      available components, and passes the helper's validation if and only if it names at most 2000. */
  lemma RequestsAreWellFormed(w: World, actions: seq<Action>, a: Action)
    requires Initial(w) && a.Ask? && Step(After(w, actions), a).request != After(w, actions).request
    ensures var (before, after) := (After(w, actions), Step(After(w, actions), a));
      && after.request.Some? && after.request.value.Regular? && after.request.value.content.Json?
      && var request := after.request.value.content.value;
        && StrictlySorted(request.packages) && Generated(request.id)
        && (forall n :: n in request.packages <==>
          exists i :: 0 <= i < |before.available| && before.available[i].component == n)
        && (ValidateRequest(request).None? <==> |request.packages| <= 2000)
        && (|before.available| <= 2000 ==> ValidateRequest(request).None?)
  {
    RunKeepsNames(w, actions);
    var before := After(w, actions);
    PackagesAreAvailable(before.available);
    RequestPassesValidation(before.available, NewRequestId(a.hash), a.at, a.caller);
  }
}
