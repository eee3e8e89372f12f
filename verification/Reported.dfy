/** What history says, over every run of the protocol: every recorded entry tells truly what some helper run
    reported. */
module Reported {
  import opened Prelude
  import opened UpdateTypes
  import opened ApplyRules
  import opened Helper
  import opened UpdatesState
  import opened Protocol
  import opened Justified
  import Store

  /** Some helper run wrote this result. */
  ghost predicate WasWritten(runs: seq<seq<Event>>, result: ApplyResult) {
    exists r, k :: 0 <= r < |runs| && 0 <= k < |runs[r]| && runs[r][k] == ResultWritten(result)
  }

  /** The entry describes a result that some helper run wrote under this id. */
  ghost predicate Tells(runs: seq<seq<Event>>, entry: HistoryEntry, id: string) {
    exists result, channel :: WasWritten(runs, result) && result.id == id && Describes(entry, result, channel)
  }

  ghost predicate HoldsWritten(runs: seq<seq<Event>>, file: FileEntry<ApplyResult>) {
    file.Regular? && file.content.Json? && WasWritten(runs, file.content.value)
  }

  ghost predicate HistoryIsTrue(w: World) {
    && (w.result.Some? ==> HoldsWritten(w.runs, w.result.value))
    && |w.entries| == |w.ids| && forall i :: 0 <= i < |w.ids| ==> Tells(w.runs, w.entries[i], w.ids[i])
  }

  /** Nothing that was logged is taken back. */
  predicate Extends(runs: seq<seq<Event>>, longer: seq<seq<Event>>) {
    |runs| <= |longer| && forall r :: 0 <= r < |runs| ==> runs[r] <= longer[r]
  }

  lemma WrittenStays(runs: seq<seq<Event>>, longer: seq<seq<Event>>, result: ApplyResult)
    requires Extends(runs, longer) && WasWritten(runs, result)
    ensures WasWritten(longer, result)
  {
    var r, k :| 0 <= r < |runs| && 0 <= k < |runs[r]| && runs[r][k] == ResultWritten(result);
    assert longer[r][k] == ResultWritten(result);
  }

  lemma TellsStays(runs: seq<seq<Event>>, longer: seq<seq<Event>>, entry: HistoryEntry, id: string)
    requires Extends(runs, longer) && Tells(runs, entry, id)
    ensures Tells(longer, entry, id)
  {
    var result, channel :| WasWritten(runs, result) && result.id == id && Describes(entry, result, channel);
    WrittenStays(runs, longer, result);
  }

  lemma RunsExtend(runs: seq<seq<Event>>)
    ensures Extends(runs, runs) && Extends(runs, runs + [[]])
    ensures runs != [] ==> forall event :: Extends(runs, Log(runs, event))
  {}

  lemma EarlyExtends(w: World, env: Environment)
    requires Sound(w) && (w.phase.Idle? || w.phase.Started? || w.phase.Accepted? || w.phase.Permitted?)
    ensures Extends(w.runs, HelperStep(w, env).runs)
  {
    RunsExtend(w.runs);
  }

  lemma LateExtends(w: World, env: Environment)
    requires Sound(w) && (w.phase.Planned? || w.phase.Finished? || w.phase.Written? || w.phase.Deleted?)
    ensures Extends(w.runs, HelperStep(w, env).runs)
  {
    RunsExtend(w.runs);
  }

  lemma HelperExtends(w: World, env: Environment)
    requires Sound(w)
    ensures Extends(w.runs, HelperStep(w, env).runs)
  {
    if w.phase.Idle? || w.phase.Started? || w.phase.Accepted? || w.phase.Permitted? {
      EarlyExtends(w, env);
    } else {
      LateExtends(w, env);
    }
  }

  lemma HelperKeepsResult(w: World, env: Environment)
    requires !w.phase.Finished? || !env.writeOk
    ensures HelperStep(w, env).result == w.result
  {}

  lemma WriteLogsResult(w: World, env: Environment)
    requires w.phase.Finished? && env.writeOk && w.runs != []
    ensures WasWritten(WriteStep(w, env).runs, w.phase.outcome.result)
  {
    var runs, result := WriteStep(w, env).runs, w.phase.outcome.result;
    LogAppends(w.runs, ResultWritten(result));
    assert runs[|runs| - 1][|Current(w.runs)|] == ResultWritten(result);
  }

  lemma HelperKeepsHistoryTrue(w: World, env: Environment)
    requires Sound(w) && HistoryIsTrue(w)
    ensures HistoryIsTrue(HelperStep(w, env))
  {
    var next := HelperStep(w, env);
    HelperExtends(w, env);
    HelperKeepsEntries(w, env);
    forall i | 0 <= i < |w.ids| ensures Tells(next.runs, w.entries[i], w.ids[i]) {
      TellsStays(w.runs, next.runs, w.entries[i], w.ids[i]);
    }
    if w.phase.Finished? && env.writeOk {
      WriteLogsResult(w, env);
    } else {
      HelperKeepsResult(w, env);
      if w.result.Some? {
        WrittenStays(w.runs, next.runs, w.result.value.content.value);
      }
    }
  }

  lemma HelperKeepsEntries(w: World, env: Environment)
    ensures HelperStep(w, env).ids == w.ids && HelperStep(w, env).entries == w.entries
  {}

  lemma IngestKeepsHistoryTrue(w: World, channel: Channel, readable: bool, fault: Store.Fault)
    requires HistoryIsTrue(w) && Store.Consistent(w.store)
    ensures HistoryIsTrue(IngestStep(w, channel, readable, fault))
  {
    var found := Unrecorded(w.result, readable, w.store.data.history);
    if found.Some? {
      var (result, entry) := (found.value, EntryFor(found.value, channel));
      EntryDescribes(result, channel);
      assert Tells(w.runs, entry, result.id);
    }
  }

  lemma OthersKeepHistoryTrue(w: World, a: Action)
    requires Store.Consistent(w.store) && !a.Advance? && !a.Ingest?
    ensures var next := Step(w, a);
      next.result == w.result && next.runs == w.runs && next.ids == w.ids && next.entries == w.entries
  {}

  lemma StepKeepsHistoryTrue(w: World, a: Action)
    requires Sound(w) && HistoryIsTrue(w) && Store.Consistent(w.store)
    ensures HistoryIsTrue(Step(w, a))
  {
    if a.Advance? {
      HelperKeepsHistoryTrue(w, a.env);
    } else if a.Ingest? {
      IngestKeepsHistoryTrue(w, a.channel, a.readable, a.fault);
    } else {
      OthersKeepHistoryTrue(w, a);
    }
  }

  lemma {:induction false} RunKeepsHistoryTrue(w: World, actions: seq<Action>)
    requires Sound(w) && HistoryIsTrue(w) && Store.Consistent(w.store)
    ensures HistoryIsTrue(After(w, actions))
    decreases |actions|
  {
    if actions != [] {
      StepIsSound(w, actions[0]);
      StepKeepsHistoryTrue(w, actions[0]);
      RunKeepsHistoryTrue(Step(w, actions[0]), actions[1..]);
    }
  }

  /** Every entry ever recorded tells the time, success, number of packages, note and reboot of a result that a helper
      run wrote under the recorded id, whatever crashes or is restarted, and whatever is in the request file. */
  lemma EntriesTellResults(w: World, actions: seq<Action>, i: nat)
    requires Initial(w) && i < |After(w, actions).ids|
    ensures var last := After(w, actions);
      |last.entries| == |last.ids| && Tells(last.runs, last.entries[i], last.ids[i])
  {
    RunKeepsHistoryTrue(w, actions);
  }

  /** So an entry that says an apply succeeded comes from a run whose install succeeded, or that found nothing left to
      install; and one that says it failed comes from a run without a successful install. */
  lemma SuccessIsReal(w: World, actions: seq<Action>, i: nat) returns (r: nat, k: nat)
    requires Initial(w) && i < |After(w, actions).ids|
    ensures var last := After(w, actions);
      && |last.entries| == |last.ids| && r < |last.runs| && k < |last.runs[r]| && last.runs[r][k].ResultWritten?
      && last.runs[r][k].result.id == last.ids[i]
      && last.runs[r][k].result.succeeded == last.entries[i].succeeded
      && Reports(last.runs[r][..k], last.runs[r][k].result)
  {
    EntriesTellResults(w, actions, i);
    var last := After(w, actions);
    var result, channel :|
      WasWritten(last.runs, result) && result.id == last.ids[i] && Describes(last.entries[i], result, channel);
    r, k :| 0 <= r < |last.runs| && 0 <= k < |last.runs[r]| && last.runs[r][k] == ResultWritten(result);
    ResultsAreTruthful(w, actions, r, k);
  }
}
