/** What the helper may do, over every run of the protocol: whatever is in the request file, and whenever processes
    crash or restart. */
module Justified {
  import opened Prelude
  import opened NameSets
  import opened AptSimulation
  import opened ApplyRules
  import opened Schedule
  import opened Helper
  import opened Protocol
  import Store

  /** The result that a run with these events may report. */
  predicate Reports(before: seq<Event>, result: ApplyResult) {
    if |before| == 4 then
      && before[0].AcceptedRequest? && before[1].PolicyOpen? && before[2].Simulated? && before[3].Installed?
      && result.id == before[0].request.id && result.succeeded == before[3].ok
      && result.packages == (if before[3].ok then Upgradable(before[0].request, before[2].output) else [])
      && (result.rebootStarted ==> before[3].ok && PermissionsAt(before[1].config, before[1].localTime).rebootPermitted)
    else
      && |before| <= 3 && result.packages == [] && !result.rebootStarted
      && (before == [] ==> result.id == "invalid" || ValidRequestId(result.id))
      && (before != [] ==> before[0].AcceptedRequest? && result.id == before[0].request.id)
      && (result.succeeded ==>
        |before| == 3 && before[2].Simulated? && Upgradable(before[0].request, before[2].output) == [])
  }

  /** The earlier events of the same run that an event needs. */
  predicate Supported(before: seq<Event>, event: Event) {
    match event
    case AcceptedRequest(request) => before == [] && ValidateRequest(request).None?
    case PolicyOpen(config, localTime) =>
      |before| == 1 && before[0].AcceptedRequest? && PermissionsAt(config, localTime).applyPermitted
    case Simulated(output) => |before| == 2 && before[0].AcceptedRequest? && before[1].PolicyOpen?
    case Installed(args, ok) =>
      && |before| == 3 && before[0].AcceptedRequest? && before[1].PolicyOpen? && before[2].Simulated?
      && var todo := Upgradable(before[0].request, before[2].output); todo != [] && args == InstallArgs(todo)
    case ResultWritten(result) => Reports(before, result)
    case Rebooted => |before| == 5 && before[4].ResultWritten? && before[4].result.rebootStarted
  }

  predicate Legal(es: seq<Event>) {
    forall i :: 0 <= i < |es| ==> Supported(es[..i], es[i])
  }

  /** How the phase of the current run and its events agree. */
  predicate PhaseMatches(phase: Phase, es: seq<Event>) {
    match phase
    case Idle => true
    case Started(_, _) => es == []
    case Accepted(_, _, request) => es == [AcceptedRequest(request)]
    case Permitted(_, request, mayReboot) =>
      && |es| == 2 && es[0] == AcceptedRequest(request) && es[1].PolicyOpen?
      && mayReboot == PermissionsAt(es[1].config, es[1].localTime).rebootPermitted
    case Planned(_, request, mayReboot, todo, _) =>
      && |es| == 3 && es[0] == AcceptedRequest(request) && es[1].PolicyOpen? && es[2].Simulated?
      && mayReboot == PermissionsAt(es[1].config, es[1].localTime).rebootPermitted
      && todo == Upgradable(request, es[2].output) && todo != []
    case Finished(outcome) => Reports(es, outcome.result) && outcome.reboot == outcome.result.rebootStarted
    case Written(outcome) => Reported(es, outcome)
    case Deleted(outcome) => Reported(es, outcome)
  }

  predicate Reported(es: seq<Event>, outcome: Outcome) {
    es != [] && es[|es| - 1] == ResultWritten(outcome.result) && outcome.reboot == outcome.result.rebootStarted
  }

  predicate OnDisk(file: Option<FileEntry<ApplyResult>>, result: ApplyResult) {
    file.Some? && file.value.Regular? && file.value.content == Json(result)
  }

  predicate AllLegal(runs: seq<seq<Event>>) {
    forall r :: 0 <= r < |runs| ==> Legal(runs[r])
  }

  predicate Sound(w: World) {
    && AllLegal(w.runs)
    && (w.phase.Idle? || (w.runs != [] && PhaseMatches(w.phase, w.runs[|w.runs| - 1])))
    && (w.phase.Written? || w.phase.Deleted? ==> OnDisk(w.result, w.phase.outcome.result))
  }

  lemma LogKeepsLegal(runs: seq<seq<Event>>, event: Event)
    requires runs != [] && AllLegal(runs) && Supported(runs[|runs| - 1], event)
    ensures AllLegal(Log(runs, event)) && |Log(runs, event)| == |runs|
    ensures Log(runs, event)[|runs| - 1] == runs[|runs| - 1] + [event]
  {
    var es := runs[|runs| - 1];
    var longer := es + [event];
    forall i | 0 <= i < |longer| ensures Supported(longer[..i], longer[i]) {
      assert longer[..i] == es[..i] && (i == |es| ==> es[..i] == es);
    }
  }

  lemma StartIsSound(w: World, env: Environment)
    requires Sound(w) && w.phase.Idle?
    ensures Sound(Start(w, env))
  {
    var runs := w.runs + [[]];
    assert AllLegal(runs) && runs[|runs| - 1] == [];
  }

  lemma ReadIsSound(w: World, env: Environment)
    requires Sound(w) && w.phase.Started?
    ensures Sound(ReadStep(w, env))
  {
    var accepted := Accept(w.request, env.now, env.readable, env.detail);
    if accepted.Ok? {
      LogKeepsLegal(w.runs, AcceptedRequest(accepted.value));
    }
  }

  lemma PolicyExtends(es: seq<Event>, phase: Phase, time: Option<LocalTime>)
    requires phase.Accepted? && PhaseMatches(phase, es) && PermissionsAt(phase.config, time).applyPermitted
    ensures Supported(es, PolicyOpen(phase.config, time))
    ensures PhaseMatches(Permitted(phase.since, phase.request, PermissionsAt(phase.config, time).rebootPermitted),
                         es + [PolicyOpen(phase.config, time)])
  {}

  lemma PolicyIsSound(w: World, env: Environment)
    requires Sound(w) && w.phase.Accepted?
    ensures Sound(PolicyStep(w, env))
  {
    var (config, time) := (w.phase.config, env.localTime);
    if PermissionsAt(config, time).applyPermitted {
      PolicyExtends(w.runs[|w.runs| - 1], w.phase, time);
      LogKeepsLegal(w.runs, PolicyOpen(config, time));
    }
  }

  /** The simulation leads on to a plan, or to the report that nothing is left to do. */
  lemma SimulationExtends(es: seq<Event>, phase: Phase, output: string, finished: string)
    requires phase.Permitted? && PhaseMatches(phase, es)
    ensures Supported(es, Simulated(output))
    ensures var (longer, todo) := (es + [Simulated(output)], Upgradable(phase.request, output));
      if todo == [] then Reports(longer, NothingToDo(phase.request.id, phase.since, finished).result)
      else PhaseMatches(Planned(phase.since, phase.request, phase.mayReboot, todo, Skipped(phase.request, output)),
                        longer)
  {}

  lemma SimulateIsSound(w: World, env: Environment)
    requires Sound(w) && w.phase.Permitted?
    ensures Sound(SimulateStep(w, env))
  {
    if env.simulation.Ok? {
      SimulationExtends(w.runs[|w.runs| - 1], w.phase, env.simulation.value, env.finished);
      LogKeepsLegal(w.runs, Simulated(env.simulation.value));
    }
  }

  function Concluded(p: Phase, env: Environment): Outcome
    requires p.Planned?
  {
    Conclude(p.request.id, p.todo, p.gone, p.mayReboot, env.installed, env.marker, p.since, env.finished)
  }

  lemma InstallExtends(es: seq<Event>, phase: Phase, env: Environment)
    requires phase.Planned? && PhaseMatches(phase, es)
    ensures Supported(es, Installed(InstallArgs(phase.todo), env.installed.Ok?))
    ensures PhaseMatches(Finished(Concluded(phase, env)), es + [Installed(InstallArgs(phase.todo), env.installed.Ok?)])
  {}

  lemma InstallIsSound(w: World, env: Environment)
    requires Sound(w) && w.phase.Planned?
    ensures Sound(InstallStep(w, env))
  {
    InstallExtends(w.runs[|w.runs| - 1], w.phase, env);
    LogKeepsLegal(w.runs, Installed(InstallArgs(w.phase.todo), env.installed.Ok?));
  }

  lemma WriteExtends(es: seq<Event>, outcome: Outcome)
    requires PhaseMatches(Finished(outcome), es)
    ensures Supported(es, ResultWritten(outcome.result)) && Reported(es + [ResultWritten(outcome.result)], outcome)
  {}

  lemma WriteIsSound(w: World, env: Environment)
    requires Sound(w) && w.phase.Finished?
    ensures Sound(WriteStep(w, env))
  {
    if env.writeOk {
      var outcome := w.phase.outcome;
      WriteExtends(w.runs[|w.runs| - 1], outcome);
      LogKeepsLegal(w.runs, ResultWritten(outcome.result));
      assert WriteStep(w, env).phase == Written(outcome);
    }
  }

  lemma RebootIsSound(w: World)
    requires Sound(w) && w.phase.Deleted?
    ensures Sound(RebootStep(w))
  {
    var es := w.runs[|w.runs| - 1];
    assert Supported(es[..|es| - 1], es[|es| - 1]);
    if w.phase.outcome.reboot {
      LogKeepsLegal(w.runs, Rebooted);
    }
  }

  lemma DeleteIsSound(w: World, env: Environment)
    requires Sound(w) && w.phase.Written?
    ensures Sound(DeleteStep(w, env))
  {}

  lemma EarlyStepIsSound(w: World, env: Environment)
    requires Sound(w) && (w.phase.Idle? || w.phase.Started? || w.phase.Accepted? || w.phase.Permitted?)
    ensures Sound(HelperStep(w, env))
  {
    if w.phase.Idle? {
      StartIsSound(w, env);
    } else if w.phase.Started? {
      ReadIsSound(w, env);
    } else if w.phase.Accepted? {
      PolicyIsSound(w, env);
    } else {
      SimulateIsSound(w, env);
    }
  }

  lemma LateStepIsSound(w: World, env: Environment)
    requires Sound(w) && (w.phase.Planned? || w.phase.Finished? || w.phase.Written? || w.phase.Deleted?)
    ensures Sound(HelperStep(w, env))
  {
    if w.phase.Planned? {
      InstallIsSound(w, env);
    } else if w.phase.Finished? {
      WriteIsSound(w, env);
    } else if w.phase.Written? {
      DeleteIsSound(w, env);
    } else {
      RebootIsSound(w);
    }
  }

  lemma OthersLeaveHelperAlone(w: World, a: Action)
    requires Store.Consistent(w.store) && !a.Advance?
    ensures Step(w, a).runs == w.runs && Step(w, a).result == w.result
      && (Step(w, a).phase == w.phase || Step(w, a).phase.Idle?)
  {}

  lemma SameHelperIsSound(w: World, next: World)
    requires Sound(w) && next.runs == w.runs && next.result == w.result && (next.phase == w.phase || next.phase.Idle?)
    ensures Sound(next)
  {}

  lemma StepIsSound(w: World, a: Action)
    requires Sound(w) && Store.Consistent(w.store)
    ensures Sound(Step(w, a))
  {
    if a.Advance? {
      if w.phase.Planned? || w.phase.Finished? || w.phase.Written? || w.phase.Deleted? {
        LateStepIsSound(w, a.env);
      } else {
        EarlyStepIsSound(w, a.env);
      }
    } else {
      OthersLeaveHelperAlone(w, a);
      SameHelperIsSound(w, Step(w, a));
    }
  }

  lemma {:induction false} RunIsSound(w: World, actions: seq<Action>)
    requires Sound(w) && Store.Consistent(w.store)
    ensures Sound(After(w, actions))
    decreases |actions|
  {
    if actions != [] {
      StepIsSound(w, actions[0]);
      RunIsSound(Step(w, actions[0]), actions[1..]);
    }
  }

  // ----- What that means -----

  /** Every install ever run comes after its own run accepted a valid request, found policy open, and asked apt
      what is upgradable. It names just those requested packages that apt listed, all of them valid names, and it
      is the only install of its run. */
  lemma InstallsAreJustified(w: World, actions: seq<Action>, r: nat, i: nat)
    requires Initial(w) && r < |After(w, actions).runs| && i < |After(w, actions).runs[r]|
    requires After(w, actions).runs[r][i].Installed?
    ensures var es := After(w, actions).runs[r];
      && i == 3 && es[0].AcceptedRequest? && es[1].PolicyOpen? && es[2].Simulated?
      && WellFormed(es[0].request) && WindowOpen(es[1].config, es[1].localTime)
      && var todo := Upgradable(es[0].request, es[2].output);
        && es[3].args == InstallArgs(todo) && todo != []
        && (forall n :: n in todo <==> n in es[0].request.packages && n in Names(ParseSimulation(es[2].output)))
        && (forall k :: 0 <= k < |todo| ==> ValidPackageName(todo[k]))
        && (forall j :: 0 <= j < |es| && es[j].Installed? ==> j == 3)
  {
    RunIsSound(w, actions);
    var es := After(w, actions).runs[r];
    forall j | 0 <= j < |es| ensures Supported(es[..j], es[j]) {}
    assert Supported(es[..i], es[i]) && es[..i][0] == es[0] && es[..i][1] == es[1] && es[..i][2] == es[2];
    assert Supported(es[..0], es[0]) && Supported(es[..1], es[1]);
    SelectedAreValid(es[0].request.packages, NameSet(Names(ParseSimulation(es[2].output))));
  }

  /** Every result ever written answers the request its run accepted. It lists the packages of the run's install if
      that succeeded, and no packages otherwise; a success without an install means that none of the
      requested packages was upgradable. */
  lemma ResultsAreTruthful(w: World, actions: seq<Action>, r: nat, i: nat)
    requires Initial(w) && r < |After(w, actions).runs| && i < |After(w, actions).runs[r]|
    requires After(w, actions).runs[r][i].ResultWritten?
    ensures Reports(After(w, actions).runs[r][..i], After(w, actions).runs[r][i].result)
  {
    RunIsSound(w, actions);
    var es := After(w, actions).runs[r];
    assert Supported(es[..i], es[i]);
  }

  /** A reboot is the last thing a run does, right after a result that reports a successful install and announces
      the reboot, under a policy that permitted it. */
  lemma RebootsAreJustified(w: World, actions: seq<Action>, r: nat, i: nat)
    requires Initial(w) && r < |After(w, actions).runs| && i < |After(w, actions).runs[r]|
    requires After(w, actions).runs[r][i].Rebooted?
    ensures var es := After(w, actions).runs[r];
      && i == 5 && |es| == 6 && es[1].PolicyOpen? && es[3].Installed? && es[3].ok && es[4].ResultWritten?
      && es[4].result.succeeded && es[4].result.rebootStarted
      && !es[1].config.rebootPolicy.Never? && WindowOpen(es[1].config, es[1].localTime)
  {
    RunIsSound(w, actions);
    var es := After(w, actions).runs[r];
    assert Supported(es[..i], es[i]) && es[..i][4] == es[4];
    assert Supported(es[..4], es[4]) && es[..4][1] == es[1] && es[..4][3] == es[3];
    assert Supported(es[..1], es[1]);
    assert |es| > 6 ==> Supported(es[..6], es[6]);
  }

  lemma AnnouncedMeansSucceeded(before: seq<Event>, result: ApplyResult)
    requires Reports(before, result) && result.rebootStarted
    ensures result.succeeded
  {}

  /** When the helper is about to reboot, the result that announces it is on disk. */
  lemma RebootsWithResultOnDisk(w: World, actions: seq<Action>)
    requires Initial(w) && After(w, actions).phase.Deleted? && After(w, actions).phase.outcome.reboot
    ensures AnnouncesReboot(After(w, actions).result)
  {
    RunIsSound(w, actions);
    SoundReboot(After(w, actions));
  }

  lemma SoundReboot(w: World)
    requires Sound(w) && w.phase.Deleted? && w.phase.outcome.reboot
    ensures AnnouncesReboot(w.result)
  {
    var es := w.runs[|w.runs| - 1];
    assert Legal(es) && PhaseMatches(w.phase, es);
    assert Supported(es[..|es| - 1], es[|es| - 1]);
    AnnouncedMeansSucceeded(es[..|es| - 1], w.phase.outcome.result);
  }

  // ----- Restarts order nothing twice -----

  function Publications(actions: seq<Action>, name: string): nat {
    if actions == [] then 0
    else (if actions[0].Publish? && name in actions[0].names then 1 else 0) + Publications(actions[1..], name)
  }

  /** The install command of this step names the package, and succeeds or upgrades it although it fails. */
  predicate Installs(w: World, a: Action, name: string) {
    a.Advance? && w.phase.Planned? && name in w.phase.todo
    && (a.env.installed.Ok? || name in Protocol.Upgrades(w.phase.todo, w.upgradable, a.env))
  }

  function Installations(w: World, actions: seq<Action>, name: string): nat
    requires Store.Consistent(w.store)
    decreases |actions|
  {
    if actions == [] then 0
    else (if Installs(w, actions[0], name) then 1 else 0) + Installations(Step(w, actions[0]), actions[1..], name)
  }

  /** What apt lists when the helper asks is upgradable at that moment. */
  predicate ListsUpgradable(w: World, a: Action) {
    a.Advance? && w.phase.Permitted? && a.env.simulation.Ok? ==>
      forall n :: n in Names(ParseSimulation(a.env.simulation.value)) ==> n in w.upgradable
  }

  predicate AptIsTruthful(w: World, actions: seq<Action>)
    requires Store.Consistent(w.store)
    decreases |actions|
  {
    actions == [] || (ListsUpgradable(w, actions[0]) && AptIsTruthful(Step(w, actions[0]), actions[1..]))
  }

  /** Whether an install of `name` can still come without a new version being published. */
  predicate Open(w: World, name: string) {
    name in w.upgradable || (w.phase.Planned? && name in w.phase.todo)
  }

  function Count(b: bool): nat { if b then 1 else 0 }

  /** The helper's filter: what a simulation does not list is not planned. */
  lemma PlansOnlyListed(w: World, env: Environment, name: string)
    requires w.phase.Permitted? && ListsUpgradable(w, Advance(env))
    ensures Open(SimulateStep(w, env), name) ==> name in w.upgradable
  {}

  lemma InstallCloses(w: World, env: Environment, name: string)
    requires w.phase.Planned?
    ensures Count(Installs(w, Advance(env), name)) + Count(Open(InstallStep(w, env), name)) <= Count(Open(w, name))
  {}

  lemma StepCountsInstalls(w: World, a: Action, name: string)
    requires Store.Consistent(w.store) && ListsUpgradable(w, a)
    ensures Count(Installs(w, a, name)) + Count(Open(Step(w, a), name)) <=
      Count(Open(w, name)) + Count(a.Publish? && name in a.names)
  {
    if a.Advance? {
      if w.phase.Permitted? {
        PlansOnlyListed(w, a.env, name);
      } else if w.phase.Planned? {
        InstallCloses(w, a.env, name);
      }
    }
  }

  /** If apt lists only what is upgradable, and what it upgraded no longer is, then over every run with every crash
      and restart, and any request file, the helper installs a package at most once for each time it was published:
      handling a request again installs nothing twice. */
  lemma {:induction false} InstallsNeedPublications(w: World, actions: seq<Action>, name: string)
    requires Store.Consistent(w.store) && AptIsTruthful(w, actions)
    ensures Installations(w, actions, name) + Count(Open(After(w, actions), name)) <=
      Count(Open(w, name)) + Publications(actions, name)
    decreases |actions|
  {
    if actions != [] {
      StepCountsInstalls(w, actions[0], name);
      InstallsNeedPublications(Step(w, actions[0]), actions[1..], name);
    }
  }
}
