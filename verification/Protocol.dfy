/** The whole update protocol: the daemon, the root helper, apt, and the two files between them, as a state machine
    over single steps. The helper may crash between any two of its steps, and either process may be restarted at
    any time. */
module Protocol {
  import opened Prelude
  import opened NameSets
  import opened UpdateTypes
  import opened AptSimulation
  import opened ApplyRules
  import opened Schedule
  import opened Helper
  import opened UpdatesState
  import Store

  /** How far the current helper run has come. */
  datatype Phase =
    | Idle
    | Started(config: Config, since: string)
    | Accepted(config: Config, since: string, request: ApplyRequest)
    | Permitted(since: string, request: ApplyRequest, mayReboot: bool)
    | Planned(since: string, request: ApplyRequest, mayReboot: bool, todo: seq<string>, gone: seq<string>)
    | Finished(outcome: Outcome)
    | Written(outcome: Outcome)
    | Deleted(outcome: Outcome)

  /** What a helper run has done so far. */
  datatype Event =
    | AcceptedRequest(request: ApplyRequest)
    | PolicyOpen(config: Config, localTime: Option<LocalTime>)
    | Simulated(output: string)
    | Installed(args: seq<string>, ok: bool)
    | ResultWritten(result: ApplyResult)
    | Rebooted

  /** `runs` has the events of every helper run, `ids` and `entries` what the daemon ever recorded, and `upgradable`
      what apt would upgrade. */
  datatype World = World(
    request: Option<FileEntry<ApplyRequest>>, result: Option<FileEntry<ApplyResult>>,
    phase: Phase, runs: seq<seq<Event>>,
    upgradable: set<string>,
    store: Store.State, available: seq<AvailableUpdate>, issued: set<string>,
    ids: seq<string>, entries: seq<HistoryEntry>)

  datatype Action =
    | Advance(env: Environment)
    | HelperCrash
    | Publish(names: set<string>)
    | UpgradeElsewhere(names: set<string>)
    | ReplaceRequest(file: Option<FileEntry<ApplyRequest>>)
    | Check(channel: Channel, output: Result<string, string>, when: string, fault: Store.Fault)
    | Ask(config: Config, caller: string, localTime: Option<LocalTime>, hash: nat, at: string, size: nat, modified: int,
          writeOk: bool)
    | Ingest(channel: Channel, readable: bool, fault: Store.Fault)
    | NoteReboot(status: RebootStatus, fault: Store.Fault)
    | RestartDaemon

  // ----- The helper's steps -----

  function Log(runs: seq<seq<Event>>, event: Event): seq<seq<Event>> {
    if runs == [] then [] else runs[..|runs| - 1] + [runs[|runs| - 1] + [event]]
  }

  function Start(w: World, env: Environment): World {
    if w.request.None? || env.config.None? then w
    else w.(phase := Started(env.config.value, env.started), runs := w.runs + [[]])
  }

  function ReadStep(w: World, env: Environment): World
    requires w.phase.Started?
  {
    match Accept(w.request, env.now, env.readable, env.detail)
    case Err(why) => w.(phase := Finished(Refuse(why, w.phase.since, env.finished)))
    case Ok(request) =>
      w.(phase := Accepted(w.phase.config, w.phase.since, request), runs := Log(w.runs, AcceptedRequest(request)))
  }

  function PolicyStep(w: World, env: Environment): World
    requires w.phase.Accepted?
  {
    var perms := PermissionsAt(w.phase.config, env.localTime);
    if perms.applyPermitted then
      w.(phase := Permitted(w.phase.since, w.phase.request, perms.rebootPermitted),
         runs := Log(w.runs, PolicyOpen(w.phase.config, env.localTime)))
    else w.(phase := Finished(Refuse(Refusal(w.phase.request.id, CLOSED), w.phase.since, env.finished)))
  }

  function SimulateStep(w: World, env: Environment): World
    requires w.phase.Permitted?
  {
    var (since, request) := (w.phase.since, w.phase.request);
    match env.simulation
    case Err(e) =>
      w.(phase := Finished(Refuse(Refusal(request.id, NoAnswer(e)), since, env.finished)))
    case Ok(output) =>
      var todo := Upgradable(request, output);
      w.(phase := if todo == [] then Finished(NothingToDo(request.id, since, env.finished))
                  else Planned(since, request, w.phase.mayReboot, todo, Skipped(request, output)),
         runs := Log(w.runs, Simulated(output)))
  }

  /** What an install upgrades: all it was given that is upgradable, or some of it when it fails. One that is cut
      short is one that fails, followed by a crash. */
  function Upgrades(todo: seq<string>, upgradable: set<string>, env: Environment): set<string> {
    var all := NameSet(todo) * upgradable;
    if env.installed.Ok? then all else all * env.done
  }

  function InstallStep(w: World, env: Environment): World
    requires w.phase.Planned?
  {
    var p := w.phase;
    var done := Upgrades(p.todo, w.upgradable, env);
    w.(phase := Finished(Conclude(p.request.id, p.todo, p.gone, p.mayReboot, env.installed, env.marker, p.since,
                                  env.finished)),
       runs := Log(w.runs, Installed(InstallArgs(p.todo), env.installed.Ok?)),
       upgradable := w.upgradable - done)
  }

  function WriteStep(w: World, env: Environment): World
    requires w.phase.Finished?
  {
    if env.writeOk then
      w.(phase := Written(w.phase.outcome), result := ResultFile(w.phase.outcome, env),
         runs := Log(w.runs, ResultWritten(w.phase.outcome.result)))
    else w.(phase := Idle)
  }

  function DeleteStep(w: World, env: Environment): World
    requires w.phase.Written?
  {
    w.(phase := Deleted(w.phase.outcome), request := if env.deleteOk then None else w.request)
  }

  function RebootStep(w: World): World
    requires w.phase.Deleted?
  {
    w.(phase := Idle, runs := if w.phase.outcome.reboot then Log(w.runs, Rebooted) else w.runs)
  }

  function HelperStep(w: World, env: Environment): World {
    match w.phase
    case Idle => Start(w, env)
    case Started(_, _) => ReadStep(w, env)
    case Accepted(_, _, _) => PolicyStep(w, env)
    case Permitted(_, _, _) => SimulateStep(w, env)
    case Planned(_, _, _, _, _) => InstallStep(w, env)
    case Finished(_) => WriteStep(w, env)
    case Written(_) => DeleteStep(w, env)
    case Deleted(_) => RebootStep(w)
  }

  // ----- The daemon's steps -----

  /** A change of the store; a crash inside it restarts the daemon. */
  function Change(w: World, edit: Store.Edit, fault: Store.Fault): (next: World)
    requires Store.Consistent(w.store)
    ensures Store.Consistent(next.store)
  {
    var store := Store.Step(w.store, Store.Attempt(edit, fault));
    w.(store := store, available := if Store.OutcomeOf(fault).Crashed? then [] else w.available)
  }

  function CheckStep(w: World, channel: Channel, output: Result<string, string>, when: string,
                     fault: Store.Fault): (next: World)
    requires Store.Consistent(w.store)
    ensures Store.Consistent(next.store)
  {
    if output.Err? then w
    else
      var next := Change(w, Store.RecordCheck(when), fault);
      if fault.Healthy? then next.(available := Found(output.value, channel)) else next
  }

  /** Ids are fresh. */
  function AskStep(w: World, a: Action): World
    requires a.Ask?
  {
    var id := NewRequestId(a.hash);
    var permitted := PermissionsAt(a.config, a.localTime).applyPermitted;
    if id in w.issued || AnswerApply(w.available, w.request.Some?, permitted, false, id, a.writeOk).Err? then w
    else
      w.(issued := w.issued + {id},
         request := Some(Regular(Json(ApplyRequest(id, a.at, a.caller, Packages(w.available))), a.size, a.modified)))
  }

  function IngestStep(w: World, channel: Channel, readable: bool, fault: Store.Fault): (next: World)
    requires Store.Consistent(w.store)
    ensures Store.Consistent(next.store)
  {
    match Unrecorded(w.result, readable, w.store.data.history)
    case None => w
    case Some(result) =>
      var entry := EntryFor(result, channel);
      var next := Change(w, Store.Edit.RecordUpdate(entry), fault);
      if !Store.Commits(fault) then next
      else
        next.(ids := w.ids + [result.id], entries := w.entries + [entry],
              available := if fault.Healthy? && result.succeeded then Remaining(next.available, result.packages)
                else next.available)
  }

  function Step(w: World, a: Action): (next: World)
    requires Store.Consistent(w.store)
    ensures Store.Consistent(next.store)
  {
    match a
    case Advance(env) => HelperStep(w, env)
    case HelperCrash => w.(phase := Idle)
    case Publish(names) => w.(upgradable := w.upgradable + names)
    case UpgradeElsewhere(names) => w.(upgradable := w.upgradable - names)
    case ReplaceRequest(file) => w.(request := file)
    case Check(channel, output, when, fault) => CheckStep(w, channel, output, when, fault)
    case Ask(_, _, _, _, _, _, _, _) => AskStep(w, a)
    case Ingest(channel, readable, fault) => IngestStep(w, channel, readable, fault)
    case NoteReboot(status, fault) => Change(w, Store.SetReboot(status), fault)
    case RestartDaemon => w.(store := Store.Step(w.store, Store.Restart), available := [])
  }

  function After(w: World, actions: seq<Action>): (last: World)
    requires Store.Consistent(w.store)
    ensures Store.Consistent(last.store)
    decreases |actions|
  {
    if actions == [] then w else After(Step(w, actions[0]), actions[1..])
  }

  /** Nothing requested, nothing running; the store, and what is upgradable, may be anything. */
  predicate Initial(w: World) {
    && w.request == None && w.result == None && w.phase == Idle && w.runs == []
    && Store.Consistent(w.store) && w.available == [] && w.issued == {} && w.ids == [] && w.entries == []
  }

  // ----- An uninterrupted run is the program's run -----

  function StepsLeft(phase: Phase): nat {
    match phase
    case Idle => 0
    case Started(_, _) => 7
    case Accepted(_, _, _) => 6
    case Permitted(_, _, _) => 5
    case Planned(_, _, _, _, _) => 4
    case Finished(_) => 3
    case Written(_) => 2
    case Deleted(_) => 1
  }

  /** The helper alone, with the same answers from outside throughout. */
  function UntilIdle(w: World, env: Environment): World
    decreases StepsLeft(w.phase)
  {
    if w.phase.Idle? then w else UntilIdle(HelperStep(w, env), env)
  }

  /** The events of the current run. */
  function Current(runs: seq<seq<Event>>): seq<Event>
    requires runs != []
  {
    runs[|runs| - 1]
  }

  lemma LogAppends(runs: seq<seq<Event>>, event: Event)
    requires runs != []
    ensures |Log(runs, event)| == |runs| && Log(runs, event)[..|runs| - 1] == runs[..|runs| - 1]
    ensures Current(Log(runs, event)) == Current(runs) + [event]
  {}

  /** What is left of `w` once the run has ended with `outcome`, after it logged `events`. */
  predicate Settles(w: World, events: seq<Event>, outcome: Outcome, env: Environment, end: World) {
    && end.phase.Idle? && w.runs != []
    && end.request == (if env.writeOk && env.deleteOk then None else w.request)
    && end.result == (if env.writeOk then ResultFile(outcome, env) else w.result)
    && |end.runs| == |w.runs| && end.runs[..|w.runs| - 1] == w.runs[..|w.runs| - 1]
    && Current(end.runs) == Current(w.runs) + (events + Ending(outcome, env))
  }

  function Ending(outcome: Outcome, env: Environment): seq<Event> {
    if !env.writeOk then [] else [ResultWritten(outcome.result)] + if outcome.reboot then [Rebooted] else []
  }

  /** The last steps, from a result to nothing running. */
  lemma LastSteps(w: World, env: Environment)
    requires w.phase.Finished?
    ensures UntilIdle(w, env) ==
      if env.writeOk then RebootStep(DeleteStep(WriteStep(w, env), env)) else w.(phase := Idle)
  {
    if env.writeOk {
      var w1 := WriteStep(w, env);
      var w2 := DeleteStep(w1, env);
      assert UntilIdle(w1, env) == UntilIdle(w2, env) == UntilIdle(RebootStep(w2), env) == RebootStep(w2);
    }
  }

  lemma FromFinished(w: World, env: Environment)
    requires w.phase.Finished? && w.runs != []
    ensures Settles(w, [], w.phase.outcome, env, UntilIdle(w, env))
  {
    LastSteps(w, env);
    LogEnding(w.runs, w.phase.outcome, env);
  }

  /** What those steps log. */
  lemma LogEnding(runs: seq<seq<Event>>, outcome: Outcome, env: Environment)
    requires runs != []
    ensures var written := Log(runs, ResultWritten(outcome.result));
      var end := if !env.writeOk then runs else if outcome.reboot then Log(written, Rebooted) else written;
      && |end| == |runs| && end[..|runs| - 1] == runs[..|runs| - 1]
      && Current(end) == Current(runs) + ([] + Ending(outcome, env))
  {
    var written := Log(runs, ResultWritten(outcome.result));
    LogAppends(runs, ResultWritten(outcome.result));
    LogAppends(written, Rebooted);
    assert [] + Ending(outcome, env) == Ending(outcome, env);
  }

  /** One more event before what is left settles. */
  lemma LogThenSettle(w: World, w1: World, event: Event, events: seq<Event>, outcome: Outcome, env: Environment,
                      end: World)
    requires w.runs != [] && w1.runs == Log(w.runs, event) && w1.request == w.request && w1.result == w.result
    requires Settles(w1, events, outcome, env, end)
    ensures Settles(w, [event] + events, outcome, env, end)
  {
    LogAppends(w.runs, event);
    var ending := Ending(outcome, env);
    assert Current(w.runs) + [event] + (events + ending) == Current(w.runs) + ([event] + events + ending);
  }

  lemma FromPlanned(w: World, env: Environment)
    requires w.phase.Planned? && w.runs != []
    ensures var p := w.phase;
      Settles(w, [Installed(InstallArgs(p.todo), env.installed.Ok?)],
              Conclude(p.request.id, p.todo, p.gone, p.mayReboot, env.installed, env.marker, p.since, env.finished),
              env, UntilIdle(w, env))
  {
    var w1, event := InstallStep(w, env), Installed(InstallArgs(w.phase.todo), env.installed.Ok?);
    LogAppends(w.runs, event);
    FromFinished(w1, env);
    LogThenSettle(w, w1, event, [], w1.phase.outcome, env, UntilIdle(w, env));
  }

  function Answer(request: ApplyRequest, mayReboot: bool, env: Environment): Outcome {
    match env.simulation
    case Err(e) => Refuse(Refusal(request.id, NoAnswer(e)), env.started, env.finished)
    case Ok(output) => Perform(request, output, mayReboot, env).outcome.value
  }

  /** The events from the simulation on. */
  function AnswerEvents(request: ApplyRequest, env: Environment): seq<Event> {
    match env.simulation
    case Err(_) => []
    case Ok(output) =>
      var todo := Upgradable(request, output);
      [Simulated(output)] + if todo == [] then [] else [Installed(InstallArgs(todo), env.installed.Ok?)]
  }

  lemma FromPermitted(w: World, env: Environment)
    requires w.phase.Permitted? && w.runs != [] && w.phase.since == env.started
    ensures Settles(w, AnswerEvents(w.phase.request, env), Answer(w.phase.request, w.phase.mayReboot, env), env,
                    UntilIdle(w, env))
  {
    if env.simulation.Err? {
      FromFinished(SimulateStep(w, env), env);
    } else {
      FromSimulation(w, env);
    }
  }

  lemma FromSimulation(w: World, env: Environment)
    requires w.phase.Permitted? && w.runs != [] && w.phase.since == env.started && env.simulation.Ok?
    ensures Settles(w, AnswerEvents(w.phase.request, env), Answer(w.phase.request, w.phase.mayReboot, env), env,
                    UntilIdle(w, env))
  {
    var w1, output := SimulateStep(w, env), env.simulation.value;
    var outcome := Answer(w.phase.request, w.phase.mayReboot, env);
    LogAppends(w.runs, Simulated(output));
    if w1.phase.Planned? {
      FromPlanned(w1, env);
      LogThenSettle(w, w1, Simulated(output), [Installed(InstallArgs(w1.phase.todo), env.installed.Ok?)], outcome, env,
                    UntilIdle(w, env));
    } else {
      FromFinished(w1, env);
      LogThenSettle(w, w1, Simulated(output), [], outcome, env, UntilIdle(w, env));
    }
  }

  /** The events of a whole run before it writes its result. */
  function RunEvents(file: Option<FileEntry<ApplyRequest>>, config: Config, env: Environment): seq<Event> {
    match Accept(file, env.now, env.readable, env.detail)
    case Err(_) => []
    case Ok(request) =>
      [AcceptedRequest(request)]
      + if !PermissionsAt(config, env.localTime).applyPermitted then []
        else [PolicyOpen(config, env.localTime)] + AnswerEvents(request, env)
  }

  lemma FromAccepted(w: World, env: Environment, config: Config)
    requires w.phase.Accepted? && w.phase.config == config && w.runs != [] && w.phase.since == env.started
    ensures var (request, perms) := (w.phase.request, PermissionsAt(config, env.localTime));
      if perms.applyPermitted
      then Settles(w, [PolicyOpen(config, env.localTime)] + AnswerEvents(request, env),
                   Answer(request, perms.rebootPermitted, env), env, UntilIdle(w, env))
      else Settles(w, [], Refuse(Refusal(request.id, CLOSED), env.started, env.finished), env, UntilIdle(w, env))
  {
    var w1 := PolicyStep(w, env);
    if w1.phase.Permitted? {
      LogAppends(w.runs, PolicyOpen(config, env.localTime));
      FromPermitted(w1, env);
      LogThenSettle(w, w1, PolicyOpen(config, env.localTime), AnswerEvents(w.phase.request, env),
                    Answer(w.phase.request, w1.phase.mayReboot, env), env, UntilIdle(w, env));
    } else {
      FromFinished(w1, env);
    }
  }

  lemma FromStarted(w: World, env: Environment)
    requires w.phase.Started? && w.runs != [] && w.phase.since == env.started && w.request.Some?
    ensures Settles(w, RunEvents(w.request, w.phase.config, env),
                    ProcessRequest(w.request, w.phase.config, env).outcome.value, env, UntilIdle(w, env))
  {
    var w1 := ReadStep(w, env);
    if w1.phase.Accepted? {
      var event := AcceptedRequest(w1.phase.request);
      LogAppends(w.runs, event);
      FromAccepted(w1, env, w.phase.config);
      var later := RunEvents(w.request, w.phase.config, env)[1..];
      assert RunEvents(w.request, w.phase.config, env) == [event] + later;
      LogThenSettle(w, w1, event, later, ProcessRequest(w.request, w.phase.config, env).outcome.value, env,
                    UntilIdle(w, env));
    } else {
      FromFinished(w1, env);
    }
  }

  /** The installs that a run logs. */
  function InstallEvents(run: seq<Event>): seq<Event> {
    if run == [] then [] else IfInstalled(run[0]) + InstallEvents(run[1..])
  }

  function IfInstalled(event: Event): seq<Event> {
    if event.Installed? then [event] else []
  }

  /** What running these commands should log about installs: their arguments, and whether they succeed. */
  function Logged(commands: seq<Command>, ok: bool): seq<Event> {
    if commands == [] then [] else LoggedOne(commands[0], ok) + Logged(commands[1..], ok)
  }

  lemma {:induction false} InstallEventsAppend(a: seq<Event>, b: seq<Event>)
    ensures InstallEvents(a + b) == InstallEvents(a) + InstallEvents(b)
  {
    if a == [] {
      assert a + b == b && [] + InstallEvents(b) == InstallEvents(b);
    } else {
      InstallEventsAppend(a[1..], b);
      assert (a + b)[1..] == a[1..] + b && (a + b)[0] == a[0];
      var (x, y, z) := (IfInstalled(a[0]), InstallEvents(a[1..]), InstallEvents(b));
      assert x + (y + z) == x + y + z;
    }
  }

  function LoggedOne(command: Command, ok: bool): seq<Event> {
    if command.Install? then [Installed(InstallArgs(command.todo), ok)] else []
  }

  lemma {:induction false} LoggedAppend(a: seq<Command>, b: seq<Command>, ok: bool)
    ensures Logged(a + b, ok) == Logged(a, ok) + Logged(b, ok)
  {
    if a == [] {
      assert a + b == b && [] + Logged(b, ok) == Logged(b, ok);
    } else {
      LoggedAppend(a[1..], b, ok);
      assert (a + b)[1..] == a[1..] + b && (a + b)[0] == a[0];
      var (x, y, z) := (LoggedOne(a[0], ok), Logged(a[1..], ok), Logged(b, ok));
      assert x + (y + z) == x + y + z;
    }
  }

  lemma NotInstalls(e: Event, rest: seq<Event>)
    requires !e.Installed?
    ensures InstallEvents([e] + rest) == InstallEvents(rest)
  {
    assert ([e] + rest)[1..] == rest;
  }

  lemma AnswerInstalls(request: ApplyRequest, output: string, mayReboot: bool, env: Environment)
    requires env.simulation == Ok(output)
    ensures InstallEvents(AnswerEvents(request, env)) ==
      Logged(Perform(request, output, mayReboot, env).commands, env.installed.Ok?)
    ensures Rebooted !in AnswerEvents(request, env) && Reboot !in Perform(request, output, mayReboot, env).commands
  {
    var todo := Upgradable(request, output);
    if todo == [] {
      assert AnswerEvents(request, env) == [Simulated(output)] + [];
    } else {
      var event := Installed(InstallArgs(todo), env.installed.Ok?);
      assert AnswerEvents(request, env) == [Simulated(output)] + [event];
      assert InstallEvents([event]) == [event] + InstallEvents([]);
      assert [Simulate, Install(todo)][1..] == [Install(todo)];
      assert Logged([Install(todo)], env.installed.Ok?) == [event] + Logged([], env.installed.Ok?);
    }
    NotInstalls(Simulated(output), AnswerEvents(request, env)[1..]);
  }

  lemma EventsAreCommands(file: Option<FileEntry<ApplyRequest>>, config: Config, env: Environment)
    requires file.Some?
    ensures var (run, commands) := (RunEvents(file, config, env), ProcessRequest(file, config, env).commands);
      InstallEvents(run) == Logged(commands, env.installed.Ok?) && Rebooted !in run && Reboot !in commands
  {
    var accepted, perms := Accept(file, env.now, env.readable, env.detail), PermissionsAt(config, env.localTime);
    if accepted.Ok? {
      var later := RunEvents(file, config, env)[1..];
      assert RunEvents(file, config, env) == [AcceptedRequest(accepted.value)] + later;
      NotInstalls(AcceptedRequest(accepted.value), later);
      if perms.applyPermitted {
        AnswerEventsAreCommands(accepted.value, perms.rebootPermitted, env);
        assert later == [PolicyOpen(config, env.localTime)] + AnswerEvents(accepted.value, env);
        NotInstalls(PolicyOpen(config, env.localTime), AnswerEvents(accepted.value, env));
      }
    }
  }

  function AnswerCommands(request: ApplyRequest, mayReboot: bool, env: Environment): seq<Command> {
    match env.simulation
    case Err(_) => [Simulate]
    case Ok(output) => Perform(request, output, mayReboot, env).commands
  }

  lemma AnswerEventsAreCommands(request: ApplyRequest, mayReboot: bool, env: Environment)
    ensures InstallEvents(AnswerEvents(request, env)) ==
      Logged(AnswerCommands(request, mayReboot, env), env.installed.Ok?)
    ensures Rebooted !in AnswerEvents(request, env) && Reboot !in AnswerCommands(request, mayReboot, env)
  {
    if env.simulation.Ok? {
      AnswerInstalls(request, env.simulation.value, mayReboot, env);
    }
  }

  /** Uninterrupted, the steps are the whole program: the same result file and request file, and one more run, which
      logs an install exactly when the program runs it, and ends with a reboot exactly when the program does. */
  lemma StepsAreTheProgram(w: World, env: Environment)
    requires w.phase.Idle? && w.request.Some?
    ensures var (effect, end) := (RunEffect(w.request, w.result, env), UntilIdle(Start(w, env), env));
      && end.phase.Idle? && end.request == effect.request && end.result == effect.result
      && (env.config.None? ==> end == w && effect.commands == [])
      && (env.config.Some? ==>
        && |end.runs| == |w.runs| + 1 && end.runs[..|w.runs|] == w.runs
        && var run := Current(end.runs);
          && InstallEvents(run) == Logged(effect.commands, env.installed.Ok?)
          && (Reboot in effect.commands <==> run != [] && run[|run| - 1] == Rebooted))
  {
    if env.config.Some? {
      var w1, p := Start(w, env), ProcessRequest(w.request, env.config.value, env);
      FromStarted(w1, env);
      EventsAreCommands(w.request, env.config.value, env);
      RunIsProgram(RunEvents(w.request, env.config.value, env), p, env);
      assert Current(w1.runs) == [] && w1.runs[..|w.runs|] == w.runs;
      EffectOfRun(w.request, w.result, env);
    }
  }

  /** So an uninterrupted run over a request it should act on does act: it logs the one install of what the simulation
      lists of the request, if anything, and leaves a result under the request's id that says whether it succeeded. */
  lemma UninterruptedRunActs(w: World, env: Environment, config: Config, request: ApplyRequest)
    requires w.phase.Idle? && env.config == Some(config) && ActsOn(w.request, config, env, request)
    ensures var (todo, end) := (Upgradable(request, env.simulation.value), UntilIdle(Start(w, env), env));
      && end.runs != []
      && InstallEvents(Current(end.runs)) ==
          (if todo == [] then [] else [Installed(InstallArgs(todo), env.installed.Ok?)])
      && (env.writeOk ==>
          && (env.deleteOk ==> end.request == None)
          && end.result.Some? && end.result.value.Regular? && end.result.value.content.Json?
          && var r := end.result.value.content.value;
            && r.id == request.id && (r.succeeded <==> todo == [] || env.installed.Ok?)
            && r.packages == (if env.installed.Ok? then todo else []))
  {
    var todo, ok := Upgradable(request, env.simulation.value), env.installed.Ok?;
    var p := ProcessRequest(w.request, config, env);
    ActsWhenItShould(w.request, config, env, request);
    StepsAreTheProgram(w, env);
    EffectOfRun(w.request, w.result, env);
    LoggedAppend(p.commands, Rest(p, env), ok);
    RestInstallsNothing(p, env);
    LoggedPlan(todo, ok);
  }

  lemma LoggedPlan(todo: seq<string>, ok: bool)
    ensures Logged([Simulate], ok) == []
    ensures Logged([Simulate, Install(todo)], ok) == [Installed(InstallArgs(todo), ok)]
  {
    assert [Simulate, Install(todo)][1..] == [Install(todo)];
    assert Logged([Install(todo)], ok) == LoggedOne(Install(todo), ok) + Logged([], ok);
    assert [Simulate][1..] == [];
  }

  /** The program's effect, in terms of what processing the request gives. */
  lemma EffectOfRun(request: Option<FileEntry<ApplyRequest>>, result: Option<FileEntry<ApplyResult>>, env: Environment)
    requires request.Some? && env.config.Some?
    ensures var (effect, p) := (RunEffect(request, result, env), ProcessRequest(request, env.config.value, env));
      && p.outcome.Some? && effect.commands == p.commands + Rest(p, env)
      && effect.request == (if env.writeOk && env.deleteOk then None else request)
      && effect.result == (if env.writeOk then ResultFile(p.outcome.value, env) else result)
  {}

  lemma RunIsProgram(events: seq<Event>, p: Processed, env: Environment)
    requires p.outcome.Some? && Rebooted !in events && Reboot !in p.commands
    requires InstallEvents(events) == Logged(p.commands, env.installed.Ok?)
    ensures var (run, commands) := ([] + (events + Ending(p.outcome.value, env)), p.commands + Rest(p, env));
      && InstallEvents(run) == Logged(commands, env.installed.Ok?)
      && (Reboot in commands <==> run != [] && run[|run| - 1] == Rebooted)
  {
    var run := events + Ending(p.outcome.value, env);
    assert [] + run == run;
    RunEnds(events, p.outcome.value, env);
    RestInstallsNothing(p, env);
    LoggedAppend(p.commands, Rest(p, env), env.installed.Ok?);
  }

  function Rest(p: Processed, env: Environment): seq<Command>
    requires p.outcome.Some?
  {
    if env.writeOk && p.outcome.value.reboot then [Reboot] else []
  }

  lemma RestInstallsNothing(p: Processed, env: Environment)
    requires p.outcome.Some?
    ensures Logged(Rest(p, env), env.installed.Ok?) == []
    ensures Reboot in Rest(p, env) <==> env.writeOk && p.outcome.value.reboot
  {
    assert Logged([Reboot], env.installed.Ok?) == [] + Logged([], env.installed.Ok?);
  }

  lemma RunEnds(events: seq<Event>, outcome: Outcome, env: Environment)
    requires Rebooted !in events
    ensures var run := events + Ending(outcome, env);
      && (run != [] && run[|run| - 1] == Rebooted <==> env.writeOk && outcome.reboot)
      && InstallEvents(run) == InstallEvents(events)
  {
    var run, ending := events + Ending(outcome, env), Ending(outcome, env);
    if ending == [] && run != [] {
      assert run[|run| - 1] == events[|events| - 1];
    }
    InstallEventsAppend(events, ending);
    assert InstallEvents([Rebooted]) == [] + InstallEvents([]);
    if ending != [] {
      NotInstalls(ResultWritten(outcome.result), ending[1..]);
      assert ending == [ResultWritten(outcome.result)] + ending[1..];
    }
  }
}
