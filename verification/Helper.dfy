/** The root helper that installs updates (`services/abora-apply/src/main.rs`): it re-checks everything, runs one
    install, writes the result, deletes the request, and only then may reboot. */
module Helper {
  import opened Prelude
  import opened Text
  import opened NameSets
  import opened UpdateTypes
  import opened AptSimulation
  import opened ApplyRules
  import opened Schedule

  /** Everything one run takes from outside: the configuration, clocks, what the commands answered (`done` is
      what an install really upgraded), and which file operations succeed. */
  datatype Environment = Environment(
    config: Option<Config>, localTime: Option<LocalTime>, started: string, finished: string,
    now: int, readable: bool, detail: string,
    simulation: Result<string, string>, installed: Result<string, string>, done: set<string>, marker: bool,
    writeOk: bool, resultSize: nat, resultModified: int, deleteOk: bool)

  /** A result, and whether to reboot after it is written. */
  datatype Outcome = Outcome(result: ApplyResult, reboot: bool)

  /** Why a run ends without an install, and the id it answers under. */
  datatype Refusal = Refusal(id: string, note: string)

  function Refuse(why: Refusal, started: string, finished: string): Outcome {
    Outcome(ApplyResult(why.id, started, finished, false, [], Some(why.note), false), false)
  }

  // ----- The decisions, one by one -----

  function ErrorText(error: RequestError): string {
    match error
    case InvalidId => "request id is not valid"
    case NoPackages => "request names no packages"
    case TooManyPackages => "request names more than 2000 packages"
    case InvalidPackage(bytes) => "request contains an invalid package name (" + Decimal(bytes) + " bytes)"
  }

  /** From the file to a valid request, or to the reason why there is none. Only a well-formed id is repeated in the
      answer. */
  function Accept(file: Option<FileEntry<ApplyRequest>>, now: int, readable: bool,
                  detail: string): (r: Result<ApplyRequest, Refusal>)
    ensures r.Ok? ==> ValidateRequest(r.value).None?
    ensures r.Err? ==> r.error.id == "invalid" || ValidRequestId(r.error.id)
  {
    if file.None? then Err(Refusal("invalid", "request refused: " + detail))
    else match ReadRegular(file.value, now, Some(MAX_REQUEST_AGE), readable)
      case Err(_) => Err(Refusal("invalid", "request refused: " + detail))
      case Ok(NotJson) => Err(Refusal("invalid", "request refused: not valid JSON"))
      case Ok(Json(request)) =>
        match ValidateRequest(request)
        case None => Ok(request)
        case Some(error) =>
          var id := if ValidRequestId(request.id) then request.id else "invalid";
          Err(Refusal(id, "request refused: " + ErrorText(error)))
  }

  const CLOSED: string :=
    "refused: updates may only be applied inside a maintenance window "
    + "([maintenance] enabled, and the local time inside a window)"
  const NOTHING_TO_DO: string := "nothing to do: none of the requested packages is upgradable any more"
  const REBOOT_WAITS: string := "a reboot is needed but policy does not allow one now"

  function NoAnswer(error: string): string { "could not check what is upgradable: " + error }

  /** The requested packages that a simulation would upgrade, in the request's order. */
  function Upgradable(request: ApplyRequest, output: string): seq<string> {
    Select(request.packages, NameSet(Names(ParseSimulation(output))), true)
  }

  function Skipped(request: ApplyRequest, output: string): seq<string> {
    Select(request.packages, NameSet(Names(ParseSimulation(output))), false)
  }

  function NameSet(names: seq<string>): set<string> { set n | n in names }

  function NothingToDo(id: string, started: string, finished: string): Outcome {
    Outcome(ApplyResult(id, started, finished, true, [], Some(NOTHING_TO_DO), false), false)
  }

  function SuccessNote(gone: seq<string>, rebootWaits: bool): Option<string> {
    var skipped := Decimal(|gone|) + " requested package(s) were no longer upgradable and were skipped";
    if gone == [] then if rebootWaits then Some(REBOOT_WAITS) else None
    else Some(if rebootWaits then skipped + "; " + REBOOT_WAITS else skipped)
  }

  /** What a run makes of the install command's answer. */
  function Conclude(id: string, todo: seq<string>, gone: seq<string>, mayReboot: bool,
                    installed: Result<string, string>, marker: bool, started: string, finished: string): Outcome {
    match installed
    case Err(e) => Refuse(Refusal(id, "apt-get failed: " + e), started, finished)
    case Ok(_) =>
      var reboot := marker && mayReboot;
      Outcome(ApplyResult(id, started, finished, true, todo, SuccessNote(gone, marker && !reboot), reboot), reboot)
  }

  // ----- One run -----

  datatype Command = Simulate | Install(todo: seq<string>) | Reboot

  /** The command line of each command. */
  function Argv(command: Command): seq<string> {
    match command
    case Simulate => ["apt-get", "-s", "-o", "Debug::NoLocking=1", "upgrade"]
    case Install(todo) => ["apt-get"] + InstallArgs(todo)
    case Reboot => ["systemctl", "reboot"]
  }

  /** The result of handling the request file, and the commands run for it. */
  datatype Processed = Processed(outcome: Option<Outcome>, commands: seq<Command>)

  function ProcessRequest(file: Option<FileEntry<ApplyRequest>>, config: Config, env: Environment): Processed {
    if file.None? then Processed(None, [])
    else match Accept(file, env.now, env.readable, env.detail)
      case Err(why) => Processed(Some(Refuse(why, env.started, env.finished)), [])
      case Ok(request) =>
        var perms := PermissionsAt(config, env.localTime);
        if !perms.applyPermitted then
          Processed(Some(Refuse(Refusal(request.id, CLOSED), env.started, env.finished)), [])
        else match env.simulation
          case Err(e) =>
            Processed(Some(Refuse(Refusal(request.id, NoAnswer(e)), env.started, env.finished)), [Simulate])
          case Ok(output) => Perform(request, output, perms.rebootPermitted, env)
  }

  /** From the simulation on. */
  function Perform(request: ApplyRequest, output: string, mayReboot: bool, env: Environment): (p: Processed)
    ensures p.outcome.Some? && p.outcome.value.reboot == p.outcome.value.result.rebootStarted
    ensures p.outcome.value.reboot <==> |p.commands| == 2 && env.installed.Ok? && env.marker && mayReboot
    ensures var todo, result := Upgradable(request, output), p.outcome.value.result;
      if todo == [] then p.commands == [Simulate] && result.packages == []
      else p.commands == [Simulate, Install(todo)] && result.succeeded == env.installed.Ok?
           && result.packages == if env.installed.Ok? then todo else []
  {
    var (todo, gone) := (Upgradable(request, output), Skipped(request, output));
    if todo == [] then Processed(Some(NothingToDo(request.id, env.started, env.finished)), [Simulate])
    else
      var outcome := Conclude(request.id, todo, gone, mayReboot, env.installed, env.marker, env.started, env.finished);
      Processed(Some(outcome), [Simulate, Install(todo)])
  }

  /** The file holds this request, can be read, and is no more than ten minutes old and one megabyte long. */
  predicate ReadInTime(file: Option<FileEntry<ApplyRequest>>, env: Environment, request: ApplyRequest) {
    && file.Some? && file.value.Regular? && file.value.content == Json(request) && env.readable
    && file.value.size <= 1024 * 1024 && env.now - file.value.modified <= 600
  }

  predicate WellFormed(request: ApplyRequest) {
    && ValidRequestId(request.id) && 0 < |request.packages| <= 2000
    && forall i :: 0 <= i < |request.packages| ==> ValidPackageName(request.packages[i])
  }

  predicate WindowOpen(config: Config, now: Option<LocalTime>) {
    now.Some? && config.maintenanceEnabled && InWindow(config.windows, now.value)
  }

  /** The request that a run acts on: in time, well formed, while a window is open and apt answers. */
  predicate ActsOn(file: Option<FileEntry<ApplyRequest>>, config: Config, env: Environment, request: ApplyRequest) {
    ReadInTime(file, env, request) && WellFormed(request) && WindowOpen(config, env.localTime) && env.simulation.Ok?
  }

  /** The decision code, for any content of the request file. */
  method Process(file: Option<FileEntry<ApplyRequest>>, config: Config, env: Environment)
    returns (outcome: Option<Outcome>, commands: seq<Command>)
    ensures Processed(outcome, commands) == ProcessRequest(file, config, env)
  {
    commands := [];
    if file.None? { return None, []; }
    var accepted := Accept(file, env.now, env.readable, env.detail);
    if accepted.Err? { return Some(Refuse(accepted.error, env.started, env.finished)), []; }
    var request := accepted.value;
    var perms := PermissionsAt(config, env.localTime);
    if !perms.applyPermitted {
      return Some(Refuse(Refusal(request.id, CLOSED), env.started, env.finished)), [];
    }
    commands := [Simulate];
    if env.simulation.Err? {
      return Some(Refuse(Refusal(request.id, NoAnswer(env.simulation.error)), env.started, env.finished)), commands;
    }
    var todo, gone := Upgradable(request, env.simulation.value), Skipped(request, env.simulation.value);
    if todo == [] {
      return Some(NothingToDo(request.id, env.started, env.finished)), commands;
    }
    commands := [Simulate, Install(todo)];
    outcome := Some(Conclude(request.id, todo, gone, perms.rebootPermitted, env.installed, env.marker, env.started,
                             env.finished));
  }

  /** Whatever the request file holds: at most one install is run, only for a request the run acts on, for exactly
      the requested names that the simulation lists, in order, all valid names after `--`. The result lists those
      when the install succeeded and nothing otherwise. */
  lemma InstallIsJustified(file: Option<FileEntry<ApplyRequest>>, config: Config, env: Environment, command: Command)
    requires command in ProcessRequest(file, config, env).commands && command != Simulate
    ensures file.Some? && file.value.Regular? && file.value.content.Json? && env.simulation.Ok?
    ensures var (p, request) := (ProcessRequest(file, config, env), file.value.content.value);
      var todo := Upgradable(request, env.simulation.value);
      && ActsOn(file, config, env, request)
      && p.commands == [Simulate, command] && command == Install(todo) && todo != []
      && (forall n :: n in todo <==> n in request.packages && n in Names(ParseSimulation(env.simulation.value)))
      && (forall i :: 0 <= i < |todo| ==> ValidPackageName(todo[i]))
      && p.outcome.Some? && p.outcome.value.result.succeeded == env.installed.Ok?
      && p.outcome.value.result.packages == if env.installed.Ok? then todo else []
  {
    var request := Accept(file, env.now, env.readable, env.detail).value;
    var p := Perform(request, env.simulation.value, PermissionsAt(config, env.localTime).rebootPermitted, env);
    assert ProcessRequest(file, config, env) == p;
    SelectedAreValid(request.packages, NameSet(Names(ParseSimulation(env.simulation.value))));
  }

  /** A file in time is accepted exactly for a well-formed request, and otherwise answered under its id if that is
      valid. */
  lemma AcceptsInTime(file: Option<FileEntry<ApplyRequest>>, env: Environment, request: ApplyRequest)
    requires ReadInTime(file, env, request)
    ensures var accepted := Accept(file, env.now, env.readable, env.detail);
      if WellFormed(request) then accepted == Ok(request)
      else accepted.Err? && accepted.error.id == if ValidRequestId(request.id) then request.id else "invalid"
  {}

  /** What a refusal reports. */
  predicate Refuses(p: Processed, id: string, env: Environment) {
    && p.outcome.Some? && !p.outcome.value.reboot
    && var r := p.outcome.value.result;
      && r.id == id && !r.succeeded && r.packages == [] && r.note.Some? && !r.rebootStarted
      && r.startedAt == env.started && r.finishedAt == env.finished
  }

  /** What becomes of every request that is read in time, up to the install: one that is not well formed is refused
      under its own id if that is valid; without an open window nothing is run; without an answer from apt nothing
      is installed. */
  lemma RefusesOtherwise(file: Option<FileEntry<ApplyRequest>>, config: Config, env: Environment, request: ApplyRequest)
    requires ReadInTime(file, env, request)
    ensures var p := ProcessRequest(file, config, env);
      && (!WellFormed(request) ==>
          p.commands == [] && Refuses(p, if ValidRequestId(request.id) then request.id else "invalid", env))
      && (WellFormed(request) && !WindowOpen(config, env.localTime) ==> p.commands == [] && Refuses(p, request.id, env))
      && (WellFormed(request) && WindowOpen(config, env.localTime) && env.simulation.Err? ==>
          p.commands == [Simulate] && Refuses(p, request.id, env))
  {
    AcceptsInTime(file, env, request);
  }

  /** What is not read in time, or is no request at all, is refused under "invalid". */
  lemma RefusesUnreadable(file: Option<FileEntry<ApplyRequest>>, config: Config, env: Environment)
    requires file.Some? && forall request :: !ReadInTime(file, env, request)
    ensures var p := ProcessRequest(file, config, env); p.commands == [] && Refuses(p, "invalid", env)
  {
    if file.value.Regular? && file.value.content.Json? {
      assert !ReadInTime(file, env, file.value.content.value);
    }
  }

  /** And the run does act on a request it should act on: it installs what the simulation lists of it, if anything, and
      reports under the request's id whether that succeeded. */
  lemma ActsWhenItShould(file: Option<FileEntry<ApplyRequest>>, config: Config, env: Environment, request: ApplyRequest)
    requires ActsOn(file, config, env, request)
    ensures var (p, todo) := (ProcessRequest(file, config, env), Upgradable(request, env.simulation.value));
      && p.outcome.Some?
      && var r := p.outcome.value.result;
        && r.id == request.id && r.startedAt == env.started && r.finishedAt == env.finished
        && p.commands == (if todo == [] then [Simulate] else [Simulate, Install(todo)])
        && (r.succeeded <==> todo == [] || env.installed.Ok?)
        && r.packages == (if env.installed.Ok? then todo else [])
        && (todo == [] || !r.succeeded ==> r.note.Some?)
  {
    AcceptsInTime(file, env, request);
    var p := Perform(request, env.simulation.value, PermissionsAt(config, env.localTime).rebootPermitted, env);
    assert ProcessRequest(file, config, env) == p;
  }

  /** A success is reported without a note exactly when it skipped nothing and no reboot had to wait. */
  lemma NotesTellWhatIsMissing(request: ApplyRequest, output: string, mayReboot: bool, env: Environment)
    requires Upgradable(request, output) != [] && env.installed.Ok?
    ensures Perform(request, output, mayReboot, env).outcome.value.result.note.None? <==>
      && (forall n :: n in request.packages ==> n in Names(ParseSimulation(output)))
      && (env.marker ==> mayReboot)
  {
    var gone := Skipped(request, output);
    if gone != [] {
      assert gone[0] in gone;
    }
  }

  /** Without an install nothing is listed as upgraded. A reboot is planned exactly after an install that
      succeeded and left the marker, unless policy never reboots, and the result says so. */
  lemma RebootIsJustified(file: Option<FileEntry<ApplyRequest>>, config: Config, env: Environment)
    ensures var p := ProcessRequest(file, config, env);
      && (p.outcome.None? <==> file.None?)
      && (p.outcome.Some? && |p.commands| < 2 ==> p.outcome.value.result.packages == [])
      && (p.outcome.Some? ==> p.outcome.value.reboot == p.outcome.value.result.rebootStarted)
      && (p.outcome.Some? && p.outcome.value.reboot ==> p.outcome.value.result.succeeded)
      && (p.outcome.Some? && p.outcome.value.reboot <==>
          |p.commands| == 2 && env.installed.Ok? && env.marker && !config.rebootPolicy.Never?)
  {}

  lemma SelectedAreValid(packages: seq<string>, keep: set<string>)
    requires forall i :: 0 <= i < |packages| ==> ValidPackageName(packages[i])
    ensures forall i :: 0 <= i < |Select(packages, keep, true)| ==> ValidPackageName(Select(packages, keep, true)[i])
  {
    var chosen := Select(packages, keep, true);
    forall i | 0 <= i < |chosen| ensures ValidPackageName(chosen[i]) {
      assert chosen[i] in chosen;
    }
  }

  /** What a whole run leaves behind. */
  datatype Effect = Effect(request: Option<FileEntry<ApplyRequest>>, result: Option<FileEntry<ApplyResult>>,
                           commands: seq<Command>)

  function ResultFile(outcome: Outcome, env: Environment): Option<FileEntry<ApplyResult>> {
    Some(Regular(Json(outcome.result), env.resultSize, env.resultModified))
  }

  function RunEffect(request: Option<FileEntry<ApplyRequest>>, result: Option<FileEntry<ApplyResult>>,
                     env: Environment): Effect {
    if env.config.None? then Effect(request, result, [])
    else
      var p := ProcessRequest(request, env.config.value, env);
      if p.outcome.None? || !env.writeOk then Effect(request, result, p.commands)
      else
        Effect(if env.deleteOk then None else request, ResultFile(p.outcome.value, env),
               p.commands + if p.outcome.value.reboot then [Reboot] else [])
  }

  function CommandLines(commands: seq<Command>): (lines: seq<seq<string>>)
    ensures |lines| == |commands| && forall i :: 0 <= i < |lines| ==> lines[i] == Argv(commands[i])
  {
    seq(|commands|, i requires 0 <= i < |commands| => Argv(commands[i]))
  }

  /** The whole program: load the configuration, process, write the result, delete the request, reboot. `lines` are
      the command lines it runs. */
  method Run(files: ApplyFiles, env: Environment) returns (commands: seq<Command>, lines: seq<seq<string>>)
    modifies files
    ensures Effect(files.request, files.result, commands) == RunEffect(old(files.request), old(files.result), env)
    ensures lines == CommandLines(commands)
  {
    if env.config.None? { return [], []; }
    var outcome: Option<Outcome>;
    outcome, commands := Process(files.request, env.config.value, env);
    lines := CommandLines(commands);
    if outcome.None? || !env.writeOk { return; }
    files.result := ResultFile(outcome.value, env);
    if env.deleteOk {
      files.request := None;
    }
    if outcome.value.reboot {
      commands := commands + [Reboot];
      lines := CommandLines(commands);
    }
  }

  /** An install command line names the planned packages, all after `--`, none of which can be taken for an option. */
  lemma InstallLineNamesPackages(todo: seq<string>)
    requires forall i :: 0 <= i < |todo| ==> ValidPackageName(todo[i])
    ensures var line := Argv(Install(todo));
      && |line| == 1 + |INSTALL_OPTIONS| + |todo| && line[0] == "apt-get" && line[|INSTALL_OPTIONS|] == "--"
      && line[1 + |INSTALL_OPTIONS|..] == todo
      && "install" in line && "--only-upgrade" in line && "--no-remove" in line && "-y" in line
      && forall i :: 1 + |INSTALL_OPTIONS| <= i < |line| ==> !("-" <= line[i])
  {
    InstallNamesExactly(todo, todo);
    var line, args := Argv(Install(todo)), InstallArgs(todo);
    assert forall i :: 1 <= i < |line| ==> line[i] == args[i - 1];
    assert line[1 + |INSTALL_OPTIONS|..] == args[|INSTALL_OPTIONS|..];
    assert line[1] == "-y" && line[2] == "--no-remove" && line[7] == "install" && line[8] == "--only-upgrade";
  }

  /** The other commands: a simulation, which changes nothing and needs no lock, and the reboot. */
  lemma OtherLines()
    ensures Argv(Simulate) == ["apt-get", "-s", "-o", "Debug::NoLocking=1", "upgrade"]
    ensures Argv(Reboot) == ["systemctl", "reboot"]
  {}

  predicate AnnouncesReboot(file: Option<FileEntry<ApplyResult>>) {
    file.Some? && file.value.Regular? && file.value.content.Json?
    && file.value.content.value.succeeded && file.value.content.value.rebootStarted
  }

  /** A run reboots last, and only with a result on disk that announces it. */
  lemma RebootFollowsResult(request: Option<FileEntry<ApplyRequest>>, result: Option<FileEntry<ApplyResult>>,
                            env: Environment)
    requires Reboot in RunEffect(request, result, env).commands
    ensures var effect := RunEffect(request, result, env);
      && effect.commands != [] && effect.commands[|effect.commands| - 1] == Reboot
      && Reboot !in effect.commands[..|effect.commands| - 1]
      && AnnouncesReboot(effect.result)
  {
    var p := ProcessRequest(request, env.config.value, env);
    if Reboot in p.commands {
      InstallIsJustified(request, env.config.value, env, Reboot);
      assert false;
    }
    RebootIsJustified(request, env.config.value, env);
    assert RunEffect(request, result, env).commands[..|p.commands|] == p.commands;
  }
}
