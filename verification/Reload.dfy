/** The file watcher and configuration reload (`services/aborad/src/main.rs`, `services/aborad/src/reload.rs`): files
    are fingerprinted first and loaded afterwards, and may change at any moment in between. */
module Reload {
  import opened Prelude

  /** What a watched file's metadata says: modification time and length. */
  datatype Fingerprint = Fingerprint(modified: int, length: nat)

  datatype Settings = Settings(tokenFile: Option<string>, others: string)

  type Tokens = seq<string>

  // ----- The watcher -----

  /** The running configuration and tokens, and the fingerprints last seen. */
  datatype Watch = Watch(config: Settings, tokens: Option<Tokens>, configSeen: Option<Fingerprint>,
                         tokenSeen: Option<Fingerprint>)

  predicate Changed(s: Watch, configNow: Option<Fingerprint>, tokenNow: Option<Fingerprint>) {
    configNow != s.configSeen || tokenNow != s.tokenSeen
  }

  /** Tokens after a reload: dropped when the configuration names no file; otherwise what the file holds, if it
      loads. */
  function RefreshedTokens(s: Watch, loaded: Option<Tokens>): Watch {
    s.(tokens := if s.config.tokenFile.None? then None else if loaded.Some? then loaded else s.tokens)
  }

  /** Remember what was seen before loading; keep the old fingerprint where a file had none. */
  function Settled(s: Watch, configNow: Option<Fingerprint>, tokenNow: Option<Fingerprint>): Watch {
    s.(configSeen := if configNow.Some? then configNow else s.configSeen,
       tokenSeen := if tokenNow.Some? then tokenNow else s.tokenSeen)
  }

  function LoadFrom(files: map<string, Tokens>, path: Option<string>): Option<Tokens> {
    if path.Some? && path.value in files then Some(files[path.value]) else None
  }

  /** A reload: nothing without a configuration that loads, and no tokens either. */
  function Reloaded(s: Watch, loaded: Option<Settings>, files: map<string, Tokens>): Watch {
    if loaded.None? then s
    else RefreshedTokens(s.(config := loaded.value), LoadFrom(files, loaded.value.tokenFile))
  }

  function Ticked(s: Watch, configNow: Option<Fingerprint>, tokenNow: Option<Fingerprint>, loaded: Option<Settings>,
                  files: map<string, Tokens>): Watch {
    Settled(if Changed(s, configNow, tokenNow) then Reloaded(s, loaded, files) else s, configNow, tokenNow)
  }

  class Watcher {
    /** Whether the configuration came from a file, or is built in. */
    const hasFile: bool
    var config: Settings
    var tokens: Option<Tokens>
    var configSeen: Option<Fingerprint>
    var tokenSeen: Option<Fingerprint>

    function State(): Watch
      reads this
    {
      Watch(config, tokens, configSeen, tokenSeen)
    }

    constructor (hasFile: bool, config: Settings, tokens: Option<Tokens>, configNow: Option<Fingerprint>,
                 tokenNow: Option<Fingerprint>)
      ensures this.hasFile == hasFile && State() == Watch(config, tokens, if hasFile then configNow else None, tokenNow)
    {
      this.hasFile, this.config, this.tokens := hasFile, config, tokens;
      configSeen, tokenSeen := if hasFile then configNow else None, tokenNow;
    }

    method RefreshTokens(files: map<string, Tokens>)
      modifies this`tokens
      ensures State() == RefreshedTokens(old(State()), LoadFrom(files, config.tokenFile))
    {
      if config.tokenFile.None? {
        if tokens.Some? {
          tokens := None;
        }
        return;
      }
      if config.tokenFile.value in files {
        tokens := Some(files[config.tokenFile.value]);
      }
    }

    method Reload(loaded: Option<Settings>, files: map<string, Tokens>)
      modifies this`config, this`tokens
      ensures State() == if hasFile then Reloaded(old(State()), loaded, files) else old(State())
    {
      if !hasFile || loaded.None? { return; }
      config := loaded.value;
      RefreshTokens(files);
    }

    /** One tick of the watch: the fingerprints, then what the files load as. */
    method Tick(configStat: Option<Fingerprint>, tokenNow: Option<Fingerprint>, loaded: Option<Settings>,
                files: map<string, Tokens>)
      modifies this
      ensures hasFile ==> State() == Ticked(old(State()), configStat, tokenNow, loaded, files)
      ensures !hasFile ==> State() == Settled(old(State()), None, tokenNow)
    {
      var configNow := if hasFile then configStat else None;
      var configChanged := configNow != configSeen;
      var tokenChanged := tokenNow != tokenSeen;
      if configChanged || tokenChanged {
        Reload(loaded, files);
      }
      configSeen := if configNow.Some? then configNow else configSeen;
      tokenSeen := if tokenNow.Some? then tokenNow else tokenSeen;
    }
  }

  // ----- Files that change meanwhile -----

  /** A file's fingerprint, and what it loads and validates as, if it does. */
  datatype File<+T> = File(stamp: Fingerprint, content: Option<T>)

  /** Between ticks; after taking the fingerprints; after loading the configuration. */
  datatype Moment =
    | Waiting
    | Fingerprinted(configNow: Option<Fingerprint>, tokenNow: Option<Fingerprint>)
    | ConfigLoaded(configNow: Option<Fingerprint>, tokenNow: Option<Fingerprint>)

  /** `used` has every fingerprint a watched file ever had, `validated` every configuration that ever passed. */
  datatype World = World(file: Option<File<Settings>>, tokenFiles: map<string, File<Tokens>>, used: set<Fingerprint>,
                         validated: set<Settings>, s: Watch, moment: Moment)

  datatype Action =
    | EditConfig(file: Option<File<Settings>>)
    | EditTokens(path: string, tokens: Option<File<Tokens>>)
    | TakeFingerprints(configOk: bool, tokenOk: bool)
    | LoadConfig(readOk: bool)
    | LoadTokens(tokensOk: bool)

  function ConfigStamp(w: World): Option<Fingerprint> {
    if w.file.Some? then Some(w.file.value.stamp) else None
  }

  function TokenStamp(w: World): Option<Fingerprint> {
    var path := w.s.config.tokenFile;
    if path.Some? && path.value in w.tokenFiles then Some(w.tokenFiles[path.value].stamp) else None
  }

  function ConfigContent(w: World): Option<Settings> {
    if w.file.Some? then w.file.value.content else None
  }

  function TokenContent(w: World): Option<Tokens> {
    var path := w.s.config.tokenFile;
    if path.Some? && path.value in w.tokenFiles then w.tokenFiles[path.value].content else None
  }

  function When<T>(ok: bool, value: Option<T>): Option<T> { if ok then value else None }

  /** A write gives a file a fingerprint that no watched file had before. */
  function Step(w: World, a: Action): World {
    match a
    case EditConfig(None) => w.(file := None)
    case EditConfig(Some(file)) =>
      if file.stamp in w.used then w
      else
        w.(file := Some(file), used := w.used + {file.stamp},
           validated := w.validated + if file.content.Some? then {file.content.value} else {})
    case EditTokens(path, None) => w.(tokenFiles := w.tokenFiles - {path})
    case EditTokens(path, Some(file)) =>
      if file.stamp in w.used then w
      else w.(tokenFiles := w.tokenFiles[path := file], used := w.used + {file.stamp})
    case TakeFingerprints(configOk, tokenOk) =>
      if !w.moment.Waiting? then w
      else w.(moment := Fingerprinted(When(configOk, ConfigStamp(w)), When(tokenOk, TokenStamp(w))))
    case LoadConfig(readOk) =>
      if !w.moment.Fingerprinted? then w
      else
        var (configNow, tokenNow) := (w.moment.configNow, w.moment.tokenNow);
        var loaded := When(readOk, ConfigContent(w));
        if Changed(w.s, configNow, tokenNow) && loaded.Some? then
          w.(s := w.s.(config := loaded.value), moment := ConfigLoaded(configNow, tokenNow))
        else w.(s := Settled(w.s, configNow, tokenNow), moment := Waiting)
    case LoadTokens(tokensOk) =>
      if !w.moment.ConfigLoaded? then w
      else
        var refreshed := RefreshedTokens(w.s, When(tokensOk, TokenContent(w)));
        w.(s := Settled(refreshed, w.moment.configNow, w.moment.tokenNow), moment := Waiting)
  }

  function After(w: World, actions: seq<Action>): World
    decreases |actions|
  {
    if actions == [] then w else After(Step(w, actions[0]), actions[1..])
  }

  /** The token files that load. */
  function Loadable(tokenFiles: map<string, File<Tokens>>): map<string, Tokens> {
    map p | p in tokenFiles && tokenFiles[p].content.Some? :: tokenFiles[p].content.value
  }

  function UndisturbedTick(configOk: bool, tokenOk: bool, readOk: bool, tokensOk: bool): seq<Action> {
    [TakeFingerprints(configOk, tokenOk), LoadConfig(readOk), LoadTokens(tokensOk)]
  }

  /** When no file changes meanwhile, the three steps are one tick of the watcher. */
  lemma StepsAreTick(w: World, configOk: bool, tokenOk: bool, readOk: bool, tokensOk: bool)
    requires w.moment.Waiting?
    ensures After(w, UndisturbedTick(configOk, tokenOk, readOk, tokensOk)) ==
      w.(s := Ticked(w.s, When(configOk, ConfigStamp(w)), When(tokenOk, TokenStamp(w)), When(readOk, ConfigContent(w)),
                     if tokensOk then Loadable(w.tokenFiles) else map[]))
  {
    var (a, b, c) := (TakeFingerprints(configOk, tokenOk), LoadConfig(readOk), LoadTokens(tokensOk));
    ThreeSteps(w, a, b, c);
    LoadingIsTick(Step(w, a), readOk, tokensOk);
  }

  lemma ThreeSteps(w: World, a: Action, b: Action, c: Action)
    ensures After(w, [a, b, c]) == Step(Step(Step(w, a), b), c)
  {
    var (w1, w2) := (Step(w, a), Step(Step(w, a), b));
    assert [a, b, c][1..] == [b, c] && [b, c][1..] == [c] && [c][1..] == [];
    assert After(w, [a, b, c]) == After(w1, [b, c]) == After(w2, [c]) == After(Step(w2, c), []);
  }

  /** From the fingerprints on. */
  lemma LoadingIsTick(w: World, readOk: bool, tokensOk: bool)
    requires w.moment.Fingerprinted?
    ensures Step(Step(w, LoadConfig(readOk)), LoadTokens(tokensOk)) ==
      w.(moment := Waiting,
         s := Ticked(w.s, w.moment.configNow, w.moment.tokenNow, When(readOk, ConfigContent(w)),
                     if tokensOk then Loadable(w.tokenFiles) else map[]))
  {}

  // ----- No edit is lost -----

  predicate InSync(seen: Option<Fingerprint>, file: Option<File<Settings>>, config: Settings) {
    file.Some? && seen == Some(file.value.stamp) && file.value.content.Some? ==> config == file.value.content.value
  }

  predicate Used(stamp: Option<Fingerprint>, used: set<Fingerprint>) {
    stamp.Some? ==> stamp.value in used
  }

  /** Remembered fingerprints are of files that existed, and the running configuration was validated. */
  predicate Sane(w: World) {
    && Used(w.s.configSeen, w.used) && Used(w.s.tokenSeen, w.used) && Used(ConfigStamp(w), w.used)
    && (forall p :: p in w.tokenFiles ==> w.tokenFiles[p].stamp in w.used)
    && (!w.moment.Waiting? ==> Used(w.moment.configNow, w.used) && Used(w.moment.tokenNow, w.used))
    && w.s.config in w.validated && (ConfigContent(w).Some? ==> ConfigContent(w).value in w.validated)
  }

  predicate ConfigInSync(w: World) {
    && InSync(w.s.configSeen, w.file, w.s.config)
    && (w.moment.ConfigLoaded? ==> InSync(w.moment.configNow, w.file, w.s.config))
  }

  /** Seeded with no edit since the configuration and the tokens were loaded at startup. */
  predicate Initial(w: World) {
    && Sane(w) && w.moment.Waiting?
    && w.s.configSeen == ConfigStamp(w) && w.s.tokenSeen == TokenStamp(w)
    && ConfigContent(w) == Some(w.s.config)
      && (w.s.config.tokenFile.Some? ==> w.s.tokens.Some? && TokenContent(w) == w.s.tokens)
  }

  lemma EditKeepsSane(w: World, a: Action)
    requires Sane(w) && IsEdit(a)
    ensures Sane(Step(w, a))
  {}

  lemma WatcherKeepsSane(w: World, a: Action)
    requires Sane(w) && !IsEdit(a)
    ensures Sane(Step(w, a))
  {}

  lemma StepKeepsSane(w: World, a: Action)
    requires Sane(w)
    ensures Sane(Step(w, a))
  {
    if IsEdit(a) {
      EditKeepsSane(w, a);
    } else {
      WatcherKeepsSane(w, a);
    }
  }

  /** A load does not fail just when the file that was fingerprinted is still there, valid, and has something new. */
  predicate Harmless(w: World, a: Action) {
    a.LoadConfig? && w.moment.Fingerprinted? ==>
      || a.readOk || ConfigContent(w).None? || w.moment.configNow != ConfigStamp(w)
      || w.s.config == ConfigContent(w).value
  }

  /** A step keeps the watcher in step exactly when it is harmless. */
  lemma StepKeepsConfig(w: World, a: Action)
    requires Sane(w) && ConfigInSync(w)
    ensures ConfigInSync(Step(w, a)) <==> Harmless(w, a)
  {}

  predicate FailuresAreHarmless(w: World, actions: seq<Action>)
    decreases |actions|
  {
    actions == [] || (Harmless(w, actions[0]) && FailuresAreHarmless(Step(w, actions[0]), actions[1..]))
  }

  lemma {:induction false} RunIsSane(w: World, actions: seq<Action>)
    requires Sane(w)
    ensures Sane(After(w, actions))
    decreases |actions|
  {
    if actions != [] {
      StepKeepsSane(w, actions[0]);
      RunIsSane(Step(w, actions[0]), actions[1..]);
    }
  }

  lemma {:induction false} RunKeepsConfig(w: World, actions: seq<Action>)
    requires Sane(w) && ConfigInSync(w) && FailuresAreHarmless(w, actions)
    ensures Sane(After(w, actions)) && ConfigInSync(After(w, actions))
    decreases |actions|
  {
    if actions != [] {
      StepKeepsSane(w, actions[0]);
      StepKeepsConfig(w, actions[0]);
      RunKeepsConfig(Step(w, actions[0]), actions[1..]);
    }
  }

  /** Over every run, with edits at any moment (also between fingerprint and load), fingerprints that may fail, and
      loads that may fail where that does no harm: whenever the remembered fingerprint is the current file's and
      that file is valid, the running configuration is its content; and the next tick that nothing disturbs puts any
      valid file into effect. */
  lemma EditsAreNotLost(w: World, actions: seq<Action>, tokenOk: bool, tokensOk: bool)
    requires Initial(w) && FailuresAreHarmless(w, actions)
    ensures var last := After(w, actions);
      && InSync(last.s.configSeen, last.file, last.s.config)
      && (last.moment.Waiting? && ConfigContent(last).Some? ==>
            After(last, UndisturbedTick(true, tokenOk, true, tokensOk)).s.config == ConfigContent(last).value)
  {
    RunKeepsConfig(w, actions);
    var last := After(w, actions);
    if last.moment.Waiting? && ConfigContent(last).Some? {
      StepsAreTick(last, true, tokenOk, true, tokensOk);
    }
  }

  /** Whatever fails, the running configuration is one that was validated. */
  lemma RunningConfigWasValidated(w: World, actions: seq<Action>)
    requires Initial(w)
    ensures After(w, actions).s.config in After(w, actions).validated
  {
    RunIsSane(w, actions);
  }

  /** Authentication by token is dropped only by a step after which the running configuration names no token file. */
  lemma TokensAreNotDropped(w: World, a: Action)
    requires w.s.tokens.Some? && Step(w, a).s.tokens.None?
    ensures Step(w, a).s.config.tokenFile.None?
  {}

  lemma {:induction false} ValidatedGrows(w: World, actions: seq<Action>)
    ensures w.validated <= After(w, actions).validated
    decreases |actions|
  {
    if actions != [] {
      ValidatedGrows(Step(w, actions[0]), actions[1..]);
    }
  }

  /** The tokens after a tick that installs a configuration: none where it names no file, those of the file it names
      where that loads, and the earlier ones otherwise. */
  lemma TokensFollowConfig(w: World, tokenOk: bool, tokensOk: bool)
    requires w.moment.Waiting? && ConfigContent(w).Some? && w.s.configSeen != ConfigStamp(w)
    ensures var next := After(w, UndisturbedTick(true, tokenOk, true, tokensOk));
      && next.s.config == ConfigContent(w).value
      && next.s.tokens ==
        if next.s.config.tokenFile.None? then None
        else if tokensOk && TokenContent(next).Some? then TokenContent(next)
        else w.s.tokens
  {
    StepsAreTick(w, true, tokenOk, true, tokensOk);
  }

  /** So the daemon never loses its tokens over a run, whatever becomes of the files, as long as no configuration that
      passed validation stopped naming a token file. */
  lemma {:induction false} TokensStay(w: World, actions: seq<Action>)
    requires Sane(w) && w.s.tokens.Some?
    requires forall c :: c in After(w, actions).validated ==> c.tokenFile.Some?
    ensures After(w, actions).s.tokens.Some?
    decreases |actions|
  {
    if actions != [] {
      var next := Step(w, actions[0]);
      StepKeepsSane(w, actions[0]);
      ValidatedGrows(next, actions[1..]);
      if next.s.tokens.None? {
        TokensAreNotDropped(w, actions[0]);
        assert false;
      }
      TokensStay(next, actions[1..]);
    }
  }

  // ----- When an edit is lost -----

  /** Exactly when a tick that saw a change of a valid file leaves the watcher in step: the load succeeded, or there
      was nothing to change. */
  lemma FailedReadLosesEdit(w: World, tokenOk: bool, readOk: bool, tokensOk: bool)
    requires w.moment.Waiting? && ConfigContent(w).Some? && w.s.configSeen != ConfigStamp(w)
    ensures var next := After(w, UndisturbedTick(true, tokenOk, readOk, tokensOk));
      InSync(next.s.configSeen, next.file, next.s.config) <==> readOk || w.s.config == ConfigContent(w).value
  {
    StepsAreTick(w, true, tokenOk, readOk, tokensOk);
  }

  predicate IsEdit(a: Action) { a.EditConfig? || a.EditTokens? }

  predicate FingerprintsSucceed(a: Action) { a.TakeFingerprints? ==> a.configOk && a.tokenOk }

  /** Nothing looks changed, yet the running configuration is not the file's. */
  predicate Stuck(w: World) {
    && ConfigContent(w).Some? && w.s.config != ConfigContent(w).value
    && w.s.configSeen == ConfigStamp(w) && w.s.tokenSeen == TokenStamp(w)
    && (w.moment.Waiting? || w.moment == Fingerprinted(w.s.configSeen, w.s.tokenSeen))
  }

  /** A lost edit stays lost until a file is edited again: so does one made between the load at startup and the
      seeding of the watcher. */
  lemma {:induction false} LostUntilNextEdit(w: World, actions: seq<Action>)
    requires Stuck(w)
    requires forall i :: 0 <= i < |actions| ==> !IsEdit(actions[i]) && FingerprintsSucceed(actions[i])
    ensures After(w, actions).s.config == w.s.config && ConfigContent(After(w, actions)) == ConfigContent(w)
    ensures Some(After(w, actions).s.config) != ConfigContent(After(w, actions))
    decreases |actions|
  {
    if actions != [] {
      assert Stuck(Step(w, actions[0])) && ConfigContent(Step(w, actions[0])) == ConfigContent(w);
      LostUntilNextEdit(Step(w, actions[0]), actions[1..]);
    }
  }

  /** From any initial state, one edit and one failed read of it lead there. */
  lemma EditsCanBeLost(w: World, file: File<Settings>)
    requires Initial(w) && file.stamp !in w.used && file.content.Some? && file.content.value != w.s.config
    ensures Stuck(After(w, [EditConfig(Some(file)), TakeFingerprints(true, true), LoadConfig(false)]))
  {
    ThreeSteps(w, EditConfig(Some(file)), TakeFingerprints(true, true), LoadConfig(false));
  }

  // ----- Tokens -----

  predicate TokensInSync(seen: Option<Fingerprint>, w: World) {
    TokenStamp(w).Some? && seen == TokenStamp(w) && TokenContent(w).Some? ==> w.s.tokens == TokenContent(w)
  }

  /** A tick that saw a change of a valid token file leaves its tokens in force exactly when the configuration and
      the token file both load in that tick, or the tokens are the same: an edit of the token file is lost while the
      configuration is broken, and where reading the tokens fails. */
  lemma TokenEditNeedsLoads(w: World, readOk: bool, tokensOk: bool)
    requires w.moment.Waiting? && TokenContent(w).Some? && w.s.tokenSeen != TokenStamp(w)
    requires ConfigContent(w).Some? ==> ConfigContent(w).value.tokenFile == w.s.config.tokenFile
    ensures var next := After(w, UndisturbedTick(true, true, readOk, tokensOk));
      TokensInSync(next.s.tokenSeen, next) <==>
        (readOk && ConfigContent(w).Some? && tokensOk) || w.s.tokens == TokenContent(w)
  {
    StepsAreTick(w, true, true, readOk, tokensOk);
  }

  /** Every load of the run finds a valid configuration. */
  predicate LoadsSucceed(w: World, actions: seq<Action>)
    decreases |actions|
  {
    actions == [] || (
      && (actions[0].LoadConfig? && w.moment.Fingerprinted? ==> actions[0].readOk && ConfigContent(w).Some?)
      && (actions[0].LoadTokens? ==> actions[0].tokensOk)
      && LoadsSucceed(Step(w, actions[0]), actions[1..]))
  }

  lemma StepKeepsTokens(w: World, a: Action)
    requires Sane(w) && LoadsSucceed(w, [a])
    requires w.moment.ConfigLoaded? || TokensInSync(w.s.tokenSeen, w)
    ensures Step(w, a).moment.ConfigLoaded? || TokensInSync(Step(w, a).s.tokenSeen, Step(w, a))
  {
    assert a == [a][0];
  }

  lemma {:induction false} RunKeepsTokens(w: World, actions: seq<Action>)
    requires Sane(w) && LoadsSucceed(w, actions)
    requires w.moment.ConfigLoaded? || TokensInSync(w.s.tokenSeen, w)
    ensures After(w, actions).moment.ConfigLoaded? || TokensInSync(After(w, actions).s.tokenSeen, After(w, actions))
    decreases |actions|
  {
    if actions != [] {
      StepKeepsTokens(w, actions[0]);
      StepKeepsSane(w, actions[0]);
      RunKeepsTokens(Step(w, actions[0]), actions[1..]);
    }
  }

  /** While every load finds a valid configuration, token edits are not lost either, even when the configuration
      starts to name another token file: with the remembered fingerprint of the current, valid token file, its tokens
      are in force. */
  lemma TokenEditsAreNotLost(w: World, actions: seq<Action>)
    requires Initial(w) && LoadsSucceed(w, actions) && !After(w, actions).moment.ConfigLoaded?
    ensures TokensInSync(After(w, actions).s.tokenSeen, After(w, actions))
  {
    RunKeepsTokens(w, actions);
  }
}
