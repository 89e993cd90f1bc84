/** The daemon (src/bin/service.rs): its state, the transitions that refresh
    it, the handling of file-watch events and of client requests, and the
    resolution of the path it watches.

    Everything the daemon reads from outside, the environment, the files,
    the current directory and the programs it runs, is a `Host` value; each
    transition happens atomically against the host as it is at that moment. */
module Service {
  import opened Wrappers
  import opened Paths
  import opened Aerospace
  import opened Protocol
  import Configuration
  import Rules

  /** The outside world as one transition sees it. `cwd` is the current
      directory, absent when it cannot be determined. */
  datatype Host = Host(
    env: Environment,
    fs: FileSystem,
    cwd: Option<string>,
    run: Runner,
    parseJson: JsonDecoder,
    parseToml: Configuration.TomlParser,
    tokenize: Rules.Tokenizer)

  const NoConfigMessage: string := "No config loaded"
  const RuleFailurePrefix: string := "Rule evaluation failed: "

  // ---------------------------------------------------------------------
  // State transitions as functions
  // ---------------------------------------------------------------------

  /** The configuration a refresh loads: from the path given on the command
      line when there is one, otherwise by discovery. */
  function LoadForPath(configPath: Option<string>, host: Host): (r: Option<Configuration.Config>)
    ensures configPath.Some? ==> r == Configuration.LoadFile(host.fs, configPath.value, host.parseToml)
    ensures configPath.None? ==> r == Configuration.LoadConfig(host.env, host.fs, host.parseToml)
  {
    match configPath
    case Some(path) => Configuration.LoadConfigFromPath(Some(path), host.env, host.fs, host.parseToml)
    case None => Configuration.LoadConfig(host.env, host.fs, host.parseToml)
  }

  /** `refresh_state`: when the windows can be listed, they replace the
      cached ones and the configuration is reloaded (possibly to none);
      when they cannot, nothing changes, not even the configuration. */
  function Refreshed(s: ServiceState, host: Host): (r: ServiceState)
    ensures AllWindows(host.run, host.parseJson).Err? ==> r == s
    ensures AllWindows(host.run, host.parseJson).Ok? ==>
      r.windows == AllWindows(host.run, host.parseJson).value && r.config == LoadForPath(s.configPath, host)
    ensures r.configPath == s.configPath
  {
    match AllWindows(host.run, host.parseJson)
    case Err(_) => s
    case Ok(windows) => s.(windows := windows, config := LoadForPath(s.configPath, host))
  }

  /** `refresh_config_only`: the configuration is reloaded; nothing else
      changes. */
  function ConfigReloaded(s: ServiceState, host: Host): (r: ServiceState)
    ensures r.windows == s.windows && r.configPath == s.configPath
    ensures r.config == LoadForPath(s.configPath, host)
  {
    s.(config := LoadForPath(s.configPath, host))
  }

  /** The kinds of file-system event the watcher reports. */
  datatype EventKind = Any | Access | Create | Modify | Remove | Other

  datatype WatchEvent = WatchEvent(kind: EventKind, paths: seq<string>)

  /** An event together with the host the daemon sees when it handles it. */
  datatype Observed = Observed(event: WatchEvent, host: Host)

  /** An event concerns the watched file when one of its paths is that file
      or has the same file name (two paths without a file name count as
      having the same one). */
  predicate Relevant(paths: seq<string>, watched: string) {
    exists i :: 0 <= i < |paths| && (SamePath(paths[i], watched) || FileName(paths[i]) == FileName(watched))
  }

  /** One iteration of the watch loop. A relevant creation or modification
      reloads the configuration from the daemon's own path (not from the
      watched one); a relevant removal drops it; anything else changes
      nothing. */
  function AfterEvent(s: ServiceState, event: WatchEvent, watched: string, host: Host): (r: ServiceState)
    ensures r.windows == s.windows && r.configPath == s.configPath
    ensures !Relevant(event.paths, watched) ==> r == s
    ensures Relevant(event.paths, watched) && event.kind in {Create, Modify} ==> r == ConfigReloaded(s, host)
    ensures Relevant(event.paths, watched) && event.kind in {Create, Modify} ==>
      r.config == LoadForPath(s.configPath, host)
    ensures Relevant(event.paths, watched) && event.kind == Remove ==> r.config.None?
    ensures r != s ==> Relevant(event.paths, watched) && event.kind in {Create, Modify, Remove}
  {
    if !Relevant(event.paths, watched) then s
    else
      match event.kind
      case Create => ConfigReloaded(s, host)
      case Modify => ConfigReloaded(s, host)
      case Remove => s.(config := None)
      case _ => s
  }

  /** The watch loop over a sequence of events, in order. */
  function AfterEvents(s: ServiceState, events: seq<Observed>, watched: string): ServiceState {
    if events == [] then s
    else
      var last := events[|events| - 1];
      AfterEvent(AfterEvents(s, events[..|events| - 1], watched), last.event, watched, last.host)
  }

  /** The answer to a request and the state after it, where `focused` is
      the fresh list of the requested workspace's windows. Only `Reload`
      changes the state. */
  function Respond(s: ServiceState, req: Request, focused: seq<WindowInfo>, host: Host)
    : (r: (ServiceState, Response))
    ensures !req.Reload? ==> r.0 == s
    ensures r.0.configPath == s.configPath
  {
    match req
    case GetWindows => (s, Windows(s.windows))
    case GetConfig =>
      (s, match s.config
          case Some(c) => Response.Config(c)
          case None => Error(NoConfigMessage))
    case Reload => (Refreshed(s, host), Success)
    case EvaluateRules(workspace) =>
      (s, match s.config
          case None => Error(NoConfigMessage)
          case Some(c) =>
            match Rules.EvalRules(c.rules, workspace, focused, host.run, host.tokenize, Rules.Real)
            case Ok(actions) => RulesEvaluated(actions)
            case Err(e) => Error(RuleFailurePrefix + e.Message()))
  }

  /** `get_config_file_path`: an explicit path, made absolute against the
      current directory when it is relative and the directory is known;
      otherwise the XDG candidate when it exists, else the home dotfile
      whether or not it exists, provided HOME is set. */
  function GetConfigFilePath(explicit: Option<string>, host: Host): (r: Option<string>)
    ensures explicit.Some? && !IsAbsolute(explicit.value) && host.cwd.Some? ==>
      r == Some(Join(host.cwd.value, explicit.value))
    ensures explicit.Some? && (IsAbsolute(explicit.value) || host.cwd.None?) ==> r == explicit
    ensures explicit.Some? && host.cwd.Some? && IsAbsolute(host.cwd.value) ==> IsAbsolute(r.value)
    ensures explicit.None? && Exists(host.fs, Configuration.XdgConfigPath(host.env)) ==>
      r == Some(Configuration.XdgConfigPath(host.env))
    ensures explicit.None? && !Exists(host.fs, Configuration.XdgConfigPath(host.env)) && "HOME" in host.env ==>
      r == Some(Configuration.HomeConfigPath(host.env["HOME"]))
    ensures explicit.None? ==>
      (r.None? <==> !Exists(host.fs, Configuration.XdgConfigPath(host.env)) && "HOME" !in host.env)
  {
    match explicit
    case Some(path) =>
      if IsAbsolute(path) then Some(path)
      else
        (match host.cwd
         case Some(dir) => Some(Join(dir, path))
         case None => Some(path))
    case None =>
      var xdg := Configuration.XdgConfigPath(host.env);
      if Exists(host.fs, xdg) then Some(xdg)
      else
        match EnvVar(host.env, "HOME")
        case Some(home) => Some(Configuration.HomeConfigPath(home))
        case None => None
  }

  /** The state `main` starts from, before its first refresh. */
  function InitialState(explicit: Option<string>): ServiceState {
    ServiceState([], None, explicit)
  }

  // ---------------------------------------------------------------------
  // The daemon
  // ---------------------------------------------------------------------

  /** The shared state of the running daemon, updated in place by the
      refresh task, the watcher and the request handler. */
  class Daemon {
    var windows: seq<WindowInfo>
    var config: Option<Configuration.Config>
    var configPath: Option<string>

    function State(): ServiceState
      reads this
    {
      ServiceState(windows, config, configPath)
    }

    /** The state `main` creates: no windows, no configuration, and the path
        given on the command line. */
    constructor (explicit: Option<string>)
      ensures State() == InitialState(explicit)
    {
      windows := [];
      config := None;
      configPath := explicit;
    }

    /** `refresh_state`. */
    method RefreshState(host: Host)
      modifies this
      ensures State() == Refreshed(old(State()), host)
    {
      var listed := ListWindows(host.run, host.parseJson);
      if listed.Err? {
        return;
      }
      var loaded := LoadForPath(configPath, host);
      windows := listed.value;
      config := loaded;
    }

    /** `refresh_config_only`. */
    method RefreshConfigOnly(host: Host)
      modifies this
      ensures State() == ConfigReloaded(old(State()), host)
    {
      config := LoadForPath(configPath, host);
    }

    /** One iteration of the loop of `watch_config_file`. */
    method HandleWatchEvent(event: WatchEvent, watched: string, host: Host)
      modifies this
      ensures State() == AfterEvent(old(State()), event, watched, host)
    {
      if Relevant(event.paths, watched) {
        match event.kind {
          case Create => RefreshConfigOnly(host);
          case Modify => RefreshConfigOnly(host);
          case Remove => config := None;
          case _ =>
        }
      }
    }

    /** The loop of `watch_config_file`: every event, in the order the
        watcher delivers them. */
    method WatchConfigFile(watched: string, events: seq<Observed>)
      modifies this
      ensures State() == AfterEvents(old(State()), events, watched)
    {
      for i := 0 to |events|
        invariant State() == AfterEvents(old(State()), events[..i], watched)
      {
        assert events[..i + 1][..i] == events[..i];
        HandleWatchEvent(events[i].event, watched, events[i].host);
      }
      assert events[..|events|] == events;
    }

    /** The request dispatch of `handle_client`, for a request that has
        been read and decoded; `focused` is the fresh list of the requested
        workspace's windows. */
    method HandleClient(req: Request, focused: seq<WindowInfo>, host: Host) returns (resp: Response)
      modifies this
      ensures (State(), resp) == Respond(old(State()), req, focused, host)
    {
      match req {
        case GetWindows =>
          resp := Windows(windows);
        case GetConfig =>
          if config.Some? {
            resp := Response.Config(config.value);
          } else {
            resp := Error(NoConfigMessage);
          }
        case Reload =>
          RefreshState(host);
          resp := Success;
        case EvaluateRules(workspace) =>
          if config.None? {
            resp := Error(NoConfigMessage);
          } else {
            var result := Rules.EvaluateRulesForWorkspace(workspace, windows, focused, config.value, host.run,
                                                         host.tokenize, Rules.Real);
            if result.Ok? {
              resp := RulesEvaluated(result.value);
            } else {
              resp := Error(RuleFailurePrefix + result.error.Message());
            }
          }
      }
    }
  }

  /** The start of `main`: the path to watch is resolved, the daemon is
      created with the path given on the command line, and refreshed once. */
  method Start(explicit: Option<string>, host: Host) returns (d: Daemon, watched: Option<string>)
    ensures fresh(d)
    ensures d.State() == Refreshed(InitialState(explicit), host)
    ensures watched == GetConfigFilePath(explicit, host)
  {
    watched := GetConfigFilePath(explicit, host);
    d := new Daemon(explicit);
    d.RefreshState(host);
  }

  // ---------------------------------------------------------------------
  // Properties
  // ---------------------------------------------------------------------

  /** Refreshing twice against the same host is refreshing once. */
  lemma RefreshIdempotent(s: ServiceState, host: Host)
    ensures Refreshed(Refreshed(s, host), host) == Refreshed(s, host)
  {
  }

  /** A refresh after a configuration-only reload against the same host is
      the refresh alone: whatever the reload found is overwritten. */
  lemma RefreshAbsorbsReload(s: ServiceState, host: Host)
    requires AllWindows(host.run, host.parseJson).Ok?
    ensures Refreshed(ConfigReloaded(s, host), host) == Refreshed(s, host)
  {
  }

  /** The watch loop never touches the windows or the path. */
  lemma {:induction false} WatchKeepsWindowsAndPath(s: ServiceState, events: seq<Observed>, watched: string)
    ensures AfterEvents(s, events, watched).windows == s.windows
    ensures AfterEvents(s, events, watched).configPath == s.configPath
  {
    if events != [] {
      WatchKeepsWindowsAndPath(s, events[..|events| - 1], watched);
    }
  }

  /** Events none of which concerns the watched file change nothing. */
  lemma {:induction false} IrrelevantEventsChangeNothing(s: ServiceState, events: seq<Observed>, watched: string)
    requires forall i :: 0 <= i < |events| ==> !Relevant(events[i].event.paths, watched)
    ensures AfterEvents(s, events, watched) == s
  {
    if events != [] {
      IrrelevantEventsChangeNothing(s, events[..|events| - 1], watched);
    }
  }

  /** After a relevant removal, the configuration stays absent until a
      relevant creation or modification. */
  lemma {:induction false} RemovalSticks(s: ServiceState, events: seq<Observed>, watched: string, n: nat)
    requires n < |events|
    requires events[n].event.kind == Remove && Relevant(events[n].event.paths, watched)
    requires forall i :: n < i < |events| ==>
      !(events[i].event.kind in {Create, Modify} && Relevant(events[i].event.paths, watched))
    ensures AfterEvents(s, events, watched).config.None?
  {
    var init, last := events[..|events| - 1], events[|events| - 1];
    var before := AfterEvents(s, init, watched);
    assert AfterEvents(s, events, watched) == AfterEvent(before, last.event, watched, last.host);
    if n < |init| {
      forall i | n < i < |init|
        ensures !(init[i].event.kind in {Create, Modify} && Relevant(init[i].event.paths, watched))
      {
        assert init[i] == events[i];
      }
      RemovalSticks(s, init, watched, n);
      KeepsNoConfig(before, last.event, watched, last.host);
    }
  }

  /** A relevant creation or modification of the watched file loads the
      configuration from the daemon's own path, against the host as it was
      at that event, and the loaded configuration stays while no later event
      creates, modifies or removes the watched file. */
  lemma {:induction false} EditReloads(s: ServiceState, events: seq<Observed>, watched: string, n: nat)
    requires n < |events|
    requires events[n].event.kind in {Create, Modify} && Relevant(events[n].event.paths, watched)
    requires forall i :: n < i < |events| ==>
      !(events[i].event.kind in {Create, Modify, Remove} && Relevant(events[i].event.paths, watched))
    ensures AfterEvents(s, events, watched).config == LoadForPath(s.configPath, events[n].host)
  {
    var init, last := events[..|events| - 1], events[|events| - 1];
    var before := AfterEvents(s, init, watched);
    assert AfterEvents(s, events, watched) == AfterEvent(before, last.event, watched, last.host);
    if n < |init| {
      forall i | n < i < |init|
        ensures !(init[i].event.kind in {Create, Modify, Remove} && Relevant(init[i].event.paths, watched))
      {
        assert init[i] == events[i];
      }
      EditReloads(s, init, watched, n);
      assert init[n] == events[n];
      NoEditKeepsState(before, last.event, watched, last.host);
    } else {
      assert last == events[n];
      WatchKeepsWindowsAndPath(s, init, watched);
    }
  }

  /** An event that neither creates, modifies nor removes the watched file
      leaves the state as it is. */
  lemma NoEditKeepsState(s: ServiceState, event: WatchEvent, watched: string, host: Host)
    requires !(event.kind in {Create, Modify, Remove} && Relevant(event.paths, watched))
    ensures AfterEvent(s, event, watched, host) == s
  {
  }

  /** An event other than a relevant creation or modification cannot bring
      back a configuration that is not there. */
  lemma KeepsNoConfig(s: ServiceState, event: WatchEvent, watched: string, host: Host)
    requires s.config.None?
    requires !(event.kind in {Create, Modify} && Relevant(event.paths, watched))
    ensures AfterEvent(s, event, watched, host).config.None?
  {
  }

  /** A path is relevant exactly when it has the watched file's name: the
      comparison of whole paths adds nothing, since equal paths have equal
      file names. */
  lemma RelevantIffSameFileName(paths: seq<string>, watched: string)
    ensures Relevant(paths, watched) <==> exists i :: 0 <= i < |paths| && FileName(paths[i]) == FileName(watched)
  {
    forall i | 0 <= i < |paths| && SamePath(paths[i], watched)
      ensures FileName(paths[i]) == FileName(watched)
    {
      SamePathSameFileName(paths[i], watched);
    }
  }

  /** Without an explicit path, the watched path is the file discovery
      would load whenever discovery finds one; it differs only when
      discovery finds nothing, in which case the home dotfile is watched
      (if HOME is set) so that creating it is noticed. */
  lemma WatchedPathIsDiscoveredFile(host: Host)
    ensures Configuration.FindConfigFile(host.env, host.fs).Some? ==>
      GetConfigFilePath(None, host) == Configuration.FindConfigFile(host.env, host.fs)
    ensures Configuration.FindConfigFile(host.env, host.fs).None? && "HOME" in host.env ==>
      GetConfigFilePath(None, host) == Some(Configuration.HomeConfigPath(host.env["HOME"]))
  {
  }

  /** An explicit path that is already absolute is watched unchanged, and
      the daemon loads that same file, without discovery. */
  lemma AbsoluteExplicitPath(path: string, s: ServiceState, host: Host)
    requires IsAbsolute(path) && s.configPath == Some(path)
    ensures GetConfigFilePath(Some(path), host) == Some(path)
    ensures ConfigReloaded(s, host).config == Configuration.LoadFile(host.fs, path, host.parseToml)
  {
  }

  /** When the window manager cannot be queried at startup, the daemon
      starts with no windows and no configuration, even if a valid rule
      file exists: the configuration is only loaded by a refresh whose
      window listing succeeds. */
  lemma StartupWithoutWindowManager(explicit: Option<string>, host: Host)
    requires AllWindows(host.run, host.parseJson).Err?
    ensures Refreshed(InitialState(explicit), host) == ServiceState([], None, explicit)
  {
  }

  /** The answers to `GetConfig` and `EvaluateRules` without a
      configuration, and the error they share. */
  lemma ConfigRequests(s: ServiceState, workspace: string, focused: seq<WindowInfo>, host: Host)
    ensures Respond(s, GetConfig, focused, host).1.Config? <==> s.config.Some?
    ensures s.config.Some? ==> Respond(s, GetConfig, focused, host).1 == Response.Config(s.config.value)
    ensures s.config.None? ==>
      (Respond(s, GetConfig, focused, host).1 == Error(NoConfigMessage)
       && Respond(s, EvaluateRules(workspace), focused, host).1 == Error(NoConfigMessage))
    ensures Respond(s, GetWindows, focused, host).1 == Windows(s.windows)
    ensures Respond(s, Reload, focused, host) == (Refreshed(s, host), Success)
  {
  }

  /** With a configuration, `EvaluateRules` reports the evaluation's lines,
      or its condition error behind a fixed prefix; a condition error
      anywhere turns the whole answer into an error. */
  lemma EvaluateRulesAnswer(s: ServiceState, workspace: string, focused: seq<WindowInfo>, host: Host)
    requires s.config.Some?
    ensures var result := Rules.EvalRules(s.config.value.rules, workspace, focused, host.run, host.tokenize, Rules.Real);
      var answer := Respond(s, EvaluateRules(workspace), focused, host).1;
      && (result.Ok? ==> answer == RulesEvaluated(result.value))
      && (result.Err? ==> answer == Error(RuleFailurePrefix + result.error.Message()))
      && (answer.Error? <==>
          exists i :: 0 <= i < |s.config.value.rules| && Rules.ConditionFails(s.config.value.rules[i], focused, Rules.Real))
  {
    Rules.EvalRulesFailsIff(s.config.value.rules, workspace, focused, host.run, host.tokenize, Rules.Real);
  }
}
