/** The window-manager gateway (src/aerospace.rs): runs the `aerospace`
    command line tool and turns its output into window records.

    Running a process is the oracle `run`, decoding the JSON reply of
    `list-windows` is the oracle `parseJson`; both are parameters, so every
    statement below holds whatever they answer. */
module Aerospace {
  import opened Wrappers
  import opened Text

  /** One window as the rest of the daemon sees it, tagged with the
      workspace it was listed under. */
  datatype WindowInfo = WindowInfo(appName: string, windowId: uint32, windowTitle: string, workspace: string)

  /** One element of the JSON array that `aerospace list-windows --json`
      prints; it carries no workspace. */
  datatype AerospaceWindow = AerospaceWindow(appName: string, windowId: uint32, windowTitle: string)

  /** A program and its arguments, as given to `Command::new(..).args(..)`. */
  datatype Process = Process(program: string, args: seq<string>)

  /** What `Command::output()` gives back: either the process could not be
      started (the `io::Error` text), or it ran and exited. `stdout` is the
      output decoded as UTF-8, `None` when it is not valid UTF-8; `stderr` is
      decoded lossily; `code` is the exit code, absent when a signal ended the
      process. */
  datatype ProcessOutput =
    | SpawnFailed(message: string)
    | Exited(success: bool, code: Option<int>, stdout: Option<string>, stderr: string)

  /** The process oracle. */
  type Runner = Process -> ProcessOutput

  /** The JSON oracle: `serde_json::from_str::<Vec<AerospaceWindow>>`. */
  type JsonDecoder = string -> Option<seq<AerospaceWindow>>

  predicate Succeeded(o: ProcessOutput) {
    o.Exited? && o.success
  }

  datatype GatewayError =
    | Spawn(message: string)
    | CommandFailed(stderr: string)
    | InvalidUtf8
    | MalformedJson

  const Program: string := "aerospace"
  const ListWorkspacesArgs: seq<string> := ["list-workspaces", "--all"]

  function ListWindowsArgs(workspace: string): seq<string> {
    ["list-windows", "--workspace", workspace, "--json"]
  }

  /** `execute_command`: run `aerospace` with `args`; a process that cannot
      start, exits unsuccessfully or prints something that is not UTF-8 is a
      failure, otherwise its standard output is the answer. */
  function ExecuteCommand(args: seq<string>, run: Runner): (r: Result<string, GatewayError>)
    ensures r.Ok? <==> Succeeded(run(Process(Program, args))) && run(Process(Program, args)).stdout.Some?
    ensures r.Ok? ==> r.value == run(Process(Program, args)).stdout.value
  {
    match run(Process(Program, args))
    case SpawnFailed(message) => Err(Spawn(message))
    case Exited(success, _, stdout, stderr) =>
      if !success then Err(CommandFailed(stderr))
      else if stdout.None? then Err(InvalidUtf8)
      else Ok(stdout.value)
  }

  /** `list_workspaces`: the lines of `aerospace list-workspaces --all`,
      trimmed, blank ones dropped, in order. */
  function ListWorkspaces(run: Runner): (r: Result<seq<string>, GatewayError>)
    ensures r.Ok? <==> ExecuteCommand(ListWorkspacesArgs, run).Ok?
    ensures r.Ok? ==> forall k :: 0 <= k < |r.value| ==> r.value[k] != []
  {
    match ExecuteCommand(ListWorkspacesArgs, run)
    case Err(e) => Err(e)
    case Ok(out) => Ok(TrimNonBlank(Lines(out)))
  }

  /** The workspace ids are the non-blank pieces of the output between
      newlines, each already trimmed, in their original order. */
  lemma ListWorkspacesAreCleanLines(run: Runner)
    requires ListWorkspaces(run).Ok?
    ensures var out := ExecuteCommand(ListWorkspacesArgs, run).value;
      ListWorkspaces(run).value == TrimNonBlank(Split(out, "\n"))
    ensures forall k :: 0 <= k < |ListWorkspaces(run).value| ==>
      Trim(ListWorkspaces(run).value[k]) == ListWorkspaces(run).value[k]
  {
    var out := ExecuteCommand(ListWorkspacesArgs, run).value;
    LinesCleanedAsSplit(out);
    TrimNonBlankTrimmed(Lines(out));
  }

  /** `list_windows_in_workspace`: the decoded reply of
      `aerospace list-windows --workspace <id> --json`. */
  function ListWindowsInWorkspace(workspace: string, run: Runner, parseJson: JsonDecoder)
    : (r: Result<seq<AerospaceWindow>, GatewayError>)
    ensures r.Ok? <==>
      ExecuteCommand(ListWindowsArgs(workspace), run).Ok?
      && parseJson(ExecuteCommand(ListWindowsArgs(workspace), run).value).Some?
    ensures r.Ok? ==> r.value == parseJson(ExecuteCommand(ListWindowsArgs(workspace), run).value).value
  {
    match ExecuteCommand(ListWindowsArgs(workspace), run)
    case Err(e) => Err(e)
    case Ok(out) =>
      match parseJson(out)
      case None => Err(MalformedJson)
      case Some(records) => Ok(records)
  }

  /** A gateway record tagged with the workspace it was listed under. */
  function Tagged(w: AerospaceWindow, workspace: string): WindowInfo {
    WindowInfo(w.appName, w.windowId, w.windowTitle, workspace)
  }

  /** The records of one workspace, tagged. */
  function TagAll(records: seq<AerospaceWindow>, workspace: string): (r: seq<WindowInfo>)
    ensures |r| == |records|
    ensures forall k :: 0 <= k < |r| ==> r[k] == Tagged(records[k], workspace)
  {
    if records == [] then [] else TagAll(records[..|records| - 1], workspace) + [Tagged(records[|records| - 1], workspace)]
  }

  /** One workspace's query, as the loop of `list_windows` sees it. */
  type WorkspaceQuery = string -> Result<seq<AerospaceWindow>, GatewayError>

  /** The query `list_windows` makes for each workspace. */
  function QueryOf(run: Runner, parseJson: JsonDecoder): WorkspaceQuery {
    workspace => ListWindowsInWorkspace(workspace, run, parseJson)
  }

  /** The loop of `list_windows` over the given workspaces: each one queried
      in turn, its records tagged and appended; the first failing query
      ends the whole call with its error. */
  function CollectWindows(workspaces: seq<string>, query: WorkspaceQuery)
    : Result<seq<WindowInfo>, GatewayError>
  {
    if workspaces == [] then Ok([])
    else
      match CollectWindows(workspaces[..|workspaces| - 1], query)
      case Err(e) => Err(e)
      case Ok(before) =>
        var last := workspaces[|workspaces| - 1];
        match query(last)
        case Err(e) => Err(e)
        case Ok(records) => Ok(before + TagAll(records, last))
  }

  /** What `list_windows` returns. */
  function AllWindows(run: Runner, parseJson: JsonDecoder): Result<seq<WindowInfo>, GatewayError> {
    match ListWorkspaces(run)
    case Err(e) => Err(e)
    case Ok(workspaces) => CollectWindows(workspaces, QueryOf(run, parseJson))
  }

  /** `list_windows`: list the workspaces, then gather their windows. */
  method ListWindows(run: Runner, parseJson: JsonDecoder) returns (r: Result<seq<WindowInfo>, GatewayError>)
    ensures r == AllWindows(run, parseJson)
  {
    var listed := ListWorkspaces(run);
    if listed.Err? {
      return Err(listed.error);
    }
    r := GatherWindows(listed.value, run, parseJson);
  }

  /** The loop of `list_windows`: for each workspace in order, query it and
      push every record, tagged with that workspace, onto the result; the
      first failed query is returned at once. */
  method GatherWindows(workspaces: seq<string>, run: Runner, parseJson: JsonDecoder)
    returns (r: Result<seq<WindowInfo>, GatewayError>)
    ensures r == CollectWindows(workspaces, QueryOf(run, parseJson))
  {
    ghost var query := QueryOf(run, parseJson);
    var allWindows: seq<WindowInfo> := [];
    for i := 0 to |workspaces|
      invariant CollectWindows(workspaces[..i], query) == Ok(allWindows)
    {
      var workspace := workspaces[i];
      assert workspaces[..i + 1] == workspaces[..i] + [workspace];
      var queried := ListWindowsInWorkspace(workspace, run, parseJson);
      assert queried == query(workspace);
      CollectWindowsStep(workspaces[..i], workspace, query);
      if queried.Err? {
        CollectWindowsErrorPersists(workspaces, i + 1, query);
        assert workspaces[..|workspaces|] == workspaces;
        return Err(queried.error);
      }
      allWindows := PushTagged(allWindows, queried.value, workspace);
    }
    assert workspaces[..|workspaces|] == workspaces;
    r := Ok(allWindows);
  }

  /** The inner loop of `list_windows`: push each record of one workspace,
      tagged with it, onto the windows found so far. */
  method PushTagged(windows: seq<WindowInfo>, records: seq<AerospaceWindow>, workspace: string)
    returns (r: seq<WindowInfo>)
    ensures r == windows + TagAll(records, workspace)
  {
    r := windows;
    for j := 0 to |records|
      invariant r == windows + TagAll(records[..j], workspace)
    {
      assert records[..j + 1][..j] == records[..j];
      r := r + [Tagged(records[j], workspace)];
    }
    assert records[..|records|] == records;
  }

  /** One more workspace: its query's error, or its records tagged and
      appended to the windows found so far. */
  lemma CollectWindowsStep(init: seq<string>, workspace: string, query: WorkspaceQuery)
    ensures CollectWindows(init + [workspace], query) ==
      match CollectWindows(init, query)
      case Err(e) => Err(e)
      case Ok(before) =>
        match query(workspace)
        case Err(e) => Err(e)
        case Ok(records) => Ok(before + TagAll(records, workspace))
  {
    assert (init + [workspace])[..|init|] == init;
  }

  /** Once a prefix of the workspaces fails, the whole walk fails with the
      same error. */
  lemma {:induction false} CollectWindowsErrorPersists(workspaces: seq<string>, n: nat, query: WorkspaceQuery)
    requires n <= |workspaces|
    requires CollectWindows(workspaces[..n], query).Err?
    ensures CollectWindows(workspaces, query) == CollectWindows(workspaces[..n], query)
    decreases |workspaces| - n
  {
    if n < |workspaces| {
      var init := workspaces[..|workspaces| - 1];
      assert init[..n] == workspaces[..n];
      CollectWindowsErrorPersists(init, n, query);
    } else {
      assert workspaces[..n] == workspaces;
    }
  }

  /** Fail-fast: the walk succeeds exactly when every workspace's query
      succeeds, and otherwise reports the error of the first query that
      failed. */
  lemma {:induction false} CollectWindowsFailFast(workspaces: seq<string>, query: WorkspaceQuery)
    ensures CollectWindows(workspaces, query).Ok? <==>
      forall i :: 0 <= i < |workspaces| ==> query(workspaces[i]).Ok?
    ensures CollectWindows(workspaces, query).Err? ==>
      exists i :: 0 <= i < |workspaces|
        && query(workspaces[i]).Err?
        && (forall k :: 0 <= k < i ==> query(workspaces[k]).Ok?)
        && CollectWindows(workspaces, query).error == query(workspaces[i]).error
  {
    if workspaces != [] {
      var init := workspaces[..|workspaces| - 1];
      CollectWindowsFailFast(init, query);
      assert forall i :: 0 <= i < |init| ==> init[i] == workspaces[i];
    }
  }

  /** The number of records all the (successful) queries return together. */
  function RecordCount(workspaces: seq<string>, query: WorkspaceQuery): nat {
    if workspaces == [] then 0
    else RecordCount(workspaces[..|workspaces| - 1], query) + |query(workspaces[|workspaces| - 1]).GetOr([])|
  }

  /** On success, the walk returns exactly as many windows as the queries
      returned records, and every window is a record of one query, copied
      field for field and tagged with the workspace that query was for. */
  lemma {:induction false} CollectWindowsContents(workspaces: seq<string>, query: WorkspaceQuery)
    requires CollectWindows(workspaces, query).Ok?
    ensures var all := CollectWindows(workspaces, query).value;
      && |all| == RecordCount(workspaces, query)
      && forall k :: 0 <= k < |all| ==>
        exists i, j :: 0 <= i < |workspaces| && query(workspaces[i]).Ok?
          && 0 <= j < |query(workspaces[i]).value|
          && all[k] == Tagged(query(workspaces[i]).value[j], workspaces[i])
  {
    if workspaces != [] {
      var init := workspaces[..|workspaces| - 1];
      var last := workspaces[|workspaces| - 1];
      CollectWindowsContents(init, query);
      var before := CollectWindows(init, query).value;
      var records := query(last).value;
      var all := CollectWindows(workspaces, query).value;
      assert all == before + TagAll(records, last);
      forall k | 0 <= k < |all|
        ensures exists i, j :: (0 <= i < |workspaces| && query(workspaces[i]).Ok?
          && 0 <= j < |query(workspaces[i]).value|
          && all[k] == Tagged(query(workspaces[i]).value[j], workspaces[i]))
      {
        if k < |before| {
          var i, j :| 0 <= i < |init| && query(init[i]).Ok?
            && 0 <= j < |query(init[i]).value|
            && before[k] == Tagged(query(init[i]).value[j], init[i]);
          assert init[i] == workspaces[i];
          assert all[k] == before[k];
        } else {
          var i, j := |workspaces| - 1, k - |before|;
          assert all[k] == Tagged(records[j], last);
        }
      }
    }
  }

  /** In-order concatenation: walking two lists of workspaces one after the
      other gives the first walk's windows followed by the second's. */
  lemma {:induction false} CollectWindowsAppend(a: seq<string>, b: seq<string>, query: WorkspaceQuery)
    ensures CollectWindows(a + b, query) ==
      match CollectWindows(a, query)
      case Err(e) => Err(e)
      case Ok(x) =>
        match CollectWindows(b, query)
        case Err(e) => Err(e)
        case Ok(y) => Ok(x + y)
  {
    if b == [] {
      assert a + b == a;
      if CollectWindows(a, query).Ok? {
        assert CollectWindows(a, query).value + [] == CollectWindows(a, query).value;
      }
    } else {
      var binit, last := b[..|b| - 1], b[|b| - 1];
      assert b == binit + [last];
      assert a + b == (a + binit) + [last];
      CollectWindowsAppend(a, binit, query);
      CollectWindowsStep(a + binit, last, query);
      CollectWindowsStep(binit, last, query);
      var ca, cb := CollectWindows(a, query), CollectWindows(binit, query);
      var q := query(last);
      if ca.Ok? && cb.Ok? && q.Ok? {
        assert ca.value + cb.value + TagAll(q.value, last) == ca.value + (cb.value + TagAll(q.value, last));
      }
    }
  }
}
