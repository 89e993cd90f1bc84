/** The rule engine (src/rules.rs): parsing and evaluating a rule's
    condition against a window, dispatching its action, and the loop that
    evaluates every rule of a configuration for one workspace.

    Commands are run through the process oracle `run` and shell-style
    command lines are split by the oracle `tokenize`; every statement below
    holds whatever they answer. */
module Rules {
  import opened Wrappers
  import opened Text
  import opened Aerospace
  import opened Configuration

  // ---------------------------------------------------------------------
  // Conditions
  // ---------------------------------------------------------------------

  const EqualsSeparator: string := " = "
  const GreaterSeparator: string := " > "

  /** Why a condition could not be evaluated. */
  datatype ConditionError =
    | InvalidFormat(condition: string)
    | UnknownField(field: string)
    | UnknownNumericField(field: string)
    | BadNumber(kind: IntErrorKind)
    | UnsupportedFormat(condition: string)
  {
    /** The text the error displays as. */
    function Message(): string {
      match this
      case InvalidFormat(c) => "Invalid condition format: " + c
      case UnknownField(f) => "Unknown field in condition: " + f
      case UnknownNumericField(f) => "Unknown numeric field in condition: " + f
      case BadNumber(EmptyInput) => "cannot parse integer from empty string"
      case BadNumber(InvalidDigit) => "invalid digit found in string"
      case BadNumber(PosOverflow) => "number too large to fit in target type"
      case UnsupportedFormat(c) => "Unsupported condition format: " + c
    }
  }

  /** The value side of an equality condition: trimmed, then stripped of
      every leading and trailing single quote, then of every leading and
      trailing double quote. */
  function CleanValue(v: string): string {
    TrimMatches(TrimMatches(Trim(v), '\''), '"')
  }

  /** The stub behind `window-width > n`: every window is taken to be
      1200 wide, whatever window it is. */
  const AssumedWindowWidth: int := 1200

  /** `matches_condition`: a condition is `field = value` or `field > number`,
      and " = " is looked for first. The text must split into exactly two
      parts around the separator; the field is the trimmed left part. */
  function MatchesCondition(condition: string, w: WindowInfo): (r: Result<bool, ConditionError>)
    ensures r == Err(UnsupportedFormat(condition)) <==>
      !Contains(condition, EqualsSeparator) && !Contains(condition, GreaterSeparator)
  {
    if Contains(condition, EqualsSeparator) then
      var parts := Split(condition, EqualsSeparator);
      if |parts| != 2 then Err(InvalidFormat(condition))
      else
        var field := Trim(parts[0]);
        var value := CleanValue(parts[1]);
        if field == "app-id" || field == "app-name" then Ok(w.appName == value)
        else if field == "window-title" then Ok(Contains(w.windowTitle, value))
        else if field == "workspace" then Ok(w.workspace == value)
        else Err(UnknownField(field))
    else if Contains(condition, GreaterSeparator) then
      var parts := Split(condition, GreaterSeparator);
      if |parts| != 2 then Err(InvalidFormat(condition))
      else
        var field := Trim(parts[0]);
        match ParseU32(Trim(parts[1]))
        case Err(kind) => Err(BadNumber(kind))
        case Ok(n) =>
          if field == "window-width" then Ok(n < AssumedWindowWidth)
          else if field == "window-id" then Ok(w.windowId > n)
          else Err(UnknownNumericField(field))
    else Err(UnsupportedFormat(condition))
  }

  /** A condition that has its separator but does not split into exactly
      two parts around it is malformed; " = " is looked for first. */
  lemma MalformedCondition(condition: string, w: WindowInfo)
    ensures Contains(condition, EqualsSeparator) && |Split(condition, EqualsSeparator)| != 2
      ==> MatchesCondition(condition, w) == Err(InvalidFormat(condition))
    ensures !Contains(condition, EqualsSeparator) && Contains(condition, GreaterSeparator)
      && |Split(condition, GreaterSeparator)| != 2
      ==> MatchesCondition(condition, w) == Err(InvalidFormat(condition))
  {
  }

  /** A three-character separator whose middle character is absent from `a`
      and differs from its last one cannot occur in `a` followed by the
      separator's first two characters. */
  lemma NoSeparatorBeforeJunction(a: string, sep: string)
    requires |sep| == 3 && sep[1] != sep[2] && sep[1] !in a
    ensures !Contains(a + sep[..2], sep)
  {
    var s := a + sep[..2];
    forall i: nat | i <= |s| ensures !OccursAt(s, sep, i) {
      if i + 3 <= |s| {
        assert s[i..i + 3][1] == s[i + 1] && s[i..i + 3][2] == s[i + 2];
        assert i + 1 < |a| ==> s[i + 1] == a[i + 1];
      }
    }
  }

  /** A separator whose middle character is absent from `s` does not occur
      in `s`. */
  lemma NoSeparatorWithoutMiddle(s: string, sep: string)
    requires |sep| >= 2 && sep[1] !in s
    ensures !Contains(s, sep)
  {
    forall i: nat | i <= |s| ensures !OccursAt(s, sep, i) {
      if i + |sep| <= |s| {
        assert s[i..i + |sep|][1] == s[i + 1];
      }
    }
  }

  /** `field = value` with the separator only at the junction: `app-name`
      and `app-id` compare the application name with the cleaned value,
      `window-title` looks for it inside the title, `workspace` compares
      exactly, and any other field is an error naming the trimmed field.
      This holds even when " > " occurs too: " = " wins. */
  lemma EqualsCondition(f: string, v: string, w: WindowInfo)
    requires !Contains(f + EqualsSeparator[..2], EqualsSeparator)
    requires !Contains(v, EqualsSeparator)
    ensures var c := f + EqualsSeparator + v;
      && ((Trim(f) == "app-name" || Trim(f) == "app-id") ==> MatchesCondition(c, w) == Ok(w.appName == CleanValue(v)))
      && (Trim(f) == "window-title" ==> MatchesCondition(c, w) == Ok(Contains(w.windowTitle, CleanValue(v))))
      && (Trim(f) == "workspace" ==> MatchesCondition(c, w) == Ok(w.workspace == CleanValue(v)))
      && (Trim(f) !in {"app-name", "app-id", "window-title", "workspace"}
          ==> MatchesCondition(c, w) == Err(UnknownField(Trim(f))))
  {
    var c := f + EqualsSeparator + v;
    SplitAtSoleSeparator(f, EqualsSeparator, v);
    assert OccursAt(c, EqualsSeparator, |f|) by {
      assert c[|f|..|f| + |EqualsSeparator|] == EqualsSeparator;
    }
  }

  /** `field > number` (with no " = " anywhere and " > " only at the
      junction): the number is parsed before the field is looked at, so a
      bad number is reported even for an unknown field; then `window-width`
      holds exactly when the number is below 1200, for every window, and
      `window-id` holds exactly when the id is strictly greater. */
  lemma GreaterCondition(f: string, v: string, w: WindowInfo)
    requires !Contains(f + GreaterSeparator + v, EqualsSeparator)
    requires !Contains(f + GreaterSeparator[..2], GreaterSeparator)
    requires !Contains(v, GreaterSeparator)
    ensures var c := f + GreaterSeparator + v;
      && (ParseU32(Trim(v)).Err? ==> MatchesCondition(c, w) == Err(BadNumber(ParseU32(Trim(v)).error)))
      && (ParseU32(Trim(v)).Ok? && Trim(f) == "window-width"
          ==> MatchesCondition(c, w) == Ok(ParseU32(Trim(v)).value < 1200))
      && (ParseU32(Trim(v)).Ok? && Trim(f) == "window-id"
          ==> MatchesCondition(c, w) == Ok(w.windowId > ParseU32(Trim(v)).value))
      && (ParseU32(Trim(v)).Ok? && Trim(f) != "window-width" && Trim(f) != "window-id"
          ==> MatchesCondition(c, w) == Err(UnknownNumericField(Trim(f))))
  {
    var c := f + GreaterSeparator + v;
    SplitAtSoleSeparator(f, GreaterSeparator, v);
    assert OccursAt(c, GreaterSeparator, |f|) by {
      assert c[|f|..|f| + |GreaterSeparator|] == GreaterSeparator;
    }
  }

  /** `window-id > 5` does not hold for window 5 and holds for window 6:
      the comparison is strict. */
  lemma WindowIdComparisonIsStrict(w: WindowInfo)
    ensures MatchesCondition("window-id > 5", w) == Ok(w.windowId > 5)
    ensures w.windowId == 5 ==> MatchesCondition("window-id > 5", w) == Ok(false)
  {
    NoSeparatorWithoutMiddle("window-id > 5", EqualsSeparator);
    NoSeparatorBeforeJunction("window-id", GreaterSeparator);
    NoSeparatorWithoutMiddle("5", GreaterSeparator);
    assert "window-id" + GreaterSeparator + "5" == "window-id > 5";
    assert Trim("5") == "5";
    assert Trim("window-id") == "window-id";
    ParseU32OfNatToString(5);
    assert NatToString(5) == "5";
    GreaterCondition("window-id", "5", w);
  }

  // ---------------------------------------------------------------------
  // Actions and empty-workspace commands
  // ---------------------------------------------------------------------

  const MovePrefix: string := "move-to-workspace "
  const MaximizeAction: string := "maximize"

  /** Why an action or an empty-workspace command failed. */
  datatype ActionError =
    | StartFailed(message: string)
    | MoveFailed(target: string, stderr: string)
    | MaximizeFailed(stderr: string)
    | UnknownAction(action: string)
    | CommandParseFailed(command: string)
    | EmptyCommand
    | CommandExitFailed(command: string, code: Option<int>, stderr: string)
  {
    /** The text the error displays as. */
    function Message(): string {
      match this
      case StartFailed(m) => m
      case MoveFailed(t, e) => "Failed to move window to workspace " + t + ": " + e
      case MaximizeFailed(e) => "Failed to maximize window: " + e
      case UnknownAction(a) => "Unknown action: " + a
      case CommandParseFailed(c) => "Failed to parse command: " + c
      case EmptyCommand => "Empty command"
      case CommandExitFailed(c, code, e) => "Command '" + c + "' failed with exit code " + DebugCode(code) + ": " + e
    }
  }

  /** `{:?}` of an optional exit code. */
  function DebugCode(code: Option<int>): string {
    match code
    case Some(n) => "Some(" + IntToString(n) + ")"
    case None => "None"
  }

  /** The `aerospace` invocation an action stands for: `move` for
      "move-to-workspace <target>", `fullscreen` for "maximize", none for
      anything else. The window id is printed in decimal. */
  function ActionProcess(action: string, w: WindowInfo): (r: Option<Process>)
    ensures r.None? <==> !StartsWith(action, MovePrefix) && action != MaximizeAction
    ensures r.Some? ==> (r.value.program == Program && |r.value.args| >= 3
      && r.value.args[1] == "--window-id" && ParseU32(r.value.args[2]) == Ok(w.windowId))
    ensures StartsWith(action, MovePrefix) ==>
      r == Some(Process(Program, ["move", "--window-id", NatToString(w.windowId), "--workspace", action[|MovePrefix|..]]))
      && MovePrefix + r.value.args[4] == action
    ensures !StartsWith(action, MovePrefix) && action == MaximizeAction ==>
      r == Some(Process(Program, ["fullscreen", "--window-id", NatToString(w.windowId)]))
  {
    ParseU32OfNatToString(w.windowId);
    if StartsWith(action, MovePrefix) then
      var target := action[|MovePrefix|..];
      assert MovePrefix + target == action;
      Some(Process(Program, ["move", "--window-id", NatToString(w.windowId), "--workspace", target]))
    else if action == MaximizeAction then
      Some(Process(Program, ["fullscreen", "--window-id", NatToString(w.windowId)]))
    else None
  }

  /** `execute_action`: run the action's command; it fails when the action
      is unknown, when the command cannot start, or when it exits without
      success. Its output is not looked at. */
  function ExecuteAction(action: string, w: WindowInfo, run: Runner): (r: Result<(), ActionError>)
    ensures r.Ok? <==> ActionProcess(action, w).Some? && Succeeded(run(ActionProcess(action, w).value))
    ensures ActionProcess(action, w).None? ==> r == Err(UnknownAction(action))
  {
    match ActionProcess(action, w)
    case None => Err(UnknownAction(action))
    case Some(p) =>
      match run(p)
      case SpawnFailed(message) => Err(StartFailed(message))
      case Exited(success, _, _, stderr) =>
        if success then Ok(())
        else if StartsWith(action, MovePrefix) then Err(MoveFailed(action[|MovePrefix|..], stderr))
        else Err(MaximizeFailed(stderr))
  }

  /** An unknown action fails without running anything: its outcome is the
      same whatever the process oracle would have answered. */
  lemma UnknownActionRunsNothing(action: string, w: WindowInfo, run1: Runner, run2: Runner)
    requires !StartsWith(action, MovePrefix) && action != MaximizeAction
    ensures ExecuteAction(action, w, run1) == ExecuteAction(action, w, run2) == Err(UnknownAction(action))
  {
  }

  /** The shell-style tokenizer oracle (`shlex::split`). */
  type Tokenizer = string -> Option<seq<string>>

  /** `execute_empty_workspace_command`: split the command line into words,
      run the first with the rest as arguments; it fails when the line does
      not split, when it has no words, when the program cannot start, or
      when it exits without success. */
  function ExecuteEmptyWorkspaceCommand(command: string, tokenize: Tokenizer, run: Runner)
    : (r: Result<(), ActionError>)
    ensures r.Ok? <==>
      tokenize(command).Some? && tokenize(command).value != []
      && Succeeded(run(Process(tokenize(command).value[0], tokenize(command).value[1..])))
    ensures tokenize(command).None? ==> r == Err(CommandParseFailed(command))
    ensures tokenize(command) == Some([]) ==> r == Err(EmptyCommand)
  {
    match tokenize(command)
    case None => Err(CommandParseFailed(command))
    case Some(parts) =>
      if parts == [] then Err(EmptyCommand)
      else
        match run(Process(parts[0], parts[1..]))
        case SpawnFailed(message) => Err(StartFailed(message))
        case Exited(success, code, _, stderr) =>
          if success then Ok(()) else Err(CommandExitFailed(command, code, stderr))
  }

  // ---------------------------------------------------------------------
  // Evaluating the rules for a workspace
  // ---------------------------------------------------------------------

  /** The outcome line of a window rule whose action was applied. */
  function AppliedMessage(ruleName: string, w: WindowInfo, action: string): string {
    "Applied '" + ruleName + "' to " + w.appName + " (ID: " + NatToString(w.windowId) + "): " + action
  }

  /** The outcome line of an empty-workspace rule: its command ran, or it
      failed with the given error. */
  function EmptyWorkspaceMessage(ruleName: string, command: string, result: Result<(), ActionError>): string {
    match result
    case Ok(_) => "Executed empty workspace rule '" + ruleName + "': " + command
    case Err(e) => "Failed to execute empty workspace command '" + ruleName + "': " + e.Message()
  }

  /** The three operations the evaluation performs per window or per rule:
      checking a condition, applying an action, running an empty-workspace
      command. The evaluation below is stated for any such operations;
      `Real` plugs in the ones of this module. */
  datatype Effects = Effects(
    matches: (string, WindowInfo) -> Result<bool, ConditionError>,
    act: (string, WindowInfo, Runner) -> Result<(), ActionError>,
    command: (string, Tokenizer, Runner) -> Result<(), ActionError>)

  const Real: Effects := Effects(MatchesCondition, ExecuteAction, ExecuteEmptyWorkspaceCommand)

  /** What a window rule contributes for one window: an error if its
      condition cannot be evaluated, nothing if the condition does not hold
      or the action fails, otherwise one applied line. */
  function WindowStep(name: string, condition: string, action: string, w: WindowInfo, run: Runner, e: Effects)
    : (r: Result<seq<string>, ConditionError>)
    ensures r.Err? <==> e.matches(condition, w).Err?
    ensures r.Err? ==> r.error == e.matches(condition, w).error
    ensures r.Ok? ==> |r.value| <= 1
    ensures r.Ok? && r.value != [] <==> e.matches(condition, w) == Ok(true) && e.act(action, w, run).Ok?
    ensures r.Ok? && r.value != [] ==> r.value[0] == AppliedMessage(name, w, action)
  {
    match e.matches(condition, w)
    case Err(err) => Err(err)
    case Ok(matched) =>
      if matched && e.act(action, w, run).Ok? then Ok([AppliedMessage(name, w, action)]) else Ok([])
  }

  /** The outcome lists of a loop, in order, with the first error winning:
      both loops of `evaluate_rules_for_workspace` push each step's lines
      after the previous ones and return the first condition error. */
  function Concat<E>(results: seq<Result<seq<string>, E>>): Result<seq<string>, E> {
    if results == [] then Ok([])
    else
      match Concat(results[..|results| - 1])
      case Err(e) => Err(e)
      case Ok(before) =>
        match results[|results| - 1]
        case Err(e) => Err(e)
        case Ok(more) => Ok(before + more)
  }

  /** One more step. */
  lemma ConcatSnoc<E>(init: seq<Result<seq<string>, E>>, x: Result<seq<string>, E>)
    ensures Concat(init + [x]) ==
      match Concat(init)
      case Err(e) => Err(e)
      case Ok(before) =>
        match x
        case Err(e) => Err(e)
        case Ok(more) => Ok(before + more)
  {
    assert (init + [x])[..|init|] == init;
  }

  /** Two runs one after the other: the first one's lines, then the
      second's, unless one of them fails, the first failure winning. */
  lemma {:induction false} ConcatAppend<E>(a: seq<Result<seq<string>, E>>, b: seq<Result<seq<string>, E>>)
    ensures Concat(a + b) ==
      match Concat(a)
      case Err(e) => Err(e)
      case Ok(x) =>
        match Concat(b)
        case Err(e) => Err(e)
        case Ok(y) => Ok(x + y)
  {
    var ca := Concat(a);
    if b == [] {
      assert a + b == a;
      if ca.Ok? {
        assert ca.value + [] == ca.value;
      }
    } else {
      var binit, last := b[..|b| - 1], b[|b| - 1];
      assert b == binit + [last];
      assert a + b == (a + binit) + [last];
      ConcatAppend(a, binit);
      ConcatSnoc(a + binit, last);
      ConcatSnoc(binit, last);
      var cb := Concat(binit);
      if ca.Ok? && cb.Ok? && last.Ok? {
        assert ca.value + cb.value + last.value == ca.value + (cb.value + last.value);
      }
    }
  }

  /** An error within the first `n` steps is the outcome of the whole
      loop: nothing after it is looked at. */
  lemma ConcatErrorPersists<E>(results: seq<Result<seq<string>, E>>, n: nat)
    requires n <= |results|
    requires Concat(results[..n]).Err?
    ensures Concat(results) == Concat(results[..n])
  {
    assert results == results[..n] + results[n..];
    ConcatAppend(results[..n], results[n..]);
  }

  /** The loop fails exactly when some step fails, and then with the error
      of the first failing step. */
  lemma {:induction false} ConcatFailsIff<E>(results: seq<Result<seq<string>, E>>)
    ensures Concat(results).Err? <==> exists i :: 0 <= i < |results| && results[i].Err?
    ensures Concat(results).Err? ==>
      exists i :: 0 <= i < |results| && results[i] == Err(Concat(results).error)
        && forall j :: 0 <= j < i ==> results[j].Ok?
  {
    if results != [] {
      var init := results[..|results| - 1];
      ConcatFailsIff(init);
      assert forall i :: 0 <= i < |init| ==> init[i] == results[i];
      if Concat(init).Ok? && results[|results| - 1].Err? {
        assert forall j :: 0 <= j < |results| - 1 ==> results[j].Ok? by {
          forall j | 0 <= j < |results| - 1 ensures results[j].Ok? {
            assert init[j] == results[j];
          }
        }
      }
    }
  }

  /** The steps of the inner loop, one per window. */
  function WindowResults(name: string, condition: string, action: string, windows: seq<WindowInfo>, run: Runner,
                         e: Effects)
    : (r: seq<Result<seq<string>, ConditionError>>)
    ensures |r| == |windows|
  {
    if windows == [] then []
    else
      WindowResults(name, condition, action, windows[..|windows| - 1], run, e)
      + [WindowStep(name, condition, action, windows[|windows| - 1], run, e)]
  }

  /** The inner loop: a window rule over the windows, in order; the first
      condition error ends it. */
  function EvalWindows(name: string, condition: string, action: string, windows: seq<WindowInfo>, run: Runner,
                       e: Effects)
    : Result<seq<string>, ConditionError>
  {
    Concat(WindowResults(name, condition, action, windows, run, e))
  }

  /** What one rule contributes: a window rule runs the inner loop when
      the workspace has windows; an empty-workspace rule reports its
      command's outcome when the workspace is empty and its own. */
  function EvalRule(rule: Rule, workspace: string, focused: seq<WindowInfo>, run: Runner, tokenize: Tokenizer,
                    e: Effects)
    : Result<seq<string>, ConditionError>
  {
    match rule.ruleType
    case Window(condition, action) =>
      if focused == [] then Ok([]) else EvalWindows(rule.name, condition, action, focused, run, e)
    case EmptyWorkspace(ruleWorkspace, command) =>
      if focused == [] && ruleWorkspace == workspace then
        Ok([EmptyWorkspaceMessage(rule.name, command, e.command(command, tokenize, run))])
      else Ok([])
  }

  /** A window rule does nothing when the workspace has no windows; an
      empty-workspace rule never fails, and contributes exactly one line,
      reporting how its command went, when the workspace has no windows
      and is the rule's own, and nothing otherwise. */
  lemma EvalRuleOutcome(rule: Rule, workspace: string, focused: seq<WindowInfo>, run: Runner, tokenize: Tokenizer,
                        e: Effects)
    ensures var r := EvalRule(rule, workspace, focused, run, tokenize, e);
      && (rule.ruleType.Window? && focused == [] ==> r == Ok([]))
      && (rule.ruleType.EmptyWorkspace? ==> r.Ok? && |r.value| <= 1)
      && (rule.ruleType.EmptyWorkspace? ==>
           (|r.value| == 1 <==> focused == [] && rule.ruleType.workspace == workspace))
      && (rule.ruleType.EmptyWorkspace? && |r.value| == 1 ==>
           r.value[0] == EmptyWorkspaceMessage(rule.name, rule.ruleType.command,
             e.command(rule.ruleType.command, tokenize, run)))
  {
  }

  /** The steps of the outer loop, one per rule. */
  function RuleResults(rules: seq<Rule>, workspace: string, focused: seq<WindowInfo>, run: Runner,
                       tokenize: Tokenizer, e: Effects)
    : (r: seq<Result<seq<string>, ConditionError>>)
    ensures |r| == |rules|
  {
    if rules == [] then []
    else
      RuleResults(rules[..|rules| - 1], workspace, focused, run, tokenize, e)
      + [EvalRule(rules[|rules| - 1], workspace, focused, run, tokenize, e)]
  }

  /** The outer loop: the rules in order, each one's lines after the
      previous ones'; the first condition error ends it. */
  function EvalRules(rules: seq<Rule>, workspace: string, focused: seq<WindowInfo>, run: Runner, tokenize: Tokenizer,
                     e: Effects)
    : Result<seq<string>, ConditionError>
  {
    Concat(RuleResults(rules, workspace, focused, run, tokenize, e))
  }

  /** The `k`-th step of the inner loop is the `k`-th window's. */
  lemma {:induction false} WindowResultsAt(name: string, condition: string, action: string, windows: seq<WindowInfo>,
                                          run: Runner, e: Effects, k: nat)
    requires k < |windows|
    ensures WindowResults(name, condition, action, windows, run, e)[k]
      == WindowStep(name, condition, action, windows[k], run, e)
  {
    var init := windows[..|windows| - 1];
    if k < |init| {
      WindowResultsAt(name, condition, action, init, run, e, k);
    }
  }

  /** The `k`-th step of the outer loop is the `k`-th rule's. */
  lemma {:induction false} RuleResultsAt(rules: seq<Rule>, workspace: string, focused: seq<WindowInfo>, run: Runner,
                                        tokenize: Tokenizer, e: Effects, k: nat)
    requires k < |rules|
    ensures RuleResults(rules, workspace, focused, run, tokenize, e)[k] == EvalRule(rules[k], workspace, focused, run, tokenize, e)
  {
    var init := rules[..|rules| - 1];
    if k < |init| {
      RuleResultsAt(init, workspace, focused, run, tokenize, e, k);
    }
  }

  /** `evaluate_rules_for_workspace`: every rule in turn; a window rule
      (when the workspace has windows) adds the lines of its inner loop, or
      ends the evaluation with that loop's condition error; an
      empty-workspace rule pushes its line when the workspace is empty and
      its own. The snapshot of all windows is accepted and ignored. The
      condition check, the action and the command are those of `e`; the
      daemon passes `Real`. */
  method EvaluateRulesForWorkspace(workspace: string, snapshot: seq<WindowInfo>, focused: seq<WindowInfo>,
                                   config: Config, run: Runner, tokenize: Tokenizer, e: Effects)
    returns (r: Result<seq<string>, ConditionError>)
    ensures r == EvalRules(config.rules, workspace, focused, run, tokenize, e)
  {
    ghost var steps := RuleResults(config.rules, workspace, focused, run, tokenize, e);
    var actionsPerformed: seq<string> := [];
    for i := 0 to |config.rules|
      invariant Concat(steps[..i]) == Ok(actionsPerformed)
    {
      assert steps[..i + 1] == steps[..i] + [steps[i]];
      ConcatSnoc(steps[..i], steps[i]);
      RuleResultsAt(config.rules, workspace, focused, run, tokenize, e, i);
      var lines := ApplyRule(config.rules[i], workspace, focused, run, tokenize, e);
      if lines.Err? {
        ConcatErrorPersists(steps, i + 1);
        return Err(lines.error);
      }
      actionsPerformed := actionsPerformed + lines.value;
    }
    assert steps[..|config.rules|] == steps;
    r := Ok(actionsPerformed);
  }

  /** The body of the outer loop for one rule: a window rule runs the
      inner loop when the workspace has windows; an empty-workspace rule
      runs its command and reports the outcome when the workspace is empty
      and its own. */
  method ApplyRule(rule: Rule, workspace: string, focused: seq<WindowInfo>, run: Runner, tokenize: Tokenizer,
                   e: Effects)
    returns (r: Result<seq<string>, ConditionError>)
    ensures r == EvalRule(rule, workspace, focused, run, tokenize, e)
  {
    match rule.ruleType {
      case Window(condition, action) =>
        if focused != [] {
          r := ApplyWindowRule(rule.name, condition, action, focused, run, e);
        } else {
          r := Ok([]);
        }
      case EmptyWorkspace(ruleWorkspace, command) =>
        if focused == [] && ruleWorkspace == workspace {
          var result := e.command(command, tokenize, run);
          r := Ok([EmptyWorkspaceMessage(rule.name, command, result)]);
        } else {
          r := Ok([]);
        }
    }
  }

  /** The inner loop of `evaluate_rules_for_workspace` for one window rule:
      each window in order; a condition error is returned at once, a window
      whose condition holds gets the action, and its line is pushed unless
      the action failed, in which case the loop just moves on. */
  method ApplyWindowRule(name: string, condition: string, action: string, windows: seq<WindowInfo>, run: Runner,
                         e: Effects)
    returns (r: Result<seq<string>, ConditionError>)
    ensures r == EvalWindows(name, condition, action, windows, run, e)
  {
    ghost var steps := WindowResults(name, condition, action, windows, run, e);
    var lines: seq<string> := [];
    for j := 0 to |windows|
      invariant Concat(steps[..j]) == Ok(lines)
    {
      var window := windows[j];
      assert steps[..j + 1] == steps[..j] + [steps[j]];
      ConcatSnoc(steps[..j], steps[j]);
      WindowResultsAt(name, condition, action, windows, run, e, j);
      var matched := e.matches(condition, window);
      if matched.Err? {
        ConcatErrorPersists(steps, j + 1);
        return Err(matched.error);
      }
      if matched.value {
        var applied := e.act(action, window, run);
        if applied.Err? {
          assert lines + [] == lines;
          continue;
        }
        lines := lines + [AppliedMessage(name, window, action)];
      } else {
        assert lines + [] == lines;
      }
    }
    assert steps[..|windows|] == steps;
    r := Ok(lines);
  }

  /** Evaluating two lists of rules one after the other: the first list's
      lines, then the second's, unless one of them fails. */
  lemma EvalRulesAppend(a: seq<Rule>, b: seq<Rule>, workspace: string, focused: seq<WindowInfo>,
                        run: Runner, tokenize: Tokenizer, e: Effects)
    ensures EvalRules(a + b, workspace, focused, run, tokenize, e) ==
      match EvalRules(a, workspace, focused, run, tokenize, e)
      case Err(err) => Err(err)
      case Ok(x) =>
        match EvalRules(b, workspace, focused, run, tokenize, e)
        case Err(err) => Err(err)
        case Ok(y) => Ok(x + y)
  {
    var ra := RuleResults(a, workspace, focused, run, tokenize, e);
    var rb := RuleResults(b, workspace, focused, run, tokenize, e);
    var rab := RuleResults(a + b, workspace, focused, run, tokenize, e);
    forall k | 0 <= k < |rab| ensures rab[k] == (ra + rb)[k] {
      RuleResultsAt(a + b, workspace, focused, run, tokenize, e, k);
      if k < |a| {
        assert (a + b)[k] == a[k];
        RuleResultsAt(a, workspace, focused, run, tokenize, e, k);
      } else {
        assert (a + b)[k] == b[k - |a|];
        RuleResultsAt(b, workspace, focused, run, tokenize, e, k - |a|);
      }
    }
    assert rab == ra + rb;
    ConcatAppend(ra, rb);
  }

  /** A window rule's condition holds for `w` and its action succeeds. */
  predicate Applies(condition: string, action: string, w: WindowInfo, run: Runner, e: Effects) {
    e.matches(condition, w) == Ok(true) && e.act(action, w, run).Ok?
  }

  /** The windows a window rule is applied to, in order: those its
      condition holds for and its action succeeds on. */
  function AppliedWindows(condition: string, action: string, windows: seq<WindowInfo>, run: Runner, e: Effects)
    : (r: seq<WindowInfo>)
    ensures |r| <= |windows|
    ensures forall k :: 0 <= k < |r| ==> r[k] in windows && Applies(condition, action, r[k], run, e)
    ensures forall w :: w in windows && Applies(condition, action, w, run, e) ==> w in r
  {
    if windows == [] then []
    else
      var rest := AppliedWindows(condition, action, windows[1..], run, e);
      assert forall w :: w in windows[1..] ==> w in windows;
      assert forall w :: w in windows && w != windows[0] ==> w in windows[1..];
      if Applies(condition, action, windows[0], run, e) then [windows[0]] + rest else rest
  }

  /** The applied lines for the given windows, in order. */
  function AppliedMessages(name: string, action: string, windows: seq<WindowInfo>): (r: seq<string>)
    ensures |r| == |windows|
    ensures forall k :: 0 <= k < |r| ==> r[k] == AppliedMessage(name, windows[k], action)
  {
    if windows == [] then [] else [AppliedMessage(name, windows[0], action)] + AppliedMessages(name, action, windows[1..])
  }

  lemma {:induction false} AppliedWindowsSnoc(condition: string, action: string, init: seq<WindowInfo>, w: WindowInfo,
                                             run: Runner, e: Effects)
    ensures AppliedWindows(condition, action, init + [w], run, e) ==
      AppliedWindows(condition, action, init, run, e) + (if Applies(condition, action, w, run, e) then [w] else [])
  {
    if init == [] {
      assert [] + [w] == [w];
    } else {
      assert (init + [w])[1..] == init[1..] + [w];
      AppliedWindowsSnoc(condition, action, init[1..], w, run, e);
    }
  }

  lemma {:induction false} AppliedMessagesAppend(name: string, action: string, a: seq<WindowInfo>, b: seq<WindowInfo>)
    ensures AppliedMessages(name, action, a + b) == AppliedMessages(name, action, a) + AppliedMessages(name, action, b)
  {
    var l, r := AppliedMessages(name, action, a + b), AppliedMessages(name, action, a) + AppliedMessages(name, action, b);
    forall k | 0 <= k < |l| ensures l[k] == r[k] {
      if k < |a| {
        assert (a + b)[k] == a[k];
      } else {
        assert (a + b)[k] == b[k - |a|];
      }
    }
  }

  /** The inner loop fails exactly when the condition cannot be evaluated
      on some window, and then with the error of the first such window. */
  lemma EvalWindowsFailsIff(name: string, condition: string, action: string,
                            windows: seq<WindowInfo>, run: Runner, e: Effects)
    ensures EvalWindows(name, condition, action, windows, run, e).Ok? <==>
      forall k :: 0 <= k < |windows| ==> e.matches(condition, windows[k]).Ok?
    ensures EvalWindows(name, condition, action, windows, run, e).Err? ==>
      exists k :: 0 <= k < |windows|
        && e.matches(condition, windows[k]) == Err(EvalWindows(name, condition, action, windows, run, e).error)
        && forall j :: 0 <= j < k ==> e.matches(condition, windows[j]).Ok?
  {
    var steps := WindowResults(name, condition, action, windows, run, e);
    ConcatFailsIff(steps);
    forall k | 0 <= k < |windows|
      ensures steps[k] == WindowStep(name, condition, action, windows[k], run, e)
    {
      WindowResultsAt(name, condition, action, windows, run, e, k);
    }
  }

  /** The inner loop, stated without the loop: when it succeeds it yields
      one applied line per window the rule applies to, in window order,
      and no line for a window whose condition fails to hold or whose
      action fails. */
  lemma {:induction false} EvalWindowsFilters(name: string, condition: string, action: string,
                                             windows: seq<WindowInfo>, run: Runner, e: Effects)
    ensures EvalWindows(name, condition, action, windows, run, e).Ok? ==>
      EvalWindows(name, condition, action, windows, run, e).value ==
        AppliedMessages(name, action, AppliedWindows(condition, action, windows, run, e))
  {
    if windows != [] {
      var init, w := windows[..|windows| - 1], windows[|windows| - 1];
      var steps := WindowResults(name, condition, action, init, run, e);
      var step := WindowStep(name, condition, action, w, run, e);
      assert WindowResults(name, condition, action, windows, run, e) == steps + [step];
      ConcatSnoc(steps, step);
      if EvalWindows(name, condition, action, windows, run, e).Ok? {
        assert windows == init + [w];
        EvalWindowsFilters(name, condition, action, init, run, e);
        AppliedWindowsSnoc(condition, action, init, w, run, e);
        var before := AppliedWindows(condition, action, init, run, e);
        var extra := if Applies(condition, action, w, run, e) then [w] else [];
        AppliedMessagesAppend(name, action, before, extra);
        assert step.value == AppliedMessages(name, action, extra);
      }
    }
  }

  /** A window rule whose condition cannot be evaluated on one of the
      workspace's windows. */
  predicate ConditionFails(rule: Rule, focused: seq<WindowInfo>, e: Effects) {
    rule.ruleType.Window?
    && exists j :: 0 <= j < |focused| && e.matches(rule.ruleType.condition, focused[j]).Err?
  }

  /** One rule fails exactly when it is a window rule whose condition
      cannot be evaluated on some window of the workspace. */
  lemma EvalRuleFailsIff(rule: Rule, workspace: string, focused: seq<WindowInfo>, run: Runner, tokenize: Tokenizer,
                         e: Effects)
    ensures EvalRule(rule, workspace, focused, run, tokenize, e).Err? <==> ConditionFails(rule, focused, e)
  {
    if rule.ruleType.Window? && focused != [] {
      EvalWindowsFailsIff(rule.name, rule.ruleType.condition, rule.ruleType.action, focused, run, e);
    }
  }

  /** A condition error anywhere aborts everything: the evaluation fails
      exactly when some window rule's condition cannot be evaluated on some
      window of the workspace, and then with the error of the first rule
      that fails, no rule before it failing. */
  lemma EvalRulesFailsIff(rules: seq<Rule>, workspace: string, focused: seq<WindowInfo>,
                          run: Runner, tokenize: Tokenizer, e: Effects)
    ensures EvalRules(rules, workspace, focused, run, tokenize, e).Err? <==>
      exists i :: 0 <= i < |rules| && ConditionFails(rules[i], focused, e)
    ensures EvalRules(rules, workspace, focused, run, tokenize, e).Err? ==>
      exists i :: 0 <= i < |rules|
        && EvalRule(rules[i], workspace, focused, run, tokenize, e)
           == Err(EvalRules(rules, workspace, focused, run, tokenize, e).error)
        && forall j :: 0 <= j < i ==> !ConditionFails(rules[j], focused, e)
  {
    var steps := RuleResults(rules, workspace, focused, run, tokenize, e);
    ConcatFailsIff(steps);
    forall i | 0 <= i < |rules|
      ensures steps[i] == EvalRule(rules[i], workspace, focused, run, tokenize, e)
      ensures steps[i].Err? <==> ConditionFails(rules[i], focused, e)
    {
      RuleResultsAt(rules, workspace, focused, run, tokenize, e, i);
      EvalRuleFailsIff(rules[i], workspace, focused, run, tokenize, e);
    }
  }

  /** The number of empty-workspace rules for `workspace`. */
  function EmptyRulesFor(rules: seq<Rule>, workspace: string): (n: nat)
    ensures n <= |rules|
    ensures n == 0 <==> forall k :: 0 <= k < |rules| ==>
      !(rules[k].ruleType.EmptyWorkspace? && rules[k].ruleType.workspace == workspace)
    ensures n == |rules| <==> forall k :: 0 <= k < |rules| ==>
      rules[k].ruleType.EmptyWorkspace? && rules[k].ruleType.workspace == workspace
  {
    if rules == [] then 0
    else
      var last := rules[|rules| - 1];
      EmptyRulesFor(rules[..|rules| - 1], workspace)
      + (if last.ruleType.EmptyWorkspace? && last.ruleType.workspace == workspace then 1 else 0)
  }

  /** With no windows in the workspace, the evaluation cannot fail and
      yields exactly one line per empty-workspace rule for that workspace. */
  lemma {:induction false} EmptyWorkspaceOutcomes(rules: seq<Rule>, workspace: string, run: Runner,
                                                 tokenize: Tokenizer, e: Effects)
    ensures EvalRules(rules, workspace, [], run, tokenize, e).Ok?
    ensures |EvalRules(rules, workspace, [], run, tokenize, e).value| == EmptyRulesFor(rules, workspace)
  {
    if rules != [] {
      var init, last := rules[..|rules| - 1], rules[|rules| - 1];
      EmptyWorkspaceOutcomes(init, workspace, run, tokenize, e);
      EvalRuleOutcome(last, workspace, [], run, tokenize, e);
      ConcatSnoc(RuleResults(init, workspace, [], run, tokenize, e), EvalRule(last, workspace, [], run, tokenize, e));
    }
  }

  /** The window rules of a list, in order. */
  function WindowRules(rules: seq<Rule>): (r: seq<Rule>)
    ensures |r| <= |rules|
    ensures forall k :: 0 <= k < |r| ==> r[k] in rules && r[k].ruleType.Window?
    ensures forall x :: x in rules && x.ruleType.Window? ==> x in r
    ensures |r| == |rules| <==> forall k :: 0 <= k < |rules| ==> rules[k].ruleType.Window?
  {
    if rules == [] then []
    else
      var last := rules[|rules| - 1];
      WindowRules(rules[..|rules| - 1]) + (if last.ruleType.Window? then [last] else [])
  }

  /** With windows in the workspace, the empty-workspace rules contribute
      nothing: evaluating all the rules is evaluating the window rules. */
  lemma {:induction false} OccupiedWorkspaceIgnoresEmptyRules(rules: seq<Rule>, workspace: string,
                                                             focused: seq<WindowInfo>, run: Runner,
                                                             tokenize: Tokenizer, e: Effects)
    requires focused != []
    ensures EvalRules(rules, workspace, focused, run, tokenize, e)
      == EvalRules(WindowRules(rules), workspace, focused, run, tokenize, e)
  {
    if rules != [] {
      var init, last := rules[..|rules| - 1], rules[|rules| - 1];
      OccupiedWorkspaceIgnoresEmptyRules(init, workspace, focused, run, tokenize, e);
      var step := EvalRule(last, workspace, focused, run, tokenize, e);
      EvalRuleOutcome(last, workspace, focused, run, tokenize, e);
      ConcatSnoc(RuleResults(init, workspace, focused, run, tokenize, e), step);
      var windowRules := WindowRules(init);
      if last.ruleType.Window? {
        assert (windowRules + [last])[..|windowRules|] == windowRules;
        ConcatSnoc(RuleResults(windowRules, workspace, focused, run, tokenize, e), step);
      } else {
        assert WindowRules(rules) == windowRules + [];
        assert windowRules + [] == windowRules;
        assert step == Ok([]);
        var ev := EvalRules(init, workspace, focused, run, tokenize, e);
        if ev.Ok? {
          assert ev.value + [] == ev.value;
        }
      }
    }
  }

  /** The value of the tests' condition, cleaned, is the bare name. */
  lemma CleanQuotedGhostty()
    ensures CleanValue("'Ghostty'") == "Ghostty"
  {
    assert Trim("'Ghostty'") == "'Ghostty'";
    assert TrimMatches("'Ghostty'", '\'') == "Ghostty";
    assert TrimMatches("Ghostty", '"') == "Ghostty";
  }

  /** The condition of the tests, "app-name = 'Ghostty'", splits at its
      one " = " into the field `app-name` and the value 'Ghostty'. */
  lemma GhosttyConditionShape()
    ensures "app-name" + EqualsSeparator + "'Ghostty'" == "app-name = 'Ghostty'"
    ensures !Contains("app-name" + EqualsSeparator[..2], EqualsSeparator)
    ensures !Contains("'Ghostty'", EqualsSeparator)
    ensures Trim("app-name") == "app-name"
  {
    NoSeparatorBeforeJunction("app-name", EqualsSeparator);
    NoSeparatorWithoutMiddle("'Ghostty'", EqualsSeparator);
  }

  /** The condition of the tests, "app-name = 'Ghostty'", holds for every
      Ghostty window. */
  lemma GhosttyConditionHolds(w: WindowInfo)
    requires w.appName == "Ghostty"
    ensures MatchesCondition("app-name = 'Ghostty'", w) == Ok(true)
  {
    GhosttyConditionShape();
    CleanQuotedGhostty();
    EqualsCondition("app-name", "'Ghostty'", w);
  }

  /** "maximize" on window 7 runs `aerospace fullscreen --window-id 7`, and
      succeeds when that command does; its line names the window. */
  lemma MaximizeWindowSeven(w: WindowInfo, run: Runner)
    requires w.windowId == 7
    requires Succeeded(run(Process(Program, ["fullscreen", "--window-id", "7"])))
    ensures ExecuteAction("maximize", w, run).Ok?
    ensures AppliedMessage("Test Rule", w, "maximize") == "Applied 'Test Rule' to " + w.appName + " (ID: 7): maximize"
  {
    assert NatToString(7) == "7";
  }

  /** A single window rule on a workspace with a single window it applies
      to yields exactly that window's applied line. */
  lemma SingleRuleSingleWindow(rule: Rule, workspace: string, w: WindowInfo, run: Runner, tokenize: Tokenizer,
                               e: Effects)
    requires rule.ruleType.Window?
    requires Applies(rule.ruleType.condition, rule.ruleType.action, w, run, e)
    ensures EvalRules([rule], workspace, [w], run, tokenize, e)
      == Ok([AppliedMessage(rule.name, w, rule.ruleType.action)])
  {
    var line := AppliedMessage(rule.name, w, rule.ruleType.action);
    var stepped: Result<seq<string>, ConditionError> := Ok([line]);
    assert WindowStep(rule.name, rule.ruleType.condition, rule.ruleType.action, w, run, e) == stepped;
    assert WindowResults(rule.name, rule.ruleType.condition, rule.ruleType.action, [w], run, e) == [stepped];
    assert Concat([stepped]) == stepped by {
      ConcatSnoc([], stepped);
      assert [] + [stepped] == [stepped];
      assert [] + [line] == [line];
    }
    assert EvalRule(rule, workspace, [w], run, tokenize, e) == stepped;
    assert RuleResults([rule], workspace, [w], run, tokenize, e) == [stepped];
  }
}
