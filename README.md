# aerospace-rules, modelled in Dafny

aerospace-rules is a daemon for the AeroSpace tiling window manager. It keeps
a cached list of every window, tagged with its workspace. It loads a TOML file
of rules and answers client requests over a Unix socket. Clients can get the
windows, get the configuration, force a reload, or evaluate the rules for one
workspace.

There are two kinds of rule:

- A *window* rule has a condition (`field = 'value'` or `field > number`) and
  an action (`move-to-workspace <ws>` or `maximize`). It is applied to each
  window of the workspace for which the condition holds.
- An *empty-workspace* rule runs a shell-style command when its workspace has
  no windows.

This project models the sequential logic of the daemon:

| file | module | models |
|---|---|---|
| `wrappers.dfy` | `Wrappers` | `Option` and `Result` |
| `text.dfy` | `Text` | the parts of Rust's `str` the daemon uses: `trim` (the Unicode White_Space set), `trim_matches`, `contains`, `find`, `split`, `lines`, `u32::from_str` and `to_string` |
| `paths.dfy` | `Paths` | Unix `Path`/`PathBuf`: `join`, `is_absolute`, `components` equality and `file_name`. The environment is a map. The disk is a map from path strings to file entries. |
| `aerospace.dfy` | `Aerospace` | `src/aerospace.rs`: `execute_command`, `list_workspaces`, `list_windows_in_workspace` and the fail-fast tag-and-concatenate loop of `list_windows` |
| `config.dfy` | `Configuration` | `src/config.rs`: the rule schema, the serde mapping from a TOML tree onto it, `find_config_file`, `load_config_from_path` and `load_config` |
| `rules.dfy` | `Rules` | `src/rules.rs`: `matches_condition`, `execute_action`, `execute_empty_workspace_command` and the nested loops of `evaluate_rules_for_workspace` |
| `protocol.dfy` | `Protocol` | `src/lib.rs`: `Request`, `Response` and `ServiceState` |
| `service.dfy` | `Service` | `src/bin/service.rs`: the daemon as a class `Daemon` whose methods update `windows`, `config` and `configPath` in place. This covers `refresh_state`, `refresh_config_only`, the loop of `watch_config_file`, the request dispatch of `handle_client`, `get_config_file_path` and the start of `main`. |

Whatever the daemon reads from outside is a parameter, and every property
holds whatever those parameters answer. The parameters are functions, so within
one transition the same process gets the same answer each time it is run (see
"## Left out"):

- programs it runs: `run: Process -> ProcessOutput`;
- JSON decoding of `list-windows`: `parseJson`;
- TOML parsing, up to the document tree: `parseToml`;
- `shlex::split`: `tokenize`;
- environment variables, the disk and the current directory: `Service.Host`
  bundles these for the daemon.

The loops of `evaluate_rules_for_workspace` are stated for any per-window
condition check, action and per-rule command, bundled as a `Rules.Effects`
value. The daemon instantiates them with `Rules.Real`, the module's own
`MatchesCondition`, `ExecuteAction` and `ExecuteEmptyWorkspaceCommand`.

Each imperative part of the source is a method proved against a function:

| method | proved against |
|---|---|
| `Aerospace.GatherWindows` | `CollectWindows` |
| `Rules.EvaluateRulesForWorkspace` | `EvalRules` |
| `Rules.ApplyWindowRule` | `EvalWindows` |
| `Service.Daemon.RefreshState` | `Refreshed` |
| `Service.Daemon.WatchConfigFile` | `AfterEvents` |

The lemmas state what the source promises about those functions.

## Notes on behaviour

- A condition that cannot be evaluated aborts the whole evaluation. The `?` at
  src/rules.rs:33 returns the error, and the daemon then answers
  `Error("Rule evaluation failed: …")`; no later window or rule is looked at.
- A file that parses as TOML but has no `rules` array is not a configuration.
  `Config.rules` has no serde default, so such a file loads as none, not as
  an empty rule set (`Configuration.EmptyDocumentIsNotAConfig`).
- A request that needs a configuration when none is loaded is answered with
  the error text "No config loaded" (src/bin/service.rs:49,72).

## Model

| member | source | states |
|---|---|---|
| `Text.TrimBySpec` | src/rules.rs:93-94 | `trim`/`trim_matches` leave the infix of the input obtained by dropping every leading and trailing droppable character; neither end of the result is droppable |
| `Text.TrimIdempotent` | src/aerospace.rs:43 | trimming an already trimmed string changes nothing |
| `Text.TrimIgnoresTrailingWhitespace` | src/aerospace.rs:42-43 | a trailing whitespace character, such as a `\r` left before a newline, does not change the trim |
| `Text.IndexOf` | src/rules.rs:87 | `find`: the result is an occurrence and no earlier index is one; none exactly when the pattern does not occur (`contains` is false) |
| `Text.Split` | src/rules.rs:88 | `split(sep)`: joining the pieces with `sep` gives back the input; no piece contains `sep`; a single piece exactly when `sep` does not occur; each cut is at the leftmost occurrence after the previous cut, so no occurrence starts inside a piece, even overlapping the cut |
| `Text.SplitAtSoleSeparator` | src/rules.rs:88-94 | when `sep` occurs only at the junction of `a + sep + b`, splitting gives exactly `[a, b]` |
| `Text.TrimNonBlank` | src/aerospace.rs:43-44 | the map-trim-filter pipeline keeps no empty element and never grows the list |
| `Text.TrimNonBlankTrimmed` | src/aerospace.rs:43-44 | every element the pipeline keeps is already trimmed |
| `Text.TrimNonBlankAppend` | src/aerospace.rs:42-45 | the pipeline works element by element: on a concatenation it gives the concatenation of its results, in order |
| `Text.LinesCleanedAsSplit` | src/aerospace.rs:42-45 | after trimming and dropping blanks, `lines()` (with its `\r\n` handling and optional last newline) gives the same list as splitting at every "\n" |
| `Text.ParseDigitsSpec` | src/rules.rs:109 | a string of digits parses exactly when every character is a digit and the value fits in a `u32`, and then yields that value |
| `Text.ParseU32Spec` | src/rules.rs:109 | `u32::from_str` accepts an optional `+` followed by at least one digit, with a value at most 4294967295, and yields that value |
| `Text.NatToString` | src/rules.rs:138 | `to_string` of a number is a non-empty string of decimal digits denoting that number, with no leading zero |
| `Text.ParseU32OfNatToString` | src/rules.rs:138 | printing a `u32` and parsing it back gives the same number |
| `Paths.ReadToString` | src/config.rs:59 | `read_to_string` succeeds only on a path that exists |
| `Paths.Join` | src/config.rs:31-33 | `PathBuf::join`: an absolute right side replaces the base; otherwise the right side follows the base, with one "/" in between unless the base is empty or already ends in "/"; joining onto an absolute base gives an absolute path |
| `Paths.FileName` | src/bin/service.rs:202 | `file_name` is a normal component: never empty, "." or ".." |
| `Paths.SamePathSameFileName` | src/bin/service.rs:202 | paths equal as `Path`s have the same file name |
| `Aerospace.ExecuteCommand` | src/aerospace.rs:26-38 | the command succeeds exactly when the process started, exited with success and printed valid UTF-8, and then its answer is that output |
| `Aerospace.ListWorkspaces` | src/aerospace.rs:40-47 | `list_workspaces` fails exactly when its command fails; no listed workspace is empty |
| `Aerospace.ListWorkspacesAreCleanLines` | src/aerospace.rs:41-46 | the workspace ids are the output's lines, each trimmed, blanks dropped, in order, and each id is its own trim |
| `Aerospace.ListWindowsInWorkspace` | src/aerospace.rs:49-52 | the query succeeds exactly when its command succeeds and its output decodes as JSON, and then its records are the decoded output |
| `Aerospace.TagAll` | src/aerospace.rs:60-66 | one window per record, in order, each the record with its workspace added |
| `Aerospace.ListWindows` | src/aerospace.rs:54-71 | `list_windows` returns what `AllWindows` specifies: the error of `list_workspaces`, or the walk over the listed workspaces |
| `Aerospace.GatherWindows` | src/aerospace.rs:56-70 | the loop with its early `?` exit computes exactly `CollectWindows` over the workspaces |
| `Aerospace.PushTagged` | src/aerospace.rs:60-67 | the inner loop appends the workspace's records, tagged, after the windows found so far |
| `Aerospace.CollectWindowsStep` | src/aerospace.rs:58-68 | one more workspace: the previous error, or this query's error, or its tagged records appended |
| `Aerospace.CollectWindowsErrorPersists` | src/aerospace.rs:59 | once a query has failed, later workspaces cannot change the result |
| `Aerospace.CollectWindowsFailFast` | src/aerospace.rs:55-59 | the walk succeeds exactly when every query does; otherwise it returns the error of the first failing query, with no partial list |
| `Aerospace.CollectWindowsContents` | src/aerospace.rs:58-68 | on success the result's length is the sum of the queries' record counts, and every window is some query's record, with app name, id and title copied and the workspace set to the one queried |
| `Aerospace.CollectWindowsAppend` | src/aerospace.rs:58-68 | the result is the in-order concatenation: walking `a + b` gives the walk of `a` followed by the walk of `b` |
| `Configuration.StringField` | src/config.rs:11-25 | a required `String` field is present exactly when the key holds a TOML string, and then it is that string |
| `Configuration.DecodeRuleType` | src/config.rs:17-25 | a rule type decodes as `Window` exactly when `type = "window"` with string `condition` and `action`, and as `EmptyWorkspace` exactly when `type = "empty-workspace"` with string `workspace` and `command`, carrying those strings |
| `Configuration.DecodeRule` | src/config.rs:11-16 | a rule decodes exactly when it is a table with a string `name` and a decodable type, flattened beside it |
| `Configuration.DecodeRules` | src/config.rs:8 | the rule list decodes exactly when every entry does, keeping count and order |
| `Configuration.DecodeConfig` | src/config.rs:6-9 | a document is a configuration exactly when it is a table whose `rules` is an array of decodable rules |
| `Configuration.EmptyDocumentIsNotAConfig` | src/config.rs:7-9 | a document without `rules` is no configuration, because the field has no default |
| `Configuration.EncodeRules` | src/config.rs:8 | serialization keeps count and order |
| `Configuration.DecodeEncodeRule` | src/config.rs:11-25 | every rule survives serialization and deserialization unchanged |
| `Configuration.DecodeEncodeConfig` | src/config.rs:6-25 | every configuration survives serialization and deserialization unchanged |
| `Configuration.DecodeRuleIgnoresOtherKeys` | src/config.rs:11-25 | keys outside the schema do not affect how a rule decodes |
| `Configuration.XdgConfigPath` | src/config.rs:28-33 | the XDG candidate is `<base>/aerospace/rules.toml` (no extra "/" after a base ending in one), the base being `$XDG_RUNTIME_DIR`, or `$HOME/.config` when that is unset, giving `$HOME/.config/aerospace/rules.toml` |
| `Configuration.HomeConfigPath` | src/config.rs:39 | the home candidate is `<home>/.aerospace-rules.toml`, with no extra "/" after a home ending in one |
| `Configuration.FindConfigFile` | src/config.rs:27-46 | discovery returns the XDG path when it exists, else the home dotfile when HOME is set and it exists, else none; whatever it returns exists |
| `Configuration.LoadFile` | src/config.rs:59-60 | a load yields a configuration only from an existing, readable file whose content parses and decodes; a missing file yields none; a readable file that parses yields exactly the decoding of its document |
| `Configuration.LoadConfigFromPath` | src/config.rs:52-61 | an explicit path is read as given, with no discovery; without one, discovery is used, and no file found means none |
| `Configuration.LoadConfig` | src/config.rs:48-50 | `load_config()` is `load_config_from_path(None)`, and it loads only when discovery finds a file |
| `Configuration.LoadedRulesMatchDocument` | src/config.rs:69-113 | a successful load keeps the document's rule count, order, names, type tags and fields |
| `Configuration.LoadRoundTrip` | src/config.rs:52-61 | a file whose content parses to the encoding of a configuration loads as exactly that configuration |
| `Configuration.WindowAndEmptyWorkspaceRulesLoad` | src/config.rs:168-211 | the mixed window and empty-workspace file loads as the two expected rules |
| `Rules.MatchesCondition` | src/rules.rs:83-123 | a condition is "unsupported format" exactly when it contains neither " = " nor " > " |
| `Rules.MalformedCondition` | src/rules.rs:87-106 | a condition that does not split into exactly two parts around its separator (" = " tested first) is an invalid-format error |
| `Rules.EqualsCondition` | src/rules.rs:87-101 | `app-name`/`app-id` compare `app_name` with the value after trim, then stripping `'`, then `"`; `window-title` tests containment; `workspace` compares exactly; any other field is an error naming the trimmed field; this holds even if " > " also occurs |
| `Rules.GreaterCondition` | src/rules.rs:102-119 | an unparsable number is an error with the parse error; `window-width > n` is `n < 1200` whatever the window; `window-id > n` is a strict comparison; any other field is an error |
| `Rules.WindowIdComparisonIsStrict` | src/rules.rs:117 | `window-id > 5` holds exactly for ids above 5, and so not for id 5 |
| `Rules.NoSeparatorWithoutMiddle` | src/rules.rs:102 | a separator cannot occur in a string that lacks its middle character |
| `Rules.NoSeparatorBeforeJunction` | src/rules.rs:88 | a field without the separator's middle character followed by the separator has no earlier occurrence of it |
| `Rules.ActionProcess` | src/rules.rs:131-160 | `move-to-workspace <t>` runs exactly `aerospace move --window-id <id> --workspace <t>`; otherwise `maximize` runs exactly `aerospace fullscreen --window-id <id>`; the id is printed in decimal and parses back to the window's id; nothing else runs a command |
| `Rules.ExecuteAction` | src/rules.rs:125-176 | an action succeeds exactly when it is a known one and its command exits with success; an unknown action fails as unknown |
| `Rules.UnknownActionRunsNothing` | src/rules.rs:171-173 | an unknown action fails the same way whatever the process oracle would answer, so it runs nothing |
| `Rules.ExecuteEmptyWorkspaceCommand` | src/rules.rs:178-213 | a command succeeds exactly when it tokenizes to a non-empty list and that program with those arguments exits with success; an untokenizable line and an empty list fail with their own errors |
| `Rules.WindowStep` | src/rules.rs:32-51 | per window: an error exactly when the condition errs (with that error); otherwise at most one line, present exactly when the condition holds and the action succeeds, and then the applied message |
| `Rules.ConcatAppend` | src/rules.rs:25-53 | first-error concatenation of step results distributes over appending steps |
| `Rules.ConcatErrorPersists` | src/rules.rs:33 | once a step has failed, later steps cannot change the result |
| `Rules.ConcatFailsIff` | src/rules.rs:33 | concatenation fails exactly when some step fails, and then with the error of the first failing step |
| `Rules.EvalRuleOutcome` | src/rules.rs:29-76 | a window rule adds nothing when the window list is empty; an empty-workspace rule never fails and adds exactly one line (success or failure text) exactly when the list is empty and its workspace equals the requested one |
| `Rules.EvaluateRulesForWorkspace` | src/rules.rs:8-81 | the loop over the rules computes exactly `EvalRules`, which does not depend on the `_windows` snapshot |
| `Rules.ApplyRule` | src/rules.rs:28-77 | one iteration of the outer loop computes exactly `EvalRule` |
| `Rules.ApplyWindowRule` | src/rules.rs:29-54 | the inner loop, with its `?` and its `continue`, computes exactly `EvalWindows` |
| `Rules.EvalRulesAppend` | src/rules.rs:25-78 | outcomes follow rule order: evaluating `a + b` gives the outcomes of `a` followed by those of `b`, unless one fails |
| `Rules.AppliedWindows` | src/rules.rs:32-51 | the windows a rule is applied to are exactly those, among the workspace's windows, where the condition holds and the action succeeds |
| `Rules.AppliedMessages` | src/rules.rs:47-50 | one applied message per applied window, in order |
| `Rules.AppliedWindowsSnoc` | src/rules.rs:32 | the applied windows follow window order |
| `Rules.AppliedMessagesAppend` | src/rules.rs:47-50 | messages of concatenated window lists concatenate |
| `Rules.EvalWindowsFailsIff` | src/rules.rs:33 | a window rule fails exactly when its condition errs on some window, and then with the error of the first such window |
| `Rules.EvalWindowsFilters` | src/rules.rs:32-51 | on success a window rule's outcomes are the applied messages of the windows it applies to, in window order, with none where the action failed |
| `Rules.EvalRuleFailsIff` | src/rules.rs:28-77 | a rule fails exactly when it is a window rule whose condition errs on some window |
| `Rules.EvalRulesFailsIff` | src/rules.rs:25-80 | the evaluation returns an error, and no outcome list, exactly when some rule's condition errs on some window; the error is that of the first failing rule |
| `Rules.EmptyRulesFor` | src/rules.rs:55-76 | the number of empty-workspace rules for a workspace is at most the number of rules; it is zero exactly when no rule is one, and all of them exactly when every rule is one |
| `Rules.EmptyWorkspaceOutcomes` | src/rules.rs:29-76 | for an empty workspace the evaluation never fails and records exactly one outcome per empty-workspace rule for that workspace |
| `Rules.WindowRules` | src/rules.rs:29 | the window rules are exactly the configuration's rules of window type: each kept one is one, every one is kept, and nothing is dropped exactly when all rules are window rules |
| `Rules.OccupiedWorkspaceIgnoresEmptyRules` | src/rules.rs:55-60 | for a workspace with windows, empty-workspace rules contribute nothing: the result is that of the window rules alone |
| `Rules.CleanQuotedGhostty` | src/rules.rs:94 | the value `'Ghostty'` cleans to `Ghostty` |
| `Rules.GhosttyConditionShape` | src/config.rs:143 | `app-name = 'Ghostty'` is the field, the separator and the quoted value, with the separator only at the junction |
| `Rules.GhosttyConditionHolds` | src/rules.rs:87-97 | the condition `app-name = 'Ghostty'` holds for every window of the Ghostty application |
| `Rules.MaximizeWindowSeven` | src/rules.rs:157-170 | `maximize` on window 7 succeeds when `aerospace fullscreen --window-id 7` does, and the outcome reads "Applied 'Test Rule' to <app> (ID: 7): maximize" |
| `Rules.SingleRuleSingleWindow` | src/rules.rs:25-80 | one window rule that applies to the only window gives exactly its one applied message |
| `Service.LoadForPath` | src/bin/service.rs:127-133 | a refresh loads from the command-line path when there is one, otherwise by discovery |
| `Service.Refreshed` | src/bin/service.rs:116-140 | a failed window listing changes nothing, not even the configuration; otherwise windows become the new list and the configuration the load result (possibly none); the path never changes |
| `Service.ConfigReloaded` | src/bin/service.rs:142-160 | only the configuration is replaced, by the load result; windows and path are untouched |
| `Service.AfterEvent` | src/bin/service.rs:199-218 | a relevant create or modify reloads the configuration from the daemon's own path and changes nothing else; a relevant removal clears the configuration; an irrelevant event changes nothing; windows and path are never touched; any change comes from a relevant create, modify or remove |
| `Service.Respond` | src/bin/service.rs:40-75 | only `Reload` changes the state, and no request changes the configured path |
| `Service.GetConfigFilePath` | src/bin/service.rs:83-114 | an absolute explicit path, or any explicit path when the current directory is unknown, is returned as given; a relative one is joined onto the current directory; without one, the XDG file when it exists, else the HOME dotfile whether or not it exists, else none |
| `Service.Daemon.RefreshState` | src/bin/service.rs:116-140 | the in-place update gives the state `Refreshed` specifies |
| `Service.Daemon.RefreshConfigOnly` | src/bin/service.rs:142-160 | the in-place update gives the state `ConfigReloaded` specifies |
| `Service.Daemon.HandleWatchEvent` | src/bin/service.rs:199-219 | one event's handling gives the state `AfterEvent` specifies |
| `Service.Daemon.WatchConfigFile` | src/bin/service.rs:197-220 | the event loop gives the state `AfterEvents` specifies |
| `Service.Daemon.HandleClient` | src/bin/service.rs:40-75 | the dispatch gives the answer and state `Respond` specifies |
| `Service.Start` | src/bin/service.rs:241-251 | start-up creates a fresh daemon with no windows, no configuration and the command-line path, refreshes it once, and watches the path `get_config_file_path` resolves |
| `Service.RefreshIdempotent` | src/bin/service.rs:116-140 | refreshing twice against the same host is refreshing once |
| `Service.RefreshAbsorbsReload` | src/bin/service.rs:127-154 | when the windows can be listed, a refresh overwrites whatever a config-only reload did |
| `Service.WatchKeepsWindowsAndPath` | src/bin/service.rs:197-220 | watching never changes the windows or the configured path |
| `Service.IrrelevantEventsChangeNothing` | src/bin/service.rs:199-204 | a run of irrelevant events leaves the state as it was |
| `Service.RemovalSticks` | src/bin/service.rs:210-214 | after a relevant removal the configuration stays absent until a relevant create or modify |
| `Service.EditReloads` | src/bin/service.rs:203-209 | after a relevant create or modify, the configuration is the one loaded from the daemon's own path against the host of that event, as long as no later event creates, modifies or removes the watched file |
| `Service.KeepsNoConfig` | src/bin/service.rs:204-218 | an event other than a relevant create or modify cannot bring a configuration back |
| `Service.NoEditKeepsState` | src/bin/service.rs:203-218 | an event that does not create, modify or remove the watched file leaves the state unchanged |
| `Service.RelevantIffSameFileName` | src/bin/service.rs:199-202 | since equal paths have equal file names, relevance is the same as some path sharing the watched file's name |
| `Service.WatchedPathIsDiscoveredFile` | src/bin/service.rs:97-112 | without an explicit path, the watched path is the file discovery finds; when discovery finds none but HOME is set, it is the home dotfile, which need not exist |
| `Service.AbsoluteExplicitPath` | src/bin/service.rs:84-89 | an absolute explicit path is watched unchanged, and a config-only reload reads exactly that file |
| `Service.StartupWithoutWindowManager` | src/bin/service.rs:244-251 | if the windows cannot be listed at start-up, the daemon starts with no windows and no configuration |
| `Service.ConfigRequests` | src/bin/service.rs:41-72 | `GetWindows` answers the cached windows; `GetConfig` answers `Config(c)` exactly when the configuration is `Some(c)`, else "No config loaded", as does `EvaluateRules`; `Reload` refreshes and answers `Success` |
| `Service.EvaluateRulesAnswer` | src/bin/service.rs:56-71 | with a configuration, an evaluation's outcomes are answered as `RulesEvaluated`, and its error as "Rule evaluation failed: " plus the error text; the answer is an error exactly when some rule's condition errs on some window |

## Left out

- Sockets and JSON encoding of requests and responses (src/bin/service.rs:30-38,77-78) are left out. This includes the 1024-byte buffer, the zero-length read and an undecodable request. `HandleClient` starts from a decoded request.
- Concurrency is left out: the Tokio runtime, the `RwLock`, the spawned tasks, the 2-second periodic refresh and the watcher channel. Each transition is one atomic method call. The read-then-write gap inside `refresh_state` is therefore not modelled.
- The watcher set-up is left out: `create_dir_all`, watching the parent directory and its error paths. `WatchConfigFile` starts from the events the watcher delivers.
- Process spawning, exit statuses and output capture are the `run` oracle. `serde_json`, `toml` and `shlex::split` are oracles too. Only the serde mapping from a TOML tree onto `Config` is modelled.
- Paths are strings. The disk is keyed by the literal path string, so two spellings of one file are different keys. `current_dir` is `Host.cwd`, and its failure is `None`.
- `EvaluateRules` takes the fresh window list of the workspace as an input, `focused`. At that call site the source calls the private `list_windows_in_workspace` and unwraps its result with `.expect`. That result does not have the type `evaluate_rules_for_workspace` expects, so the panic on a failed query is not modelled.
- The rule-evaluation loops are proved for any `Effects` value. The daemon passes `Rules.Real`.
- Repeated runs of one process within a transition are not modelled as independent. `run` and `tokenize` are functions, so one transition gets one answer per distinct process. Two empty-workspace rules with the same command get the same outcome. So do two window rules that both `maximize` one window, although in the source the second `aerospace fullscreen` toggles back and can fail on its own. A state of the window manager that changes between calls is not modelled.
- All `println!`/`eprintln!` logging is left out, including printing a command's standard output.
- Error messages are modelled as text only where they reach a client or an outcome line.
- `Rules.GhosttyConditionHolds`: the configured Ghostty rule is stated in parts rather than as one evaluation of the whole rule over a window list. The parts are the condition holding, `maximize` succeeding and the outcome text.
- src/bin/cli.rs and src/main.rs are not part of this model. They only parse arguments and print.
