/** The messages the client and the daemon exchange over the socket, and the
    state the daemon keeps between requests (src/lib.rs). */
module Protocol {
  import opened Wrappers
  import opened Aerospace
  import Configuration

  /** What a client asks for. */
  datatype Request =
    | GetWindows
    | GetConfig
    | Reload
    | EvaluateRules(workspace: string)

  /** What the daemon answers. */
  datatype Response =
    | Windows(windows: seq<WindowInfo>)
    | Config(config: Configuration.Config)
    | Success
    | Error(message: string)
    | RulesEvaluated(actionsPerformed: seq<string>)

  /** The daemon's cached view: the windows of the last successful refresh,
      the configuration of the last load (none when there was no file, or
      it could not be read or parsed), and the path given on the command
      line, if any. */
  datatype ServiceState = ServiceState(
    windows: seq<WindowInfo>,
    config: Option<Configuration.Config>,
    configPath: Option<string>)
}
