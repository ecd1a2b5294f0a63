/**
  SessionLauncher: the `clicked` handler. Running the emulator
  (`exec.Command(...).Output()`) is outside the model and arrives as a
  function from the command to its result.
 */
module Session {
  import opened Strings

  /** An `exec.Command`: the program and its argument vector. */
  datatype Command = Command(path: string, args: seq<string>)

  /** What `cmd.Output()` gives back: the captured standard output, or an error. */
  datatype RunResult = Completed(stdout: string) | RunFailed(cause: string)

  /**
    How a play session ends. `Terminated` is the `os.Exit` that ends the
    whole launcher when the emulator cannot be run or exits with an error.
   */
  datatype SessionOutcome = ClosedByPlayer | NormalExit | Terminated(exitStatus: int)

  const PlayFlag := "-play"

  /** The text the emulator prints when the player closes the table. */
  const ClosedMarker := "Player closed."

  /** The status passed to `os.Exit` when the emulator run fails. */
  const FailureExitStatus := 1

  /** The emulator invocation for the table file `fileName` in `tablesPath`. */
  function PlayCommand(appPath: string, tablesPath: string, fileName: string): (cmd: Command)
    ensures cmd.path == appPath
    ensures |cmd.args| == 2 && cmd.args[0] == PlayFlag
    ensures cmd.args[1] == tablesPath + "/" + fileName
  {
    Command(appPath, [PlayFlag, tablesPath + "/" + fileName])
  }

  /** The `clicked` handler: build the command, run it, classify the result. */
  method Launch(appPath: string, tablesPath: string, fileName: string, run: Command -> RunResult)
    returns (cmd: Command, outcome: SessionOutcome)
    ensures cmd == PlayCommand(appPath, tablesPath, fileName)
    ensures outcome.Terminated? <==> run(cmd).RunFailed?
    ensures outcome.Terminated? ==> outcome.exitStatus == FailureExitStatus
    ensures outcome == ClosedByPlayer <==> run(cmd).Completed? && HasSubstring(run(cmd).stdout, ClosedMarker)
    ensures outcome == NormalExit <==> run(cmd).Completed? && !HasSubstring(run(cmd).stdout, ClosedMarker)
  {
    cmd := PlayCommand(appPath, tablesPath, fileName);
    var result := run(cmd);
    if result.RunFailed? {
      return cmd, Terminated(FailureExitStatus);
    }
    var closed := Contains(result.stdout, ClosedMarker);
    outcome := if closed then ClosedByPlayer else NormalExit;
  }
}
