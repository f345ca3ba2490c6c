/** How a process ended or stopped, and how an injection run is classified (src/exitState.h, src/runner.h). */
module Outcomes {
  datatype ExitState =
    | Invalid
    | Exited(code: int)
    | Signaled(signal: int)
    | Stopped(signal: int)

  datatype FtStatus = None | Masked | Exception | InfExec | Corrupted | Detected | InjFailed | Skipped

  /** The statuses a run that was waited for can report. */
  predicate Reportable(s: FtStatus) {
    !s.None? && !s.InjFailed?
  }
}
