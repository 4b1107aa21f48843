/** What the worker reports to the window: its Qt signals, one constructor
    per signal, appended to an event list in emission order. */
module Events {

  /** The log lines the worker emits; only their kind and arguments are kept. */
  datatype LogLine =
    | SessionStarting
    | StoppedByUser
    | ProcessingLink(number: nat, total: nat)
    | StartingFile(name: string, size: int)
    | FinishedFile(name: string)
    | LinkError(number: nat, reason: string)
    | SessionFinished
    | PausedLine
    | ResumedLine

  datatype Event =
    | Log(line: LogLine)
    | FileProgress(downloaded: nat)
    | OverallProgress(done: nat, total: nat)
    | FileInfo(name: string, size: int)
    /** Transfer rate in bytes per second. */
    | Speed(rate: real)
    | LinkStarted(link: string)
    | LinkCompleted(link: string)
    | LinkFailed(link: string)

  /** Signals a transfer emits on its own: byte counts and rates only. */
  predicate Reports(evs: seq<Event>) {
    forall k :: 0 <= k < |evs| ==> evs[k].FileProgress? || evs[k].Speed?
  }
}
