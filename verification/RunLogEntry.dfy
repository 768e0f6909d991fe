/** The records of a run log (run_log.go) and the statuses they carry. */
module RunLogEntries {
  import opened Decimal

  /** A start time in nanoseconds since the Unix epoch, as UnixNano() yields it. */
  type Timestamp = t: int | MIN_INT64 <= t <= MAX_INT64

  datatype SubprocFate = Succeeded | Failed | Cancelled {
    function ToString(): string {
      match this
      case Succeeded => "succeeded"
      case Failed => "failed"
      case Cancelled => "cancelled"
    }
  }

  datatype JobStatus = JobGood | JobFailed | JobBackoff {
    function ToString(): string {
      match this
      case JobGood => "Good"
      case JobBackoff => "Backoff"
      case JobFailed => "Failed"
    }
  }

  predicate IsDurationText(s: string) {
    s != [] && '\t' !in s && '\n' !in s && ' ' !in s
  }

  /** One run of a job: when it started, how it ended, and how long it took, as time.Duration prints it. */
  datatype RunLogEntry = RunLogEntry(
    jobName: string,
    time: int,
    fate: SubprocFate,
    result: JobStatus,
    execTime: string)
  {
    /** The start time is one that UnixNano() can express, and the duration is some printed duration. */
    predicate Representable() {
      MIN_INT64 <= time <= MAX_INT64 && IsDurationText(execTime)
    }
  }
}
