/** Job records, in the order in which a full registry forgets them. */
module Jobs {
  import opened Options

  type Id = int
  type TenantId = int
  type u64 = n: int | 0 <= n <= U64_MAX

  const MAX_JOB_RECORDS: nat := 4096

  datatype JobStatus = Pending | Completed | Failed

  /** What a call ends with: the value it returned, or the kind and message of its error. */
  datatype Problem = Problem(kind: string, message: string)
  type Outcome = Result<string, Problem>

  datatype JobRecord = JobRecord(tenant: TenantId, status: JobStatus, result: Option<Outcome>, created: u64) {
    predicate Terminal() {
      !status.Pending?
    }

    /** The result is there exactly when the job has ended, and is of the kind its status says. */
    predicate Consistent() {
      match status
      case Pending => result == None
      case Completed => result.Some? && result.value.Ok?
      case Failed => result.Some? && result.value.Err?
    }
  }

  type JobMap = map<Id, JobRecord>

  function NewJob(tenant: TenantId, created: u64): JobRecord {
    JobRecord(tenant, Pending, None, created)
  }

  /** The outcome is written to the record, if it is still there. */
  function Resolved(jobs: JobMap, id: Id, outcome: Outcome): JobMap {
    if id in jobs then jobs[id := jobs[id].(status := if outcome.Ok? then Completed else Failed, result := Some(outcome))] else jobs
  }

  /** Terminal records before pending ones, and older before younger within each group. */
  predicate EvictedBefore(a: JobRecord, b: JobRecord) {
    (a.Terminal() && !b.Terminal()) || (a.Terminal() == b.Terminal() && a.created <= b.created)
  }
}
