/**
 The async-job registry: dispatch with a capped number of retained records, completion
 by the job's own task, and what holds over whole sequential runs.
 */
module JobRegistry {
  import opened Jobs
  import opened Options
  import opened Sorting

  // ------------------------------------------------------------------
  // Eviction
  // ------------------------------------------------------------------

  /** `kept` is what remains of `jobs` after an eviction down to the cap. */
  ghost predicate Evicted(jobs: JobMap, kept: JobMap) {
    && (forall id :: id in kept ==> id in jobs && kept[id] == jobs[id])
    && |kept| == (if |jobs| <= MAX_JOB_RECORDS then |jobs| else MAX_JOB_RECORDS)
    && forall out, id :: out in jobs && out !in kept && id in kept ==> EvictedBefore(jobs[out], jobs[id])
  }

  /** A job that is still in flight is forgotten only when no finished record survives. */
  lemma PendingEvictedLast(jobs: JobMap, kept: JobMap, out: Id)
    requires Evicted(jobs, kept) && out in jobs && out !in kept && !jobs[out].Terminal()
    ensures forall id :: id in kept ==> !kept[id].Terminal() && jobs[out].created <= kept[id].created
  {
    forall id | id in kept ensures !kept[id].Terminal() && jobs[out].created <= kept[id].created {
      assert EvictedBefore(jobs[out], jobs[id]);
    }
  }

  /** Within the finished and within the pending records the oldest go. */
  lemma OldestEvictedFirst(jobs: JobMap, kept: JobMap, out: Id, id: Id)
    requires Evicted(jobs, kept) && out in jobs && out !in kept && id in kept
    ensures jobs[out].status == Pending ==> kept[id].status == Pending
    ensures (jobs[out].status == Pending <==> kept[id].status == Pending) ==> jobs[out].created <= kept[id].created
  {
    assert EvictedBefore(jobs[out], jobs[id]);
  }

  function Rank(r: JobRecord): int {
    (if r.Terminal() then 0 else U64_MAX + 1) + r.created
  }

  lemma RankIsOrder(a: JobRecord, b: JobRecord)
    ensures Rank(a) <= Rank(b) ==> EvictedBefore(a, b)
  {
  }

  function RankIn(jobs: JobMap): Id -> int {
    id => if id in jobs then Rank(jobs[id]) else 0
  }

  /** Dropping a prefix of the sorted ids is a legal eviction. */
  lemma PrefixEviction(jobs: JobMap, ids: seq<Id>, n: nat)
    requires Distinct(ids) && Elements(ids) == jobs.Keys && SortedBy(ids, RankIn(jobs))
    requires n == |jobs| - MAX_JOB_RECORDS
    ensures n <= |ids| && Evicted(jobs, jobs - Elements(ids[..n]))
  {
    DistinctSize(ids);
    assert |jobs| == |jobs.Keys|;
    var dropped, kept := Elements(ids[..n]), jobs - Elements(ids[..n]);
    assert Distinct(ids[..n]);
    DistinctSize(ids[..n]);
    assert kept.Keys == jobs.Keys - dropped;
    assert forall id :: id in dropped ==> id in ids;
    assert dropped <= jobs.Keys;
    assert |kept.Keys| == |jobs.Keys| - |dropped|;
    forall out, id | out in jobs && out !in kept && id in kept ensures EvictedBefore(jobs[out], jobs[id]) {
      assert out in dropped && id !in dropped;
      var i :| 0 <= i < n && ids[..n][i] == out;
      assert id in Elements(ids);
      var j :| 0 <= j < |ids| && ids[j] == id;
      InPrefix(ids, n, j);
      assert RankIn(jobs)(ids[i]) <= RankIn(jobs)(ids[j]);
      RankIsOrder(jobs[out], jobs[id]);
    }
  }

  lemma InPrefix(ids: seq<Id>, n: nat, j: nat)
    requires n <= |ids| && j < |ids|
    ensures j < n ==> ids[j] in Elements(ids[..n])
  {
    if j < n {
      assert ids[..n][j] == ids[j];
    }
  }

  lemma NothingDropped(jobs: JobMap, ids: seq<Id>)
    ensures jobs - Elements(ids[..0]) == jobs
  {
  }

  /** The ids of a registry in eviction order. */
  method SortedIds(jobs: JobMap) returns (ids: seq<Id>)
    ensures Distinct(ids) && Elements(ids) == jobs.Keys && SortedBy(ids, RankIn(jobs))
  {
    hide *;
    ids := Enumerate(jobs.Keys);
    SortByLaws(ids, RankIn(jobs));
    ids := SortBy(ids, RankIn(jobs));
  }

  method DropFirst(all: JobMap, ids: seq<Id>, n: nat) returns (jobs: JobMap)
    requires n <= |ids|
    ensures jobs == all - Elements(ids[..n])
  {
    hide *;
    NothingDropped(all, ids);
    jobs := all;
    for i := 0 to n
      invariant jobs == all - Elements(ids[..i])
    {
      assert ids[..i + 1] == ids[..i] + [ids[i]];
      ElementsAppend(ids[..i], ids[i]);
      jobs := jobs - {ids[i]};
    }
  }

  class Registry {
    var jobs: JobMap

    /** Drops terminal records first, then the oldest, until the cap is respected. */
    method EvictJobsIfOverCap()
      modifies this
      ensures Evicted(old(jobs), jobs)
    {
      var len := |jobs|;
      if len <= MAX_JOB_RECORDS {
        return;
      }
      var overflow := len - MAX_JOB_RECORDS;
      var entries := SortedIds(jobs);
      PrefixEviction(jobs, entries, overflow);
      hide *;
      jobs := DropFirst(jobs, entries, overflow);
    }

    /** Records a new pending job and caps the registry. */
    method Dispatch(id: Id, tenant: TenantId, created: u64)
      modifies this
      ensures Evicted(old(jobs)[id := NewJob(tenant, created)], jobs)
      ensures |jobs| <= MAX_JOB_RECORDS
    {
      jobs := jobs[id := NewJob(tenant, created)];
      EvictJobsIfOverCap();
    }

    /** The job's task writes status and result, if the record is still there. */
    method Complete(id: Id, outcome: Outcome)
      modifies this
      ensures jobs == Resolved(old(jobs), id, outcome)
      ensures jobs.Keys == old(jobs).Keys && (forall other :: other in jobs && other != id ==> jobs[other] == old(jobs)[other])
      ensures id in jobs ==>
                jobs[id] == JobRecord(old(jobs)[id].tenant, if outcome.Ok? then Completed else Failed, Some(outcome), old(jobs)[id].created)
    {
      if id in jobs {
        var entry := jobs[id];
        match outcome {
          case Ok(value) =>
            entry := entry.(status := Completed);
            entry := entry.(result := Some(Ok(value)));
          case Err(problem) =>
            entry := entry.(status := Failed);
            entry := entry.(result := Some(Err(problem)));
        }
        jobs := jobs[id := entry];
      }
    }
  }

  // ------------------------------------------------------------------
  // Whole runs
  // ------------------------------------------------------------------

  /** `issued` are the ids ever handed out, `running` those whose task has not ended. */
  datatype State = State(jobs: JobMap, running: set<Id>, issued: set<Id>)

  datatype Action =
    | Dispatched(id: Id, tenant: TenantId, created: u64)
    | Completes(id: Id, outcome: Outcome)
    | Panics(id: Id)

  const START := State(map[], {}, {})

  ghost predicate Step(st: State, a: Action, st': State) {
    match a
    case Dispatched(id, tenant, created) =>
      && id !in st.issued
      && Evicted(st.jobs[id := NewJob(tenant, created)], st'.jobs)
      && st'.running == st.running + {id} && st'.issued == st.issued + {id}
    case Completes(id, outcome) =>
      && id in st.running
      && st' == State(Resolved(st.jobs, id, outcome), st.running - {id}, st.issued)
    case Panics(id) =>
      && id in st.running
      && st' == st.(running := st.running - {id})
  }

  ghost predicate IsRun(states: seq<State>, acts: seq<Action>) {
    && |states| == |acts| + 1 && states[0] == START
    && forall i :: 0 <= i < |acts| ==> Step(states[i], acts[i], states[i + 1])
  }

  ghost predicate Inv(st: State) {
    && |st.jobs| <= MAX_JOB_RECORDS
    && st.running <= st.issued && st.jobs.Keys <= st.issued
    && (forall id :: id in st.jobs && st.jobs[id].Terminal() ==> id !in st.running)
    && (forall id :: id in st.jobs ==> st.jobs[id].Consistent())
  }

  lemma InvStep(st: State, a: Action, st': State)
    requires Inv(st) && Step(st, a, st')
    ensures Inv(st')
  {
    if a.Completes? {
      assert Resolved(st.jobs, a.id, a.outcome).Keys == st.jobs.Keys;
      assert |st'.jobs| == |st'.jobs.Keys| && |st.jobs| == |st.jobs.Keys|;
    } else if a.Dispatched? {
      forall id | id in st'.jobs ensures id in st.issued + {a.id} {}
    }
  }

  lemma {:induction false} InvHolds(states: seq<State>, acts: seq<Action>, n: nat)
    requires IsRun(states, acts) && n < |states|
    ensures Inv(states[n])
  {
    if n > 0 {
      InvHolds(states, acts, n - 1);
      assert Step(states[n - 1], acts[n - 1], states[n - 1 + 1]);
      InvStep(states[n - 1], acts[n - 1], states[n]);
    }
  }

  /** What one step may do to one id. */
  lemma StepKeeps(st: State, a: Action, st': State, id: Id)
    requires Inv(st) && Step(st, a, st')
    ensures id in st.issued && id !in st.jobs ==> id !in st'.jobs && id in st'.issued
    ensures id in st.jobs && st.jobs[id].Terminal() && id in st'.jobs ==> st'.jobs[id] == st.jobs[id]
    ensures id in st.jobs && id in st'.jobs ==> st'.jobs[id].tenant == st.jobs[id].tenant && st'.jobs[id].created == st.jobs[id].created
  {
  }

  /** The end of a call is written to its record, whole and to nothing else. */
  lemma CompletionWrites(st: State, a: Action, st': State)
    requires Step(st, a, st') && a.Completes?
    ensures st'.jobs.Keys == st.jobs.Keys && forall id :: id in st.jobs && id != a.id ==> st'.jobs[id] == st.jobs[id]
    ensures a.id in st.jobs ==>
              && st'.jobs[a.id].tenant == st.jobs[a.id].tenant && st'.jobs[a.id].created == st.jobs[a.id].created
              && (st'.jobs[a.id].status == Completed <==> a.outcome.Ok?) && (st'.jobs[a.id].status == Failed <==> a.outcome.Err?)
              && st'.jobs[a.id].result == Some(a.outcome)
  {
  }

  /** A dispatched job starts out pending, with no result, for the tenant that asked. */
  lemma DispatchRecords(st: State, a: Action, st': State)
    requires Step(st, a, st') && a.Dispatched?
    ensures |st.jobs| < MAX_JOB_RECORDS && Inv(st) ==> a.id in st'.jobs
    ensures a.id in st'.jobs ==>
              && st'.jobs[a.id].tenant == a.tenant && st'.jobs[a.id].created == a.created
              && st'.jobs[a.id].status == Pending && st'.jobs[a.id].result == None
  {
    var all := st.jobs[a.id := NewJob(a.tenant, a.created)];
    if |st.jobs| < MAX_JOB_RECORDS && Inv(st) {
      assert all.Keys == st.jobs.Keys + {a.id};
      assert |all| == |all.Keys| && |st.jobs| == |st.jobs.Keys|;
      NothingToEvict(all, st'.jobs);
      assert a.id in st'.jobs.Keys;
    }
  }

  lemma NothingToEvict(jobs: JobMap, kept: JobMap)
    requires Evicted(jobs, kept) && |jobs| <= MAX_JOB_RECORDS
    ensures kept.Keys == jobs.Keys
  {
    forall id | id in kept.Keys ensures id in jobs.Keys {
      assert id in kept;
    }
    assert |kept| == |kept.Keys| && |jobs| == |jobs.Keys|;
    SameSize(kept.Keys, jobs.Keys);
  }

  lemma SameSize<T>(a: set<T>, b: set<T>)
    requires a <= b && |a| == |b|
    ensures a == b
  {
    assert b == a + (b - a);
  }

  /** A task ends once, by completing or by a panic, and its id is never handed out again. */
  lemma {:induction false} EndsOnce(states: seq<State>, acts: seq<Action>, i: nat, j: nat, id: Id)
    requires IsRun(states, acts) && i < j < |states| && acts[i].id == id && !acts[i].Dispatched?
    ensures id in states[j].issued && id !in states[j].running
    ensures j < |acts| ==> acts[j].id != id
    decreases j
  {
    if i + 1 == j {
      InvHolds(states, acts, i);
      assert Step(states[i], acts[i], states[i + 1]);
    } else {
      EndsOnce(states, acts, i, j - 1, id);
      assert Step(states[j - 1], acts[j - 1], states[j - 1 + 1]);
    }
    if j < |acts| {
      assert Step(states[j], acts[j], states[j + 1]);
    }
    hide Inv, Evicted, Resolved;
  }

  /** In every run the tasks at work are those of the jobs that were dispatched and have neither completed nor panicked. */
  lemma {:induction false} AtWorkIff(states: seq<State>, acts: seq<Action>, n: nat, id: Id)
    requires IsRun(states, acts) && n < |states|
    ensures id in states[n].running <==>
            && (exists i :: 0 <= i < n && acts[i].Dispatched? && acts[i].id == id)
            && (forall i :: 0 <= i < n && !acts[i].Dispatched? ==> acts[i].id != id)
    decreases n
  {
    if n > 0 {
      AtWorkIff(states, acts, n - 1, id);
      assert Step(states[n - 1], acts[n - 1], states[n - 1 + 1]);
      if acts[n - 1].Dispatched? && acts[n - 1].id == id {
        forall i | 0 <= i < n - 1 && !acts[i].Dispatched? ensures acts[i].id != id {
          if acts[i].id == id {
            EndsOnce(states, acts, i, n - 1, id);
          }
        }
      }
    }
    hide Evicted, Resolved;
  }

  /** A job whose task panicked stays pending as long as its record is retained. */
  lemma {:induction false} PanickedStaysPending(states: seq<State>, acts: seq<Action>, i: nat, j: nat, id: Id)
    requires IsRun(states, acts) && i < j < |states| && acts[i] == Panics(id)
    ensures id in states[j].jobs ==> id in states[i].jobs && states[j].jobs[id] == states[i].jobs[id] && states[j].jobs[id].status == Pending
    decreases j
  {
    hide Step, Inv;
    assert Step(states[j - 1], acts[j - 1], states[j - 1 + 1]);
    if i + 1 < j {
      PanickedStaysPending(states, acts, i, j - 1, id);
      EndsOnce(states, acts, i, j - 1, id);
      Untouched(states[j - 1], acts[j - 1], states[j], id);
    } else {
      InvHolds(states, acts, i);
      PanicWritesNothing(states[i], id, states[j]);
    }
  }

  lemma PanicWritesNothing(st: State, id: Id, st': State)
    requires Inv(st) && Step(st, Panics(id), st')
    ensures st'.jobs == st.jobs && (id in st.jobs ==> st.jobs[id].status == Pending)
  {
  }

  lemma Untouched(st: State, a: Action, st': State, id: Id)
    requires Step(st, a, st') && a.id != id
    ensures id in st'.jobs ==> id in st.jobs && st'.jobs[id] == st.jobs[id]
  {
  }

  /** An id that was issued and is gone never reappears. */
  lemma {:induction false} EvictedStaysGone(states: seq<State>, acts: seq<Action>, i: nat, j: nat, id: Id)
    requires IsRun(states, acts) && i <= j < |states|
    requires id in states[i].issued && id !in states[i].jobs
    ensures id in states[j].issued && id !in states[j].jobs
    decreases j
  {
    hide Step, Inv;
    if i < j {
      EvictedStaysGone(states, acts, i, j - 1, id);
      InvHolds(states, acts, j - 1);
      assert Step(states[j - 1], acts[j - 1], states[j - 1 + 1]);
      StepKeeps(states[j - 1], acts[j - 1], states[j], id);
    }
  }

  /** A job reaches a terminal status at most once: as long as its record is retained, the status it then has is its last. */
  lemma {:induction false} TerminalIsFinal(states: seq<State>, acts: seq<Action>, i: nat, j: nat, id: Id)
    requires IsRun(states, acts) && i <= j < |states|
    requires id in states[i].jobs && states[i].jobs[id].Terminal() && id in states[j].jobs
    ensures states[j].jobs[id] == states[i].jobs[id]
    decreases j
  {
    hide Step, Inv;
    if i < j {
      InvHolds(states, acts, j - 1);
      InvHolds(states, acts, i);
      RecordedIsIssued(states[i], id);
      IssuedGrows(states, acts, i, j - 1, id);
      assert Step(states[j - 1], acts[j - 1], states[j - 1 + 1]);
      StepKeeps(states[j - 1], acts[j - 1], states[j], id);
      TerminalIsFinal(states, acts, i, j - 1, id);
    }
  }

  lemma RecordedIsIssued(st: State, id: Id)
    requires Inv(st) && id in st.jobs
    ensures id in st.issued
  {
  }

  lemma {:induction false} IssuedGrows(states: seq<State>, acts: seq<Action>, i: nat, j: nat, id: Id)
    requires IsRun(states, acts) && i <= j < |states| && id in states[i].issued
    ensures id in states[j].issued
    decreases j
  {
    if i < j {
      IssuedGrows(states, acts, i, j - 1, id);
      assert Step(states[j - 1], acts[j - 1], states[j - 1 + 1]);
    }
  }

  /** After every step of every run, in particular after every dispatch, the registry respects its cap. */
  lemma CapHolds(states: seq<State>, acts: seq<Action>)
    requires IsRun(states, acts)
    ensures forall n :: 0 <= n < |states| ==> |states[n].jobs| <= MAX_JOB_RECORDS
  {
    forall n | 0 <= n < |states| ensures |states[n].jobs| <= MAX_JOB_RECORDS {
      InvHolds(states, acts, n);
    }
  }
}
