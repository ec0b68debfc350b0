/**
 The gateway's handlers over the shared function and job maps, split into the separate
 lookups they perform. Handlers check first and act in a later lookup, and any number
 of them interleave. Proved here: no tenant ever removes or reads another tenant's
 resource, functions and jobs change only by the steps that should change them, and the
 gauge of active jobs counts exactly the live guards.
 */
module GatewayRegistry {
  import opened Jobs
  import opened Options

  const MAX_OUTSTANDING_ASYNC_JOBS: nat := 256

  datatype FunctionRecord = FunctionRecord(tenant: TenantId)

  datatype Refusal = NotFound | Forbidden | AtCapacity

  /** A request in flight, by the point between two lookups at which it stands. */
  datatype Handler =
    | Creating(tenant: TenantId)
    | Deleting(tenant: TenantId, id: Id)
    | DeleteChecked(tenant: TenantId, id: Id)
    | Deleted(tenant: TenantId, id: Id, gone: Option<FunctionRecord>)
    | Polling(tenant: TenantId, id: Id)
    | PollChecked(tenant: TenantId, id: Id)
    | Polled(tenant: TenantId, id: Id, seen: Option<JobRecord>)
    | Invoking(tenant: TenantId, id: Id, stream: bool)
    | OwnerChecked(tenant: TenantId, stream: bool)
    | Admitted(tenant: TenantId, stream: bool)      // past the capacity check, gauge not yet incremented
    | Guarded(tenant: TenantId)                     // holds a guard, job not yet recorded
    | Recorded(job: Id, serial: nat)                // recorded as the serial-th job, about to read the number of records
    | Counted(job: Id, serial: nat, at: nat, len: nat)         // read `len` when `at` jobs had been recorded
    | Evicting(job: Id, serial: nat, at: nat, todo: set<Id>)   // listed the records, about to remove these
    | Running(task: Option<Id>)                     // the detached task, holding the guard
    | Resolving                                     // outcome written, guard not yet released
    | Refused(tenant: TenantId, why: Refusal)
    | Finished

  /** Between the record of its job and the end of its pass over the records. */
  predicate InPass(h: Handler) {
    h.Recorded? || h.Counted? || h.Evicting?
  }

  predicate HoldsGuard(h: Handler) {
    h.Guarded? || InPass(h) || h.Running? || h.Resolving?
  }

  datatype State = State(
    functions: map<Id, FunctionRecord>,
    jobs: JobMap,
    gauge: int,
    handlers: seq<Handler>,
    owners: map<Id, TenantId>,    // who every id ever issued was issued to
    recorded: nat,                // how many jobs were ever recorded
    settled: nat,                 // how many had been when the latest count of a finished pass was read
    abandoned: set<nat>)          // the serials of the passes that were aborted

  const START := State(map[], map[], 0, [], map[], 0, 0, {})

  // ------------------------------------------------------------------
  // Steps
  // ------------------------------------------------------------------

  /** What the environment decides for one step: the id and time a new record gets, what an eviction picks and removes next, how a call ends. */
  datatype Choice = Choice(newId: Id, created: u64, plan: set<Id>, victim: Id, outcome: Outcome)

  datatype Action =
    | Arrive(request: Handler)
    | Advance(who: nat, choice: Choice)
    | Abort(who: nat)              // a panic or a cancellation: whatever guard is held is dropped

  predicate IsRequest(h: Handler) {
    h.Creating? || h.Deleting? || h.Polling? || h.Invoking?
  }

  predicate Issues(h: Handler) {
    h.Creating? || h.Guarded?
  }

  /** What a pass that read `len` records picks: as many as there were too many, finished ones first, then the oldest. */
  predicate Plans(jobs: JobMap, len: nat, plan: set<Id>) {
    && plan <= jobs.Keys
    && |plan| == (if len - MAX_JOB_RECORDS <= |jobs| then len - MAX_JOB_RECORDS else |jobs|)
    && forall out, id :: out in plan && id in jobs && id !in plan ==> EvictedBefore(jobs[out], jobs[id])
  }

  predicate Enabled(st: State, a: Action) {
    match a
    case Arrive(h) => IsRequest(h)
    case Advance(who, c) =>
      && who < |st.handlers|
      && (Issues(st.handlers[who]) ==> c.newId !in st.owners)
      && (st.handlers[who].Counted? ==> Plans(st.jobs, st.handlers[who].len, c.plan))
      && (st.handlers[who].Evicting? && st.handlers[who].todo != {} ==> c.victim in st.handlers[who].todo)
    case Abort(who) => who < |st.handlers|
  }

  function FunctionOwner(st: State, id: Id): Option<TenantId> {
    if id in st.functions then Some(st.functions[id].tenant) else None
  }

  function JobOwner(st: State, id: Id): Option<TenantId> {
    if id in st.jobs then Some(st.jobs[id].tenant) else None
  }

  /** The owner check shared by all handlers: unknown, somebody else's, or go on. */
  function Checked(owner: Option<TenantId>, t: TenantId, next: Handler): Handler {
    match owner
    case None => Refused(t, NotFound)
    case Some(o) => if o != t then Refused(t, Forbidden) else next
  }

  /** Where a handler stands after its next lookup. */
  function NextPoint(st: State, h: Handler, c: Choice): Handler {
    match h
    case Creating(_) => Finished
    case Deleting(t, id) => Checked(FunctionOwner(st, id), t, DeleteChecked(t, id))
    case DeleteChecked(t, id) => Deleted(t, id, if id in st.functions then Some(st.functions[id]) else None)
    case Polling(t, id) => Checked(JobOwner(st, id), t, PollChecked(t, id))
    case PollChecked(t, id) => Polled(t, id, if id in st.jobs then Some(st.jobs[id]) else None)
    case Invoking(t, f, stream) => Checked(FunctionOwner(st, f), t, OwnerChecked(t, stream))
    case OwnerChecked(t, stream) => if st.gauge >= MAX_OUTSTANDING_ASYNC_JOBS then Refused(t, AtCapacity) else Admitted(t, stream)
    case Admitted(t, stream) => if stream then Running(None) else Guarded(t)
    case Guarded(_) => Recorded(c.newId, st.recorded + 1)
    case Recorded(id, n) => if |st.jobs| <= MAX_JOB_RECORDS then Running(Some(id)) else Counted(id, n, st.recorded, |st.jobs|)
    case Counted(id, n, at, _) => Evicting(id, n, at, c.plan)
    case Evicting(id, n, at, todo) => if todo == {} then Running(Some(id)) else Evicting(id, n, at, todo - {c.victim})
    case Running(_) => Resolving
    case Resolving => Finished
    case _ => h
  }

  function FunctionsAfter(st: State, h: Handler, c: Choice): map<Id, FunctionRecord> {
    match h
    case Creating(t) => st.functions[c.newId := FunctionRecord(t)]
    case DeleteChecked(_, id) => st.functions - {id}
    case _ => st.functions
  }

  function JobsAfter(st: State, h: Handler, c: Choice): JobMap {
    match h
    case Guarded(t) => st.jobs[c.newId := NewJob(t, c.created)]
    case Evicting(_, _, _, todo) => if todo == {} then st.jobs else st.jobs - {c.victim}
    case Running(task) => if task.Some? then Resolved(st.jobs, task.value, c.outcome) else st.jobs
    case _ => st.jobs
  }

  function Step(st: State, who: nat, c: Choice): State
    requires who < |st.handlers|
  {
    var h := st.handlers[who];
    State(FunctionsAfter(st, h, c),
          JobsAfter(st, h, c),
          st.gauge + (if h.Admitted? then 1 else if h.Resolving? then -1 else 0),
          st.handlers[who := NextPoint(st, h, c)],
          if Issues(h) then st.owners[c.newId := h.tenant] else st.owners,
          st.recorded + (if h.Guarded? then 1 else 0),
          SettledAfter(st, h),
          st.abandoned)
  }

  /** A pass ends when it finds nothing to remove, or nothing left to remove. */
  function SettledAfter(st: State, h: Handler): nat {
    if h.Recorded? && |st.jobs| <= MAX_JOB_RECORDS then st.recorded
    else if h.Evicting? && h.todo == {} && h.at > st.settled then h.at
    else st.settled
  }

  function Apply(st: State, a: Action): State
    requires a.Advance? || a.Abort? ==> a.who < |st.handlers|
  {
    match a
    case Arrive(h) => st.(handlers := st.handlers + [h])
    case Advance(who, c) => Step(st, who, c)
    case Abort(who) =>
      var h := st.handlers[who];
      st.(handlers := st.handlers[who := Finished],
          gauge := st.gauge - (if HoldsGuard(h) then 1 else 0),
          abandoned := st.abandoned + if InPass(h) then {h.serial} else {})
  }

  ghost predicate IsRun(states: seq<State>, acts: seq<Action>) {
    && |states| == |acts| + 1 && states[0] == START
    && forall i :: 0 <= i < |acts| ==> Enabled(states[i], acts[i]) && states[i + 1] == Apply(states[i], acts[i])
  }

  // ------------------------------------------------------------------
  // Owner isolation
  // ------------------------------------------------------------------

  /** Every record belongs to the tenant its id was issued to. */
  ghost predicate RecordsOwned(st: State) {
    && (forall id :: id in st.functions ==> id in st.owners && st.functions[id].tenant == st.owners[id])
    && (forall id :: id in st.jobs ==> id in st.owners && st.jobs[id].tenant == st.owners[id])
  }

  /** What a handler learned from its check stays true, and what it took or returned is its tenant's. */
  predicate HandlerSound(h: Handler, owners: map<Id, TenantId>) {
    match h
    case DeleteChecked(t, id) => id in owners && owners[id] == t
    case PollChecked(t, id) => id in owners && owners[id] == t
    case Deleted(t, _, gone) => gone.Some? ==> gone.value.tenant == t
    case Polled(t, _, seen) => seen.Some? ==> seen.value.tenant == t
    case _ => true
  }

  ghost predicate Isolated(st: State) {
    RecordsOwned(st) && forall i :: 0 <= i < |st.handlers| ==> HandlerSound(st.handlers[i], st.owners)
  }

  lemma OwnersGrow(st: State, a: Action)
    requires Enabled(st, a)
    ensures forall id :: id in st.owners ==> id in Apply(st, a).owners && Apply(st, a).owners[id] == st.owners[id]
  {
  }

  lemma RecordsStayOwned(st: State, a: Action)
    requires Enabled(st, a) && RecordsOwned(st)
    ensures RecordsOwned(Apply(st, a))
  {
    hide Plans, NextPoint, SettledAfter;
  }

  lemma MoverSound(st: State, a: Action)
    requires Enabled(st, a) && Isolated(st) && !a.Arrive?
    ensures a.who < |Apply(st, a).handlers| && HandlerSound(Apply(st, a).handlers[a.who], Apply(st, a).owners)
  {
    hide Plans, FunctionsAfter, JobsAfter, SettledAfter;
    assert HandlerSound(st.handlers[a.who], st.owners);
    OwnersGrow(st, a);
  }

  lemma IsolatedStep(st: State, a: Action)
    requires Enabled(st, a) && Isolated(st)
    ensures Isolated(Apply(st, a))
  {
    var st' := Apply(st, a);
    RecordsStayOwned(st, a);
    OwnersGrow(st, a);
    forall i | 0 <= i < |st'.handlers| ensures HandlerSound(st'.handlers[i], st'.owners) {
      if !a.Arrive? && i == a.who {
        MoverSound(st, a);
      } else if i < |st.handlers| {
        assert HandlerSound(st.handlers[i], st.owners);
      }
    }
    hide NextPoint, FunctionsAfter, JobsAfter;
  }

  lemma {:induction false} IsolatedAlways(states: seq<State>, acts: seq<Action>, n: nat)
    requires IsRun(states, acts) && n < |states|
    ensures Isolated(states[n])
  {
    hide Apply, Isolated;
    if n == 0 {
      IsolatedAtStart();
    } else {
      IsolatedAlways(states, acts, n - 1);
      assert states[n - 1 + 1] == Apply(states[n - 1], acts[n - 1]);
      IsolatedStep(states[n - 1], acts[n - 1]);
    }
  }

  lemma IsolatedAtStart()
    ensures Isolated(START)
  {
  }

  /**
   In every interleaving a poll that passed its check returns the job's record as it is
   when it is fetched, or nothing if it was evicted in between, and that record belongs to
   the tenant that polled, although the owner was checked in an earlier lookup.
   */
  lemma PollsSeeOwnJobs(states: seq<State>, acts: seq<Action>, n: nat)
    requires IsRun(states, acts) && n < |acts| && acts[n].Advance? && acts[n].who < |states[n].handlers|
    requires states[n].handlers[acts[n].who].PollChecked?
    ensures var h, jobs := states[n].handlers[acts[n].who], states[n].jobs;
            && acts[n].who < |states[n + 1].handlers|
            && var h' := states[n + 1].handlers[acts[n].who];
            && h'.Polled? && (h'.seen.Some? <==> h.id in jobs)
            && (h'.seen.Some? ==> h'.seen.value == jobs[h.id] && h'.seen.value.tenant == h.tenant)
  {
    IsolatedAlways(states, acts, n);
    assert states[n + 1] == Apply(states[n], acts[n]);
    assert HandlerSound(states[n].handlers[acts[n].who], states[n].owners);
  }

  /** A tenant is told NotFound exactly for ids that are not there, and Forbidden exactly for ids issued to somebody else. */
  lemma ChecksAreExact(states: seq<State>, acts: seq<Action>, n: nat)
    requires IsRun(states, acts) && n < |acts| && acts[n].Advance? && acts[n].who < |states[n].handlers|
    requires var h := states[n].handlers[acts[n].who]; h.Deleting? || h.Polling? || h.Invoking?
    ensures var st, h := states[n], states[n].handlers[acts[n].who];
            && acts[n].who < |states[n + 1].handlers|
            && var h', there := states[n + 1].handlers[acts[n].who], if h.Polling? then h.id in st.jobs else h.id in st.functions;
            && (h' == Refused(h.tenant, NotFound) <==> !there)
            && (there ==> h.id in st.owners)
            && (h' == Refused(h.tenant, Forbidden) <==> there && st.owners[h.id] != h.tenant)
            && (h' == DeleteChecked(h.tenant, h.id) <==> h.Deleting? && there && st.owners[h.id] == h.tenant)
            && (h' == PollChecked(h.tenant, h.id) <==> h.Polling? && there && st.owners[h.id] == h.tenant)
            && (h.Invoking? ==> (h' == OwnerChecked(h.tenant, h.stream) <==> there && st.owners[h.id] == h.tenant))
  {
    IsolatedAlways(states, acts, n);
    assert states[n + 1] == Apply(states[n], acts[n]);
  }

  /**
   In every interleaving, the only step that takes a function away is the removal of a
   delete of that very function by its own tenant, every such step takes it away, and the
   only step that adds one is a create, under an id nobody ever had.
   */
  lemma FunctionsChangeByOwner(states: seq<State>, acts: seq<Action>, n: nat)
    requires IsRun(states, acts) && n < |acts|
    ensures forall id :: id in states[n].functions ==>
              && (id !in states[n + 1].functions <==>
                  acts[n].Advance? && states[n].handlers[acts[n].who] == DeleteChecked(states[n].functions[id].tenant, id))
              && (id in states[n + 1].functions ==> states[n + 1].functions[id] == states[n].functions[id])
    ensures forall id :: id in states[n + 1].functions && id !in states[n].functions ==>
              && id !in states[n].owners
              && acts[n].Advance? && states[n].handlers[acts[n].who] == Creating(states[n + 1].functions[id].tenant)
  {
    IsolatedAlways(states, acts, n);
    assert states[n + 1] == Apply(states[n], acts[n]);
    StepOnFunctions(states[n], acts[n]);
    hide Apply, Isolated;
  }

  lemma StepOnFunctions(st: State, a: Action)
    requires Enabled(st, a) && Isolated(st)
    ensures forall id :: id in st.functions ==>
              && (id !in Apply(st, a).functions <==> a.Advance? && st.handlers[a.who] == DeleteChecked(st.functions[id].tenant, id))
              && (id in Apply(st, a).functions ==> Apply(st, a).functions[id] == st.functions[id])
    ensures forall id :: id in Apply(st, a).functions && id !in st.functions ==>
              && id !in st.owners
              && a.Advance? && st.handlers[a.who] == Creating(Apply(st, a).functions[id].tenant)
  {
    if a.Advance? {
      assert HandlerSound(st.handlers[a.who], st.owners);
    }
  }

  /** A function or job that is gone never comes back, and an id keeps its tenant for good. */
  lemma {:induction false} GoneForGood(states: seq<State>, acts: seq<Action>, i: nat, j: nat, id: Id)
    requires IsRun(states, acts) && i <= j < |states| && id in states[i].owners
    ensures id in states[j].owners && states[j].owners[id] == states[i].owners[id]
    ensures id !in states[i].functions ==> id !in states[j].functions
    ensures id !in states[i].jobs ==> id !in states[j].jobs
    decreases j
  {
    hide Apply;
    if i < j {
      GoneForGood(states, acts, i, j - 1, id);
      assert states[j - 1 + 1] == Apply(states[j - 1], acts[j - 1]);
      NothingReturns(states[j - 1], acts[j - 1], id);
    }
  }

  lemma NothingReturns(st: State, a: Action, id: Id)
    requires Enabled(st, a) && id in st.owners
    ensures var st' := Apply(st, a);
            && id in st'.owners && st'.owners[id] == st.owners[id]
            && (id !in st.functions ==> id !in st'.functions) && (id !in st.jobs ==> id !in st'.jobs)
  {
  }

  /** Freshness of ids is essential: were an id issued again to another tenant between a delete's check and its removal, the delete would take that tenant's function. */
  lemma ReissuedIdBreaksIsolation()
    ensures var st := State(map[7 := FunctionRecord(1)], map[], 0, [DeleteChecked(1, 7), DeleteChecked(1, 7), Creating(2)], map[7 := 1], 0, 0, {});
            var c := Choice(7, 0, {}, 0, Ok(""));
            && Isolated(st) && !Enabled(Step(st, 1, c), Advance(2, c))
            && Step(Step(Step(st, 1, c), 2, c), 0, c).handlers[0] == Deleted(1, 7, Some(FunctionRecord(2)))
  {
  }

  // ------------------------------------------------------------------
  // Every job is resolved at most once
  // ------------------------------------------------------------------

  /** The task that will resolve job `id`, before or after it is detached. */
  predicate InCharge(h: Handler, id: Id) {
    (InPass(h) && h.job == id) || h == Running(Some(id))
  }

  /** Each job has at most one task in charge of it, and is pending as long as it has one. */
  ghost predicate OneInCharge(st: State) {
    && st.jobs.Keys <= st.owners.Keys
    && (forall i, id :: 0 <= i < |st.handlers| && InCharge(st.handlers[i], id) ==>
          id in st.owners && (id in st.jobs ==> st.jobs[id].status == Pending))
    && (forall i, j, id :: 0 <= i < |st.handlers| && 0 <= j < |st.handlers| && i != j && InCharge(st.handlers[i], id) ==>
          !InCharge(st.handlers[j], id))
  }

  lemma PointCharge(st: State, h: Handler, c: Choice, id: Id)
    ensures InCharge(NextPoint(st, h, c), id) ==> InCharge(h, id) || (h.Guarded? && c.newId == id)
  {
  }

  lemma NoneInCharge(h: Handler, id: Id)
    ensures IsRequest(h) || h == Finished ==> !InCharge(h, id)
  {
  }

  /** A handler is in charge after a step only if it was before, or just recorded a job under a new id. */
  lemma ChargeMoves(st: State, a: Action, i: nat, id: Id)
    requires Enabled(st, a) && i < |Apply(st, a).handlers| && InCharge(Apply(st, a).handlers[i], id)
    ensures i < |st.handlers|
    ensures InCharge(st.handlers[i], id) || (a.Advance? && a.who == i && a.choice.newId == id && st.handlers[i].Guarded? && id !in st.owners)
  {
    NoneInCharge(Apply(st, a).handlers[i], id);
    if a.Advance? {
      PointCharge(st, st.handlers[a.who], a.choice, id);
    }
    hide Plans, FunctionsAfter, JobsAfter, SettledAfter, NextPoint, InCharge, IsRequest, HoldsGuard, InPass;
  }

  lemma KeysStayOwned(st: State, a: Action)
    requires Enabled(st, a) && st.jobs.Keys <= st.owners.Keys
    ensures Apply(st, a).jobs.Keys <= Apply(st, a).owners.Keys
  {
    hide Plans, FunctionsAfter, NextPoint, SettledAfter;
  }

  lemma OneInChargeStep(st: State, a: Action)
    requires Enabled(st, a) && OneInCharge(st)
    ensures OneInCharge(Apply(st, a))
  {
    hide Apply, Plans, Issues, IsRequest, InCharge;
    var st' := Apply(st, a);
    KeysStayOwned(st, a);
    forall i, id | 0 <= i < |st'.handlers| && InCharge(st'.handlers[i], id)
      ensures id in st'.owners && (id in st'.jobs ==> st'.jobs[id].status == Pending)
    {
      ChargeMoves(st, a, i, id);
      StillPending(st, a, i, id);
    }
    forall i, j, id | 0 <= i < |st'.handlers| && 0 <= j < |st'.handlers| && i != j && InCharge(st'.handlers[i], id)
      ensures !InCharge(st'.handlers[j], id)
    {
      if InCharge(st'.handlers[j], id) {
        ChargeMoves(st, a, i, id);
        ChargeMoves(st, a, j, id);
        assert false;
      }
    }
  }

  lemma StillPending(st: State, a: Action, i: nat, id: Id)
    requires Enabled(st, a) && OneInCharge(st) && i < |st.handlers| && i < |Apply(st, a).handlers| && InCharge(Apply(st, a).handlers[i], id)
    requires InCharge(st.handlers[i], id) || (a.Advance? && a.who == i && a.choice.newId == id && st.handlers[i].Guarded? && id !in st.owners)
    ensures id in Apply(st, a).owners && (id in Apply(st, a).jobs ==> Apply(st, a).jobs[id].status == Pending)
  {
    if a.Advance? {
      var h := st.handlers[a.who];
      if a.who != i {
        assert InCharge(st.handlers[i], id) && !InCharge(h, id);
      }
      if id in JobsAfter(st, h, a.choice) {
        RecordAfter(st, h, a.choice, id);
      }
      LeavesCharge(st, h, a.choice, id);
    }
    hide Plans, FunctionsAfter, JobsAfter, SettledAfter, NextPoint, InCharge, IsRequest, HoldsGuard, InPass;
  }

  /** A record is new, is resolved by the task in charge of it, or is as it was. */
  lemma RecordAfter(st: State, h: Handler, c: Choice, id: Id)
    requires id in JobsAfter(st, h, c)
    ensures || (h.Guarded? && c.newId == id && JobsAfter(st, h, c)[id].status == Pending)
            || (h == Running(Some(id)) && id in st.jobs)
            || (id in st.jobs && JobsAfter(st, h, c)[id] == st.jobs[id])
  {
  }

  /** A task that resolves its job is no longer in charge of it. */
  lemma LeavesCharge(st: State, h: Handler, c: Choice, id: Id)
    ensures h == Running(Some(id)) ==> InCharge(h, id) && !InCharge(NextPoint(st, h, c), id)
  {
  }

  lemma {:induction false} OneInChargeAlways(states: seq<State>, acts: seq<Action>, n: nat)
    requires IsRun(states, acts) && n < |states|
    ensures OneInCharge(states[n])
  {
    if n > 0 {
      OneInChargeAlways(states, acts, n - 1);
      assert states[n - 1 + 1] == Apply(states[n - 1], acts[n - 1]);
      OneInChargeStep(states[n - 1], acts[n - 1]);
    }
    hide Apply;
  }

  /** Only the task in charge changes a record, and that from pending to what its call returned. */
  lemma StepOnJobs(st: State, a: Action, id: Id)
    requires Enabled(st, a) && OneInCharge(st) && id in st.jobs && id in Apply(st, a).jobs && st.jobs[id] != Apply(st, a).jobs[id]
    ensures a.Advance? && st.handlers[a.who] == Running(Some(id)) && st.jobs[id].status == Pending
    ensures Apply(st, a).jobs[id] == Resolved(st.jobs, id, a.choice.outcome)[id]
  {
    if a.Advance? {
      var h := st.handlers[a.who];
      assert InCharge(h, id) ==> st.jobs[id].status == Pending;
    }
  }

  /** In every interleaving a job that was resolved never changes again. */
  lemma {:induction false} ResolvedOnce(states: seq<State>, acts: seq<Action>, i: nat, j: nat, id: Id)
    requires IsRun(states, acts) && i <= j < |states|
    requires id in states[i].jobs && states[i].jobs[id].status != Pending && id in states[j].jobs
    ensures states[j].jobs[id] == states[i].jobs[id]
    decreases j
  {
    hide Apply;
    if i < j {
      OneInChargeAlways(states, acts, i);
      OneInChargeAlways(states, acts, j - 1);
      if id !in states[j - 1].jobs {
        GoneForGood(states, acts, i, j - 1, id);
        GoneForGood(states, acts, j - 1, j, id);
        assert false;
      }
      ResolvedOnce(states, acts, i, j - 1, id);
      assert states[j - 1 + 1] == Apply(states[j - 1], acts[j - 1]);
      if states[j].jobs[id] != states[j - 1].jobs[id] {
        StepOnJobs(states[j - 1], acts[j - 1], id);
        assert false;
      }
    }
  }

  /** The task of a job writes how its call ended to the job's record, whole, and to no other record. */
  lemma TaskWrites(states: seq<State>, acts: seq<Action>, n: nat, id: Id)
    requires IsRun(states, acts) && n < |acts| && acts[n].Advance? && acts[n].who < |states[n].handlers|
    requires states[n].handlers[acts[n].who] == Running(Some(id))
    ensures var jobs, jobs', outcome := states[n].jobs, states[n + 1].jobs, acts[n].choice.outcome;
            && jobs'.Keys == jobs.Keys && (forall other :: other in jobs && other != id ==> jobs'[other] == jobs[other])
            && (id in jobs ==>
                  && jobs'[id].tenant == jobs[id].tenant && jobs'[id].created == jobs[id].created
                  && (jobs'[id].status == Completed <==> outcome.Ok?) && (jobs'[id].status == Failed <==> outcome.Err?)
                  && jobs'[id].result == Some(outcome))
  {
    assert states[n + 1] == Apply(states[n], acts[n]);
  }

  /** Every later poll that passes its check returns just that, as long as the record is not evicted. */
  lemma PollsReturnTheOutcome(states: seq<State>, acts: seq<Action>, n: nat, m: nat, id: Id)
    requires IsRun(states, acts) && n < m < |acts| && acts[n].Advance? && acts[n].who < |states[n].handlers|
    requires states[n].handlers[acts[n].who] == Running(Some(id)) && id in states[n].jobs
    requires acts[m].Advance? && acts[m].who < |states[m].handlers|
    requires states[m].handlers[acts[m].who].PollChecked? && states[m].handlers[acts[m].who].id == id
    ensures acts[m].who < |states[m + 1].handlers| && states[m + 1].handlers[acts[m].who].Polled?
    ensures var seen, outcome := states[m + 1].handlers[acts[m].who].seen, acts[n].choice.outcome;
            seen == None || (seen.value.status == (if outcome.Ok? then Completed else Failed) && seen.value.result == Some(outcome))
  {
    hide Apply, Enabled;
    TaskWrites(states, acts, n, id);
    PollsSeeOwnJobs(states, acts, m);
    if id in states[m].jobs {
      ResolvedOnce(states, acts, n + 1, m, id);
    }
  }

  /** A dispatch records its job as pending, without a result, for its tenant and time; nothing else changes. */
  lemma DispatchRecords(states: seq<State>, acts: seq<Action>, n: nat)
    requires IsRun(states, acts) && n < |acts| && acts[n].Advance? && acts[n].who < |states[n].handlers|
    requires states[n].handlers[acts[n].who].Guarded?
    ensures var jobs, jobs', c := states[n].jobs, states[n + 1].jobs, acts[n].choice;
            && c.newId !in states[n].owners && jobs'.Keys == jobs.Keys + {c.newId}
            && (forall other :: other in jobs && other != c.newId ==> jobs'[other] == jobs[other])
            && jobs'[c.newId].tenant == states[n].handlers[acts[n].who].tenant && jobs'[c.newId].created == c.created
            && jobs'[c.newId].status == Pending && jobs'[c.newId].result == None
  {
    assert Enabled(states[n], acts[n]) && states[n + 1] == Apply(states[n], acts[n]);
  }

  // ------------------------------------------------------------------
  // The gauge of active jobs
  // ------------------------------------------------------------------

  function Count(hs: seq<Handler>, p: Handler -> bool): nat {
    if hs == [] then 0 else (if p(hs[0]) then 1 else 0) + Count(hs[1..], p)
  }

  lemma {:induction false} CountUpdate(hs: seq<Handler>, i: nat, h: Handler, p: Handler -> bool)
    requires i < |hs|
    ensures Count(hs[i := h], p) == Count(hs, p) - (if p(hs[i]) then 1 else 0) + (if p(h) then 1 else 0)
  {
    if i == 0 {
      assert hs[i := h][1..] == hs[1..];
    } else {
      assert hs[i := h][1..] == hs[1..][i - 1 := h];
      CountUpdate(hs[1..], i - 1, h, p);
    }
  }

  lemma {:induction false} CountAppend(hs: seq<Handler>, h: Handler, p: Handler -> bool)
    ensures Count(hs + [h], p) == Count(hs, p) + if p(h) then 1 else 0
  {
    if hs == [] {
      assert (hs + [h])[1..] == [];
    } else {
      assert (hs + [h])[1..] == hs[1..] + [h];
      CountAppend(hs[1..], h, p);
    }
  }

  const HOLDS_GUARD: Handler -> bool := (h: Handler) => HoldsGuard(h)
  const BETWEEN: Handler -> bool := (h: Handler) => h.Admitted?

  function Guards(st: State): nat {
    Count(st.handlers, HOLDS_GUARD)
  }

  /** The handlers between the capacity check and the increment. */
  function Between(st: State): nat {
    Count(st.handlers, BETWEEN)
  }

  function One(b: bool): int {
    if b then 1 else 0
  }

  /** Where a handler goes, and what that means for its guard. */
  lemma PointGauge(st: State, h: Handler, c: Choice)
    ensures var h' := NextPoint(st, h, c);
            && One(HoldsGuard(h')) - One(HoldsGuard(h)) == One(h.Admitted?) - One(h.Resolving?)
            && (h'.Admitted? && !h.Admitted? ==> st.gauge < MAX_OUTSTANDING_ASYNC_JOBS && !h.Resolving?)
  {
  }

  /** What the handler that moves does to the gauge. */
  lemma MoverGauge(st: State, a: Action)
    requires Enabled(st, a) && !a.Arrive?
    ensures a.who < |Apply(st, a).handlers|
    ensures var st', h, h' := Apply(st, a), st.handlers[a.who], Apply(st, a).handlers[a.who];
            && st'.gauge - st.gauge == One(HoldsGuard(h')) - One(HoldsGuard(h))
            && (|| st'.gauge + One(h'.Admitted?) <= st.gauge + One(h.Admitted?)
                || (st.gauge < MAX_OUTSTANDING_ASYNC_JOBS && st'.gauge == st.gauge))
  {
    if a.Advance? {
      PointGauge(st, st.handlers[a.who], a.choice);
    }
    assert !HoldsGuard(Finished);
    hide Plans, FunctionsAfter, JobsAfter, SettledAfter, NextPoint, HoldsGuard, InPass, Issues;
  }

  /** What one step does to the gauge, the guards and the handlers in between. */
  lemma GaugeStep(st: State, a: Action)
    requires Enabled(st, a)
    ensures var st' := Apply(st, a);
            && st'.gauge - st.gauge == Guards(st') - Guards(st)
            && (|| st'.gauge + Between(st') <= st.gauge + Between(st)
                || (st.gauge < MAX_OUTSTANDING_ASYNC_JOBS && st'.gauge == st.gauge))
  {
    var st' := Apply(st, a);
    if a.Arrive? {
      CountAppend(st.handlers, a.request, HOLDS_GUARD);
      CountAppend(st.handlers, a.request, BETWEEN);
    } else {
      MoverGauge(st, a);
      CountUpdate(st.handlers, a.who, st'.handlers[a.who], HOLDS_GUARD);
      CountUpdate(st.handlers, a.who, st'.handlers[a.who], BETWEEN);
    }
    hide Count, NextPoint, FunctionsAfter, JobsAfter, HoldsGuard;
  }

  lemma {:induction false} NoGuards(hs: seq<Handler>)
    requires forall i :: 0 <= i < |hs| ==> !HoldsGuard(hs[i])
    ensures Count(hs, HOLDS_GUARD) == 0
  {
    if hs != [] {
      NoGuards(hs[1..]);
    }
  }

  lemma {:induction false} GaugeAlways(states: seq<State>, acts: seq<Action>, n: nat)
    requires IsRun(states, acts) && n < |states|
    ensures states[n].gauge == Guards(states[n])
  {
    hide Apply, Guards, Between;
    if n == 0 {
      GaugeAtStart();
    } else {
      GaugeAlways(states, acts, n - 1);
      assert states[n - 1 + 1] == Apply(states[n - 1], acts[n - 1]);
      GaugeStep(states[n - 1], acts[n - 1]);
    }
  }

  lemma GaugeAtStart()
    ensures Guards(START) == 0 && Between(START) == 0
  {
  }

  /** Conservation: in every run, panics and cancellations included, the gauge is the number of live guards, and it is back at zero whenever none is live. */
  lemma GaugeConservation(states: seq<State>, acts: seq<Action>, n: nat)
    requires IsRun(states, acts) && n < |states|
    ensures states[n].gauge == Guards(states[n])
    ensures (forall i :: 0 <= i < |states[n].handlers| ==> !HoldsGuard(states[n].handlers[i])) ==> states[n].gauge == 0
  {
    GaugeAlways(states, acts, n);
    if forall i :: 0 <= i < |states[n].handlers| ==> !HoldsGuard(states[n].handlers[i]) {
      NoGuards(states[n].handlers);
    }
  }

  /** An owner-checked invocation is refused for capacity exactly when the gauge has reached the ceiling, and goes on otherwise. */
  lemma AdmissionIff(states: seq<State>, acts: seq<Action>, n: nat)
    requires IsRun(states, acts) && n < |acts| && acts[n].Advance? && acts[n].who < |states[n].handlers|
    requires states[n].handlers[acts[n].who].OwnerChecked?
    ensures acts[n].who < |states[n + 1].handlers|
    ensures var h, h' := states[n].handlers[acts[n].who], states[n + 1].handlers[acts[n].who];
            && (h' == Refused(h.tenant, AtCapacity) <==> Guards(states[n]) >= MAX_OUTSTANDING_ASYNC_JOBS)
            && (h' == Admitted(h.tenant, h.stream) <==> Guards(states[n]) < MAX_OUTSTANDING_ASYNC_JOBS)
  {
    assert states[n + 1] == Apply(states[n], acts[n]);
    GaugeAlways(states, acts, n);
    hide Guards, JobsAfter, FunctionsAfter;
  }

  /** The soft admission bound: with at most `k` handlers between the check and the increment, the gauge never exceeds the ceiling by more than that. */
  lemma {:induction false} SoftAdmissionBound(states: seq<State>, acts: seq<Action>, k: nat, n: nat)
    requires IsRun(states, acts) && n < |states|
    requires forall i :: 0 <= i <= n ==> Between(states[i]) <= k
    ensures states[n].gauge + Between(states[n]) <= MAX_OUTSTANDING_ASYNC_JOBS - 1 + k
  {
    hide Apply, Guards, Between;
    if n == 0 {
      GaugeAtStart();
    } else {
      SoftAdmissionBound(states, acts, k, n - 1);
      assert states[n - 1 + 1] == Apply(states[n - 1], acts[n - 1]);
      GaugeStep(states[n - 1], acts[n - 1]);
    }
  }

  // ------------------------------------------------------------------
  // The guard
  // ------------------------------------------------------------------

  class Gauge {
    var value: int

    constructor ()
      ensures value == 0
    {
      value := 0;
    }
  }

  /** Pairs one increment of the gauge with exactly one decrement. */
  class JobsActiveGuard {
    const metrics: Gauge
    var decremented: bool

    constructor (metrics: Gauge)
      modifies metrics
      ensures this.metrics == metrics && !decremented
      ensures metrics.value == old(metrics.value) + 1
    {
      this.metrics := metrics;
      decremented := false;
      new;
      metrics.value := metrics.value + 1;
    }

    /** The end of the guard's life, whether or not it was released: the total effect is one decrement. */
    method Drop()
      modifies metrics
      ensures metrics.value == old(metrics.value) - if decremented then 0 else 1
    {
      if !decremented {
        metrics.value := metrics.value - 1;
      }
    }

    /** Releases the guard, which then goes out of scope. */
    method Release()
      requires !decremented
      modifies this, metrics
      ensures decremented && metrics.value == old(metrics.value) - 1
    {
      metrics.value := metrics.value - 1;
      decremented := true;
      Drop();
    }
  }
}
