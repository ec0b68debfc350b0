/**
 What the gateway's handlers get done: which records an eviction pass picks and that there
 is always such a pick, that no handler is ever stuck between two lookups, and what an
 invocation, a create and a delete amount to when nothing comes in between.
 */
module GatewayLifecycle {
  import opened Jobs
  import opened Options
  import opened Sorting
  import opened GatewayRegistry
  import JobRegistry
  import GatewayJobCap

  // ------------------------------------------------------------------
  // The pick of an eviction pass
  // ------------------------------------------------------------------

  /**
   In every interleaving a pass picks exactly the overflow it read, as far as there still
   are records; a pending job only if every finished one is picked; and within the
   finished and within the pending ones the oldest.
   */
  lemma PassPicksFinishedThenOldest(states: seq<State>, acts: seq<Action>, n: nat)
    requires IsRun(states, acts) && n < |acts| && acts[n].Advance? && acts[n].who < |states[n].handlers|
    requires states[n].handlers[acts[n].who].Counted?
    ensures acts[n].who < |states[n + 1].handlers| && states[n + 1].handlers[acts[n].who].Evicting?
    ensures var jobs, overflow, picked := states[n].jobs, states[n].handlers[acts[n].who].len - MAX_JOB_RECORDS, states[n + 1].handlers[acts[n].who].todo;
            && overflow > 0 && picked <= jobs.Keys && |picked| == (if overflow < |jobs| then overflow else |jobs|)
            && (forall out, id :: out in picked && id in jobs && id !in picked ==>
                  && (jobs[out].status == Pending ==> jobs[id].status == Pending)
                  && ((jobs[out].status == Pending <==> jobs[id].status == Pending) ==> jobs[out].created <= jobs[id].created))
  {
    var st, who := states[n], acts[n].who;
    GatewayJobCap.CapAlways(states, acts, n);
    assert GatewayJobCap.PassSound(st.handlers[who], st.jobs, st.recorded);
    assert Enabled(st, acts[n]) && states[n + 1] == Apply(st, acts[n]);
    var picked := acts[n].choice.plan;
    forall out, id | out in picked && id in st.jobs && id !in picked
      ensures && (st.jobs[out].status == Pending ==> st.jobs[id].status == Pending)
              && ((st.jobs[out].status == Pending <==> st.jobs[id].status == Pending) ==> st.jobs[out].created <= st.jobs[id].created)
    {
      assert EvictedBefore(st.jobs[out], st.jobs[id]);
    }
  }

  /** In every interleaving a record goes at a step if and only if the step is a removal of a pass that had picked it. */
  lemma OnlyPicksAreEvicted(states: seq<State>, acts: seq<Action>, n: nat, id: Id)
    requires IsRun(states, acts) && n < |acts| && id in states[n].jobs
    ensures id !in states[n + 1].jobs <==>
            && acts[n].Advance? && states[n].handlers[acts[n].who].Evicting?
            && id in states[n].handlers[acts[n].who].todo && id == acts[n].choice.victim
  {
    assert Enabled(states[n], acts[n]) && states[n + 1] == Apply(states[n], acts[n]);
    hide Plans, NextPoint, FunctionsAfter, SettledAfter;
  }

  /** Whatever a pass read, there is something for it to pick: the front of the records in eviction order. */
  lemma PickExists(jobs: JobMap, len: nat) returns (plan: set<Id>)
    requires len > MAX_JOB_RECORDS
    ensures Plans(jobs, len, plan)
  {
    var key := JobRegistry.RankIn(jobs);
    var all := ListOf(jobs.Keys);
    SortByLaws(all, key);
    var ids := SortBy(all, key);
    DistinctSize(ids);
    assert |jobs| == |jobs.Keys| == |ids|;
    var n := if len - MAX_JOB_RECORDS <= |jobs| then len - MAX_JOB_RECORDS else |jobs|;
    plan := Elements(ids[..n]);
    FrontIsPick(jobs, ids, n);
    hide *;
  }

  lemma FrontIsPick(jobs: JobMap, ids: seq<Id>, n: nat)
    requires Distinct(ids) && Elements(ids) == jobs.Keys && SortedBy(ids, JobRegistry.RankIn(jobs)) && n <= |ids|
    ensures var plan := Elements(ids[..n]);
            && plan <= jobs.Keys && |plan| == n
            && (forall out, id :: out in plan && id in jobs && id !in plan ==> EvictedBefore(jobs[out], jobs[id]))
  {
    var plan := Elements(ids[..n]);
    assert Distinct(ids[..n]);
    DistinctSize(ids[..n]);
    assert forall id :: id in plan ==> id in Elements(ids);
    forall out, id | out in plan && id in jobs && id !in plan ensures EvictedBefore(jobs[out], jobs[id]) {
      var i :| 0 <= i < n && ids[..n][i] == out;
      assert id in Elements(ids);
      var j :| 0 <= j < |ids| && ids[j] == id;
      JobRegistry.InPrefix(ids, n, j);
      assert JobRegistry.RankIn(jobs)(ids[i]) <= JobRegistry.RankIn(jobs)(ids[j]);
      JobRegistry.RankIsOrder(jobs[out], jobs[id]);
    }
  }

  lemma Pick<T>(all: set<T>) returns (x: T)
    requires all != {}
    ensures x in all
  {
    x :| x in all;
  }

  lemma {:induction false} Above(ids: set<Id>) returns (bound: Id)
    ensures forall id :: id in ids ==> id < bound
  {
    bound := 0;
    if ids != {} {
      var x := Pick(ids);
      var b := Above(ids - {x});
      bound := if x < b then b else x + 1;
      forall id | id in ids ensures id < bound {
        assert id == x || id in ids - {x};
      }
    }
  }

  /** In every state of every run every handler can take its next step, whatever the others have done. */
  lemma NeverStuck(states: seq<State>, acts: seq<Action>, n: nat, who: nat)
    requires IsRun(states, acts) && n < |states| && who < |states[n].handlers|
    ensures exists c :: Enabled(states[n], Advance(who, c))
  {
    var st, h := states[n], states[n].handlers[who];
    GatewayJobCap.CapAlways(states, acts, n);
    assert GatewayJobCap.PassSound(h, st.jobs, st.recorded);
    var newId := Above(st.owners.Keys);
    assert newId !in st.owners.Keys;
    var plan, victim := {}, 0;
    if h.Counted? {
      plan := PickExists(st.jobs, h.len);
    }
    if h.Evicting? && h.todo != {} {
      victim := Pick(h.todo);
    }
    var c := Choice(newId, 0, plan, victim, Ok(""));
    hide Plans;
    assert Enabled(st, Advance(who, c));
  }

  // ------------------------------------------------------------------
  // Handlers that run alone
  // ------------------------------------------------------------------

  /** `m` steps of one handler, nobody else coming in between. */
  function Steps(st: State, who: nat, c: Choice, m: nat): State
    requires who < |st.handlers|
    decreases m
  {
    if m == 0 then st else Steps(Step(st, who, c), who, c, m - 1)
  }

  lemma StepsApart(st: State, who: nat, c: Choice, m: nat)
    requires who < |st.handlers| && m > 0
    ensures Steps(st, who, c, m) == Steps(Step(st, who, c), who, c, m - 1)
    ensures Steps(st, who, c, 0) == st
  {
  }

  /** `st` with one handler standing somewhere else, and another value of the gauge. */
  function Standing(st: State, who: nat, h: Handler, gauge: int): State
    requires who < |st.handlers|
  {
    st.(handlers := st.handlers[who := h], gauge := gauge)
  }

  /** A step that neither issues an id nor touches a record. */
  lemma PlainStep(st: State, who: nat, h: Handler, gauge: int, c: Choice)
    requires who < |st.handlers| && (h.Invoking? || h.OwnerChecked? || h.Admitted? || h == Running(None) || h.Resolving?)
    ensures var s := Standing(st, who, h, gauge);
            Step(s, who, c) == Standing(st, who, NextPoint(s, h, c), gauge + if h.Admitted? then 1 else if h.Resolving? then -1 else 0)
  {
    hide NextPoint;
    assert st.handlers[who := h][who := NextPoint(Standing(st, who, h, gauge), h, c)] == st.handlers[who := NextPoint(Standing(st, who, h, gauge), h, c)];
  }

  /** What an invocation of one's own function below capacity has done when it is past the capacity check and counted. */
  lemma ThreeSteps(st: State, who: nat, c: Choice, t: TenantId, f: Id, stream: bool)
    requires who < |st.handlers| && st.handlers[who] == Invoking(t, f, stream)
    requires f in st.functions && st.functions[f].tenant == t && st.gauge < MAX_OUTSTANDING_ASYNC_JOBS
    ensures Steps(st, who, c, 3) == Standing(st, who, if stream then Running(None) else Guarded(t), st.gauge + 1)
    ensures forall m :: m >= 3 ==> Steps(st, who, c, m) == Steps(Standing(st, who, if stream then Running(None) else Guarded(t), st.gauge + 1), who, c, m - 3)
  {
    var s1, s2, s3 := Standing(st, who, OwnerChecked(t, stream), st.gauge), Standing(st, who, Admitted(t, stream), st.gauge),
                      Standing(st, who, if stream then Running(None) else Guarded(t), st.gauge + 1);
    assert Standing(st, who, st.handlers[who], st.gauge) == st;
    PlainStep(st, who, st.handlers[who], st.gauge, c);
    PlainStep(st, who, OwnerChecked(t, stream), st.gauge, c);
    PlainStep(st, who, Admitted(t, stream), st.gauge, c);
    assert Step(st, who, c) == s1 && Step(s1, who, c) == s2 && Step(s2, who, c) == s3;
    hide Step;
    forall m | m >= 3 ensures Steps(st, who, c, m) == Steps(s3, who, c, m - 3) {
      StepsApart(st, who, c, m);
      StepsApart(s1, who, c, m - 1);
      StepsApart(s2, who, c, m - 2);
    }
  }

  /** A streamed invocation passes through the gauge and leaves no record: five steps on, all is as before. */
  lemma StreamLeavesNoRecord(st: State, who: nat, c: Choice, t: TenantId, f: Id)
    requires who < |st.handlers| && st.handlers[who] == Invoking(t, f, true)
    requires f in st.functions && st.functions[f].tenant == t && st.gauge < MAX_OUTSTANDING_ASYNC_JOBS
    ensures Steps(st, who, c, 3) == st.(handlers := st.handlers[who := Running(None)], gauge := st.gauge + 1)
    ensures Steps(st, who, c, 5) == st.(handlers := st.handlers[who := Finished])
  {
    ThreeSteps(st, who, c, t, f, true);
    var s3, s4, s5 := Standing(st, who, Running(None), st.gauge + 1), Standing(st, who, Resolving, st.gauge + 1), Standing(st, who, Finished, st.gauge);
    PlainStep(st, who, Running(None), st.gauge + 1, c);
    PlainStep(st, who, Resolving, st.gauge + 1, c);
    assert Step(s3, who, c) == s4 && Step(s4, who, c) == s5;
    hide Step, Steps;
    StepsApart(s3, who, c, 2);
    StepsApart(s4, who, c, 1);
  }

  /** The step that records a job. */
  lemma RecordingStep(st: State, who: nat, t: TenantId, gauge: int, c: Choice)
    requires who < |st.handlers|
    ensures Step(Standing(st, who, Guarded(t), gauge), who, c) ==
              Standing(st.(jobs := st.jobs[c.newId := JobRecord(t, Pending, None, c.created)], owners := st.owners[c.newId := t], recorded := st.recorded + 1),
                       who, Recorded(c.newId, st.recorded + 1), gauge)
  {
    assert st.handlers[who := Guarded(t)][who := Recorded(c.newId, st.recorded + 1)] == st.handlers[who := Recorded(c.newId, st.recorded + 1)];
  }

  /** The step that reads the number of records and finds room. */
  lemma CountingStep(st: State, who: nat, id: Id, serial: nat, gauge: int, c: Choice)
    requires who < |st.handlers| && |st.jobs| <= MAX_JOB_RECORDS
    ensures Step(Standing(st, who, Recorded(id, serial), gauge), who, c) == Standing(st.(settled := st.recorded), who, Running(Some(id)), gauge)
  {
    assert st.handlers[who := Recorded(id, serial)][who := Running(Some(id))] == st.handlers[who := Running(Some(id))];
  }

  /** The step that writes the outcome. */
  lemma WritingStep(st: State, who: nat, id: Id, gauge: int, c: Choice)
    requires who < |st.handlers|
    ensures Step(Standing(st, who, Running(Some(id)), gauge), who, c) == Standing(st.(jobs := Resolved(st.jobs, id, c.outcome)), who, Resolving, gauge)
  {
    assert st.handlers[who := Running(Some(id))][who := Resolving] == st.handlers[who := Resolving];
  }

  lemma OneMore(jobs: JobMap, id: Id, r: JobRecord)
    requires id !in jobs
    ensures |jobs[id := r]| == |jobs| + 1
  {
    assert jobs[id := r].Keys == jobs.Keys + {id};
    assert |jobs[id := r]| == |jobs[id := r].Keys| && |jobs| == |jobs.Keys|;
  }

  /** From the guard on: the record, the count, the outcome, the release. */
  lemma FourMore(st: State, who: nat, c: Choice, t: TenantId, gauge: int)
    requires who < |st.handlers| && c.newId !in st.jobs && |st.jobs| < MAX_JOB_RECORDS
    ensures var id, s3, pending := c.newId, Standing(st, who, Guarded(t), gauge), st.jobs[c.newId := JobRecord(t, Pending, None, c.created)];
            && Steps(s3, who, c, 1).jobs == pending
            && Steps(s3, who, c, 4) == Standing(st.(jobs := Resolved(pending, id, c.outcome), owners := st.owners[id := t],
                                                    recorded := st.recorded + 1, settled := st.recorded + 1), who, Finished, gauge - 1)
  {
    hide Step, Steps, Resolved;
    var id := c.newId;
    var b4 := st.(jobs := st.jobs[id := JobRecord(t, Pending, None, c.created)], owners := st.owners[id := t], recorded := st.recorded + 1);
    var b5 := b4.(settled := st.recorded + 1);
    var b6 := b5.(jobs := Resolved(b5.jobs, id, c.outcome));
    var s3, s4 := Standing(st, who, Guarded(t), gauge), Standing(b4, who, Recorded(id, st.recorded + 1), gauge);
    var s5, s6 := Standing(b5, who, Running(Some(id)), gauge), Standing(b6, who, Resolving, gauge);
    var s7 := Standing(b6, who, Finished, gauge - 1);
    RecordingStep(st, who, t, gauge, c);
    OneMore(st.jobs, id, JobRecord(t, Pending, None, c.created));
    CountingStep(b4, who, id, st.recorded + 1, gauge, c);
    WritingStep(b5, who, id, gauge, c);
    PlainStep(b6, who, Resolving, gauge, c);
    StepsApart(s3, who, c, 1);
    StepsApart(s4, who, c, 1);
    StepsApart(s3, who, c, 4);
    StepsApart(s4, who, c, 3);
    StepsApart(s5, who, c, 2);
    StepsApart(s6, who, c, 1);
    StepsApart(s7, who, c, 1);
  }

  /** An async invocation with room for its record: seven steps on, the record tells how the call ended, and the gauge is back. */
  lemma AsyncLeavesItsOutcome(st: State, who: nat, c: Choice, t: TenantId, f: Id)
    requires who < |st.handlers| && st.handlers[who] == Invoking(t, f, false)
    requires f in st.functions && st.functions[f].tenant == t && st.gauge < MAX_OUTSTANDING_ASYNC_JOBS
    requires c.newId !in st.jobs && |st.jobs| < MAX_JOB_RECORDS
    ensures Steps(st, who, c, 4).jobs == st.jobs[c.newId := JobRecord(t, Pending, None, c.created)]
    ensures Steps(st, who, c, 7) ==
              st.(jobs := st.jobs[c.newId := JobRecord(t, if c.outcome.Ok? then Completed else Failed, Some(c.outcome), c.created)],
                  handlers := st.handlers[who := Finished], owners := st.owners[c.newId := t],
                  recorded := st.recorded + 1, settled := st.recorded + 1)
  {
    hide Steps;
    ThreeSteps(st, who, c, t, f, false);
    FourMore(st, who, c, t, st.gauge + 1);
  }

  /** Deleting what one has just created leaves the functions as they were and returns the record. */
  lemma DeleteUndoesCreate(st: State, creator: nat, deleter: nat, c: Choice, t: TenantId)
    requires creator < |st.handlers| && deleter < |st.handlers| && creator != deleter
    requires st.handlers[creator] == Creating(t) && st.handlers[deleter] == Deleting(t, c.newId) && c.newId !in st.functions
    ensures var created := Step(st, creator, c);
            && created.functions == st.functions[c.newId := FunctionRecord(t)]
            && var gone := Steps(created, deleter, c, 2);
            gone.functions == st.functions && gone.handlers[deleter] == Deleted(t, c.newId, Some(FunctionRecord(t)))
  {
    var s1 := Step(st, creator, c);
    var s2 := Step(s1, deleter, c);
    var s3 := Step(s2, deleter, c);
    assert s2.handlers[deleter] == DeleteChecked(t, c.newId) && s2.functions == s1.functions;
    assert s3.functions == st.functions;
    StepsApart(s1, deleter, c, 2);
    StepsApart(s2, deleter, c, 1);
    hide Step, Steps;
  }
}
