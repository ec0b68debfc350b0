/**
 The cap on job records when dispatches interleave. Each handler records its job, reads
 the number of records, lists them, and removes the overflow it saw one by one; others do
 the same in between. Proved here: the registry exceeds its cap by no more than the
 number of handlers that are between those steps.
 */
module GatewayJobCap {
  import opened Jobs
  import opened GatewayRegistry
  import opened Sorting

  /** What each handler knows about the number of records. */
  predicate PassSound(h: Handler, jobs: JobMap, recorded: nat) {
    match h
    case Recorded(_, n) => n <= recorded
    case Counted(_, n, at, len) => n <= at <= recorded && len > MAX_JOB_RECORDS && |jobs.Keys| <= len + recorded - at
    case Evicting(_, n, at, todo) => n <= at <= recorded && |jobs.Keys - todo| <= MAX_JOB_RECORDS + recorded - at
    case _ => true
  }

  /** Some handler is still in its pass for the serial-th job. */
  ghost predicate Serving(hs: seq<Handler>, serial: nat) {
    exists i :: 0 <= i < |hs| && InPass(hs[i]) && hs[i].serial == serial
  }

  /** The records exceed the cap at most by the jobs recorded since the latest settled count, and all of these are still in their pass. */
  ghost predicate CapInv(st: State) {
    && st.settled <= st.recorded
    && |st.jobs.Keys| <= MAX_JOB_RECORDS + st.recorded - st.settled
    && (forall i :: 0 <= i < |st.handlers| ==> PassSound(st.handlers[i], st.jobs, st.recorded))
    && (forall n :: st.settled < n <= st.recorded ==> n in st.abandoned || Serving(st.handlers, n))
  }

  lemma KeysAfterMove(st: State, h: Handler, c: Choice)
    ensures var keys := JobsAfter(st, h, c).Keys;
            if h.Guarded? then keys == st.jobs.Keys + {c.newId} else keys <= st.jobs.Keys
  {
  }

  /** How a step changes the set of recorded ids. */
  lemma KeysAfter(st: State, a: Action)
    requires Enabled(st, a)
    ensures var st' := Apply(st, a);
            || (a.Advance? && st.handlers[a.who].Guarded? && st'.jobs.Keys == st.jobs.Keys + {a.choice.newId} && st'.recorded == st.recorded + 1)
            || (st'.recorded == st.recorded && st'.jobs.Keys <= st.jobs.Keys)
    ensures |Apply(st, a).jobs.Keys| <= |st.jobs.Keys| + Apply(st, a).recorded - st.recorded
  {
    var keys, keys' := st.jobs.Keys, Apply(st, a).jobs.Keys;
    if a.Advance? {
      KeysAfterMove(st, st.handlers[a.who], a.choice);
    }
    hide Plans, FunctionsAfter, NextPoint, SettledAfter, JobsAfter, Issues, InPass, HoldsGuard;
    if keys' <= keys {
      SubsetSize(keys', keys);
    }
  }

  /** A handler that does not move stays sound, whatever the others do. */
  lemma OthersSound(h: Handler, jobs: JobMap, recorded: nat, jobs': JobMap, recorded': nat, fresh': set<Id>)
    requires PassSound(h, jobs, recorded)
    requires jobs'.Keys <= jobs.Keys + fresh' && |fresh'| == recorded' - recorded
    ensures PassSound(h, jobs', recorded')
  {
    if h.Counted? {
      SubsetSize(jobs'.Keys, jobs.Keys + fresh');
    } else if h.Evicting? {
      SubsetSize(jobs'.Keys - h.todo, (jobs.Keys - h.todo) + fresh');
    }
  }

  lemma MoverSound(st: State, a: Action)
    requires Enabled(st, a) && CapInv(st) && !a.Arrive?
    ensures a.who < |Apply(st, a).handlers| && PassSound(Apply(st, a).handlers[a.who], Apply(st, a).jobs, Apply(st, a).recorded)
  {
    var h := st.handlers[a.who];
    assert PassSound(h, st.jobs, st.recorded);
    hide CapInv, FunctionsAfter, JobsAfter, NextPoint, SettledAfter, Plans, PassSound, Issues;
    if a.Abort? {
      FinishedSound(st.jobs, st.recorded);
    } else if h.Counted? {
      CountedMoves(st, h, a.choice);
    } else if h.Evicting? {
      EvictingMoves(st, h, a.choice);
    } else {
      OtherMoves(st, h, a.choice);
    }
  }

  lemma FinishedSound(jobs: JobMap, recorded: nat)
    ensures PassSound(Finished, jobs, recorded)
  {
  }

  lemma CountedMoves(st: State, h: Handler, c: Choice)
    requires h.Counted? && PassSound(h, st.jobs, st.recorded) && Plans(st.jobs, h.len, c.plan)
    ensures PassSound(NextPoint(st, h, c), JobsAfter(st, h, c), st.recorded)
  {
    PlanFits(st.jobs, c.plan, h.len, st.recorded - h.at);
    hide Plans;
  }

  lemma EvictingMoves(st: State, h: Handler, c: Choice)
    requires h.Evicting? && PassSound(h, st.jobs, st.recorded)
    ensures PassSound(NextPoint(st, h, c), JobsAfter(st, h, c), st.recorded)
  {
    RemovalFits(st.jobs, h.todo, c.victim);
  }

  lemma OtherMoves(st: State, h: Handler, c: Choice)
    requires PassSound(h, st.jobs, st.recorded) && !h.Counted? && !h.Evicting?
    ensures PassSound(NextPoint(st, h, c), JobsAfter(st, h, c), st.recorded + if h.Guarded? then 1 else 0)
  {
    assert |st.jobs| == |st.jobs.Keys|;
  }

  lemma RemovalFits(jobs: JobMap, todo: set<Id>, victim: Id)
    ensures |(jobs - {victim}).Keys - (todo - {victim})| <= |jobs.Keys - todo|
  {
    SubsetSize((jobs - {victim}).Keys - (todo - {victim}), jobs.Keys - todo);
  }

  lemma PlanFits(jobs: JobMap, plan: set<Id>, len: nat, since: nat)
    requires Plans(jobs, len, plan) && len > MAX_JOB_RECORDS && |jobs.Keys| <= len + since
    ensures |jobs.Keys - plan| <= MAX_JOB_RECORDS + since
  {
    assert |jobs.Keys - plan| == |jobs.Keys| - |plan| && |jobs| == |jobs.Keys|;
  }

  lemma HandlersStaySound(st: State, a: Action)
    requires Enabled(st, a) && CapInv(st)
    ensures var st' := Apply(st, a);
            forall i :: 0 <= i < |st'.handlers| ==> PassSound(st'.handlers[i], st'.jobs, st'.recorded)
  {
    var st' := Apply(st, a);
    var new' := if st'.recorded == st.recorded then {} else {a.choice.newId};
    KeysAfter(st, a);
    forall i | 0 <= i < |st'.handlers| ensures PassSound(st'.handlers[i], st'.jobs, st'.recorded) {
      if !a.Arrive? && i == a.who {
        MoverSound(st, a);
      } else if i < |st.handlers| {
        OthersSound(st.handlers[i], st.jobs, st.recorded, st'.jobs, st'.recorded, new');
      }
    }
    hide NextPoint, FunctionsAfter, JobsAfter, PassSound;
  }

  /** A handler in a pass stays in it, or ends it and settles all that was recorded before its count. */
  lemma PassMoves(st: State, h: Handler, c: Choice)
    requires PassSound(h, st.jobs, st.recorded)
    ensures InPass(h) ==>
              var h' := NextPoint(st, h, c);
              (InPass(h') && h'.serial == h.serial) || SettledAfter(st, h) >= h.serial
    ensures h.Guarded? ==> InPass(NextPoint(st, h, c)) && NextPoint(st, h, c).serial == st.recorded + 1
  {
  }

  /** Whoever is in a pass stays in it, finishes it, or abandons it. */
  lemma ServingMoves(st: State, a: Action, n: nat)
    requires Enabled(st, a) && CapInv(st) && st.settled < n <= Apply(st, a).recorded && Apply(st, a).settled < n
    ensures n in Apply(st, a).abandoned || Serving(Apply(st, a).handlers, n)
  {
    var st' := Apply(st, a);
    if a.Advance? {
      assert PassSound(st.handlers[a.who], st.jobs, st.recorded);
      PassMoves(st, st.handlers[a.who], a.choice);
    }
    hide Plans, FunctionsAfter, JobsAfter, NextPoint, SettledAfter, InPass, HoldsGuard, Issues, PassSound;
    if n > st.recorded {
      assert InPass(st'.handlers[a.who]) && st'.handlers[a.who].serial == n;
    } else if n !in st.abandoned {
      assert Serving(st.handlers, n);
      var i :| 0 <= i < |st.handlers| && InPass(st.handlers[i]) && st.handlers[i].serial == n;
      if a.Arrive? || i != a.who {
        assert st'.handlers[i] == st.handlers[i];
      } else if a.Advance? {
        assert InPass(st'.handlers[i]) && st'.handlers[i].serial == n;
      }
    }
  }

  lemma CapStep(st: State, a: Action)
    requires Enabled(st, a) && CapInv(st)
    ensures CapInv(Apply(st, a))
  {
    var st' := Apply(st, a);
    KeysAfter(st, a);
    HandlersStaySound(st, a);
    forall n | st'.settled < n <= st'.recorded ensures n in st'.abandoned || Serving(st'.handlers, n) {
      ServingMoves(st, a, n);
    }
    SettledSound(st, a);
    hide NextPoint, FunctionsAfter, JobsAfter, PassSound, Serving;
  }

  lemma SettledSound(st: State, a: Action)
    requires Enabled(st, a) && CapInv(st)
    ensures var st' := Apply(st, a);
            && st.settled <= st'.settled <= st'.recorded && |st'.jobs.Keys| <= MAX_JOB_RECORDS + st'.recorded - st'.settled
  {
    KeysAfter(st, a);
    hide Plans, FunctionsAfter, JobsAfter, NextPoint;
    if a.Advance? {
      var h := st.handlers[a.who];
      assert PassSound(h, st.jobs, st.recorded);
      if h.Evicting? && h.todo == {} {
        assert st.jobs.Keys - h.todo == st.jobs.Keys;
      }
    }
  }

  lemma {:induction false} CapAlways(states: seq<State>, acts: seq<Action>, n: nat)
    requires IsRun(states, acts) && n < |states|
    ensures CapInv(states[n])
  {
    if n > 0 {
      CapAlways(states, acts, n - 1);
      assert states[n - 1 + 1] == Apply(states[n - 1], acts[n - 1]);
      CapStep(states[n - 1], acts[n - 1]);
    }
    hide Apply;
  }

  // ------------------------------------------------------------------
  // Counting the passes
  // ------------------------------------------------------------------

  const IN_PASS: Handler -> bool := (h: Handler) => InPass(h)

  function Serials(hs: seq<Handler>): set<nat> {
    set h | h in hs && InPass(h) :: h.serial
  }

  lemma {:induction false} SerialsSize(hs: seq<Handler>)
    ensures |Serials(hs)| <= Count(hs, IN_PASS)
  {
    if hs != [] {
      SerialsSize(hs[1..]);
      assert hs == [hs[0]] + hs[1..];
      assert Serials(hs) == Serials(hs[1..]) + if InPass(hs[0]) then {hs[0].serial} else {};
    } else {
      assert Serials(hs) == {};
    }
  }

  lemma {:induction false} IntervalSize(lo: nat, hi: nat, s: set<nat>)
    requires lo <= hi && forall n :: lo < n <= hi ==> n in s
    ensures hi - lo <= |s|
    decreases hi - lo
  {
    if lo < hi {
      IntervalSize(lo, hi - 1, s - {hi});
    }
  }

  /** The aborted passes that no finished pass has made up for: none of those counted after they were recorded. */
  function Owed(st: State): set<nat> {
    set m | m in st.abandoned && m > st.settled
  }

  /**
   The soft cap, in every interleaving: the registry exceeds its cap at most by the
   number of handlers between the record of their job and the end of their pass, and the
   number of aborted passes that no later finished pass has made up for.
   */
  lemma SoftJobCap(states: seq<State>, acts: seq<Action>, n: nat)
    requires IsRun(states, acts) && n < |states|
    ensures |states[n].jobs| <= MAX_JOB_RECORDS + Count(states[n].handlers, IN_PASS) + |Owed(states[n])|
  {
    CapAlways(states, acts, n);
    var st := states[n];
    var serving := Serials(st.handlers);
    forall m | st.settled < m <= st.recorded ensures m in Owed(st) + serving {
      if m !in st.abandoned {
        assert Serving(st.handlers, m);
        var i :| 0 <= i < |st.handlers| && InPass(st.handlers[i]) && st.handlers[i].serial == m;
        assert st.handlers[i] in st.handlers;
      }
    }
    IntervalSize(st.settled, st.recorded, Owed(st) + serving);
    SerialsSize(st.handlers);
    assert |st.jobs| == |st.jobs.Keys|;
    hide Serials, Count, Owed;
  }
}
