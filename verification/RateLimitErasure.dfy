/**
 Rejected requests and long-horizon sweeps are unobservable: erasing any of them from
 a run changes no other request's answer. The simulation relates a bucket that is
 absent to one that would be full by now.
 */
module RateLimitErasure {
  import opened Options
  import opened RateLimit
  import opened RateLimitRuns
  import opened Sorting

  // ------------------------------------------------------------------
  // Erasing events
  // ------------------------------------------------------------------

  /** The elements of `xs` that are not marked in `drop`. */
  function Erase<T>(xs: seq<T>, drop: seq<bool>): seq<T>
    requires |xs| == |drop|
  {
    if xs == [] then [] else (if drop[0] then [] else [xs[0]]) + Erase(xs[1..], drop[1..])
  }

  ghost predicate Monotone(clock: real, evs: seq<Event>) {
    (evs != [] ==> clock <= evs[0].now)
    && forall i, j :: 0 <= i < j < |evs| ==> evs[i].now <= evs[j].now
  }

  /** Event `i` may be erased: it is a sweep, or a request that was rejected. */
  ghost predicate Erasable(cfg: Config, st: State, evs: seq<Event>, drop: seq<bool>) {
    && |drop| == |evs|
    && forall i :: 0 <= i < |evs| && drop[i] ==> Answers(cfg, st, evs)[i] != Answered(Admit)
  }

  ghost predicate LongSweeps(cfg: Config, evs: seq<Event>) {
    forall e :: e in evs && e.Sweep? ==> LongHorizon(cfg, e.ttl)
  }

  // ------------------------------------------------------------------
  // Few tenants: nothing is ever evicted
  // ------------------------------------------------------------------

  function Requested(evs: seq<Event>): set<PairId> {
    set e | e in evs && e.Request? :: (e.token, e.tenant)
  }

  function PairsOf(universe: set<PairId>, token: TokenId): set<PairId> {
    set p | p in universe && p.0 == token
  }

  /** No token has more pairs in `universe` than the cap. */
  ghost predicate FewTenants(universe: set<PairId>) {
    forall token :: |PairsOf(universe, token)| <= MAX_TENANTS_PER_TOKEN
  }

  lemma RoomForOneMore(universe: set<PairId>, st: State, token: TokenId, tenant: TenantId)
    requires FewTenants(universe) && st.pairs.Keys <= universe
    requires (token, tenant) in universe && (token, tenant) !in st.pairs
    ensures |TenantsOf(st.pairs, token)| < MAX_TENANTS_PER_TOKEN
  {
    SubsetSize(TenantsOf(st.pairs, token), PairsOf(universe, token) - {(token, tenant)});
  }

  /** With few tenants the only legal victim is no victim. */
  lemma NoEviction(cfg: Config, universe: set<PairId>, st: State, token: TokenId, tenant: TenantId, victim: Option<PairId>)
    requires FewTenants(universe) && st.pairs.Keys <= universe && (token, tenant) in universe
    ensures LegalVictim(cfg, st, token, tenant, victim) <==> victim == None
  {
    if (token, tenant) !in st.pairs {
      RoomForOneMore(universe, st, token, tenant);
    }
  }

  lemma KeysWithin(cfg: Config, universe: set<PairId>, st: State, e: Event)
    requires st.pairs.Keys <= universe
    requires e.Request? ==> (e.token, e.tenant) in universe
    ensures Next(cfg, st, e).pairs.Keys <= universe
  {
  }

  // ------------------------------------------------------------------
  // The simulation
  // ------------------------------------------------------------------

  ghost predicate AllPast(st: State, clock: real) {
    forall k :: Past(At(st, k), clock)
  }

  /** Two limiters with equal balances: no request at `clock` or later tells them apart, as long as no short sweep and no eviction comes in between. */
  ghost predicate Alike(cfg: Config, st1: State, st2: State, clock: real) {
    && Sound(cfg, st1) && Sound(cfg, st2)
    && AllPast(st1, clock) && AllPast(st2, clock)
    && forall k :: Active(cfg, k) ==> Balance(cfg, st1, k, clock) == Balance(cfg, st2, k, clock)
  }

  lemma AlikeLater(cfg: Config, st1: State, st2: State, clock: real, now: real)
    requires Alike(cfg, st1, st2, clock) && clock <= now
    ensures Alike(cfg, st1, st2, now)
  {
    hide Refill;
    forall k | Active(cfg, k) ensures Balance(cfg, st1, k, now) == Balance(cfg, st2, k, now) {
      assert SoundBucket(At(st1, k), Burst(cfg, k)) && SoundBucket(At(st2, k), Burst(cfg, k));
      assert Past(At(st1, k), clock) && Past(At(st2, k), clock);
      AvailableLater(At(st1, k), Burst(cfg, k), Qps(cfg, k), clock, now);
      AvailableLater(At(st2, k), Burst(cfg, k), Qps(cfg, k), clock, now);
    }
    forall k ensures Past(At(st1, k), now) && Past(At(st2, k), now) {
      assert Past(At(st1, k), clock) && Past(At(st2, k), clock);
    }
  }

  lemma AlikeSymmetric(cfg: Config, st1: State, st2: State, clock: real)
    requires Alike(cfg, st1, st2, clock)
    ensures Alike(cfg, st2, st1, clock)
  {
  }

  lemma AlikeTransitive(cfg: Config, st1: State, st2: State, st3: State, clock: real)
    requires Alike(cfg, st1, st2, clock) && Alike(cfg, st2, st3, clock)
    ensures Alike(cfg, st1, st3, clock)
  {
    forall k | Active(cfg, k) ensures Balance(cfg, st1, k, clock) == Balance(cfg, st3, k, clock) {
      assert Balance(cfg, st1, k, clock) == Balance(cfg, st2, k, clock);
    }
  }

  lemma AlikeAnswer(cfg: Config, st1: State, st2: State, e: Event)
    requires Alike(cfg, st1, st2, e.now)
    ensures AnswerOf(cfg, st1, e) == AnswerOf(cfg, st2, e)
  {
    hide Balance;
    if e.Request? {
      var p, w := Pair(e.token, e.tenant), Whole(e.token);
      assert Active(cfg, p) ==> Balance(cfg, st1, p, e.now) == Balance(cfg, st2, p, e.now);
      assert Active(cfg, w) ==> Balance(cfg, st1, w, e.now) == Balance(cfg, st2, w, e.now);
    }
  }

  /** After any event the state is again sound and in the past of that event. */
  lemma StepKeeps(cfg: Config, st: State, e: Event)
    requires Legal(cfg, st, e) && Sound(cfg, st) && AllPast(st, e.now)
    ensures Sound(cfg, Next(cfg, st, e)) && AllPast(Next(cfg, st, e), e.now)
  {
    LegalIsFeasible(cfg, st, e);
    hide Next, Legal, Feasible;
    forall k ensures SoundBucket(At(Next(cfg, st, e), k), Burst(cfg, k)) {
      assert SoundBucket(At(st, k), Burst(cfg, k));
      SoundStep(cfg, st, k, e);
    }
    forall k ensures Past(At(Next(cfg, st, e), k), e.now) {
      assert Past(At(st, k), e.now);
      StepEffect(cfg, st, k, e);
    }
  }

  /** A request served on both sides keeps the two limiters alike. */
  lemma AlikeRequest(cfg: Config, st1: State, st2: State, e: Event)
    requires e.Request? && e.victim == None && Legal(cfg, st1, e) && Legal(cfg, st2, e)
    requires Alike(cfg, st1, st2, e.now)
    ensures Alike(cfg, Next(cfg, st1, e), Next(cfg, st2, e), e.now)
  {
    LegalIsFeasible(cfg, st1, e);
    hide Next, Legal, Available, AnswerOf, Feasible;
    StepKeeps(cfg, st1, e);
    StepKeeps(cfg, st2, e);
    AlikeAnswer(cfg, st1, st2, e);
    forall k | Active(cfg, k)
      ensures Balance(cfg, Next(cfg, st1, e), k, e.now) == Balance(cfg, Next(cfg, st2, e), k, e.now)
    {
      assert Balance(cfg, st1, k, e.now) == Balance(cfg, st2, k, e.now);
      assert SoundBucket(At(st1, k), Burst(cfg, k)) && SoundBucket(At(st2, k), Burst(cfg, k));
      if Touches(cfg, st1, k, e) {
        BalanceAfter(cfg, st1, k, e);
        BalanceAfter(cfg, st2, k, e);
      } else {
        StepEffect(cfg, st1, k, e);
        StepEffect(cfg, st2, k, e);
      }
    }
  }

  /** The bucket a request evicts is not the one it asks for. */
  lemma VictimIsAnother(cfg: Config, st: State, k: Key, e: Event)
    requires Legal(cfg, st, e) && Removes(cfg, st, k, e)
    ensures !Hits(cfg, k, e)
  {
  }

  /**
   Exactly when a sweep or a rejected request leaves every balance as it was: when every
   bucket it discards, by the sweep or by the eviction the request forced, is full by
   then. This is what the long horizon and the bound on tenants are for.
   */
  lemma InvisibleIff(cfg: Config, st: State, e: Event)
    requires Legal(cfg, st, e) && Sound(cfg, st) && AllPast(st, e.now) && AnswerOf(cfg, st, e) != Answered(Admit)
    ensures Alike(cfg, st, Next(cfg, st, e), e.now) <==> forall k :: Active(cfg, k) ==> !EarlyLoss(cfg, st, k, e)
  {
    LegalIsFeasible(cfg, st, e);
    hide Next, Legal, Available, AnswerOf, Feasible;
    StepKeeps(cfg, st, e);
    forall k | Active(cfg, k)
      ensures Balance(cfg, st, k, e.now) == Balance(cfg, Next(cfg, st, e), k, e.now) <==> !EarlyLoss(cfg, st, k, e)
    {
      assert SoundBucket(At(st, k), Burst(cfg, k));
      StepEffect(cfg, st, k, e);
      AvailableInRange(At(st, k), Burst(cfg, k), Qps(cfg, k), e.now);
      if Touches(cfg, st, k, e) {
        BalanceAfter(cfg, st, k, e);
      }
      if Removes(cfg, st, k, e) {
        VictimIsAnother(cfg, st, k, e);
      }
    }
  }

  /** A rejected request that evicts nothing, or a long-horizon sweep, leaves the limiter alike. */
  lemma InvisibleEvent(cfg: Config, st: State, e: Event)
    requires Legal(cfg, st, e) && Sound(cfg, st) && AllPast(st, e.now)
    requires e.Sweep? ==> LongHorizon(cfg, e.ttl)
    requires e.Request? ==> e.victim == None && AnswerOf(cfg, st, e) != Answered(Admit)
    ensures Alike(cfg, st, Next(cfg, st, e), e.now)
  {
    InvisibleIff(cfg, st, e);
    LegalIsFeasible(cfg, st, e);
    hide Next, Legal, Available, Alike, LongHorizon, Covers, Idle;
    forall k | Active(cfg, k) ensures !EarlyLoss(cfg, st, k, e) {
      assert SoundBucket(At(st, k), Burst(cfg, k));
      if Removes(cfg, st, k, e) {
        HorizonCovers(cfg, k, e.ttl);
        LongSweepDropsFull(cfg, st, k, e.ttl, e.now);
      }
    }
  }

  /** One event of the original run, erased or replayed on the other side. */
  lemma SimulationStep(cfg: Config, universe: set<PairId>, st1: State, st2: State, clock: real, e: Event, dropped: bool)
    requires Alike(cfg, st1, st2, clock) && clock <= e.now && Legal(cfg, st1, e)
    requires FewTenants(universe) && st1.pairs.Keys <= universe && st2.pairs.Keys <= universe
    requires e.Request? ==> (e.token, e.tenant) in universe
    requires e.Sweep? ==> LongHorizon(cfg, e.ttl)
    requires dropped ==> AnswerOf(cfg, st1, e) != Answered(Admit)
    ensures AnswerOf(cfg, st1, e) == AnswerOf(cfg, st2, e)
    ensures Alike(cfg, Next(cfg, st1, e), if dropped then st2 else Next(cfg, st2, e), e.now)
    ensures Legal(cfg, st2, e)
  {
    LegalIsFeasible(cfg, st1, e);
    AlikeLater(cfg, st1, st2, clock, e.now);
    AlikeAnswer(cfg, st1, st2, e);
    if e.Request? {
      NoEviction(cfg, universe, st1, e.token, e.tenant, e.victim);
      NoEviction(cfg, universe, st2, e.token, e.tenant, e.victim);
    }
    hide LongHorizon, Next, Legal, AnswerOf, LegalVictim;
    var st1' := Next(cfg, st1, e);
    if e.Request? && !dropped {
      AlikeRequest(cfg, st1, st2, e);
    } else {
      InvisibleEvent(cfg, st1, e);
      AlikeSymmetric(cfg, st1, st1', e.now);
      AlikeTransitive(cfg, st1', st1, st2, e.now);
      if !dropped {
        InvisibleEvent(cfg, st2, e);
        AlikeTransitive(cfg, st1', st2, Next(cfg, st2, e), e.now);
      }
    }
  }

  lemma {:induction false} ErasedRun(cfg: Config, universe: set<PairId>, st1: State, st2: State, clock: real, evs: seq<Event>, drop: seq<bool>)
    requires Alike(cfg, st1, st2, clock) && Monotone(clock, evs) && LegalRun(cfg, st1, evs)
    requires FewTenants(universe) && st1.pairs.Keys <= universe && st2.pairs.Keys <= universe && Requested(evs) <= universe
    requires LongSweeps(cfg, evs) && Erasable(cfg, st1, evs, drop)
    ensures LegalRun(cfg, st2, Erase(evs, drop))
    ensures Answers(cfg, st2, Erase(evs, drop)) == Erase(Answers(cfg, st1, evs), drop)
    decreases |evs|
  {
    hide Next, Legal, AnswerOf, LongHorizon, Alike, FewTenants;
    if evs != [] {
      var e, rest := evs[0], evs[1..];
      var st1' := Next(cfg, st1, e);
      var st2' := if drop[0] then st2 else Next(cfg, st2, e);
      assert e.Request? ==> (e.token, e.tenant) in Requested(evs);
      assert Answers(cfg, st1, evs)[0] == AnswerOf(cfg, st1, e);
      SimulationStep(cfg, universe, st1, st2, clock, e, drop[0]);
      KeysWithin(cfg, universe, st1, e);
      KeysWithin(cfg, universe, st2, e);
      forall i | 0 <= i < |rest| && drop[1..][i]
        ensures Answers(cfg, st1', rest)[i] != Answered(Admit)
      {
        assert drop[i + 1] && Answers(cfg, st1, evs)[i + 1] == Answers(cfg, st1', rest)[i];
      }
      forall p | p in Requested(rest) ensures p in universe {
        var r :| r in rest && r.Request? && p == (r.token, r.tenant);
        assert r in evs && p in Requested(evs);
      }
      ErasedRun(cfg, universe, st1', st2', e.now, rest, drop[1..]);
      assert Answers(cfg, st1, evs)[1..] == Answers(cfg, st1', rest);
      var kept := Erase(rest, drop[1..]);
      if drop[0] {
        assert Erase(evs, drop) == kept;
      } else {
        assert Erase(evs, drop) == [e] + kept && ([e] + kept)[1..] == kept;
      }
    }
  }

  /**
   Erasure. Take any run from process start with non-decreasing instants that requests
   at most the capped number of tenants per token, and whose sweeps have a horizon of
   at least a full refill. Erase any of its sweeps and any of its rejected requests:
   the remaining run is a legal run, and every remaining answer, retry hint included,
   is what it was.
   */
  lemma ErasureIsUnobservable(cfg: Config, start: real, evs: seq<Event>, drop: seq<bool>)
    requires Monotone(start, evs) && LegalRun(cfg, EMPTY, evs) && FewTenants(Requested(evs))
    requires LongSweeps(cfg, evs) && Erasable(cfg, EMPTY, evs, drop)
    ensures LegalRun(cfg, EMPTY, Erase(evs, drop))
    ensures Answers(cfg, EMPTY, Erase(evs, drop)) == Erase(Answers(cfg, EMPTY, evs), drop)
  {
    assert forall k :: At(EMPTY, k) == None;
    ErasedRun(cfg, Requested(evs), EMPTY, EMPTY, start, evs, drop);
  }

  /**
   The horizon hypothesis is essential even when no sweep is erased: a rejected request
   refreshes its bucket, so under a sweep shorter than a full refill, erasing the
   rejection lets the sweep discard an empty bucket and turns a later rejection into an
   admission.
   */
  lemma ShortSweepRevealsRejections()
    ensures var emptied := Next(TINY, EMPTY, Ask(0.0));
            var rejected, sweep, later := Ask(0.25), Sweep(0.5, 0.5), Ask(0.5);
            && AnswerOf(TINY, emptied, rejected) != Answered(Admit)
            && AnswerOf(TINY, Next(TINY, Next(TINY, emptied, rejected), sweep), later) != Answered(Admit)
            && AnswerOf(TINY, Next(TINY, emptied, sweep), later) == Answered(Admit)
  {
    var b0, b1 := Bucket(0.0, 0.0, 0.0), Bucket(0.25, 0.25, 0.25);
    TinyStep(b0, 0.25);
    TinyStep(b1, 0.5);
    TinyStart(0.0);
    TinyStart(0.5);
    TinySweep(b0, 0.5, 0.5);
    TinySweep(b1, 0.5, 0.5);
    hide Next, AnswerOf, Holding;
  }

  lemma TinySweep(b: Bucket, ttl: real, now: real)
    ensures Next(TINY, Holding(b), Sweep(ttl, now)) == if Idle(b, ttl, now) then EMPTY else Holding(b)
  {
    hide Idle;
  }
}
