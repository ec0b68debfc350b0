/**
 The accuracy of the retry hint (section 10.2.3 of RFC 9110), and the cap on the
 per-tenant buckets one token may own.
 */
module RateLimitHints {
  import opened Options
  import opened RateLimit
  import opened RateLimitRuns
  import opened Sorting

  // ------------------------------------------------------------------
  // Retry-After
  // ------------------------------------------------------------------

  predicate Rejects(cfg: Config, st: State, k: Key, now: real) {
    Active(cfg, k) && Balance(cfg, st, k, now) < 1.0
  }

  /** Layer `k` rejects at `now` and will hold a permit after `span` of silence, or it already holds one. */
  predicate Recovers(cfg: Config, st: State, k: Key, now: real, span: real) {
    Rejects(cfg, st, k, now) ==> Qps(cfg, k) > 0.0 && span >= LayerWait(cfg, st, k, now)
  }

  lemma RefillReaches(qps: real, missing: real, span: real)
    requires span >= 0.0
    ensures 0.0 < missing ==> (Refill(qps, span) >= missing <==> qps > 0.0 && span >= missing / qps)
  {
    if qps > 0.0 {
      assert missing / qps * qps == missing;
      if span >= missing / qps {
        assert (span - missing / qps) * qps >= 0.0;
      } else {
        assert (missing / qps - span) * qps > 0.0;
      }
    }
  }

  /** After a rejected request at `now` and `span` of silence, layer `k` permits exactly when it recovers. */
  lemma LayerRecovery(cfg: Config, st: State, k: Key, e: Event, span: real)
    requires Legal(cfg, st, e) && e.Request? && AnswerOf(cfg, st, e) != Answered(Admit) && span >= 0.0
    requires k == Pair(e.token, e.tenant) || k == Whole(e.token)
    requires SoundBucket(At(st, k), Burst(cfg, k))
    ensures Permits(cfg, Next(cfg, st, e), k, e.now + span) <==> Recovers(cfg, st, k, e.now, span)
  {
    if Active(cfg, k) {
      var balance, st' := Balance(cfg, st, k, e.now), Next(cfg, st, e);
      BalanceAfter(cfg, st, k, e);
      SoundStep(cfg, st, k, e);
      AvailableLater(At(st', k), Burst(cfg, k), Qps(cfg, k), e.now, e.now + span);
      RefillReaches(Qps(cfg, k), 1.0 - balance, span);
      RefillIsPositive(Qps(cfg, k), span);
      assert Rejects(cfg, st, k, e.now) && Qps(cfg, k) > 0.0 ==> LayerWait(cfg, st, k, e.now) == (1.0 - balance) / Qps(cfg, k) by {
        if Rejects(cfg, st, k, e.now) && Qps(cfg, k) > 0.0 {
          assert (1.0 - balance) / Qps(cfg, k) >= 0.0;
        }
      }
      hide Refill, Next, AnswerOf, Legal, Available, Wait;
    }
  }

  /** Exactly when a retry is admitted: with no traffic in between, once every rejecting layer has had its own wait. */
  lemma RetryAdmittedIff(cfg: Config, st: State, e: Event, span: real)
    requires Sound(cfg, st) && Legal(cfg, st, e) && e.Request? && AnswerOf(cfg, st, e) != Answered(Admit) && span >= 0.0
    ensures Verdict(cfg, Next(cfg, st, e), e.token, e.tenant, e.now + span) == Admit
            <==> Recovers(cfg, st, Pair(e.token, e.tenant), e.now, span) && Recovers(cfg, st, Whole(e.token), e.now, span)
  {
    var p, w := Pair(e.token, e.tenant), Whole(e.token);
    assert SoundBucket(At(st, p), Burst(cfg, p)) && SoundBucket(At(st, w), Burst(cfg, w));
    LayerRecovery(cfg, st, p, e, span);
    LayerRecovery(cfg, st, w, e, span);
    hide Next, AnswerOf, Legal, Balance, Recovers, HintSeconds, Wait;
  }

  lemma HintCovers(wait: real)
    ensures HintSeconds(wait) as real >= wait && HintSeconds(wait) >= 1
    ensures HintSeconds(wait) == 1 || HintSeconds(wait) as real < wait + 1.0
  {
  }

  /**
   What the hint promises. It is the exact wait of the layer that rejects, the shorter one
   if both do, rounded up to whole seconds and at least one. If one layer alone rejects and it refills, waiting the hint
   is enough. If both reject, nothing is admitted before the shorter of the two exact
   waits, and the longer one is enough when both refill.
   */
  lemma HintAccuracy(cfg: Config, st: State, e: Event, span: real)
    requires Sound(cfg, st) && Legal(cfg, st, e) && e.Request? && span >= 0.0
    requires AnswerOf(cfg, st, e) != Answered(Admit)
    ensures var p, w := Pair(e.token, e.tenant), Whole(e.token);
            var pWait, wWait := LayerWait(cfg, st, p, e.now), LayerWait(cfg, st, w, e.now);
            var hint := AnswerOf(cfg, st, e).r.retryAfterSecs;
            var admitted := Verdict(cfg, Next(cfg, st, e), e.token, e.tenant, e.now + span) == Admit;
            var shortest := if !Rejects(cfg, st, w, e.now) then pWait else if !Rejects(cfg, st, p, e.now) then wWait
                            else if pWait <= wWait then pWait else wWait;
            && hint >= 1 && hint as real >= shortest && (hint == 1 || hint as real < shortest + 1.0)
            && (Rejects(cfg, st, p, e.now) && !Rejects(cfg, st, w, e.now) && Qps(cfg, p) > 0.0 && span >= hint as real ==> admitted)
            && (Rejects(cfg, st, w, e.now) && !Rejects(cfg, st, p, e.now) && span >= hint as real ==> admitted)
            && (Rejects(cfg, st, p, e.now) && Rejects(cfg, st, w, e.now) && span < Min(pWait, wWait) ==> !admitted)
            && (Rejects(cfg, st, p, e.now) && Rejects(cfg, st, w, e.now) && Qps(cfg, p) > 0.0 && span >= Max(pWait, wWait) ==> admitted)
  {
    var p, w := Pair(e.token, e.tenant), Whole(e.token);
    RetryAdmittedIff(cfg, st, e, span);
    HintCovers(LayerWait(cfg, st, p, e.now));
    HintCovers(LayerWait(cfg, st, w, e.now));
    hide Next, Legal, Balance, HintSeconds, Wait, Sound;
  }

  // ------------------------------------------------------------------
  // The per-token cap
  // ------------------------------------------------------------------

  ghost predicate Capped(st: State) {
    forall token :: |TenantsOf(st.pairs, token)| <= MAX_TENANTS_PER_TOKEN
  }

  /** An admission makes the requested pair present, takes at most one bucket of the same token, and leaves every other bucket alone. */
  lemma AdmissionTouchesOneTenant(cfg: Config, st: State, token: TokenId, tenant: TenantId, now: real, victim: Option<PairId>)
    requires LegalVictim(cfg, st, token, tenant, victim)
    ensures var st' := AdmitState(cfg, st, token, tenant, now, victim);
            && (!cfg.perTenant.Disabled() ==> (token, tenant) in st'.pairs)
            && (forall p :: p in st.pairs && p != (token, tenant) && Some(p) != victim ==> p in st'.pairs && st'.pairs[p] == st.pairs[p])
            && (victim.Some? <==> !cfg.perTenant.Disabled() && (token, tenant) !in st.pairs && |TenantsOf(st.pairs, token)| >= MAX_TENANTS_PER_TOKEN)
            && (victim.Some? ==> victim.value.0 == token && victim.value in st.pairs && victim.value !in st'.pairs)
            && (victim.Some? ==> forall p :: p in st.pairs && p.0 == token ==> st.pairs[victim.value].lastAccess <= st.pairs[p].lastAccess)
            && (forall p :: p in st'.pairs ==> p in st.pairs || p == (token, tenant))
  {
  }

  predicate Mints(cfg: Config, st: State, e: Event, token: TokenId) {
    e.Request? && e.token == token && !cfg.perTenant.Disabled() && (e.token, e.tenant) !in st.pairs
  }

  lemma TenantsAfter(cfg: Config, st: State, e: Event, token: TokenId)
    requires Legal(cfg, st, e)
    ensures var before, after := TenantsOf(st.pairs, token), TenantsOf(Next(cfg, st, e).pairs, token);
            if Mints(cfg, st, e, token)
            then after == before - (if e.victim.Some? then {e.victim.value} else {}) + {(e.token, e.tenant)}
            else after <= before
  {
    hide Verdict, Charged, Idle;
  }

  lemma SwapSize<T>(a: set<T>, b: set<T>, out: set<T>, into: T)
    requires out <= a && |out| <= 1 && b == a - out + {into}
    ensures |b| <= |a| - |out| + 1
  {
  }

  lemma CapStep(cfg: Config, st: State, e: Event, token: TokenId)
    requires Legal(cfg, st, e) && |TenantsOf(st.pairs, token)| <= MAX_TENANTS_PER_TOKEN
    ensures |TenantsOf(Next(cfg, st, e).pairs, token)| <= MAX_TENANTS_PER_TOKEN
  {
    var before, after := TenantsOf(st.pairs, token), TenantsOf(Next(cfg, st, e).pairs, token);
    TenantsAfter(cfg, st, e, token);
    hide Next, TenantsOf;
    if Mints(cfg, st, e, token) {
      SwapSize(before, after, if e.victim.Some? then {e.victim.value} else {}, (e.token, e.tenant));
    } else {
      SubsetSize(after, before);
    }
  }

  /** In every sequential run from process start, no token ever owns more per-tenant buckets than the cap. */
  lemma {:induction false} CapHolds(cfg: Config, st: State, evs: seq<Event>)
    requires Capped(st) && LegalRun(cfg, st, evs)
    ensures Capped(Run(cfg, st, evs))
    decreases |evs|
  {
    if evs != [] {
      forall token ensures |TenantsOf(Next(cfg, st, evs[0]).pairs, token)| <= MAX_TENANTS_PER_TOKEN {
        CapStep(cfg, st, evs[0], token);
      }
      CapHolds(cfg, Next(cfg, st, evs[0]), evs[1..]);
    }
  }
}
