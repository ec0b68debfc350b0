/**
 The two-layer token-bucket rate limiter: its configuration, its buckets, the
 specification of one admission and of one idle sweep, and the imperative limiter
 whose methods are proved against that specification.

 Permits and instants are exact reals. The clock is injected: every operation takes
 the instant it read as the parameter `now`.
 */
module RateLimit {
  import opened Options

  type TokenId = int
  type TenantId = int
  type PairId = (TokenId, TenantId)

  const MAX_TENANTS_PER_TOKEN: nat := 4096

  datatype PerTenantConfig = PerTenantConfig(burst: nat, qps: real) {
    predicate Disabled() {
      burst == 0
    }
  }

  datatype Config = Config(qps: nat, burst: nat, perTenant: PerTenantConfig) {
    predicate TokenLayerDisabled() {
      qps == 0 || burst == 0
    }

    predicate Disabled() {
      TokenLayerDisabled() && perTenant.Disabled()
    }
  }

  datatype Bucket = Bucket(tokens: real, lastRefill: real, lastAccess: real)

  datatype Decision = Decision(admittable: bool, retryAfter: real)

  datatype AdmitResult = Admit | Reject(retryAfterSecs: nat)

  /** One bucket of either layer: a (token, tenant) pair, or a whole token. */
  datatype Key = Pair(token: TokenId, tenant: TenantId) | Whole(token: TokenId)

  datatype State = State(pairs: map<PairId, Bucket>, wholes: map<TokenId, Bucket>)

  // ------------------------------------------------------------------
  // Arithmetic of one bucket
  // ------------------------------------------------------------------

  function Min(a: real, b: real): real {
    if a <= b then a else b
  }

  function Max(a: real, b: real): real {
    if a >= b then a else b
  }

  /** The smallest whole number of seconds that is at least `x`. */
  function Ceil(x: real): (c: int)
    ensures x <= c as real < x + 1.0
  {
    -((-x).Floor)
  }

  /** A subtraction of instants that saturates at zero. */
  function Elapsed(now: real, since: real): real {
    Max(now - since, 0.0)
  }

  /** The refill rate in force: a rate that is not positive means no refill at all. */
  function Rate(qps: real): (q: real)
    ensures q >= 0.0
  {
    Max(qps, 0.0)
  }

  /** The permits a span of time is worth. */
  function Refill(qps: real, span: real): real {
    span * Rate(qps)
  }

  /** The balance a bucket has at `now`, an absent bucket counting as full. */
  function Available(b: Option<Bucket>, burst: nat, qps: real, now: real): real {
    match b
    case None => burst as real
    case Some(bk) => Min(bk.tokens + Refill(qps, Elapsed(now, bk.lastRefill)), burst as real)
  }

  /** How long a layer whose balance is `available` takes to hold one permit. */
  function Wait(available: real, qps: real): real {
    if qps > 0.0 then Max((1.0 - available) / qps, 0.0) else 3600.0
  }

  function HintSeconds(wait: real): nat {
    if Ceil(wait) >= 1 then Ceil(wait) else 1
  }

  // ------------------------------------------------------------------
  // The two layers, addressed by key
  // ------------------------------------------------------------------

  function At(st: State, k: Key): Option<Bucket> {
    match k
    case Pair(t, n) => if (t, n) in st.pairs then Some(st.pairs[(t, n)]) else None
    case Whole(t) => if t in st.wholes then Some(st.wholes[t]) else None
  }

  predicate Active(cfg: Config, k: Key) {
    if k.Pair? then !cfg.perTenant.Disabled() else !cfg.TokenLayerDisabled()
  }

  function Burst(cfg: Config, k: Key): nat {
    if k.Pair? then cfg.perTenant.burst else cfg.burst
  }

  function Qps(cfg: Config, k: Key): real {
    if k.Pair? then cfg.perTenant.qps else cfg.qps as real
  }

  function Balance(cfg: Config, st: State, k: Key, now: real): real {
    Available(At(st, k), Burst(cfg, k), Qps(cfg, k), now)
  }

  /** An inactive layer admits everything. */
  predicate Permits(cfg: Config, st: State, k: Key, now: real) {
    Active(cfg, k) ==> Balance(cfg, st, k, now) >= 1.0
  }

  function LayerWait(cfg: Config, st: State, k: Key, now: real): real {
    Wait(Balance(cfg, st, k, now), Qps(cfg, k))
  }

  // ------------------------------------------------------------------
  // Specification of one admission
  // ------------------------------------------------------------------

  /** The answer: both layers must hold a permit; otherwise the shortest wait of a rejecting layer. */
  function Verdict(cfg: Config, st: State, token: TokenId, tenant: TenantId, now: real): AdmitResult {
    var p, w := Pair(token, tenant), Whole(token);
    var pOk, wOk := Permits(cfg, st, p, now), Permits(cfg, st, w, now);
    if pOk && wOk then Admit
    else if pOk then Reject(HintSeconds(LayerWait(cfg, st, w, now)))
    else if wOk then Reject(HintSeconds(LayerWait(cfg, st, p, now)))
    else Reject(HintSeconds(Min(LayerWait(cfg, st, p, now), LayerWait(cfg, st, w, now))))
  }

  /** A bucket after a request at `now`: refilled, stamped, and charged if the request was admitted. */
  function Charged(cfg: Config, st: State, k: Key, now: real, r: AdmitResult): Bucket {
    Bucket(Balance(cfg, st, k, now) - (if r.Admit? then 1.0 else 0.0), now, now)
  }

  function TenantsOf(pairs: map<PairId, Bucket>, token: TokenId): set<PairId> {
    set k | k in pairs && k.0 == token
  }

  /** `victim` is one of `among`, and none of them was accessed before it. */
  predicate IsColdest(pairs: map<PairId, Bucket>, among: set<PairId>, victim: PairId)
    requires among <= pairs.Keys
  {
    && victim in among
    && forall k :: k in among ==> pairs[victim].lastAccess <= pairs[k].lastAccess
  }

  /** Which bucket an admission evicts: one coldest bucket of the token, exactly when the pair is new and the token is at the cap. */
  predicate LegalVictim(cfg: Config, st: State, token: TokenId, tenant: TenantId, victim: Option<PairId>) {
    if !cfg.perTenant.Disabled() && (token, tenant) !in st.pairs && |TenantsOf(st.pairs, token)| >= MAX_TENANTS_PER_TOKEN
    then victim.Some? && IsColdest(st.pairs, TenantsOf(st.pairs, token), victim.value)
    else victim == None
  }

  function Without<K, V>(m: map<K, V>, k: Option<K>): map<K, V> {
    if k.Some? then m - {k.value} else m
  }

  function AdmitState(cfg: Config, st: State, token: TokenId, tenant: TenantId, now: real, victim: Option<PairId>): State {
    var r := Verdict(cfg, st, token, tenant, now);
    var p, w := Pair(token, tenant), Whole(token);
    State(if Active(cfg, p) then Without(st.pairs, victim)[(token, tenant) := Charged(cfg, st, p, now, r)] else st.pairs,
          if Active(cfg, w) then st.wholes[token := Charged(cfg, st, w, now, r)] else st.wholes)
  }

  /** The state between the refill of the active layers and the charge. */
  function Touched(cfg: Config, st: State, token: TokenId, tenant: TenantId, now: real, victim: Option<PairId>): State {
    var p, w := Pair(token, tenant), Whole(token);
    State(if Active(cfg, p) then Without(st.pairs, victim)[(token, tenant) := Bucket(Balance(cfg, st, p, now), now, now)] else st.pairs,
          if Active(cfg, w) then st.wholes[token := Bucket(Balance(cfg, st, w, now), now, now)] else st.wholes)
  }

  /** `d` says whether layer `k` permits, and how long it takes if it does not. */
  predicate DecisionOf(cfg: Config, st: State, k: Key, now: real, d: Decision) {
    && d.admittable == Permits(cfg, st, k, now)
    && (!d.admittable ==> d.retryAfter == LayerWait(cfg, st, k, now))
  }

  // ------------------------------------------------------------------
  // Specification of one sweep
  // ------------------------------------------------------------------

  /** The time since the last access; an access stamped ahead of the clock was just now. */
  function IdleFor(b: Bucket, now: real): real {
    if b.lastAccess <= now then now - b.lastAccess else 0.0
  }

  predicate Idle(b: Bucket, ttl: real, now: real) {
    Elapsed(now, b.lastAccess) >= ttl
  }

  function Retained<K(!new)>(m: map<K, Bucket>, ttl: real, now: real): map<K, Bucket> {
    map k | k in m && !Idle(m[k], ttl, now) :: m[k]
  }

  function SweepState(st: State, ttl: real, now: real): State {
    State(Retained(st.pairs, ttl, now), Retained(st.wholes, ttl, now))
  }

  // ------------------------------------------------------------------
  // The limiter
  // ------------------------------------------------------------------

  /** Refills a bucket in place and reports whether it holds a permit; charging is left to the caller. */
  method RefillAndDecide(state: Bucket, burst: nat, qps: real, now: real) returns (state': Bucket, d: Decision)
    ensures state' == Bucket(Available(Some(state), burst, qps, now), now, now)
    ensures d.admittable <==> state'.tokens >= 1.0
    ensures !d.admittable ==> d.retryAfter == Wait(state'.tokens, qps)
  {
    var elapsed := Elapsed(now, state.lastRefill);
    state' := state;
    if elapsed > 0.0 && qps > 0.0 {
      state' := state'.(tokens := Min(state'.tokens + elapsed * qps, burst as real));
    } else {
      assert Refill(qps, elapsed) == 0.0;
      state' := state'.(tokens := Min(state'.tokens, burst as real));
    }
    state' := state'.(lastRefill := now);
    state' := state'.(lastAccess := now);
    if state'.tokens >= 1.0 {
      d := Decision(true, 0.0);
    } else {
      var deficit := 1.0 - state'.tokens;
      var retry := if qps > 0.0 then Max(deficit / qps, 0.0) else 3600.0;
      d := Decision(false, retry);
    }
  }

  /** Finds or mints the bucket under `key`, refills it and reports whether it holds a permit. */
  method TouchLayer<K(==)>(m: map<K, Bucket>, key: K, burst: nat, qps: real, now: real) returns (m': map<K, Bucket>, d: Decision)
    ensures var balance := Available(if key in m then Some(m[key]) else None, burst, qps, now);
            && m' == m[key := Bucket(balance, now, now)]
            && d.admittable == (balance >= 1.0)
            && (!d.admittable ==> d.retryAfter == Wait(balance, qps))
  {
    var entry := if key in m then m[key] else Bucket(burst as real, now, now);
    var b;
    b, d := RefillAndDecide(entry, burst, qps, now);
    m' := m[key := b];
  }

  function Deduct<K>(m: map<K, Bucket>, key: K): map<K, Bucket>
    requires key in m
  {
    m[key := m[key].(tokens := m[key].tokens - 1.0)]
  }

  /** The rejection, carrying the shortest wait among the layers that themselves rejected. */
  method RejectWithHint(pairDecision: Decision, wholeDecision: Decision) returns (r: AdmitResult)
    requires !pairDecision.admittable || !wholeDecision.admittable
    ensures r == Reject(HintSeconds(
      if pairDecision.admittable then wholeDecision.retryAfter
      else if wholeDecision.admittable then pairDecision.retryAfter
      else Min(pairDecision.retryAfter, wholeDecision.retryAfter)))
  {
    var chosen: Option<real> := None;
    var decisions := [pairDecision, wholeDecision];
    for i := 0 to 2
      invariant chosen == None <==> forall j :: 0 <= j < i ==> decisions[j].admittable
      invariant chosen.Some? ==>
                  chosen.value == if i == 1 || decisions[1].admittable then decisions[0].retryAfter
                                  else if decisions[0].admittable then decisions[1].retryAfter
                                  else Min(decisions[0].retryAfter, decisions[1].retryAfter)
    {
      var d := decisions[i];
      if !d.admittable {
        chosen := Some(if chosen == None then d.retryAfter else Min(chosen.value, d.retryAfter));
      }
    }
    assert !decisions[0].admittable || !decisions[1].admittable;
    var secs := Ceil(chosen.value);
    r := Reject(if secs >= 1 then secs else 1);
  }

  /** One pass over the per-tenant map: how many buckets `token` owns, and the coldest of them. */
  method FindColdest(pairs: map<PairId, Bucket>, token: TokenId) returns (count: nat, lruKey: Option<PairId>)
    ensures count == |TenantsOf(pairs, token)|
    ensures lruKey == None <==> count == 0
    ensures lruKey.Some? ==> IsColdest(pairs, TenantsOf(pairs, token), lruKey.value)
    ensures lruKey.Some? ==>
              && lruKey.value in pairs && lruKey.value.0 == token
              && forall k :: k in pairs && k.0 == token ==> pairs[lruKey.value].lastAccess <= pairs[k].lastAccess
  {
    count, lruKey := 0, None;
    var lruAccess: Option<real> := None;
    var todo := pairs.Keys;
    ghost var seen: set<PairId> := {};
    while todo != {}
      invariant todo <= pairs.Keys && seen <= pairs.Keys && todo !! seen
      invariant forall k :: k in pairs && k.0 == token <==> k in seen || (k in todo && k.0 == token)
      invariant count == |seen|
      invariant lruKey == None <==> seen == {}
      invariant lruKey == None <==> lruAccess == None
      invariant lruKey.Some? ==> IsColdest(pairs, seen, lruKey.value) && lruAccess == Some(pairs[lruKey.value].lastAccess)
      decreases todo
    {
      var key :| key in todo;
      todo := todo - {key};
      if key.0 == token {
        count := count + 1;
        var access := pairs[key].lastAccess;
        if lruAccess == None || access < lruAccess.value {
          lruAccess := Some(access);
          lruKey := Some(key);
        }
        seen := seen + {key};
      }
    }
    assert seen == TenantsOf(pairs, token);
  }

  class RateLimiter {
    const cfg: Config
    var wholes: map<TokenId, Bucket>
    var pairs: map<PairId, Bucket>

    function Contents(): State
      reads this
    {
      State(pairs, wholes)
    }

    constructor (cfg: Config)
      ensures this.cfg == cfg && Contents() == State(map[], map[])
    {
      this.cfg := cfg;
      wholes, pairs := map[], map[];
    }

    /** Drops one coldest bucket of `token` if the token already owns the maximum number of tenants. */
    method EvictLruTenantIfAtCap(token: TokenId) returns (ghost victim: Option<PairId>)
      modifies this`pairs
      ensures pairs == Without(old(pairs), victim)
      ensures if |TenantsOf(old(pairs), token)| >= MAX_TENANTS_PER_TOKEN
              then victim.Some? && IsColdest(old(pairs), TenantsOf(old(pairs), token), victim.value)
              else victim == None
    {
      victim := None;
      var count, lruKey := FindColdest(pairs, token);
      if count < MAX_TENANTS_PER_TOKEN {
        return;
      }
      if lruKey.Some? {
        victim := lruKey;
        pairs := pairs - {lruKey.value};
      }
    }

    /** Finds or mints the buckets of the active layers, refills them, and asks each layer for its decision. */
    method TouchBuckets(token: TokenId, tenant: TenantId, now: real)
      returns (pairDecision: Decision, wholeDecision: Decision, ghost victim: Option<PairId>)
      modifies this
      ensures LegalVictim(cfg, old(Contents()), token, tenant, victim)
      ensures Contents() == Touched(cfg, old(Contents()), token, tenant, now, victim)
      ensures DecisionOf(cfg, old(Contents()), Pair(token, tenant), now, pairDecision)
      ensures DecisionOf(cfg, old(Contents()), Whole(token), now, wholeDecision)
    {
      victim := None;
      pairDecision, wholeDecision := Decision(true, 0.0), Decision(true, 0.0);
      if !cfg.perTenant.Disabled() {
        if (token, tenant) !in pairs {
          victim := EvictLruTenantIfAtCap(token);
        }
        pairs, pairDecision := TouchLayer(pairs, (token, tenant), cfg.perTenant.burst, cfg.perTenant.qps, now);
      }
      if !cfg.TokenLayerDisabled() {
        wholes, wholeDecision := TouchLayer(wholes, token, cfg.burst, cfg.qps as real, now);
      }
    }

    /** Claims one permit from both layers, or from neither. */
    method TryAdmit(token: TokenId, tenant: TenantId, now: real) returns (r: AdmitResult, ghost victim: Option<PairId>)
      modifies this
      ensures LegalVictim(cfg, old(Contents()), token, tenant, victim)
      ensures r == Verdict(cfg, old(Contents()), token, tenant, now)
      ensures Contents() == AdmitState(cfg, old(Contents()), token, tenant, now, victim)
    {
      if cfg.Disabled() {
        return Admit, None;
      }
      hide Balance, LegalVictim, Wait, HintSeconds;
      var pairDecision, wholeDecision;
      pairDecision, wholeDecision, victim := TouchBuckets(token, tenant, now);
      if pairDecision.admittable && wholeDecision.admittable {
        if !cfg.perTenant.Disabled() {
          pairs := Deduct(pairs, (token, tenant));
        }
        if !cfg.TokenLayerDisabled() {
          wholes := Deduct(wholes, token);
        }
        r := Admit;
        return;
      }
      r := RejectWithHint(pairDecision, wholeDecision);
    }

    /** Reclaims every bucket of both layers that has not been accessed for `ttl`. */
    method SweepIdle(ttl: real, now: real) returns (removed: nat)
      modifies this
      ensures Contents() == SweepState(old(Contents()), ttl, now)
      ensures removed == |old(pairs)| - |pairs| + |old(wholes)| - |wholes|
      ensures forall k :: k in pairs <==> k in old(pairs) && IdleFor(old(pairs)[k], now) < ttl
      ensures forall k :: k in wholes <==> k in old(wholes) && IdleFor(old(wholes)[k], now) < ttl
      ensures (forall k :: k in pairs ==> pairs[k] == old(pairs)[k]) && (forall k :: k in wholes ==> wholes[k] == old(wholes)[k])
    {
      var keptWholes, droppedWholes := Retain(wholes, ttl, now);
      wholes := keptWholes;
      var keptPairs, droppedPairs := Retain(pairs, ttl, now);
      pairs := keptPairs;
      removed := droppedWholes + droppedPairs;
    }
  }

  /** Visits every entry once, keeping those that are not idle and counting the others. */
  method Retain<K(!new, ==)>(m: map<K, Bucket>, ttl: real, now: real) returns (kept: map<K, Bucket>, removed: nat)
    ensures kept == Retained(m, ttl, now)
    ensures removed == |m| - |kept|
  {
    kept, removed := m, 0;
    var todo := m.Keys;
    while todo != {}
      invariant todo <= kept.Keys <= m.Keys
      invariant forall k :: k in kept ==> kept[k] == m[k]
      invariant forall k :: k in m && k !in todo ==> (k in kept <==> !Idle(m[k], ttl, now))
      invariant removed == |m.Keys| - |kept.Keys|
      decreases todo
    {
      var k :| k in todo;
      todo := todo - {k};
      if Idle(kept[k], ttl, now) {
        assert (kept - {k}).Keys == kept.Keys - {k};
        kept, removed := kept - {k}, removed + 1;
      }
    }
    assert kept == Retained(m, ttl, now);
    assert |kept| == |kept.Keys| && |m| == |m.Keys|;
  }
}
