/**
 Runs of the rate limiter: what one event does to one bucket, refill as a function of
 time, balances that stay within their bucket, and which discards lose permits.
 */
module RateLimitRuns {
  import opened Options
  import opened RateLimit

  // ------------------------------------------------------------------
  // Runs
  // ------------------------------------------------------------------

  /**
   A request carries the bucket its eviction picked, if any: ties are broken by map order.
   When requests overlap, an eviction is an event of its own, and the insert that it made
   room for comes later or never.
   */
  datatype Event =
    | Request(token: TokenId, tenant: TenantId, now: real, victim: Option<PairId>)
    | Sweep(ttl: real, now: real)
    | Evict(out: PairId, now: real)

  datatype Answer = Answered(r: AdmitResult) | Silent

  const EMPTY := State(map[], map[])

  /** What may happen when requests do not overlap: a request evicts what it has to, and nothing else evicts. */
  predicate Legal(cfg: Config, st: State, e: Event) {
    match e
    case Request(token, tenant, _, victim) => LegalVictim(cfg, st, token, tenant, victim)
    case Sweep(_, _) => true
    case Evict(_, _) => false
  }

  /** What may happen at all: evictions at any time and of any bucket, but a request does not evict the bucket it asks for. */
  predicate Feasible(e: Event) {
    e.Request? ==> e.victim != Some((e.token, e.tenant))
  }

  lemma LegalIsFeasible(cfg: Config, st: State, e: Event)
    requires Legal(cfg, st, e)
    ensures Feasible(e) && !e.Evict?
  {
  }

  function Next(cfg: Config, st: State, e: Event): State {
    match e
    case Request(token, tenant, now, victim) => AdmitState(cfg, st, token, tenant, now, victim)
    case Sweep(ttl, now) => SweepState(st, ttl, now)
    case Evict(out, _) => st.(pairs := Without(st.pairs, Some(out)))
  }

  function AnswerOf(cfg: Config, st: State, e: Event): Answer {
    match e
    case Request(token, tenant, now, _) => Answered(Verdict(cfg, st, token, tenant, now))
    case _ => Silent
  }

  ghost predicate LegalRun(cfg: Config, st: State, evs: seq<Event>)
    decreases |evs|
  {
    evs != [] ==> Legal(cfg, st, evs[0]) && LegalRun(cfg, Next(cfg, st, evs[0]), evs[1..])
  }

  ghost predicate FeasibleRun(evs: seq<Event>) {
    forall e :: e in evs ==> Feasible(e)
  }

  lemma {:induction false} LegalRunIsFeasible(cfg: Config, st: State, evs: seq<Event>)
    requires LegalRun(cfg, st, evs)
    ensures FeasibleRun(evs)
    decreases |evs|
  {
    hide Next, Legal;
    if evs != [] {
      LegalIsFeasible(cfg, st, evs[0]);
      LegalRunIsFeasible(cfg, Next(cfg, st, evs[0]), evs[1..]);
      forall e | e in evs ensures Feasible(e) {
        assert e == evs[0] || e in evs[1..];
      }
    }
  }

  function Run(cfg: Config, st: State, evs: seq<Event>): State
    decreases |evs|
  {
    if evs == [] then st else Run(cfg, Next(cfg, st, evs[0]), evs[1..])
  }

  function Answers(cfg: Config, st: State, evs: seq<Event>): (a: seq<Answer>)
    ensures |a| == |evs|
    decreases |evs|
  {
    if evs == [] then [] else [AnswerOf(cfg, st, evs[0])] + Answers(cfg, Next(cfg, st, evs[0]), evs[1..])
  }

  // ------------------------------------------------------------------
  // What one event does to one bucket
  // ------------------------------------------------------------------

  /** The event charges or refills bucket `k`. */
  predicate Hits(cfg: Config, k: Key, e: Event) {
    e.Request? && Active(cfg, k) && (k == Pair(e.token, e.tenant) || k == Whole(e.token))
  }

  /** The event discards bucket `k`. */
  predicate Removes(cfg: Config, st: State, k: Key, e: Event) {
    match e
    case Request(_, _, _, victim) => k.Pair? && Active(cfg, k) && victim == Some((k.token, k.tenant))
    case Sweep(ttl, now) => At(st, k).Some? && Idle(At(st, k).value, ttl, now)
    case Evict(out, _) => k == Pair(out.0, out.1)
  }

  predicate Touches(cfg: Config, st: State, k: Key, e: Event) {
    Hits(cfg, k, e) || Removes(cfg, st, k, e)
  }

  function Cost(a: Answer): real {
    if a == Answered(Admit) then 1.0 else 0.0
  }

  lemma StepEffect(cfg: Config, st: State, k: Key, e: Event)
    requires Feasible(e)
    ensures At(Next(cfg, st, e), k) ==
            if Hits(cfg, k, e) then Some(Bucket(Balance(cfg, st, k, e.now) - Cost(AnswerOf(cfg, st, e)), e.now, e.now))
            else if Removes(cfg, st, k, e) then None
            else At(st, k)
  {
  }

  // ------------------------------------------------------------------
  // Refill is additive in time
  // ------------------------------------------------------------------

  lemma RefillIsPositive(qps: real, span: real)
    requires span >= 0.0
    ensures Refill(qps, span) >= 0.0
  {
  }

  lemma RefillAdds(qps: real, a: real, b: real)
    ensures Refill(qps, a + b) == Refill(qps, a) + Refill(qps, b)
  {
  }

  predicate SoundBucket(b: Option<Bucket>, burst: nat) {
    b.Some? ==> 0.0 <= b.value.tokens <= burst as real && b.value.lastRefill == b.value.lastAccess
  }

  predicate Past(b: Option<Bucket>, clock: real) {
    b.Some? ==> b.value.lastRefill <= clock
  }

  lemma AvailableInRange(b: Option<Bucket>, burst: nat, qps: real, now: real)
    requires SoundBucket(b, burst)
    ensures 0.0 <= Available(b, burst, qps, now) <= burst as real
  {
    hide Refill;
    if b.Some? {
      RefillIsPositive(qps, Elapsed(now, b.value.lastRefill));
    }
  }

  lemma AvailableLater(b: Option<Bucket>, burst: nat, qps: real, t0: real, t1: real)
    requires SoundBucket(b, burst) && Past(b, t0) && t0 <= t1
    ensures Available(b, burst, qps, t1) == Min(Available(b, burst, qps, t0) + Refill(qps, t1 - t0), burst as real)
  {
    hide Refill;
    RefillIsPositive(qps, t1 - t0);
    if b.Some? {
      RefillAdds(qps, t0 - b.value.lastRefill, t1 - t0);
    }
  }

  lemma AvailableWhenStamped(tokens: real, burst: nat, qps: real, now: real)
    requires tokens <= burst as real
    ensures Available(Some(Bucket(tokens, now, now)), burst, qps, now) == tokens
  {
  }

  // ------------------------------------------------------------------
  // Balances stay within the bucket, in every reachable state
  // ------------------------------------------------------------------

  ghost predicate Sound(cfg: Config, st: State) {
    forall k :: SoundBucket(At(st, k), Burst(cfg, k))
  }

  lemma SoundStep(cfg: Config, st: State, k: Key, e: Event)
    requires Feasible(e) && SoundBucket(At(st, k), Burst(cfg, k))
    ensures SoundBucket(At(Next(cfg, st, e), k), Burst(cfg, k))
  {
    StepEffect(cfg, st, k, e);
    AvailableInRange(At(st, k), Burst(cfg, k), Qps(cfg, k), e.now);
    hide Available;
  }

  /** Whatever the clock does and however requests overlap, every balance of every reachable state lies between zero and its burst. */
  lemma {:induction false} BalancesInRange(cfg: Config, st: State, evs: seq<Event>)
    requires Sound(cfg, st) && FeasibleRun(evs)
    ensures Sound(cfg, Run(cfg, st, evs))
    decreases |evs|
  {
    if evs != [] {
      forall k ensures SoundBucket(At(Next(cfg, st, evs[0]), k), Burst(cfg, k)) {
        assert evs[0] in evs;
        SoundStep(cfg, st, k, evs[0]);
      }
      BalancesInRange(cfg, Next(cfg, st, evs[0]), evs[1..]);
    }
  }

  // ------------------------------------------------------------------
  // Admissions and losses
  // ------------------------------------------------------------------

  predicate Admitted(cfg: Config, st: State, k: Key, e: Event) {
    Hits(cfg, k, e) && AnswerOf(cfg, st, e) == Answered(Admit)
  }

  /** The event discards bucket `k` although it was not full: the next request finds more permits than were left. */
  predicate EarlyLoss(cfg: Config, st: State, k: Key, e: Event) {
    Removes(cfg, st, k, e) && Balance(cfg, st, k, e.now) < Burst(cfg, k) as real
  }

  /** The balance right after an event that touches the bucket. */
  lemma BalanceAfter(cfg: Config, st: State, k: Key, e: Event)
    requires Feasible(e) && Touches(cfg, st, k, e) && SoundBucket(At(st, k), Burst(cfg, k))
    ensures Balance(cfg, Next(cfg, st, e), k, e.now) ==
            if Hits(cfg, k, e) then Balance(cfg, st, k, e.now) - Cost(AnswerOf(cfg, st, e)) else Burst(cfg, k) as real
    ensures Past(At(Next(cfg, st, e), k), e.now)
  {
    StepEffect(cfg, st, k, e);
    AvailableInRange(At(st, k), Burst(cfg, k), Qps(cfg, k), e.now);
    if Hits(cfg, k, e) {
      AvailableWhenStamped(Balance(cfg, st, k, e.now) - Cost(AnswerOf(cfg, st, e)), Burst(cfg, k), Qps(cfg, k), e.now);
    }
    hide Refill;
  }

  lemma Untouched(cfg: Config, st: State, k: Key, e: Event)
    requires Feasible(e) && !Touches(cfg, st, k, e)
    ensures At(Next(cfg, st, e), k) == At(st, k)
    ensures !Admitted(cfg, st, k, e) && !EarlyLoss(cfg, st, k, e)
  {
    StepEffect(cfg, st, k, e);
  }

  /** A span that refills bucket `k` from empty to full. */
  predicate Covers(cfg: Config, k: Key, ttl: real) {
    Refill(Qps(cfg, k), ttl) >= Burst(cfg, k) as real
  }

  /** A sweep whose horizon covers a full refill of every active layer. */
  predicate LongHorizon(cfg: Config, ttl: real) {
    && (!cfg.perTenant.Disabled() ==> Refill(cfg.perTenant.qps, ttl) >= cfg.perTenant.burst as real)
    && (!cfg.TokenLayerDisabled() ==> Refill(cfg.qps as real, ttl) >= cfg.burst as real)
  }

  lemma HorizonCovers(cfg: Config, k: Key, ttl: real)
    requires LongHorizon(cfg, ttl) && Active(cfg, k)
    ensures Covers(cfg, k, ttl)
  {
  }

  /** A sweep whose horizon covers a full refill of a layer discards, in that layer, only buckets that are full by then. */
  lemma LongSweepDropsFull(cfg: Config, st: State, k: Key, ttl: real, now: real)
    requires Covers(cfg, k, ttl) && SoundBucket(At(st, k), Burst(cfg, k))
    requires Removes(cfg, st, k, Sweep(ttl, now))
    ensures Balance(cfg, st, k, now) == Burst(cfg, k) as real
  {
    hide Refill;
    var idle := Elapsed(now, At(st, k).value.lastRefill);
    RefillIsPositive(Qps(cfg, k), idle - ttl);
    RefillAdds(Qps(cfg, k), idle - ttl, ttl);
  }

  // ------------------------------------------------------------------
  // A small limiter for counterexamples
  // ------------------------------------------------------------------

  // A limiter with one permit per second, a burst of one and no per-tenant layer.
  const TINY := Config(1, 1, PerTenantConfig(0, 0.0))

  function Holding(b: Bucket): State {
    State(map[], map[7 := b])
  }

  function Ask(now: real): Event {
    Request(7, 0, now, None)
  }

  lemma TinyStep(b: Bucket, now: real)
    ensures var balance := Min(b.tokens + Elapsed(now, b.lastRefill), 1.0);
            && (AnswerOf(TINY, Holding(b), Ask(now)) == Answered(Admit) <==> balance >= 1.0)
            && Next(TINY, Holding(b), Ask(now)) == Holding(Bucket(if balance >= 1.0 then balance - 1.0 else balance, now, now))
  {
    hide HintSeconds, Wait, Elapsed;
    assert Refill(1.0, Elapsed(now, b.lastRefill)) == Elapsed(now, b.lastRefill);
    hide Refill;
  }

  lemma TinyStart(now: real)
    ensures AnswerOf(TINY, EMPTY, Ask(now)) == Answered(Admit) && Next(TINY, EMPTY, Ask(now)) == Holding(Bucket(0.0, now, now))
  {
    hide HintSeconds, Wait, Refill;
  }
}
