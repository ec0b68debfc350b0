/**
 The window bound: how many requests a bucket admits in a window of time, in every run,
 whatever the clock does and however requests and their evictions overlap. It is one burst, the refill of the window, one burst for
 every discard of the bucket before it was full, and the refill of every span by which
 an instant fell behind the one before it. With instants that never fall behind, this
 is the bound of a token bucket; the last term is exact for a family of runs.
 */
module RateLimitWindow {
  import opened Options
  import opened RateLimit
  import opened RateLimitRuns

  predicate Counted(cfg: Config, st: State, k: Key, e: Event, s: real, t: real) {
    Admitted(cfg, st, k, e) && s <= e.now <= t
  }

  /** The admissions charged to bucket `k` whose instant lies in [s, t]. */
  function Admissions(cfg: Config, st: State, k: Key, evs: seq<Event>, s: real, t: real): nat
    decreases |evs|
  {
    if evs == [] then 0
    else (if Counted(cfg, st, k, evs[0], s, t) then 1 else 0) + Admissions(cfg, Next(cfg, st, evs[0]), k, evs[1..], s, t)
  }

  /** `n` bursts of bucket `k`. */
  function Bursts(cfg: Config, k: Key, n: nat): real {
    Burst(cfg, k) as real * n as real
  }

  lemma BurstsAdd(cfg: Config, k: Key, n: nat)
    ensures Bursts(cfg, k, n + 1) == Bursts(cfg, k, n) + Burst(cfg, k) as real
    ensures Bursts(cfg, k, n) >= 0.0 && Bursts(cfg, k, 0) == 0.0
  {
  }

  // ------------------------------------------------------------------
  // What can exceed the burst: discards and instants that fall behind
  // ------------------------------------------------------------------

  /** How often a bucket was discarded early, and how far in all the instants that touched it fell behind. */
  datatype Drift = Drift(losses: nat, slides: real)

  const NO_DRIFT := Drift(0, 0.0)

  function Slide(clock: real, now: real): real {
    Max(clock - now, 0.0)
  }

  /** The drift of a bucket last touched at `clock`, up to its last admission in the window. */
  function Until(cfg: Config, st: State, k: Key, clock: real, evs: seq<Event>, s: real, t: real): Drift
    decreases |evs|
  {
    if evs == [] || Admissions(cfg, st, k, evs, s, t) == 0 then NO_DRIFT
    else if !Touches(cfg, st, k, evs[0]) then Until(cfg, Next(cfg, st, evs[0]), k, clock, evs[1..], s, t)
    else
      var rest := Until(cfg, Next(cfg, st, evs[0]), k, evs[0].now, evs[1..], s, t);
      Drift((if EarlyLoss(cfg, st, k, evs[0]) then 1 else 0) + rest.losses, Slide(clock, evs[0].now) + rest.slides)
  }

  /** The drift between the first and the last admission in the window. */
  function Amid(cfg: Config, st: State, k: Key, evs: seq<Event>, s: real, t: real): Drift
    decreases |evs|
  {
    if evs == [] then NO_DRIFT
    else if Counted(cfg, st, k, evs[0], s, t) then Until(cfg, Next(cfg, st, evs[0]), k, evs[0].now, evs[1..], s, t)
    else Amid(cfg, Next(cfg, st, evs[0]), k, evs[1..], s, t)
  }

  function Extra(cfg: Config, k: Key, d: Drift): real {
    Bursts(cfg, k, d.losses) + Refill(Qps(cfg, k), d.slides)
  }

  // ------------------------------------------------------------------
  // The bound, whatever the clock does
  // ------------------------------------------------------------------

  /** The bucket, if it is there, was last touched at `clock`. */
  predicate Stamped(st: State, k: Key, clock: real) {
    At(st, k).Some? ==> At(st, k).value.lastRefill == clock
  }

  /** What the bucket can still pay for up to instant `t`. */
  function Credit(cfg: Config, st: State, k: Key, clock: real, t: real): real {
    Balance(cfg, st, k, clock) + Refill(Qps(cfg, k), t - clock)
  }

  /** An instant that falls behind refills nothing; one that does not, refills the time in between. */
  lemma BalanceMoves(cfg: Config, st: State, k: Key, clock: real, now: real)
    requires SoundBucket(At(st, k), Burst(cfg, k)) && Stamped(st, k, clock)
    ensures Balance(cfg, st, k, now) <= Balance(cfg, st, k, clock) + Refill(Qps(cfg, k), now - clock) + Refill(Qps(cfg, k), Slide(clock, now))
    ensures 0.0 <= Balance(cfg, st, k, now) <= Burst(cfg, k) as real
  {
    var q := Qps(cfg, k);
    AvailableInRange(At(st, k), Burst(cfg, k), q, now);
    assert Refill(q, 0.0) == 0.0;
    RefillAdds(q, now - clock, Slide(clock, now));
    RefillIsPositive(q, Max(now - clock, 0.0));
    assert (now - clock) + Slide(clock, now) == Max(now - clock, 0.0);
    hide Refill;
  }

  /** One touching event: what it admits is paid for by the credit it uses up, the span it fell behind, and the burst it threw away. */
  lemma CreditStep(cfg: Config, st: State, k: Key, clock: real, e: Event, t: real)
    requires Feasible(e) && Touches(cfg, st, k, e)
    requires SoundBucket(At(st, k), Burst(cfg, k)) && Stamped(st, k, clock)
    ensures (if Admitted(cfg, st, k, e) then 1.0 else 0.0) + Credit(cfg, Next(cfg, st, e), k, e.now, t)
            <= Credit(cfg, st, k, clock, t) + Refill(Qps(cfg, k), Slide(clock, e.now))
               + (if EarlyLoss(cfg, st, k, e) then Burst(cfg, k) as real else 0.0)
    ensures 0.0 <= Balance(cfg, Next(cfg, st, e), k, e.now) && Stamped(Next(cfg, st, e), k, e.now)
  {
    hide Refill, Feasible, Next, Available, Balance, Slide;
    BalanceAfter(cfg, st, k, e);
    StepEffect(cfg, st, k, e);
    BalanceMoves(cfg, st, k, clock, e.now);
    RefillAdds(Qps(cfg, k), e.now - clock, t - e.now);
    assert (e.now - clock) + (t - e.now) == t - clock;
  }

  /** The extra of one more event. */
  lemma ExtraStep(cfg: Config, k: Key, lost: bool, slide: real, rest: Drift)
    ensures Extra(cfg, k, Drift((if lost then 1 else 0) + rest.losses, slide + rest.slides))
            == (if lost then Burst(cfg, k) as real else 0.0) + Refill(Qps(cfg, k), slide) + Extra(cfg, k, rest)
  {
    hide Refill, Bursts;
    BurstsAdd(cfg, k, rest.losses);
    RefillAdds(Qps(cfg, k), slide, rest.slides);
  }

  lemma NoExtra(cfg: Config, k: Key)
    ensures Extra(cfg, k, NO_DRIFT) == 0.0
  {
  }

  lemma {:induction false} UntilBound(cfg: Config, st: State, k: Key, clock: real, evs: seq<Event>, s: real, t: real)
    requires FeasibleRun(evs) && SoundBucket(At(st, k), Burst(cfg, k)) && Stamped(st, k, clock)
    requires Admissions(cfg, st, k, evs, s, t) > 0
    ensures Admissions(cfg, st, k, evs, s, t) as real <= Credit(cfg, st, k, clock, t) + Extra(cfg, k, Until(cfg, st, k, clock, evs, s, t))
    decreases |evs|
  {
    hide Refill, Feasible, Next, Available, SoundBucket, Stamped, EarlyLoss, Admitted, Touches, Extra, Slide, Balance;
    var e, rest, st' := evs[0], evs[1..], Next(cfg, st, evs[0]);
    assert e in evs;
    SoundStep(cfg, st, k, e);
    if !Touches(cfg, st, k, e) {
      Untouched(cfg, st, k, e);
      SameCredit(cfg, st, st', k, clock, t);
      UntilBound(cfg, st', k, clock, rest, s, t);
    } else {
      CreditStep(cfg, st, k, clock, e, t);
      ExtraStep(cfg, k, EarlyLoss(cfg, st, k, e), Slide(clock, e.now), Until(cfg, st', k, e.now, rest, s, t));
      if Admissions(cfg, st', k, rest, s, t) == 0 {
        NoExtra(cfg, k);
        RefillIsPositive(Qps(cfg, k), t - e.now);
      } else {
        UntilBound(cfg, st', k, e.now, rest, s, t);
      }
    }
  }

  lemma SameCredit(cfg: Config, st: State, st': State, k: Key, clock: real, t: real)
    requires At(st', k) == At(st, k)
    ensures Credit(cfg, st', k, clock, t) == Credit(cfg, st, k, clock, t) && (Stamped(st, k, clock) <==> Stamped(st', k, clock))
  {
  }

  lemma {:induction false} AmidBound(cfg: Config, st: State, k: Key, evs: seq<Event>, s: real, t: real)
    requires FeasibleRun(evs) && SoundBucket(At(st, k), Burst(cfg, k)) && s <= t
    ensures Admissions(cfg, st, k, evs, s, t) as real
            <= Burst(cfg, k) as real + Refill(Qps(cfg, k), t - s) + Extra(cfg, k, Amid(cfg, st, k, evs, s, t))
    decreases |evs|
  {
    hide Refill, Feasible, Next, Available, SoundBucket, Admitted, Touches, Extra, Balance;
    var q := Qps(cfg, k);
    RefillIsPositive(q, t - s);
    if evs == [] {
      NoExtra(cfg, k);
    } else {
      var e, rest, st' := evs[0], evs[1..], Next(cfg, st, evs[0]);
      assert e in evs;
      SoundStep(cfg, st, k, e);
      if Counted(cfg, st, k, e, s, t) {
        FirstAdmission(cfg, st, k, e);
        RefillAdds(q, e.now - s, t - e.now);
        assert (e.now - s) + (t - e.now) == t - s;
        RefillIsPositive(q, e.now - s);
        RefillIsPositive(q, t - e.now);
        if Admissions(cfg, st', k, rest, s, t) > 0 {
          UntilBound(cfg, st', k, e.now, rest, s, t);
        } else {
          NoExtra(cfg, k);
        }
      } else {
        AmidBound(cfg, st', k, rest, s, t);
      }
    }
  }

  lemma FirstAdmission(cfg: Config, st: State, k: Key, e: Event)
    requires Feasible(e) && Admitted(cfg, st, k, e) && SoundBucket(At(st, k), Burst(cfg, k))
    ensures 1.0 + Balance(cfg, Next(cfg, st, e), k, e.now) <= Burst(cfg, k) as real && Stamped(Next(cfg, st, e), k, e.now)
    ensures Balance(cfg, Next(cfg, st, e), k, e.now) >= 0.0
  {
    BalanceAfter(cfg, st, k, e);
    StepEffect(cfg, st, k, e);
    AvailableInRange(At(st, k), Burst(cfg, k), Qps(cfg, k), e.now);
    SoundStep(cfg, st, k, e);
    AvailableInRange(At(Next(cfg, st, e), k), Burst(cfg, k), Qps(cfg, k), e.now);
    hide Next, Feasible, Available, SoundBucket;
  }

  /**
   The window bound for every run from process start, whatever the clock does and however
   evictions and inserts of different requests interleave: one burst
   and the refill of the window, one more burst for each early discard of the bucket
   between its first and last admission there, and the refill of every span by which an
   instant in between fell behind the one before it.
   */
  lemma WindowBoundAnyClock(cfg: Config, k: Key, evs: seq<Event>, s: real, t: real)
    requires FeasibleRun(evs) && s <= t
    ensures var d := Amid(cfg, EMPTY, k, evs, s, t);
            Admissions(cfg, EMPTY, k, evs, s, t) as real
            <= Bursts(cfg, k, 1 + d.losses) + Refill(Qps(cfg, k), t - s) + Refill(Qps(cfg, k), d.slides)
  {
    AmidBound(cfg, EMPTY, k, evs, s, t);
    BurstsAdd(cfg, k, Amid(cfg, EMPTY, k, evs, s, t).losses);
    hide Refill, Bursts, Admissions, Amid;
  }

  // ------------------------------------------------------------------
  // Instants that never fall behind
  // ------------------------------------------------------------------

  /** The events that touch bucket `k` carry non-decreasing instants, none before `clock`. */
  ghost predicate MonotoneFor(cfg: Config, st: State, k: Key, clock: real, evs: seq<Event>)
    decreases |evs|
  {
    evs != [] ==>
      var e, st' := evs[0], Next(cfg, st, evs[0]);
      if Touches(cfg, st, k, e) then clock <= e.now && MonotoneFor(cfg, st', k, e.now, evs[1..])
      else MonotoneFor(cfg, st', k, clock, evs[1..])
  }

  /** The early discards of the bucket whose instant lies in [s, t]. */
  function EarlyLosses(cfg: Config, st: State, k: Key, evs: seq<Event>, s: real, t: real): nat
    decreases |evs|
  {
    if evs == [] then 0
    else (if EarlyLoss(cfg, st, k, evs[0]) && s <= evs[0].now <= t then 1 else 0)
         + EarlyLosses(cfg, Next(cfg, st, evs[0]), k, evs[1..], s, t)
  }

  lemma {:induction false} NothingAfter(cfg: Config, st: State, k: Key, clock: real, evs: seq<Event>, s: real, t: real)
    requires MonotoneFor(cfg, st, k, clock, evs) && t < clock
    ensures Admissions(cfg, st, k, evs, s, t) == 0
    decreases |evs|
  {
    hide Next, AnswerOf;
    if evs != [] {
      NothingAfter(cfg, Next(cfg, st, evs[0]), k, if Touches(cfg, st, k, evs[0]) then evs[0].now else clock, evs[1..], s, t);
    }
  }

  lemma {:induction false} MonotoneUntil(cfg: Config, st: State, k: Key, clock: real, evs: seq<Event>, s: real, t: real)
    requires MonotoneFor(cfg, st, k, clock, evs) && s <= clock
    ensures var d := Until(cfg, st, k, clock, evs, s, t); d.slides == 0.0 && d.losses <= EarlyLosses(cfg, st, k, evs, s, t)
    decreases |evs|
  {
    hide Next, AnswerOf, Balance;
    if evs != [] && Admissions(cfg, st, k, evs, s, t) > 0 {
      var e, st' := evs[0], Next(cfg, st, evs[0]);
      if Touches(cfg, st, k, e) {
        if e.now > t {
          NothingAfter(cfg, st', k, e.now, evs[1..], s, t);
        }
        MonotoneUntil(cfg, st', k, e.now, evs[1..], s, t);
      } else {
        MonotoneUntil(cfg, st', k, clock, evs[1..], s, t);
      }
    }
  }

  lemma {:induction false} MonotoneAmid(cfg: Config, st: State, k: Key, clock: real, evs: seq<Event>, s: real, t: real)
    requires MonotoneFor(cfg, st, k, clock, evs)
    ensures var d := Amid(cfg, st, k, evs, s, t); d.slides == 0.0 && d.losses <= EarlyLosses(cfg, st, k, evs, s, t)
    decreases |evs|
  {
    hide Next, AnswerOf, Balance, Until;
    if evs != [] {
      var e, st' := evs[0], Next(cfg, st, evs[0]);
      if Counted(cfg, st, k, e, s, t) {
        MonotoneUntil(cfg, st', k, e.now, evs[1..], s, t);
      } else {
        MonotoneAmid(cfg, st', k, if Touches(cfg, st, k, e) then e.now else clock, evs[1..], s, t);
      }
    }
  }

  lemma {:induction false} BurstsGrow(cfg: Config, k: Key, m: nat, n: nat)
    requires m <= n
    ensures Bursts(cfg, k, m) <= Bursts(cfg, k, n)
  {
    hide Bursts;
    if m < n {
      BurstsGrow(cfg, k, m, n - 1);
      BurstsAdd(cfg, k, n - 1);
    }
  }

  /** The bound of a token bucket, when the instants that touch it never fall behind. */
  lemma WindowBound(cfg: Config, k: Key, start: real, evs: seq<Event>, s: real, t: real)
    requires FeasibleRun(evs) && MonotoneFor(cfg, EMPTY, k, start, evs) && s <= t
    ensures Admissions(cfg, EMPTY, k, evs, s, t) as real <=
            Bursts(cfg, k, 1 + EarlyLosses(cfg, EMPTY, k, evs, s, t)) + Refill(Qps(cfg, k), t - s)
  {
    WindowBoundAnyClock(cfg, k, evs, s, t);
    MonotoneAmid(cfg, EMPTY, k, start, evs, s, t);
    BurstsGrow(cfg, k, 1 + Amid(cfg, EMPTY, k, evs, s, t).losses, 1 + EarlyLosses(cfg, EMPTY, k, evs, s, t));
    assert Refill(Qps(cfg, k), 0.0) == 0.0;
    hide Refill, Bursts, Amid, Admissions, EarlyLosses;
  }

  // ------------------------------------------------------------------
  // The token layer: nothing but a sweep discards its buckets
  // ------------------------------------------------------------------

  ghost predicate NeverLoses(cfg: Config, st: State, k: Key, evs: seq<Event>)
    decreases |evs|
  {
    evs != [] ==> !EarlyLoss(cfg, st, k, evs[0]) && NeverLoses(cfg, Next(cfg, st, evs[0]), k, evs[1..])
  }

  /** If every sweep covers a refill of the token layer, that layer loses no bucket early; the per-tenant layer does not matter. */
  lemma {:induction false} TokenLayerNeverLosesEarly(cfg: Config, st: State, token: TokenId, evs: seq<Event>)
    requires FeasibleRun(evs) && SoundBucket(At(st, Whole(token)), cfg.burst)
    requires forall e :: e in evs && e.Sweep? ==> Covers(cfg, Whole(token), e.ttl)
    ensures NeverLoses(cfg, st, Whole(token), evs)
    decreases |evs|
  {
    hide Next, Available, Covers;
    if evs != [] {
      var e := evs[0];
      assert e in evs;
      SoundStep(cfg, st, Whole(token), e);
      if e.Sweep? && Removes(cfg, st, Whole(token), e) {
        LongSweepDropsFull(cfg, st, Whole(token), e.ttl, e.now);
      }
      TokenLayerNeverLosesEarly(cfg, Next(cfg, st, e), token, evs[1..]);
    }
  }

  lemma {:induction false} NoLossesUntil(cfg: Config, st: State, k: Key, clock: real, evs: seq<Event>, s: real, t: real)
    requires NeverLoses(cfg, st, k, evs)
    ensures Until(cfg, st, k, clock, evs, s, t).losses == 0
    decreases |evs|
  {
    hide Next, EarlyLoss, Admissions, Touches;
    if evs != [] {
      NoLossesUntil(cfg, Next(cfg, st, evs[0]), k, clock, evs[1..], s, t);
      NoLossesUntil(cfg, Next(cfg, st, evs[0]), k, evs[0].now, evs[1..], s, t);
    }
  }

  lemma {:induction false} NoLossesAmid(cfg: Config, st: State, k: Key, evs: seq<Event>, s: real, t: real)
    requires NeverLoses(cfg, st, k, evs)
    ensures Amid(cfg, st, k, evs, s, t).losses == 0
    decreases |evs|
  {
    hide Next, EarlyLoss, Counted, Until;
    if evs != [] {
      NoLossesUntil(cfg, Next(cfg, st, evs[0]), k, evs[0].now, evs[1..], s, t);
      NoLossesAmid(cfg, Next(cfg, st, evs[0]), k, evs[1..], s, t);
    }
  }

  /** On the token layer: burst + qps * (t - s), and the refill of what the instants fell behind. */
  lemma TokenWindowBound(cfg: Config, token: TokenId, evs: seq<Event>, s: real, t: real)
    requires FeasibleRun(evs) && s <= t
    requires forall e :: e in evs && e.Sweep? ==> Covers(cfg, Whole(token), e.ttl)
    ensures var k, q := Whole(token), cfg.qps as real;
            var slides := Amid(cfg, EMPTY, k, evs, s, t).slides;
            && Admissions(cfg, EMPTY, k, evs, s, t) as real <= cfg.burst as real + Refill(q, t - s) + Refill(q, slides)
            && (forall start :: MonotoneFor(cfg, EMPTY, k, start, evs) ==>
                  Admissions(cfg, EMPTY, k, evs, s, t) as real <= cfg.burst as real + Refill(q, t - s))
  {
    var k := Whole(token);
    WindowBoundAnyClock(cfg, k, evs, s, t);
    TokenLayerNeverLosesEarly(cfg, EMPTY, token, evs);
    NoLossesAmid(cfg, EMPTY, k, evs, s, t);
    assert Bursts(cfg, k, 1) == cfg.burst as real;
    assert Refill(cfg.qps as real, 0.0) == 0.0;
    hide Refill, Bursts, Amid, Admissions, Covers, Feasible;
    forall start | MonotoneFor(cfg, EMPTY, k, start, evs) ensures Amid(cfg, EMPTY, k, evs, s, t).slides == 0.0 {
      MonotoneAmid(cfg, EMPTY, k, start, evs, s, t);
    }
  }

  // ------------------------------------------------------------------
  // The clock race: the last term is exact
  // ------------------------------------------------------------------

  /** `n` times an instant one second behind, and back. */
  function Race(now: real, n: nat): seq<Event> {
    if n == 0 then [] else [Ask(now - 1.0), Ask(now)] + Race(now, n - 1)
  }

  /** One more request of the tiny limiter after its first admission. */
  lemma TinyTail(b: Bucket, clock: real, now: real, rest: seq<Event>, s: real, t: real)
    ensures var st, evs, st' := Holding(b), [Ask(now)] + rest, Next(TINY, Holding(b), Ask(now));
            && (LegalRun(TINY, st, evs) <==> LegalRun(TINY, st', rest))
            && Admissions(TINY, st, Whole(7), evs, s, t) == Admissions(TINY, st', Whole(7), rest, s, t)
                 + (if AnswerOf(TINY, st, Ask(now)) == Answered(Admit) && s <= now <= t then 1 else 0)
            && (Admissions(TINY, st, Whole(7), evs, s, t) > 0 ==>
                  var d := Until(TINY, st', Whole(7), now, rest, s, t);
                  Until(TINY, st, Whole(7), clock, evs, s, t) == Drift(d.losses, Slide(clock, now) + d.slides))
  {
    var evs := [Ask(now)] + rest;
    assert evs[0] == Ask(now) && evs[1..] == rest;
    hide Next, Verdict, Balance;
  }

  lemma {:induction false} RaceFrom(now: real, n: nat)
    ensures var st := Holding(Bucket(0.0, now, now));
            && LegalRun(TINY, st, Race(now, n))
            && Admissions(TINY, st, Whole(7), Race(now, n), now, now) == n
            && Until(TINY, st, Whole(7), now, Race(now, n), now, now) == Drift(0, n as real)
  {
    if n > 0 {
      var b0, b1, rest := Bucket(0.0, now, now), Bucket(0.0, now - 1.0, now - 1.0), Race(now, n - 1);
      RaceFrom(now, n - 1);
      TinyStep(b0, now - 1.0);
      TinyStep(b1, now);
      TinyTail(b1, now - 1.0, now, rest, now, now);
      TinyTail(b0, now, now - 1.0, [Ask(now)] + rest, now, now);
      assert [Ask(now - 1.0)] + ([Ask(now)] + rest) == [Ask(now - 1.0), Ask(now)] + rest;
      hide Ask, Holding, Next, AnswerOf, Admissions, Until, LegalRun;
    }
  }

  /**
   The clock is read before the locks are taken. If `n` times in turn a request stamped
   one second earlier gets in between, `n + 1` are admitted at one and the same instant,
   where the bound of a token bucket allows one: exactly as many as the bound for any
   clock allows.
   */
  lemma ClockRaceIsTight(now: real, n: nat)
    ensures var evs, d := [Ask(now)] + Race(now, n), Amid(TINY, EMPTY, Whole(7), [Ask(now)] + Race(now, n), now, now);
            && LegalRun(TINY, EMPTY, evs) && d == Drift(0, n as real)
            && Admissions(TINY, EMPTY, Whole(7), evs, now, now) == n + 1
            && (n + 1) as real == Bursts(TINY, Whole(7), 1 + d.losses) + Refill(Qps(TINY, Whole(7)), now - now) + Refill(Qps(TINY, Whole(7)), d.slides)
  {
    var evs := [Ask(now)] + Race(now, n);
    assert evs[0] == Ask(now) && evs[1..] == Race(now, n);
    TinyStart(now);
    RaceFrom(now, n);
    hide Next, AnswerOf, Race, Until;
  }
}
