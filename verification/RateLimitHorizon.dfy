/**
 The horizon of a sweep is exact. With one active layer, erasing sweeps and rejected
 requests is unobservable in all runs if and only if the sweeps cover a full refill of
 that layer.
 */
module RateLimitHorizon {
  import opened Options
  import opened RateLimit
  import opened RateLimitRuns
  import opened RateLimitErasure

  /** In no run whose sweeps have this ttl does erasing sweeps or rejected requests change another answer. */
  ghost predicate Unobservable(cfg: Config, ttl: real) {
    forall start, evs: seq<Event>, drop ::
      && Monotone(start, evs) && LegalRun(cfg, EMPTY, evs) && FewTenants(Requested(evs))
      && (forall e: Event :: e in evs && e.Sweep? ==> e.ttl == ttl) && Erasable(cfg, EMPTY, evs, drop)
      ==> Answers(cfg, EMPTY, Erase(evs, drop)) == Erase(Answers(cfg, EMPTY, evs), drop)
  }

  predicate OneLayer(cfg: Config) {
    cfg.perTenant.Disabled() != cfg.TokenLayerDisabled()
  }

  // ------------------------------------------------------------------
  // A limiter that serves one tenant of one token through its only layer
  // ------------------------------------------------------------------

  function TheKey(cfg: Config): Key {
    if cfg.perTenant.Disabled() then Whole(0) else Pair(0, 0)
  }

  function Only(cfg: Config, b: Option<Bucket>): State {
    if b == None then EMPTY
    else if cfg.perTenant.Disabled() then State(map[], map[0 := b.value])
    else State(map[(0, 0) := b.value], map[])
  }

  function AskAt(now: real): Event {
    Request(0, 0, now, None)
  }

  function BalanceOf(cfg: Config, b: Option<Bucket>, now: real): real {
    Available(b, Burst(cfg, TheKey(cfg)), Qps(cfg, TheKey(cfg)), now)
  }

  lemma SoleStep(cfg: Config, b: Option<Bucket>, now: real)
    requires OneLayer(cfg)
    ensures var st, balance := Only(cfg, b), BalanceOf(cfg, b, now);
            && Legal(cfg, st, AskAt(now))
            && (AnswerOf(cfg, st, AskAt(now)) == Answered(Admit) <==> balance >= 1.0)
            && Next(cfg, st, AskAt(now)) == Only(cfg, Some(Bucket(if balance >= 1.0 then balance - 1.0 else balance, now, now)))
  {
    hide HintSeconds, Wait, Available;
    var st := Only(cfg, b);
    assert (0, 0) !in st.pairs ==> TenantsOf(st.pairs, 0) == {};
    assert At(st, TheKey(cfg)) == b;
  }

  lemma SweepEmpties(cfg: Config, ttl: real)
    requires ttl >= 0.0
    ensures SweepState(Only(cfg, Some(Bucket(0.0, 0.0, 0.0))), ttl, ttl) == EMPTY
  {
  }

  function Asks(now: real, n: nat): (evs: seq<Event>)
    ensures |evs| == n && forall i :: 0 <= i < n ==> evs[i] == AskAt(now)
  {
    if n == 0 then [] else [AskAt(now)] + Asks(now, n - 1)
  }

  ghost predicate AllAdmitted(answers: seq<Answer>) {
    forall i :: 0 <= i < |answers| ==> answers[i] == Answered(Admit)
  }

  lemma AllAdmittedCons(a: Answer, rest: seq<Answer>)
    ensures AllAdmitted([a] + rest) <==> a == Answered(Admit) && AllAdmitted(rest)
  {
    var all := [a] + rest;
    assert all[0] == a && forall i :: 0 <= i < |rest| ==> rest[i] == all[i + 1];
  }

  /** `n` requests at one instant are all admitted if and only if the balance holds `n` permits, and then use them up. */
  lemma {:induction false} Drain(cfg: Config, b: Option<Bucket>, now: real, n: nat)
    requires OneLayer(cfg) && SoundBucket(b, Burst(cfg, TheKey(cfg))) && n >= 1
    ensures var st, balance := Only(cfg, b), BalanceOf(cfg, b, now);
            && LegalRun(cfg, st, Asks(now, n))
            && (AllAdmitted(Answers(cfg, st, Asks(now, n))) <==> balance >= n as real)
            && (balance >= n as real ==> Run(cfg, st, Asks(now, n)) == Only(cfg, Some(Bucket(balance - n as real, now, now))))
    decreases n
  {
    var st, balance, burst := Only(cfg, b), BalanceOf(cfg, b, now), Burst(cfg, TheKey(cfg));
    SoleStep(cfg, b, now);
    AvailableInRange(b, burst, Qps(cfg, TheKey(cfg)), now);
    hide Only, Legal, Next, AnswerOf, Available, AskAt, AllAdmitted, OneLayer, TheKey, Burst, Qps;
    var left := if balance >= 1.0 then balance - 1.0 else balance;
    var evs, b' := Asks(now, n), Some(Bucket(left, now, now));
    assert evs[0] == AskAt(now) && evs[1..] == Asks(now, n - 1);
    AllAdmittedCons(AnswerOf(cfg, st, evs[0]), Answers(cfg, Only(cfg, b'), evs[1..]));
    AvailableWhenStamped(left, burst, Qps(cfg, TheKey(cfg)), now);
    if n == 1 {
      assert evs[1..] == [];
      NoAnswers(cfg, Only(cfg, b'));
    } else {
      Drain(cfg, b', now, n - 1);
    }
  }

  lemma NoAnswers(cfg: Config, st: State)
    ensures AllAdmitted(Answers(cfg, st, [])) && Run(cfg, st, []) == st && LegalRun(cfg, st, [])
  {
  }

  // ------------------------------------------------------------------
  // Runs in parts
  // ------------------------------------------------------------------

  lemma {:induction false} RunAppend(cfg: Config, st: State, a: seq<Event>, b: seq<Event>)
    ensures LegalRun(cfg, st, a + b) <==> LegalRun(cfg, st, a) && LegalRun(cfg, Run(cfg, st, a), b)
    ensures Answers(cfg, st, a + b) == Answers(cfg, st, a) + Answers(cfg, Run(cfg, st, a), b)
    ensures Run(cfg, st, a + b) == Run(cfg, Run(cfg, st, a), b)
    decreases |a|
  {
    hide Next, AnswerOf, Legal;
    if a == [] {
      assert a + b == b;
    } else {
      assert (a + b)[0] == a[0] && (a + b)[1..] == a[1..] + b;
      RunAppend(cfg, Next(cfg, st, a[0]), a[1..], b);
    }
  }

  function Kept(n: nat): (drop: seq<bool>)
    ensures |drop| == n && forall i :: 0 <= i < n ==> !drop[i]
  {
    seq(n, _ => false)
  }

  lemma {:induction false} EraseNothing<T>(xs: seq<T>)
    ensures Erase(xs, Kept(|xs|)) == xs
  {
    if xs != [] {
      assert Kept(|xs|)[1..] == Kept(|xs| - 1);
      EraseNothing(xs[1..]);
    }
  }

  /** Erasing just the middle. */
  lemma {:induction false} EraseMiddle<T>(a: seq<T>, x: T, b: seq<T>)
    ensures Erase(a + [x] + b, Kept(|a|) + [true] + Kept(|b|)) == a + b
    decreases |a|
  {
    var all, drop := a + [x] + b, Kept(|a|) + [true] + Kept(|b|);
    if a == [] {
      assert drop[0] && all[1..] == b && drop[1..] == Kept(|b|);
      EraseNothing(b);
    } else {
      assert all[0] == a[0] && all[1..] == a[1..] + [x] + b;
      assert !drop[0] && drop[1..] == Kept(|a[1..]|) + [true] + Kept(|b|);
      EraseMiddle(a[1..], x, b);
      assert [a[0]] + (a[1..] + b) == a + b;
    }
  }

  // ------------------------------------------------------------------
  // A sweep that is too short
  // ------------------------------------------------------------------

  /** Use the bucket up, sweep as soon as it is idle, and ask for a whole burst. */
  function Telltale(ttl: real, n: nat): seq<Event> {
    Asks(0.0, n) + [Sweep(ttl, ttl)] + Asks(ttl, n)
  }

  lemma TelltaleIsOrdinary(ttl: real, n: nat)
    requires ttl >= 0.0
    ensures Monotone(0.0, Telltale(ttl, n)) && FewTenants(Requested(Telltale(ttl, n)))
    ensures forall e :: e in Telltale(ttl, n) && e.Sweep? ==> e.ttl == ttl
  {
    var evs := Telltale(ttl, n);
    assert forall i :: 0 <= i < |evs| ==> evs[i] == if i < n then AskAt(0.0) else if i == n then Sweep(ttl, ttl) else AskAt(ttl);
    forall token ensures |PairsOf(Requested(evs), token)| <= MAX_TENANTS_PER_TOKEN {
      var ps := PairsOf(Requested(evs), token);
      assert ps <= {(0, 0)};
      assert ps == {} || ps == {(0, 0)};
    }
  }

  /** With the sweep the whole burst is granted again; without it, only if the horizon covers the refill. */
  lemma TelltaleAnswers(cfg: Config, ttl: real, n: nat)
    requires OneLayer(cfg) && ttl >= 0.0 && n == Burst(cfg, TheKey(cfg)) >= 1
    ensures LegalRun(cfg, EMPTY, Telltale(ttl, n))
    ensures var used := Only(cfg, Some(Bucket(0.0, 0.0, 0.0)));
            var first, again, later := Answers(cfg, EMPTY, Asks(0.0, n)), Answers(cfg, EMPTY, Asks(ttl, n)), Answers(cfg, used, Asks(ttl, n));
            && Answers(cfg, EMPTY, Telltale(ttl, n)) == first + [Silent] + again
            && Answers(cfg, EMPTY, Asks(0.0, n) + Asks(ttl, n)) == first + later
            && AllAdmitted(again) && (AllAdmitted(later) ==> Covers(cfg, TheKey(cfg), ttl))
  {
    var b := Some(Bucket(0.0, 0.0, 0.0));
    var used := Only(cfg, b);
    Drain(cfg, None, 0.0, n);
    Drain(cfg, None, ttl, n);
    Drain(cfg, b, ttl, n);
    assert Only(cfg, None) == EMPTY && BalanceOf(cfg, None, 0.0) == n as real && BalanceOf(cfg, None, ttl) == n as real;
    assert BalanceOf(cfg, b, ttl) >= n as real ==> Covers(cfg, TheKey(cfg), ttl);
    hide BalanceOf, Only, Covers, TheKey, OneLayer;
    SweepEmpties(cfg, ttl);
    OneSweep(cfg, used, ttl);
    RunAppend(cfg, EMPTY, Asks(0.0, n), [Sweep(ttl, ttl)]);
    RunAppend(cfg, EMPTY, Asks(0.0, n) + [Sweep(ttl, ttl)], Asks(ttl, n));
    RunAppend(cfg, EMPTY, Asks(0.0, n), Asks(ttl, n));
    hide Answers, Run, LegalRun, AllAdmitted;
  }

  lemma OneSweep(cfg: Config, st: State, ttl: real)
    ensures LegalRun(cfg, st, [Sweep(ttl, ttl)]) && Answers(cfg, st, [Sweep(ttl, ttl)]) == [Silent]
    ensures Run(cfg, st, [Sweep(ttl, ttl)]) == SweepState(st, ttl, ttl)
  {
    hide SweepState;
    assert [Sweep(ttl, ttl)][1..] == [];
    assert Answers(cfg, SweepState(st, ttl, ttl), []) == [];
  }

  /** The sweep of the telltale run may be erased, and that leaves the two rounds of requests. */
  lemma TelltaleErased(cfg: Config, ttl: real, n: nat, first: seq<Answer>, again: seq<Answer>)
    requires Answers(cfg, EMPTY, Telltale(ttl, n)) == first + [Silent] + again && |first| == |again| == n
    ensures var drop := Kept(n) + [true] + Kept(n);
            && Erasable(cfg, EMPTY, Telltale(ttl, n), drop)
            && Erase(Telltale(ttl, n), drop) == Asks(0.0, n) + Asks(ttl, n)
            && Erase(Answers(cfg, EMPTY, Telltale(ttl, n)), drop) == first + again
  {
    EraseMiddle(Asks(0.0, n), Sweep(ttl, ttl), Asks(ttl, n));
    EraseMiddle(first, Silent, again);
    hide Erase, Answers, Asks, Kept;
  }

  lemma ShortHorizonShows(cfg: Config, ttl: real)
    requires OneLayer(cfg) && ttl >= 0.0 && Unobservable(cfg, ttl)
    ensures Covers(cfg, TheKey(cfg), ttl)
  {
    HorizonOfTheLayer(cfg, ttl);
    var n := Burst(cfg, TheKey(cfg));
    hide Covers, TheKey, OneLayer, Burst, Monotone, FewTenants, LegalRun, Only, Erasable, Erase, Answers, Kept, Asks, Telltale, AllAdmitted;
    TelltaleIsOrdinary(ttl, n);
    TelltaleAnswers(cfg, ttl, n);
    var used := Only(cfg, Some(Bucket(0.0, 0.0, 0.0)));
    var first, again, later := Answers(cfg, EMPTY, Asks(0.0, n)), Answers(cfg, EMPTY, Asks(ttl, n)), Answers(cfg, used, Asks(ttl, n));
    TelltaleErased(cfg, ttl, n, first, again);
    assert first + again == first + later;
    assert again == (first + again)[|first|..] && later == (first + later)[|first|..];
  }

  lemma HorizonOfTheLayer(cfg: Config, ttl: real)
    requires OneLayer(cfg)
    ensures LongHorizon(cfg, ttl) <==> Covers(cfg, TheKey(cfg), ttl)
    ensures Burst(cfg, TheKey(cfg)) >= 1
  {
  }

  /** The horizon is exact: with one active layer, erasure is unobservable if and only if the sweeps cover a full refill. */
  lemma HorizonIff(cfg: Config, ttl: real)
    requires OneLayer(cfg) && ttl >= 0.0
    ensures Unobservable(cfg, ttl) <==> LongHorizon(cfg, ttl)
  {
    HorizonOfTheLayer(cfg, ttl);
    hide LongHorizon, Covers, OneLayer, TheKey;
    if Unobservable(cfg, ttl) {
      ShortHorizonShows(cfg, ttl);
    }
    if LongHorizon(cfg, ttl) {
      LongHorizonHides(cfg, ttl);
    }
  }

  /** Whatever the layers, a long horizon is enough. */
  lemma LongHorizonHides(cfg: Config, ttl: real)
    requires LongHorizon(cfg, ttl)
    ensures Unobservable(cfg, ttl)
  {
    hide LongHorizon, Monotone, LegalRun, FewTenants, Erasable, Answers, Erase;
    forall start, evs: seq<Event>, drop |
      && Monotone(start, evs) && LegalRun(cfg, EMPTY, evs) && FewTenants(Requested(evs))
      && (forall e: Event :: e in evs && e.Sweep? ==> e.ttl == ttl) && Erasable(cfg, EMPTY, evs, drop)
      ensures |drop| == |evs| && Answers(cfg, EMPTY, Erase(evs, drop)) == Erase(Answers(cfg, EMPTY, evs), drop)
    {
      ErasableSize(cfg, evs, drop);
      ErasureIsUnobservable(cfg, start, evs, drop);
    }
  }

  lemma ErasableSize(cfg: Config, evs: seq<Event>, drop: seq<bool>)
    requires Erasable(cfg, EMPTY, evs, drop)
    ensures |drop| == |evs|
  {
  }
}
