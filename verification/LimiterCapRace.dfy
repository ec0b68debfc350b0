/**
 The cap on the buckets of one token when requests interleave. A request for a tenant
 probes for its bucket; if there is none it scans, at the cap removes the coldest bucket
 it saw, and inserts; requests of the token and sweeps come in between. Proved here: how
 far the cap can be exceeded, that it can be exceeded without limit, and that requests
 which no longer overlap do not bring the number back.
 */
module LimiterCapRace {
  import opened Sorting
  import RateLimit

  type TenantId = RateLimit.TenantId

  const CAP: nat := RateLimit.MAX_TENANTS_PER_TOKEN

  /** Why a request believes that there is room for its bucket. */
  datatype Room =
    | Known    // the probe found the bucket
    | Below    // the scan counted fewer than the cap
    | Freed    // its removal took a bucket away
    | Missed   // its removal found the bucket gone already

  datatype Thread =
    | Probing(tenant: TenantId)
    | Scanning(tenant: TenantId)
    | Removing(tenant: TenantId, victim: TenantId)
    | Inserting(tenant: TenantId, room: Room)
    | Done

  /** The buckets of the token with their last access; `unpaid` counts the buckets that were minted although nothing was freed or found below the cap. */
  datatype State = State(buckets: map<TenantId, real>, threads: seq<Thread>, unpaid: nat)

  const START := State(map[], [], 0)

  datatype Action =
    | Arrive(tenant: TenantId)
    | Step(who: nat, coldest: TenantId, now: real)
    | Sweep(idle: set<TenantId>)

  predicate Coldest(buckets: map<TenantId, real>, t: TenantId) {
    t in buckets && forall u :: u in buckets ==> buckets[t] <= buckets[u]
  }

  predicate Enabled(st: State, a: Action) {
    a.Step? ==>
      && a.who < |st.threads| && !st.threads[a.who].Done?
      && (st.threads[a.who].Scanning? && |st.buckets| >= CAP ==> Coldest(st.buckets, a.coldest))
  }

  function NextThread(st: State, th: Thread, coldest: TenantId): Thread {
    match th
    case Probing(t) => if t in st.buckets then Inserting(t, Known) else Scanning(t)
    case Scanning(t) => if |st.buckets| < CAP then Inserting(t, Below) else Removing(t, coldest)
    case Removing(t, v) => Inserting(t, if v in st.buckets then Freed else Missed)
    case Inserting(_, _) => Done
    case Done => Done
  }

  function BucketsAfter(st: State, th: Thread, now: real): map<TenantId, real> {
    match th
    case Removing(_, v) => st.buckets - {v}
    case Inserting(t, _) => st.buckets[t := now]
    case _ => st.buckets
  }

  predicate Mints(st: State, th: Thread) {
    th.Inserting? && th.tenant !in st.buckets
  }

  function Apply(st: State, a: Action): State
    requires Enabled(st, a)
  {
    match a
    case Arrive(t) => st.(threads := st.threads + [Probing(t)])
    case Step(who, coldest, now) =>
      var th := st.threads[who];
      State(BucketsAfter(st, th, now), st.threads[who := NextThread(st, th, coldest)],
            st.unpaid + if Mints(st, th) && (th.room.Known? || th.room.Missed?) then 1 else 0)
    case Sweep(idle) => st.(buckets := st.buckets - idle)
  }

  // ------------------------------------------------------------------
  // How far the cap can be exceeded
  // ------------------------------------------------------------------

  /** A request that may still mint a bucket for which there was room. */
  predicate HasRoom(th: Thread) {
    th.Inserting? && (th.room.Below? || th.room.Freed?)
  }

  function WithRoom(ths: seq<Thread>): nat {
    if ths == [] then 0 else (if HasRoom(ths[0]) then 1 else 0) + WithRoom(ths[1..])
  }

  lemma {:induction false} WithRoomUpdate(ths: seq<Thread>, i: nat, th: Thread)
    requires i < |ths|
    ensures WithRoom(ths[i := th]) == WithRoom(ths) - (if HasRoom(ths[i]) then 1 else 0) + (if HasRoom(th) then 1 else 0)
  {
    if i == 0 {
      assert ths[i := th][1..] == ths[1..];
    } else {
      assert ths[i := th][1..] == ths[1..][i - 1 := th];
      WithRoomUpdate(ths[1..], i - 1, th);
    }
  }

  lemma {:induction false} WithRoomAppend(ths: seq<Thread>, th: Thread)
    requires !HasRoom(th)
    ensures WithRoom(ths + [th]) == WithRoom(ths)
  {
    if ths != [] {
      assert (ths + [th])[1..] == ths[1..] + [th];
      WithRoomAppend(ths[1..], th);
    }
  }

  /** What one thread's step does to the number of buckets. */
  lemma SizeStep(st: State, th: Thread, coldest: TenantId, now: real)
    ensures var size, size', th' := |st.buckets.Keys|, |BucketsAfter(st, th, now).Keys|, NextThread(st, th, coldest);
            && size' == size + (if Mints(st, th) then 1 else 0) - (if th.Removing? && th'.room.Freed? then 1 else 0)
  {
    var b' := BucketsAfter(st, th, now);
    if th.Removing? {
      assert b'.Keys == st.buckets.Keys - {th.victim};
    } else if th.Inserting? {
      assert b'.Keys == st.buckets.Keys + {th.tenant};
    }
  }

  /** One step: buckets and requests with room together grow only by an unpaid bucket, or by a scan that counted fewer than the cap. */
  lemma RoomStep(st: State, a: Action)
    requires Enabled(st, a)
    ensures var st' := Apply(st, a);
            || |st'.buckets.Keys| + WithRoom(st'.threads) - st'.unpaid <= |st.buckets.Keys| + WithRoom(st.threads) - st.unpaid
            || (st'.buckets == st.buckets && |st.buckets.Keys| < CAP)
  {
    match a
    case Arrive(t) => WithRoomAppend(st.threads, Probing(t));
    case Step(who, coldest, now) =>
      var th := st.threads[who];
      WithRoomUpdate(st.threads, who, NextThread(st, th, coldest));
      SizeStep(st, th, coldest, now);
      assert |st.buckets| == |st.buckets.Keys|;
      hide WithRoom;
    case Sweep(idle) =>
      SubsetSize((st.buckets - idle).Keys, st.buckets.Keys);
      hide WithRoom;
  }

  /** `st` leads to `st'` by these steps, with at no time more than `k` requests between finding room and inserting. */
  ghost predicate Reaches(st: State, st': State, acts: seq<Action>, k: nat)
    decreases |acts|
  {
    && WithRoom(st.threads) <= k
    && if acts == [] then st == st' else Enabled(st, acts[0]) && Reaches(Apply(st, acts[0]), st', acts[1..], k)
  }

  ghost predicate Leads(st: State, st': State, k: nat) {
    exists acts :: Reaches(st, st', acts, k)
  }

  predicate Bounded(st: State, k: nat) {
    |st.buckets| + WithRoom(st.threads) <= CAP - 1 + k + st.unpaid
  }

  lemma {:induction false} StaysBounded(st: State, st': State, acts: seq<Action>, k: nat)
    requires Reaches(st, st', acts, k) && Bounded(st, k)
    ensures Bounded(st', k)
    decreases |acts|
  {
    if acts != [] {
      var next := Apply(st, acts[0]);
      RoomStep(st, acts[0]);
      assert |st.buckets| == |st.buckets.Keys| && |next.buckets| == |next.buckets.Keys|;
      StaysBounded(next, st', acts[1..], k);
    }
    hide Apply, WithRoom, Enabled;
  }

  /**
   The soft cap. If at no time more than `k` requests stand between finding room and
   inserting, the token owns at most `k - 1` buckets more than the cap, and one more for
   every unpaid bucket: one minted after a removal that found its victim gone, or after a
   probe whose bucket was taken away before the insert.
   */
  lemma SoftTenantCap(st: State, k: nat)
    requires Leads(START, st, k)
    ensures |st.buckets| + WithRoom(st.threads) <= CAP - 1 + k + st.unpaid
  {
    var acts :| Reaches(START, st, acts, k);
    StaysBounded(START, st, acts, k);
  }

  /** From `st` on there was a moment at which thread `i`, scanning at the cap, saw no bucket colder than `v`. */
  ghost predicate SawColdest(st: State, st': State, i: nat, v: TenantId, k: nat) {
    exists mid ::
      && Leads(st, mid, k) && Leads(mid, st', k) && i < |mid.threads| && mid.threads[i].Scanning? && |mid.buckets| >= CAP
      && v in mid.buckets && (forall u :: u in mid.buckets ==> mid.buckets[v] <= mid.buckets[u])
  }

  lemma {:induction false} VictimSeen(st: State, st': State, acts: seq<Action>, i: nat, k: nat)
    requires Reaches(st, st', acts, k) && i < |st'.threads| && st'.threads[i].Removing?
    ensures (i < |st.threads| && st.threads[i] == st'.threads[i]) || SawColdest(st, st', i, st'.threads[i].victim, k)
    decreases |acts|
  {
    if acts != [] {
      var a, v := acts[0], st'.threads[i].victim;
      var next := Apply(st, a);
      VictimSeen(next, st', acts[1..], i, k);
      if i < |next.threads| && next.threads[i] == st'.threads[i] {
        if i >= |st.threads| || st.threads[i] != st'.threads[i] {
          assert a.Step? && a.who == i && st.threads[i].Scanning? && a.coldest == v;
          assert Reaches(st, st, [], k) && Leads(st, st, k) && Leads(st, st', k);
        }
      } else {
        SeenEarlier(st, st', a, i, v, k);
      }
    }
  }

  lemma SeenEarlier(st: State, st': State, a: Action, i: nat, v: TenantId, k: nat)
    requires Enabled(st, a) && WithRoom(st.threads) <= k && SawColdest(Apply(st, a), st', i, v, k)
    ensures SawColdest(st, st', i, v, k)
  {
    var next := Apply(st, a);
    var mid :|
      && Leads(next, mid, k) && Leads(mid, st', k) && i < |mid.threads| && mid.threads[i].Scanning? && |mid.buckets| >= CAP
      && v in mid.buckets && (forall u :: u in mid.buckets ==> mid.buckets[v] <= mid.buckets[u]);
    var acts :| Reaches(next, mid, acts, k);
    assert ([a] + acts)[1..] == acts;
    assert Reaches(st, mid, [a] + acts, k);
    hide Apply, Enabled, WithRoom;
  }

  /**
   Least recently used, as far as a scan can see. Whatever interleaves, a request that is
   about to remove a bucket chose it at an earlier moment, when the token was at the cap
   and no bucket of the token had an earlier last access. (It may have been used since.)
   */
  lemma VictimWasColdest(st: State, i: nat, k: nat)
    requires Leads(START, st, k) && i < |st.threads| && st.threads[i].Removing?
    ensures SawColdest(START, st, i, st.threads[i].victim, k)
  {
    var acts :| Reaches(START, st, acts, k);
    VictimSeen(START, st, acts, i, k);
  }

  // ------------------------------------------------------------------
  // Runs that reach the bound
  // ------------------------------------------------------------------

  lemma {:induction false} ReachesOneMore(st: State, st': State, acts: seq<Action>, a: Action, k: nat)
    requires Reaches(st, st', acts, k) && Enabled(st', a) && WithRoom(Apply(st', a).threads) <= k
    ensures Reaches(st, Apply(st', a), acts + [a], k)
    decreases |acts|
  {
    hide Apply, Enabled, WithRoom;
    if acts == [] {
      assert (acts + [a])[1..] == [];
      assert Reaches(Apply(st, a), Apply(st', a), [], k);
    } else {
      assert (acts + [a])[1..] == acts[1..] + [a];
      ReachesOneMore(Apply(st, acts[0]), st', acts[1..], a, k);
    }
  }

  lemma Onward(st: State, a: Action, k: nat)
    requires Leads(START, st, k) && Enabled(st, a) && WithRoom(Apply(st, a).threads) <= k
    ensures Leads(START, Apply(st, a), k)
  {
    var acts :| Reaches(START, st, acts, k);
    ReachesOneMore(START, st, acts, a, k);
    hide Apply, Enabled, Reaches;
  }

  function Arrived(st: State, t: TenantId): State {
    st.(threads := st.threads + [Probing(t)])
  }

  lemma Arrives(st: State, t: TenantId, k: nat)
    requires Leads(START, st, k) && WithRoom(st.threads) <= k
    ensures Leads(START, Arrived(st, t), k) && WithRoom(Arrived(st, t).threads) == WithRoom(st.threads)
  {
    hide Leads, WithRoom;
    WithRoomAppend(st.threads, Probing(t));
    Onward(st, Arrive(t), k);
  }

  /** Where a request of thread `who` stands after its next step. */
  function Stepped(st: State, who: nat, buckets: map<TenantId, real>, th: Thread, unpaid: nat): State
    requires who < |st.threads|
  {
    State(buckets, st.threads[who := th], unpaid)
  }

  /** Tenants from `m` on have no bucket. */
  predicate Unused(st: State, m: TenantId) {
    forall t :: t in st.buckets ==> t < m
  }

  lemma FirstStep(st: State, who: nat, coldest: TenantId, th: Thread, k: nat)
    requires Leads(START, st, k) && who < |st.threads| && (st.threads[who].Probing? || st.threads[who].Scanning?)
    requires st.threads[who].Scanning? && |st.buckets| >= CAP ==> Coldest(st.buckets, coldest)
    requires th == NextThread(st, st.threads[who], coldest) && WithRoom(st.threads) + (if HasRoom(th) then 1 else 0) <= k
    ensures var st' := Stepped(st, who, st.buckets, th, st.unpaid);
            Leads(START, st', k) && WithRoom(st'.threads) == WithRoom(st.threads) + if HasRoom(th) then 1 else 0
  {
    hide Leads, WithRoom;
    WithRoomUpdate(st.threads, who, th);
    Onward(st, Step(who, coldest, 0.0), k);
  }

  lemma LaterStep(st: State, who: nat, now: real, buckets: map<TenantId, real>, th: Thread, unpaid: nat, k: nat)
    requires Leads(START, st, k) && who < |st.threads| && (st.threads[who].Inserting? || st.threads[who].Removing?)
    requires th == NextThread(st, st.threads[who], 0) && buckets == BucketsAfter(st, st.threads[who], now)
    requires unpaid == st.unpaid + if Mints(st, st.threads[who]) && (st.threads[who].room.Known? || st.threads[who].room.Missed?) then 1 else 0
    requires WithRoom(st.threads) + (if HasRoom(th) then 1 else 0) <= k
    ensures var st' := Stepped(st, who, buckets, th, unpaid);
            && Leads(START, st', k)
            && WithRoom(st'.threads) == WithRoom(st.threads) + (if HasRoom(th) then 1 else 0) - if HasRoom(st.threads[who]) then 1 else 0
  {
    hide Leads, WithRoom;
    WithRoomUpdate(st.threads, who, th);
    Onward(st, Step(who, 0, now), k);
  }

  /** The buckets after a request that runs alone; `v` is the coldest bucket it sees. */
  function Alone(b: map<TenantId, real>, t: TenantId, v: TenantId, now: real): map<TenantId, real> {
    if t in b || |b| < CAP then b[t := now] else (b - {v})[t := now]
  }

  /** A request whose steps nobody else comes between. */
  lemma RunsAlone(st: State, t: TenantId, v: TenantId, now: real, k: nat) returns (st': State)
    requires Leads(START, st, k) && (t !in st.buckets && |st.buckets| >= CAP ==> Coldest(st.buckets, v)) && WithRoom(st.threads) < k
    ensures Leads(START, st', k) && st'.buckets == Alone(st.buckets, t, v, now) && st'.unpaid == st.unpaid
    ensures WithRoom(st'.threads) == WithRoom(st.threads)
  {
    hide Leads, Coldest, WithRoom;
    var who := |st.threads|;
    Arrives(st, t, k);
    var s1 := Arrived(st, t);
    if t in st.buckets {
      FirstStep(s1, who, v, Inserting(t, Known), k);
      st' := InsertsAlone(Stepped(s1, who, s1.buckets, Inserting(t, Known), s1.unpaid), who, now, k);
    } else {
      FirstStep(s1, who, v, Scanning(t), k);
      var s2 := Stepped(s1, who, s1.buckets, Scanning(t), s1.unpaid);
      if |st.buckets| < CAP {
        FirstStep(s2, who, v, Inserting(t, Below), k);
        st' := InsertsAlone(Stepped(s2, who, s2.buckets, Inserting(t, Below), s2.unpaid), who, now, k);
      } else {
        FirstStep(s2, who, v, Removing(t, v), k);
        var s3 := Stepped(s2, who, s2.buckets, Removing(t, v), s2.unpaid);
        ColdestIsThere(st.buckets, v);
        LaterStep(s3, who, now, s3.buckets - {v}, Inserting(t, Freed), s3.unpaid, k);
        st' := InsertsAlone(Stepped(s3, who, s3.buckets - {v}, Inserting(t, Freed), s3.unpaid), who, now, k);
      }
    }
  }

  lemma ColdestIsThere(b: map<TenantId, real>, v: TenantId)
    requires Coldest(b, v)
    ensures v in b
  {
  }

  lemma InsertsAlone(st: State, who: nat, now: real, k: nat) returns (st': State)
    requires Leads(START, st, k) && who < |st.threads| && st.threads[who].Inserting? && WithRoom(st.threads) <= k
    requires st.threads[who].room.Known? ==> st.threads[who].tenant in st.buckets
    requires !st.threads[who].room.Missed?
    ensures Leads(START, st', k) && st'.buckets == st.buckets[st.threads[who].tenant := now] && st'.unpaid == st.unpaid
    ensures st'.threads == st.threads[who := Done] && WithRoom(st'.threads) == WithRoom(st.threads) - if HasRoom(st.threads[who]) then 1 else 0
  {
    hide Leads, WithRoom;
    var b' := st.buckets[st.threads[who].tenant := now];
    LaterStep(st, who, now, b', Done, st.unpaid, k);
    st' := Stepped(st, who, b', Done, st.unpaid);
  }

  /** Two first touches at or above the cap that scan before either removes: one victim goes, two buckets come. */
  lemma Overshoot(st: State, t: TenantId, u: TenantId, v: TenantId, k: nat) returns (st': State)
    requires Leads(START, st, k) && t !in st.buckets && u !in st.buckets && t != u && WithRoom(st.threads) < k
    requires |st.buckets| >= CAP && Coldest(st.buckets, v)
    ensures Leads(START, st', k) && st'.buckets == (st.buckets - {v})[t := 0.0][u := 0.0] && st'.unpaid == st.unpaid + 1
    ensures WithRoom(st'.threads) == WithRoom(st.threads)
  {
    ColdestIsThere(st.buckets, v);
    hide Leads, Coldest, WithRoom;
    var a, b := |st.threads|, |st.threads| + 1;
    Arrives(st, t, k);
    var s1 := Arrived(st, t);
    Arrives(s1, u, k);
    var s2 := Arrived(s1, u);
    FirstStep(s2, a, v, Scanning(t), k);
    var s3 := Stepped(s2, a, s2.buckets, Scanning(t), s2.unpaid);
    FirstStep(s3, b, v, Scanning(u), k);
    var s4 := Stepped(s3, b, s3.buckets, Scanning(u), s3.unpaid);
    FirstStep(s4, a, v, Removing(t, v), k);
    var s5 := Stepped(s4, a, s4.buckets, Removing(t, v), s4.unpaid);
    FirstStep(s5, b, v, Removing(u, v), k);
    var s6 := Stepped(s5, b, s5.buckets, Removing(u, v), s5.unpaid);
    st' := OvershootEnds(s6, a, b, t, u, v, k);
  }

  lemma OvershootEnds(st: State, a: nat, b: nat, t: TenantId, u: TenantId, v: TenantId, k: nat) returns (st': State)
    requires Leads(START, st, k) && a < b < |st.threads| && st.threads[a] == Removing(t, v) && st.threads[b] == Removing(u, v)
    requires t !in st.buckets && u !in st.buckets && t != u && v in st.buckets && WithRoom(st.threads) < k
    ensures Leads(START, st', k) && st'.buckets == (st.buckets - {v})[t := 0.0][u := 0.0] && st'.unpaid == st.unpaid + 1
    ensures WithRoom(st'.threads) == WithRoom(st.threads)
  {
    hide Leads, WithRoom;
    var rest := st.buckets - {v};
    LaterStep(st, a, 0.0, rest, Inserting(t, Freed), st.unpaid, k);
    var s1 := Stepped(st, a, rest, Inserting(t, Freed), st.unpaid);
    assert rest - {v} == rest;
    LaterStep(s1, b, 0.0, rest, Inserting(u, Missed), s1.unpaid, k);
    var s2 := Stepped(s1, b, rest, Inserting(u, Missed), s1.unpaid);
    LaterStep(s2, a, 0.0, rest[t := 0.0], Done, s2.unpaid, k);
    var s3 := Stepped(s2, a, rest[t := 0.0], Done, s2.unpaid);
    LaterStep(s3, b, 0.0, rest[t := 0.0][u := 0.0], Done, s3.unpaid + 1, k);
    st' := Stepped(s3, b, rest[t := 0.0][u := 0.0], Done, s3.unpaid + 1);
  }

  /** The `j` threads from `base` on are about to insert a bucket each, for the tenants from `m` on. */
  predicate Waiting(st: State, m: TenantId, base: nat, j: nat) {
    && base + j <= |st.threads|
    && (forall p :: base <= p < base + j ==> st.threads[p] == Inserting(m + (p - base), Below))
    && forall t :: m <= t < m + j ==> t !in st.buckets
  }

  /** Below the cap any number of first touches scan before any of them inserts. */
  lemma {:induction false} Gather(st: State, m: TenantId, j: nat, k: nat) returns (st': State)
    requires Leads(START, st, k) && |st.buckets| < CAP && Unused(st, m) && WithRoom(st.threads) + j <= k
    ensures Leads(START, st', k) && st'.buckets == st.buckets && st'.unpaid == st.unpaid
    ensures WithRoom(st'.threads) == WithRoom(st.threads) + j
    ensures |st'.threads| == |st.threads| + j && Waiting(st', m, |st.threads|, j)
    decreases j
  {
    hide Leads, WithRoom;
    st' := st;
    if j > 0 {
      var before := Gather(st, m, j - 1, k);
      var who, t := |before.threads|, m + (j - 1);
      Arrives(before, t, k);
      var s1 := Arrived(before, t);
      FirstStep(s1, who, 0, Scanning(t), k);
      var s2 := Stepped(s1, who, s1.buckets, Scanning(t), s1.unpaid);
      FirstStep(s2, who, 0, Inserting(t, Below), k);
      st' := Stepped(s2, who, s2.buckets, Inserting(t, Below), s2.unpaid);
    }
  }

  /** They all insert. */
  lemma {:induction false} Release(st: State, m: TenantId, base: nat, j: nat, top: TenantId, k: nat) returns (st': State)
    requires Leads(START, st, k) && WithRoom(st.threads) <= k && Unused(st, top) && m + j <= top && Waiting(st, m, base, j)
    ensures Leads(START, st', k) && |st'.buckets| == |st.buckets| + j && st'.unpaid == st.unpaid
    ensures WithRoom(st'.threads) == WithRoom(st.threads) - j && Unused(st', top)
    decreases j
  {
    hide Leads, WithRoom;
    st' := st;
    if j > 0 {
      var t := m + (j - 1);
      assert st.threads[base + (j - 1)] == Inserting(t, Below);
      var s1 := InsertsAlone(st, base + (j - 1), 0.0, k);
      MintedOne(st.buckets, t);
      st' := Release(s1, m, base, j - 1, top, k);
    }
  }

  lemma ColdestExists(buckets: map<TenantId, real>) returns (v: TenantId)
    requires |buckets| > 0
    ensures Coldest(buckets, v)
  {
    var keys := ListOf(buckets.Keys);
    assert |buckets| == |buckets.Keys|;
    DistinctSize(keys);
    forall t ensures t in keys <==> t in buckets {
      assert t in keys <==> t in Elements(keys);
    }
    v := ColdestOf(buckets, keys);
  }

  lemma {:induction false} ColdestOf(buckets: map<TenantId, real>, keys: seq<TenantId>) returns (v: TenantId)
    requires keys != [] && forall t :: t in keys ==> t in buckets
    ensures v in keys && forall t :: t in keys ==> buckets[v] <= buckets[t]
    decreases |keys|
  {
    v := keys[0];
    if |keys| > 1 {
      var w := ColdestOf(buckets, keys[1..]);
      v := if buckets[keys[0]] <= buckets[w] then keys[0] else w;
      forall t | t in keys ensures buckets[v] <= buckets[t] {
        assert t == keys[0] || t in keys[1..];
      }
    }
  }

  /** First touches that run alone fill the token up to any number below the cap. */
  lemma {:induction false} Filled(size: nat, k: nat) returns (st: State)
    requires size < CAP && k >= 1
    ensures Leads(START, st, k) && |st.buckets| == size && Unused(st, size) && st.unpaid == 0 && WithRoom(st.threads) == 0
  {
    hide Leads;
    if size == 0 {
      st := START;
      NoSteps(k);
    } else {
      var before := Filled(size - 1, k);
      st := RunsAlone(before, size - 1, 0, 0.0, k);
      MintedOne(before.buckets, size - 1);
    }
  }

  lemma NoSteps(k: nat)
    ensures Leads(START, START, k)
  {
    assert Reaches(START, START, [], k);
  }

  /** One request too few below the cap, `k` of them scan and then insert. */
  lemma Crowded(k: nat) returns (st: State, m: TenantId)
    requires k >= 1
    ensures Leads(START, st, k) && |st.buckets| == CAP - 1 + k && Unused(st, m) && st.unpaid == 0 && WithRoom(st.threads) == 0
  {
    hide Leads, WithRoom;
    var full := Filled(CAP - 1, k);
    var waiting := Gather(full, CAP - 1, k, k);
    m := CAP - 1 + k;
    st := Release(waiting, CAP - 1, |full.threads|, k, m, k);
  }

  /**
   The soft cap is exact in both terms: for every `k` and every number of unpaid buckets
   it is reached. In particular the cap can be exceeded without limit, even when no two
   requests ever stand between finding room and inserting.
   */
  lemma {:induction false} CapIsTight(k: nat, unpaid: nat) returns (st: State, m: TenantId)
    requires k >= 1
    ensures Leads(START, st, k) && st.unpaid == unpaid && Unused(st, m) && WithRoom(st.threads) == 0
    ensures |st.buckets| == CAP - 1 + k + unpaid
    decreases unpaid
  {
    hide Leads, WithRoom;
    if unpaid == 0 {
      st, m := Crowded(k);
    } else {
      var before, next := CapIsTight(k, unpaid - 1);
      assert next !in before.buckets && next + 1 !in before.buckets;
      var v := ColdestExists(before.buckets);
      st := Overshoot(before, next, next + 1, v, k);
      MintedTwo(before.buckets, v, next, next + 1);
      m := next + 2;
    }
  }

  lemma MintedOne(b: map<TenantId, real>, t: TenantId)
    requires t !in b
    ensures |b[t := 0.0]| == |b| + 1
  {
    assert b[t := 0.0].Keys == b.Keys + {t};
    assert |b[t := 0.0]| == |b[t := 0.0].Keys| && |b| == |b.Keys|;
  }

  lemma MintedTwo(b: map<TenantId, real>, v: TenantId, t: TenantId, u: TenantId)
    requires v in b && t !in b && u !in b && t != u
    ensures |(b - {v})[t := 0.0][u := 0.0]| == |b| + 1
  {
    var rest := b - {v};
    assert rest.Keys == b.Keys - {v};
    assert |rest| == |rest.Keys| && |b| == |b.Keys|;
    MintedOne(rest, t);
    MintedOne(rest[t := 0.0], u);
  }

  // ------------------------------------------------------------------
  // Requests that do not overlap never bring the number back
  // ------------------------------------------------------------------

  /** A request that runs alone at or above the cap leaves the number of buckets as it is, whether its bucket is new or not. */
  lemma NoSelfCorrection(b: map<TenantId, real>, t: TenantId, v: TenantId, now: real)
    requires |b| >= CAP && Coldest(b, v)
    ensures |Alone(b, t, v, now)| == |b|
  {
    var b' := Alone(b, t, v, now);
    assert b'.Keys == if t in b then b.Keys else b.Keys - {v} + {t};
    assert |b'| == |b'.Keys| && |b| == |b.Keys|;
  }
}
