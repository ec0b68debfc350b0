/**
 The locking protocol of the rate limiter: threads running admissions, evictions and
 idle sweeps take shard locks and bucket mutexes as separate steps. No reachable state
 is stuck, because every thread acquires in one rank order: per-tenant shards, token
 shards, per-tenant mutexes, token mutexes.
 */
module LimiterLocks {
  import opened Options
  import opened RateLimit

  /** `shards` is the number of shards of each concurrent map. */
  datatype Lock =
    | PairShard(index: nat)
    | TokenShard(index: nat)
    | PairMutex(pair: PairId)
    | TokenMutex(token: TokenId)
  {
    function Rank(shards: nat): nat {
      match this
      case PairShard(i) => i
      case TokenShard(i) => shards + i
      case PairMutex(_) => 2 * shards
      case TokenMutex(_) => 2 * shards + 1
    }

    predicate Exists(shards: nat) {
      (PairShard? || TokenShard?) ==> index < shards
    }
  }

  datatype Action = Acquire(lock: Lock, exclusive: bool) | Release(lock: Lock)

  // ------------------------------------------------------------------
  // What the operations do to locks
  // ------------------------------------------------------------------

  /** Reading one bucket under its mutex. */
  function Peek(m: Lock): seq<Action> {
    [Acquire(m, true), Release(m)]
  }

  function PeekAll(ms: seq<Lock>): seq<Action> {
    if ms == [] then [] else Peek(ms[0]) + PeekAll(ms[1..])
  }

  /** The eviction scan from shard `i` on, which is held: each shard is locked for reading before the previous one is let go. */
  function ScanFrom(i: nat, visits: seq<seq<PairId>>): seq<Action>
    requires i < |visits|
    decreases |visits| - i
  {
    PeekAll(Mutexes(visits[i])) +
    if i + 1 == |visits| then [Release(PairShard(i))]
    else [Acquire(PairShard(i + 1), false), Release(PairShard(i))] + ScanFrom(i + 1, visits)
  }

  function Mutexes(pairs: seq<PairId>): seq<Lock> {
    seq(|pairs|, i requires 0 <= i < |pairs| => PairMutex(pairs[i]))
  }

  /** The eviction: a scan of every shard, then the removal of the victim, if the token is at the cap. */
  function Evict(visits: seq<seq<PairId>>, victimShard: Option<nat>): seq<Action>
    requires visits != []
  {
    [Acquire(PairShard(0), false)] + ScanFrom(0, visits) +
    if victimShard.None? then [] else Brief(PairShard(victimShard.value), true)
  }

  function Brief(l: Lock, exclusive: bool): seq<Action> {
    [Acquire(l, exclusive), Release(l)]
  }

  /** The locks of the critical section: the active layers' shards, then their mutexes. */
  function CriticalLocks(pair: Option<(nat, PairId)>, token: Option<(nat, TokenId)>): seq<Lock> {
    (if pair.Some? then [PairShard(pair.value.0)] else []) +
    (if token.Some? then [TokenShard(token.value.0)] else []) +
    (if pair.Some? then [PairMutex(pair.value.1)] else []) +
    (if token.Some? then [TokenMutex(token.value.1)] else [])
  }

  /** The critical section lets its locks go in the opposite order. */
  function Critical(pair: Option<(nat, PairId)>, token: Option<(nat, TokenId)>): seq<Action> {
    var ls := CriticalLocks(pair, token);
    Takes(ls) + Drops(Reverse(ls))
  }

  function Reverse<T>(s: seq<T>): seq<T> {
    if s == [] then [] else Reverse(s[1..]) + [s[0]]
  }

  function Takes(ls: seq<Lock>): seq<Action> {
    seq(|ls|, i requires 0 <= i < |ls| => Acquire(ls[i], true))
  }

  function Drops(ls: seq<Lock>): seq<Action> {
    seq(|ls|, i requires 0 <= i < |ls| => Release(ls[i]))
  }

  datatype Operation =
    // An admission; the probe and the eviction happen only when the per-tenant layer is active.
    | TryAdmit(pair: Option<(nat, PairId)>, evict: Option<(seq<seq<PairId>>, Option<nat>)>, token: Option<(nat, TokenId)>)
    // A sweep: what it visits in each token shard, then in each per-tenant shard.
    | SweepIdle(tokens: seq<seq<TokenId>>, pairs: seq<seq<PairId>>)
  {
    ghost predicate Valid(shards: nat) {
      match this
      case TryAdmit(pair, evict, token) =>
        && (pair.Some? ==> pair.value.0 < shards)
        && (token.Some? ==> token.value.0 < shards)
        && (evict.Some? ==> pair.Some? && |evict.value.0| == shards)
        && (evict.Some? && evict.value.1.Some? ==> evict.value.1.value < shards)
      case SweepIdle(ts, ps) => |ts| == shards && |ps| == shards
    }

    ghost function Trace(): seq<Action>
      requires TryAdmit? && evict.Some? ==> evict.value.0 != []
    {
      match this
      case TryAdmit(pair, evict, token) => Prologue(pair, evict) + Critical(pair, token)
      case SweepIdle(ts, ps) => RetainTokens(ts, 0) + RetainPairs(ps, 0)
    }
  }

  /** Before the critical section: the probe for the bucket, and the eviction if there is none. */
  function Prologue(pair: Option<(nat, PairId)>, evict: Option<(seq<seq<PairId>>, Option<nat>)>): seq<Action>
    requires evict.Some? ==> evict.value.0 != []
  {
    (if pair.Some? then Brief(PairShard(pair.value.0), false) else []) +
    (if evict.Some? then Evict(evict.value.0, evict.value.1) else [])
  }

  /** A sweep of the token map: shard by shard, each locked for writing while its buckets are peeked at. */
  function RetainTokens(visits: seq<seq<TokenId>>, i: nat): seq<Action>
    requires i <= |visits|
    decreases |visits| - i
  {
    if i == |visits| then []
    else [Acquire(TokenShard(i), true)] + PeekAll(TokenMutexes(visits[i])) + [Release(TokenShard(i))] + RetainTokens(visits, i + 1)
  }

  function TokenMutexes(tokens: seq<TokenId>): seq<Lock> {
    seq(|tokens|, i requires 0 <= i < |tokens| => TokenMutex(tokens[i]))
  }

  function RetainPairs(visits: seq<seq<PairId>>, i: nat): seq<Action>
    requires i <= |visits|
    decreases |visits| - i
  {
    if i == |visits| then []
    else [Acquire(PairShard(i), true)] + PeekAll(Mutexes(visits[i])) + [Release(PairShard(i))] + RetainPairs(visits, i + 1)
  }

  // ------------------------------------------------------------------
  // The rank order
  // ------------------------------------------------------------------

  function Above(held: set<Lock>, l: Lock, shards: nat): bool {
    l.Exists(shards) && forall h :: h in held ==> h.Rank(shards) < l.Rank(shards)
  }

  /** Starting with `held`, every acquisition of the trace is above all locks held at that moment. */
  ghost predicate Ordered(held: set<Lock>, trace: seq<Action>, shards: nat)
    decreases |trace|
  {
    trace != [] ==>
      match trace[0]
      case Acquire(l, _) => Above(held, l, shards) && Ordered(held + {l}, trace[1..], shards)
      case Release(l) => l in held && Ordered(held - {l}, trace[1..], shards)
  }

  ghost function HeldAfter(held: set<Lock>, trace: seq<Action>): set<Lock>
    decreases |trace|
  {
    if trace == [] then held
    else match trace[0]
      case Acquire(l, _) => HeldAfter(held + {l}, trace[1..])
      case Release(l) => HeldAfter(held - {l}, trace[1..])
  }

  /** A trace that keeps the order and gives back everything beyond `held`. */
  ghost predicate Balanced(held: set<Lock>, trace: seq<Action>, shards: nat) {
    Ordered(held, trace, shards) && HeldAfter(held, trace) == held
  }

  lemma {:induction false} OrderedConcat(held: set<Lock>, a: seq<Action>, b: seq<Action>, shards: nat)
    requires Ordered(held, a, shards) && Ordered(HeldAfter(held, a), b, shards)
    ensures Ordered(held, a + b, shards) && HeldAfter(held, a + b) == HeldAfter(HeldAfter(held, a), b)
    decreases |a|
  {
    if a == [] {
      assert a + b == b;
    } else {
      assert (a + b)[0] == a[0] && (a + b)[1..] == a[1..] + b;
      OrderedConcat(if a[0].Acquire? then held + {a[0].lock} else held - {a[0].lock}, a[1..], b, shards);
    }
  }

  lemma BriefBalanced(held: set<Lock>, l: Lock, exclusive: bool, shards: nat)
    requires Above(held, l, shards)
    ensures Balanced(held, Brief(l, exclusive), shards)
  {
    var t := Brief(l, exclusive);
    assert t[1..] == [Release(l)] && [Release(l)][1..] == [];
    assert held + {l} - {l} == held;
    assert Ordered(held, [], shards);
    assert Ordered(held + {l}, [Release(l)], shards);
    assert HeldAfter(held + {l}, [Release(l)]) == HeldAfter(held, []);
  }

  lemma {:induction false} PeekAllBalanced(held: set<Lock>, ms: seq<Lock>, shards: nat)
    requires forall m :: m in ms ==> Above(held, m, shards)
    ensures Balanced(held, PeekAll(ms), shards)
    decreases |ms|
  {
    if ms != [] {
      assert ms[0] in ms;
      BriefBalanced(held, ms[0], true, shards);
      assert Peek(ms[0]) == Brief(ms[0], true);
      PeekAllBalanced(held, ms[1..], shards);
      OrderedConcat(held, Peek(ms[0]), PeekAll(ms[1..]), shards);
    }
  }

  lemma {:induction false} ScanBalanced(i: nat, visits: seq<seq<PairId>>)
    requires i < |visits|
    ensures Ordered({PairShard(i)}, ScanFrom(i, visits), |visits|)
    ensures HeldAfter({PairShard(i)}, ScanFrom(i, visits)) == {}
    decreases |visits| - i
  {
    var held, n := {PairShard(i)}, |visits|;
    PeekAllBalanced(held, Mutexes(visits[i]), n);
    var tail;
    if i + 1 == n {
      tail := [Release(PairShard(i))];
      assert tail[1..] == [] && held - {PairShard(i)} == {};
    } else {
      ScanBalanced(i + 1, visits);
      var next, rest := PairShard(i + 1), ScanFrom(i + 1, visits);
      var hop := [Acquire(next, false), Release(PairShard(i))];
      assert hop[1..] == [Release(PairShard(i))] && hop[1..][1..] == [];
      assert held + {next} - {PairShard(i)} == {next};
      assert Ordered({next}, [], n) && Ordered(held + {next}, hop[1..], n);
      assert HeldAfter(held + {next}, hop[1..]) == HeldAfter({next}, []);
      OrderedConcat(held, hop, rest, n);
      tail := hop + rest;
    }
    OrderedConcat(held, PeekAll(Mutexes(visits[i])), tail, n);
  }

  /** One acquisition in front of a trace that gives it back. */
  lemma OrderedAcquire(held: set<Lock>, l: Lock, exclusive: bool, rest: seq<Action>, shards: nat)
    requires Above(held, l, shards) && Ordered(held + {l}, rest, shards)
    ensures Ordered(held, [Acquire(l, exclusive)] + rest, shards)
    ensures HeldAfter(held, [Acquire(l, exclusive)] + rest) == HeldAfter(held + {l}, rest)
  {
    assert ([Acquire(l, exclusive)] + rest)[1..] == rest;
  }

  lemma OrderedRelease(held: set<Lock>, l: Lock, rest: seq<Action>, shards: nat)
    requires l in held && Ordered(held - {l}, rest, shards)
    ensures Ordered(held, [Release(l)] + rest, shards)
    ensures HeldAfter(held, [Release(l)] + rest) == HeldAfter(held - {l}, rest)
  {
    assert ([Release(l)] + rest)[1..] == rest;
  }

  lemma EvictBalanced(visits: seq<seq<PairId>>, victimShard: Option<nat>)
    requires visits != [] && (victimShard.Some? ==> victimShard.value < |visits|)
    ensures Balanced({}, Evict(visits, victimShard), |visits|)
  {
    var n := |visits|;
    ScanBalanced(0, visits);
    var scan := [Acquire(PairShard(0), false)] + ScanFrom(0, visits);
    assert {} + {PairShard(0)} == {PairShard(0)};
    OrderedAcquire({}, PairShard(0), false, ScanFrom(0, visits), n);
    var tail := if victimShard.None? then [] else Brief(PairShard(victimShard.value), true);
    if victimShard.Some? {
      BriefBalanced({}, PairShard(victimShard.value), true, n);
    }
    OrderedConcat({}, scan, tail, n);
  }

  lemma {:induction false} RetainPairsBalanced(visits: seq<seq<PairId>>, i: nat)
    requires i <= |visits|
    ensures Balanced({}, RetainPairs(visits, i), |visits|)
    decreases |visits| - i
  {
    if i < |visits| {
      RetainPairsBalanced(visits, i + 1);
      ShardBalanced(PairShard(i), Mutexes(visits[i]), RetainPairs(visits, i + 1), |visits|);
    }
  }

  lemma {:induction false} RetainTokensBalanced(visits: seq<seq<TokenId>>, i: nat)
    requires i <= |visits|
    ensures Balanced({}, RetainTokens(visits, i), |visits|)
    decreases |visits| - i
  {
    if i < |visits| {
      RetainTokensBalanced(visits, i + 1);
      ShardBalanced(TokenShard(i), TokenMutexes(visits[i]), RetainTokens(visits, i + 1), |visits|);
    }
  }

  lemma ShardBalanced(shard: Lock, ms: seq<Lock>, rest: seq<Action>, n: nat)
    requires shard.Exists(n) && (forall m :: m in ms ==> Above({shard}, m, n)) && Balanced({}, rest, n)
    ensures Balanced({}, [Acquire(shard, true)] + PeekAll(ms) + [Release(shard)] + rest, n)
  {
    var held := {shard};
    PeekAllBalanced(held, ms, n);
    assert held - {shard} == {} && {} + {shard} == held;
    OrderedRelease(held, shard, rest, n);
    OrderedConcat(held, PeekAll(ms), [Release(shard)] + rest, n);
    OrderedAcquire({}, shard, true, PeekAll(ms) + ([Release(shard)] + rest), n);
    assert [Acquire(shard, true)] + PeekAll(ms) + [Release(shard)] + rest
        == [Acquire(shard, true)] + (PeekAll(ms) + ([Release(shard)] + rest));
  }

  // ------------------------------------------------------------------
  // The critical section
  // ------------------------------------------------------------------

  ghost predicate Ascending(ls: seq<Lock>, shards: nat) {
    && (forall l :: l in ls ==> l.Exists(shards))
    && forall i, j :: 0 <= i < j < |ls| ==> ls[i].Rank(shards) < ls[j].Rank(shards)
  }

  /** Taking locks in ascending order and dropping them in the opposite order keeps the rank order. */
  lemma {:induction false} NestedBalanced(held: set<Lock>, ls: seq<Lock>, shards: nat)
    requires Ascending(ls, shards) && (ls != [] ==> Above(held, ls[0], shards))
    ensures Balanced(held, Takes(ls) + Drops(Reverse(ls)), shards)
    decreases |ls|
  {
    if ls != [] {
      var l, rest := ls[0], ls[1..];
      assert ls[0] in ls;
      if rest != [] {
        assert ls[1] in ls && rest[0] == ls[1];
        assert Above(held + {l}, rest[0], shards);
      }
      NestedBalanced(held + {l}, rest, shards);
      var inner := Takes(rest) + Drops(Reverse(rest));
      assert l !in held;
      assert held + {l} - {l} == held;
      assert [Release(l)][1..] == [] && Ordered(held + {l}, [Release(l)], shards);
      OrderedConcat(held + {l}, inner, [Release(l)], shards);
      OrderedAcquire(held, l, true, inner + [Release(l)], shards);
      assert Takes(ls) == [Acquire(l, true)] + Takes(rest);
      assert Drops(Reverse(ls)) == Drops(Reverse(rest)) + [Release(l)];
      assert Takes(ls) + Drops(Reverse(ls)) == [Acquire(l, true)] + (inner + [Release(l)]);
      assert HeldAfter(held, []) == held;
    } else {
      assert Takes(ls) + Drops(Reverse(ls)) == [];
    }
  }

  lemma CriticalBalanced(pair: Option<(nat, PairId)>, token: Option<(nat, TokenId)>, shards: nat)
    requires (pair.Some? ==> pair.value.0 < shards) && (token.Some? ==> token.value.0 < shards)
    ensures Balanced({}, Critical(pair, token), shards)
  {
    NestedBalanced({}, CriticalLocks(pair, token), shards);
  }

  lemma PrologueBalanced(pair: Option<(nat, PairId)>, evict: Option<(seq<seq<PairId>>, Option<nat>)>, shards: nat)
    requires shards > 0 && TryAdmit(pair, evict, None).Valid(shards)
    ensures Balanced({}, Prologue(pair, evict), shards)
  {
    var probe := if pair.Some? then Brief(PairShard(pair.value.0), false) else [];
    var eviction := if evict.Some? then Evict(evict.value.0, evict.value.1) else [];
    if pair.Some? {
      BriefBalanced({}, PairShard(pair.value.0), false, shards);
    }
    if evict.Some? {
      EvictBalanced(evict.value.0, evict.value.1);
    }
    OrderedConcat({}, probe, eviction, shards);
  }

  /** Every operation of the limiter, whatever it visits, acquires in rank order and ends holding nothing. */
  lemma OperationBalanced(op: Operation, shards: nat)
    requires shards > 0 && op.Valid(shards)
    ensures Balanced({}, op.Trace(), shards)
  {
    match op
    case TryAdmit(pair, evict, token) =>
      PrologueBalanced(pair, evict, shards);
      CriticalBalanced(pair, token, shards);
      OrderedConcat({}, Prologue(pair, evict), Critical(pair, token), shards);
    case SweepIdle(ts, ps) =>
      RetainTokensBalanced(ts, 0);
      RetainPairsBalanced(ps, 0);
      OrderedConcat({}, RetainTokens(ts, 0), RetainPairs(ps, 0), shards);
  }

  // ------------------------------------------------------------------
  // The interleaved system
  // ------------------------------------------------------------------

  /** A thread: the locks it holds, with their mode, and the rest of its trace. */
  datatype Thread = Thread(held: map<Lock, bool>, todo: seq<Action>)

  type System = seq<Thread>

  predicate Free(sys: System, l: Lock) {
    forall t :: 0 <= t < |sys| ==> l !in sys[t].held
  }

  /** Readers may share a lock; a writer excludes everybody. */
  predicate Grants(sys: System, a: Action) {
    a.Acquire? ==> forall t :: 0 <= t < |sys| && a.lock in sys[t].held ==> !a.exclusive && !sys[t].held[a.lock]
  }

  function Perform(th: Thread): Thread
    requires th.todo != []
  {
    match th.todo[0]
    case Acquire(l, x) => Thread(th.held[l := x], th.todo[1..])
    case Release(l) => Thread(th.held - {l}, th.todo[1..])
  }

  ghost predicate Step(sys: System, sys': System) {
    exists t :: 0 <= t < |sys| && StepOf(sys, t, sys')
  }

  ghost predicate StepOf(sys: System, t: nat, sys': System)
    requires t < |sys|
  {
    sys[t].todo != [] && Grants(sys, sys[t].todo[0]) && sys' == sys[t := Perform(sys[t])]
  }

  ghost predicate Starts(ops: seq<Operation>, sys: System, shards: nat) {
    && |sys| == |ops|
    && (forall t :: 0 <= t < |ops| ==> ops[t].Valid(shards))
    && forall t :: 0 <= t < |ops| ==> sys[t].held == map[] && sys[t].todo == ops[t].Trace()
  }

  ghost predicate IsExecution(states: seq<System>) {
    states != [] && forall i :: 0 <= i < |states| - 1 ==> Step(states[i], states[i + 1])
  }

  // ------------------------------------------------------------------
  // The invariant and progress
  // ------------------------------------------------------------------

  ghost predicate Disciplined(th: Thread, shards: nat) {
    Ordered(th.held.Keys, th.todo, shards) && HeldAfter(th.held.Keys, th.todo) == {}
  }

  ghost predicate Inv(sys: System, shards: nat) {
    forall t :: 0 <= t < |sys| ==> Disciplined(sys[t], shards)
  }

  lemma PerformDisciplined(th: Thread, shards: nat)
    requires th.todo != [] && Disciplined(th, shards)
    ensures Disciplined(Perform(th), shards)
  {
    var l := th.todo[0].lock;
    if th.todo[0].Acquire? {
      assert th.held[l := th.todo[0].exclusive].Keys == th.held.Keys + {l};
    } else {
      assert (th.held - {l}).Keys == th.held.Keys - {l};
    }
  }

  lemma {:induction false} InvHolds(ops: seq<Operation>, states: seq<System>, shards: nat)
    requires shards > 0 && IsExecution(states) && Starts(ops, states[0], shards)
    ensures Inv(states[|states| - 1], shards)
    decreases |states|
  {
    var n := |states|;
    if n == 1 {
      forall t | 0 <= t < |ops| ensures Disciplined(states[0][t], shards) {
        OperationBalanced(ops[t], shards);
        assert states[0][t].held.Keys == {};
      }
    } else {
      InvHolds(ops, states[..n - 1], shards);
      var before, after := states[n - 2], states[n - 1];
      assert Step(states[n - 2], states[n - 2 + 1]);
      var t :| 0 <= t < |before| && StepOf(before, t, after);
      PerformDisciplined(before[t], shards);
    }
  }

  /** Thread `t` can move under any lock fairness: it releases, or what it wants is held by nobody. */
  predicate CanMove(sys: System, t: nat)
    requires t < |sys|
  {
    sys[t].todo != [] && (sys[t].todo[0].Release? || Free(sys, sys[t].todo[0].lock))
  }

  /** Following a blocked thread to the holder of what it wants, and on, climbs the ranks and ends at a thread that can move. */
  lemma {:induction false} ClimbToMover(sys: System, t: nat, shards: nat) returns (m: nat)
    requires Inv(sys, shards) && t < |sys| && sys[t].todo != []
    ensures m < |sys| && CanMove(sys, m)
    decreases if sys[t].todo[0].Release? then 0 else 2 * shards + 2 - sys[t].todo[0].lock.Rank(shards)
  {
    assert Disciplined(sys[t], shards);
    if CanMove(sys, t) {
      m := t;
    } else {
      var l := sys[t].todo[0].lock;
      var h :| 0 <= h < |sys| && l in sys[h].held;
      assert Disciplined(sys[h], shards);
      m := ClimbToMover(sys, h, shards);
    }
  }

  /**
   Deadlock freedom. Let any number of threads run any admissions (with or without an
   eviction) and sweeps, interleaved step by step. In every state they reach, either
   all of them are finished and hold nothing, or some thread can move, whatever policy
   the locks use to choose between readers and writers.
   */
  lemma NeverStuck(ops: seq<Operation>, states: seq<System>, shards: nat)
    requires shards > 0 && IsExecution(states) && Starts(ops, states[0], shards)
    ensures var sys := states[|states| - 1];
            || (forall t :: 0 <= t < |sys| ==> sys[t].todo == [] && sys[t].held == map[])
            || (exists t :: 0 <= t < |sys| && CanMove(sys, t))
  {
    var sys := states[|states| - 1];
    InvHolds(ops, states, shards);
    if t :| 0 <= t < |sys| && sys[t].todo != [] {
      var m := ClimbToMover(sys, t, shards);
    } else {
      forall t | 0 <= t < |sys| ensures sys[t].todo == [] && sys[t].held == map[] {
        assert Disciplined(sys[t], shards);
        assert sys[t].held.Keys == {};
      }
    }
  }

  function Remaining(sys: System): nat {
    if sys == [] then 0 else |sys[0].todo| + Remaining(sys[1..])
  }

  lemma {:induction false} RemainingUpdate(sys: System, t: nat, th: Thread)
    requires t < |sys|
    ensures Remaining(sys[t := th]) == Remaining(sys) - |sys[t].todo| + |th.todo|
  {
    var sys' := sys[t := th];
    if t == 0 {
      assert sys'[1..] == sys[1..];
    } else {
      assert sys'[1..] == sys[1..][t - 1 := th];
      RemainingUpdate(sys[1..], t - 1, th);
    }
  }

  /** A thread that can move has a step, and every step brings the system closer to the end. */
  lemma EveryStepCounts(sys: System, t: nat)
    requires t < |sys|
    ensures CanMove(sys, t) ==> Step(sys, sys[t := Perform(sys[t])])
    ensures sys[t].todo != [] ==> Remaining(sys[t := Perform(sys[t])]) == Remaining(sys) - 1
  {
    if sys[t].todo != [] {
      RemainingUpdate(sys, t, Perform(sys[t]));
    }
    if CanMove(sys, t) {
      assert StepOf(sys, t, sys[t := Perform(sys[t])]);
    }
  }
}
