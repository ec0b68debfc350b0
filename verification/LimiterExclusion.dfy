/**
 What the limiter's locks protect: which locks an operation holds at which point of its
 trace and in which mode, and that in every interleaving a request decides while nobody
 else holds a bucket it decides on.
 */
module LimiterExclusion {
  import opened Options
  import opened RateLimit
  import opened LimiterLocks

  /** The locks held, with their mode, after a trace begun with `held`. */
  ghost function Holding(held: map<Lock, bool>, trace: seq<Action>): map<Lock, bool>
    decreases |trace|
  {
    if trace == [] then held
    else match trace[0]
      case Acquire(l, x) => Holding(held[l := x], trace[1..])
      case Release(l) => Holding(held - {l}, trace[1..])
  }

  /** Somewhere in the trace lock `m` is taken for writing, with exactly `around` held. */
  ghost predicate TakesWith(held: map<Lock, bool>, trace: seq<Action>, m: Lock, around: map<Lock, bool>) {
    exists k :: 0 <= k < |trace| && trace[k] == Acquire(m, true) && Holding(held, trace[..k]) == around
  }

  lemma {:induction false} HoldingConcat(held: map<Lock, bool>, a: seq<Action>, b: seq<Action>)
    ensures Holding(held, a + b) == Holding(Holding(held, a), b)
    decreases |a|
  {
    if a == [] {
      assert a + b == b;
    } else {
      assert (a + b)[0] == a[0] && (a + b)[1..] == a[1..] + b;
      HoldingConcat(if a[0].Acquire? then held[a[0].lock := a[0].exclusive] else held - {a[0].lock}, a[1..], b);
    }
  }

  lemma {:induction false} HoldingKeys(held: map<Lock, bool>, trace: seq<Action>)
    ensures Holding(held, trace).Keys == HeldAfter(held.Keys, trace)
    decreases |trace|
  {
    if trace != [] {
      var l := trace[0].lock;
      if trace[0].Acquire? {
        assert held[l := trace[0].exclusive].Keys == held.Keys + {l};
        HoldingKeys(held[l := trace[0].exclusive], trace[1..]);
      } else {
        assert (held - {l}).Keys == held.Keys - {l};
        HoldingKeys(held - {l}, trace[1..]);
      }
    }
  }

  lemma TakesEarlier(held: map<Lock, bool>, a: seq<Action>, b: seq<Action>, m: Lock, around: map<Lock, bool>)
    requires TakesWith(held, a, m, around)
    ensures TakesWith(held, a + b, m, around)
  {
    var k :| 0 <= k < |a| && a[k] == Acquire(m, true) && Holding(held, a[..k]) == around;
    assert (a + b)[..k] == a[..k] && (a + b)[k] == a[k];
  }

  lemma TakesLater(held: map<Lock, bool>, a: seq<Action>, b: seq<Action>, m: Lock, around: map<Lock, bool>)
    requires TakesWith(Holding(held, a), b, m, around)
    ensures TakesWith(held, a + b, m, around)
  {
    var k :| 0 <= k < |b| && b[k] == Acquire(m, true) && Holding(Holding(held, a), b[..k]) == around;
    assert (a + b)[..|a| + k] == a + b[..k] && (a + b)[|a| + k] == b[k];
    HoldingConcat(held, a, b[..k]);
  }

  // ------------------------------------------------------------------
  // Scans and sweeps read every bucket under its mutex
  // ------------------------------------------------------------------

  lemma PeekHolds(held: map<Lock, bool>, m: Lock)
    requires m !in held
    ensures Holding(held, Peek(m)) == held && TakesWith(held, Peek(m), m, held)
  {
    var t := Peek(m);
    assert t[1..] == [Release(m)] && t[1..][1..] == [] && t[..0] == [];
    assert held[m := true] - {m} == held;
    assert Holding(held[m := true], t[1..]) == Holding(held, []);
    assert Holding(held, t[..0]) == held;
  }

  lemma {:induction false} PeekAllHolds(held: map<Lock, bool>, ms: seq<Lock>)
    requires forall m :: m in ms ==> m !in held
    ensures Holding(held, PeekAll(ms)) == held
    ensures forall m :: m in ms ==> TakesWith(held, PeekAll(ms), m, held)
    decreases |ms|
  {
    if ms != [] {
      var first, rest := Peek(ms[0]), PeekAll(ms[1..]);
      assert ms[0] in ms;
      PeekHolds(held, ms[0]);
      PeekAllHolds(held, ms[1..]);
      HoldingConcat(held, first, rest);
      forall m | m in ms ensures TakesWith(held, first + rest, m, held) {
        if m == ms[0] {
          TakesEarlier(held, first, rest, m, held);
        } else {
          assert m in ms[1..];
          TakesLater(held, first, rest, m, held);
        }
      }
    }
  }

  lemma TakeOne(l: Lock, exclusive: bool)
    ensures Holding(map[], [Acquire(l, exclusive)]) == map[l := exclusive]
  {
    var none: map<Lock, bool> := map[];
    var t := [Acquire(l, exclusive)];
    assert none[l := exclusive] == map[l := exclusive] && t[1..] == [];
  }

  lemma DropOne(l: Lock, exclusive: bool)
    ensures Holding(map[l := exclusive], [Release(l)]) == map[]
  {
    var held, t := map[l := exclusive], [Release(l)];
    assert held - {l} == map[] && t[1..] == [];
  }

  /** One shard of a sweep, in front of the rest. */
  lemma ShardHolds(shard: Lock, ms: seq<Lock>, rest: seq<Action>)
    requires shard !in ms
    ensures var t := [Acquire(shard, true)] + PeekAll(ms) + [Release(shard)] + rest;
            && (forall m :: m in ms ==> TakesWith(map[], t, m, map[shard := true]))
            && (forall m, around :: TakesWith(map[], rest, m, around) ==> TakesWith(map[], t, m, around))
            && Holding(map[], t) == Holding(map[], rest)
  {
    var held := map[shard := true];
    var take, peeks, drop := [Acquire(shard, true)], PeekAll(ms), [Release(shard)];
    TakeOne(shard, true);
    DropOne(shard, true);
    PeekAllHolds(held, ms);
    HoldingConcat(map[], take, peeks);
    HoldingConcat(map[], take + peeks, drop);
    HoldingConcat(map[], take + peeks + drop, rest);
    forall m | m in ms ensures TakesWith(map[], take + peeks + drop + rest, m, held) {
      TakesLater(map[], take, peeks, m, held);
      TakesEarlier(map[], take + peeks, drop, m, held);
      TakesEarlier(map[], take + peeks + drop, rest, m, held);
    }
    forall m, around | TakesWith(map[], rest, m, around) ensures TakesWith(map[], take + peeks + drop + rest, m, around) {
      TakesLater(map[], take + peeks + drop, rest, m, around);
    }
  }

  lemma {:induction false} RetainTokensHolds(visits: seq<seq<TokenId>>, i: nat)
    requires i <= |visits|
    ensures Holding(map[], RetainTokens(visits, i)) == map[]
    ensures forall s, j :: i <= s < |visits| && 0 <= j < |visits[s]| ==>
              TakesWith(map[], RetainTokens(visits, i), TokenMutex(visits[s][j]), map[TokenShard(s) := true])
    decreases |visits| - i
  {
    if i < |visits| {
      RetainTokensHolds(visits, i + 1);
      var ms := TokenMutexes(visits[i]);
      ShardHolds(TokenShard(i), ms, RetainTokens(visits, i + 1));
      forall j | 0 <= j < |visits[i]| ensures TokenMutex(visits[i][j]) in ms {
        assert ms[j] == TokenMutex(visits[i][j]);
      }
    }
  }

  lemma {:induction false} RetainPairsHolds(visits: seq<seq<PairId>>, i: nat)
    requires i <= |visits|
    ensures Holding(map[], RetainPairs(visits, i)) == map[]
    ensures forall s, j :: i <= s < |visits| && 0 <= j < |visits[s]| ==>
              TakesWith(map[], RetainPairs(visits, i), PairMutex(visits[s][j]), map[PairShard(s) := true])
    decreases |visits| - i
  {
    if i < |visits| {
      RetainPairsHolds(visits, i + 1);
      var ms := Mutexes(visits[i]);
      ShardHolds(PairShard(i), ms, RetainPairs(visits, i + 1));
      forall j | 0 <= j < |visits[i]| ensures PairMutex(visits[i][j]) in ms {
        assert ms[j] == PairMutex(visits[i][j]);
      }
    }
  }

  /** A sweep looks at every bucket it visits under the bucket's own mutex, holding the bucket's shard for writing and nothing else. */
  lemma SweepTakesEveryBucket(tokens: seq<seq<TokenId>>, pairs: seq<seq<PairId>>)
    ensures forall s, j :: 0 <= s < |tokens| && 0 <= j < |tokens[s]| ==>
              TakesWith(map[], SweepIdle(tokens, pairs).Trace(), TokenMutex(tokens[s][j]), map[TokenShard(s) := true])
    ensures forall s, j :: 0 <= s < |pairs| && 0 <= j < |pairs[s]| ==>
              TakesWith(map[], SweepIdle(tokens, pairs).Trace(), PairMutex(pairs[s][j]), map[PairShard(s) := true])
  {
    hide Holding, TakesWith;
    var a, b := RetainTokens(tokens, 0), RetainPairs(pairs, 0);
    RetainTokensHolds(tokens, 0);
    RetainPairsHolds(pairs, 0);
    forall s, j | 0 <= s < |tokens| && 0 <= j < |tokens[s]|
      ensures TakesWith(map[], a + b, TokenMutex(tokens[s][j]), map[TokenShard(s) := true])
    {
      TakesEarlier(map[], a, b, TokenMutex(tokens[s][j]), map[TokenShard(s) := true]);
    }
    forall s, j | 0 <= s < |pairs| && 0 <= j < |pairs[s]|
      ensures TakesWith(map[], a + b, PairMutex(pairs[s][j]), map[PairShard(s) := true])
    {
      TakesLater(map[], a, b, PairMutex(pairs[s][j]), map[PairShard(s) := true]);
    }
  }

  lemma {:induction false} ScanHolds(i: nat, visits: seq<seq<PairId>>)
    requires i < |visits|
    ensures Holding(map[PairShard(i) := false], ScanFrom(i, visits)) == map[]
    ensures forall s, j :: i <= s < |visits| && 0 <= j < |visits[s]| ==>
              TakesWith(map[PairShard(i) := false], ScanFrom(i, visits), PairMutex(visits[s][j]), map[PairShard(s) := false])
    decreases |visits| - i
  {
    var held, ms := map[PairShard(i) := false], Mutexes(visits[i]);
    var peeks := PeekAll(ms);
    PeekAllHolds(held, ms);
    var tail;
    if i + 1 == |visits| {
      tail := [Release(PairShard(i))];
      DropOne(PairShard(i), false);
    } else {
      ScanHolds(i + 1, visits);
      var next, hop := map[PairShard(i + 1) := false], [Acquire(PairShard(i + 1), false), Release(PairShard(i))];
      HopHolds(i);
      HoldingConcat(held, hop, ScanFrom(i + 1, visits));
      tail := hop + ScanFrom(i + 1, visits);
      forall s, j | i + 1 <= s < |visits| && 0 <= j < |visits[s]|
        ensures TakesWith(held, tail, PairMutex(visits[s][j]), map[PairShard(s) := false])
      {
        TakesLater(held, hop, ScanFrom(i + 1, visits), PairMutex(visits[s][j]), map[PairShard(s) := false]);
      }
    }
    HoldingConcat(held, peeks, tail);
    forall s, j | i <= s < |visits| && 0 <= j < |visits[s]|
      ensures TakesWith(held, peeks + tail, PairMutex(visits[s][j]), map[PairShard(s) := false])
    {
      if s == i {
        assert ms[j] == PairMutex(visits[s][j]);
        TakesEarlier(held, peeks, tail, ms[j], held);
      } else {
        TakesLater(held, peeks, tail, PairMutex(visits[s][j]), map[PairShard(s) := false]);
      }
    }
    hide Holding, TakesWith, PeekAll;
  }

  /** The scan lets a shard go only after it has locked the next. */
  lemma HopHolds(i: nat)
    ensures Holding(map[PairShard(i) := false], [Acquire(PairShard(i + 1), false), Release(PairShard(i))]) == map[PairShard(i + 1) := false]
  {
    var held, next := map[PairShard(i) := false], PairShard(i + 1);
    var hop := [Acquire(next, false), Release(PairShard(i))];
    assert hop[1..] == [Release(PairShard(i))] && hop[1..][1..] == [];
    assert held[next := false] - {PairShard(i)} == map[next := false];
    assert Holding(held[next := false], hop[1..]) == Holding(map[next := false], []);
  }

  /** An eviction looks at every bucket of every shard under the bucket's mutex, holding its shard for reading and nothing else; it locks the victim's shard for writing, holding nothing. */
  lemma EvictionTakesEveryBucket(visits: seq<seq<PairId>>, victimShard: Option<nat>)
    requires visits != []
    ensures forall s, j :: 0 <= s < |visits| && 0 <= j < |visits[s]| ==>
              TakesWith(map[], Evict(visits, victimShard), PairMutex(visits[s][j]), map[PairShard(s) := false])
    ensures victimShard.Some? ==> TakesWith(map[], Evict(visits, victimShard), PairShard(victimShard.value), map[])
  {
    var take, scan := [Acquire(PairShard(0), false)], ScanFrom(0, visits);
    var tail := if victimShard.None? then [] else Brief(PairShard(victimShard.value), true);
    ScanHolds(0, visits);
    TakeOne(PairShard(0), false);
    HoldingConcat(map[], take, scan);
    forall s, j | 0 <= s < |visits| && 0 <= j < |visits[s]|
      ensures TakesWith(map[], take + scan + tail, PairMutex(visits[s][j]), map[PairShard(s) := false])
    {
      TakesLater(map[], take, scan, PairMutex(visits[s][j]), map[PairShard(s) := false]);
      TakesEarlier(map[], take + scan, tail, PairMutex(visits[s][j]), map[PairShard(s) := false]);
    }
    if victimShard.Some? {
      assert tail == Peek(PairShard(victimShard.value));
      PeekHolds(map[], PairShard(victimShard.value));
      TakesLater(map[], take + scan, tail, PairShard(victimShard.value), map[]);
    }
    hide Holding, TakesWith, PeekAll, ScanFrom;
  }

  /** A request first looks for its bucket with the shard locked for reading; if it evicts, it does so as above, before it takes any other lock. */
  lemma AdmissionProbesThenEvicts(op: Operation, shards: nat)
    requires shards > 0 && op.Valid(shards) && op.TryAdmit? && op.pair.Some?
    ensures |op.Trace()| >= 2 && op.Trace()[..2] == [Acquire(PairShard(op.pair.value.0), false), Release(PairShard(op.pair.value.0))]
    ensures op.evict.Some? ==>
              && (forall s, j :: 0 <= s < |op.evict.value.0| && 0 <= j < |op.evict.value.0[s]| ==>
                    TakesWith(map[], op.Trace(), PairMutex(op.evict.value.0[s][j]), map[PairShard(s) := false]))
              && (op.evict.value.1.Some? ==> TakesWith(map[], op.Trace(), PairShard(op.evict.value.1.value), map[]))
  {
    var probe := Brief(PairShard(op.pair.value.0), false);
    var critical := Critical(op.pair, op.token);
    BriefHolds(PairShard(op.pair.value.0));
    if op.evict.Some? {
      var visits, victim := op.evict.value.0, op.evict.value.1;
      var eviction := Evict(visits, victim);
      assert op.Trace() == probe + eviction + critical;
      EvictionTakesEveryBucket(visits, victim);
      hide *;
      forall s, j | 0 <= s < |visits| && 0 <= j < |visits[s]|
        ensures TakesWith(map[], probe + eviction + critical, PairMutex(visits[s][j]), map[PairShard(s) := false])
      {
        TakesLater(map[], probe, eviction, PairMutex(visits[s][j]), map[PairShard(s) := false]);
        TakesEarlier(map[], probe + eviction, critical, PairMutex(visits[s][j]), map[PairShard(s) := false]);
      }
      if victim.Some? {
        TakesLater(map[], probe, eviction, PairShard(victim.value), map[]);
        TakesEarlier(map[], probe + eviction, critical, PairShard(victim.value), map[]);
      }
    }
  }

  lemma BriefHolds(l: Lock)
    ensures Holding(map[], Brief(l, false)) == map[]
  {
    TakeOne(l, false);
    DropOne(l, false);
    HoldingConcat(map[], [Acquire(l, false)], [Release(l)]);
  }

  // ------------------------------------------------------------------
  // A request decides with both buckets locked
  // ------------------------------------------------------------------

  lemma {:induction false} TakesHold(held: map<Lock, bool>, ls: seq<Lock>)
    ensures Holding(held, Takes(ls)) == held + map l | l in ls :: true
    decreases |ls|
  {
    if ls == [] {
      assert held + (map l | l in ls :: true) == held;
    } else {
      var rest := ls[1..];
      assert Takes(ls)[0] == Acquire(ls[0], true) && Takes(ls)[1..] == Takes(rest);
      TakesHold(held[ls[0] := true], rest);
      assert held[ls[0] := true] + (map l | l in rest :: true) == held + map l | l in ls :: true;
    }
  }

  /** How many locks a request lets go after its decision: a shard and a mutex for each active layer. */
  function LocksOf(op: Operation): nat
    requires op.TryAdmit?
  {
    (if op.pair.Some? then 2 else 0) + if op.token.Some? then 2 else 0
  }

  /** `l` guards a bucket `op` decides on, or the map entry of one. */
  predicate Guards(op: Operation, l: Lock)
    requires op.TryAdmit?
  {
    || (op.pair.Some? && (l == PairShard(op.pair.value.0) || l == PairMutex(op.pair.value.1)))
    || (op.token.Some? && (l == TokenShard(op.token.value.0) || l == TokenMutex(op.token.value.1)))
  }

  lemma {:induction false} ReverseSize<T>(s: seq<T>)
    ensures |Reverse(s)| == |s|
  {
    if s != [] {
      ReverseSize(s[1..]);
    }
  }

  lemma NothingHeld(trace: seq<Action>)
    requires HeldAfter({}, trace) == {}
    ensures Holding(map[], trace) == map[]
  {
    var none: map<Lock, bool> := map[];
    assert none.Keys == {};
    HoldingKeys(none, trace);
    assert Holding(none, trace).Keys == {};
  }

  lemma CriticalGuards(op: Operation)
    requires op.TryAdmit?
    ensures var ls := CriticalLocks(op.pair, op.token);
            |ls| == LocksOf(op) && forall l :: l in ls <==> Guards(op, l)
  {
    var ls := CriticalLocks(op.pair, op.token);
    var p, q := if op.pair.Some? then 1 else 0, if op.token.Some? then 1 else 0;
    if op.pair.Some? {
      assert ls[0] == PairShard(op.pair.value.0) && ls[1 + q] == PairMutex(op.pair.value.1);
    }
    if op.token.Some? {
      assert ls[p] == TokenShard(op.token.value.0) && ls[2 * p + 1] == TokenMutex(op.token.value.1);
    }
  }

  /** With its last `LocksOf(op)` releases to go, a request holds what guards its buckets, all for writing, and nothing else. */
  lemma DecisionPoint(op: Operation, shards: nat)
    requires shards > 0 && op.Valid(shards) && op.TryAdmit?
    ensures LocksOf(op) <= |op.Trace()|
    ensures var held := Holding(map[], op.Trace()[..|op.Trace()| - LocksOf(op)]);
            && (forall l :: l in held <==> Guards(op, l)) && (forall l :: l in held ==> held[l])
  {
    hide Holding, Ordered, HeldAfter, Prologue, Reverse, CriticalLocks, Guards, LocksOf;
    var pre, ls := Prologue(op.pair, op.evict), CriticalLocks(op.pair, op.token);
    PrologueBalanced(op.pair, op.evict, shards);
    NothingHeld(pre);
    ReverseSize(ls);
    CriticalGuards(op);
    assert op.Trace() == pre + (Takes(ls) + Drops(Reverse(ls)));
    assert op.Trace()[..|pre| + |ls|] == pre + Takes(ls);
    HoldingConcat(map[], pre, Takes(ls));
    TakesHold(map[], ls);
  }

  // ------------------------------------------------------------------
  // Interleavings
  // ------------------------------------------------------------------

  /** A thread has done a part of the trace and holds what that part took. */
  ghost predicate OnTrace(th: Thread, trace: seq<Action>) {
    && |th.todo| <= |trace| && th.todo == trace[|trace| - |th.todo|..]
    && th.held == Holding(map[], trace[..|trace| - |th.todo|])
  }

  lemma PerformOnTrace(th: Thread, trace: seq<Action>)
    requires OnTrace(th, trace) && th.todo != []
    ensures OnTrace(Perform(th), trace)
  {
    var k := |trace| - |th.todo|;
    var a := trace[k];
    assert th.todo[0] == a && th.todo[1..] == trace[k + 1..];
    assert trace[..k + 1] == trace[..k] + [a];
    HoldingConcat(map[], trace[..k], [a]);
    assert [a][1..] == [];
  }

  /** Two threads hold the same lock only if both hold it for reading. */
  ghost predicate Exclusive(sys: System) {
    forall t, u, l :: 0 <= t < |sys| && 0 <= u < |sys| && t != u && l in sys[t].held && l in sys[u].held ==> !sys[t].held[l] && !sys[u].held[l]
  }

  lemma ExclusiveStep(sys: System, t: nat, sys': System)
    requires Exclusive(sys) && t < |sys| && StepOf(sys, t, sys')
    ensures Exclusive(sys')
  {
  }

  lemma {:induction false} ExclusiveAlways(ops: seq<Operation>, states: seq<System>, shards: nat)
    requires IsExecution(states) && Starts(ops, states[0], shards)
    ensures Exclusive(states[|states| - 1])
    decreases |states|
  {
    var n := |states|;
    if n > 1 {
      ExclusiveAlways(ops, states[..n - 1], shards);
      assert Step(states[n - 2], states[n - 2 + 1]);
      var t :| 0 <= t < |states[n - 2]| && StepOf(states[n - 2], t, states[n - 1]);
      ExclusiveStep(states[n - 2], t, states[n - 1]);
    }
    hide Exclusive, StepOf;
  }

  lemma {:induction false} OnTraceAlways(ops: seq<Operation>, states: seq<System>, shards: nat, u: nat)
    requires IsExecution(states) && Starts(ops, states[0], shards) && u < |ops|
    ensures |states[|states| - 1]| == |ops| && OnTrace(states[|states| - 1][u], ops[u].Trace())
    decreases |states|
  {
    hide Operation.Trace, OnTrace, StepOf;
    var n := |states|;
    if n == 1 {
      AtTheStart(states[0][u], ops[u].Trace());
    } else {
      OnTraceAlways(ops, states[..n - 1], shards, u);
      assert Step(states[n - 2], states[n - 2 + 1]);
      var t :| 0 <= t < |states[n - 2]| && StepOf(states[n - 2], t, states[n - 1]);
      OnTraceStep(states[n - 2], t, states[n - 1], u, ops[u].Trace());
    }
  }

  lemma AtTheStart(th: Thread, trace: seq<Action>)
    requires th.held == map[] && th.todo == trace
    ensures OnTrace(th, trace)
  {
    assert trace[0..] == trace && trace[..0] == [];
  }

  lemma OnTraceStep(sys: System, t: nat, sys': System, u: nat, trace: seq<Action>)
    requires t < |sys| && u < |sys| && StepOf(sys, t, sys') && OnTrace(sys[u], trace)
    ensures |sys'| == |sys| && OnTrace(sys'[u], trace)
  {
    hide OnTrace, Perform;
    if t == u {
      PerformOnTrace(sys[u], trace);
    }
  }

  lemma Alone(op: Operation, sys: System, t: nat)
    requires op.TryAdmit? && t < |sys| && Exclusive(sys)
    ensures (forall l :: l in sys[t].held <==> Guards(op, l)) && (forall l :: l in sys[t].held ==> sys[t].held[l]) ==>
              forall u, l :: 0 <= u < |sys| && u != t && Guards(op, l) ==> l !in sys[u].held
  {
    hide Guards;
  }

  /**
   Atomic admission. Let any number of threads run admissions and sweeps, interleaved step
   by step. In every state they reach, two threads share a lock only for reading; and a
   request that has its last releases left holds the shard and the mutex of every active
   layer for writing and nothing else, so nobody else holds any of them.
   */
  lemma DecidesAlone(ops: seq<Operation>, states: seq<System>, shards: nat, t: nat)
    requires shards > 0 && IsExecution(states) && Starts(ops, states[0], shards)
    requires t < |ops| && ops[t].TryAdmit?
    ensures var sys := states[|states| - 1];
            && |sys| == |ops| && Exclusive(sys)
            && (|sys[t].todo| == LocksOf(ops[t]) ==>
                  && (forall l :: l in sys[t].held <==> Guards(ops[t], l)) && (forall l :: l in sys[t].held ==> sys[t].held[l])
                  && (forall u, l :: 0 <= u < |sys| && u != t && Guards(ops[t], l) ==> l !in sys[u].held))
  {
    hide Holding, Guards, LocksOf, Step, Exclusive, Operation.Trace, Operation.Valid;
    ExclusiveAlways(ops, states, shards);
    OnTraceAlways(ops, states, shards, t);
    DecisionPoint(ops[t], shards);
    Alone(ops[t], states[|states| - 1], t);
  }
}
