/**
 Garbage collection as a whole. Both stages remove by hash, active key first, so a hash
 that sits under two accepted keys can lose the wrong copy. Proved here: what every run
 does, and the exact condition on the directory it starts from under which every run
 removes precisely the right files and ends within the budget.
 */
module StoreGcRun {
  import opened Options
  import opened Sorting
  import opened Envelope
  import opened BlobNames
  import opened ArtifactStore
  import opened StoreGc
  import opened StoreGcSize

  datatype GcOutcome = GcOutcome(removedByAge: nat, removedBySize: nat, bytesAfter: nat)

  /** `victims` lists what the age stage is asked to remove; without a cutoff, nothing. */
  ghost predicate AreVictims(c: Codec, keys: seq<Bytes>, dir: Dir, cutoff: Option<int>, victims: seq<Blob>) {
    Distinct(victims) && forall b :: b in victims <==> cutoff.Some? && IsVictim(c, keys, dir, cutoff.value, b)
  }

  /**
   What a run does, whatever the directory holds: it removes once by hash for every
   victim, lists what is then visible from old to new, removes once by hash for each of
   the least number of blobs whose rest fits, and reports the footprint of what is left.
   */
  ghost predicate GcRun(c: Codec, keys: seq<Bytes>, dir: Dir, cutoff: Option<int>, budget: Option<nat>,
                        victims: seq<Blob>, order: seq<Blob>, dir': Dir, out: GcOutcome)
  {
    var mid := RemoveEach(c, keys, dir, HashesOf(victims));
    && AreVictims(c, keys, dir, cutoff, victims) && out.removedByAge == |victims|
    && OldToNew(c, keys, mid, [], order) && LeastFit(mid, order, out.removedBySize, budget)
    && dir' == RemoveEach(c, keys, mid, HashesOf(order[..out.removedBySize]))
    && Reports(c, keys, dir', out.bytesAfter)
  }

  /** `total` is the footprint of the visible blobs, in whatever order they are listed. */
  ghost predicate Reports(c: Codec, keys: seq<Bytes>, dir: Dir, total: nat) {
    forall bs :: Enumerates(c, keys, dir, bs) ==> total == Footprint(dir, bs)
  }

  /**
   A correct collection: of the survivors of the age stage, from old to new, the least
   prefix whose rest fits was evicted; of all files of accepted keys exactly the victims
   and that prefix are gone; the footprint of the rest is the one reported.
   */
  ghost predicate Collected(c: Codec, keys: seq<Bytes>, dir: Dir, dir': Dir, victims: seq<Blob>, budget: Option<nat>, out: GcOutcome, order: seq<Blob>)
  {
    var n := out.removedBySize;
    && OldToNew(c, keys, dir, victims, order) && LeastFit(dir, order, n, budget)
    && RemovedExactly(c, keys, dir, dir', victims + order[..n])
    && out.bytesAfter == Footprint(dir, order[n..])
  }

  // ------------------------------------------------------------------
  // Exact stages
  // ------------------------------------------------------------------

  ghost predicate SameFiles(small: Dir, big: Dir) {
    forall name :: name in small ==> name in big && small[name] == big[name]
  }

  /** An exact stage leaves exactly the other visible blobs. */
  lemma ExactlyVisible(c: Codec, keys: seq<Bytes>, dir: Dir, dir': Dir, gone: seq<Blob>)
    requires RemovedExactly(c, keys, dir, dir', gone) && SameFiles(dir', dir)
    ensures forall b :: IsVisible(c, keys, dir', b) <==> IsVisible(c, keys, dir, b) && b !in gone
  {
    hide BlobName, Accepted;
  }

  /** If both stages together are exact and the second one scanned exactly the survivors, each stage is exact. */
  lemma ExactApart(c: Codec, keys: seq<Bytes>, dir: Dir, mid: Dir, end: Dir, victims: seq<Blob>, order: seq<Blob>, n: nat)
    requires n <= |order| && SameFiles(mid, dir) && SameFiles(end, mid)
    requires forall b :: b in victims ==> IsVisible(c, keys, dir, b)
    requires forall b :: b in order <==> IsVisible(c, keys, mid, b)
    requires forall b :: b in order <==> IsVisible(c, keys, dir, b) && b !in victims
    requires RemovedExactly(c, keys, dir, end, victims + order[..n])
    ensures RemovedExactly(c, keys, dir, mid, victims) && RemovedExactly(c, keys, mid, end, order[..n])
  {
    var evicted := order[..n];
    forall b | b in evicted ensures b in order {}
    hide BlobName, Accepted;
  }

  lemma SameAges(c: Codec, keys: seq<Bytes>, dir: Dir, mid: Dir, order: seq<Blob>)
    requires Enumerates(c, keys, mid, order) && SameFiles(mid, dir)
    ensures SortedBy(order, AgeIn(mid)) <==> SortedBy(order, AgeIn(dir))
    ensures forall b :: b in order ==> LengthIn(mid, b) == LengthIn(dir, b)
  {
    hide BlobName, Fp;
    forall i | 0 <= i < |order| ensures AgeIn(mid)(order[i]) == AgeIn(dir)(order[i]) {
      assert order[i] in order;
    }
  }

  /** A suffix of an enumeration keeps its footprint in a smaller directory with the same files. */
  lemma SuffixFootprint(mid: Dir, dir: Dir, order: seq<Blob>, n: nat)
    requires n <= |order| && forall b :: b in order ==> LengthIn(mid, b) == LengthIn(dir, b)
    ensures Footprint(mid, order[n..]) == Footprint(dir, order[n..])
  {
    hide LengthIn;
    FootprintAgrees(mid, dir, order[n..]);
  }

  /** The footprint reported at the end is that of what is left. */
  lemma ReportedFootprint(c: Codec, keys: seq<Bytes>, end: Dir, mid: Dir, scan: seq<Blob>, left: seq<Blob>)
    requires Enumerates(c, keys, end, scan) && Enumerates(c, keys, end, left)
    requires SameFiles(end, mid)
    ensures Footprint(end, scan) == Footprint(mid, left)
  {
    assert Elements(scan) == Elements(left);
    SameFootprint(end, scan, left);
    SameAges(c, keys, mid, end, left);
    FootprintAgrees(end, mid, left);
    hide Footprint, LengthIn, IsVisible;
  }

  lemma SameFit(mid: Dir, dir: Dir, order: seq<Blob>, n: nat, budget: Option<nat>)
    requires forall b :: b in order ==> LengthIn(mid, b) == LengthIn(dir, b)
    ensures LeastFit(mid, order, n, budget) <==> LeastFit(dir, order, n, budget)
  {
    hide LengthIn;
    forall m | 0 <= m <= |order| ensures Footprint(mid, order[m..]) == Footprint(dir, order[m..]) {
      SuffixFootprint(mid, dir, order, m);
    }
  }

  /** A sequence without repetition splits into two that share nothing. */
  lemma DistinctParts(bs: seq<Blob>, n: nat)
    requires Distinct(bs) && n <= |bs|
    ensures Distinct(bs[..n]) && Distinct(bs[n..])
    ensures forall b :: b in bs[n..] <==> b in bs && b !in bs[..n]
    ensures forall b :: b in bs[..n] ==> b in bs
  {
    assert bs == bs[..n] + bs[n..];
  }

  lemma {:induction false} EachAppend(c: Codec, keys: seq<Bytes>, dir: Dir, a: seq<Bytes>, b: seq<Bytes>)
    ensures RemoveEach(c, keys, dir, a + b) == RemoveEach(c, keys, RemoveEach(c, keys, dir, a), b)
    decreases |b|
  {
    hide RemoveFrom;
    if b == [] {
      assert a + b == a;
    } else {
      var n := |b| - 1;
      assert (a + b)[..|a + b| - 1] == a + b[..n] && (a + b)[|a + b| - 1] == b[n];
      EachAppend(c, keys, dir, a, b[..n]);
    }
  }

  /** Both stages together are one list of removals. */
  lemma BothStages(c: Codec, keys: seq<Bytes>, dir: Dir, victims: seq<Blob>, evicted: seq<Blob>)
    ensures RemoveEach(c, keys, dir, HashesOf(victims + evicted))
            == RemoveEach(c, keys, RemoveEach(c, keys, dir, HashesOf(victims)), HashesOf(evicted))
  {
    hide RemoveEach;
    assert HashesOf(victims + evicted) == HashesOf(victims) + HashesOf(evicted);
    EachAppend(c, keys, dir, HashesOf(victims), HashesOf(evicted));
  }

  lemma DistinctTogether(a: seq<Blob>, b: seq<Blob>)
    requires Distinct(a) && Distinct(b) && forall x :: x in b ==> x !in a
    ensures Distinct(a + b)
  {
    var s := a + b;
    forall i, j | 0 <= i < j < |s| ensures s[i] != s[j] {
      assert j >= |a| ==> s[j] == b[j - |a|] && s[j] in b;
    }
  }

  // ------------------------------------------------------------------
  // When a run is correct
  // ------------------------------------------------------------------

  lemma VictimsAreVisible(c: Codec, keys: seq<Bytes>, dir: Dir, cutoff: Option<int>, victims: seq<Blob>)
    requires AreVictims(c, keys, dir, cutoff, victims)
    ensures forall b :: b in victims ==> IsVisible(c, keys, dir, b)
  {
  }

  /** If the second stage evicts survivors of the first, both are exact together if and only if what goes comes first in read order. */
  lemma TogetherIff(c: Codec, keys: seq<Bytes>, dir: Dir, victims: seq<Blob>, order: seq<Blob>, n: nat)
    requires Distinct(victims) && (forall b :: b in victims ==> IsVisible(c, keys, dir, b))
    requires OldToNew(c, keys, dir, victims, order) && n <= |order|
    ensures RemovedExactly(c, keys, dir, RemoveEach(c, keys, RemoveEach(c, keys, dir, HashesOf(victims)), HashesOf(order[..n])), victims + order[..n])
            <==> RemovedFirst(c, keys, dir, victims + order[..n])
  {
    var evicted := order[..n];
    DistinctParts(order, n);
    DistinctTogether(victims, evicted);
    BothStages(c, keys, dir, victims, evicted);
    hide IsVisible, RemovedFirst, RemoveEach, HashesOf, RemovedExactly, SortedBy, Distinct;
    AgeStageExactIff(c, keys, dir, victims + evicted);
  }

  /** Once the age stage is exact, the size stage lists exactly the survivors, with the same ages and lengths. */
  lemma SurvivorsListed(c: Codec, keys: seq<Bytes>, dir: Dir, victims: seq<Blob>, order: seq<Blob>, n: nat, budget: Option<nat>)
    requires Distinct(victims) && (forall b :: b in victims ==> IsVisible(c, keys, dir, b)) && RemovedFirst(c, keys, dir, victims)
    ensures var mid := RemoveEach(c, keys, dir, HashesOf(victims));
            && (OldToNew(c, keys, mid, [], order) <==> OldToNew(c, keys, dir, victims, order))
            && (OldToNew(c, keys, mid, [], order) ==> (LeastFit(mid, order, n, budget) <==> LeastFit(dir, order, n, budget)))
  {
    var mid := RemoveEach(c, keys, dir, HashesOf(victims));
    AgeStageExactIff(c, keys, dir, victims);
    RemoveEachShrinks(c, keys, dir, HashesOf(victims));
    ExactlyVisible(c, keys, dir, mid, victims);
    hide IsVisible, RemovedFirst, RemoveEach, HashesOf, RemovedExactly, SortedBy, Distinct, LeastFit, AgeIn;
    if OldToNew(c, keys, mid, [], order) || OldToNew(c, keys, dir, victims, order) {
      assert Enumerates(c, keys, mid, order);
      SameAges(c, keys, dir, mid, order);
      SameFit(mid, dir, order, n, budget);
    }
  }

  /** A run is correct if and only if, for every hash, its victims come first in read order, and its victims and evicted copies together do. */
  lemma CollectedIff(c: Codec, keys: seq<Bytes>, dir: Dir, cutoff: Option<int>, budget: Option<nat>, victims: seq<Blob>, order: seq<Blob>, dir': Dir, out: GcOutcome)
    requires GcRun(c, keys, dir, cutoff, budget, victims, order, dir', out)
    ensures Collected(c, keys, dir, dir', victims, budget, out, order) <==>
            RemovedFirst(c, keys, dir, victims) && RemovedFirst(c, keys, dir, victims + order[..out.removedBySize])
  {
    VictimsAreVisible(c, keys, dir, cutoff, victims);
    if Collected(c, keys, dir, dir', victims, budget, out, order) {
      CollectedMeansFirst(c, keys, dir, cutoff, budget, victims, order, dir', out);
    }
    if RemovedFirst(c, keys, dir, victims) && RemovedFirst(c, keys, dir, victims + order[..out.removedBySize]) {
      FirstMeansCollected(c, keys, dir, cutoff, budget, victims, order, dir', out);
    }
    hide Collected, RemovedFirst;
  }

  lemma CollectedMeansFirst(c: Codec, keys: seq<Bytes>, dir: Dir, cutoff: Option<int>, budget: Option<nat>, victims: seq<Blob>, order: seq<Blob>, dir': Dir, out: GcOutcome)
    requires GcRun(c, keys, dir, cutoff, budget, victims, order, dir', out) && Collected(c, keys, dir, dir', victims, budget, out, order)
    ensures RemovedFirst(c, keys, dir, victims) && RemovedFirst(c, keys, dir, victims + order[..out.removedBySize])
  {
    var mid, n := RemoveEach(c, keys, dir, HashesOf(victims)), out.removedBySize;
    VictimsAreVisible(c, keys, dir, cutoff, victims);
    RemoveEachShrinks(c, keys, dir, HashesOf(victims));
    RemoveEachShrinks(c, keys, mid, HashesOf(order[..n]));
    TogetherIff(c, keys, dir, victims, order, n);
    hide IsVisible, RemovedFirst, RemoveEach, HashesOf, RemovedExactly, SortedBy, Distinct, Reports, IsVictim;
    ExactApart(c, keys, dir, mid, dir', victims, order, n);
    AgeStageExactIff(c, keys, dir, victims);
  }

  lemma FirstMeansCollected(c: Codec, keys: seq<Bytes>, dir: Dir, cutoff: Option<int>, budget: Option<nat>, victims: seq<Blob>, order: seq<Blob>, dir': Dir, out: GcOutcome)
    requires GcRun(c, keys, dir, cutoff, budget, victims, order, dir', out)
    requires RemovedFirst(c, keys, dir, victims) && RemovedFirst(c, keys, dir, victims + order[..out.removedBySize])
    ensures Collected(c, keys, dir, dir', victims, budget, out, order)
  {
    var mid, n := RemoveEach(c, keys, dir, HashesOf(victims)), out.removedBySize;
    VictimsAreVisible(c, keys, dir, cutoff, victims);
    SurvivorsListed(c, keys, dir, victims, order, n, budget);
    TogetherIff(c, keys, dir, victims, order, n);
    LeftIsReported(c, keys, dir, dir', victims, order, n, out.bytesAfter);
    hide IsVisible, RemovedFirst, RemoveEach, HashesOf, RemovedExactly, SortedBy, Distinct, Reports, IsVictim, Footprint;
  }

  /** What is left is the rest of the list, and its footprint is the one reported. */
  lemma LeftIsReported(c: Codec, keys: seq<Bytes>, dir: Dir, dir': Dir, victims: seq<Blob>, order: seq<Blob>, n: nat, total: nat)
    requires OldToNew(c, keys, dir, victims, order) && n <= |order| && Reports(c, keys, dir', total)
    requires dir' == RemoveEach(c, keys, RemoveEach(c, keys, dir, HashesOf(victims)), HashesOf(order[..n]))
    requires RemovedExactly(c, keys, dir, dir', victims + order[..n])
    ensures total == Footprint(dir, order[n..])
  {
    var left := order[n..];
    DistinctParts(order, n);
    BothStages(c, keys, dir, victims, order[..n]);
    RemoveEachShrinks(c, keys, dir, HashesOf(victims + order[..n]));
    ExactlyVisible(c, keys, dir, dir', victims + order[..n]);
    hide IsVisible, RemoveEach, HashesOf, RemovedExactly, SortedBy, Footprint, LengthIn;
    assert Enumerates(c, keys, dir', left);
    ReportedFootprint(c, keys, dir', dir, left, left);
  }

  /**
   File by file: what a correct collection keeps is not older than the cutoff, and what it
   takes is older than the cutoff or was modified no later than anything it keeps, a time
   that cannot be read counting as the epoch for the second and as no reason for the first.
   */
  lemma OldestGoFirst(c: Codec, keys: seq<Bytes>, dir: Dir, cutoff: Option<int>, budget: Option<nat>, victims: seq<Blob>, order: seq<Blob>, dir': Dir, out: GcOutcome, gone: Blob, kept: Blob)
    requires AreVictims(c, keys, dir, cutoff, victims) && Collected(c, keys, dir, dir', victims, budget, out, order)
    requires IsVisible(c, keys, dir, gone) && BlobName(gone.hash, gone.fp) !in dir'
    requires IsVisible(c, keys, dir, kept) && BlobName(kept.hash, kept.fp) in dir'
    ensures var t, u := dir[BlobName(gone.hash, gone.fp)].mtime, dir[BlobName(kept.hash, kept.fp)].mtime;
            && (cutoff.Some? && u.Some? ==> u.value >= cutoff.value)
            && (|| (cutoff.Some? && t.Some? && t.value < cutoff.value)
                || (if t.Some? then t.value else 0) <= (if u.Some? then u.value else 0))
  {
    hide BlobName, Accepted, Footprint;
    var n := out.removedBySize;
    DistinctParts(order, n);
    assert gone in victims + order[..n] && kept !in victims + order[..n];
    assert kept !in victims && kept in order[n..];
    if gone !in victims {
      assert gone in order[..n];
      var i :| 0 <= i < n && order[..n][i] == gone;
      var j :| 0 <= j < |order| - n && order[n..][j] == kept;
      assert AgeIn(dir)(order[i]) <= AgeIn(dir)(order[n + j]);
    }
  }

  // ------------------------------------------------------------------
  // The condition, on the starting directory alone
  // ------------------------------------------------------------------

  /**
   For every hash, the copies older than the cutoff come first in read order, and so do
   these together with the copies that a walk of the survivors from old to new has to
   evict, whichever way it orders blobs of the same age.
   */
  ghost predicate InReadOrder(c: Codec, keys: seq<Bytes>, dir: Dir, cutoff: Option<int>, budget: Option<nat>) {
    forall victims, order, n ::
      AreVictims(c, keys, dir, cutoff, victims) && OldToNew(c, keys, dir, victims, order) && LeastFit(dir, order, n, budget)
      ==> RemovedFirst(c, keys, dir, victims) && RemovedFirst(c, keys, dir, victims + order[..n])
  }

  ghost predicate AlwaysCollected(c: Codec, keys: seq<Bytes>, dir: Dir, cutoff: Option<int>, budget: Option<nat>) {
    forall victims, order, dir', out :: GcRun(c, keys, dir, cutoff, budget, victims, order, dir', out)
      ==> Collected(c, keys, dir, dir', victims, budget, out, order)
  }

  lemma SomeFit(dir: Dir, bs: seq<Blob>, budget: Option<nat>) returns (n: nat)
    ensures LeastFit(dir, bs, n, budget)
  {
    n := 0;
    if budget.Some? {
      n := FitExists(dir, bs, budget.value);
    }
    hide Footprint;
  }

  /** Some run walks the list `order`. */
  lemma RunExists(c: Codec, keys: seq<Bytes>, dir: Dir, cutoff: Option<int>, budget: Option<nat>, victims: seq<Blob>, order: seq<Blob>, n: nat)
    returns (dir': Dir, out: GcOutcome)
    requires AreVictims(c, keys, dir, cutoff, victims)
    requires var mid := RemoveEach(c, keys, dir, HashesOf(victims)); OldToNew(c, keys, mid, [], order) && LeastFit(mid, order, n, budget)
    ensures GcRun(c, keys, dir, cutoff, budget, victims, order, dir', out) && out.removedBySize == n
  {
    dir' := RemoveEach(c, keys, RemoveEach(c, keys, dir, HashesOf(victims)), HashesOf(order[..n]));
    var scan := ScanExists(c, keys, dir', []);
    out := GcOutcome(|victims|, n, Footprint(dir', scan));
    hide IsVisible, RemoveEach, HashesOf, Footprint, SortedBy, LeastFit, AreVictims;
    forall bs | Enumerates(c, keys, dir', bs) ensures Footprint(dir', bs) == Footprint(dir', scan) {
      assert Elements(bs) == Elements(scan);
      SameFootprint(dir', bs, scan);
    }
  }

  /** The victims of a directory that is in read order come first. */
  lemma VictimsFirst(c: Codec, keys: seq<Bytes>, dir: Dir, cutoff: Option<int>, budget: Option<nat>, victims: seq<Blob>)
    requires InReadOrder(c, keys, dir, cutoff, budget) && AreVictims(c, keys, dir, cutoff, victims)
    ensures RemovedFirst(c, keys, dir, victims)
  {
    var order := ScanExists(c, keys, dir, victims);
    var n := SomeFit(dir, order, budget);
    hide OldToNew, LeastFit, RemovedFirst, AreVictims;
  }

  lemma RunsInReadOrder(c: Codec, keys: seq<Bytes>, dir: Dir, cutoff: Option<int>, budget: Option<nat>, victims: seq<Blob>, order: seq<Blob>, dir': Dir, out: GcOutcome)
    ensures InReadOrder(c, keys, dir, cutoff, budget) && GcRun(c, keys, dir, cutoff, budget, victims, order, dir', out) ==>
              Collected(c, keys, dir, dir', victims, budget, out, order)
  {
    if InReadOrder(c, keys, dir, cutoff, budget) && GcRun(c, keys, dir, cutoff, budget, victims, order, dir', out) {
      VictimsFirst(c, keys, dir, cutoff, budget, victims);
      VictimsAreVisible(c, keys, dir, cutoff, victims);
      SurvivorsListed(c, keys, dir, victims, order, out.removedBySize, budget);
      CollectedIff(c, keys, dir, cutoff, budget, victims, order, dir', out);
    }
    hide OldToNew, RemovedFirst, RemoveEach, HashesOf, IsVictim, Collected, Reports;
  }

  lemma ReadOrderNeeded(c: Codec, keys: seq<Bytes>, dir: Dir, cutoff: Option<int>, budget: Option<nat>, victims: seq<Blob>, order: seq<Blob>, n: nat)
    requires AlwaysCollected(c, keys, dir, cutoff, budget)
    requires AreVictims(c, keys, dir, cutoff, victims) && OldToNew(c, keys, dir, victims, order) && LeastFit(dir, order, n, budget)
    ensures RemovedFirst(c, keys, dir, victims) && RemovedFirst(c, keys, dir, victims + order[..n])
  {
    hide OldToNew, RemovedFirst, RemoveEach, HashesOf, IsVictim, Collected, Reports;
    var mid := RemoveEach(c, keys, dir, HashesOf(victims));
    VictimsAreVisible(c, keys, dir, cutoff, victims);
    var walk := ScanExists(c, keys, mid, []);
    var m := SomeFit(mid, walk, budget);
    var dir1, out1 := RunExists(c, keys, dir, cutoff, budget, victims, walk, m);
    CollectedIff(c, keys, dir, cutoff, budget, victims, walk, dir1, out1);
    SurvivorsListed(c, keys, dir, victims, order, n, budget);
    var dir2, out2 := RunExists(c, keys, dir, cutoff, budget, victims, order, n);
    CollectedIff(c, keys, dir, cutoff, budget, victims, order, dir2, out2);
  }

  /**
   Every run from a directory collects correctly if and only if the directory is in read
   order, a condition on the names, lengths and times of its files alone.
   */
  lemma AlwaysCollectedIff(c: Codec, keys: seq<Bytes>, dir: Dir, cutoff: Option<int>, budget: Option<nat>)
    ensures AlwaysCollected(c, keys, dir, cutoff, budget) <==> InReadOrder(c, keys, dir, cutoff, budget)
  {
    hide GcRun, Collected, RemovedFirst, AreVictims, OldToNew, Footprint, NoneTooMany;
    if InReadOrder(c, keys, dir, cutoff, budget) {
      forall victims, order, dir', out | GcRun(c, keys, dir, cutoff, budget, victims, order, dir', out)
        ensures Collected(c, keys, dir, dir', victims, budget, out, order)
      {
        RunsInReadOrder(c, keys, dir, cutoff, budget, victims, order, dir', out);
      }
    }
    if AlwaysCollected(c, keys, dir, cutoff, budget) {
      forall victims, order, n | AreVictims(c, keys, dir, cutoff, victims) && OldToNew(c, keys, dir, victims, order) && LeastFit(dir, order, n, budget)
        ensures RemovedFirst(c, keys, dir, victims) && RemovedFirst(c, keys, dir, victims + order[..n])
      {
        ReadOrderNeeded(c, keys, dir, cutoff, budget, victims, order, n);
      }
    }
  }

  /** A directory that holds no hash twice is in read order. */
  lemma SingleHolderInReadOrder(c: Codec, keys: seq<Bytes>, dir: Dir, cutoff: Option<int>, budget: Option<nat>)
    requires SingleHolder(c, keys, dir)
    ensures InReadOrder(c, keys, dir, cutoff, budget)
  {
    hide Holders, AreVictims, OldToNew, LeastFit;
  }

  // ------------------------------------------------------------------
  // The method
  // ------------------------------------------------------------------

  /** `gc`: a run, and a correct one whenever the directory is in read order. */
  method Gc(store: DiskArtifactStore, cutoff: Option<int>, budget: Option<nat>) returns (out: GcOutcome, ghost victims: seq<Blob>, ghost order: seq<Blob>)
    modifies store
    ensures GcRun(store.codec, store.keys.ReadKeys(), old(store.dir), cutoff, budget, victims, order, store.dir, out)
    ensures InReadOrder(store.codec, store.keys.ReadKeys(), old(store.dir), cutoff, budget) ==>
              Collected(store.codec, store.keys.ReadKeys(), old(store.dir), store.dir, victims, budget, out, order)
  {
    ghost var c, keys, dir := store.codec, store.keys.ReadKeys(), store.dir;
    hide *;
    var byAge := 0;
    victims := [];
    NoVictims(c, keys, dir);
    if cutoff.Some? {
      byAge, victims := PruneOlderThan(store, cutoff.value);
      SomeVictims(c, keys, dir, cutoff.value, victims);
    }
    ghost var mid := store.dir;
    var bySize := 0;
    if budget.Some? {
      bySize, order := EvictOldest(store, budget.value);
    } else {
      order := ScanExists(c, keys, mid, []);
      NothingEvicted(c, keys, mid, order);
    }
    var total, _ := TotalBytes(store);
    out := GcOutcome(byAge, bySize, total);
    Assemble(c, keys, dir, cutoff, budget, victims, order, store.dir, out);
    if InReadOrder(c, keys, dir, cutoff, budget) {
      RunsInReadOrder(c, keys, dir, cutoff, budget, victims, order, store.dir, out);
    }
  }

  lemma NoVictims(c: Codec, keys: seq<Bytes>, dir: Dir)
    ensures AreVictims(c, keys, dir, None, []) && RemoveEach(c, keys, dir, HashesOf([])) == dir
  {
    EachOfNone(c, keys, dir, HashesOf([]));
  }

  lemma SomeVictims(c: Codec, keys: seq<Bytes>, dir: Dir, cutoff: int, victims: seq<Blob>)
    requires Distinct(victims) && forall b :: b in victims <==> IsVictim(c, keys, dir, cutoff, b)
    ensures AreVictims(c, keys, dir, Some(cutoff), victims)
  {
  }

  lemma Assemble(c: Codec, keys: seq<Bytes>, dir: Dir, cutoff: Option<int>, budget: Option<nat>, victims: seq<Blob>, order: seq<Blob>, dir': Dir, out: GcOutcome)
    requires AreVictims(c, keys, dir, cutoff, victims) && out.removedByAge == |victims| && out.removedBySize <= |order|
    requires var mid := RemoveEach(c, keys, dir, HashesOf(victims));
             && (OldToNew(c, keys, mid, [], order) || (Enumerates(c, keys, mid, order) && SortedBy(order, AgeIn(mid))))
             && dir' == RemoveEach(c, keys, mid, HashesOf(order[..out.removedBySize]))
             && (budget.None? ==> out.removedBySize == 0)
             && (budget.Some? ==> Footprint(mid, order[out.removedBySize..]) <= budget.value && NoneTooMany(mid, order, out.removedBySize, budget.value))
    requires forall bs :: Enumerates(c, keys, dir', bs) ==> out.bytesAfter == Footprint(dir', bs)
    ensures GcRun(c, keys, dir, cutoff, budget, victims, order, dir', out)
  {
    hide AreVictims, IsVisible, RemoveEach, HashesOf, Footprint, NoneTooMany, SortedBy, AgeIn;
  }

  /**
   Read order is essential. Let a hash be held by a small young blob
   under the active key and by a large old blob under a retired one. The stage evicts by
   hash: it meets the old blob first, removes the young one, books the length of the old
   one, and stops over budget.
   */
  lemma SharedHashOverrunsBudget(c: Codec, active: Bytes, retired: Bytes, h: Bytes, young: Bytes, aged: Bytes, budget: nat)
    requires Fp(c, active) != Fp(c, retired) && |h| == HASH_LEN && MIN_LEN <= |young| <= budget < |aged|
    ensures var dir: Dir := map[BlobName(h, Fp(c, active)) := File(young, Some(2)), BlobName(h, Fp(c, retired)) := File(aged, Some(1))];
            var order, keys := [Blob(h, Fp(c, retired)), Blob(h, Fp(c, active))], [active, retired];
            var end := RemoveEach(c, keys, dir, HashesOf(order[..1]));
            && SortedBy(order, AgeIn(dir)) && (forall b :: b in order ==> IsVisible(c, keys, dir, b))
            && Footprint(dir, order[1..]) <= budget < Footprint(dir, order)
            && IsVisible(c, keys, end, order[0]) && LengthIn(end, order[0]) > budget
  {
    var fa, fr := Fp(c, active), Fp(c, retired);
    var a, r := BlobName(h, fa), BlobName(h, fr);
    FpHasNoDot(c, active);
    FpHasNoDot(c, retired);
    BlobNameInjective(h, fa, h, fr);
    var dir: Dir := map[a := File(young, Some(2)), r := File(aged, Some(1))];
    NamesAfter(dir, h, fa, h, fr);
    hide BlobName, MetaName, Fp;
    var br, ba, keys := Blob(h, fr), Blob(h, fa), [active, retired];
    assert keys[0] == active && Resolve(c, keys, dir, h) == Some(active);
    var dir' := RemoveFrom(c, keys, dir, h);
    assert r in dir' && dir'[r] == dir[r];
    var order := [br, ba];
    assert order[1..] == [ba] && [ba][1..] == [];
    assert HashesOf(order[..1]) == [h] && RemoveEach(c, keys, dir, [h]) == dir';
    assert Footprint(dir, [ba]) == |young| && Footprint(dir, order) == |aged| + |young|;
    assert keys[1] == retired && active in keys && retired in keys;
  }
}
