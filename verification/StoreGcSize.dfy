/**
 The size stage of garbage collection: it evicts, by hash, the shortest run of the
 oldest blobs whose rest fits the budget.
 */
module StoreGcSize {
  import opened Options
  import opened Sorting
  import opened Envelope
  import opened BlobNames
  import opened ArtifactStore
  import opened StoreGc

  function LengthIn(dir: Dir, b: Blob): nat {
    var name := BlobName(b.hash, b.fp);
    if name in dir then |dir[name].content| else 0
  }

  /** A blob whose modification time cannot be read counts as made at the epoch. */
  function AgeIn(dir: Dir): Blob -> int {
    (b: Blob) =>
      var name := BlobName(b.hash, b.fp);
      if name in dir && dir[name].mtime.Some? then dir[name].mtime.value else 0
  }

  function Footprint(dir: Dir, bs: seq<Blob>): nat {
    if bs == [] then 0 else LengthIn(dir, bs[0]) + Footprint(dir, bs[1..])
  }

  ghost predicate Enumerates(c: Codec, keys: seq<Bytes>, dir: Dir, bs: seq<Blob>) {
    Distinct(bs) && forall b :: b in bs <==> IsVisible(c, keys, dir, b)
  }

  // ------------------------------------------------------------------
  // The footprint does not depend on the order of the scan
  // ------------------------------------------------------------------

  lemma {:induction false} FootprintAppend(dir: Dir, a: seq<Blob>, b: seq<Blob>)
    ensures Footprint(dir, a + b) == Footprint(dir, a) + Footprint(dir, b)
  {
    hide LengthIn;
    if a == [] {
      assert a + b == b;
    } else {
      assert (a + b)[1..] == a[1..] + b;
      FootprintAppend(dir, a[1..], b);
    }
  }

  lemma DropOne(s: seq<Blob>, j: nat)
    requires Distinct(s) && j < |s|
    ensures Distinct(s[..j] + s[j + 1..]) && Elements(s[..j] + s[j + 1..]) == Elements(s) - {s[j]}
  {
    var rest := s[..j] + s[j + 1..];
    forall i | 0 <= i < |rest| ensures rest[i] == s[if i < j then i else i + 1] {}
    forall b | b in s && b != s[j] ensures b in rest {
      var i :| 0 <= i < |s| && s[i] == b;
      assert b == rest[if i < j then i else i - 1];
    }
  }

  lemma FootprintAround(dir: Dir, s: seq<Blob>, j: nat)
    requires j < |s|
    ensures Footprint(dir, s) == LengthIn(dir, s[j]) + Footprint(dir, s[..j] + s[j + 1..])
  {
    hide LengthIn;
    FootprintAppend(dir, s[..j], s[j + 1..]);
    FootprintAppend(dir, s[..j], s[j..]);
    assert s == s[..j] + s[j..] && s[j..][1..] == s[j + 1..];
  }

  lemma {:induction false} SameFootprint(dir: Dir, a: seq<Blob>, b: seq<Blob>)
    requires Distinct(a) && Distinct(b) && Elements(a) == Elements(b)
    ensures Footprint(dir, a) == Footprint(dir, b)
    decreases |a|
  {
    hide LengthIn, Elements, Distinct;
    DistinctSize(a);
    DistinctSize(b);
    if a != [] {
      InElements(a, 0);
      ElementsAt(b, a[0]);
      var j :| 0 <= j < |b| && b[j] == a[0];
      assert a == [a[0]] + a[1..];
      ElementsCons(a[0], a[1..]);
      DropOne(b, j);
      assert Elements(a[1..]) == Elements(a) - {a[0]};
      SameFootprint(dir, a[1..], b[..j] + b[j + 1..]);
      FootprintAround(dir, b, j);
    }
  }

  lemma {:induction false} FootprintAgrees(dir: Dir, dir': Dir, bs: seq<Blob>)
    requires forall b :: b in bs ==> LengthIn(dir, b) == LengthIn(dir', b)
    ensures Footprint(dir, bs) == Footprint(dir', bs)
  {
    hide LengthIn;
    if bs != [] {
      assert bs[0] in bs;
      FootprintAgrees(dir, dir', bs[1..]);
    }
  }

  // ------------------------------------------------------------------
  // The stage
  // ------------------------------------------------------------------

  method SumLengths(dir: Dir, bs: seq<Blob>) returns (total: nat)
    ensures total == Footprint(dir, bs)
  {
    hide LengthIn;
    total := 0;
    for i := 0 to |bs|
      invariant total + Footprint(dir, bs[i..]) == Footprint(dir, bs)
    {
      total := total + LengthIn(dir, bs[i]);
      assert bs[i..][1..] == bs[i + 1..];
    }
  }

  /** `total_bytes`: the lengths of all visible blobs, in whatever order they are listed. */
  method TotalBytes(store: DiskArtifactStore) returns (total: nat, ghost scan: seq<Blob>)
    ensures Enumerates(store.codec, store.keys.ReadKeys(), store.dir, scan)
    ensures forall bs :: Enumerates(store.codec, store.keys.ReadKeys(), store.dir, bs) ==> total == Footprint(store.dir, bs)
  {
    ghost var c, keys := store.codec, store.keys.ReadKeys();
    var blobs := ForEachBlob(store.codec, store.keys.ReadKeys(), store.dir);
    total := SumLengths(store.dir, blobs);
    scan := blobs;
    hide IsVisible, Footprint;
    forall bs | Enumerates(c, keys, store.dir, bs) ensures Footprint(store.dir, bs) == total {
      assert Elements(bs) == Elements(blobs);
      SameFootprint(store.dir, bs, blobs);
    }
  }

  /** Evicting fewer than `n` of these blobs would not have fitted the budget. */
  ghost predicate NoneTooMany(dir: Dir, bs: seq<Blob>, n: nat, budget: nat) {
    n <= |bs| && forall m :: 0 <= m < n ==> Footprint(dir, bs[m..]) > budget
  }

  /** Evicts the oldest blobs, by hash, until the footprint fits the budget; it stops as soon as it does. */
  method EvictOldest(store: DiskArtifactStore, budget: nat) returns (removed: nat, ghost order: seq<Blob>)
    modifies store
    ensures Enumerates(store.codec, store.keys.ReadKeys(), old(store.dir), order) && SortedBy(order, AgeIn(old(store.dir)))
    ensures removed <= |order|
    ensures store.dir == RemoveEach(store.codec, store.keys.ReadKeys(), old(store.dir), HashesOf(order[..removed]))
    ensures Footprint(old(store.dir), order[removed..]) <= budget
    ensures NoneTooMany(old(store.dir), order, removed, budget)
  {
    var scanned := store.dir;
    ghost var c, keys := store.codec, store.keys.ReadKeys();
    var blobs := SortedScan(store);
    order := blobs;
    var total: nat := SumLengths(scanned, blobs);
    hide *;
    EvictionStarts(c, keys, scanned, blobs, budget);
    removed := 0;
    var i := 0;
    while i < |blobs| && total > budget
      invariant i == removed <= |blobs| && Evicted(c, keys, scanned, blobs, i, budget, store.dir, total)
    {
      EvictionStep(c, keys, scanned, blobs, i, budget, store.dir, total);
      var gone := store.Remove(blobs[i].hash);
      if gone {
        var len := LengthIn(scanned, blobs[i]);
        total := SaturatingSub(total, len);
        removed := removed + 1;
      }
      i := i + 1;
    }
    EvictionEnds(c, keys, scanned, blobs, i, budget, store.dir, total);
  }

  /** After `i` evictions: what was removed, what the rest weighs, and that all of them were needed. */
  ghost predicate Evicted(c: Codec, keys: seq<Bytes>, scanned: Dir, bs: seq<Blob>, i: nat, budget: nat, dir: Dir, total: nat) {
    && i <= |bs| && total == Footprint(scanned, bs[i..])
    && dir == RemoveEach(c, keys, scanned, HashesOf(bs[..i]))
    && NoneTooMany(scanned, bs, i, budget)
  }

  lemma EvictionStarts(c: Codec, keys: seq<Bytes>, dir: Dir, bs: seq<Blob>, budget: nat)
    ensures Evicted(c, keys, dir, bs, 0, budget, dir, Footprint(dir, bs))
  {
    NothingEvicted(c, keys, dir, bs);
    assert bs[0..] == bs;
    hide RemoveEach, HashesOf, Footprint;
  }

  lemma EvictionEnds(c: Codec, keys: seq<Bytes>, scanned: Dir, bs: seq<Blob>, i: nat, budget: nat, dir: Dir, total: nat)
    requires Evicted(c, keys, scanned, bs, i, budget, dir, total) && (i == |bs| || total <= budget)
    ensures dir == RemoveEach(c, keys, scanned, HashesOf(bs[..i]))
    ensures Footprint(scanned, bs[i..]) <= budget && NoneTooMany(scanned, bs, i, budget)
  {
    assert i == |bs| ==> bs[i..] == [];
    hide RemoveEach, HashesOf, NoneTooMany;
  }

  function SaturatingSub(a: nat, b: nat): nat {
    if b <= a then a - b else 0
  }

  /** Evicting the next blob finds a file to remove, and what is left to place weighs that much less. */
  lemma EvictionStep(c: Codec, keys: seq<Bytes>, scanned: Dir, bs: seq<Blob>, i: nat, budget: nat, dir: Dir, total: nat)
    requires Enumerates(c, keys, scanned, bs) && i < |bs| && total > budget && Evicted(c, keys, scanned, bs, i, budget, dir, total)
    ensures Resolve(c, keys, dir, bs[i].hash).Some?
    ensures Evicted(c, keys, scanned, bs, i + 1, budget, RemoveFrom(c, keys, dir, bs[i].hash), SaturatingSub(total, LengthIn(scanned, bs[i])))
  {
    hide LengthIn, RemoveEach, RemoveFrom, Resolve, HashesOf, IsVisible, Footprint, NoneTooMany, Distinct;
    RemovalSucceeds(c, keys, scanned, bs, i);
    EachOneMore(c, keys, scanned, bs, i);
    FootprintStep(scanned, bs, i);
    NeedStep(scanned, bs, i, budget);
  }

  lemma FootprintStep(dir: Dir, bs: seq<Blob>, i: nat)
    requires i < |bs|
    ensures Footprint(dir, bs[i..]) == LengthIn(dir, bs[i]) + Footprint(dir, bs[i + 1..])
  {
    hide LengthIn;
    assert bs[i..][1..] == bs[i + 1..];
  }

  lemma NeedStep(dir: Dir, bs: seq<Blob>, i: nat, budget: nat)
    requires i < |bs| && NoneTooMany(dir, bs, i, budget) && Footprint(dir, bs[i..]) > budget
    ensures NoneTooMany(dir, bs, i + 1, budget)
  {
    hide Footprint;
  }

  lemma NothingEvicted(c: Codec, keys: seq<Bytes>, dir: Dir, bs: seq<Blob>)
    ensures RemoveEach(c, keys, dir, HashesOf(bs[..0])) == dir
  {
    EachOfNone(c, keys, dir, HashesOf(bs[..0]));
  }

  method SortedScan(store: DiskArtifactStore) returns (bs: seq<Blob>)
    ensures Enumerates(store.codec, store.keys.ReadKeys(), store.dir, bs) && SortedBy(bs, AgeIn(store.dir))
  {
    var blobs := ForEachBlob(store.codec, store.keys.ReadKeys(), store.dir);
    hide IsVisible, AgeIn;
    SortByLaws(blobs, AgeIn(store.dir));
    bs := SortBy(blobs, AgeIn(store.dir));
    forall b ensures b in bs <==> b in blobs {
      assert b in Elements(bs) <==> b in Elements(blobs);
    }
  }

  // ------------------------------------------------------------------
  // Every directory has a scan, and every scan a least prefix that fits
  // ------------------------------------------------------------------

  /** `n` is the least number of blobs to evict from the front; without a budget nothing is evicted. */
  ghost predicate LeastFit(dir: Dir, bs: seq<Blob>, n: nat, budget: Option<nat>) {
    && n <= |bs|
    && (budget.None? ==> n == 0)
    && (budget.Some? ==> Footprint(dir, bs[n..]) <= budget.value && NoneTooMany(dir, bs, n, budget.value))
  }

  /** `order` lists the visible blobs that are not among `victims`, from old to new. */
  ghost predicate OldToNew(c: Codec, keys: seq<Bytes>, dir: Dir, victims: seq<Blob>, order: seq<Blob>) {
    Distinct(order) && SortedBy(order, AgeIn(dir)) && forall b :: b in order <==> IsVisible(c, keys, dir, b) && b !in victims
  }

  lemma {:induction false} FitExists(dir: Dir, bs: seq<Blob>, budget: nat) returns (n: nat)
    ensures LeastFit(dir, bs, n, Some(budget))
  {
    n := 0;
    if bs == [] || Footprint(dir, bs) <= budget {
      assert bs[0..] == bs;
    } else {
      var m := FitExists(dir, bs[1..], budget);
      n := m + 1;
      assert bs[n..] == bs[1..][m..];
      forall i | 0 <= i < n ensures Footprint(dir, bs[i..]) > budget {
        assert i > 0 ==> bs[i..] == bs[1..][i - 1..];
        assert bs[0..] == bs;
      }
    }
  }

  /** The blobs that the names of a directory stand for. */
  ghost function BlobsIn(c: Codec, keys: seq<Bytes>, dir: Dir): set<Blob> {
    set name | name in dir && ParseBlobFilename(name).Some? && Accepted(c, keys, ParseBlobFilename(name).value.1) && |dir[name].content| >= MIN_LEN
      :: Blob(ParseBlobFilename(name).value.0, ParseBlobFilename(name).value.1)
  }

  lemma BlobsAreVisible(c: Codec, keys: seq<Bytes>, dir: Dir, b: Blob)
    ensures b in BlobsIn(c, keys, dir) <==> IsVisible(c, keys, dir, b)
  {
    if b in BlobsIn(c, keys, dir) {
      var name :| name in dir && ParseBlobFilename(name) == Some((b.hash, b.fp)) && Accepted(c, keys, b.fp) && |dir[name].content| >= MIN_LEN;
      VisibleName(c, keys, dir, name);
    }
    if IsVisible(c, keys, dir, b) {
      VisibleName(c, keys, dir, BlobName(b.hash, b.fp));
    }
    hide ParseBlobFilename, BlobName, Accepted;
  }

  lemma ScanExists(c: Codec, keys: seq<Bytes>, dir: Dir, victims: seq<Blob>) returns (order: seq<Blob>)
    ensures OldToNew(c, keys, dir, victims, order)
  {
    var bs := ListOf(BlobsIn(c, keys, dir) - Elements(victims));
    SortByLaws(bs, AgeIn(dir));
    order := SortBy(bs, AgeIn(dir));
    forall b ensures b in order <==> IsVisible(c, keys, dir, b) && b !in victims {
      BlobsAreVisible(c, keys, dir, b);
      assert b in order <==> b in Elements(order);
    }
    hide BlobsIn, IsVisible, AgeIn, SortBy, SortedBy;
  }
}
