/**
 Garbage collection of the store: an age stage and a size stage, both removing by
 content hash. What each stage removes, and exactly when that is what it was asked to.
 */
module StoreGc {
  import opened Sorting
  import opened Envelope
  import opened BlobNames
  import opened ArtifactStore

  // ------------------------------------------------------------------
  // Removing a list of hashes
  // ------------------------------------------------------------------

  function RemoveEach(c: Codec, keys: seq<Bytes>, dir: Dir, hashes: seq<Bytes>): Dir {
    if hashes == [] then dir else RemoveFrom(c, keys, RemoveEach(c, keys, dir, hashes[..|hashes| - 1]), hashes[|hashes| - 1])
  }

  function Count(hashes: seq<Bytes>, h: Bytes): nat {
    if hashes == [] then 0 else Count(hashes[..|hashes| - 1], h) + if hashes[|hashes| - 1] == h then 1 else 0
  }

  function DropUpTo(s: seq<string>, n: nat): seq<string> {
    if n <= |s| then s[n..] else []
  }

  /** Each removal of a hash takes the next holder of that hash, in read order. */
  lemma {:induction false} HoldersAfterEach(c: Codec, keys: seq<Bytes>, dir: Dir, hashes: seq<Bytes>, h: Bytes)
    requires |h| == HASH_LEN && forall x :: x in hashes ==> |x| == HASH_LEN
    ensures Holders(c, keys, RemoveEach(c, keys, dir, hashes), h) == DropUpTo(Holders(c, keys, dir, h), Count(hashes, h))
    decreases |hashes|
  {
    hide Holders, RemoveFrom;
    if hashes != [] {
      var n := |hashes| - 1;
      assert hashes[n] in hashes;
      HoldersAfterEach(c, keys, dir, hashes[..n], h);
      RemovalTakesFirstHolder(c, keys, RemoveEach(c, keys, dir, hashes[..n]), hashes[n], h);
    }
  }

  /** A removal only ever takes names away. */
  lemma RemoveFromShrinks(c: Codec, keys: seq<Bytes>, dir: Dir, hash: Bytes)
    ensures forall name :: name in RemoveFrom(c, keys, dir, hash) ==> name in dir && RemoveFrom(c, keys, dir, hash)[name] == dir[name]
  {
    hide BlobName, MetaName, Fp;
  }

  lemma {:induction false} RemoveEachShrinks(c: Codec, keys: seq<Bytes>, dir: Dir, hashes: seq<Bytes>)
    ensures forall name :: name in RemoveEach(c, keys, dir, hashes) ==> name in dir && RemoveEach(c, keys, dir, hashes)[name] == dir[name]
    decreases |hashes|
  {
    hide RemoveFrom;
    if hashes != [] {
      var n := |hashes| - 1;
      RemoveEachShrinks(c, keys, dir, hashes[..n]);
      RemoveFromShrinks(c, keys, RemoveEach(c, keys, dir, hashes[..n]), hashes[n]);
    }
  }

  // ------------------------------------------------------------------
  // The age stage
  // ------------------------------------------------------------------

  predicate Older(dir: Dir, b: Blob, cutoff: int)
    requires BlobName(b.hash, b.fp) in dir
  {
    var m := dir[BlobName(b.hash, b.fp)].mtime;
    m.Some? && m.value < cutoff
  }

  /** What the age stage is asked to remove: visible blobs whose readable modification time lies before the cutoff. */
  ghost predicate IsVictim(c: Codec, keys: seq<Bytes>, dir: Dir, cutoff: int, b: Blob) {
    IsVisible(c, keys, dir, b) && Older(dir, b, cutoff)
  }

  function HashesOf(bs: seq<Blob>): (hs: seq<Bytes>)
    ensures |hs| == |bs|
  {
    seq(|bs|, i requires 0 <= i < |bs| => bs[i].hash)
  }

  method SelectOlder(blobs: seq<Blob>, dir: Dir, cutoff: int) returns (picked: seq<Blob>)
    requires Distinct(blobs) && forall b :: b in blobs ==> BlobName(b.hash, b.fp) in dir
    ensures Distinct(picked) && forall b :: b in picked <==> b in blobs && Older(dir, b, cutoff)
  {
    hide BlobName;
    picked := [];
    for i := 0 to |blobs|
      invariant Distinct(picked) && forall b :: b in picked <==> b in blobs[..i] && Older(dir, b, cutoff)
    {
      assert blobs[..i + 1] == blobs[..i] + [blobs[i]];
      assert blobs[i] in blobs && blobs[i] !in blobs[..i];
      if Older(dir, blobs[i], cutoff) {
        picked := picked + [blobs[i]];
      }
    }
    assert blobs[..|blobs|] == blobs;
  }

  /** Exactly the blobs of `gone` disappear, among all blobs of accepted keys. */
  ghost predicate RemovedExactly(c: Codec, keys: seq<Bytes>, dir: Dir, dir': Dir, gone: seq<Blob>) {
    forall b: Blob :: |b.hash| == HASH_LEN && Accepted(c, keys, b.fp)
      ==> (BlobName(b.hash, b.fp) in dir' <==> BlobName(b.hash, b.fp) in dir && b !in gone)
  }

  /** For every hash, the holders to be removed come before the others in read order. */
  ghost predicate RemovedFirst(c: Codec, keys: seq<Bytes>, dir: Dir, gone: seq<Blob>) {
    forall h, i, j :: |h| == HASH_LEN && 0 <= i < j < |Holders(c, keys, dir, h)| && Blob(h, Holders(c, keys, dir, h)[j]) in gone
      ==> Blob(h, Holders(c, keys, dir, h)[i]) in gone
  }

  // Counting the holders of a hash that are to be removed.

  function GoneAmong(fps: seq<string>, h: Bytes, gone: seq<Blob>): nat {
    if fps == [] then 0 else (if Blob(h, fps[0]) in gone then 1 else 0) + GoneAmong(fps[1..], h, gone)
  }

  lemma {:induction false} GoneAmongSize(fps: seq<string>, h: Bytes, gone: seq<Blob>, s: set<Blob>)
    requires Distinct(fps) && s == set fp | fp in fps && Blob(h, fp) in gone :: Blob(h, fp)
    ensures GoneAmong(fps, h, gone) == |s|
    decreases |fps|
  {
    if fps != [] {
      var rest := fps[1..];
      var s' := set fp | fp in rest && Blob(h, fp) in gone :: Blob(h, fp);
      assert fps == [fps[0]] + rest;
      ElementsCons(fps[0], rest);
      assert Distinct(rest) && fps[0] !in rest;
      GoneAmongSize(rest, h, gone, s');
      assert s == s' + (if Blob(h, fps[0]) in gone then {Blob(h, fps[0])} else {});
    }
  }

  function WithHash(bs: seq<Blob>, h: Bytes): set<Blob> {
    set b | b in bs && b.hash == h
  }

  lemma WithHashAppend(bs: seq<Blob>, b: Blob, h: Bytes)
    requires b !in bs
    ensures WithHash(bs + [b], h) == WithHash(bs, h) + (if b.hash == h then {b} else {}) && b !in WithHash(bs, h)
  {
  }

  lemma HashesOfAppend(bs: seq<Blob>, b: Blob)
    ensures HashesOf(bs + [b]) == HashesOf(bs) + [b.hash]
  {
  }

  lemma {:induction false} CountSize(bs: seq<Blob>, h: Bytes)
    requires Distinct(bs)
    ensures Count(HashesOf(bs), h) == |WithHash(bs, h)|
    decreases |bs|
  {
    hide WithHash, HashesOf;
    if bs == [] {
      CountNothing(bs, h);
    } else {
      var init, last := bs[..|bs| - 1], bs[|bs| - 1];
      assert bs == init + [last] && last !in init;
      CountSize(init, h);
      WithHashAppend(init, last, h);
      HashesOfAppend(init, last);
      assert (HashesOf(init) + [last.hash])[..|init|] == HashesOf(init);
    }
  }

  lemma CountNothing(bs: seq<Blob>, h: Bytes)
    requires bs == []
    ensures HashesOf(bs) == [] && WithHash(bs, h) == {}
  {
  }

  /** The removals of a hash are as many as its holders to be removed. */
  lemma RemovalsMatch(c: Codec, keys: seq<Bytes>, dir: Dir, gone: seq<Blob>, h: Bytes)
    requires |h| == HASH_LEN && Distinct(gone) && forall b :: b in gone ==> Accepted(c, keys, b.fp) && BlobName(b.hash, b.fp) in dir
    ensures Count(HashesOf(gone), h) == GoneAmong(Holders(c, keys, dir, h), h, gone)
  {
    var hs := Holders(c, keys, dir, h);
    HoldersLaws(c, keys, dir, h);
    hide BlobName, Fp, Holders;
    var t := set fp | fp in hs && Blob(h, fp) in gone :: Blob(h, fp);
    forall b | b in WithHash(gone, h) ensures b in t {
      assert b == Blob(h, b.fp) && b.fp in hs;
    }
    assert WithHash(gone, h) == t;
    CountSize(gone, h);
    GoneAmongSize(hs, h, gone, t);
  }

  /** In a list in which what goes comes first, what goes is the prefix of its own count. */
  lemma {:induction false} FirstAreGone(fps: seq<string>, h: Bytes, gone: seq<Blob>)
    requires forall i, j :: 0 <= i < j < |fps| && Blob(h, fps[j]) in gone ==> Blob(h, fps[i]) in gone
    ensures GoneAmong(fps, h, gone) <= |fps|
    ensures forall i :: 0 <= i < |fps| ==> (Blob(h, fps[i]) in gone <==> i < GoneAmong(fps, h, gone))
    decreases |fps|
  {
    if fps != [] {
      FirstAreGone(fps[1..], h, gone);
      forall i | 0 < i < |fps| ensures Blob(h, fps[i]) in gone <==> i < GoneAmong(fps, h, gone) {
        assert fps[i] == fps[1..][i - 1];
      }
    }
  }

  lemma {:induction false} GoneAmongBound(fps: seq<string>, h: Bytes, gone: seq<Blob>)
    ensures GoneAmong(fps, h, gone) <= |fps|
  {
    if fps != [] {
      GoneAmongBound(fps[1..], h, gone);
    }
  }

  ghost predicate AllHeld(c: Codec, keys: seq<Bytes>, dir: Dir, bs: seq<Blob>) {
    forall b :: b in bs ==> |b.hash| == HASH_LEN && Accepted(c, keys, b.fp) && BlobName(b.hash, b.fp) in dir
  }

  lemma HashesHaveLength(c: Codec, keys: seq<Bytes>, dir: Dir, bs: seq<Blob>)
    requires AllHeld(c, keys, dir, bs)
    ensures forall x :: x in HashesOf(bs) ==> |x| == HASH_LEN
  {
    forall x | x in HashesOf(bs) ensures |x| == HASH_LEN {
      var j :| 0 <= j < |bs| && x == bs[j].hash;
      assert bs[j] in bs;
    }
  }

  /** The holders of one hash that are left. */
  lemma HoldersLeft(c: Codec, keys: seq<Bytes>, dir: Dir, gone: seq<Blob>, h: Bytes)
    requires Distinct(gone) && AllHeld(c, keys, dir, gone) && |h| == HASH_LEN
    ensures var hs := Holders(c, keys, dir, h);
            && GoneAmong(hs, h, gone) <= |hs|
            && Holders(c, keys, RemoveEach(c, keys, dir, HashesOf(gone)), h) == hs[GoneAmong(hs, h, gone)..]
  {
    hide BlobName, Fp, Holders, RemoveEach, HashesOf;
    RemovalsMatch(c, keys, dir, gone, h);
    GoneAmongBound(Holders(c, keys, dir, h), h, gone);
    HashesHaveLength(c, keys, dir, gone);
    HoldersAfterEach(c, keys, dir, HashesOf(gone), h);
  }

  /** Which holders of one hash are left, as positions in read order. */
  lemma LeftOver(c: Codec, keys: seq<Bytes>, dir: Dir, gone: seq<Blob>, h: Bytes, i: nat)
    requires Distinct(gone) && AllHeld(c, keys, dir, gone) && |h| == HASH_LEN && i < |Holders(c, keys, dir, h)|
    ensures BlobName(h, Holders(c, keys, dir, h)[i]) in RemoveEach(c, keys, dir, HashesOf(gone))
            <==> i >= GoneAmong(Holders(c, keys, dir, h), h, gone)
    ensures GoneAmong(Holders(c, keys, dir, h), h, gone) <= |Holders(c, keys, dir, h)|
  {
    hide BlobName, Fp, Holders, RemoveEach, HashesOf, GoneAmong, Accepted, AllHeld;
    var hs := Holders(c, keys, dir, h);
    HoldersLeft(c, keys, dir, gone, h);
    HoldersLaws(c, keys, dir, h);
    HoldersLaws(c, keys, RemoveEach(c, keys, dir, HashesOf(gone)), h);
    assert hs[i] in hs;
    InSuffix(hs, GoneAmong(hs, h, gone), i);
  }

  lemma EachOfNone(c: Codec, keys: seq<Bytes>, dir: Dir, hashes: seq<Bytes>)
    requires hashes == []
    ensures RemoveEach(c, keys, dir, hashes) == dir
  {
  }

  lemma EachOneMore(c: Codec, keys: seq<Bytes>, dir: Dir, bs: seq<Blob>, i: nat)
    requires i < |bs|
    ensures RemoveEach(c, keys, dir, HashesOf(bs[..i + 1])) == RemoveFrom(c, keys, RemoveEach(c, keys, dir, HashesOf(bs[..i])), bs[i].hash)
  {
    hide RemoveFrom;
    assert HashesOf(bs[..i + 1])[..i] == HashesOf(bs[..i]);
  }

  lemma {:induction false} SomeStays(fps: seq<string>, h: Bytes, gone: seq<Blob>, fp: string)
    requires fp in fps && Blob(h, fp) !in gone
    ensures GoneAmong(fps, h, gone) < |fps|
  {
    GoneAmongBound(fps[1..], h, gone);
    if fps[0] != fp {
      SomeStays(fps[1..], h, gone, fp);
    }
  }

  /** Removing a list of distinct blobs by hash always finds something to remove. */
  lemma RemovalSucceeds(c: Codec, keys: seq<Bytes>, dir: Dir, bs: seq<Blob>, i: nat)
    requires Distinct(bs) && i < |bs| && forall b :: b in bs ==> IsVisible(c, keys, dir, b)
    ensures Resolve(c, keys, RemoveEach(c, keys, dir, HashesOf(bs[..i])), bs[i].hash).Some?
  {
    var done, b := bs[..i], bs[i];
    var dir', hs := RemoveEach(c, keys, dir, HashesOf(done)), Holders(c, keys, dir, b.hash);
    assert b in bs && b !in done;
    forall x | x in done ensures x in bs {}
    forall x | x in HashesOf(done) ensures |x| == HASH_LEN {
      var j :| 0 <= j < |done| && x == done[j].hash;
      assert done[j] in bs;
    }
    HoldersLaws(c, keys, dir, b.hash);
    assert b == Blob(b.hash, b.fp) && b.fp in hs;
    SomeStays(hs, b.hash, done, b.fp);
    RemovalsMatch(c, keys, dir, done, b.hash);
    HoldersAfterEach(c, keys, dir, HashesOf(done), b.hash);
    ResolveFirst(c, keys, dir', b.hash);
    hide BlobName, Fp, Holders, RemoveEach, Accepted, Count, GoneAmong, Resolve;
  }

  /** Removes every blob older than the cutoff, by hash. */
  method PruneOlderThan(store: DiskArtifactStore, cutoff: int) returns (removed: nat, ghost victims: seq<Blob>)
    modifies store
    ensures Distinct(victims) && forall b :: b in victims <==> IsVictim(store.codec, store.keys.ReadKeys(), old(store.dir), cutoff, b)
    ensures store.dir == RemoveEach(store.codec, store.keys.ReadKeys(), old(store.dir), HashesOf(victims))
    ensures removed == |victims|
    ensures SingleHolder(store.codec, store.keys.ReadKeys(), old(store.dir)) ==>
              forall b :: IsVisible(store.codec, store.keys.ReadKeys(), old(store.dir), b) ==>
                var name := BlobName(b.hash, b.fp); var mtime := old(store.dir)[name].mtime;
                if mtime.Some? && mtime.value < cutoff then name !in store.dir
                else name in store.dir && store.dir[name] == old(store.dir)[name]
  {
    ghost var c, keys, dir := store.codec, store.keys.ReadKeys(), store.dir;
    var blobs := ForEachBlob(store.codec, store.keys.ReadKeys(), store.dir);
    var picked := SelectOlder(blobs, store.dir, cutoff);
    victims := picked;
    removed := 0;
    hide IsVisible, BlobName, RemoveFrom, Resolve, IsVictim, RemoveEach;
    EachOfNone(c, keys, dir, HashesOf(picked[..0]));
    for i := 0 to |picked|
      invariant store.dir == RemoveEach(c, keys, dir, HashesOf(picked[..i]))
      invariant removed == i
    {
      RemovalSucceeds(c, keys, dir, picked, i);
      var gone := store.Remove(picked[i].hash);
      if gone {
        removed := removed + 1;
      }
      EachOneMore(c, keys, dir, picked, i);
    }
    assert picked[..|picked|] == picked;
    if SingleHolder(c, keys, dir) {
      forall b | IsVisible(c, keys, dir, b) ensures PrunedRight(dir, store.dir, cutoff, b) {
        PrunesTheOld(c, keys, dir, cutoff, picked, b);
      }
    }
  }

  /** The blob is gone if it has a readable time before the cutoff, and has the same file otherwise. */
  ghost predicate PrunedRight(dir: Dir, dir': Dir, cutoff: int, b: Blob) {
    var name := BlobName(b.hash, b.fp);
    name in dir ==>
      var mtime := dir[name].mtime;
      if mtime.Some? && mtime.value < cutoff then name !in dir' else name in dir' && dir'[name] == dir[name]
  }

  lemma PrunesTheOld(c: Codec, keys: seq<Bytes>, dir: Dir, cutoff: int, victims: seq<Blob>, b: Blob)
    requires SingleHolder(c, keys, dir) && Distinct(victims) && (forall v :: v in victims <==> IsVictim(c, keys, dir, cutoff, v))
    requires IsVisible(c, keys, dir, b)
    ensures PrunedRight(dir, RemoveEach(c, keys, dir, HashesOf(victims)), cutoff, b)
  {
    SingleHolderPrunesExactly(c, keys, dir, victims);
    RemoveEachShrinks(c, keys, dir, HashesOf(victims));
    hide RemoveEach, HashesOf, BlobName, SingleHolder, Accepted;
  }

  /**
   The age stage is exact if and only if, for every hash, the holders older than the
   cutoff come before its other holders in read order. Removal goes by hash, active key
   first, so a hash that sits under two keys after a re-put can lose the wrong copy.
   */
  lemma AgeStageExactIff(c: Codec, keys: seq<Bytes>, dir: Dir, gone: seq<Blob>)
    requires Distinct(gone) && forall b :: b in gone ==> IsVisible(c, keys, dir, b)
    ensures RemovedExactly(c, keys, dir, RemoveEach(c, keys, dir, HashesOf(gone)), gone) <==> RemovedFirst(c, keys, dir, gone)
  {
    var dir' := RemoveEach(c, keys, dir, HashesOf(gone));
    RemoveEachShrinks(c, keys, dir, HashesOf(gone));
    if RemovedFirst(c, keys, dir, gone) {
      forall b: Blob | |b.hash| == HASH_LEN && Accepted(c, keys, b.fp)
        ensures BlobName(b.hash, b.fp) in dir' <==> BlobName(b.hash, b.fp) in dir && b !in gone
      {
        FirstImpliesExact(c, keys, dir, gone, b);
      }
    }
    if RemovedExactly(c, keys, dir, dir', gone) {
      forall h, i, j | |h| == HASH_LEN && 0 <= i < j < |Holders(c, keys, dir, h)| && Blob(h, Holders(c, keys, dir, h)[j]) in gone
        ensures Blob(h, Holders(c, keys, dir, h)[i]) in gone
      {
        ExactImpliesFirst(c, keys, dir, gone, h, i, j);
      }
    }
    hide BlobName, Fp, Holders, RemoveEach, Accepted;
  }

  lemma FirstImpliesExact(c: Codec, keys: seq<Bytes>, dir: Dir, gone: seq<Blob>, b: Blob)
    requires Distinct(gone) && (forall b :: b in gone ==> IsVisible(c, keys, dir, b)) && RemovedFirst(c, keys, dir, gone)
    requires |b.hash| == HASH_LEN && Accepted(c, keys, b.fp)
    ensures BlobName(b.hash, b.fp) in RemoveEach(c, keys, dir, HashesOf(gone)) <==> BlobName(b.hash, b.fp) in dir && b !in gone
  {
    var hs := Holders(c, keys, dir, b.hash);
    RemoveEachShrinks(c, keys, dir, HashesOf(gone));
    HoldersLaws(c, keys, dir, b.hash);
    hide BlobName, Fp, Holders, RemoveEach, Accepted;
    if BlobName(b.hash, b.fp) in dir {
      assert b.fp in hs;
      var i :| 0 <= i < |hs| && hs[i] == b.fp;
      LeftOver(c, keys, dir, gone, b.hash, i);
      FirstAreGone(hs, b.hash, gone);
      assert b == Blob(b.hash, hs[i]);
    }
  }

  lemma ExactImpliesFirst(c: Codec, keys: seq<Bytes>, dir: Dir, gone: seq<Blob>, h: Bytes, i: nat, j: nat)
    requires Distinct(gone) && (forall b :: b in gone ==> IsVisible(c, keys, dir, b))
    requires RemovedExactly(c, keys, dir, RemoveEach(c, keys, dir, HashesOf(gone)), gone)
    requires |h| == HASH_LEN && i < j < |Holders(c, keys, dir, h)| && Blob(h, Holders(c, keys, dir, h)[j]) in gone
    ensures Blob(h, Holders(c, keys, dir, h)[i]) in gone
  {
    var hs := Holders(c, keys, dir, h);
    HoldersLaws(c, keys, dir, h);
    LeftOver(c, keys, dir, gone, h, i);
    LeftOver(c, keys, dir, gone, h, j);
    hide BlobName, Fp, Holders, RemoveEach, Accepted;
    assert hs[i] in hs && hs[j] in hs;
    var bi, bj := Blob(h, hs[i]), Blob(h, hs[j]);
    assert |bi.hash| == HASH_LEN && |bj.hash| == HASH_LEN;
  }

  /** No hash is held under more than one accepted key. */
  ghost predicate SingleHolder(c: Codec, keys: seq<Bytes>, dir: Dir) {
    forall h :: |h| == HASH_LEN ==> |Holders(c, keys, dir, h)| <= 1
  }

  lemma SingleHolderPrunesExactly(c: Codec, keys: seq<Bytes>, dir: Dir, gone: seq<Blob>)
    requires SingleHolder(c, keys, dir) && Distinct(gone) && forall b :: b in gone ==> IsVisible(c, keys, dir, b)
    ensures RemovedExactly(c, keys, dir, RemoveEach(c, keys, dir, HashesOf(gone)), gone)
  {
    AgeStageExactIff(c, keys, dir, gone);
    hide Holders, RemovedExactly, IsVisible;
  }
}
