/**
 Key rotation over whole histories of a store directory: puts under whatever key was
 active at the time, removals under whatever keys were accepted, and reads afterwards.
 */
module StoreRotation {
  import opened Options
  import opened Envelope
  import opened BlobNames
  import opened ArtifactStore
  import EnvelopeWriters

  /** A step in the life of a directory. `PutUnder` is a put by a store whose active key is `key`. */
  datatype Op =
    | PutUnder(key: Bytes, level: int, payload: Bytes, now: int)
    | RemoveUnder(readKeys: seq<Bytes>, hash: Bytes)
    | Unlink(name: string)

  function Apply(c: Codec, dir: Dir, op: Op): Dir {
    match op
    case PutUnder(key, level, payload, now) =>
      if |payload| > MAX_PAYLOAD_LEN then dir else Published(c, key, level, payload, now, dir)
    case RemoveUnder(readKeys, hash) => RemoveFrom(c, readKeys, dir, hash)
    case Unlink(name) => dir - {name}
  }

  function History(c: Codec, ops: seq<Op>): Dir {
    if ops == [] then map[] else Apply(c, History(c, ops[..|ops| - 1]), ops[|ops| - 1])
  }

  function PayloadsOf(ops: seq<Op>): set<Bytes> {
    set op | op in ops && op.PutUnder? :: op.payload
  }

  ghost predicate SignedWithin(ops: seq<Op>, universe: set<Bytes>) {
    forall op :: op in ops && op.PutUnder? ==> op.key in universe
  }

  ghost predicate DistinctFingerprints(c: Codec, universe: set<Bytes>) {
    forall a, b :: a in universe && b in universe && Fp(c, a) == Fp(c, b) ==> a == b
  }

  /** The file is the envelope, under `key`, of a payload from `stored` that hashes to `hash`. */
  ghost predicate Genuine(c: Codec, stored: set<Bytes>, key: Bytes, hash: Bytes, file: Bytes) {
    exists level, p :: p in stored && |p| <= MAX_PAYLOAD_LEN && c.hash(p) == hash && file == Sealed(c, key, level, p)
  }

  ghost predicate AllGenuine(c: Codec, universe: set<Bytes>, stored: set<Bytes>, dir: Dir) {
    forall key, hash :: key in universe && |hash| == HASH_LEN && BlobName(hash, Fp(c, key)) in dir
      ==> Genuine(c, stored, key, hash, dir[BlobName(hash, Fp(c, key))].content)
  }

  lemma PutKeepsGenuine(c: Codec, universe: set<Bytes>, stored: set<Bytes>, dir: Dir, op: Op)
    requires WellSized(c) && DistinctFingerprints(c, universe) && AllGenuine(c, universe, stored, dir)
    requires op.PutUnder? && op.key in universe && op.payload in stored
    ensures AllGenuine(c, universe, stored, Apply(c, dir, op))
  {
    var dir' := Apply(c, dir, op);
    var h := c.hash(op.payload);
    forall key, hash | key in universe && |hash| == HASH_LEN && BlobName(hash, Fp(c, key)) in dir'
      ensures Genuine(c, stored, key, hash, dir'[BlobName(hash, Fp(c, key))].content)
    {
      FpHasNoDot(c, key);
      FpHasNoDot(c, op.key);
      BlobNameInjective(hash, Fp(c, key), h, Fp(c, op.key));
      hide BlobName, Fp, Sealed;
      if |op.payload| <= MAX_PAYLOAD_LEN && hash == h && key == op.key {
        assert dir'[BlobName(hash, Fp(c, key))].content == Sealed(c, key, op.level, op.payload);
      } else {
        assert BlobName(hash, Fp(c, key)) in dir;
      }
    }
  }

  lemma RemovalKeepsGenuine(c: Codec, universe: set<Bytes>, stored: set<Bytes>, dir: Dir, names: set<string>)
    requires AllGenuine(c, universe, stored, dir)
    ensures AllGenuine(c, universe, stored, dir - names)
  {
    hide BlobName, Fp, Genuine;
  }

  lemma MoreStored(c: Codec, universe: set<Bytes>, stored: set<Bytes>, more: set<Bytes>, dir: Dir)
    requires AllGenuine(c, universe, stored, dir) && stored <= more
    ensures AllGenuine(c, universe, more, dir)
  {
    hide BlobName, Fp, Sealed;
    forall key, hash | key in universe && |hash| == HASH_LEN && BlobName(hash, Fp(c, key)) in dir
      ensures Genuine(c, more, key, hash, dir[BlobName(hash, Fp(c, key))].content)
    {
      assert Genuine(c, stored, key, hash, dir[BlobName(hash, Fp(c, key))].content);
    }
  }

  /** After any history signed by keys with distinct fingerprints, every blob is the envelope of a payload that was put. */
  lemma {:induction false} HistoryIsGenuine(c: Codec, universe: set<Bytes>, ops: seq<Op>)
    requires WellSized(c) && DistinctFingerprints(c, universe) && SignedWithin(ops, universe)
    ensures AllGenuine(c, universe, PayloadsOf(ops), History(c, ops))
    decreases |ops|
  {
    hide BlobName, Fp, Genuine, AllGenuine, WellSized;
    if ops == [] {
      NothingIsGenuine(c, universe, PayloadsOf(ops));
    } else {
      var n := |ops| - 1;
      var init, op := ops[..n], ops[n];
      var dir := History(c, init);
      HistoryIsGenuine(c, universe, init);
      assert op in ops;
      forall p | p in PayloadsOf(init) ensures p in PayloadsOf(ops) {
        var o :| o in init && o.PutUnder? && o.payload == p;
        assert o in ops;
      }
      MoreStored(c, universe, PayloadsOf(init), PayloadsOf(ops), dir);
      match op
      case PutUnder(_, _, _, _) => PutKeepsGenuine(c, universe, PayloadsOf(ops), dir, op);
      case RemoveUnder(readKeys, hash) =>
        RemovalIsUnlinking(c, readKeys, dir, hash);
        RemovalKeepsGenuine(c, universe, PayloadsOf(ops), dir, dir.Keys - RemoveFrom(c, readKeys, dir, hash).Keys);
      case Unlink(name) => RemovalKeepsGenuine(c, universe, PayloadsOf(ops), dir, {name});
    }
  }

  lemma NothingIsGenuine(c: Codec, universe: set<Bytes>, stored: set<Bytes>)
    ensures AllGenuine(c, universe, stored, map[])
  {
  }

  lemma RemovalIsUnlinking(c: Codec, readKeys: seq<Bytes>, dir: Dir, hash: Bytes)
    ensures var dir' := RemoveFrom(c, readKeys, dir, hash); dir' == dir - (dir.Keys - dir'.Keys)
  {
    hide BlobName, MetaName, Fp;
  }

  /**
   Rotation coherence. After any history of puts under any keys of a universe with
   distinct fingerprints, removals and unlinks, let a store accept some keys of that
   universe. If the blob a put made under one of them is still there, `get` returns
   exactly its payload, whichever accepted key it resolves to, as long as no two
   payloads that were put collide under the hash.
   */
  lemma RotationRoundTrip(c: Codec, universe: set<Bytes>, ops: seq<Op>, readKeys: seq<Bytes>, key: Bytes, payload: Bytes)
    requires WellSized(c) && Lossless(c) && DistinctFingerprints(c, universe) && SignedWithin(ops, universe)
    requires (forall k :: k in readKeys ==> k in universe) && key in readKeys && payload in PayloadsOf(ops)
    requires BlobName(c.hash(payload), Fp(c, key)) in History(c, ops)
    requires forall p :: p in PayloadsOf(ops) && c.hash(p) == c.hash(payload) ==> p == payload
    ensures GetFrom(c, readKeys, History(c, ops), c.hash(payload)) == Ok(payload)
  {
    var dir, hash := History(c, ops), c.hash(payload);
    HistoryIsGenuine(c, universe, ops);
    ContainsIff(c, readKeys, dir, hash);
    var found := Resolve(c, readKeys, dir, hash).value;
    assert |hash| == HASH_LEN;
    assert Genuine(c, PayloadsOf(ops), found, hash, dir[BlobName(hash, Fp(c, found))].content);
    hide BlobName, Fp, Sealed, Fetch, History;
    var level, p :| p in PayloadsOf(ops) && |p| <= MAX_PAYLOAD_LEN && c.hash(p) == hash
                    && dir[BlobName(hash, Fp(c, found))].content == Sealed(c, found, level, p);
    EnvelopeWriters.AcceptedPayloadsDecode(c, found, level, p);
  }

  /** The same for a rotating provider: what was put under its active key or under any retired one it still accepts reads back. */
  lemma ProviderRoundTrip(c: Codec, universe: set<Bytes>, ops: seq<Op>, keys: Keys, key: Bytes, payload: Bytes)
    requires WellSized(c) && Lossless(c) && DistinctFingerprints(c, universe) && SignedWithin(ops, universe)
    requires keys.active in universe && (forall k :: k in keys.alsoAccept ==> k in universe)
    requires (key == keys.active || key in keys.alsoAccept) && payload in PayloadsOf(ops)
    requires BlobName(c.hash(payload), Fp(c, key)) in History(c, ops)
    requires forall p :: p in PayloadsOf(ops) && c.hash(p) == c.hash(payload) ==> p == payload
    ensures GetFrom(c, keys.ReadKeys(), History(c, ops), c.hash(payload)) == Ok(payload)
  {
    AcceptedKeys(keys);
    RotationRoundTrip(c, universe, ops, keys.ReadKeys(), key, payload);
  }

  /**
   Distinct fingerprints are essential: a fresh blob that resolves to another read key of
   the same fingerprint is tried under that key alone. It reads back if and only if the
   two keys happen to give it the same tag, and is refused otherwise.
   */
  lemma SharedFingerprintReadsIff(c: Codec, keys: seq<Bytes>, found: Bytes, signer: Bytes, level: int, payload: Bytes, now: int, dir: Dir)
    requires WellSized(c) && Lossless(c) && |payload| <= MAX_PAYLOAD_LEN
    requires Resolve(c, keys, Published(c, signer, level, payload, now, dir), c.hash(payload)) == Some(found) && Fp(c, found) == Fp(c, signer)
    ensures var got := GetFrom(c, keys, Published(c, signer, level, payload, now, dir), c.hash(payload));
            var sameTag := c.mac(found, Prefix(c, level, payload)) == c.mac(signer, Prefix(c, level, payload));
            (got == Ok(payload) <==> sameTag) && (!sameTag ==> got == Err(BadHmac))
  {
    hide BlobName, Fp, Prefix, Decode, Resolve;
    if c.mac(found, Prefix(c, level, payload)) == c.mac(signer, Prefix(c, level, payload)) {
      assert Sealed(c, found, level, payload) == Sealed(c, signer, level, payload);
      EnvelopeWriters.AcceptedPayloadsDecode(c, found, level, payload);
    } else {
      WrongKeyIsBadHmac(c, signer, found, level, payload, MAX_DECOMPRESSED_LEN);
    }
  }
}
