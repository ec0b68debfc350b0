/**
 The on-disk store: a directory of named blobs, partitioned by the fingerprint of the
 key that signed them, read under an active key and any number of retired ones.
 */
module ArtifactStore {
  import opened Options
  import opened Sorting
  import opened Envelope
  import opened BlobNames
  import EnvelopeReaders
  import EnvelopeWriters

  datatype File = File(content: Bytes, mtime: Option<int>)

  type Dir = map<string, File>

  /** A rotation-aware key provider: the key that signs, and the keys also accepted for reads. */
  datatype Keys = Keys(active: Bytes, alsoAccept: seq<Bytes>) {
    /** The active key first. */
    function ReadKeys(): seq<Bytes> {
      [active] + alsoAccept
    }
  }

  /** The first eight bytes of the key's hash, in hexadecimal. */
  function Fp(c: Codec, key: Bytes): string {
    var h := c.hash(key);
    Hex(if |h| >= 8 then h[..8] else h)
  }

  lemma FpHasNoDot(c: Codec, key: Bytes)
    ensures '.' !in Fp(c, key)
  {
    var h := c.hash(key);
    UnhexHex(if |h| >= 8 then h[..8] else h);
  }

  /** A fingerprint is sixteen digits that read back as the first eight bytes of the key's hash; so two keys share one exactly if their hashes agree there. */
  lemma FingerprintsClash(c: Codec, key: Bytes, other: Bytes)
    requires WellSized(c)
    ensures |Fp(c, key)| == 16 && Unhex(Fp(c, key)) == Some(c.hash(key)[..8])
    ensures Fp(c, key) == Fp(c, other) <==> c.hash(key)[..8] == c.hash(other)[..8]
  {
    UnhexHex(c.hash(key)[..8]);
    UnhexHex(c.hash(other)[..8]);
  }

  // ------------------------------------------------------------------
  // Resolution
  // ------------------------------------------------------------------

  /** The first read key whose namespace holds `hash`. */
  function Resolve(c: Codec, keys: seq<Bytes>, dir: Dir, hash: Bytes): (r: Option<Bytes>)
    ensures r.Some? ==> r.value in keys && BlobName(hash, Fp(c, r.value)) in dir
  {
    if keys == [] then None
    else if BlobName(hash, Fp(c, keys[0])) in dir then Some(keys[0])
    else Resolve(c, keys[1..], dir, hash)
  }

  function GetFrom(c: Codec, keys: seq<Bytes>, dir: Dir, hash: Bytes): Fallible<Bytes> {
    match Resolve(c, keys, dir, hash)
    case None => Err(NotFound(hash))
    case Some(key) => Fetch(c, dir[BlobName(hash, Fp(c, key))].content, key, hash)
  }

  /** The directory after one removal: the blob goes, and with it its sidecar. */
  function RemoveFrom(c: Codec, keys: seq<Bytes>, dir: Dir, hash: Bytes): Dir {
    match Resolve(c, keys, dir, hash)
    case None => dir
    case Some(key) => dir - {BlobName(hash, Fp(c, key)), MetaName(hash, Fp(c, key))}
  }

  /** There is a blob of `hash` in the namespace of key `k`. */
  predicate Held(c: Codec, dir: Dir, hash: Bytes, k: Bytes) {
    BlobName(hash, Fp(c, k)) in dir
  }

  /** The active key is probed first, whatever the retired keys hold. */
  lemma ActiveFirst(c: Codec, keys: Keys, dir: Dir, hash: Bytes)
    requires Held(c, dir, hash, keys.active)
    ensures Resolve(c, keys.ReadKeys(), dir, hash) == Some(keys.active)
    ensures GetFrom(c, keys.ReadKeys(), dir, hash) == Fetch(c, dir[BlobName(hash, Fp(c, keys.active))].content, keys.active, hash)
  {
    hide BlobName, Fp, Fetch;
  }

  /** Then the retired keys, in the order supplied. */
  lemma RetiredInOrder(c: Codec, keys: Keys, dir: Dir, hash: Bytes, i: nat)
    requires i < |keys.alsoAccept| && Held(c, dir, hash, keys.alsoAccept[i]) && !Held(c, dir, hash, keys.active)
    requires forall j :: 0 <= j < i ==> !Held(c, dir, hash, keys.alsoAccept[j])
    ensures Resolve(c, keys.ReadKeys(), dir, hash) == Some(keys.alsoAccept[i])
  {
    hide BlobName, Fp;
    assert keys.ReadKeys()[1..] == keys.alsoAccept;
    FirstThatHolds(c, keys.alsoAccept, dir, hash, i);
  }

  lemma {:induction false} FirstThatHolds(c: Codec, keys: seq<Bytes>, dir: Dir, hash: Bytes, i: nat)
    requires i < |keys| && Held(c, dir, hash, keys[i]) && forall j :: 0 <= j < i ==> !Held(c, dir, hash, keys[j])
    ensures Resolve(c, keys, dir, hash) == Some(keys[i])
  {
    hide BlobName, Fp;
    if i > 0 {
      FirstThatHolds(c, keys[1..], dir, hash, i - 1);
    }
  }

  /** A key is accepted for reads exactly when it is the active one or one of the others supplied. */
  lemma AcceptedKeys(keys: Keys)
    ensures forall k :: k in keys.ReadKeys() <==> k == keys.active || k in keys.alsoAccept
  {
  }

  // ------------------------------------------------------------------
  // Holders: the accepted namespaces that hold a hash, in read order
  // ------------------------------------------------------------------

  function Holders(c: Codec, keys: seq<Bytes>, dir: Dir, hash: Bytes): seq<string> {
    if keys == [] then []
    else
      var fp, rest := Fp(c, keys[0]), Holders(c, keys[1..], dir, hash);
      if BlobName(hash, fp) in dir then [fp] + Without(rest, fp) else rest
  }

  function Without(s: seq<string>, x: string): seq<string> {
    if s == [] then [] else if s[0] == x then Without(s[1..], x) else [s[0]] + Without(s[1..], x)
  }

  lemma {:induction false} WithoutLaws(s: seq<string>, x: string)
    ensures x !in Without(s, x) && forall y :: y in Without(s, x) <==> y in s && y != x
    ensures Distinct(s) ==> Distinct(Without(s, x))
  {
    if s != [] {
      WithoutLaws(s[1..], x);
      if Distinct(s) && s[0] != x {
        var rest := Without(s[1..], x);
        assert s[0] !in s[1..];
        ElementsCons(s[0], rest);
      }
    }
  }

  lemma {:induction false} HoldersLaws(c: Codec, keys: seq<Bytes>, dir: Dir, hash: Bytes)
    ensures Distinct(Holders(c, keys, dir, hash))
    ensures forall fp :: fp in Holders(c, keys, dir, hash) <==> Accepted(c, keys, fp) && BlobName(hash, fp) in dir
  {
    hide BlobName, Fp;
    if keys != [] {
      var fp, rest := Fp(c, keys[0]), Holders(c, keys[1..], dir, hash);
      HoldersLaws(c, keys[1..], dir, hash);
      WithoutLaws(rest, fp);
      ElementsCons(fp, Without(rest, fp));
      AcceptedCons(c, keys);
    }
  }

  ghost predicate Accepted(c: Codec, keys: seq<Bytes>, fp: string) {
    exists k :: k in keys && Fp(c, k) == fp
  }

  lemma AcceptedCons(c: Codec, keys: seq<Bytes>)
    requires keys != []
    ensures forall fp :: Accepted(c, keys, fp) <==> fp == Fp(c, keys[0]) || Accepted(c, keys[1..], fp)
  {
    hide Fp;
    forall fp ensures Accepted(c, keys, fp) <==> fp == Fp(c, keys[0]) || Accepted(c, keys[1..], fp) {
      if fp == Fp(c, keys[0]) {
        assert keys[0] in keys;
      }
      if Accepted(c, keys[1..], fp) {
        var k :| k in keys[1..] && Fp(c, k) == fp;
        assert k in keys;
      }
    }
  }

  /** Resolution finds the first holder. */
  lemma {:induction false} ResolveFirst(c: Codec, keys: seq<Bytes>, dir: Dir, hash: Bytes)
    ensures Resolve(c, keys, dir, hash).Some? <==> Holders(c, keys, dir, hash) != []
    ensures Resolve(c, keys, dir, hash).Some? ==> Fp(c, Resolve(c, keys, dir, hash).value) == Holders(c, keys, dir, hash)[0]
  {
    if keys != [] {
      ResolveFirst(c, keys[1..], dir, hash);
    }
  }

  /** `contains` is true exactly when some accepted namespace holds the hash. */
  lemma ContainsIff(c: Codec, keys: seq<Bytes>, dir: Dir, hash: Bytes)
    ensures Resolve(c, keys, dir, hash).Some? <==> exists k :: k in keys && BlobName(hash, Fp(c, k)) in dir
  {
    hide BlobName, Fp;
    ResolveFirst(c, keys, dir, hash);
    HoldersLaws(c, keys, dir, hash);
    var hs := Holders(c, keys, dir, hash);
    if hs != [] {
      assert hs[0] in hs;
    }
    if k :| k in keys && BlobName(hash, Fp(c, k)) in dir {
      assert Accepted(c, keys, Fp(c, k));
    }
  }

  /** A key is found exactly when the active key or one of the others supplied holds the hash, and the key found is one of these. */
  lemma ResolvesIff(c: Codec, keys: Keys, dir: Dir, hash: Bytes)
    ensures Resolve(c, keys.ReadKeys(), dir, hash).Some? <==> exists k :: (k == keys.active || k in keys.alsoAccept) && Held(c, dir, hash, k)
    ensures var r := Resolve(c, keys.ReadKeys(), dir, hash);
            r.Some? ==> (r.value == keys.active || r.value in keys.alsoAccept) && Held(c, dir, hash, r.value)
  {
    AcceptedKeys(keys);
    ContainsIff(c, keys.ReadKeys(), dir, hash);
    hide BlobName, Fp, Keys.ReadKeys;
    var r := Resolve(c, keys.ReadKeys(), dir, hash);
    if k :| (k == keys.active || k in keys.alsoAccept) && Held(c, dir, hash, k) {
      assert k in keys.ReadKeys() && BlobName(hash, Fp(c, k)) in dir;
    }
    if r.Some? {
      assert Held(c, dir, hash, r.value);
    }
  }

  // ------------------------------------------------------------------
  // Removal
  // ------------------------------------------------------------------

  lemma {:induction false} HoldersFilter(c: Codec, keys: seq<Bytes>, dir: Dir, dir': Dir, hash: Bytes)
    requires forall k :: k in keys ==> (BlobName(hash, Fp(c, k)) in dir <==> BlobName(hash, Fp(c, k)) in dir')
    ensures Holders(c, keys, dir, hash) == Holders(c, keys, dir', hash)
  {
    hide BlobName, Fp;
    if keys != [] {
      assert keys[0] in keys;
      HoldersFilter(c, keys[1..], dir, dir', hash);
    }
  }

  lemma {:induction false} WithoutWithout(s: seq<string>, x: string, y: string)
    ensures Without(Without(s, x), y) == Without(Without(s, y), x)
  {
    if s != [] {
      WithoutWithout(s[1..], x, y);
    }
  }

  /** Taking one name out of the directory takes one holder out of the list. */
  lemma {:induction false} HoldersMinus(c: Codec, keys: seq<Bytes>, dir: Dir, dir': Dir, hash: Bytes, fp: string)
    requires forall k :: k in keys ==> (BlobName(hash, Fp(c, k)) in dir' <==> BlobName(hash, Fp(c, k)) in dir && Fp(c, k) != fp)
    ensures Holders(c, keys, dir', hash) == Without(Holders(c, keys, dir, hash), fp)
  {
    hide BlobName, Fp;
    if keys != [] {
      assert keys[0] in keys;
      HoldersMinus(c, keys[1..], dir, dir', hash, fp);
      var fp0, rest := Fp(c, keys[0]), Holders(c, keys[1..], dir, hash);
      WithoutWithout(rest, fp0, fp);
      WithoutTwice(rest, fp);
      if BlobName(hash, fp0) in dir {
        assert ([fp0] + Without(rest, fp0))[1..] == Without(rest, fp0);
      }
    }
  }

  lemma {:induction false} WithoutTwice(s: seq<string>, x: string)
    ensures Without(Without(s, x), x) == Without(s, x)
  {
    if s != [] {
      WithoutTwice(s[1..], x);
    }
  }

  lemma {:induction false} WithoutAbsent(s: seq<string>, x: string)
    requires x !in s
    ensures Without(s, x) == s
  {
    if s != [] {
      WithoutAbsent(s[1..], x);
    }
  }

  /** Which blob names survive the removal of one blob and its sidecar. */
  lemma NamesAfter(dir: Dir, hash: Bytes, fp: string, h: Bytes, f: string)
    requires |hash| == |h| == HASH_LEN && '.' !in fp && '.' !in f
    ensures BlobName(h, f) in dir - {BlobName(hash, fp), MetaName(hash, fp)} <==> BlobName(h, f) in dir && !(h == hash && f == fp)
  {
    BlobNameInjective(h, f, hash, fp);
    SidecarNeverParses(hash, fp);
    ParsesIff(BlobName(h, f), h, f);
    hide BlobName, MetaName, ParseBlobFilename;
  }

  /** A removal takes the first holder of its hash and no holder of any other. */
  lemma RemovalTakesFirstHolder(c: Codec, keys: seq<Bytes>, dir: Dir, hash: Bytes, h: Bytes)
    requires |hash| == |h| == HASH_LEN
    ensures var hs := Holders(c, keys, dir, h);
            Holders(c, keys, RemoveFrom(c, keys, dir, hash), h) == if h == hash && hs != [] then hs[1..] else hs
  {
    ResolveFirst(c, keys, dir, hash);
    var key := Resolve(c, keys, dir, hash);
    if key.Some? {
      var fp, hs, dir' := Fp(c, key.value), Holders(c, keys, dir, h), RemoveFrom(c, keys, dir, hash);
      forall k | k in keys
        ensures BlobName(h, Fp(c, k)) in dir' <==> BlobName(h, Fp(c, k)) in dir && !(h == hash && Fp(c, k) == fp)
      {
        FpHasNoDot(c, key.value);
        FpHasNoDot(c, k);
        NamesAfter(dir, hash, fp, h, Fp(c, k));
      }
      hide BlobName, MetaName, Fp;
      if h == hash {
        HoldersMinus(c, keys, dir, dir', hash, fp);
        HoldersLaws(c, keys, dir, hash);
        assert hs[0] == fp && hs == [fp] + hs[1..];
        ElementsCons(fp, hs[1..]);
        WithoutAbsent(hs[1..], fp);
      } else {
        HoldersFilter(c, keys, dir, dir', h);
      }
    } else {
      hide BlobName, MetaName, Fp;
    }
  }

  /** The directory after `n` removals of the same hash. */
  function RemoveTimes(c: Codec, keys: seq<Bytes>, dir: Dir, hash: Bytes, n: nat): Dir {
    if n == 0 then dir else RemoveFrom(c, keys, RemoveTimes(c, keys, dir, hash, n - 1), hash)
  }

  lemma {:induction false} HoldersAfterTimes(c: Codec, keys: seq<Bytes>, dir: Dir, hash: Bytes, n: nat)
    requires |hash| == HASH_LEN && n <= |Holders(c, keys, dir, hash)|
    ensures Holders(c, keys, RemoveTimes(c, keys, dir, hash, n), hash) == Holders(c, keys, dir, hash)[n..]
  {
    if n > 0 {
      HoldersAfterTimes(c, keys, dir, hash, n - 1);
      RemovalTakesFirstHolder(c, keys, RemoveTimes(c, keys, dir, hash, n - 1), hash, hash);
    }
    hide Holders, RemoveFrom;
  }

  /** Calling `remove` until it answers false takes exactly as many true answers as there are accepted namespaces holding the hash. */
  lemma RemoveUntilFalse(c: Codec, keys: seq<Bytes>, dir: Dir, hash: Bytes, spaces: set<string>, n: nat)
    requires |hash| == HASH_LEN && n <= |spaces|
    requires forall fp :: fp in spaces <==> Accepted(c, keys, fp) && BlobName(hash, fp) in dir
    ensures Resolve(c, keys, RemoveTimes(c, keys, dir, hash, n), hash).Some? <==> n < |spaces|
  {
    HoldersLaws(c, keys, dir, hash);
    var hs := Holders(c, keys, dir, hash);
    DistinctSize(hs);
    assert Elements(hs) == spaces;
    HoldersAfterTimes(c, keys, dir, hash, n);
    ResolveFirst(c, keys, RemoveTimes(c, keys, dir, hash, n), hash);
    hide Holders, Resolve, RemoveTimes, BlobName, Fp;
  }

  // ------------------------------------------------------------------
  // Listing
  // ------------------------------------------------------------------

  datatype Blob = Blob(hash: Bytes, fp: string)

  /** The name reads as a blob of an accepted key and its file could hold an envelope. */
  ghost predicate IsVisible(c: Codec, keys: seq<Bytes>, dir: Dir, b: Blob) {
    && |b.hash| == HASH_LEN && Accepted(c, keys, b.fp)
    && BlobName(b.hash, b.fp) in dir && |dir[BlobName(b.hash, b.fp)].content| >= MIN_LEN
  }

  /** The hashes `list` reports. */
  ghost predicate IsListed(c: Codec, keys: seq<Bytes>, dir: Dir, hash: Bytes) {
    exists fp :: IsVisible(c, keys, dir, Blob(hash, fp))
  }

  /** One directory scan: every visible blob exactly once, in directory order. */
  method ForEachBlob(c: Codec, keys: seq<Bytes>, dir: Dir) returns (blobs: seq<Blob>)
    ensures Distinct(blobs) && forall b :: b in blobs <==> IsVisible(c, keys, dir, b)
  {
    hide BlobName, Fp, ParseBlobFilename;
    var accepted := Fingerprints(c, keys);
    var entries := Enumerate(dir.Keys);
    blobs := [];
    for i := 0 to |entries|
      invariant Distinct(blobs)
      invariant forall b :: b in blobs <==> IsVisible(c, keys, dir, b) && BlobName(b.hash, b.fp) in entries[..i]
    {
      var name := entries[i];
      assert name in Elements(entries);
      assert entries[..i + 1] == entries[..i] + [name];
      assert name !in entries[..i];
      var parsed := ParseBlobFilename(name);
      VisibleName(c, keys, dir, name);
      if parsed.Some? && parsed.value.1 in accepted && |dir[name].content| >= MIN_LEN {
        var b := Blob(parsed.value.0, parsed.value.1);
        assert b !in blobs;
        blobs := blobs + [b];
      }
    }
    assert entries[..|entries|] == entries;
    forall b | IsVisible(c, keys, dir, b) ensures b in blobs {
      assert BlobName(b.hash, b.fp) in Elements(entries);
    }
  }

  /** What a directory entry says about visible blobs. */
  lemma VisibleName(c: Codec, keys: seq<Bytes>, dir: Dir, name: string)
    requires name in dir
    ensures forall b :: IsVisible(c, keys, dir, b) && BlobName(b.hash, b.fp) == name <==>
              ParseBlobFilename(name) == Some((b.hash, b.fp)) && Accepted(c, keys, b.fp) && |dir[name].content| >= MIN_LEN
  {
    forall b: Blob
      ensures IsVisible(c, keys, dir, b) && BlobName(b.hash, b.fp) == name <==>
              ParseBlobFilename(name) == Some((b.hash, b.fp)) && Accepted(c, keys, b.fp) && |dir[name].content| >= MIN_LEN
    {
      ParsesIff(name, b.hash, b.fp);
      if Accepted(c, keys, b.fp) {
        var k :| k in keys && Fp(c, k) == b.fp;
        FpHasNoDot(c, k);
      }
    }
  }

  method Fingerprints(c: Codec, keys: seq<Bytes>) returns (fps: set<string>)
    ensures forall fp :: fp in fps <==> Accepted(c, keys, fp)
  {
    hide Fp;
    fps := {};
    for i := 0 to |keys|
      invariant forall fp :: fp in fps <==> exists k :: k in keys[..i] && Fp(c, k) == fp
    {
      assert keys[..i + 1] == keys[..i] + [keys[i]];
      assert keys[i] in keys[..i + 1];
      fps := fps + {Fp(c, keys[i])};
    }
    assert keys[..|keys|] == keys;
  }

  /** `list` without duplicates: the hashes of the visible blobs. */
  method ListHashes(c: Codec, keys: seq<Bytes>, dir: Dir) returns (hashes: set<Bytes>)
    ensures forall h :: h in hashes <==> IsListed(c, keys, dir, h)
  {
    var blobs := ForEachBlob(c, keys, dir);
    hashes := set b | b in blobs :: b.hash;
    forall h ensures h in hashes <==> IsListed(c, keys, dir, h) {
      if IsListed(c, keys, dir, h) {
        var fp :| IsVisible(c, keys, dir, Blob(h, fp));
        assert Blob(h, fp) in blobs;
      }
      if h in hashes {
        var b :| b in blobs && b.hash == h;
        assert IsVisible(c, keys, dir, Blob(h, b.fp));
      }
    }
  }

  /** A hash is listed exactly when one of its holders is long enough to be an envelope; in particular what is listed is contained. */
  lemma ListedIff(c: Codec, keys: seq<Bytes>, dir: Dir, hash: Bytes)
    requires |hash| == HASH_LEN
    ensures IsListed(c, keys, dir, hash) <==>
            exists fp :: fp in Holders(c, keys, dir, hash) && BlobName(hash, fp) in dir && |dir[BlobName(hash, fp)].content| >= MIN_LEN
    ensures IsListed(c, keys, dir, hash) ==> Resolve(c, keys, dir, hash).Some?
  {
    HoldersLaws(c, keys, dir, hash);
    ResolveFirst(c, keys, dir, hash);
    hide BlobName, Fp, Holders, Accepted, Resolve;
    if IsListed(c, keys, dir, hash) {
      var fp :| IsVisible(c, keys, dir, Blob(hash, fp));
      assert fp in Holders(c, keys, dir, hash);
    }
    forall fp | fp in Holders(c, keys, dir, hash) && BlobName(hash, fp) in dir && |dir[BlobName(hash, fp)].content| >= MIN_LEN
      ensures IsListed(c, keys, dir, hash)
    {
      assert IsVisible(c, keys, dir, Blob(hash, fp));
    }
  }

  lemma ListedUnder(c: Codec, keys: Keys, dir: Dir, h: Bytes)
    ensures IsListed(c, keys.ReadKeys(), dir, h) <==>
            |h| == HASH_LEN && exists k :: (k == keys.active || k in keys.alsoAccept) && Held(c, dir, h, k) && |dir[BlobName(h, Fp(c, k))].content| >= MIN_LEN
  {
    AcceptedKeys(keys);
    hide BlobName, Fp;
    if IsListed(c, keys.ReadKeys(), dir, h) {
      var fp :| IsVisible(c, keys.ReadKeys(), dir, Blob(h, fp));
      var k :| k in keys.ReadKeys() && Fp(c, k) == fp;
    }
    forall k | |h| == HASH_LEN && k in keys.ReadKeys() && BlobName(h, Fp(c, k)) in dir && |dir[BlobName(h, Fp(c, k))].content| >= MIN_LEN
      ensures IsListed(c, keys.ReadKeys(), dir, h)
    {
      assert IsVisible(c, keys.ReadKeys(), dir, Blob(h, Fp(c, k)));
    }
  }

  // ------------------------------------------------------------------
  // The store
  // ------------------------------------------------------------------

  class DiskArtifactStore {
    const codec: Codec
    const keys: Keys
    const level: int
    var dir: Dir

    constructor (codec: Codec, keys: Keys, level: int, dir: Dir)
      ensures this.codec == codec && this.keys == keys && this.level == level && this.dir == dir
    {
      this.codec, this.keys, this.level, this.dir := codec, keys, level, dir;
    }

    /** Publishes a complete envelope under the active key, in one rename. */
    method Put(payload: Bytes, now: int) returns (r: Fallible<Bytes>)
      modifies this
      ensures |payload| > MAX_PAYLOAD_LEN ==> r == Err(TooLarge(|payload|, MAX_PAYLOAD_LEN)) && dir == old(dir)
      ensures |payload| <= MAX_PAYLOAD_LEN ==> r == Ok(codec.hash(payload)) && dir == Published(codec, keys.active, level, payload, now, old(dir))
    {
      var sealedFile := EnvelopeWriters.Put(codec, keys.active, level, payload);
      if sealedFile.Err? {
        return Err(sealedFile.error);
      }
      var (hash, tmp) := sealedFile.value;
      dir := dir[BlobName(hash, Fp(codec, keys.active)) := File(tmp, Some(now))];
      r := Ok(hash);
    }

    method PutFrom(src: EnvelopeWriters.Source, now: int) returns (r: Fallible<Bytes>)
      requires src.pos == 0
      modifies this, src`pos
      ensures |src.data| > MAX_PAYLOAD_LEN ==> r.Err? && r.error.TooLarge? && dir == old(dir)
      ensures |src.data| <= MAX_PAYLOAD_LEN ==> r == Ok(codec.hash(src.data)) && dir == Published(codec, keys.active, level, src.data, now, old(dir))
    {
      var sealedFile := EnvelopeWriters.PutFrom(codec, keys.active, level, src);
      if sealedFile.Err? {
        return Err(sealedFile.error);
      }
      var (hash, tmp) := sealedFile.value;
      dir := dir[BlobName(hash, Fp(codec, keys.active)) := File(tmp, Some(now))];
      r := Ok(hash);
    }

    method ResolveReadKey(hash: Bytes) returns (r: Option<(string, Bytes)>)
      ensures var k := Resolve(codec, keys.ReadKeys(), dir, hash);
              r == if k.Some? then Some((BlobName(hash, Fp(codec, k.value)), k.value)) else None
    {
      hide BlobName, Fp;
      var readKeys := keys.ReadKeys();
      for i := 0 to |readKeys|
        invariant Resolve(codec, readKeys, dir, hash) == Resolve(codec, readKeys[i..], dir, hash)
      {
        var key := readKeys[i];
        var path := BlobName(hash, Fp(codec, key));
        if path in dir {
          return Some((path, key));
        }
        assert readKeys[i..][1..] == readKeys[i + 1..];
      }
      r := None;
    }

    /** The active copy if there is one; otherwise a retired key's, and NotFound only if no accepted key holds the hash. */
    method Get(hash: Bytes) returns (r: Fallible<Bytes>)
      ensures r == GetFrom(codec, keys.ReadKeys(), dir, hash)
      ensures Held(codec, dir, hash, keys.active) ==>
                r == Fetch(codec, dir[BlobName(hash, Fp(codec, keys.active))].content, keys.active, hash)
      ensures (exists k :: (k == keys.active || k in keys.alsoAccept) && Held(codec, dir, hash, k)) ==>
                exists k :: (k == keys.active || k in keys.alsoAccept) && Held(codec, dir, hash, k) && r == Fetch(codec, dir[BlobName(hash, Fp(codec, k))].content, k, hash)
      ensures !(exists k :: (k == keys.active || k in keys.alsoAccept) && Held(codec, dir, hash, k)) ==> r == Err(NotFound(hash))
    {
      ResolvesIff(codec, keys, dir, hash);
      if Held(codec, dir, hash, keys.active) {
        ActiveFirst(codec, keys, dir, hash);
      }
      hide BlobName, Fp, Fetch;
      var found := ResolveReadKey(hash);
      if found.None? {
        return Err(NotFound(hash));
      }
      var (path, key) := found.value;
      var handle := new EnvelopeReaders.Handle(dir[path].content);
      r := EnvelopeReaders.Get(codec, handle, key, hash);
    }

    method Contains(hash: Bytes) returns (present: bool)
      ensures present <==> exists k :: (k == keys.active || k in keys.alsoAccept) && Held(codec, dir, hash, k)
    {
      ResolvesIff(codec, keys, dir, hash);
      hide *;
      var found := ResolveReadKey(hash);
      present := found.Some?;
    }

    /** Unlinks the blob of the first accepted key that holds the hash, and its sidecar, and nothing else. */
    method Remove(hash: Bytes) returns (removed: bool)
      modifies this
      ensures removed <==> exists k :: (k == keys.active || k in keys.alsoAccept) && Held(codec, old(dir), hash, k)
      ensures !removed ==> dir == old(dir)
      ensures removed ==> exists k :: (k == keys.active || k in keys.alsoAccept) && Held(codec, old(dir), hash, k) && dir == old(dir) - {BlobName(hash, Fp(codec, k)), MetaName(hash, Fp(codec, k))}
      ensures Held(codec, old(dir), hash, keys.active) ==>
                dir == old(dir) - {BlobName(hash, Fp(codec, keys.active)), MetaName(hash, Fp(codec, keys.active))}
      ensures removed == Resolve(codec, keys.ReadKeys(), old(dir), hash).Some?
      ensures dir == RemoveFrom(codec, keys.ReadKeys(), old(dir), hash)
    {
      ResolvesIff(codec, keys, dir, hash);
      if Held(codec, dir, hash, keys.active) {
        ActiveFirst(codec, keys, dir, hash);
      }
      hide BlobName, MetaName, Fp;
      var found := ResolveReadKey(hash);
      if found.None? {
        return false;
      }
      var (path, key) := found.value;
      dir := dir - {path};
      var metaPath := MetaName(hash, Fp(codec, key));
      dir := dir - {metaPath};
      assert dir == old(dir) - {path, metaPath};
      removed := true;
    }

    /** The hashes of the accepted keys' blobs that are long enough to be envelopes. */
    method List() returns (hashes: set<Bytes>)
      ensures forall h :: h in hashes <==> IsListed(codec, keys.ReadKeys(), dir, h)
      ensures forall h :: h in hashes <==>
                |h| == HASH_LEN && exists k :: (k == keys.active || k in keys.alsoAccept) && Held(codec, dir, h, k) && |dir[BlobName(h, Fp(codec, k))].content| >= MIN_LEN
    {
      forall h ensures IsListed(codec, keys.ReadKeys(), dir, h) <==>
                         |h| == HASH_LEN && exists k :: (k == keys.active || k in keys.alsoAccept) && Held(codec, dir, h, k) && |dir[BlobName(h, Fp(codec, k))].content| >= MIN_LEN
      {
        ListedUnder(codec, keys, dir, h);
      }
      hashes := ListHashes(codec, keys.ReadKeys(), dir);
    }
  }

  /** The directory after a payload was sealed and renamed into place. */
  function Published(c: Codec, key: Bytes, level: int, payload: Bytes, now: int, dir: Dir): Dir {
    dir[BlobName(c.hash(payload), Fp(c, key)) := File(Sealed(c, key, level, payload), Some(now))]
  }
}
