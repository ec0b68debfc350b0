/**
 Readers and writers of one directory always get on: a writer publishes its whole envelope,
 a reader probes its keys in order and then gets from the file it opens exactly what a read
 of that content gives. Stated for steps that nothing comes between, from any state that
 interleavings reach.
 */
module StoreProgress {
  import opened Options
  import opened Envelope
  import opened EnvelopeReaders
  import opened BlobNames
  import opened ArtifactStore
  import opened StoreInterleaving

  ghost predicate Possible(c: Codec, st: State, acts: seq<Action>)
    decreases |acts|
  {
    acts != [] ==> Enabled(c, st, acts[0]) && Possible(c, Apply(c, st, acts[0]), acts[1..])
  }

  ghost function After(c: Codec, st: State, acts: seq<Action>): State
    requires Possible(c, st, acts)
    decreases |acts|
  {
    if acts == [] then st else After(c, Apply(c, st, acts[0]), acts[1..])
  }

  /** One step in front of others. */
  lemma StepThen(c: Codec, st: State, a: Action, acts: seq<Action>)
    requires Enabled(c, st, a) && Possible(c, Apply(c, st, a), acts)
    ensures Possible(c, st, [a] + acts) && After(c, st, [a] + acts) == After(c, Apply(c, st, a), acts)
  {
    hide Enabled, Apply;
    assert ([a] + acts)[1..] == acts;
  }

  lemma NoSteps(c: Codec, st: State)
    ensures Possible(c, st, []) && After(c, st, []) == st
  {
  }

  // ------------------------------------------------------------------
  // Writers
  // ------------------------------------------------------------------

  /** From wherever it stands, a writer writes the rest of its envelope and publishes it under its name; no other name and no reader changes. */
  lemma WriterPublishes(c: Codec, st: State, w: nat)
    requires Inv(c, st) && w < |st.writers| && !st.writers[w].published
    ensures var wr := st.writers[w];
            var acts := [WriteSome(w, |Sealed(c, wr.key, wr.level, wr.payload)|), Publish(w)];
            && Possible(c, st, acts)
            && var end := After(c, st, acts);
            && wr.inode < |end.inodes| && end.inodes[wr.inode] == Sealed(c, wr.key, wr.level, wr.payload)
            && end.names == st.names[BlobName(c.hash(wr.payload), Fp(c, wr.key)) := wr.inode] && end.readers == st.readers
  {
    var wr := st.writers[w];
    assert WriterSound(c, st.inodes, wr);
    hide Sealed, BlobName, Fp;
    var envelope := Sealed(c, wr.key, wr.level, wr.payload);
    assert envelope[..|envelope|] == envelope;
    var s1 := Apply(c, st, WriteSome(w, |envelope|));
    var s2 := Apply(c, s1, Publish(w));
    hide Apply, Enabled;
    NoSteps(c, s2);
    StepThen(c, s1, Publish(w), []);
    assert [Publish(w)] + [] == [Publish(w)];
    StepThen(c, st, WriteSome(w, |envelope|), [Publish(w)]);
    assert [WriteSome(w, |envelope|)] + [Publish(w)] == [WriteSome(w, |envelope|), Publish(w)];
  }

  // ------------------------------------------------------------------
  // Readers
  // ------------------------------------------------------------------

  function Probes(r: nat, n: nat): seq<Action> {
    if n == 0 then [] else [Probe(r)] + Probes(r, n - 1)
  }

  /** A reader takes the first of its keys under which the hash is there. */
  lemma {:induction false} ProbesInOrder(c: Codec, st: State, r: nat, hash: Bytes, keys: seq<Bytes>, j: nat)
    requires r < |st.readers| && st.readers[r] == Probing(hash, keys) && j <= |keys|
    requires forall i :: 0 <= i < j ==> BlobName(hash, Fp(c, keys[i])) !in st.names
    requires j < |keys| ==> BlobName(hash, Fp(c, keys[j])) in st.names
    ensures Possible(c, st, Probes(r, j + 1))
    ensures After(c, st, Probes(r, j + 1)) == st.(readers := st.readers[r := if j < |keys| then StoreInterleaving.Resolved(hash, keys[j]) else Missed(hash)])
    decreases j
  {
    hide BlobName, Fp, Sealed, Pushed;
    var next := Apply(c, st, Probe(r));
    if j == 0 {
      NoSteps(c, next);
      assert Probes(r, 1) == [Probe(r)] + [];
      StepThen(c, st, Probe(r), []);
    } else {
      assert BlobName(hash, Fp(c, keys[0])) !in st.names;
      assert next.readers[r] == Probing(hash, keys[1..]);
      forall i | 0 <= i < j - 1 ensures BlobName(hash, Fp(c, keys[1..][i])) !in st.names {
        assert keys[1..][i] == keys[i + 1];
      }
      ProbesInOrder(c, next, r, hash, keys[1..], j - 1);
      StepThen(c, st, Probe(r), Probes(r, j));
    }
  }

  function With(st: State, r: nat, rd: Reader): State
    requires r < |st.readers|
  {
    st.(readers := st.readers[r := rd])
  }

  /** A reader's step changes that reader alone. */
  lemma ReaderStep(c: Codec, st: State, r: nat, rd: Reader, a: Action)
    requires r < |st.readers| && ReaderAction(a) && a.r == r && Enabled(c, With(st, r, rd), a)
    ensures Apply(c, With(st, r, rd), a) == With(st, r, ReaderAfter(c, With(st, r, rd), a))
  {
    hide ReaderAfter, Enabled;
    var next := ReaderAfter(c, With(st, r, rd), a);
    assert st.readers[r := rd][r := next] == st.readers[r := next];
  }

  /** Where a reader stands after the tag of the open file was checked. */
  function Checked(c: Codec, bytes: Bytes, hash: Bytes, key: Bytes, inode: nat): Reader {
    if Authentic(c, bytes, key) then Decoding(hash, key, inode, [])
    else
      var verdict := Decode(c, bytes, key, MAX_DECOMPRESSED_LEN);
      StoreInterleaving.Refused(hash, key, inode, if verdict.Err? then verdict.error else BadHmac)
  }

  lemma OpenStep(c: Codec, st: State, r: nat, hash: Bytes, key: Bytes)
    requires r < |st.readers| && st.readers[r] == StoreInterleaving.Resolved(hash, key) && BlobName(hash, Fp(c, key)) in st.names
    ensures Enabled(c, st, Open(r))
    ensures Apply(c, st, Open(r)) == With(st, r, Verifying(hash, key, st.names[BlobName(hash, Fp(c, key))], []))
  {
    hide BlobName, Fp, Authentic, Decode, Pushed, Sealed;
  }

  lemma ReadStep(c: Codec, st: State, r: nat, hash: Bytes, key: Bytes, inode: nat)
    requires r < |st.readers| && inode < |st.inodes|
    ensures var s, a := With(st, r, Verifying(hash, key, inode, [])), ReadSome(r, |st.inodes[inode]|);
            && Enabled(c, s, a) && Apply(c, s, a) == With(st, r, Verifying(hash, key, inode, st.inodes[inode]))
  {
    hide BlobName, Fp, Authentic, Decode, Pushed, Sealed;
    var bytes := st.inodes[inode];
    assert [] + bytes[0..|bytes|] == bytes;
    ReaderStep(c, st, r, Verifying(hash, key, inode, []), ReadSome(r, |bytes|));
  }

  lemma CheckStep(c: Codec, st: State, r: nat, hash: Bytes, key: Bytes, inode: nat)
    requires r < |st.readers| && inode < |st.inodes|
    ensures var s := With(st, r, Verifying(hash, key, inode, st.inodes[inode]));
            && Enabled(c, s, CheckTag(r)) && Apply(c, s, CheckTag(r)) == With(st, r, Checked(c, st.inodes[inode], hash, key, inode))
  {
    hide BlobName, Fp, Authentic, Decode, Pushed, Sealed;
    ReaderStep(c, st, r, Verifying(hash, key, inode, st.inodes[inode]), CheckTag(r));
  }

  /** Opens the file, reads it to its end and checks its tag. */
  lemma VerifiesAlone(c: Codec, st: State, r: nat, hash: Bytes, key: Bytes)
    requires NamesSound(st) && r < |st.readers| && st.readers[r] == StoreInterleaving.Resolved(hash, key) && BlobName(hash, Fp(c, key)) in st.names
    ensures var inode := st.names[BlobName(hash, Fp(c, key))];
            && inode < |st.inodes|
            && var acts := [Open(r)] + ([ReadSome(r, |st.inodes[inode]|)] + ([CheckTag(r)] + []));
            && Possible(c, st, acts) && After(c, st, acts) == With(st, r, Checked(c, st.inodes[inode], hash, key, inode))
  {
    hide BlobName, Fp, Enabled, Apply, Possible, After, Checked;
    var inode := st.names[BlobName(hash, Fp(c, key))];
    assert Settled(st, inode);
    var n := |st.inodes[inode]|;
    var s1, s2 := With(st, r, Verifying(hash, key, inode, [])), With(st, r, Verifying(hash, key, inode, st.inodes[inode]));
    OpenStep(c, st, r, hash, key);
    ReadStep(c, st, r, hash, key, inode);
    CheckStep(c, st, r, hash, key, inode);
    hide With;
    NoSteps(c, Apply(c, s2, CheckTag(r)));
    StepThen(c, s2, CheckTag(r), []);
    StepThen(c, s1, ReadSome(r, n), [CheckTag(r)] + []);
    StepThen(c, st, Open(r), [ReadSome(r, n)] + ([CheckTag(r)] + []));
  }

  /** Decodes the open file into a writer that takes everything. */
  lemma DecodesAlone(c: Codec, st: State, r: nat, hash: Bytes, key: Bytes, inode: nat)
    requires r < |st.readers| && inode < |st.inodes| && st.readers[r] == Decoding(hash, key, inode, []) && Authentic(c, st.inodes[inode], key)
    ensures var bytes := st.inodes[inode];
            var acts := [Deliver(r, |Pushed(c, bytes)|)] + ([Finish(r, false)] + []);
            && Possible(c, st, acts)
            && After(c, st, acts) == With(st, r, StoreInterleaving.Finished(hash, key, inode, Pushed(c, bytes), false, Length(Fetch(c, bytes, key, hash))))
  {
    var bytes := st.inodes[inode];
    var pushed, result := Pushed(c, bytes), Length(Fetch(c, bytes, key, hash));
    assert With(st, r, st.readers[r]) == st;
    var r1, r2 := Decoding(hash, key, inode, pushed), StoreInterleaving.Finished(hash, key, inode, pushed, false, result);
    var s1, s2 := With(st, r, r1), With(st, r, r2);
    assert Length(Requested(c, OpenBody(c, BodyOf(bytes), bytes[20..HEADER_LEN], MAX_DECOMPRESSED_LEN), hash)) == result;
    hide BlobName, Fp, Authentic, Decode, Pushed, Sealed, Fetch, OpenBody;
    assert Enabled(c, st, Deliver(r, |pushed|)) && Enabled(c, s1, Finish(r, false));
    ReaderStep(c, st, r, st.readers[r], Deliver(r, |pushed|));
    ReaderStep(c, st, r, r1, Finish(r, false));
    assert [] + pushed[0..|pushed|] == pushed;
    assert Apply(c, st, Deliver(r, |pushed|)) == s1 && Apply(c, s1, Finish(r, false)) == s2;
    hide Enabled, Apply;
    NoSteps(c, s2);
    StepThen(c, s1, Finish(r, false), []);
    StepThen(c, st, Deliver(r, |pushed|), [Finish(r, false)] + []);
  }

  lemma {:induction false} RunOn(c: Codec, st: State, acts: seq<Action>, more: seq<Action>)
    requires Possible(c, st, acts) && Possible(c, After(c, st, acts), more)
    ensures Possible(c, st, acts + more) && After(c, st, acts + more) == After(c, After(c, st, acts), more)
    decreases |acts|
  {
    hide Enabled, Apply;
    if acts == [] {
      assert acts + more == more;
    } else {
      assert (acts + more)[1..] == acts[1..] + more;
      RunOn(c, Apply(c, st, acts[0]), acts[1..], more);
    }
  }

  lemma RefusedWithError(c: Codec, bytes: Bytes, key: Bytes, hash: Bytes)
    ensures !Authentic(c, bytes, key) ==> Decode(c, bytes, key, MAX_DECOMPRESSED_LEN).Err? && Fetch(c, bytes, key, hash) == Decode(c, bytes, key, MAX_DECOMPRESSED_LEN)
  {
    hide OpenBody;
  }

  /**
   A reader whose key has the file gets from it, in steps that nothing comes between,
   exactly what a read of the content gives: the payload with its length, or the error.
   */
  lemma ReadsAlone(c: Codec, st: State, r: nat, hash: Bytes, key: Bytes) returns (acts: seq<Action>)
    requires NamesSound(st) && r < |st.readers| && st.readers[r] == StoreInterleaving.Resolved(hash, key) && BlobName(hash, Fp(c, key)) in st.names
    ensures Possible(c, st, acts) && forall a :: a in acts ==> ReaderAction(a) && a.r == r
    ensures var inode := st.names[BlobName(hash, Fp(c, key))];
            && inode < |st.inodes|
            && var fetched, rd := Fetch(c, st.inodes[inode], key, hash), After(c, st, acts).readers;
            && After(c, st, acts) == st.(readers := rd) && |rd| == |st.readers|
            && (fetched.Ok? ==> rd[r] == StoreInterleaving.Finished(hash, key, inode, fetched.value, false, Ok(|fetched.value|)))
            && (fetched.Err? ==> || rd[r] == StoreInterleaving.Refused(hash, key, inode, fetched.error)
                                 || (rd[r].Finished? && rd[r].result == Err(fetched.error)))
  {
    hide Enabled, Apply, Possible, After, Decode, Fetch, BlobName, Fp, Pushed, NamesSound;
    var inode := st.names[BlobName(hash, Fp(c, key))];
    VerifiesAlone(c, st, r, hash, key);
    var bytes := st.inodes[inode];
    acts := [Open(r)] + ([ReadSome(r, |bytes|)] + ([CheckTag(r)] + []));
    var mid := After(c, st, acts);
    RefusedWithError(c, bytes, key, hash);
    hide Authentic;
    if Authentic(c, bytes, key) {
      DecodesAlone(c, mid, r, hash, key, inode);
      var more := [Deliver(r, |Pushed(c, bytes)|)] + ([Finish(r, false)] + []);
      RunOn(c, st, acts, more);
      acts := acts + more;
      if Fetch(c, bytes, key, hash).Ok? {
        FetchedIsPushed(c, bytes, key, hash);
      }
    }
  }

  /** What a writer publishes, a reader with its key then reads back. */
  lemma PublishedIsRead(c: Codec, st: State, w: nat, r: nat) returns (acts: seq<Action>)
    requires Inv(c, st) && WellSized(c) && Lossless(c)
    requires w < |st.writers| && !st.writers[w].published && |st.writers[w].payload| <= MAX_PAYLOAD_LEN
    requires var wr := st.writers[w]; r < |st.readers| && st.readers[r] == StoreInterleaving.Resolved(c.hash(wr.payload), wr.key)
    ensures Possible(c, st, acts)
    ensures var wr := st.writers[w];
            && r < |After(c, st, acts).readers|
            && After(c, st, acts).readers[r] == StoreInterleaving.Finished(c.hash(wr.payload), wr.key, wr.inode, wr.payload, false, Ok(|wr.payload|))
  {
    hide Enabled, Apply, Possible, After, Decode, Sealed, BlobName, Fp, Inv;
    var wr := st.writers[w];
    var first := [WriteSome(w, |Sealed(c, wr.key, wr.level, wr.payload)|), Publish(w)];
    WriterPublishes(c, st, w);
    var mid := After(c, st, first);
    KeepsInv(c, st, first);
    var rest := ReadsAlone(c, mid, r, c.hash(wr.payload), wr.key);
    RunOn(c, st, first, rest);
    acts := first + rest;
    SealedDecodes(c, wr.key, wr.level, wr.payload, MAX_DECOMPRESSED_LEN);
  }

  lemma {:induction false} KeepsInv(c: Codec, st: State, acts: seq<Action>)
    requires Inv(c, st) && Possible(c, st, acts)
    ensures NamesSound(After(c, st, acts))
    decreases |acts|
  {
    if acts != [] {
      InvStep(c, st, acts[0]);
      KeepsInv(c, Apply(c, st, acts[0]), acts[1..]);
    }
    hide Apply, Enabled, WritersSound, ReadersSound, NamesSound;
  }
}
