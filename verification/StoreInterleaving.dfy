/**
 Readers, writers and removals on one directory, interleaved step by step. A writer
 fills a temporary inode in pieces and publishes it by renaming; a removal unlinks a
 name; a reader probes its keys, opens once, authenticates the handle piece by piece and
 then decodes the same handle piece by piece. Proved here: whatever races, every byte a
 reader hands out comes from content that was authenticated, no reader ever sees a
 partial envelope, and the outcome is that of a read of the pinned content alone.
 */
module StoreInterleaving {
  import opened Options
  import opened Envelope
  import opened EnvelopeReaders
  import opened BlobNames
  import opened ArtifactStore

  datatype Writer = Writer(key: Bytes, level: int, payload: Bytes, inode: nat, published: bool)

  datatype Reader =
    | Probing(hash: Bytes, keys: seq<Bytes>)
    | Resolved(hash: Bytes, key: Bytes)
    | Verifying(hash: Bytes, key: Bytes, inode: nat, seen: Bytes)
    | Decoding(hash: Bytes, key: Bytes, inode: nat, out: Bytes)
    | Refused(hash: Bytes, key: Bytes, inode: nat, error: Error)      // not authentic: nothing was handed out
    | Finished(hash: Bytes, key: Bytes, inode: nat, out: Bytes, interrupted: bool, result: Fallible<nat>)
    | Broken(hash: Bytes, key: Bytes, inode: nat, out: Bytes)         // the caller's writer failed
    | Missed(hash: Bytes)

  /** Inodes are numbered in order of creation; those below `initial` were there from the start. */
  datatype State = State(
    initial: nat,
    inodes: seq<Bytes>,
    names: map<string, nat>,
    writers: seq<Writer>,
    readers: seq<Reader>)

  datatype Action =
    | BeginPut(key: Bytes, level: int, payload: Bytes)
    | WriteSome(w: nat, upTo: nat)
    | Publish(w: nat)
    | Unlink(name: string)
    | BeginGet(hash: Bytes, keys: seq<Bytes>)
    | Probe(r: nat)
    | Open(r: nat)
    | ReadSome(r: nat, upTo: nat)
    | CheckTag(r: nat)
    | Deliver(r: nat, upTo: nat)
    | Finish(r: nat, interrupted: bool)   // whether the writer was interrupted on the way
    | WriterFails(r: nat)

  function EnvelopeOf(c: Codec, w: Writer): Bytes {
    Sealed(c, w.key, w.level, w.payload)
  }

  function NameOf(c: Codec, w: Writer): string {
    BlobName(c.hash(w.payload), Fp(c, w.key))
  }

  /** The inode a reader has open, if any. */
  function Pinned(r: Reader): Option<nat> {
    if r.Probing? || r.Resolved? || r.Missed? then None else Some(r.inode)
  }

  // ------------------------------------------------------------------
  // Steps
  // ------------------------------------------------------------------

  predicate WriterAction(a: Action) {
    a.WriteSome? || a.Publish?
  }

  predicate ReaderAction(a: Action) {
    a.Probe? || a.Open? || a.ReadSome? || a.CheckTag? || a.Deliver? || a.Finish? || a.WriterFails?
  }

  predicate Enabled(c: Codec, st: State, a: Action) {
    && (WriterAction(a) ==> a.w < |st.writers| && !st.writers[a.w].published && st.writers[a.w].inode < |st.inodes|)
    && (ReaderAction(a) ==> a.r < |st.readers| && (Pinned(st.readers[a.r]).Some? ==> st.readers[a.r].inode < |st.inodes|))
    && match a
       case WriteSome(w, n) => |st.inodes[st.writers[w].inode]| <= n <= |EnvelopeOf(c, st.writers[w])|
       case Publish(w) => st.inodes[st.writers[w].inode] == EnvelopeOf(c, st.writers[w])
       case Probe(r) => st.readers[r].Probing?
       case Open(r) => st.readers[r].Resolved?
       case ReadSome(r, n) => st.readers[r].Verifying? && |st.readers[r].seen| <= n <= |st.inodes[st.readers[r].inode]|
       case CheckTag(r) => st.readers[r].Verifying? && |st.readers[r].seen| == |st.inodes[st.readers[r].inode]|
       case Deliver(r, n) =>
         st.readers[r].Decoding? && |st.inodes[st.readers[r].inode]| >= MIN_LEN
         && |st.readers[r].out| <= n <= |Pushed(c, st.inodes[st.readers[r].inode])|
       case Finish(r, _) =>
         st.readers[r].Decoding? && |st.inodes[st.readers[r].inode]| >= MIN_LEN
         && st.readers[r].out == Pushed(c, st.inodes[st.readers[r].inode])
       case WriterFails(r) => st.readers[r].Decoding?
       case _ => true
  }

  /** What a reader becomes; it reads nothing but the directory and its pinned inode. */
  function ReaderAfter(c: Codec, st: State, a: Action): Reader
    requires ReaderAction(a) && Enabled(c, st, a)
  {
    var rd := st.readers[a.r];
    match a
    case Probe(_) =>
      if rd.keys == [] then Missed(rd.hash)
      else if BlobName(rd.hash, Fp(c, rd.keys[0])) in st.names then Resolved(rd.hash, rd.keys[0])
      else Probing(rd.hash, rd.keys[1..])
    case Open(_) =>
      var path := BlobName(rd.hash, Fp(c, rd.key));
      if path in st.names then Verifying(rd.hash, rd.key, st.names[path], []) else Missed(rd.hash)
    case ReadSome(_, n) => Verifying(rd.hash, rd.key, rd.inode, rd.seen + st.inodes[rd.inode][|rd.seen|..n])
    case CheckTag(_) =>
      if Authentic(c, rd.seen, rd.key) then Decoding(rd.hash, rd.key, rd.inode, [])
      else
        var verdict := Decode(c, rd.seen, rd.key, MAX_DECOMPRESSED_LEN);
        Refused(rd.hash, rd.key, rd.inode, if verdict.Err? then verdict.error else BadHmac)
    case Deliver(_, n) =>
      Decoding(rd.hash, rd.key, rd.inode, rd.out + Pushed(c, st.inodes[rd.inode])[|rd.out|..n])
    case Finish(_, interrupted) =>
      var bytes := st.inodes[rd.inode];
      Finished(rd.hash, rd.key, rd.inode, rd.out, interrupted,
               Blamed(Length(Requested(c, OpenBody(c, BodyOf(bytes), bytes[20..HEADER_LEN], MAX_DECOMPRESSED_LEN), rd.hash)), false, interrupted))
    case WriterFails(_) => Broken(rd.hash, rd.key, rd.inode, rd.out)
  }

  function Apply(c: Codec, st: State, a: Action): State
    requires Enabled(c, st, a)
  {
    if ReaderAction(a) then st.(readers := st.readers[a.r := ReaderAfter(c, st, a)])
    else match a
      case BeginPut(key, level, payload) =>
        st.(inodes := st.inodes + [[]], writers := st.writers + [Writer(key, level, payload, |st.inodes|, false)])
      case WriteSome(w, n) =>
        st.(inodes := st.inodes[st.writers[w].inode := EnvelopeOf(c, st.writers[w])[..n]])
      case Publish(w) =>
        st.(writers := st.writers[w := st.writers[w].(published := true)],
            names := st.names[NameOf(c, st.writers[w]) := st.writers[w].inode])
      case Unlink(name) => st.(names := st.names - {name})
      case BeginGet(hash, keys) => st.(readers := st.readers + [Probing(hash, keys)])
  }

  /** A directory of finished files, whatever they contain, with nobody at work. */
  ghost predicate Initially(st: State) {
    && st.writers == [] && st.readers == [] && st.initial == |st.inodes|
    && forall name :: name in st.names ==> st.names[name] < |st.inodes|
  }

  ghost predicate IsRun(c: Codec, states: seq<State>, acts: seq<Action>) {
    && |states| == |acts| + 1 && Initially(states[0])
    && forall i :: 0 <= i < |acts| ==> Enabled(c, states[i], acts[i]) && states[i + 1] == Apply(c, states[i], acts[i])
  }

  // ------------------------------------------------------------------
  // The invariant
  // ------------------------------------------------------------------

  /** The inode of no unpublished writer: its content will never change again. */
  ghost predicate Settled(st: State, i: nat) {
    i < |st.inodes| && forall w :: 0 <= w < |st.writers| && st.writers[w].inode == i ==> st.writers[w].published
  }

  /** The content of a settled inode is a file that was there, or the whole envelope of a put. */
  ghost predicate Whole(c: Codec, st: State, i: nat) {
    || i < st.initial
    || exists w :: 0 <= w < |st.writers| && st.writers[w].inode == i < |st.inodes| && st.inodes[i] == EnvelopeOf(c, st.writers[w])
  }

  /** Every writer made one inode, in order, and has written a prefix of its envelope to it. */
  ghost predicate WritersSound(c: Codec, st: State) {
    && |st.inodes| == st.initial + |st.writers|
    && forall w :: 0 <= w < |st.writers| ==>
         st.writers[w].inode == st.initial + w && WriterSound(c, st.inodes, st.writers[w])
  }

  predicate WriterSound(c: Codec, inodes: seq<Bytes>, w: Writer) {
    && w.inode < |inodes| && inodes[w.inode] <= EnvelopeOf(c, w)
    && (w.published ==> inodes[w.inode] == EnvelopeOf(c, w))
  }

  /** What a reader knows about the content it pinned. */
  predicate ReaderSound(c: Codec, bytes: Bytes, r: Reader) {
    match r
    case Verifying(_, _, _, seen) => seen <= bytes
    case Decoding(_, key, _, out) => Authentic(c, bytes, key) && out <= Pushed(c, bytes)
    case Broken(_, key, _, out) => Authentic(c, bytes, key) && out <= Pushed(c, bytes)
    case Refused(_, key, _, e) => !Authentic(c, bytes, key) && Decode(c, bytes, key, MAX_DECOMPRESSED_LEN) == Err(e)
    case Finished(hash, key, _, out, interrupted, result) =>
      Authentic(c, bytes, key) && out == Pushed(c, bytes) && result == Blamed(Length(Fetch(c, bytes, key, hash)), false, interrupted)
    case _ => true
  }

  ghost predicate ReadersSound(c: Codec, st: State) {
    forall r :: 0 <= r < |st.readers| && Pinned(st.readers[r]).Some? ==>
      Settled(st, st.readers[r].inode) && ReaderSound(c, st.inodes[st.readers[r].inode], st.readers[r])
  }

  ghost predicate NamesSound(st: State) {
    forall name :: name in st.names ==> Settled(st, st.names[name])
  }

  ghost predicate Inv(c: Codec, st: State) {
    WritersSound(c, st) && ReadersSound(c, st) && NamesSound(st)
  }

  // ------------------------------------------------------------------
  // Preservation
  // ------------------------------------------------------------------

  /** Settled inodes stay settled and keep their content. */
  lemma SettledStays(c: Codec, st: State, a: Action, i: nat)
    requires WritersSound(c, st) && Enabled(c, st, a) && Settled(st, i)
    ensures Settled(Apply(c, st, a), i) && Apply(c, st, a).inodes[i] == st.inodes[i]
  {
    hide EnvelopeOf, ReaderAfter, NameOf;
  }

  lemma WritersStay(c: Codec, st: State, a: Action)
    requires WritersSound(c, st) && Enabled(c, st, a)
    ensures WritersSound(c, Apply(c, st, a))
  {
    hide Sealed, ReaderAfter, NameOf, Pushed;
  }

  lemma NamesStay(c: Codec, st: State, a: Action)
    requires Inv(c, st) && Enabled(c, st, a)
    ensures NamesSound(Apply(c, st, a))
  {
    var st' := Apply(c, st, a);
    forall name | name in st'.names ensures Settled(st', st'.names[name]) {
      if name in st.names && st.names[name] == st'.names[name] {
        SettledStays(c, st, a, st.names[name]);
      } else {
        assert a.Publish?;
        PublishSettles(c, st, a);
      }
    }
    hide EnvelopeOf, ReaderAfter, NameOf, Pushed, WriterSound;
  }

  lemma PublishSettles(c: Codec, st: State, a: Action)
    requires WritersSound(c, st) && Enabled(c, st, a) && a.Publish?
    ensures Settled(Apply(c, st, a), st.writers[a.w].inode)
  {
  }

  /** The reader that moves stays sound about its pinned content. */
  lemma MoverSound(c: Codec, st: State, a: Action)
    requires Inv(c, st) && ReaderAction(a) && Enabled(c, st, a)
    ensures var rd := ReaderAfter(c, st, a);
            Pinned(rd).Some? ==> Settled(st, rd.inode) && ReaderSound(c, st.inodes[rd.inode], rd)
  {
    var rd := st.readers[a.r];
    assert Pinned(rd).Some? ==> Settled(st, rd.inode) && ReaderSound(c, st.inodes[rd.inode], rd);
    match a
    case Probe(_) =>
    case Open(_) =>
    case ReadSome(_, n) => ExtendPrefix(rd.seen, st.inodes[rd.inode], n);
    case CheckTag(_) => assert rd.seen == st.inodes[rd.inode];
    case Deliver(_, n) => ExtendPrefix(rd.out, Pushed(c, st.inodes[rd.inode]), n);
    case Finish(_, _) =>
    case WriterFails(_) =>
  }

  lemma ExtendPrefix(s: Bytes, whole: Bytes, n: nat)
    requires s <= whole && |s| <= n <= |whole|
    ensures s + whole[|s|..n] == whole[..n]
  {
  }

  lemma ReadersStay(c: Codec, st: State, a: Action)
    requires Inv(c, st) && Enabled(c, st, a)
    ensures ReadersSound(c, Apply(c, st, a))
  {
    var st' := Apply(c, st, a);
    forall r | 0 <= r < |st'.readers| && Pinned(st'.readers[r]).Some?
      ensures Settled(st', st'.readers[r].inode) && ReaderSound(c, st'.inodes[st'.readers[r].inode], st'.readers[r])
    {
      if ReaderAction(a) && r == a.r {
        MoverSound(c, st, a);
      } else {
        assert r < |st.readers| && st.readers[r] == st'.readers[r];
      }
      SettledStays(c, st, a, st'.readers[r].inode);
    }
    hide EnvelopeOf, ReaderAfter, NameOf, Pushed, ReaderSound, Settled, WritersSound;
  }

  lemma InvStep(c: Codec, st: State, a: Action)
    requires Inv(c, st) && Enabled(c, st, a)
    ensures Inv(c, Apply(c, st, a))
  {
    WritersStay(c, st, a);
    ReadersStay(c, st, a);
    NamesStay(c, st, a);
    hide Apply, WritersSound, ReadersSound, NamesSound;
  }

  lemma {:induction false} InvAlways(c: Codec, states: seq<State>, acts: seq<Action>, n: nat)
    requires IsRun(c, states, acts) && n < |states|
    ensures Inv(c, states[n])
  {
    hide Apply, Enabled, Inv;
    if n == 0 {
      InvInitially(c, states[0]);
    } else {
      InvAlways(c, states, acts, n - 1);
      assert states[n - 1 + 1] == Apply(c, states[n - 1], acts[n - 1]);
      InvStep(c, states[n - 1], acts[n - 1]);
    }
  }

  lemma InvInitially(c: Codec, st: State)
    requires Initially(st)
    ensures Inv(c, st)
  {
  }

  // ------------------------------------------------------------------
  // What readers see
  // ------------------------------------------------------------------

  lemma SettledIsWhole(c: Codec, st: State, i: nat)
    requires WritersSound(c, st) && Settled(st, i)
    ensures Whole(c, st, i)
  {
    if i >= st.initial {
      assert WriterSound(c, st.inodes, st.writers[i - st.initial]);
    }
  }

  /**
   No reader ever sees a partial envelope, and none hands out a byte that was not
   authenticated: in every interleaving, what a reader has open is an initial file or
   the whole envelope of a put; a reader that has handed out anything has content whose
   tag verified under its key, and handed out a prefix of what that content decodes to.
   */
  lemma OnlyAuthenticBytes(c: Codec, states: seq<State>, acts: seq<Action>, n: nat, r: nat)
    requires IsRun(c, states, acts) && n < |states| && r < |states[n].readers| && Pinned(states[n].readers[r]).Some?
    ensures var st, rd := states[n], states[n].readers[r];
            && rd.inode < |st.inodes| && Whole(c, st, rd.inode)
            && (rd.Decoding? || rd.Broken? || rd.Finished? ==>
                  Authentic(c, st.inodes[rd.inode], rd.key) && rd.out <= Pushed(c, st.inodes[rd.inode]))
  {
    InvAlways(c, states, acts, n);
    var st, rd := states[n], states[n].readers[r];
    assert Settled(st, rd.inode) && ReaderSound(c, st.inodes[rd.inode], rd);
    SettledIsWhole(c, st, rd.inode);
    hide Authentic, Pushed, Fetch, Decode;
  }

  /** If a read succeeds, what was pushed to the writer is the payload. */
  lemma FetchedIsPushed(c: Codec, bytes: Bytes, key: Bytes, hash: Bytes)
    requires Fetch(c, bytes, key, hash).Ok?
    ensures |bytes| >= MIN_LEN && Pushed(c, bytes) == Fetch(c, bytes, key, hash).value
  {
    hide HeaderError;
  }

  /**
   The outcome of a read is a function of the pinned content and of whether the writer was
   interrupted: a reader that finishes, whatever raced with it, reports exactly what `get`
   on that inode reports, a decompression error after an interruption being an I/O error;
   on success it handed out exactly the payload; and one that was refused reports the
   error of `get` and handed out nothing.
   */
  lemma OutcomeIsOfPinnedContent(c: Codec, states: seq<State>, acts: seq<Action>, n: nat, r: nat)
    requires IsRun(c, states, acts) && n < |states| && r < |states[n].readers|
    requires states[n].readers[r].Finished? || states[n].readers[r].Refused?
    ensures var st, rd := states[n], states[n].readers[r];
            && rd.inode < |st.inodes|
            && var fetched := Fetch(c, st.inodes[rd.inode], rd.key, rd.hash);
            && (rd.Refused? ==> fetched == Err(rd.error))
            && (rd.Finished? ==> rd.result == Blamed(Length(fetched), false, rd.interrupted) && (fetched.Ok? ==> rd.out == fetched.value && rd.result == Ok(|rd.out|)))
  {
    InvAlways(c, states, acts, n);
    var st, rd := states[n], states[n].readers[r];
    assert Settled(st, rd.inode) && ReaderSound(c, st.inodes[rd.inode], rd);
    if rd.Finished? && Fetch(c, st.inodes[rd.inode], rd.key, rd.hash).Ok? {
      FetchedIsPushed(c, st.inodes[rd.inode], rd.key, rd.hash);
    }
    hide Authentic, Pushed, Decode;
  }

  /** While a reader has an inode open, no step of anyone changes its content. */
  lemma PinnedContentIsStable(c: Codec, states: seq<State>, acts: seq<Action>, n: nat, r: nat)
    requires IsRun(c, states, acts) && n < |acts| && r < |states[n].readers| && Pinned(states[n].readers[r]).Some?
    ensures var i := states[n].readers[r].inode;
            i < |states[n].inodes| && i < |states[n + 1].inodes| && states[n + 1].inodes[i] == states[n].inodes[i]
  {
    InvAlways(c, states, acts, n);
    assert states[n + 1] == Apply(c, states[n], acts[n]);
    assert Settled(states[n], states[n].readers[r].inode);
    SettledStays(c, states[n], acts[n], states[n].readers[r].inode);
    hide Apply, WritersSound;
  }
}
