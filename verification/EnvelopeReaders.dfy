/**
 The streaming readers. `Get` decodes an envelope in one pass while a running MAC tees
 off the bytes, whatever sizes the reads have and wherever the decoder stops reading;
 `GetTo` authenticates in a first pass over the same handle and decodes to the caller's
 writer in a second. Both are proved against the one-shot decoder.
 */
module EnvelopeReaders {
  import opened Options
  import opened Envelope

  /** An incremental MAC: what it has been fed so far. */
  class Mac {
    const codec: Codec
    const key: Bytes
    var fed: Bytes

    constructor (codec: Codec, key: Bytes)
      ensures this.codec == codec && this.key == key && fed == []
    {
      this.codec, this.key, fed := codec, key, [];
    }

    method Update(bytes: Bytes)
      modifies this`fed
      ensures fed == old(fed) + bytes
    {
      fed := fed + bytes;
    }

    function Tag(): Bytes
      reads this
    {
      codec.mac(key, fed)
    }
  }

  /** An open file: the handle pins the inode, so its content never changes while it is read. */
  class Handle {
    const content: Bytes
    var pos: nat

    constructor (content: Bytes)
      ensures this.content == content && pos == 0
    {
      this.content, pos := content, 0;
    }

    /** A read of at most `max` bytes that may be short, and is empty only at the end. */
    method Read(max: nat) returns (chunk: Bytes)
      requires pos <= |content|
      modifies this`pos
      ensures old(pos) <= pos <= |content| && pos <= old(pos) + max
      ensures chunk == content[old(pos)..pos]
      ensures max > 0 && old(pos) < |content| ==> pos > old(pos)
    {
      var available := if max <= |content| - pos then max else |content| - pos;
      var n: nat :| n <= available && (available > 0 ==> n > 0);
      chunk := content[pos..pos + n];
      pos := pos + n;
    }

    method ReadExact(n: nat) returns (bytes: Bytes)
      requires pos + n <= |content|
      modifies this`pos
      ensures pos == old(pos) + n && bytes == content[old(pos)..pos]
    {
      bytes := content[pos..pos + n];
      pos := pos + n;
    }

    method Rewind()
      modifies this`pos
      ensures pos == 0
    {
      pos := 0;
    }
  }

  /** Reads a bounded stretch of a file, teeing every byte that was read into a MAC. */
  class MacReader {
    const inner: Handle
    const mac: Mac
    var left: nat

    /** The stretch lies within the file, and the MAC has been fed exactly what precedes the read position. */
    ghost predicate Synced()
      reads this, inner, mac
    {
      inner.pos + left <= |inner.content| && mac.fed == inner.content[..inner.pos]
    }

    constructor (inner: Handle, mac: Mac, left: nat)
      requires inner.pos + left <= |inner.content| && mac.fed == inner.content[..inner.pos]
      ensures this.inner == inner && this.mac == mac && this.left == left
      ensures Synced()
    {
      this.inner, this.mac, this.left := inner, mac, left;
    }

    method Read(max: nat) returns (chunk: Bytes)
      requires Synced()
      modifies this`left, inner`pos, mac`fed
      ensures Synced() && inner.pos + left == old(inner.pos + left)
      ensures left <= old(left) && (max > 0 && old(left) > 0 ==> left < old(left))
      ensures chunk == inner.content[old(inner.pos)..inner.pos] && |chunk| <= max
    {
      chunk := inner.Read(if max <= left then max else left);
      mac.Update(chunk);
      left := left - |chunk|;
    }
  }

  const STREAM_BUF_LEN: nat := 65536

  /** The decoder pulls on its source as often and as far as it likes, then reports what it makes of the body. */
  method DriveDecoder(codec: Codec, source: MacReader, limit: nat) returns (r: Fallible<Bytes>)
    requires source.Synced()
    modifies source`left, source.inner`pos, source.mac`fed
    ensures source.Synced() && source.inner.pos + source.left == old(source.inner.pos + source.left)
    ensures r == ReadLimited(codec.decode(source.inner.content[old(source.inner.pos)..old(source.inner.pos + source.left)]), limit)
  {
    var body := source.inner.content[source.inner.pos..source.inner.pos + source.left];
    var pulls: nat :| true;
    ghost var end := source.inner.pos + source.left;
    while pulls > 0
      invariant source.Synced() && source.inner.pos + source.left == end
    {
      var max: nat :| true;
      var _ := source.Read(max);
      pulls := pulls - 1;
    }
    r := ReadLimited(codec.decode(body), limit);
  }

  /** Feeds the rest of the stretch to the MAC. */
  method Drain(source: MacReader)
    requires source.Synced()
    modifies source`left, source.inner`pos, source.mac`fed
    ensures source.Synced() && source.inner.pos == old(source.inner.pos + source.left)
  {
    ghost var end := source.inner.pos + source.left;
    while source.left > 0
      invariant source.Synced() && source.inner.pos + source.left == end
    {
      var _ := source.Read(STREAM_BUF_LEN);
    }
  }

  /** Reads the header and checks magic and version; the header is then fed to the MAC. */
  method ReadHeader(handle: Handle, mac: Mac) returns (bad: Option<Error>, hashOnDisk: Bytes)
    requires handle.pos == 0 && mac.fed == [] && |handle.content| >= MIN_LEN
    modifies handle`pos, mac`fed
    ensures bad == HeaderError(handle.content)
    ensures bad == None ==> handle.pos == HEADER_LEN && mac.fed == handle.content[..HEADER_LEN] && hashOnDisk == handle.content[20..HEADER_LEN]
  {
    var header := handle.ReadExact(HEADER_LEN);
    assert header[..16] == handle.content[..16] && header[16..20] == handle.content[16..20];
    assert header[20..HEADER_LEN] == handle.content[20..HEADER_LEN];
    if header[..16] != MAGIC {
      return Some(BadMagic), [];
    }
    var version := FromLittleEndian32(header[16..20]);
    if version != VERSION {
      return Some(BadVersion(version)), [];
    }
    hashOnDisk := header[20..HEADER_LEN];
    mac.Update(header);
    bad := None;
  }

  /** One-pass read: for every content, key, requested hash, read sizes and decoder stopping point, the answer is the one-shot decoder's. */
  method Get(codec: Codec, handle: Handle, key: Bytes, requested: Bytes) returns (r: Fallible<Bytes>)
    requires handle.pos == 0
    modifies handle`pos
    ensures r == Fetch(codec, handle.content, key, requested)
  {
    var fileLen := |handle.content|;
    if fileLen < MIN_LEN {
      return Err(BadMagic);
    }
    var prefixEnd := fileLen - HMAC_LEN;
    var bodyLen := prefixEnd - HEADER_LEN;
    var mac := new Mac(codec, key);
    var bad, hashOnDisk := ReadHeader(handle, mac);
    if bad.Some? {
      return Err(bad.value);
    }

    var body := new MacReader(handle, mac, bodyLen);
    var cap := MAX_DECOMPRESSED_LEN;
    var decoded := DriveDecoder(codec, body, ProbeLimit(cap));

    // Whatever the decoder left unread still belongs under the MAC.
    Drain(body);
    var tag := handle.ReadExact(HMAC_LEN);
    assert mac.fed == handle.content[..prefixEnd] && tag == handle.content[prefixEnd..];
    if mac.Tag() != tag {
      return Err(BadHmac);
    }
    if decoded.Err? {
      return Err(decoded.error);
    }
    var payload := decoded.value;
    if |payload| > cap {
      return Err(TooLarge(|payload|, cap));
    }
    var recomputed := codec.hash(payload);
    if recomputed != hashOnDisk {
      return Err(HashMismatch(hashOnDisk, recomputed));
    }
    if recomputed != requested {
      return Err(HashMismatch(requested, recomputed));
    }
    r := Ok(payload);
  }

  // ------------------------------------------------------------------
  // Two passes to a writer
  // ------------------------------------------------------------------

  /** How the caller's writer answers a write: it takes some bytes, takes none, is interrupted, or fails. */
  datatype WriteAnswer = Took(n: nat) | TookNothing | Interrupted | WriteFailed

  /** The caller's writer. It counts the writes it failed, those it took nothing of and those it was interrupted in; `patience` bounds how often it still will be. */
  class Out {
    var received: Bytes
    var faults: nat
    var empties: nat
    var interrupts: nat
    var patience: nat

    constructor (patience: nat)
      ensures received == [] && faults == 0 && empties == 0 && interrupts == 0 && this.patience == patience
    {
      received, faults, empties, interrupts, this.patience := [], 0, 0, 0, patience;
    }

    method Write(buf: Bytes) returns (a: WriteAnswer)
      requires buf != []
      modifies this
      ensures a.Took? ==> 1 <= a.n <= |buf|
      ensures received == old(received) + if a.Took? then buf[..a.n] else []
      ensures faults == old(faults) + if a.WriteFailed? then 1 else 0
      ensures empties == old(empties) + if a.TookNothing? then 1 else 0
      ensures interrupts == old(interrupts) + if a.Interrupted? then 1 else 0
      ensures patience == old(patience) - if a.Interrupted? then 1 else 0
    {
      var n: nat :| 1 <= n <= |buf|;
      var mood: int :| true;
      if mood == 0 {
        faults := faults + 1;
        a := WriteFailed;
      } else if mood == 1 {
        empties := empties + 1;
        a := TookNothing;
      } else if mood == 2 && patience > 0 {
        interrupts, patience := interrupts + 1, patience - 1;
        a := Interrupted;
      } else {
        received := received + buf[..n];
        a := Took(n);
      }
    }
  }

  datatype CopyEnd = Copied | WriterFault | ZeroWrite

  /**
   Copies `bytes` to the writer, hashing exactly the bytes the writer took. A write that
   is interrupted is tried again, and recorded as a failure all the same; the first write
   that fails or takes nothing ends the copy.
   */
  method CopyTo(out: Out, bytes: Bytes) returns (e: CopyEnd, downstreamFailed: bool, ghost taken: nat)
    modifies out
    ensures taken <= |bytes| && out.received == old(out.received) + bytes[..taken]
    ensures e.Copied? ==> taken == |bytes|
    ensures out.faults == old(out.faults) + if e.WriterFault? then 1 else 0
    ensures out.empties == old(out.empties) + if e.ZeroWrite? then 1 else 0
    ensures out.interrupts >= old(out.interrupts)
    ensures downstreamFailed <==> out.faults != old(out.faults) || out.interrupts != old(out.interrupts)
  {
    var done := 0;
    downstreamFailed := false;
    while done < |bytes|
      invariant done <= |bytes| && out.received == old(out.received) + bytes[..done]
      invariant out.faults == old(out.faults) && out.empties == old(out.empties) && out.interrupts >= old(out.interrupts)
      invariant downstreamFailed <==> out.interrupts != old(out.interrupts)
      decreases |bytes| - done, out.patience
    {
      var a := out.Write(bytes[done..]);
      match a
      case Took(n) =>
        assert bytes[..done + n] == bytes[..done] + bytes[done..][..n];
        done := done + n;
      case TookNothing =>
        return ZeroWrite, downstreamFailed, done;
      case Interrupted =>
        downstreamFailed := true;
      case WriteFailed =>
        return WriterFault, true, done;
    }
    return Copied, downstreamFailed, done;
  }

  /** Pass one: the MAC of header and body against the tag, with nothing decoded. */
  method VerifyBlob(codec: Codec, handle: Handle, key: Bytes) returns (bad: Option<Error>, hashOnDisk: Bytes)
    requires handle.pos == 0
    modifies handle`pos
    ensures bad == None <==> Authentic(codec, handle.content, key)
    ensures bad.Some? ==> Decode(codec, handle.content, key, MAX_DECOMPRESSED_LEN) == Err(bad.value)
    ensures bad == None ==> hashOnDisk == handle.content[20..HEADER_LEN]
  {
    var fileLen := |handle.content|;
    if fileLen < MIN_LEN {
      return Some(BadMagic), [];
    }
    var prefixEnd := fileLen - HMAC_LEN;
    var mac := new Mac(codec, key);
    bad, hashOnDisk := ReadHeader(handle, mac);
    if bad.Some? {
      return;
    }
    var body := new MacReader(handle, mac, prefixEnd - HEADER_LEN);
    Drain(body);
    var tag := handle.ReadExact(HMAC_LEN);
    assert tag == handle.content[prefixEnd..fileLen] == handle.content[prefixEnd..];
    assert mac.fed == handle.content[..HEADER_LEN] + handle.content[HEADER_LEN..prefixEnd] == handle.content[..prefixEnd];
    if mac.Tag() != tag {
      bad := Some(BadHmac);
    }
  }

  /** The envelope is well formed and its tag verifies under `key`. */
  predicate Authentic(codec: Codec, bytes: Bytes, key: Bytes) {
    && |bytes| >= MIN_LEN && HeaderError(bytes) == None
    && codec.mac(key, bytes[..|bytes| - HMAC_LEN]) == bytes[|bytes| - HMAC_LEN..]
  }

  function BodyOf(bytes: Bytes): Bytes
    requires |bytes| >= MIN_LEN
  {
    bytes[HEADER_LEN..|bytes| - HMAC_LEN]
  }

  /** What the decode pass pushes towards the writer: the decoder's output up to one byte past the cap. */
  function Pushed(codec: Codec, bytes: Bytes): Bytes
    requires |bytes| >= MIN_LEN
  {
    var d, limit := codec.decode(BodyOf(bytes)), ProbeLimit(MAX_DECOMPRESSED_LEN);
    if |d.produced| <= limit then d.produced else d.produced[..limit]
  }

  /**
   What the decode pass reports. A copy that ended early is blamed on the writer if the
   writer ever failed or was interrupted, and on the decoder otherwise.
   */
  function Blamed(r: Fallible<nat>, copyFailed: bool, downstreamFailed: bool): Fallible<nat> {
    if copyFailed || r == Err(Decompression) then Err(if downstreamFailed then Io else Decompression) else r
  }

  /** Pass two: decodes the authenticated bytes straight into the writer. */
  method DecodeToWriter(codec: Codec, handle: Handle, hashOnDisk: Bytes, requested: Bytes, out: Out) returns (r: Fallible<nat>, ghost n: nat)
    requires handle.pos == 0 && |handle.content| >= MIN_LEN && hashOnDisk == handle.content[20..HEADER_LEN]
    modifies handle`pos, out
    ensures n <= |Pushed(codec, handle.content)| && out.received == old(out.received) + Pushed(codec, handle.content)[..n]
    ensures out.faults == old(out.faults) && out.empties == old(out.empties) ==> n == |Pushed(codec, handle.content)|
    ensures var read := Length(Requested(codec, OpenBody(codec, BodyOf(handle.content), hashOnDisk, MAX_DECOMPRESSED_LEN), requested));
            r == Blamed(read, out.faults != old(out.faults) || out.empties != old(out.empties),
                        out.faults != old(out.faults) || out.interrupts != old(out.interrupts))
  {
    var _ := handle.ReadExact(HEADER_LEN);
    var cap := MAX_DECOMPRESSED_LEN;
    var body := handle.ReadExact(|handle.content| - MIN_LEN);
    assert body == BodyOf(handle.content);
    var stream := codec.decode(body);
    var pushed := Pushed(codec, handle.content);
    var end, downstreamFailed;
    end, downstreamFailed, n := CopyTo(out, pushed);
    var copyOk := end == Copied && (|stream.produced| >= ProbeLimit(cap) || stream.ok);
    if !copyOk {
      return Err(if downstreamFailed then Io else Decompression), n;
    }
    var written := |pushed|;
    if written > cap {
      return Err(TooLarge(written, cap)), n;
    }
    var recomputed := codec.hash(pushed);
    if recomputed != hashOnDisk {
      return Err(HashMismatch(hashOnDisk, recomputed)), n;
    }
    if recomputed != requested {
      return Err(HashMismatch(requested, recomputed)), n;
    }
    r := Ok(written);
  }

  function Requested(codec: Codec, r: Fallible<Bytes>, requested: Bytes): Fallible<Bytes> {
    if r.Ok? && codec.hash(r.value) != requested then Err(HashMismatch(requested, codec.hash(r.value))) else r
  }

  function Length(r: Fallible<Bytes>): Fallible<nat> {
    match r
    case Ok(p) => Ok(|p|)
    case Err(e) => Err(e)
  }

  /**
   Two-pass read to a writer. Nothing reaches the writer unless the pinned content is
   authentic, and then only a prefix of what its body decodes to. Unless a write fails or
   takes nothing, the result is that of `Get`, and on success exactly its payload was
   delivered. A failed write is an I/O error, one that takes nothing a decompression
   error; but after an interrupted write every decompression error is reported as an I/O
   error.
   */
  method GetTo(codec: Codec, handle: Handle, key: Bytes, requested: Bytes, out: Out) returns (r: Fallible<nat>, ghost n: nat)
    requires handle.pos == 0
    modifies handle`pos, out
    ensures !Authentic(codec, handle.content, key) ==>
              && out.received == old(out.received) && r == Length(Fetch(codec, handle.content, key, requested))
              && out.faults == old(out.faults) && out.empties == old(out.empties) && out.interrupts == old(out.interrupts)
    ensures Authentic(codec, handle.content, key) ==>
              n <= |Pushed(codec, handle.content)| && out.received == old(out.received) + Pushed(codec, handle.content)[..n]
    ensures r == Blamed(Length(Fetch(codec, handle.content, key, requested)),
                        out.faults != old(out.faults) || out.empties != old(out.empties),
                        out.faults != old(out.faults) || out.interrupts != old(out.interrupts))
    ensures r.Ok? ==> exists payload :: Fetch(codec, handle.content, key, requested) == Ok(payload) && out.received == old(out.received) + payload
    ensures Authentic(codec, handle.content, key) ==>
              var produced := codec.decode(BodyOf(handle.content)).produced;
              n <= |produced| && n <= MAX_DECOMPRESSED_LEN + 1 && out.received == old(out.received) + produced[..n]
    ensures out.faults != old(out.faults) ==> r == Err(Io)
    ensures out.faults == old(out.faults) && out.empties != old(out.empties) ==>
              r == Err(if out.interrupts == old(out.interrupts) then Decompression else Io)
    ensures out.faults == old(out.faults) && out.empties == old(out.empties) ==>
              var read := Length(Fetch(codec, handle.content, key, requested));
              r == if read == Err(Decompression) && out.interrupts != old(out.interrupts) then Err(Io) else read
  {
    n := 0;
    var bad, hashOnDisk := VerifyBlob(codec, handle, key);
    if bad.Some? {
      return Err(bad.value), n;
    }
    handle.Rewind();
    r, n := DecodeToWriter(codec, handle, hashOnDisk, requested, out);
    assert n == |Pushed(codec, handle.content)| ==> Pushed(codec, handle.content)[..n] == Pushed(codec, handle.content);
  }
}
