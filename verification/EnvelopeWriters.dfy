/**
 The three writers. `Put` streams a payload through a compressor into a buffered file
 with a MAC teed off, `PutFrom` ingests a source chunk by chunk in two passes, and
 `EncodeEnvelopeToWriter` writes to a caller's sink. Whatever the chunks and the short
 writes, all three produce the same envelope.
 */
module EnvelopeWriters {
  import opened Options
  import opened Envelope
  import opened EnvelopeReaders

  /** A temporary file behind a write buffer: a write may be short, and what it took reaches the file at the latest at the flush. */
  class BufferedFile {
    var file: Bytes
    var pending: Bytes

    constructor ()
      ensures file == [] && pending == []
    {
      file, pending := [], [];
    }

    ghost function Taken(): Bytes
      reads this
    {
      file + pending
    }

    method Write(buf: Bytes) returns (n: nat)
      modifies this
      ensures n <= |buf| && (buf != [] ==> n > 0)
      ensures Taken() == old(Taken()) + buf[..n]
    {
      n :| n <= |buf| && (buf != [] ==> n > 0);
      pending := pending + buf[..n];
      var spill: nat :| spill <= |pending|;
      assert pending == pending[..spill] + pending[spill..];
      file, pending := file + pending[..spill], pending[spill..];
    }

    method Flush()
      modifies this
      ensures pending == [] && file == old(Taken())
    {
      file, pending := file + pending, [];
    }

    /** Appends to the file itself, past the buffer: in order only if the buffer is empty. */
    method AppendDirect(bytes: Bytes)
      requires pending == []
      modifies this
      ensures pending == [] && file == old(file) + bytes
    {
      file := file + bytes;
    }
  }

  /** Tees the bytes its sink took, and no others, into the MAC. */
  class MacWriter {
    const inner: BufferedFile
    const mac: Mac

    constructor (inner: BufferedFile, mac: Mac)
      ensures this.inner == inner && this.mac == mac
    {
      this.inner, this.mac := inner, mac;
    }

    method Write(buf: Bytes) returns (n: nat)
      modifies inner, mac`fed
      ensures n <= |buf| && (buf != [] ==> n > 0)
      ensures inner.Taken() == old(inner.Taken()) + buf[..n] && mac.fed == old(mac.fed) + buf[..n]
    {
      n := inner.Write(buf);
      mac.Update(buf[..n]);
    }

    method WriteAll(buf: Bytes)
      modifies inner, mac`fed
      ensures inner.Taken() == old(inner.Taken()) + buf && mac.fed == old(mac.fed) + buf
    {
      var done := 0;
      while done < |buf|
        invariant done <= |buf|
        invariant inner.Taken() == old(inner.Taken()) + buf[..done] && mac.fed == old(mac.fed) + buf[..done]
      {
        var n := Write(buf[done..]);
        assert buf[..done + n] == buf[..done] + buf[done..][..n];
        done := done + n;
      }
      assert buf[..done] == buf;
    }
  }

  /**
   The compressor. It takes its input in pieces and hands on its output in pieces, early
   or late as it likes; what they add up to depends on the level and on `total`, all the
   input it will have been given when it is finished.
   */
  class Encoder {
    const codec: Codec
    const level: int
    const total: Bytes
    var input: Bytes
    var emitted: nat

    constructor (codec: Codec, level: int, total: Bytes)
      ensures this.codec == codec && this.level == level && this.total == total && input == [] && emitted == 0
    {
      this.codec, this.level, this.total, input, emitted := codec, level, total, [], 0;
    }

    method Feed(bytes: Bytes) returns (piece: Bytes)
      requires input + bytes <= total && emitted <= |codec.compress(level, total)|
      modifies this
      ensures input == old(input) + bytes
      ensures old(emitted) <= emitted <= |codec.compress(level, total)| && piece == codec.compress(level, total)[old(emitted)..emitted]
    {
      input := input + bytes;
      var output := codec.compress(level, total);
      var upTo: nat :| emitted <= upTo <= |output|;
      piece := output[emitted..upTo];
      emitted := upTo;
    }

    method Finish() returns (piece: Bytes)
      requires input == total && emitted <= |codec.compress(level, total)|
      modifies this
      ensures input == old(input) && emitted == |codec.compress(level, total)|
      ensures piece == codec.compress(level, total)[old(emitted)..]
    {
      piece := codec.compress(level, total)[emitted..];
      emitted := emitted + |piece|;
    }
  }

  /** Compresses a payload through the tee: whenever the encoder emits, file and MAC both get the whole compressed body. */
  method CompressInto(codec: Codec, level: int, payload: Bytes, tee: MacWriter)
    modifies tee.inner, tee.mac`fed
    ensures tee.inner.Taken() == old(tee.inner.Taken()) + codec.compress(level, payload)
    ensures tee.mac.fed == old(tee.mac.fed) + codec.compress(level, payload)
  {
    var encoder := new Encoder(codec, level, payload);
    var piece := encoder.Feed(payload);
    assert encoder.input == payload;
    tee.WriteAll(piece);
    var last := encoder.Finish();
    tee.WriteAll(last);
    assert piece + last == codec.compress(level, payload);
  }

  /** Flushes the file, then appends the tag of everything that was written, past the MAC. */
  method SealFile(tmp: BufferedFile, mac: Mac)
    requires mac.fed == tmp.Taken()
    modifies tmp
    ensures tmp.pending == [] && tmp.file == old(tmp.Taken()) + mac.codec.mac(mac.key, old(tmp.Taken()))
  {
    tmp.Flush();
    tmp.AppendDirect(mac.Tag());
  }

  /** `put` up to the rename: the complete content of the temporary file, and the content hash. */
  method Put(codec: Codec, key: Bytes, level: int, payload: Bytes) returns (r: Fallible<(Bytes, Bytes)>)
    ensures r == if |payload| > MAX_PAYLOAD_LEN then Err(TooLarge(|payload|, MAX_PAYLOAD_LEN))
                 else Ok((codec.hash(payload), Sealed(codec, key, level, payload)))
  {
    if |payload| > MAX_PAYLOAD_LEN {
      return Err(TooLarge(|payload|, MAX_PAYLOAD_LEN));
    }
    var hash := codec.hash(payload);
    var tmp := new BufferedFile();
    var mac := new Mac(codec, key);
    var tee := new MacWriter(tmp, mac);
    tee.WriteAll(MAGIC);
    tee.WriteAll(LittleEndian32(VERSION));
    tee.WriteAll(hash);
    assert tmp.Taken() == Header(hash) && mac.fed == Header(hash);
    CompressInto(codec, level, payload, tee);
    assert tmp.Taken() == Prefix(codec, level, payload);
    SealFile(tmp, mac);
    r := Ok((hash, tmp.file));
  }

  /** A payload source: reads may be short, and an empty read means the end. */
  class Source {
    const data: Bytes
    var pos: nat

    constructor (data: Bytes)
      ensures this.data == data && pos == 0
    {
      this.data, pos := data, 0;
    }

    method Read(max: nat) returns (chunk: Bytes)
      requires pos <= |data| && max > 0
      modifies this`pos
      ensures old(pos) <= pos <= |data| && pos <= old(pos) + max && chunk == data[old(pos)..pos]
      ensures chunk == [] <==> old(pos) == |data|
    {
      var available := if max <= |data| - pos then max else |data| - pos;
      var n: nat :| n <= available && (available > 0 ==> n > 0);
      chunk := data[pos..pos + n];
      pos := pos + n;
    }
  }

  /** Pass one: hash and compress the source as it flows, refusing as soon as it exceeds the cap. */
  method Ingest(codec: Codec, level: int, src: Source) returns (r: Fallible<(Bytes, Bytes)>)
    requires src.pos == 0
    modifies src`pos
    ensures |src.data| <= MAX_PAYLOAD_LEN ==> r == Ok((codec.hash(src.data), codec.compress(level, src.data)))
    ensures |src.data| > MAX_PAYLOAD_LEN ==>
              r.Err? && r.error.TooLarge? && r.error.limit == MAX_PAYLOAD_LEN
              && MAX_PAYLOAD_LEN < r.error.size <= |src.data| && r.error.size <= MAX_PAYLOAD_LEN + STREAM_BUF_LEN
  {
    var encoder := new Encoder(codec, level, src.data);
    var spool := new BufferedFile();
    var hashed: Bytes := [];
    var uncompressedLen := 0;
    var more := true;
    ghost var output := codec.compress(level, src.data);
    while more
      invariant uncompressedLen == src.pos <= |src.data| && uncompressedLen <= MAX_PAYLOAD_LEN
      invariant hashed == src.data[..src.pos] && encoder.input == src.data[..src.pos]
      invariant encoder.emitted <= |output| && spool.Taken() == output[..encoder.emitted]
      invariant !more ==> src.pos == |src.data|
      decreases |src.data| - src.pos, more
    {
      var chunk := src.Read(STREAM_BUF_LEN);
      if chunk == [] {
        more := false;
      } else {
        uncompressedLen := uncompressedLen + |chunk|;
        if uncompressedLen > MAX_PAYLOAD_LEN {
          return Err(TooLarge(uncompressedLen, MAX_PAYLOAD_LEN));
        }
        hashed := hashed + chunk;
        assert encoder.input + chunk == src.data[..src.pos];
        var piece := encoder.Feed(chunk);
        WriteAllTo(spool, piece);
      }
    }
    assert src.data[..src.pos] == src.data;
    ghost var before := encoder.emitted;
    var last := encoder.Finish();
    WriteAllTo(spool, last);
    assert output[..before] + last == output;
    spool.Flush();
    r := Ok((codec.hash(hashed), spool.file));
  }

  /** `put_from` up to the rename. */
  method PutFrom(codec: Codec, key: Bytes, level: int, src: Source) returns (r: Fallible<(Bytes, Bytes)>)
    requires src.pos == 0
    modifies src`pos
    ensures |src.data| <= MAX_PAYLOAD_LEN ==> r == Ok((codec.hash(src.data), Sealed(codec, key, level, src.data)))
    ensures |src.data| > MAX_PAYLOAD_LEN ==>
              r.Err? && r.error.TooLarge? && r.error.limit == MAX_PAYLOAD_LEN
              && MAX_PAYLOAD_LEN < r.error.size <= |src.data| && r.error.size <= MAX_PAYLOAD_LEN + STREAM_BUF_LEN
  {
    var ingested := Ingest(codec, level, src);
    if ingested.Err? {
      return Err(ingested.error);
    }
    var (hash, body) := ingested.value;
    // Pass two: header and compressed body through the MAC into the envelope file.
    var tmp := new BufferedFile();
    var mac := new Mac(codec, key);
    var tee := new MacWriter(tmp, mac);
    tee.WriteAll(Header(hash));
    CopyBody(body, tee);
    assert tmp.Taken() == Prefix(codec, level, src.data);
    SealFile(tmp, mac);
    r := Ok((hash, tmp.file));
  }

  /** Copies a file through the tee in pieces of the copier's choosing. */
  method CopyBody(body: Bytes, tee: MacWriter)
    modifies tee.inner, tee.mac`fed
    ensures tee.inner.Taken() == old(tee.inner.Taken()) + body && tee.mac.fed == old(tee.mac.fed) + body
  {
    var reader := new Handle(body);
    while reader.pos < |body|
      invariant reader.content == body && reader.pos <= |body|
      invariant tee.inner.Taken() == old(tee.inner.Taken()) + body[..reader.pos] && tee.mac.fed == old(tee.mac.fed) + body[..reader.pos]
    {
      ghost var before := reader.pos;
      var chunk := reader.Read(STREAM_BUF_LEN);
      tee.WriteAll(chunk);
      assert body[..reader.pos] == body[..before] + chunk;
    }
    assert body[..reader.pos] == body;
  }

  /** `encode_envelope_to_writer`: always at the default level; the header reaches the sink and the MAC separately. */
  method EncodeEnvelopeToWriter(codec: Codec, sink: BufferedFile, payload: Bytes, key: Bytes) returns (r: Fallible<()>)
    modifies sink
    ensures |payload| > MAX_PAYLOAD_LEN ==> r == Err(TooLarge(|payload|, MAX_PAYLOAD_LEN)) && sink.Taken() == old(sink.Taken())
    ensures |payload| <= MAX_PAYLOAD_LEN ==> r == Ok(()) && sink.Taken() == old(sink.Taken()) + Sealed(codec, key, DEFAULT_ZSTD_LEVEL, payload)
  {
    if |payload| > MAX_PAYLOAD_LEN {
      return Err(TooLarge(|payload|, MAX_PAYLOAD_LEN));
    }
    var hash := codec.hash(payload);
    var mac := new Mac(codec, key);
    var header := Header(hash);
    WriteAllTo(sink, header);
    mac.Update(header);
    var tee := new MacWriter(sink, mac);
    CompressInto(codec, DEFAULT_ZSTD_LEVEL, payload, tee);
    assert mac.fed == Prefix(codec, DEFAULT_ZSTD_LEVEL, payload);
    WriteAllTo(sink, mac.Tag());
    assert sink.Taken() == old(sink.Taken()) + (mac.fed + mac.Tag());
    r := Ok(());
  }

  method WriteAllTo(sink: BufferedFile, buf: Bytes)
    modifies sink
    ensures sink.Taken() == old(sink.Taken()) + buf
  {
    var done := 0;
    while done < |buf|
      invariant done <= |buf| && sink.Taken() == old(sink.Taken()) + buf[..done]
    {
      var n := sink.Write(buf[done..]);
      assert buf[..done + n] == buf[..done] + buf[done..][..n];
      done := done + n;
    }
    assert buf[..done] == buf;
  }

  /** Whatever a writer accepts, a reader gives back: the write cap lies below the read cap. */
  lemma AcceptedPayloadsDecode(codec: Codec, key: Bytes, level: int, payload: Bytes)
    requires WellSized(codec) && Lossless(codec) && |payload| <= MAX_PAYLOAD_LEN
    ensures Decode(codec, Sealed(codec, key, level, payload), key, MAX_DECOMPRESSED_LEN) == Ok(payload)
    ensures Fetch(codec, Sealed(codec, key, level, payload), key, codec.hash(payload)) == Ok(payload)
  {
    SealedDecodes(codec, key, level, payload, MAX_DECOMPRESSED_LEN);
  }
}
