/**
 The signed artifact envelope: what a writer must produce, the one-shot decoder that
 defines what a reader must accept, and the laws that tie them together.

 The hash, the MAC and the compressor are parameters. What is needed of them is stated
 as predicates over them and required where it is used.
 */
module Envelope {
  import opened Options

  type byte = b: int | 0 <= b < 256
  type Bytes = seq<byte>

  /** What a decoder makes of a whole body: the bytes it produces, and whether it then ends cleanly. */
  datatype Decoded = Decoded(produced: Bytes, ok: bool)

  /** BLAKE3, HMAC-SHA256 (key, message), and the zstd encoder (level, payload) and decoder. */
  datatype Codec = Codec(
    hash: Bytes -> Bytes,
    mac: (Bytes, Bytes) -> Bytes,
    compress: (int, Bytes) -> Bytes,
    decode: Bytes -> Decoded)

  /** Digests and tags have their fixed lengths. */
  ghost predicate WellSized(c: Codec) {
    && (forall x :: |c.hash(x)| == HASH_LEN)
    && (forall k, x :: |c.mac(k, x)| == HMAC_LEN)
  }

  /** Decompressing what was compressed gives it back. */
  ghost predicate Lossless(c: Codec) {
    forall level, x :: c.decode(c.compress(level, x)) == Decoded(x, true)
  }

  // "twasm-artifact01"
  const MAGIC: Bytes := [0x74, 0x77, 0x61, 0x73, 0x6D, 0x2D, 0x61, 0x72, 0x74, 0x69, 0x66, 0x61, 0x63, 0x74, 0x30, 0x31]
  const VERSION: nat := 1
  const HASH_LEN: nat := 32
  const HMAC_LEN: nat := 32
  const HEADER_LEN: nat := 52
  const MIN_LEN: nat := HEADER_LEN + HMAC_LEN
  const DEFAULT_ZSTD_LEVEL: int := 3
  const MAX_PAYLOAD_LEN: nat := 256 * 1024 * 1024
  const MAX_DECOMPRESSED_LEN: nat := MAX_PAYLOAD_LEN + 8 * 1024

  datatype Error =
    | NotFound(hash: Bytes)
    | BadMagic
    | BadVersion(version: nat)
    | BadHmac
    | HashMismatch(expected: Bytes, actual: Bytes)
    | Decompression
    | TooLarge(size: nat, limit: nat)
    | Io

  type Fallible<+T> = Result<T, Error>

  // ------------------------------------------------------------------
  // The format
  // ------------------------------------------------------------------

  function LittleEndian32(n: nat): Bytes
    requires n < 0x1_0000_0000
  {
    [n % 256, n / 256 % 256, n / 256 / 256 % 256, n / 256 / 256 / 256]
  }

  function FromLittleEndian32(b: Bytes): nat
    requires |b| == 4
  {
    var b0: int, b1: int, b2: int, b3: int := b[0], b[1], b[2], b[3];
    b0 + 256 * b1 + 65536 * b2 + 16777216 * b3
  }

  function Header(hash: Bytes): Bytes {
    MAGIC + LittleEndian32(VERSION) + hash
  }

  /** What the MAC covers: the header and the compressed body. */
  function Prefix(c: Codec, level: int, payload: Bytes): Bytes {
    Header(c.hash(payload)) + c.compress(level, payload)
  }

  /** The envelope of a payload, as every writer must produce it. */
  function Sealed(c: Codec, key: Bytes, level: int, payload: Bytes): Bytes {
    Prefix(c, level, payload) + c.mac(key, Prefix(c, level, payload))
  }

  // ------------------------------------------------------------------
  // The one-shot decoder
  // ------------------------------------------------------------------

  /** One byte past the cap, so that "exactly the cap" and "more than the cap" can be told apart. */
  function ProbeLimit(cap: nat): nat {
    if cap < U64_MAX then cap + 1 else U64_MAX
  }

  /** Reading a decoder's output to the end through a limit. */
  function ReadLimited(d: Decoded, limit: nat): Fallible<Bytes> {
    if |d.produced| >= limit then Ok(d.produced[..limit])
    else if d.ok then Ok(d.produced)
    else Err(Decompression)
  }

  function HeaderError(bytes: Bytes): Option<Error>
    requires |bytes| >= HEADER_LEN
  {
    if bytes[..16] != MAGIC then Some(BadMagic)
    else if FromLittleEndian32(bytes[16..20]) != VERSION then Some(BadVersion(FromLittleEndian32(bytes[16..20])))
    else None
  }

  /** The checks after authentication: decompression, size, content hash, in this order. */
  function OpenBody(c: Codec, body: Bytes, hashOnDisk: Bytes, cap: nat): Fallible<Bytes> {
    match ReadLimited(c.decode(body), ProbeLimit(cap))
    case Err(e) => Err(e)
    case Ok(payload) =>
      if |payload| > cap then Err(TooLarge(|payload|, cap))
      else if c.hash(payload) != hashOnDisk then Err(HashMismatch(hashOnDisk, c.hash(payload)))
      else Ok(payload)
  }

  /** `decode_envelope_from_bytes_with_cap`: length, magic, version, HMAC, then the body. */
  function Decode(c: Codec, bytes: Bytes, key: Bytes, cap: nat): Fallible<Bytes> {
    if |bytes| < MIN_LEN then Err(BadMagic)
    else if HeaderError(bytes).Some? then Err(HeaderError(bytes).value)
    else
      var n := |bytes| - HMAC_LEN;
      if c.mac(key, bytes[..n]) != bytes[n..] then Err(BadHmac)
      else OpenBody(c, bytes[HEADER_LEN..n], bytes[20..HEADER_LEN], cap)
  }

  /** What `get` promises for an inode: the one-shot decoder, then the requested hash. */
  function Fetch(c: Codec, bytes: Bytes, key: Bytes, requested: Bytes): Fallible<Bytes> {
    match Decode(c, bytes, key, MAX_DECOMPRESSED_LEN)
    case Err(e) => Err(e)
    case Ok(payload) =>
      if c.hash(payload) != requested then Err(HashMismatch(requested, c.hash(payload))) else Ok(payload)
  }

  // ------------------------------------------------------------------
  // Laws
  // ------------------------------------------------------------------

  lemma LittleEndianRoundTrip(n: nat)
    requires n < 0x1_0000_0000
    ensures FromLittleEndian32(LittleEndian32(n)) == n
  {
    var q1, q2, q3 := n / 256, n / 256 / 256, n / 256 / 256 / 256;
    assert n == 256 * q1 + n % 256 && q1 == 256 * q2 + q1 % 256 && q2 == 256 * q3 + q2 % 256;
  }

  /** Where the pieces of a sealed envelope lie. */
  lemma SealedLayout(c: Codec, key: Bytes, level: int, payload: Bytes)
    requires WellSized(c)
    ensures var e, n := Sealed(c, key, level, payload), |Sealed(c, key, level, payload)| - HMAC_LEN;
            && |e| == MIN_LEN + |c.compress(level, payload)|
            && e[..n] == Prefix(c, level, payload) && e[n..] == c.mac(key, Prefix(c, level, payload))
            && HeaderError(e) == None && e[20..HEADER_LEN] == c.hash(payload) && e[HEADER_LEN..n] == c.compress(level, payload)
  {
    var h, body := Header(c.hash(payload)), c.compress(level, payload);
    var p := Prefix(c, level, payload);
    var tag := c.mac(key, p);
    var e := p + tag;
    assert |tag| == HMAC_LEN && |c.hash(payload)| == HASH_LEN;
    assert |h| == HEADER_LEN;
    assert e[..|p|] == p && e[|p|..] == tag;
    assert e[..16] == MAGIC;
    assert e[16..20] == LittleEndian32(VERSION);
    LittleEndianRoundTrip(VERSION);
    assert e[20..HEADER_LEN] == c.hash(payload);
    assert e[HEADER_LEN..|p|] == body;
  }

  /** Round trip: a sealed payload that fits the cap decodes to itself under its key. */
  lemma SealedDecodes(c: Codec, key: Bytes, level: int, payload: Bytes, cap: nat)
    requires WellSized(c) && Lossless(c) && |payload| <= cap && |payload| < U64_MAX
    ensures Decode(c, Sealed(c, key, level, payload), key, cap) == Ok(payload)
  {
    SealedLayout(c, key, level, payload);
    hide Sealed, Prefix, HeaderError;
    assert c.decode(c.compress(level, payload)) == Decoded(payload, true);
  }

  /**
   Exactly what the decoder accepts: a well-formed header, a tag that verifies over
   everything before it, a body that decompresses cleanly to the payload within the
   cap, and a header hash that is the payload's.
   */
  lemma DecodesIff(c: Codec, bytes: Bytes, key: Bytes, cap: nat, payload: Bytes)
    requires cap < U64_MAX
    ensures Decode(c, bytes, key, cap) == Ok(payload) <==>
            && |bytes| >= MIN_LEN
            && bytes[..20] == MAGIC + LittleEndian32(VERSION)
            && bytes[|bytes| - HMAC_LEN..] == c.mac(key, bytes[..|bytes| - HMAC_LEN])
            && c.decode(bytes[HEADER_LEN..|bytes| - HMAC_LEN]) == Decoded(payload, true)
            && |payload| <= cap && c.hash(payload) == bytes[20..HEADER_LEN]
  {
    if |bytes| >= MIN_LEN {
      HeaderOkIff(bytes);
    }
    hide HeaderError;
  }

  lemma HeaderOkIff(bytes: Bytes)
    requires |bytes| >= HEADER_LEN
    ensures HeaderError(bytes) == None <==> bytes[..20] == MAGIC + LittleEndian32(VERSION)
  {
    var v := bytes[16..20];
    assert bytes[..20] == bytes[..16] + v;
    LittleEndianRoundTrip(VERSION);
    LittleEndianInverse(v);
  }

  lemma LittleEndianInverse(b: Bytes)
    requires |b| == 4
    ensures LittleEndian32(FromLittleEndian32(b)) == b
  {
    var b0: int, b1: int, b2: int, b3: int := b[0], b[1], b[2], b[3];
    var n := FromLittleEndian32(b);
    assert n / 256 == b1 + 256 * b2 + 65536 * b3;
    assert n / 256 / 256 == b2 + 256 * b3;
    assert n / 256 / 256 / 256 == b3;
  }

  /** Which error is answered, in the order in which the checks are made. */
  lemma RefusedIff(c: Codec, bytes: Bytes, key: Bytes, cap: nat)
    requires cap < U64_MAX
    ensures var r := Decode(c, bytes, key, cap);
            && (r == Err(BadMagic) <==> |bytes| < MIN_LEN || bytes[..16] != MAGIC)
            && (r.Err? && r.error.BadVersion? <==> |bytes| >= MIN_LEN && bytes[..16] == MAGIC && bytes[16..20] != LittleEndian32(VERSION))
            && (r.Err? && r.error.BadVersion? ==> r.error.version == FromLittleEndian32(bytes[16..20]))
            && (r == Err(BadHmac) <==> |bytes| >= MIN_LEN && bytes[..20] == MAGIC + LittleEndian32(VERSION)
                                       && bytes[|bytes| - HMAC_LEN..] != c.mac(key, bytes[..|bytes| - HMAC_LEN]))
  {
    if |bytes| >= MIN_LEN {
      HeaderOkIff(bytes);
      LittleEndianRoundTrip(VERSION);
      LittleEndianInverse(bytes[16..20]);
      assert bytes[..20] == bytes[..16] + bytes[16..20];
    }
    hide LittleEndian32, FromLittleEndian32;
  }

  /** For authentic bytes: a decoder fault, unless the output was over the cap by then; then the size; then the content hash. */
  lemma BodyRefusedIff(c: Codec, bytes: Bytes, key: Bytes, cap: nat)
    requires cap < U64_MAX && |bytes| >= MIN_LEN && bytes[..20] == MAGIC + LittleEndian32(VERSION)
    requires bytes[|bytes| - HMAC_LEN..] == c.mac(key, bytes[..|bytes| - HMAC_LEN])
    ensures var r, d, hash := Decode(c, bytes, key, cap), c.decode(bytes[HEADER_LEN..|bytes| - HMAC_LEN]), bytes[20..HEADER_LEN];
            && (r == Err(Decompression) <==> |d.produced| <= cap && !d.ok)
            && (r == Err(TooLarge(cap + 1, cap)) <==> |d.produced| > cap)
            && (r == Err(HashMismatch(hash, c.hash(d.produced))) <==> |d.produced| <= cap && d.ok && c.hash(d.produced) != hash)
            && (r == Ok(d.produced) <==> |d.produced| <= cap && d.ok && c.hash(d.produced) == hash)
  {
    HeaderOkIff(bytes);
    hide LittleEndian32, FromLittleEndian32, HeaderError;
  }

  /** With the largest cap there is, nothing is ever refused for its size: the probe cannot see one byte more, and what is longer is cut off. */
  lemma TopCapRefusesNoSize(c: Codec, bytes: Bytes, key: Bytes)
    requires |bytes| >= MIN_LEN && bytes[..20] == MAGIC + LittleEndian32(VERSION)
    requires bytes[|bytes| - HMAC_LEN..] == c.mac(key, bytes[..|bytes| - HMAC_LEN])
    ensures var r, d, hash := Decode(c, bytes, key, U64_MAX), c.decode(bytes[HEADER_LEN..|bytes| - HMAC_LEN]), bytes[20..HEADER_LEN];
            var seen := if |d.produced| <= U64_MAX then d.produced else d.produced[..U64_MAX];
            && (r == Err(Decompression) <==> |d.produced| < U64_MAX && !d.ok)
            && (r == Ok(seen) <==> (|d.produced| >= U64_MAX || d.ok) && c.hash(seen) == hash)
            && (r == Err(HashMismatch(hash, c.hash(seen))) <==> (|d.produced| >= U64_MAX || d.ok) && c.hash(seen) != hash)
  {
    HeaderOkIff(bytes);
    var d := c.decode(bytes[HEADER_LEN..|bytes| - HMAC_LEN]);
    assert |d.produced| == U64_MAX ==> d.produced[..U64_MAX] == d.produced;
    hide LittleEndian32, FromLittleEndian32, HeaderError;
  }

  /** A different key is refused before anything is decoded, unless the tags collide. */
  lemma WrongKeyIsBadHmac(c: Codec, key: Bytes, other: Bytes, level: int, payload: Bytes, cap: nat)
    requires WellSized(c) && c.mac(other, Prefix(c, level, payload)) != c.mac(key, Prefix(c, level, payload))
    ensures Decode(c, Sealed(c, key, level, payload), other, cap) == Err(BadHmac)
  {
    SealedLayout(c, key, level, payload);
    hide Sealed, Prefix, HeaderError;
  }
}
