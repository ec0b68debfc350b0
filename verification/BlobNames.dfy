/**
 The file names of the store: hexadecimal printing and parsing, the blob and sidecar
 names, and the parser that recognises blobs in a directory listing.
 */
module BlobNames {
  import opened Options
  import opened Envelope

  function HexDigit(n: int): char
    requires 0 <= n < 16
  {
    if n < 10 then '0' + n as char else 'a' + (n - 10) as char
  }

  /** A digit's value; upper case is refused. */
  function HexVal(c: char): Option<int> {
    if '0' <= c <= '9' then Some(c as int - '0' as int)
    else if 'a' <= c <= 'f' then Some(c as int - 'a' as int + 10)
    else None
  }

  function HexByte(b: byte): string {
    [HexDigit(b / 16), HexDigit(b % 16)]
  }

  function Hex(bytes: Bytes): (s: string)
    ensures |s| == 2 * |bytes|
  {
    if bytes == [] then "" else HexByte(bytes[0]) + Hex(bytes[1..])
  }

  function Unhex(s: string): Option<Bytes>
    requires |s| % 2 == 0
  {
    if s == "" then Some([])
    else
      var hi, lo, rest := HexVal(s[0]), HexVal(s[1]), Unhex(s[2..]);
      if hi.Some? && lo.Some? && rest.Some? then
        var b: int := 16 * hi.value + lo.value;
        Some([b] + rest.value)
      else None
  }

  // ------------------------------------------------------------------
  // The loops
  // ------------------------------------------------------------------

  /** Fills a buffer of exactly twice the length with the hexadecimal digits of `bytes`. */
  method HexInto(bytes: array<byte>, out: array<char>)
    requires out.Length == 2 * bytes.Length
    modifies out
    ensures out[..] == Hex(bytes[..])
  {
    var i := 0;
    while i < bytes.Length
      invariant i <= bytes.Length
      invariant out[..2 * i] == Hex(bytes[..i])
    {
      out[i * 2] := HexDigit(bytes[i] / 16);
      out[i * 2 + 1] := HexDigit(bytes[i] % 16);
      assert bytes[..i + 1] == bytes[..i] + [bytes[i]];
      HexAppend(bytes[..i], [bytes[i]]);
      assert out[..2 * (i + 1)] == out[..2 * i] + [out[i * 2], out[i * 2 + 1]];
      i := i + 1;
    }
    assert out[..2 * i] == out[..] && bytes[..i] == bytes[..];
  }

  lemma {:induction false} HexAppend(a: Bytes, b: Bytes)
    ensures Hex(a + b) == Hex(a) + Hex(b)
  {
    if a == [] {
      assert a + b == b;
    } else {
      assert (a + b)[1..] == a[1..] + b;
      HexAppend(a[1..], b);
    }
  }

  /** Parses the 64 digits of a content hash. */
  method ParseHashHex(s: string) returns (r: Option<Bytes>)
    ensures r == ParsedHash(s)
  {
    hide Unhex, HexVal;
    if |s| != 2 * HASH_LEN {
      return None;
    }
    UnhexStep("");
    var bytes: Bytes := [];
    PrependNothing(Unhex(s));
    assert s[2 * 0..] == s;
    for i := 0 to HASH_LEN
      invariant |bytes| == i
      invariant Unhex(s) == Prepend(bytes, Unhex(s[2 * i..]))
    {
      var tail := s[2 * i..];
      assert tail[0] == s[2 * i] && tail[1] == s[2 * i + 1] && tail[2..] == s[2 * (i + 1)..];
      UnhexStep(tail);
      var hi, lo := HexVal(s[2 * i]), HexVal(s[2 * i + 1]);
      if hi.None? || lo.None? {
        return None;
      }
      var b: int := 16 * hi.value + lo.value;
      PrependTwice(bytes, [b], Unhex(tail[2..]));
      bytes := bytes + [b];
    }
    assert s[2 * HASH_LEN..] == "" && bytes + [] == bytes;
    r := Some(bytes);
  }

  lemma UnhexStep(s: string)
    requires |s| % 2 == 0
    ensures s == "" ==> Unhex(s) == Some([])
    ensures s != "" ==>
              var hi, lo := HexVal(s[0]), HexVal(s[1]);
              && (hi.None? || lo.None? ==> Unhex(s) == None)
              && (hi.Some? && lo.Some? ==> 0 <= 16 * hi.value + lo.value < 256 && Unhex(s) == Prepend([16 * hi.value + lo.value], Unhex(s[2..])))
  {
  }

  lemma PrependNothing(r: Option<Bytes>)
    ensures Prepend([], r) == r
  {
    if r.Some? {
      assert [] + r.value == r.value;
    }
  }

  function ParsedHash(s: string): Option<Bytes> {
    if |s| == 2 * HASH_LEN then Unhex(s) else None
  }

  function Prepend(a: Bytes, r: Option<Bytes>): Option<Bytes> {
    if r.Some? then Some(a + r.value) else None
  }

  lemma PrependTwice(a: Bytes, b: Bytes, r: Option<Bytes>)
    ensures Prepend(a, Prepend(b, r)) == Prepend(a + b, r)
  {
    if r.Some? {
      assert a + (b + r.value) == a + b + r.value;
    }
  }

  // ------------------------------------------------------------------
  // Printing and parsing undo each other
  // ------------------------------------------------------------------

  lemma HexDigitRoundTrip(n: int)
    requires 0 <= n < 16
    ensures HexVal(HexDigit(n)) == Some(n) && HexDigit(n) != '.'
  {
  }

  lemma HexValRoundTrip(c: char)
    requires HexVal(c).Some?
    ensures 0 <= HexVal(c).value < 16 && HexDigit(HexVal(c).value) == c
  {
  }

  lemma {:induction false} UnhexHex(bytes: Bytes)
    ensures Unhex(Hex(bytes)) == Some(bytes) && '.' !in Hex(bytes)
  {
    if bytes != [] {
      var b := bytes[0];
      HexDigitRoundTrip(b / 16);
      HexDigitRoundTrip(b % 16);
      UnhexHex(bytes[1..]);
      assert Hex(bytes)[2..] == Hex(bytes[1..]);
      assert bytes == [b] + bytes[1..];
    }
  }

  lemma {:induction false} HexUnhex(s: string)
    requires |s| % 2 == 0 && Unhex(s).Some?
    ensures Hex(Unhex(s).value) == s && 2 * |Unhex(s).value| == |s|
  {
    if s != "" {
      HexUnhex(s[2..]);
      HexValRoundTrip(s[0]);
      HexValRoundTrip(s[1]);
      var hi, lo := HexVal(s[0]).value, HexVal(s[1]).value;
      var b: byte := 16 * hi + lo;
      assert b / 16 == hi && b % 16 == lo;
      var rest := Unhex(s[2..]).value;
      assert Unhex(s).value == [b] + rest;
      assert ([b] + rest)[1..] == rest;
      assert s == [s[0], s[1]] + s[2..];
    }
  }

  // ------------------------------------------------------------------
  // Names
  // ------------------------------------------------------------------

  function BlobName(hash: Bytes, fp: string): string {
    Hex(hash) + "." + fp + ".bin"
  }

  function MetaName(hash: Bytes, fp: string): string {
    Hex(hash) + "." + fp + ".meta.json"
  }

  predicate HasSuffix(s: string, suffix: string) {
    |s| >= |suffix| && s[|s| - |suffix|..] == suffix
  }

  /** The position of the last dot, if any. */
  function LastDot(s: string): (r: Option<nat>)
    ensures r.Some? ==> r.value < |s|
  {
    if s == "" then None
    else if s[|s| - 1] == '.' then Some(|s| - 1)
    else LastDot(s[..|s| - 1])
  }

  /** Recognises `{hash}.{fingerprint}.bin`. */
  function ParseBlobFilename(name: string): Option<(Bytes, string)> {
    if !HasSuffix(name, ".bin") then None
    else
      var stem := name[..|name| - 4];
      match LastDot(stem)
      case None => None
      case Some(dot) =>
        match ParsedHash(stem[..dot])
        case None => None
        case Some(hash) => Some((hash, stem[dot + 1..]))
  }

  lemma {:induction false} LastDotLaws(s: string)
    ensures LastDot(s).Some? ==> LastDot(s).value < |s| && s[LastDot(s).value] == '.' && '.' !in s[LastDot(s).value + 1..]
    ensures LastDot(s).None? ==> '.' !in s
  {
    if s != "" && s[|s| - 1] != '.' {
      var n := |s| - 1;
      LastDotLaws(s[..n]);
      assert s == s[..n] + [s[n]];
      if LastDot(s).Some? {
        var d := LastDot(s).value;
        assert s[d + 1..] == s[..n][d + 1..] + [s[n]];
      }
    }
  }

  lemma {:induction false} LastDotAt(a: string, b: string)
    requires '.' !in b
    ensures LastDot(a + "." + b) == Some(|a|)
    decreases |b|
  {
    var s := a + "." + b;
    if b == "" {
      assert s[|s| - 1] == '.';
    } else {
      assert s[|s| - 1] == b[|b| - 1];
      assert s[..|s| - 1] == a + "." + b[..|b| - 1];
      LastDotAt(a, b[..|b| - 1]);
    }
  }

  /** The parser recognises exactly the printed names. */
  lemma ParsesIff(name: string, hash: Bytes, fp: string)
    ensures ParseBlobFilename(name) == Some((hash, fp)) <==> |hash| == HASH_LEN && '.' !in fp && name == BlobName(hash, fp)
  {
    hide Hex, Unhex;
    if |hash| == HASH_LEN && '.' !in fp && name == BlobName(hash, fp) {
      var stem := Hex(hash) + "." + fp;
      assert name == stem + ".bin" && name[|name| - 4..] == ".bin" && name[..|name| - 4] == stem;
      LastDotAt(Hex(hash), fp);
      UnhexHex(hash);
      assert stem[..|Hex(hash)|] == Hex(hash) && stem[|Hex(hash)| + 1..] == fp;
    }
    if ParseBlobFilename(name) == Some((hash, fp)) {
      var stem := name[..|name| - 4];
      LastDotLaws(stem);
      var dot := LastDot(stem).value;
      HexUnhex(stem[..dot]);
      assert stem == stem[..dot] + "." + stem[dot + 1..];
      assert name == stem + ".bin";
    }
  }

  /** Distinct blobs have distinct names. */
  lemma BlobNameInjective(h1: Bytes, fp1: string, h2: Bytes, fp2: string)
    requires |h1| == |h2| == HASH_LEN && '.' !in fp1 && '.' !in fp2
    ensures BlobName(h1, fp1) == BlobName(h2, fp2) <==> h1 == h2 && fp1 == fp2
  {
    ParsesIff(BlobName(h1, fp1), h1, fp1);
    ParsesIff(BlobName(h2, fp2), h2, fp2);
  }

  /** A sidecar is never taken for a blob. */
  lemma SidecarNeverParses(hash: Bytes, fp: string)
    ensures ParseBlobFilename(MetaName(hash, fp)) == None
  {
    var name := MetaName(hash, fp);
    assert name[|name| - 1] == 'n' && name[|name| - 2] == 'o';
    assert name[|name| - 4..][2] == 'o' && ".bin"[2] == 'i';
  }
}
