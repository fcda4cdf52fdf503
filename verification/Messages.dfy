/** The seven message payloads: layouts, decoders by layout, and round trips in both directions. */
module Messages {
  import opened Bytes

  datatype HelloMsg = HelloMsg(version: byte, maxChunkSize: u32, capabilities: u32)

  datatype ManifestMsg = ManifestMsg(fileSize: u64, chunkSize: u32, chunkCount: u32, rootHash: Digest,
                                     path: seq<byte>, chunkHashes: seq<Digest>)

  datatype ReqChunksMsg = ReqChunksMsg(indices: seq<u32>)

  datatype ChunkMsg = ChunkMsg(index: u32, hash: Digest, data: seq<byte>)

  datatype CompleteMsg = CompleteMsg(finalRootHash: Digest, status: byte)

  datatype AckMsg = AckMsg(lastIndex: u32)

  datatype ErrorMsg = ErrorMsg(code: u16, text: seq<byte>)

  // ---------------------------------------------------------------------
  // Encoders. Lengths are truncated to their fields, as the casts in the program do.
  // ---------------------------------------------------------------------

  function EncodeHello(m: HelloMsg): seq<byte> {
    [m.version] + U32Bytes(m.maxChunkSize) + U32Bytes(m.capabilities)
  }

  function Hashes(hs: seq<Digest>): (s: seq<byte>)
    ensures |s| == 32 * |hs|
  {
    if hs == [] then [] else Hashes(hs[..|hs| - 1]) + hs[|hs| - 1]
  }

  function Indices(ix: seq<u32>): (s: seq<byte>)
    ensures |s| == 4 * |ix|
  {
    if ix == [] then [] else Indices(ix[..|ix| - 1]) + U32Bytes(ix[|ix| - 1])
  }

  function EncodeManifest(m: ManifestMsg): seq<byte> {
    U64Bytes(m.fileSize) + U32Bytes(m.chunkSize) + U32Bytes(m.chunkCount) + m.rootHash
    + U16Bytes(|m.path| % 0x1_0000) + m.path + Hashes(m.chunkHashes)
  }

  function EncodeReqChunks(m: ReqChunksMsg): seq<byte> {
    U32Bytes(|m.indices| % 0x1_0000_0000) + Indices(m.indices)
  }

  function EncodeChunk(m: ChunkMsg): seq<byte> {
    U32Bytes(m.index) + m.hash + m.data
  }

  function EncodeComplete(m: CompleteMsg): seq<byte> {
    m.finalRootHash + [m.status]
  }

  function EncodeAck(m: AckMsg): seq<byte> {
    U32Bytes(m.lastIndex)
  }

  function EncodeError(m: ErrorMsg): seq<byte> {
    U16Bytes(m.code) + U16Bytes(|m.text| % 0x1_0000) + m.text
  }

  // ---------------------------------------------------------------------
  // Decoders, by the layout of the whole payload.
  // ---------------------------------------------------------------------

  function DecodeHello(p: seq<byte>): Option<HelloMsg> {
    if |p| != 9 then None
    else Some(HelloMsg(p[0], ReadU32(p[1..5]), ReadU32(p[5..9])))
  }

  function SplitHashes(s: seq<byte>, n: nat): (hs: seq<Digest>)
    requires |s| == 32 * n
    ensures |hs| == n
  {
    if n == 0 then [] else SplitHashes(s[..32 * (n - 1)], n - 1) + [s[32 * (n - 1)..]]
  }

  function SplitIndices(s: seq<byte>, n: nat): (ix: seq<u32>)
    requires |s| == 4 * n
    ensures |ix| == n
  {
    if n == 0 then [] else SplitIndices(s[..4 * (n - 1)], n - 1) + [ReadU32(s[4 * (n - 1)..])]
  }

  function DecodeManifest(p: seq<byte>): Option<ManifestMsg> {
    if |p| < 50 then None
    else
      var count, len := ReadU32(p[12..16]), ReadU16(p[48..50]);
      if |p| != 50 + len + 32 * count then None
      else Some(ManifestMsg(ReadU64(p[..8]), ReadU32(p[8..12]), count, p[16..48],
                            p[50..50 + len], SplitHashes(p[50 + len..], count)))
  }

  function DecodeReqChunks(p: seq<byte>): Option<ReqChunksMsg> {
    if |p| < 4 then None
    else
      var count := ReadU32(p[..4]);
      if |p| != 4 + 4 * count then None
      else Some(ReqChunksMsg(SplitIndices(p[4..], count)))
  }

  function DecodeChunk(p: seq<byte>): Option<ChunkMsg> {
    if |p| < 36 then None
    else Some(ChunkMsg(ReadU32(p[..4]), p[4..36], p[36..]))
  }

  function DecodeComplete(p: seq<byte>): Option<CompleteMsg> {
    if |p| != 33 then None
    else Some(CompleteMsg(p[..32], p[32]))
  }

  function DecodeAck(p: seq<byte>): Option<AckMsg> {
    if |p| != 4 then None
    else Some(AckMsg(ReadU32(p)))
  }

  function DecodeError(p: seq<byte>): Option<ErrorMsg> {
    if |p| < 4 then None
    else
      var len := ReadU16(p[2..4]);
      if |p| != 4 + len then None
      else Some(ErrorMsg(ReadU16(p[..2]), p[4..]))
  }

  // ---------------------------------------------------------------------
  // Well-formed messages survive the wire, and only they do.
  // ---------------------------------------------------------------------

  predicate WellFormedManifest(m: ManifestMsg) {
    |m.path| < 0x1_0000 && |m.chunkHashes| == m.chunkCount
  }

  lemma {:induction false} SplitHashesRoundTrip(hs: seq<Digest>)
    ensures SplitHashes(Hashes(hs), |hs|) == hs
  {
    if hs != [] {
      var n, s := |hs|, Hashes(hs);
      SplitHashesRoundTrip(hs[..n - 1]);
      assert s[..32 * (n - 1)] == Hashes(hs[..n - 1]) && s[32 * (n - 1)..] == hs[n - 1];
      assert hs == hs[..n - 1] + [hs[n - 1]];
    }
  }

  lemma {:induction false} HashesRoundTrip(s: seq<byte>, n: nat)
    requires |s| == 32 * n
    ensures Hashes(SplitHashes(s, n)) == s
  {
    if n > 0 {
      HashesRoundTrip(s[..32 * (n - 1)], n - 1);
      var hs := SplitHashes(s, n);
      assert hs[..n - 1] == SplitHashes(s[..32 * (n - 1)], n - 1);
      assert s == s[..32 * (n - 1)] + s[32 * (n - 1)..];
    }
  }

  lemma {:induction false} SplitIndicesRoundTrip(ix: seq<u32>)
    ensures SplitIndices(Indices(ix), |ix|) == ix
  {
    if ix != [] {
      var n, s := |ix|, Indices(ix);
      SplitIndicesRoundTrip(ix[..n - 1]);
      assert s[..4 * (n - 1)] == Indices(ix[..n - 1]) && s[4 * (n - 1)..] == U32Bytes(ix[n - 1]);
      U32RoundTrip(ix[n - 1]);
      assert ix == ix[..n - 1] + [ix[n - 1]];
    }
  }

  lemma {:induction false} IndicesRoundTrip(s: seq<byte>, n: nat)
    requires |s| == 4 * n
    ensures Indices(SplitIndices(s, n)) == s
  {
    if n > 0 {
      IndicesRoundTrip(s[..4 * (n - 1)], n - 1);
      ReadRoundTrips(s[4 * (n - 1)..]);
      var ix := SplitIndices(s, n);
      assert ix[..n - 1] == SplitIndices(s[..4 * (n - 1)], n - 1);
      assert s == s[..4 * (n - 1)] + s[4 * (n - 1)..];
    }
  }

  /** Where each field of an encoded manifest lies. */
  lemma ManifestLayout(m: ManifestMsg)
    ensures var p := EncodeManifest(m); var n := |m.path|;
      && |p| == 50 + n + 32 * |m.chunkHashes|
      && p[..8] == U64Bytes(m.fileSize) && p[8..12] == U32Bytes(m.chunkSize)
      && p[12..16] == U32Bytes(m.chunkCount) && p[16..48] == m.rootHash
      && p[48..50] == U16Bytes(n % 0x1_0000) && p[50..50 + n] == m.path
      && p[50 + n..] == Hashes(m.chunkHashes)
  {
    var p, n := EncodeManifest(m), |m.path|;
    assert p[..8] == U64Bytes(m.fileSize) && p[8..12] == U32Bytes(m.chunkSize);
    assert p[12..16] == U32Bytes(m.chunkCount) && p[16..48] == m.rootHash;
    assert p[48..50] == U16Bytes(n % 0x1_0000);
  }

  /** A manifest comes back from its encoding exactly when its lengths fit and its hash count is as declared. */
  lemma ManifestRoundTrip(m: ManifestMsg)
    ensures DecodeManifest(EncodeManifest(m)) == Some(m) <==> WellFormedManifest(m)
  {
    ManifestLayout(m);
    U32RoundTrip(m.chunkCount);
    U16RoundTrip(|m.path| % 0x1_0000);
    if WellFormedManifest(m) {
      assert |m.path| % 0x1_0000 == |m.path|;
      U64RoundTrip(m.fileSize);
      U32RoundTrip(m.chunkSize);
      SplitHashesRoundTrip(m.chunkHashes);
    }
  }

  /** A path that does not fit its length field makes the encoding unreadable, and not a different manifest. */
  lemma LongPathRejected(m: ManifestMsg)
    requires |m.path| >= 0x1_0000 && |m.chunkHashes| == m.chunkCount
    ensures DecodeManifest(EncodeManifest(m)).None?
  {
    ManifestLayout(m);
    U32RoundTrip(m.chunkCount);
    U16RoundTrip(|m.path| % 0x1_0000);
  }

  lemma ManifestParts(p: seq<byte>, len: u16, count: u32)
    requires |p| == 50 + len + 32 * count
    requires len == ReadU16(p[48..50]) && count == ReadU32(p[12..16])
    ensures U64Bytes(ReadU64(p[..8])) + U32Bytes(ReadU32(p[8..12])) + U32Bytes(count) + p[16..48]
            + U16Bytes(len) + p[50..50 + len] + Hashes(SplitHashes(p[50 + len..], count)) == p
  {
    ReadRoundTrips(p[..8]);
    ReadRoundTrips(p[8..12]);
    ReadRoundTrips(p[12..16]);
    ReadRoundTrips(p[48..50]);
    HashesRoundTrip(p[50 + len..], count);
    assert p == p[..8] + p[8..12] + p[12..16] + p[16..48] + p[48..50] + p[50..50 + len] + p[50 + len..];
  }

  /** Any payload that decodes as a manifest re-encodes to itself. */
  lemma ManifestCanonical(p: seq<byte>)
    requires DecodeManifest(p).Some?
    ensures WellFormedManifest(DecodeManifest(p).value)
    ensures EncodeManifest(DecodeManifest(p).value) == p
  {
    var m: ManifestMsg := DecodeManifest(p).value;
    var len: u16, count: u32 := ReadU16(p[48..50]), ReadU32(p[12..16]);
    assert len % 0x1_0000 == len;
    calc {
      EncodeManifest(m);
      U64Bytes(ReadU64(p[..8])) + U32Bytes(ReadU32(p[8..12])) + U32Bytes(count) + p[16..48]
      + U16Bytes(len) + p[50..50 + len] + Hashes(SplitHashes(p[50 + len..], count));
      { ManifestParts(p, len, count); }
      p;
    }
  }

  /** Distinct manifests have distinct encodings. */
  lemma ManifestInjective(a: ManifestMsg, b: ManifestMsg)
    requires WellFormedManifest(a) && WellFormedManifest(b)
    requires EncodeManifest(a) == EncodeManifest(b)
    ensures a == b
  {
    ManifestRoundTrip(a);
    ManifestRoundTrip(b);
  }

  lemma ReqChunksRoundTrip(m: ReqChunksMsg)
    ensures DecodeReqChunks(EncodeReqChunks(m)) == Some(m) <==> |m.indices| < 0x1_0000_0000
  {
    var p, n: u32 := EncodeReqChunks(m), |m.indices| % 0x1_0000_0000;
    assert p[..4] == U32Bytes(n) && p[4..] == Indices(m.indices);
    U32RoundTrip(n);
    if |m.indices| < 0x1_0000_0000 {
      assert n == |m.indices|;
      SplitIndicesRoundTrip(m.indices);
    }
  }

  lemma ReqChunksParts(p: seq<byte>, n: u32)
    requires |p| == 4 + 4 * n && n == ReadU32(p[..4])
    ensures U32Bytes(n) + Indices(SplitIndices(p[4..], n)) == p
  {
    ReadRoundTrips(p[..4]);
    IndicesRoundTrip(p[4..], n);
    assert p == p[..4] + p[4..];
  }

  lemma ReqChunksCanonical(p: seq<byte>)
    requires DecodeReqChunks(p).Some?
    ensures EncodeReqChunks(DecodeReqChunks(p).value) == p
  {
    var n: u32 := ReadU32(p[..4]);
    assert n % 0x1_0000_0000 == n;
    calc {
      EncodeReqChunks(DecodeReqChunks(p).value);
      U32Bytes(n) + Indices(SplitIndices(p[4..], n));
      { ReqChunksParts(p, n); }
      p;
    }
  }

  lemma ChunkRoundTrip(m: ChunkMsg)
    ensures DecodeChunk(EncodeChunk(m)) == Some(m)
  {
    var p := EncodeChunk(m);
    assert p[..4] == U32Bytes(m.index) && p[4..36] == m.hash && p[36..] == m.data;
    U32RoundTrip(m.index);
  }

  lemma ChunkCanonical(p: seq<byte>)
    requires DecodeChunk(p).Some?
    ensures EncodeChunk(DecodeChunk(p).value) == p
  {
    ReadRoundTrips(p[..4]);
    assert p == p[..4] + p[4..36] + p[36..];
  }

  lemma HelloRoundTrip(m: HelloMsg)
    ensures DecodeHello(EncodeHello(m)) == Some(m)
  {
    var p := EncodeHello(m);
    assert p[1..5] == U32Bytes(m.maxChunkSize) && p[5..9] == U32Bytes(m.capabilities);
    U32RoundTrip(m.maxChunkSize);
    U32RoundTrip(m.capabilities);
  }

  lemma HelloCanonical(p: seq<byte>)
    requires DecodeHello(p).Some?
    ensures EncodeHello(DecodeHello(p).value) == p
  {
    ReadRoundTrips(p[1..5]);
    ReadRoundTrips(p[5..9]);
    assert p == [p[0]] + p[1..5] + p[5..9];
  }

  lemma CompleteRoundTrip(m: CompleteMsg)
    ensures DecodeComplete(EncodeComplete(m)) == Some(m)
  {
    assert EncodeComplete(m)[..32] == m.finalRootHash;
  }

  lemma CompleteCanonical(p: seq<byte>)
    requires DecodeComplete(p).Some?
    ensures EncodeComplete(DecodeComplete(p).value) == p
  {
    assert p == p[..32] + [p[32]];
  }

  lemma AckRoundTrip(m: AckMsg)
    ensures DecodeAck(EncodeAck(m)) == Some(m)
  {
    U32RoundTrip(m.lastIndex);
  }

  lemma AckCanonical(p: seq<byte>)
    requires DecodeAck(p).Some?
    ensures EncodeAck(DecodeAck(p).value) == p
  {
    ReadRoundTrips(p);
  }

  lemma ErrorRoundTrip(m: ErrorMsg)
    ensures DecodeError(EncodeError(m)) == Some(m) <==> |m.text| < 0x1_0000
  {
    var p, n: u16 := EncodeError(m), |m.text| % 0x1_0000;
    assert p[..2] == U16Bytes(m.code) && p[2..4] == U16Bytes(n) && p[4..] == m.text;
    U16RoundTrip(m.code);
    U16RoundTrip(n);
  }

  lemma ErrorParts(p: seq<byte>, n: u16)
    requires |p| == 4 + n && n == ReadU16(p[2..4])
    ensures U16Bytes(ReadU16(p[..2])) + U16Bytes(n) + p[4..] == p
  {
    ReadRoundTrips(p[..2]);
    ReadRoundTrips(p[2..4]);
    assert p == p[..2] + p[2..4] + p[4..];
  }

  lemma ErrorCanonical(p: seq<byte>)
    requires DecodeError(p).Some?
    ensures EncodeError(DecodeError(p).value) == p
  {
    var n: u16 := ReadU16(p[2..4]);
    assert n % 0x1_0000 == n;
    calc {
      EncodeError(DecodeError(p).value);
      U16Bytes(ReadU16(p[..2])) + U16Bytes(n) + p[4..];
      { ErrorParts(p, n); }
      p;
    }
  }
}
