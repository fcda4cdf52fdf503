/** The formats byte by byte: positions, byte orders, codes and limits, with known values to compare. */
module Layouts {
  import opened Bytes
  import opened Messages
  import opened Resume
  import F = Frames

  // ---------------------------------------------------------------------
  // Numbers.
  // ---------------------------------------------------------------------

  /** On the wire the most significant byte comes first. */
  lemma NetworkOrder16(s: seq<byte>)
    requires |s| == 2
    ensures ReadU16(s) == 0x100 * (s[0] as nat) + s[1] as nat
  {
    var t := s[..1];
    assert t[..0] == [] && FromBigEndian(t) == FromBigEndian([]) * 256 + s[0] as nat;
  }

  lemma NetworkOrder32(s: seq<byte>)
    requires |s| == 4
    ensures ReadU32(s) == 0x100_0000 * (s[0] as nat) + 0x1_0000 * (s[1] as nat) + 0x100 * (s[2] as nat) + s[3] as nat
  {
    var t := s[..2];
    NetworkOrder16(t);
    assert s[..3][..2] == t;
    assert FromBigEndian(s[..3]) == FromBigEndian(t) * 256 + s[2] as nat;
  }

  lemma NetworkOrder64(s: seq<byte>)
    requires |s| == 8
    ensures ReadU64(s) == 0x1_0000_0000 * ReadU32(s[..4]) + ReadU32(s[4..])
  {
    var t, u := s[..4], s[4..];
    NetworkOrder32(u);
    assert s[..7][..6] == s[..6] && s[..6][..5] == s[..5] && s[..5][..4] == t;
    assert FromBigEndian(s[..5]) == FromBigEndian(t) * 256 + u[0] as nat;
    assert FromBigEndian(s[..6]) == FromBigEndian(s[..5]) * 256 + u[1] as nat;
    assert FromBigEndian(s[..7]) == FromBigEndian(s[..6]) * 256 + u[2] as nat;
  }

  /** In the sidecar the least significant byte comes first. */
  lemma SidecarOrder32(s: seq<byte>)
    requires |s| == 4
    ensures ReadLittleEndian32(s) ==
            s[0] as nat + 0x100 * (s[1] as nat) + 0x1_0000 * (s[2] as nat) + 0x100_0000 * (s[3] as nat)
  {
    NetworkOrder32([s[3], s[2], s[1], s[0]]);
  }

  // ---------------------------------------------------------------------
  // The header.
  // ---------------------------------------------------------------------

  /** The type that a code stands for. */
  predicate Stands(code: byte, t: F.FrameType) {
    || (code == 1 && t == F.Hello) || (code == 2 && t == F.Manifest) || (code == 3 && t == F.ReqChunks)
    || (code == 4 && t == F.Chunk) || (code == 5 && t == F.Ack) || (code == 6 && t == F.Complete)
    || (code == 255 && t == F.Error)
  }

  /** Length, type, checksum of those five bytes: which fault is named when there are several. */
  lemma HeaderVerdict(crc: F.Checksum, src: seq<byte>, limit: nat)
    requires |src| == 9
    ensures var r := F.DecodeHeader(crc, src, limit);
            var len, intact := ReadU32(src[..4]), ReadU32(src[5..9]) == crc(src[..5]);
            && (r == F.Bad(F.BadCrc) <==> !intact)
            && (r == F.Bad(F.UnknownType) <==> intact && forall t :: !Stands(src[4], t))
            && (r == F.Bad(F.PayloadTooLarge) <==> intact && (exists t :: Stands(src[4], t)) && len > limit)
            && (forall t :: r == F.Ok(F.Header(len, t)) <==> intact && Stands(src[4], t) && len <= limit)
  {
    forall t: F.FrameType ensures Stands(src[4], t) <==> F.TypeOf(src[4]) == Some(t) { }
  }

  /** A session reads back what it writes exactly up to 64 MiB. */
  lemma FrameLimit(crc: F.Checksum, f: F.Frame)
    ensures F.Splits(F.ParserFor(crc, F.MAX_PAYLOAD), F.FrameBytes(crc, f), [f], []) <==> |f.payload| <= 67_108_864
  {
    var hp, s := F.ParserFor(crc, F.MAX_PAYLOAD), F.FrameBytes(crc, f);
    if |f.payload| <= 67_108_864 {
      F.ParseFirst(crc, f, [], F.MAX_PAYLOAD);
      assert s + [] == s;
    } else {
      var h := F.Header(|f.payload| % 0x1_0000_0000, f.ftype);
      F.HeaderRoundTrip(crc, h, F.MAX_PAYLOAD);
      assert s[..9] == F.HeaderBytes(crc, h);
    }
  }

  // ---------------------------------------------------------------------
  // The payloads.
  // ---------------------------------------------------------------------

  lemma HelloLayout(m: HelloMsg)
    ensures var p := EncodeHello(m);
            |p| == 9 && p[0] == m.version && ReadU32(p[1..5]) == m.maxChunkSize && ReadU32(p[5..9]) == m.capabilities
  {
    HelloRoundTrip(m);
  }

  lemma ChunkLayout(m: ChunkMsg)
    ensures var p := EncodeChunk(m);
            |p| == 36 + |m.data| && ReadU32(p[..4]) == m.index && p[4..36] == m.hash && p[36..] == m.data
  {
    ChunkRoundTrip(m);
  }

  lemma CompleteLayout(m: CompleteMsg)
    ensures var p := EncodeComplete(m); |p| == 33 && p[..32] == m.finalRootHash && p[32] == m.status
  {
    CompleteRoundTrip(m);
  }

  lemma AckLayout(m: AckMsg)
    ensures var p := EncodeAck(m); |p| == 4 && ReadU32(p) == m.lastIndex
  {
    AckRoundTrip(m);
  }

  lemma ErrorLayout(m: ErrorMsg)
    ensures var p := EncodeError(m);
            && |p| == 4 + |m.text| && ReadU16(p[..2]) == m.code
            && ReadU16(p[2..4]) == |m.text| % 0x1_0000 && p[4..] == m.text
  {
    var p := EncodeError(m);
    assert p[..2] == U16Bytes(m.code) && p[2..4] == U16Bytes(|m.text| % 0x1_0000);
    U16RoundTrip(m.code);
    U16RoundTrip(|m.text| % 0x1_0000);
  }

  lemma {:induction false} IndexAt(ix: seq<u32>, i: nat)
    requires i < |ix|
    ensures ReadU32(Indices(ix)[4 * i..4 * i + 4]) == ix[i]
    decreases |ix|
  {
    var n := |ix| - 1;
    U32RoundTrip(ix[n]);
    if i < n {
      IndexAt(ix[..n], i);
      assert Indices(ix)[4 * i..4 * i + 4] == Indices(ix[..n])[4 * i..4 * i + 4];
    } else {
      assert Indices(ix)[4 * n..4 * n + 4] == U32Bytes(ix[n]);
    }
  }

  lemma ReqChunksLayout(m: ReqChunksMsg, i: nat)
    requires i < |m.indices|
    ensures var p := EncodeReqChunks(m);
            && |p| == 4 + 4 * |m.indices| && ReadU32(p[..4]) == |m.indices| % 0x1_0000_0000
            && ReadU32(p[4 + 4 * i..8 + 4 * i]) == m.indices[i]
  {
    var p := EncodeReqChunks(m);
    U32RoundTrip(|m.indices| % 0x1_0000_0000);
    IndexAt(m.indices, i);
    assert p[..4] == U32Bytes(|m.indices| % 0x1_0000_0000);
    assert p[4 + 4 * i..8 + 4 * i] == Indices(m.indices)[4 * i..4 * i + 4];
  }

  lemma {:induction false} HashAt(hs: seq<Digest>, i: nat)
    requires i < |hs|
    ensures Hashes(hs)[32 * i..32 * i + 32] == hs[i]
    decreases |hs|
  {
    var n := |hs| - 1;
    if i < n {
      HashAt(hs[..n], i);
      assert Hashes(hs)[32 * i..32 * i + 32] == Hashes(hs[..n])[32 * i..32 * i + 32];
    }
  }

  /** Every field of a manifest, and every hash, at its place. */
  lemma ManifestFields(m: ManifestMsg, i: nat)
    requires i < |m.chunkHashes|
    ensures var p := EncodeManifest(m); var n := |m.path|;
            && |p| == 50 + n + 32 * |m.chunkHashes|
            && ReadU64(p[..8]) == m.fileSize && ReadU32(p[8..12]) == m.chunkSize && ReadU32(p[12..16]) == m.chunkCount
            && p[16..48] == m.rootHash && ReadU16(p[48..50]) == n % 0x1_0000 && p[50..50 + n] == m.path
            && p[50 + n + 32 * i..82 + n + 32 * i] == m.chunkHashes[i]
  {
    var p, n := EncodeManifest(m), |m.path|;
    ManifestLayout(m);
    U64RoundTrip(m.fileSize);
    U32RoundTrip(m.chunkSize);
    U32RoundTrip(m.chunkCount);
    U16RoundTrip(n % 0x1_0000);
    HashAt(m.chunkHashes, i);
    assert p[50 + n + 32 * i..82 + n + 32 * i] == p[50 + n..][32 * i..32 * i + 32];
  }

  // ---------------------------------------------------------------------
  // The sidecar.
  // ---------------------------------------------------------------------

  /** The bit of weight 2 to the k. */
  predicate Bit(b: byte, k: nat)
    decreases k
  {
    if k == 0 then b & 1 == 1 else Bit(b >> 1, k - 1)
  }

  lemma MaskIsBit(b: byte, k: nat)
    requires k < 8
    ensures b & Mask(k) != 0 <==> Bit(b, k)
  {
    BitUnfolds(b);
  }

  lemma BitUnfolds(b: byte)
    ensures Bit(b, 0) == (b & 1 != 0) && Bit(b, 1) == (b & 2 != 0) && Bit(b, 2) == (b & 4 != 0)
    ensures Bit(b, 3) == (b & 8 != 0) && Bit(b, 4) == (b & 16 != 0) && Bit(b, 5) == (b & 32 != 0)
    ensures Bit(b, 6) == (b & 64 != 0) && Bit(b, 7) == (b & 128 != 0)
  {
    assert Bit(b, 2) == Bit(b >> 2, 0) && Bit(b, 3) == Bit(b >> 3, 0);
    assert Bit(b, 4) == Bit(b >> 4, 0) && Bit(b, 5) == Bit(b >> 5, 0);
    assert Bit(b, 6) == Bit(b >> 6, 0) && Bit(b, 7) == Bit(b >> 7, 0);
  }

  /** "FTXS", version 1, the manifest's id, the count, and one byte for every eight chunks, rounded up. */
  lemma SidecarLayout(r: ResumeData)
    requires Covering(r)
    ensures var b := SaveBytes(r);
            && |b| == 41 + (r.count + 7) / 8 && b[41..] == r.bitmap
            && b[..4] == [0x46, 0x54, 0x58, 0x53] && b[4] == 1 && b[5..37] == r.id
            && ReadLittleEndian32(b[37..41]) == r.count
  {
    SaveLayout(r);
    LittleEndianRoundTrips(r.count, []);
  }

  /** Chunk 8 * a + k is bit k of byte a of the bitmap, the lowest bit being bit 0. */
  lemma BitmapOrder(r: ResumeData, a: nat, k: nat)
    requires Covering(r) && k < 8 && 8 * a + k < r.count
    ensures a < |r.bitmap| && (8 * a + k in Have(r) <==> Bit(r.bitmap[a], k))
  {
    var i := 8 * a + k;
    assert i / 8 == a && i % 8 == k;
    MaskIsBit(r.bitmap[a], k);
  }
}
