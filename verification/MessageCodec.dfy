/** The codecs as the program runs them: encoders that append, decoders that move a cursor. */
module MessageCodec {
  import opened Bytes
  import opened Messages

  /** A read position in a payload; every take fails, without moving, when too few bytes are left. */
  class Cursor {
    const payload: seq<byte>
    var pos: nat

    ghost predicate Valid()
      reads this
    {
      pos <= |payload|
    }

    constructor (payload: seq<byte>)
      ensures Valid() && this.payload == payload && pos == 0
    {
      this.payload, pos := payload, 0;
    }

    function Remaining(): nat
      requires Valid()
      reads this
    {
      |payload| - pos
    }

    function Rest(): seq<byte>
      requires Valid()
      reads this
    {
      payload[pos..]
    }

    method TakeBytes(n: nat) returns (r: Option<seq<byte>>)
      requires Valid()
      modifies this
      ensures Valid()
      ensures r.Some? <==> old(pos) + n <= |payload|
      ensures pos == if r.Some? then old(pos) + n else old(pos)
      ensures r.Some? ==> r.value == payload[old(pos)..pos]
    {
      if pos + n > |payload| {
        return None;
      }
      r := Some(payload[pos..pos + n]);
      pos := pos + n;
    }

    method TakeU16() returns (r: Option<u16>)
      requires Valid()
      modifies this
      ensures Valid()
      ensures r.Some? <==> old(pos) + 2 <= |payload|
      ensures pos == if r.Some? then old(pos) + 2 else old(pos)
      ensures r.Some? ==> r.value == ReadU16(payload[old(pos)..pos])
    {
      var b := TakeBytes(2);
      r := if b.Some? then Some(ReadU16(b.value)) else None;
    }

    method TakeU32() returns (r: Option<u32>)
      requires Valid()
      modifies this
      ensures Valid()
      ensures r.Some? <==> old(pos) + 4 <= |payload|
      ensures pos == if r.Some? then old(pos) + 4 else old(pos)
      ensures r.Some? ==> r.value == ReadU32(payload[old(pos)..pos])
    {
      var b := TakeBytes(4);
      r := if b.Some? then Some(ReadU32(b.value)) else None;
    }

    method TakeU64() returns (r: Option<u64>)
      requires Valid()
      modifies this
      ensures Valid()
      ensures r.Some? <==> old(pos) + 8 <= |payload|
      ensures pos == if r.Some? then old(pos) + 8 else old(pos)
      ensures r.Some? ==> r.value == ReadU64(payload[old(pos)..pos])
    {
      var b := TakeBytes(8);
      if b.None? {
        return None;
      }
      var v := AccumulateU64(b.value);
      r := Some(v);
    }
  }

  method TakeHello(p: seq<byte>) returns (m: Option<HelloMsg>)
    ensures m == DecodeHello(p)
  {
    var c := new Cursor(p);
    var version := c.TakeBytes(1);
    if version.None? { return None; }
    var size := c.TakeU32();
    if size.None? { return None; }
    var caps := c.TakeU32();
    if caps.None? || c.Remaining() != 0 { return None; }
    m := Some(HelloMsg(version.value[0], size.value, caps.value));
  }

  method TakeManifest(p: seq<byte>) returns (m: Option<ManifestMsg>)
    ensures m == DecodeManifest(p)
  {
    var c := new Cursor(p);
    var fileSize := c.TakeU64();
    if fileSize.None? { return None; }
    var chunkSize := c.TakeU32();
    if chunkSize.None? { return None; }
    var count := c.TakeU32();
    if count.None? { return None; }
    var root := c.TakeBytes(32);
    if root.None? { return None; }
    var len := c.TakeU16();
    if len.None? { return None; }
    assert p[0..8] == p[..8];
    var path := c.TakeBytes(len.value);
    if path.None? { return None; }
    var hashes := TakeHashes(c, count.value);
    if hashes.None? || c.Remaining() != 0 { return None; }
    assert p[50 + len.value..c.pos] == p[50 + len.value..];
    m := Some(ManifestMsg(fileSize.value, chunkSize.value, count.value, root.value, path.value, hashes.value));
  }

  method TakeHashes(c: Cursor, n: nat) returns (r: Option<seq<Digest>>)
    requires c.Valid()
    modifies c
    ensures c.Valid()
    ensures r.Some? <==> old(c.pos) + 32 * n <= |c.payload|
    ensures r.Some? ==> c.pos == old(c.pos) + 32 * n
    ensures r.Some? ==> r.value == SplitHashes(c.payload[old(c.pos)..c.pos], n)
  {
    var hs: seq<Digest> := [];
    ghost var start := c.pos;
    for i := 0 to n
      invariant c.Valid() && c.pos == start + 32 * i
      invariant hs == SplitHashes(c.payload[start..c.pos], i)
    {
      var h := c.TakeBytes(32);
      if h.None? { return None; }
      assert c.payload[start..c.pos][..32 * i] == c.payload[start..c.pos - 32];
      assert c.payload[start..c.pos][32 * i..] == h.value;
      hs := hs + [h.value];
    }
    r := Some(hs);
  }

  method TakeReqChunks(p: seq<byte>) returns (m: Option<ReqChunksMsg>)
    ensures m == DecodeReqChunks(p)
  {
    var c := new Cursor(p);
    var count := c.TakeU32();
    if count.None? { return None; }
    assert p[0..4] == p[..4];
    if count.value > c.Remaining() / 4 { return None; }
    var indices: seq<u32> := [];
    for i := 0 to count.value
      invariant c.Valid() && fresh(c) && c.pos == 4 + 4 * i
      invariant indices == SplitIndices(p[4..c.pos], i)
    {
      var v := c.TakeU32();
      if v.None? { return None; }
      assert p[4..c.pos][..4 * i] == p[4..c.pos - 4];
      assert p[4..c.pos][4 * i..] == p[c.pos - 4..c.pos];
      indices := indices + [v.value];
    }
    if c.Remaining() != 0 { return None; }
    assert p[4..c.pos] == p[4..];
    m := Some(ReqChunksMsg(indices));
  }

  method TakeChunk(p: seq<byte>) returns (m: Option<ChunkMsg>)
    ensures m == DecodeChunk(p)
  {
    var c := new Cursor(p);
    var index := c.TakeU32();
    if index.None? { return None; }
    assert p[0..4] == p[..4];
    var hash := c.TakeBytes(32);
    if hash.None? { return None; }
    m := Some(ChunkMsg(index.value, hash.value, c.Rest()));
  }

  method TakeComplete(p: seq<byte>) returns (m: Option<CompleteMsg>)
    ensures m == DecodeComplete(p)
  {
    var c := new Cursor(p);
    var root := c.TakeBytes(32);
    if root.None? { return None; }
    assert p[0..32] == p[..32];
    var status := c.TakeBytes(1);
    if status.None? || c.Remaining() != 0 { return None; }
    m := Some(CompleteMsg(root.value, status.value[0]));
  }

  method TakeAck(p: seq<byte>) returns (m: Option<AckMsg>)
    ensures m == DecodeAck(p)
  {
    var c := new Cursor(p);
    var last := c.TakeU32();
    if last.None? || c.Remaining() != 0 { return None; }
    assert p[0..4] == p;
    m := Some(AckMsg(last.value));
  }

  method TakeError(p: seq<byte>) returns (m: Option<ErrorMsg>)
    ensures m == DecodeError(p)
  {
    var c := new Cursor(p);
    var code := c.TakeU16();
    if code.None? { return None; }
    assert p[0..2] == p[..2];
    var len := c.TakeU16();
    if len.None? { return None; }
    var text := c.TakeBytes(len.value);
    if text.None? || c.Remaining() != 0 { return None; }
    assert p[4..4 + len.value] == p[4..];
    m := Some(ErrorMsg(code.value, text.value));
  }

  method AppendManifest(m: ManifestMsg) returns (out: seq<byte>)
    ensures out == EncodeManifest(m)
  {
    out := U64Bytes(m.fileSize);
    out := out + U32Bytes(m.chunkSize);
    out := out + U32Bytes(m.chunkCount);
    out := out + m.rootHash;
    out := out + U16Bytes(|m.path| % 0x1_0000);
    out := out + m.path;
    ghost var head := out;
    for i := 0 to |m.chunkHashes|
      invariant out == head + Hashes(m.chunkHashes[..i])
    {
      assert m.chunkHashes[..i + 1][..i] == m.chunkHashes[..i];
      out := out + m.chunkHashes[i];
    }
    assert m.chunkHashes[..|m.chunkHashes|] == m.chunkHashes;
  }

  method AppendReqChunks(m: ReqChunksMsg) returns (out: seq<byte>)
    ensures out == EncodeReqChunks(m)
  {
    out := U32Bytes(|m.indices| % 0x1_0000_0000);
    ghost var head := out;
    for i := 0 to |m.indices|
      invariant out == head + Indices(m.indices[..i])
    {
      assert m.indices[..i + 1][..i] == m.indices[..i];
      out := out + U32Bytes(m.indices[i]);
    }
    assert m.indices[..|m.indices|] == m.indices;
  }
}
