/** Messages inside frames: what the peers read off the wire and put on it. */
module Wiring {
  import opened Bytes
  import opened Messages
  import F = Frames
  import S = Session
  import J = Journal

  function CodeNumber(c: S.ErrorCode): u16 {
    match c
    case ProtocolViolation => 0x0001
    case UnsupportedVersion => 0x0002
    case HashMismatch => 0x0004
    case InvalidPath => 0x0005
    case InternalError => 0x00FF
  }

  function ErrorOf(code: u16): S.Msg {
    if code == 0x0001 then S.MError(S.ProtocolViolation)
    else if code == 0x0002 then S.MError(S.UnsupportedVersion)
    else if code == 0x0004 then S.MError(S.HashMismatch)
    else if code == 0x0005 then S.MError(S.InvalidPath)
    else if code == 0x00FF then S.MError(S.InternalError)
    else S.MForeign
  }

  /** The message in a frame, as its receiver decodes it. */
  function MsgOf(f: F.Frame): S.Msg {
    match f.ftype
    case Hello =>
      var m := DecodeHello(f.payload);
      if m.Some? then S.MHello(m.value) else S.MMalformed(F.Hello)
    case Manifest =>
      var m := DecodeManifest(f.payload);
      if m.Some? then ManifestCanonical(f.payload); S.MManifest(m.value) else S.MMalformed(F.Manifest)
    case ReqChunks =>
      var m := DecodeReqChunks(f.payload);
      if m.Some? then S.MReqChunks(m.value.indices) else S.MMalformed(F.ReqChunks)
    case Chunk =>
      var m := DecodeChunk(f.payload);
      if m.Some? then S.MChunk(m.value) else S.MMalformed(F.Chunk)
    case Ack =>
      var m := DecodeAck(f.payload);
      if m.Some? then S.MAck(m.value.lastIndex) else S.MMalformed(F.Ack)
    case Complete =>
      var m := DecodeComplete(f.payload);
      if m.Some? then S.MComplete(m.value) else S.MMalformed(F.Complete)
    case Error =>
      var m := DecodeError(f.payload);
      if m.Some? then ErrorOf(m.value.code) else S.MMalformed(F.Error)
  }

  /** The scheme on the wire: a manifest's id is the hash of its encoding. */
  function Wire(h: Hasher): S.Scheme {
    S.Scheme(h, (m: S.Manifest) => EncodeManifest(m))
  }

  /**
   * What the surroundings have in store for one step of a program: the outcomes the machine is told of,
   * and how many bytes get out where a send or a flush breaks off.
   */
  datatype Io = Io(env: S.Env, cut: nat)

  function Breaks(io: Io): Option<nat> {
    if io.env.sendOk then None else Some(io.cut)
  }

  /** The outcomes in store for step i; beyond the ones listed nothing fails. */
  function At(fate: seq<Io>, i: nat): Io {
    if i < |fate| then fate[i] else Io(S.Calm(true), 0)
  }

  /** A frame is handled with the outcomes in store for it. */
  predicate Fated(e: S.Event, io: Io) {
    e.Got? ==> e.env == io.env
  }

  /** e is what the next receive on the stream yields. */
  ghost predicate Heard(hp: F.HeaderParser, before: seq<byte>, after: seq<byte>, e: S.Event) {
    var fs := F.Parse(hp, before).frames;
    if fs == [] then e == S.Cut
    else e.Got? && e.msg == MsgOf(fs[0]) && F.Parse(hp, after).frames == fs[1..]
  }

  /** At most one reply goes out per step, and it is the one the machine sends. */
  ghost predicate Sent(crc: F.Checksum, before: seq<byte>, after: seq<byte>, out: seq<S.Msg>) {
    if out == [] then F.Torn(F.Encoder(crc), before, after)
    else
      && |out| == 1
      && exists f: F.Frame ::
           |f.payload| <= F.MAX_PAYLOAD && MsgOf(f) == out[0] && after == before + F.FrameBytes(crc, f)
  }

  /** The same for a machine that reads frames as the peers do. */
  lemma WroteSent(read: F.Frame -> S.Msg, crc: F.Checksum, before: seq<byte>, after: seq<byte>, out: seq<S.Msg>)
    requires (forall f {:trigger MsgOf(f)} :: read(f) == MsgOf(f)) && Sent(crc, before, after, out)
    ensures J.Wrote(read, F.Encoder(crc), before, after, out)
  {
    if out != [] {
      var f: F.Frame :| |f.payload| <= F.MAX_PAYLOAD && MsgOf(f) == out[0] && after == before + F.FrameBytes(crc, f);
      assert read(f) == out[0];
    }
  }

  /** Received headers announce at most 64 MiB. */
  ghost predicate Limited(hp: F.HeaderParser) {
    forall src :: hp(src).Ok? ==> hp(src).header.len <= F.MAX_PAYLOAD
  }

  lemma {:induction false} FramesLimited(hp: F.HeaderParser, s: seq<byte>)
    requires Limited(hp)
    ensures forall f :: f in F.Parse(hp, s).frames ==> |f.payload| <= F.MAX_PAYLOAD
    decreases |s|
  {
    if |s| >= F.HEADER_SIZE && hp(s[..F.HEADER_SIZE]).Ok? {
      var end := F.HEADER_SIZE + hp(s[..F.HEADER_SIZE]).header.len;
      if |s| >= end { FramesLimited(hp, s[end..]); }
    }
  }

  /** The decoder set up for the session enforces the limit. */
  lemma ParserLimited(crc: F.Checksum)
    ensures Limited(F.ParserFor(crc, F.MAX_PAYLOAD))
  {
  }

  /** Different manifests have different encodings, so an id names one manifest up to collisions. */
  lemma WireInjective(h: Hasher)
    ensures forall a: S.Manifest, b: S.Manifest :: Wire(h).encode(a) == Wire(h).encode(b) ==> a == b
  {
    forall a: S.Manifest, b: S.Manifest | Wire(h).encode(a) == Wire(h).encode(b) ensures a == b {
      ManifestInjective(a, b);
    }
  }

  /** The id under which a received manifest is remembered is the hash of the very bytes received. */
  lemma IdOfReceived(h: Hasher, f: F.Frame)
    requires MsgOf(f).MManifest?
    ensures S.Id(Wire(h), MsgOf(f).manifest) == h(f.payload)
  {
    ManifestCanonical(f.payload);
  }
}
