/** The blocking, frame-oriented connection over a byte stream that may end at any point. */
module Connections {
  import opened Bytes
  import opened Frames

  /** What gets out of some bytes when the stream breaks off: at most n of them, and never all. */
  function Piece(bytes: seq<byte>, n: nat): seq<byte>
    requires bytes != []
  {
    if n < |bytes| then bytes[..n] else bytes[..|bytes| - 1]
  }

  class Connection {
    const parser: HeaderParser
    const crc: Checksum

    /** The bytes the peer manages to deliver before the stream ends. */
    var incoming: seq<byte>
    /** The bytes handed to the stream so far. */
    var outgoing: seq<byte>

    constructor (parser: HeaderParser, crc: Checksum, incoming: seq<byte>)
      ensures this.parser == parser && this.crc == crc
      ensures this.incoming == incoming && outgoing == []
    {
      this.parser, this.crc, this.incoming, outgoing := parser, crc, incoming, [];
    }

    /** Reads exactly n bytes, or fails having used up what there was. */
    method Read(n: nat) returns (r: Option<seq<byte>>)
      modifies this`incoming
      ensures r.Some? <==> n <= |old(incoming)|
      ensures r.Some? ==> r.value == old(incoming)[..n] && incoming == old(incoming)[n..]
    {
      if n <= |incoming| {
        r := Some(incoming[..n]);
        incoming := incoming[n..];
      } else {
        r := None;
        incoming := [];
      }
    }

    /** Delivers the next frame of the stream; on failure says why the stream has no next frame. */
    method RecvFrame() returns (f: Option<Frame>, reason: Tail)
      modifies this`incoming
      ensures f.Some? <==> Parse(parser, old(incoming)).frames != []
      ensures f.Some? ==> Parse(parser, old(incoming)) == Prepend([f.value], Parse(parser, incoming))
      ensures f.None? ==> reason == Parse(parser, old(incoming)).tail
    {
      reason := Incomplete;
      var head := Read(HEADER_SIZE);
      if head.None? {
        return None, Incomplete;
      }
      match parser(head.value)
      case Bad(e) =>
        return None, Corrupt(e);
      case Ok(h) =>
        if h.len == 0 {
          assert old(incoming)[HEADER_SIZE..HEADER_SIZE + h.len] == [];
          return Some(Frame(h.ftype, [])), Incomplete;
        }
        var payload := Read(h.len);
        if payload.None? {
          return None, Incomplete;
        }
        assert old(incoming)[HEADER_SIZE..][..h.len] == old(incoming)[HEADER_SIZE..HEADER_SIZE + h.len];
        assert old(incoming)[HEADER_SIZE..][h.len..] == old(incoming)[HEADER_SIZE + h.len..];
        return Some(Frame(h.ftype, payload.value)), Incomplete;
    }

    /**
     * Refuses payloads over 64 MiB; otherwise writes the frame, all of it unless the stream is to break
     * off, in which case only a part of it gets out.
     */
    method SendFrame(f: Frame, breaks: Option<nat>) returns (ok: bool)
      modifies this`outgoing
      ensures ok <==> |f.payload| <= MAX_PAYLOAD && breaks.None?
      ensures outgoing == old(outgoing) + if |f.payload| > MAX_PAYLOAD then []
                                          else if breaks.None? then FrameBytes(crc, f)
                                          else Piece(FrameBytes(crc, f), breaks.value)
      ensures !ok ==> Torn(Encoder(crc), old(outgoing), outgoing)
    {
      if |f.payload| > MAX_PAYLOAD {
        return false;
      }
      var header := new byte[HEADER_SIZE];
      EncodeTo(crc, Header(|f.payload|, f.ftype), header);
      assert header[..] == HeaderBytes(crc, Header(|f.payload|, f.ftype));
      var bytes := header[..] + f.payload;
      assert Encoder(crc)(f) == bytes;
      if breaks.Some? {
        outgoing := outgoing + Piece(bytes, breaks.value);
        return false;
      }
      outgoing := outgoing + bytes;
      return true;
    }
  }

  /**
   * Receiving until the first failure yields the same frames, and the same header error, as the parse
   * of the whole stream: the verdict the streaming decoder reaches too.
   */
  method ReceiveAll(stream: seq<byte>, maxPayload: nat) returns (frames: seq<Frame>, reason: Tail)
    ensures Parse(ParserFor(HeaderCrc, maxPayload), stream) == Parsed(frames, reason)
  {
    var c := new Connection(ParserFor(HeaderCrc, maxPayload), HeaderCrc, stream);
    frames := [];
    while true
      invariant fresh(c) && c.parser == ParserFor(HeaderCrc, maxPayload)
      invariant Parse(c.parser, stream) == Prepend(frames, Parse(c.parser, c.incoming))
      decreases |Parse(c.parser, c.incoming).frames|
    {
      ghost var before := Parse(c.parser, c.incoming);
      var f, why := c.RecvFrame();
      if f.None? {
        assert before.frames == [];
        return frames, why;
      }
      assert frames + ([f.value] + Parse(c.parser, c.incoming).frames) ==
             (frames + [f.value]) + Parse(c.parser, c.incoming).frames;
      frames := frames + [f.value];
    }
  }
}
