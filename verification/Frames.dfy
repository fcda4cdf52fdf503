/** The 9-byte frame header, whole frames, and the meaning of a byte stream as a sequence of frames. */
module Frames {
  import opened Bytes
  import opened Crc32c
  import opened Folds

  const HEADER_SIZE: nat := 9
  const MAX_PAYLOAD: nat := 64 * 1024 * 1024

  datatype FrameType = Hello | Manifest | ReqChunks | Chunk | Ack | Complete | Error

  function TypeCode(t: FrameType): byte {
    match t
    case Hello => 0x01
    case Manifest => 0x02
    case ReqChunks => 0x03
    case Chunk => 0x04
    case Ack => 0x05
    case Complete => 0x06
    case Error => 0xFF
  }

  function TypeOf(b: byte): (t: Option<FrameType>)
    ensures t.Some? ==> TypeCode(t.value) == b
  {
    if b == 0x01 then Some(Hello)
    else if b == 0x02 then Some(Manifest)
    else if b == 0x03 then Some(ReqChunks)
    else if b == 0x04 then Some(Chunk)
    else if b == 0x05 then Some(Ack)
    else if b == 0x06 then Some(Complete)
    else if b == 0xFF then Some(Error)
    else None
  }

  datatype Header = Header(len: u32, ftype: FrameType)

  datatype Frame = Frame(ftype: FrameType, payload: seq<byte>)

  datatype HeaderError = BadCrc | UnknownType | PayloadTooLarge

  datatype HeaderResult = Ok(header: Header) | Bad(error: HeaderError)

  /** Length and type: the five bytes that the header CRC covers. */
  function Covered(len: u32, code: byte): (s: seq<byte>)
    ensures |s| == 5
  {
    U32Bytes(len) + [code]
  }

  /** The header checksum is a parameter here; the wire uses HeaderCrc below. */
  type Checksum = seq<byte> -> u32

  function HeaderBytes(crc: Checksum, h: Header): (s: seq<byte>)
    ensures |s| == HEADER_SIZE
  {
    var c := Covered(h.len, TypeCode(h.ftype));
    c + U32Bytes(crc(c))
  }

  /** The checks in the program's order: CRC, then type, then length. */
  function DecodeHeader(crc: Checksum, src: seq<byte>, maxPayload: nat): HeaderResult
    requires |src| == HEADER_SIZE
  {
    if ReadU32(src[5..9]) != crc(src[..5]) then Bad(BadCrc)
    else
      var t := TypeOf(src[4]);
      var len := ReadU32(src[..4]);
      if t.None? then Bad(UnknownType)
      else if len > maxPayload then Bad(PayloadTooLarge)
      else Ok(Header(len, t.value))
  }

  /** A header decodes to what was encoded, unless its length is over the receiver's limit. */
  lemma HeaderRoundTrip(crc: Checksum, h: Header, maxPayload: nat)
    ensures DecodeHeader(crc, HeaderBytes(crc, h), maxPayload) ==
            if h.len > maxPayload then Bad(PayloadTooLarge) else Ok(h)
  {
    var s, c := HeaderBytes(crc, h), Covered(h.len, TypeCode(h.ftype));
    assert s[..5] == c && s[5..9] == U32Bytes(crc(c)) && s[..4] == U32Bytes(h.len);
    U32RoundTrip(h.len);
    U32RoundTrip(crc(c));
  }

  /** Only the encoding of a header decodes to it. */
  lemma HeaderCanonical(crc: Checksum, src: seq<byte>, maxPayload: nat)
    requires |src| == HEADER_SIZE
    requires DecodeHeader(crc, src, maxPayload).Ok?
    ensures HeaderBytes(crc, DecodeHeader(crc, src, maxPayload).header) == src
  {
    ReadRoundTrips(src[..4]);
    ReadRoundTrips(src[5..9]);
    assert src == src[..4] + [src[4]] + src[5..9];
    assert src[..5] == src[..4] + [src[4]];
  }

  /** The checksum on the wire: CRC-32C as a number. */
  function HeaderCrc(data: seq<byte>): u32 {
    Crc(data) as nat
  }

  lemma HeaderCrcEqual(a: seq<byte>, b: seq<byte>)
    requires HeaderCrc(a) == HeaderCrc(b)
    ensures Crc(a) == Crc(b)
  {
    WordFromNat(Crc(a));
    WordFromNat(Crc(b));
  }

  lemma WordFromNat(x: bv32)
    ensures (x as nat) as bv32 == x
  {
  }

  /** Headers of one type with different lengths never share a CRC. */
  lemma LengthsSeparated(t: FrameType, m: u32, n: u32)
    requires m != n
    ensures HeaderCrc(Covered(m, TypeCode(t))) != HeaderCrc(Covered(n, TypeCode(t)))
  {
    var a, b := Covered(m, TypeCode(t)), Covered(n, TypeCode(t));
    if HeaderCrc(a) == HeaderCrc(b) {
      HeaderCrcEqual(a, b);
      FourByteBurstDetected(a, b, 0, 0);
      assert a[..4] == U32Bytes(m) && b[..4] == U32Bytes(n);
      U32RoundTrip(m);
      U32RoundTrip(n);
    }
  }

  /** A valid header hit by a burst of at most 32 bits inside its length and type is rejected for its CRC. */
  lemma CorruptHeaderRejected(h: Header, src: seq<byte>, p: nat, maxPayload: nat)
    requires |src| == HEADER_SIZE
    requires src[5..9] == HeaderBytes(HeaderCrc, h)[5..9] && src[..5] != HeaderBytes(HeaderCrc, h)[..5]
    requires AgreeOutside(Bits(src[..5]), Bits(HeaderBytes(HeaderCrc, h)[..5]), p, 32)
    ensures DecodeHeader(HeaderCrc, src, maxPayload) == Bad(BadCrc)
  {
    var c := Covered(h.len, TypeCode(h.ftype));
    assert HeaderBytes(HeaderCrc, h)[..5] == c && HeaderBytes(HeaderCrc, h)[5..9] == U32Bytes(HeaderCrc(c));
    U32RoundTrip(HeaderCrc(c));
    if HeaderCrc(src[..5]) == HeaderCrc(c) {
      HeaderCrcEqual(src[..5], c);
      BurstDetected(src[..5], c, p, 0);
    }
  }

  // ---------------------------------------------------------------------
  // Frames in a byte stream.
  // ---------------------------------------------------------------------

  /** Header and payload; the length field is the payload size truncated to 32 bits. */
  function FrameBytes(crc: Checksum, f: Frame): seq<byte> {
    HeaderBytes(crc, Header(|f.payload| % 0x1_0000_0000, f.ftype)) + f.payload
  }

  /** What a receiver does with nine header bytes. */
  type HeaderParser = seq<byte> -> HeaderResult

  /** The receiver's header parser under a payload limit. */
  function ParserFor(crc: Checksum, maxPayload: nat): HeaderParser {
    src => if |src| == HEADER_SIZE then DecodeHeader(crc, src, maxPayload) else Bad(BadCrc)
  }

  datatype Tail = Incomplete | Corrupt(error: HeaderError)

  datatype Parsed = Parsed(frames: seq<Frame>, tail: Tail)

  /** The frames a byte stream begins with, and why the next one is missing. */
  function Parse(hp: HeaderParser, s: seq<byte>): Parsed
    decreases |s|
  {
    if |s| < HEADER_SIZE then Parsed([], Incomplete)
    else match hp(s[..HEADER_SIZE])
      case Bad(e) => Parsed([], Corrupt(e))
      case Ok(h) =>
        var end := HEADER_SIZE + h.len;
        if |s| < end then Parsed([], Incomplete)
        else Prepend([Frame(h.ftype, s[HEADER_SIZE..end])], Parse(hp, s[end..]))
  }

  function Prepend(frames: seq<Frame>, p: Parsed): Parsed {
    Parsed(frames + p.frames, p.tail)
  }

  /** More bytes only add frames, and none after a corrupt header. */
  lemma {:induction false} ParseExtends(hp: HeaderParser, s: seq<byte>, t: seq<byte>)
    ensures Parse(hp, s).frames <= Parse(hp, s + t).frames
    ensures Parse(hp, s).tail.Corrupt? ==> Parse(hp, s + t) == Parse(hp, s)
    decreases |s|
  {
    if |s| >= HEADER_SIZE {
      assert (s + t)[..HEADER_SIZE] == s[..HEADER_SIZE];
      match hp(s[..HEADER_SIZE])
      case Bad(_) =>
      case Ok(h) =>
        var end := HEADER_SIZE + h.len;
        if |s| >= end {
          assert (s + t)[end..] == s[end..] + t;
          assert (s + t)[HEADER_SIZE..end] == s[HEADER_SIZE..end];
          ParseExtends(hp, s[end..], t);
        }
    }
  }

  /** Once the frames taken so far are known, later bytes extend only the rest. */
  lemma {:induction false} ParseAppend(hp: HeaderParser, s: seq<byte>, held: seq<byte>, taken: seq<Frame>, t: seq<byte>)
    requires Splits(hp, s, taken, held)
    ensures Splits(hp, s + t, taken, held + t)
    decreases |taken|
  {
    if taken != [] {
      var h := hp(s[..HEADER_SIZE]).header;
      var end := HEADER_SIZE + h.len;
      assert (s + t)[..HEADER_SIZE] == s[..HEADER_SIZE];
      assert (s + t)[end..] == s[end..] + t;
      assert (s + t)[HEADER_SIZE..end] == s[HEADER_SIZE..end];
      ParseAppend(hp, s[end..], held, taken[1..], t);
    }
  }

  /** s is exactly the bytes of the frames in taken, followed by rest. */
  ghost predicate Splits(hp: HeaderParser, s: seq<byte>, taken: seq<Frame>, rest: seq<byte>)
    decreases |taken|
  {
    if taken == [] then s == rest
    else
      && |s| >= HEADER_SIZE
      && hp(s[..HEADER_SIZE]).Ok?
      && var h := hp(s[..HEADER_SIZE]).header;
         var end := HEADER_SIZE + h.len;
         && |s| >= end
         && taken[0] == Frame(h.ftype, s[HEADER_SIZE..end])
         && Splits(hp, s[end..], taken[1..], rest)
  }

  lemma {:induction false} SplitsParse(hp: HeaderParser, s: seq<byte>, taken: seq<Frame>, rest: seq<byte>)
    requires Splits(hp, s, taken, rest)
    ensures Parse(hp, s) == Prepend(taken, Parse(hp, rest))
    decreases |taken|
  {
    if taken != [] {
      var end := HEADER_SIZE + hp(s[..HEADER_SIZE]).header.len;
      SplitsParse(hp, s[end..], taken[1..], rest);
      assert [taken[0]] + (taken[1..] + Parse(hp, rest).frames) == taken + Parse(hp, rest).frames;
    }
  }

  /** One more frame taken from the front of the rest. */
  lemma {:induction false} SplitsNext(hp: HeaderParser, s: seq<byte>, taken: seq<Frame>, rest: seq<byte>)
    requires Splits(hp, s, taken, rest)
    requires |rest| >= HEADER_SIZE && hp(rest[..HEADER_SIZE]).Ok?
    requires |rest| >= HEADER_SIZE + hp(rest[..HEADER_SIZE]).header.len
    ensures var h := hp(rest[..HEADER_SIZE]).header;
            var end := HEADER_SIZE + h.len;
            Splits(hp, s, taken + [Frame(h.ftype, rest[HEADER_SIZE..end])], rest[end..])
    decreases |taken|
  {
    var h := hp(rest[..HEADER_SIZE]).header;
    var f := Frame(h.ftype, rest[HEADER_SIZE..HEADER_SIZE + h.len]);
    if taken == [] {
      assert ([] + [f])[1..] == [];
    } else {
      var end := HEADER_SIZE + hp(s[..HEADER_SIZE]).header.len;
      SplitsNext(hp, s[end..], taken[1..], rest);
      assert (taken + [f])[1..] == taken[1..] + [f];
    }
  }

  /** Within the receiver's limit and the 32-bit length field. */
  predicate Fits(f: Frame, maxPayload: nat) {
    |f.payload| <= maxPayload && |f.payload| < 0x1_0000_0000
  }

  /** Frames written one after the other, each by enc. */
  function Concat(enc: Frame -> seq<byte>, frames: seq<Frame>): seq<byte> {
    if frames == [] then [] else enc(frames[0]) + Concat(enc, frames[1..])
  }

  function Encoder(crc: Checksum): Frame -> seq<byte> {
    f => FrameBytes(crc, f)
  }

  /** Nothing went out, or a proper part of one frame did. */
  ghost predicate Torn(enc: Frame -> seq<byte>, before: seq<byte>, after: seq<byte>) {
    after == before || exists f: Frame :: |f.payload| <= MAX_PAYLOAD && before <= after < before + enc(f)
  }

  lemma SplitsOne(hp: HeaderParser, head: seq<byte>, f: Frame, rest: seq<byte>)
    requires |head| == HEADER_SIZE && |f.payload| < 0x1_0000_0000
    requires hp(head) == Ok(Header(|f.payload|, f.ftype))
    ensures Splits(hp, head + f.payload + rest, [f], rest)
  {
    var s, end := head + f.payload + rest, HEADER_SIZE + |f.payload|;
    assert s[..HEADER_SIZE] == head;
    assert s[HEADER_SIZE..end] == f.payload && s[end..] == rest;
    assert [f][1..] == [];
  }

  /** The head of a stream that starts with an encoded frame. */
  lemma ParseFirst(crc: Checksum, f: Frame, rest: seq<byte>, maxPayload: nat)
    requires Fits(f, maxPayload)
    ensures Splits(ParserFor(crc, maxPayload), FrameBytes(crc, f) + rest, [f], rest)
  {
    var h := Header(|f.payload|, f.ftype);
    var hp, head := ParserFor(crc, maxPayload), HeaderBytes(crc, h);
    assert hp(head) == Ok(h) by { HeaderRoundTrip(crc, h, maxPayload); }
    assert FrameBytes(crc, f) == head + f.payload by { assert |f.payload| % 0x1_0000_0000 == |f.payload|; }
    SplitsOne(hp, head, f, rest);
  }

  ghost predicate Readable(hp: HeaderParser, enc: Frame -> seq<byte>, f: Frame) {
    forall rest :: Splits(hp, enc(f) + rest, [f], rest)
  }

  /** Any concatenation of frames splits back exactly. */
  lemma {:induction false} ConcatSplits(hp: HeaderParser, enc: Frame -> seq<byte>, frames: seq<Frame>, rest: seq<byte>)
    requires forall f :: f in frames ==> Readable(hp, enc, f)
    ensures Splits(hp, Concat(enc, frames) + rest, frames, rest)
    decreases |frames|
  {
    if frames == [] {
      assert Concat(enc, frames) + rest == rest;
    } else {
      var f, tail := frames[0], Concat(enc, frames[1..]) + rest;
      assert forall g :: g in frames[1..] ==> g in frames;
      ConcatSplits(hp, enc, frames[1..], rest);
      ReadableStep(hp, enc, f, tail, frames[1..], rest);
      assert [f] + frames[1..] == frames;
      assert Concat(enc, frames) + rest == enc(f) + tail;
    }
  }

  lemma ReadableStep(hp: HeaderParser, enc: Frame -> seq<byte>, f: Frame, mid: seq<byte>, more: seq<Frame>,
                     rest: seq<byte>)
    requires Readable(hp, enc, f) && Splits(hp, mid, more, rest)
    ensures Splits(hp, enc(f) + mid, [f] + more, rest)
  {
    assert Splits(hp, enc(f) + mid, [f], mid);
    SplitsCompose(hp, enc(f) + mid, f, mid, more, rest);
  }

  lemma SplitsCompose(hp: HeaderParser, s: seq<byte>, f: Frame, mid: seq<byte>, more: seq<Frame>, rest: seq<byte>)
    requires Splits(hp, s, [f], mid) && Splits(hp, mid, more, rest)
    ensures Splits(hp, s, [f] + more, rest)
  {
    assert [f][1..] == [] && ([f] + more)[1..] == more;
  }

  /** Frames within the limits, written back to back, parse back exactly and leave what follows. */
  lemma WireRoundTrip(crc: Checksum, frames: seq<Frame>, rest: seq<byte>, maxPayload: nat)
    requires forall f :: f in frames ==> Fits(f, maxPayload)
    ensures var hp := ParserFor(crc, maxPayload);
            Parse(hp, Concat(Encoder(crc), frames) + rest) == Prepend(frames, Parse(hp, rest))
  {
    var hp, enc := ParserFor(crc, maxPayload), Encoder(crc);
    forall f | f in frames ensures Readable(hp, enc, f) {
      forall tail ensures Splits(hp, enc(f) + tail, [f], tail) { ParseFirst(crc, f, tail, maxPayload); }
    }
    ConcatSplits(hp, enc, frames, rest);
    SplitsParse(hp, Concat(enc, frames) + rest, frames, rest);
  }

  /** A proper part of a frame holds no frame. */
  lemma PartHoldsNone(crc: Checksum, f: Frame, part: seq<byte>, maxPayload: nat)
    requires Fits(f, maxPayload) && part < FrameBytes(crc, f)
    ensures Parse(ParserFor(crc, maxPayload), part) == Parsed([], Incomplete)
  {
    var h := Header(|f.payload|, f.ftype);
    var head := HeaderBytes(crc, h);
    assert FrameBytes(crc, f) == head + f.payload by { assert |f.payload| % 0x1_0000_0000 == |f.payload|; }
    if |part| >= HEADER_SIZE {
      assert part[..HEADER_SIZE] == head;
      HeaderRoundTrip(crc, h, maxPayload);
    }
  }

  lemma TornPart(enc: Frame -> seq<byte>, before: seq<byte>, after: seq<byte>) returns (f: Frame)
    requires Torn(enc, before, after) && after != before
    ensures |f.payload| <= MAX_PAYLOAD && before <= after && after[|before|..] < enc(f)
  {
    f :| |f.payload| <= MAX_PAYLOAD && before <= after < before + enc(f);
    assert (before + enc(f))[|before|..] == enc(f);
  }

  lemma TornParse(crc: Checksum, frames: seq<Frame>, written: seq<byte>)
    requires forall f :: f in frames ==> Fits(f, MAX_PAYLOAD)
    requires Torn(Encoder(crc), Concat(Encoder(crc), frames), written)
    ensures Parse(ParserFor(crc, MAX_PAYLOAD), written).frames == frames
  {
    var all := Concat(Encoder(crc), frames);
    var part := written[|all|..];
    assert written == all + part;
    WireRoundTrip(crc, frames, part, MAX_PAYLOAD);
    assert Parse(ParserFor(crc, MAX_PAYLOAD), part).frames == [] by {
      if written != all {
        var f := TornPart(Encoder(crc), all, written);
        PartHoldsNone(crc, f, part, MAX_PAYLOAD);
      }
    }
    assert frames + [] == frames;
  }

  /** Of a stream that was cut off within a frame, or anywhere before, the peer gets frames that were sent, in order. */
  lemma CutStream(crc: Checksum, frames: seq<Frame>, written: seq<byte>, got: seq<byte>)
    requires forall f :: f in frames ==> Fits(f, MAX_PAYLOAD)
    requires Torn(Encoder(crc), Concat(Encoder(crc), frames), written) && got <= written
    ensures Parse(ParserFor(crc, MAX_PAYLOAD), written).frames == frames
    ensures Parse(ParserFor(crc, MAX_PAYLOAD), got).frames <= frames
  {
    TornParse(crc, frames, written);
    assert written == got + written[|got|..];
    ParseExtends(ParserFor(crc, MAX_PAYLOAD), got, written[|got|..]);
  }

  /** What a header parser accepts is the encoding of the frame it announces. */
  ghost predicate Canonical(hp: HeaderParser, enc: Frame -> seq<byte>) {
    forall src, payload {:trigger enc(Frame(hp(src).header.ftype, payload))} ::
      |src| == HEADER_SIZE && hp(src).Ok? && |payload| == hp(src).header.len ==>
        enc(Frame(hp(src).header.ftype, payload)) == src + payload
  }

  lemma FrameCanonical(crc: Checksum, src: seq<byte>, payload: seq<byte>, maxPayload: nat)
    requires |src| == HEADER_SIZE && DecodeHeader(crc, src, maxPayload).Ok?
    requires |payload| == DecodeHeader(crc, src, maxPayload).header.len
    ensures FrameBytes(crc, Frame(DecodeHeader(crc, src, maxPayload).header.ftype, payload)) == src + payload
  {
    HeaderCanonical(crc, src, maxPayload);
  }

  lemma ParserForCanonical(crc: Checksum, maxPayload: nat)
    ensures Canonical(ParserFor(crc, maxPayload), Encoder(crc))
  {
    var hp, enc := ParserFor(crc, maxPayload), Encoder(crc);
    forall src, payload | |src| == HEADER_SIZE && hp(src).Ok? && |payload| == hp(src).header.len
      ensures enc(Frame(hp(src).header.ftype, payload)) == src + payload
    {
      FrameCanonical(crc, src, payload, maxPayload);
    }
  }

  lemma PrefixAfter(a: seq<byte>, b: seq<byte>, rest: seq<byte>)
    requires b <= rest
    ensures a + b <= a + rest
  {
    assert a + rest == a + b + rest[|b|..];
  }

  /** The frames of any stream, written out again, are the bytes the stream began with. */
  lemma {:induction false} ParseCanonical(hp: HeaderParser, enc: Frame -> seq<byte>, s: seq<byte>)
    requires Canonical(hp, enc)
    ensures Concat(enc, Parse(hp, s).frames) <= s
    decreases |s|
  {
    if |s| >= HEADER_SIZE && hp(s[..HEADER_SIZE]).Ok? {
      var h := hp(s[..HEADER_SIZE]).header;
      var end := HEADER_SIZE + h.len;
      if |s| >= end {
        var head, body, rest := s[..HEADER_SIZE], s[HEADER_SIZE..end], s[end..];
        ParseCanonical(hp, enc, rest);
        var f, q := Frame(hp(head).header.ftype, body), Parse(hp, rest).frames;
        assert enc(Frame(hp(head).header.ftype, body)) == head + body;
        assert ([f] + q)[1..] == q && s == head + body + rest;
        PrefixAfter(enc(f), Concat(enc, q), rest);
      }
    }
  }

  lemma WireCanonical(crc: Checksum, s: seq<byte>, maxPayload: nat)
    ensures Concat(Encoder(crc), Parse(ParserFor(crc, maxPayload), s).frames) <= s
  {
    ParserForCanonical(crc, maxPayload);
    ParseCanonical(ParserFor(crc, maxPayload), Encoder(crc), s);
  }

  // ---------------------------------------------------------------------
  // The in-place encoders.
  // ---------------------------------------------------------------------

  /** Copies src into dst at an offset. */
  method Blit(dst: array<byte>, at: nat, src: seq<byte>)
    requires at + |src| <= dst.Length
    modifies dst
    ensures dst[..] == old(dst[..at]) + src + old(dst[at + |src|..])
  {
    forall i | 0 <= i < |src| {
      dst[at + i] := src[i];
    }
  }

  /** Length and type are written first; the CRC is taken over the bytes just written. */
  method EncodeTo(crc: Checksum, h: Header, dst: array<byte>)
    requires dst.Length >= HEADER_SIZE
    modifies dst
    ensures dst[..] == HeaderBytes(crc, h) + old(dst[HEADER_SIZE..])
  {
    var code, len := TypeCode(h.ftype), U32Bytes(h.len);
    ghost var was := dst[..];
    Blit(dst, 0, len);
    dst[4] := code;
    assert dst[..] == len + [code] + was[5..];
    var covered := dst[..5];
    assert covered == len + [code];
    Blit(dst, 5, U32Bytes(crc(covered)));
  }

  /** Fails exactly where the program throws: a payload over 64 MiB. */
  method EncodeFrame(crc: Checksum, t: FrameType, payload: seq<byte>) returns (out: Option<seq<byte>>)
    ensures out.Some? <==> |payload| <= MAX_PAYLOAD
    ensures out.Some? ==> out.value == FrameBytes(crc, Frame(t, payload))
  {
    if |payload| > MAX_PAYLOAD {
      return None;
    }
    var buf := new byte[HEADER_SIZE + |payload|];
    ghost var head := HeaderBytes(crc, Header(|payload|, t));
    EncodeTo(crc, Header(|payload|, t), buf);
    assert buf[..HEADER_SIZE] == head;
    Blit(buf, HEADER_SIZE, payload);
    assert buf[..] == head + payload;
    out := Some(buf[..]);
  }
}
