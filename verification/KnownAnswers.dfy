/** Fixed bytes: what the checksum, the greeting and the error codes look like on the wire. */
module KnownAnswers {
  import opened Bytes
  import opened Folds
  import opened Crc32c
  import opened Messages
  import opened Layouts
  import opened Wiring
  import F = Frames
  import S = Session

  lemma ShiftSteps(x: bv32)
    ensures Repeat(Shift, x, 8) == Shift(Shift(Shift(Shift(Shift(Shift(Shift(Shift(x))))))))
  {
    assert Repeat(Shift, x, 8) == Repeat(Shift, Shift(Shift(x)), 6);
  }

  /** One byte more: the register goes from c to next. */
  lemma Fed(c: bv32, b: byte, next: bv32, rest: seq<byte>)
    requires Shift(Shift(Shift(Shift(Shift(Shift(Shift(Shift(c ^ (b as bv32))))))))) == next
    ensures Fold(BitStep, c, Bits([b] + rest)) == Fold(BitStep, next, Bits(rest))
  {
    FeedByte(c, b);
    ShiftSteps(Xor(c, b as bv32));
    assert ([b] + rest)[1..] == rest;
    FoldAppend(BitStep, c, ByteBits(b), Bits(rest));
  }

  /** The check value of CRC-32C: the digits one to nine. */
  lemma CheckValue()
    ensures Crc([0x31, 0x32, 0x33, 0x34, 0x35, 0x36, 0x37, 0x38, 0x39]) == 0xE306_9283
  {
    Fed(0xFFFF_FFFF, 0x31, 0x6F0A_661C, [0x32, 0x33, 0x34, 0x35, 0x36, 0x37, 0x38, 0x39]);
    Fed(0x6F0A_661C, 0x32, 0x8CAA_3B9F, [0x33, 0x34, 0x35, 0x36, 0x37, 0x38, 0x39]);
    Fed(0x8CAA_3B9F, 0x33, 0xEF84_D04D, [0x34, 0x35, 0x36, 0x37, 0x38, 0x39]);
    Fed(0xEF84_D04D, 0x34, 0x09C5_0B11, [0x35, 0x36, 0x37, 0x38, 0x39]);
    Fed(0x09C5_0B11, 0x35, 0xE72E_DCCA, [0x36, 0x37, 0x38, 0x39]);
    Fed(0xE72E_DCCA, 0x36, 0xBECA_8E79, [0x37, 0x38, 0x39]);
    Fed(0xBECA_8E79, 0x37, 0xEDBD_6815, [0x38, 0x39]);
    Fed(0xEDBD_6815, 0x38, 0x9F78_7F65, [0x39]);
    Fed(0x9F78_7F65, 0x39, 0x1CF9_6D7C, []);
  }

  lemma GreetingCrc()
    ensures F.HeaderCrc([0, 0, 0, 9, 1]) == 0x39AF_AEF9
  {
    Fed(0xFFFF_FFFF, 0, 0xAD82_ACAE, [0, 0, 9, 1]);
    Fed(0xAD82_ACAE, 0, 0x0E9E_882D, [0, 9, 1]);
    Fed(0x0E9E_882D, 0, 0x9F9B_5C85, [9, 1]);
    Fed(0x9F9B_5C85, 9, 0xCF2A_6FF4, [1]);
    Fed(0xCF2A_6FF4, 1, 0xC650_5106, []);
  }

  /** What four bytes read as. */
  predicate Reads(s: seq<byte>, n: nat) {
    && |s| == 4
    && n == 0x100_0000 * (s[0] as nat) + 0x1_0000 * (s[1] as nat) + 0x100 * (s[2] as nat) + s[3] as nat
  }

  lemma Spelled(n: u32, s: seq<byte>)
    requires Reads(s, n)
    ensures U32Bytes(n) == s
  {
    NetworkOrder32(s);
    ReadRoundTrips(s);
  }

  lemma HeaderSpelled(crc: F.Checksum, h: F.Header, len: seq<byte>, code: byte, sum: seq<byte>)
    requires Reads(len, h.len) && F.TypeCode(h.ftype) == code && Reads(sum, crc(len + [code]))
    ensures F.HeaderBytes(crc, h) == len + [code] + sum
  {
    Spelled(h.len, len);
    Spelled(crc(len + [code]), sum);
  }

  lemma HelloSpelled(m: HelloMsg, size: seq<byte>, caps: seq<byte>)
    requires Reads(size, m.maxChunkSize) && Reads(caps, m.capabilities)
    ensures EncodeHello(m) == [m.version] + size + caps
  {
    Spelled(m.maxChunkSize, size);
    Spelled(m.capabilities, caps);
  }

  lemma GreetingHeader(crc: F.Checksum)
    requires crc([0, 0, 0, 9, 1]) == 0x39AF_AEF9
    ensures F.HeaderBytes(crc, F.Header(9, F.Hello)) == [0, 0, 0, 9, 1, 0x39, 0xAF, 0xAE, 0xF9]
  {
    var len: seq<byte>, code: byte, sum: seq<byte> := [0, 0, 0, 9], 1, [0x39, 0xAF, 0xAE, 0xF9];
    assert len + [code] == [0, 0, 0, 9, 1];
    assert Reads(sum, 0x39AF_AEF9);
    HeaderSpelled(crc, F.Header(9, F.Hello), len, code, sum);
  }

  lemma GreetingPayload()
    ensures EncodeHello(S.OWN_HELLO) == [1, 0, 0x10, 0, 0, 0, 0, 0, 0]
  {
    HelloSpelled(S.OWN_HELLO, [0, 0x10, 0, 0], [0, 0, 0, 0]);
  }

  lemma FrameSpelled(crc: F.Checksum, f: F.Frame, head: seq<byte>, payload: seq<byte>)
    requires |payload| == 9 && f.payload == payload && F.HeaderBytes(crc, F.Header(9, f.ftype)) == head
    ensures F.FrameBytes(crc, f) == head + payload
  {
  }

  /** Both sides open with the same eighteen bytes: version 1, chunks of up to 1 MiB, no capabilities. */
  lemma GreetingBytes()
    ensures F.FrameBytes(F.HeaderCrc, F.Frame(F.Hello, EncodeHello(S.OWN_HELLO))) ==
            [0, 0, 0, 9, 1, 0x39, 0xAF, 0xAE, 0xF9] + [1, 0, 0x10, 0, 0, 0, 0, 0, 0]
  {
    GreetingCrc();
    GreetingHeader(F.HeaderCrc);
    GreetingPayload();
    FrameSpelled(F.HeaderCrc, F.Frame(F.Hello, EncodeHello(S.OWN_HELLO)), [0, 0, 0, 9, 1, 0x39, 0xAF, 0xAE, 0xF9],
                 [1, 0, 0x10, 0, 0, 0, 0, 0, 0]);
  }

  /** The low byte of the number of an error; the high byte is zero. */
  predicate Numbers(code: S.ErrorCode, b: byte) {
    || (code.ProtocolViolation? && b == 1) || (code.UnsupportedVersion? && b == 2) || (code.HashMismatch? && b == 4)
    || (code.InvalidPath? && b == 5) || (code.InternalError? && b == 255)
  }

  /** What an ERROR frame says, and how it is written. */
  lemma ErrorNumbers(p: seq<byte>, code: S.ErrorCode)
    ensures MsgOf(F.Frame(F.Error, p)) == S.MError(code) <==>
            && |p| >= 4 && |p| == 4 + 0x100 * (p[2] as nat) + p[3] as nat
            && p[0] == 0 && Numbers(code, p[1])
  {
    if |p| >= 4 {
      var a, b := p[..2], p[2..4];
      ErrorRead(p, a, b);
      NetworkOrder16(b);
      NetworkOrder16(a);
      NumberRead(ReadU16(a), p[0], p[1], code);
    }
  }

  lemma ErrorRead(p: seq<byte>, a: seq<byte>, b: seq<byte>)
    requires |p| >= 4 && a == p[..2] && b == p[2..4]
    ensures MsgOf(F.Frame(F.Error, p)) ==
            if |p| == 4 + ReadU16(b) then ErrorOf(ReadU16(a)) else S.MMalformed(F.Error)
  {
  }

  lemma NumberRead(n: u16, a: byte, b: byte, code: S.ErrorCode)
    requires n == 0x100 * (a as nat) + b as nat
    ensures ErrorOf(n) == S.MError(code) <==> a == 0 && Numbers(code, b)
  {
    SmallNumber(a, b);
  }

  lemma SmallNumber(a: byte, b: byte)
    ensures 0x100 * (a as nat) + b as nat == 1 <==> a == 0 && b == 1
    ensures 0x100 * (a as nat) + b as nat == 2 <==> a == 0 && b == 2
    ensures 0x100 * (a as nat) + b as nat == 4 <==> a == 0 && b == 4
    ensures 0x100 * (a as nat) + b as nat == 5 <==> a == 0 && b == 5
    ensures 0x100 * (a as nat) + b as nat == 255 <==> a == 0 && b == 255
  {
  }
}
