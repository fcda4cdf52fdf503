/** The streaming frame decoder: four states over a growing buffer. */
module FrameDecoding {
  import opened Bytes
  import opened Frames

  datatype State = ReadingHeader | ReadingPayload | FrameReady | Poisoned

  class FrameDecoder {
    const parser: HeaderParser

    var state: State
    var lastError: Option<HeaderError>
    var buffer: seq<byte>
    var pending: Header

    /** Every byte ever passed to Feed, and every frame ever returned by TakeFrame. */
    ghost var fed: seq<byte>
    ghost var taken: seq<Frame>
    /** The header bytes consumed for the pending frame. */
    ghost var head: seq<byte>
    /** Bytes offered after poisoning, which the decoder drops. */
    ghost var dropped: seq<byte>
    /** The longest the buffer has been. */
    ghost var peak: nat

    /** The bytes not yet part of a taken frame. */
    ghost function Held(): seq<byte>
      reads this
    {
      head + buffer + dropped
    }

    ghost predicate Pending()
      reads this
    {
      |head| == HEADER_SIZE && parser(head) == Ok(pending)
    }

    /** What holds between and inside calls. */
    ghost predicate Consistent()
      reads this
    {
      && Splits(parser, fed, taken, Held()) && |buffer| <= peak
      && (lastError.Some? <==> state.Poisoned?)
      && (state.Poisoned? || dropped == [])
      && match state
         case ReadingHeader => head == []
         case ReadingPayload => Pending()
         case FrameReady => Pending() && |buffer| >= pending.len
         case Poisoned =>
           head == [] && |buffer| >= HEADER_SIZE && parser(buffer[..HEADER_SIZE]) == Bad(lastError.value)
    }

    /** Between calls the decoder has made all the progress its bytes allow. */
    ghost predicate Valid()
      reads this
    {
      && Consistent()
      && (state.ReadingHeader? ==> |buffer| < HEADER_SIZE)
      && (state.ReadingPayload? ==> |buffer| < pending.len)
    }

    constructor (maxPayload: nat := MAX_PAYLOAD)
      ensures Valid() && parser == ParserFor(HeaderCrc, maxPayload)
      ensures fed == [] && taken == [] && Held() == [] && state.ReadingHeader? && peak == 0
    {
      parser := ParserFor(HeaderCrc, maxPayload);
      state, lastError, buffer, pending := ReadingHeader, None, [], Header(0, Hello);
      fed, taken, head, dropped, peak := [], [], [], [], 0;
    }

    predicate HasFrame()
      reads this
    {
      state.FrameReady?
    }

    /** Appends bytes; false once the stream is known to be corrupt. */
    method Feed(bytes: seq<byte>) returns (ok: bool)
      requires Valid()
      modifies this
      ensures Valid()
      ensures fed == old(fed) + bytes && taken == old(taken) && Held() == old(Held()) + bytes
      ensures ok == !state.Poisoned?
      ensures old(state).FrameReady? ==> state.FrameReady?
      ensures peak == if old(state).Poisoned? then old(peak) else Max(old(peak), |old(buffer)| + |bytes|)
    {
      ParseAppend(parser, fed, Held(), taken, bytes);
      fed := fed + bytes;
      if state.Poisoned? {
        dropped := dropped + bytes;
        assert Held() == old(Held()) + bytes;
        return false;
      }
      buffer := buffer + bytes;
      peak := Max(peak, |buffer|);
      assert Held() == old(Held()) + bytes;
      ok := Drive();
    }

    /** The state-machine loop shared by Feed and TakeFrame. */
    method Drive() returns (ok: bool)
      requires Consistent()
      modifies this
      ensures Valid()
      ensures fed == old(fed) && taken == old(taken) && Held() == old(Held()) && peak == old(peak)
      ensures ok == !state.Poisoned?
      ensures old(state).FrameReady? ==> state.FrameReady?
    {
      while true
        invariant Consistent()
        invariant fed == old(fed) && taken == old(taken) && Held() == old(Held()) && peak == old(peak)
        invariant old(state).FrameReady? ==> state.FrameReady?
        decreases if state.ReadingHeader? then 1 else 0
      {
        match state
        case Poisoned =>
          return false;
        case FrameReady =>
          return true;
        case ReadingHeader =>
          if |buffer| < HEADER_SIZE {
            return true;
          }
          var consumed := TryConsumeHeader();
          if !consumed {
            return false;
          }
        case ReadingPayload =>
          if |buffer| >= pending.len {
            state := FrameReady;
          }
          return true;
      }
    }

    method TryConsumeHeader() returns (ok: bool)
      requires Consistent() && state.ReadingHeader? && |buffer| >= HEADER_SIZE
      modifies this
      ensures Consistent()
      ensures fed == old(fed) && taken == old(taken) && Held() == old(Held()) && peak == old(peak)
      ensures ok ==> state.ReadingPayload? || state.FrameReady?
      ensures !ok ==> state.Poisoned?
    {
      match parser(buffer[..HEADER_SIZE])
      case Bad(reason) =>
        lastError := Some(reason);
        state := Poisoned;
        return false;
      case Ok(h) =>
        pending := h;
        head, buffer := buffer[..HEADER_SIZE], buffer[HEADER_SIZE..];
        assert Held() == old(Held());
        state := if pending.len == 0 then FrameReady else ReadingPayload;
        return true;
    }

    /** Returns the completed frame and moves on to the next. */
    method TakeFrame() returns (f: Frame)
      requires Valid() && HasFrame()
      modifies this
      ensures Valid()
      ensures fed == old(fed) && taken == old(taken) + [f] && peak == old(peak)
      ensures Held() == AfterTake(parser, old(Held()))
    {
      f := Frame(pending.ftype, []);
      if pending.len > 0 {
        f := Frame(pending.ftype, buffer[..pending.len]);
      }
      ghost var held := Held();
      assert held[..HEADER_SIZE] == head;
      assert held[HEADER_SIZE..HEADER_SIZE + pending.len] == f.payload;
      assert held[HEADER_SIZE + pending.len..] == buffer[pending.len..] + dropped;
      SplitsNext(parser, fed, taken, held);
      buffer, head, taken := buffer[pending.len..], [], taken + [f];
      assert Held() == held[HEADER_SIZE + pending.len..];
      pending := Header(0, Hello);
      state := ReadingHeader;
      var _ := Drive();
    }

    /** The verdict on the whole history, however the bytes were cut and whenever frames were taken. */
    lemma History()
      requires Valid()
      ensures taken <= Parse(parser, fed).frames
      ensures state.FrameReady? ==> |taken| < |Parse(parser, fed).frames|
      ensures !state.FrameReady? ==> taken == Parse(parser, fed).frames
      ensures state.ReadingHeader? || state.ReadingPayload? ==> Parse(parser, fed).tail == Incomplete
      ensures state.Poisoned? ==> Parse(parser, fed).tail == Corrupt(lastError.value)
    {
      SplitsParse(parser, fed, taken, Held());
      var held := Held();
      if state.Poisoned? {
        assert held[..HEADER_SIZE] == buffer[..HEADER_SIZE];
      } else if !state.ReadingHeader? {
        assert held[..HEADER_SIZE] == head;
      }
    }

    /** The state is read off the bytes held. */
    lemma Situation()
      requires Valid()
      ensures state.Poisoned? <==> Broken(parser, Held())
      ensures state.FrameReady? <==> WholeFrame(parser, Held())
      ensures !state.Poisoned? ==> |buffer| == Backlog(parser, Held())
    {
      var held := Held();
      if state.Poisoned? {
        assert held[..HEADER_SIZE] == buffer[..HEADER_SIZE];
      } else if !state.ReadingHeader? {
        assert held[..HEADER_SIZE] == head;
      }
    }

    /** Between calls, with no frame ready and no bad header, less than one header and one payload is buffered. */
    lemma BufferBound(maxPayload: nat)
      requires Valid() && parser == ParserFor(HeaderCrc, maxPayload)
      requires state.ReadingHeader? || state.ReadingPayload?
      ensures |buffer| < HEADER_SIZE + maxPayload
    {
    }
  }

  // ---------------------------------------------------------------------
  // What the decoder holds, as a caller can work it out.
  // ---------------------------------------------------------------------

  function Max(a: nat, b: nat): nat {
    if a < b then b else a
  }

  /** The bytes begin with a bad header. */
  predicate Broken(hp: HeaderParser, s: seq<byte>) {
    |s| >= HEADER_SIZE && hp(s[..HEADER_SIZE]).Bad?
  }

  /** The bytes begin with a whole frame. */
  predicate WholeFrame(hp: HeaderParser, s: seq<byte>) {
    && |s| >= HEADER_SIZE && hp(s[..HEADER_SIZE]).Ok?
    && |s| >= HEADER_SIZE + hp(s[..HEADER_SIZE]).header.len
  }

  function AfterTake(hp: HeaderParser, s: seq<byte>): seq<byte> {
    if WholeFrame(hp, s) then s[HEADER_SIZE + hp(s[..HEADER_SIZE]).header.len..] else s
  }

  /** How many of the bytes are in the buffer: a good header has already left it. */
  function Backlog(hp: HeaderParser, s: seq<byte>): nat {
    if |s| >= HEADER_SIZE && hp(s[..HEADER_SIZE]).Ok? then |s| - HEADER_SIZE else |s|
  }

  /** A caller's use of the decoder: bytes arrive, or a frame is asked for. */
  datatype Op = FeedBytes(bytes: seq<byte>) | Take

  function BytesOf(ops: seq<Op>): seq<byte> {
    if ops == [] then []
    else BytesOf(ops[..|ops| - 1]) + (match ops[|ops| - 1] case FeedBytes(b) => b case Take => [])
  }

  /** The bytes fed and not yet taken. */
  function Unread(hp: HeaderParser, ops: seq<Op>): seq<byte>
    decreases |ops|
  {
    if ops == [] then []
    else
      var before := Unread(hp, ops[..|ops| - 1]);
      match ops[|ops| - 1]
      case FeedBytes(b) => before + b
      case Take => AfterTake(hp, before)
  }

  /** What is in the buffer during a feed after ops, before any of it is used up; nothing once poisoned. */
  function DuringFeed(hp: HeaderParser, ops: seq<Op>, b: seq<byte>): nat {
    if Broken(hp, Unread(hp, ops)) then 0 else Backlog(hp, Unread(hp, ops)) + |b|
  }

  function Peak(hp: HeaderParser, ops: seq<Op>): nat
    decreases |ops|
  {
    if ops == [] then 0
    else
      var before := ops[..|ops| - 1];
      match ops[|ops| - 1]
      case FeedBytes(b) => Max(Peak(hp, before), DuringFeed(hp, before, b))
      case Take => Peak(hp, before)
  }

  /**
   * The buffer stays within a bound throughout if and only if at every feed what is held and what is fed
   * fit together, which the caller can work out before the call.
   */
  lemma {:induction false} PeakExact(hp: HeaderParser, ops: seq<Op>, bound: nat)
    ensures Peak(hp, ops) <= bound <==>
            forall i :: 0 <= i < |ops| && ops[i].FeedBytes? ==> DuringFeed(hp, ops[..i], ops[i].bytes) <= bound
    decreases |ops|
  {
    if ops != [] {
      var n := |ops| - 1;
      PeakExact(hp, ops[..n], bound);
      forall i | 0 <= i < n ensures ops[..n][..i] == ops[..i] && ops[..n][i] == ops[i] { }
      if Peak(hp, ops) <= bound {
        forall i | 0 <= i < |ops| && ops[i].FeedBytes? ensures DuringFeed(hp, ops[..i], ops[i].bytes) <= bound {
          if i < n { assert DuringFeed(hp, ops[..n][..i], ops[..n][i].bytes) <= bound; }
        }
      }
      if forall i :: 0 <= i < |ops| && ops[i].FeedBytes? ==> DuringFeed(hp, ops[..i], ops[i].bytes) <= bound {
        forall i | 0 <= i < n && ops[..n][i].FeedBytes?
          ensures DuringFeed(hp, ops[..n][..i], ops[..n][i].bytes) <= bound
        {
          assert DuringFeed(hp, ops[..i], ops[i].bytes) <= bound;
        }
      }
    }
  }

  /** One feed is buffered whole, however long it is: one byte too many breaks the documented bound. */
  lemma BoundBroken(maxPayload: nat)
    ensures Peak(ParserFor(HeaderCrc, maxPayload), [FeedBytes(Zeros(HEADER_SIZE + maxPayload + 1))])
            == HEADER_SIZE + maxPayload + 1
  {
    var hp, op := ParserFor(HeaderCrc, maxPayload), FeedBytes(Zeros(HEADER_SIZE + maxPayload + 1));
    assert [op][..0] == [];
    assert Unread(hp, []) == [] && Peak(hp, []) == 0;
  }

  /**
   * For any cut of a stream into feeds, with takes (when a frame is ready) interleaved anywhere:
   * the frames taken are a prefix of the parse of all bytes fed; unless a frame is still ready they
   * are all of it, and then the error, if any, is that of the first bad header. And the buffer has been
   * as long as the feeds made it and no longer.
   */
  method Replay(ops: seq<Op>, maxPayload: nat)
    returns (frames: seq<Frame>, ready: bool, error: Option<HeaderError>, ghost peak: nat)
    ensures frames <= Parse(ParserFor(HeaderCrc, maxPayload), BytesOf(ops)).frames
    ensures ready <==> frames != Parse(ParserFor(HeaderCrc, maxPayload), BytesOf(ops)).frames
    ensures !ready ==> Parse(ParserFor(HeaderCrc, maxPayload), BytesOf(ops)).tail ==
                       if error.Some? then Corrupt(error.value) else Incomplete
    ensures peak == Peak(ParserFor(HeaderCrc, maxPayload), ops)
  {
    var d := new FrameDecoder(maxPayload);
    frames := [];
    assert ops[..|ops|] == ops;
    for i := 0 to |ops|
      invariant d.Valid() && fresh(d)
      invariant d.fed == BytesOf(ops[..i]) && d.taken == frames
      invariant d.Held() == Unread(d.parser, ops[..i]) && d.peak == Peak(d.parser, ops[..i])
    {
      assert ops[..i + 1][..i] == ops[..i];
      d.Situation();
      match ops[i]
      case FeedBytes(bytes) =>
        var _ := d.Feed(bytes);
      case Take =>
        assert d.fed + [] == d.fed;
        if d.HasFrame() {
          var f := d.TakeFrame();
          frames := frames + [f];
        }
    }
    d.History();
    ready, error, peak := d.HasFrame(), d.lastError, d.peak;
  }
}
