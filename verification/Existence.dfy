/** Every transfer that nothing interrupts has a pair of runs of the two programs. */
module Existence {
  import opened Bytes
  import opened Messages
  import opened Journal
  import opened Wiring
  import opened EndToEnd
  import opened Liveness
  import opened Protocol
  import F = Frames
  import R = ResumeSafety
  import Resume
  import S = Session
  import C = ClientSession
  import V = ServerSession

  // ---------------------------------------------------------------------
  // Messages have frames.
  // ---------------------------------------------------------------------

  /** A message of a transfer that goes well, and that fits a frame and its fields. */
  predicate Speakable(msg: S.Msg) {
    && PayloadSize(msg) <= F.MAX_PAYLOAD
    && match msg
       case MHello(_) => true
       case MManifest(_) => true
       case MReqChunks(ix) => forall i :: i in ix ==> i < 0x1_0000_0000
       case MChunk(_) => true
       case MComplete(_) => true
       case MAck(n) => n < 0x1_0000_0000
       case _ => false
  }

  lemma FrameFor(msg: S.Msg) returns (f: F.Frame)
    requires Speakable(msg)
    ensures MsgOf(f) == msg && |f.payload| <= F.MAX_PAYLOAD
  {
    match msg
    case MHello(m) =>
      HelloRoundTrip(m);
      f := F.Frame(F.Hello, EncodeHello(m));
    case MManifest(m) =>
      ManifestRoundTrip(m);
      ManifestLayout(m);
      f := F.Frame(F.Manifest, EncodeManifest(m));
    case MReqChunks(ix) =>
      f := RequestFrame(ix);
    case MChunk(m) =>
      ChunkRoundTrip(m);
      f := F.Frame(F.Chunk, EncodeChunk(m));
    case MComplete(m) =>
      CompleteRoundTrip(m);
      f := F.Frame(F.Complete, EncodeComplete(m));
    case MAck(n) =>
      AckRoundTrip(AckMsg(n));
      f := F.Frame(F.Ack, EncodeAck(AckMsg(n)));
  }

  lemma RequestFrame(ix: seq<nat>) returns (f: F.Frame)
    requires 4 + 4 * |ix| <= F.MAX_PAYLOAD && forall i :: i in ix ==> i < 0x1_0000_0000
    ensures MsgOf(f) == S.MReqChunks(ix) && |f.payload| <= F.MAX_PAYLOAD
  {
    forall a | 0 <= a < |ix| ensures ix[a] < 0x1_0000_0000 { assert ix[a] in ix; }
    var indices: seq<u32> := ix;
    ReqChunksRoundTrip(ReqChunksMsg(indices));
    f := F.Frame(F.ReqChunks, EncodeReqChunks(ReqChunksMsg(indices)));
  }

  lemma {:induction false} FramesFor(read: F.Frame -> S.Msg, msgs: seq<S.Msg>) returns (frames: seq<F.Frame>)
    requires (forall f {:trigger MsgOf(f)} :: read(f) == MsgOf(f)) && forall msg :: msg in msgs ==> Speakable(msg)
    ensures Spells(read, frames, msgs)
    decreases |msgs|
  {
    if msgs == [] {
      frames := [];
    } else {
      var f := FrameFor(msgs[0]);
      var rest := FramesFor(read, msgs[1..]);
      frames := [f] + rest;
    }
  }

  // ---------------------------------------------------------------------
  // The sender.
  // ---------------------------------------------------------------------

  /** One more event in front of a run. */
  lemma SenderStep(mach: C.SenderMachine, plan: Plan, msgs: seq<S.Msg>, c: ClientState, e: C.ClientEvent,
                   tail: seq<C.ClientEvent>, end: ClientState)
    requires Plays(mach, plan) && C.Moves(c, e) && !e.Loses?
    requires e.Hearing? ==> msgs != [] && msgs[0] == e.msg
    requires Lives(mach, if e.Hearing? then msgs[1..] else msgs, C.ClientReact(plan, c, e).next, tail, end)
    ensures Lives(mach, msgs, c, [e] + tail, end)
    ensures Said(mach, c, [e] + tail) ==
            C.ClientReact(plan, c, e).out + Said(mach, C.ClientReact(plan, c, e).next, tail)
  {
    assert ([e] + tail)[1..] == tail;
    assert mach.may(c, e) == C.Moves(c, e) && mach.hears(e) == C.ClientHears(e);
    assert mach.step(c, e) == C.ClientReact(plan, c, e).next && mach.out(c, e) == C.ClientReact(plan, c, e).out;
  }

  lemma SendLast(mach: C.SenderMachine, plan: Plan, ack: S.Msg) returns (trace: seq<C.ClientEvent>)
    requires Plays(mach, plan) && Small(plan) && IsAck(ack)
    ensures Lives(mach, [ack], CSending([]), trace, CReturned(true)) && forall e :: e in trace ==> Able(e)
    ensures Said(mach, CSending([]), trace) == [plan.finish]
  {
    var hear := C.Hearing(ack, true);
    assert [ack][1..] == [] && Lives(mach, [], CReturned(true), [], CReturned(true));
    SenderStep(mach, plan, [ack], CAwaitAck, hear, [], CReturned(true));
    SenderStep(mach, plan, [ack], CSending([]), C.Acts(true), [hear] + [], CReturned(true));
    trace := [C.Acts(true)] + ([hear] + []);
  }

  /** From the request to the acknowledgement. */
  lemma {:induction false} SendRest(mach: C.SenderMachine, plan: Plan, ack: S.Msg, ix: seq<nat>)
    returns (trace: seq<C.ClientEvent>)
    requires Plays(mach, plan) && Small(plan) && InRange(plan, ix) && IsAck(ack)
    ensures Lives(mach, [ack], CSending(ix), trace, CReturned(true)) && forall e :: e in trace ==> Able(e)
    ensures Said(mach, CSending(ix), trace) == Planned(plan, ix) + [plan.finish]
    decreases |ix|
  {
    if ix == [] {
      trace := SendLast(mach, plan, ack);
      assert Planned(plan, ix) + [plan.finish] == [plan.finish];
    } else {
      assert ix[0] in ix && forall i :: i in ix[1..] ==> i in ix;
      var rest := SendRest(mach, plan, ack, ix[1..]);
      SenderStep(mach, plan, [ack], CSending(ix), C.Acts(true), rest, CReturned(true));
      trace := [C.Acts(true)] + rest;
      assert [plan.chunk(ix[0])] + Planned(plan, ix[1..]) == Planned(plan, ix);
    }
  }

  lemma SendOpening(mach: C.SenderMachine, plan: Plan, ack: S.Msg, ix: seq<nat>, rest: seq<C.ClientEvent>)
    returns (trace: seq<C.ClientEvent>)
    requires Plays(mach, plan) && Small(plan) && Lives(mach, [ack], CSending(ix), rest, CReturned(true))
    ensures Lives(mach, [S.MHello(S.OWN_HELLO), S.MReqChunks(ix), ack], CAwaitHello, trace, CReturned(true))
    ensures Said(mach, CAwaitHello, trace) == [plan.manifest] + Said(mach, CSending(ix), rest)
    ensures trace == [C.Hearing(S.MHello(S.OWN_HELLO), true)] + ([C.Hearing(S.MReqChunks(ix), true)] + rest)
  {
    var hello, req, end := S.MHello(S.OWN_HELLO), S.MReqChunks(ix), CReturned(true);
    assert [req, ack][1..] == [ack] && [hello, req, ack][1..] == [req, ack];
    SenderStep(mach, plan, [req, ack], CAwaitReq, C.Hearing(req, true), rest, end);
    var later := [C.Hearing(req, true)] + rest;
    SenderStep(mach, plan, [hello, req, ack], CAwaitHello, C.Hearing(hello, true), later, end);
    trace := [C.Hearing(hello, true)] + later;
    assert [] + Said(mach, CSending(ix), rest) == Said(mach, CSending(ix), rest);
  }

  lemma SendAll(mach: C.SenderMachine, plan: Plan, ack: S.Msg, ix: seq<nat>) returns (trace: seq<C.ClientEvent>)
    requires Plays(mach, plan) && Small(plan) && InRange(plan, ix) && IsAck(ack)
    ensures Lives(mach, [S.MHello(S.OWN_HELLO), S.MReqChunks(ix), ack], CStart, trace, CReturned(true))
    ensures forall e :: e in trace ==> Able(e)
    ensures Said(mach, CStart, trace) == Opening(plan) + (Planned(plan, ix) + [plan.finish])
  {
    var rest := SendRest(mach, plan, ack, ix);
    var later := SendOpening(mach, plan, ack, ix, rest);
    var replies := [S.MHello(S.OWN_HELLO), S.MReqChunks(ix), ack];
    SenderStep(mach, plan, replies, CStart, C.Acts(true), later, CReturned(true));
    trace := [C.Acts(true)] + later;
    var more := Planned(plan, ix) + [plan.finish];
    assert [S.MHello(S.OWN_HELLO)] + ([plan.manifest] + more) == Opening(plan) + more;
  }

  // ---------------------------------------------------------------------
  // The receiver.
  // ---------------------------------------------------------------------

  lemma ReceiverStep(mach: V.SessionMachine, k: S.Scheme, msgs: seq<S.Msg>, c: S.Config,
                     tail: seq<S.Event>, end: S.Config)
    requires Answers(mach, k) && !c.s.Returned? && msgs != []
    requires Lives(mach, msgs[1..], S.Step(k, c, S.Got(msgs[0], S.Calm(true))), tail, end)
    ensures var e := S.Got(msgs[0], S.Calm(true));
            && Lives(mach, msgs, c, [e] + tail, end)
            && Said(mach, c, [e] + tail) == S.React(k, c.s, c.d, e).out + Said(mach, S.Step(k, c, e), tail)
  {
    var e := S.Got(msgs[0], S.Calm(true));
    assert ([e] + tail)[1..] == tail;
    assert mach.may(c, e) == V.Serves(c, e) && mach.hears(e) == V.HearingOf(e);
    assert mach.step(c, e) == S.Step(k, c, e) && mach.out(c, e) == S.React(k, c.s, c.d, e).out;
  }

  /** From the chunks to the end. */
  lemma {:induction false} TakeRest(mach: V.SessionMachine, k: S.Scheme, j: S.Job, c: S.Config)
    returns (events: seq<S.Event>, ack: S.Msg)
    requires Sendable(j) && Answers(mach, k) && Held(k, j, c)
    ensures Lives(mach, Expected(k, j, c.s), c, events, S.Config(S.Returned(true), DeliveredDisk(j)))
    ensures Said(mach, c, events) == [ack] && Speakable(ack) && ack.MAck? && forall e :: e in events ==> Willing(e)
    decreases |Wanted(j, c.s.p.have)|
  {
    var msgs, p := Expected(k, j, c.s), c.s.p;
    var e := S.Got(msgs[0], S.Calm(true));
    var next, out := S.Step(k, c, e), S.React(k, c.s, c.d, e).out;
    if Wanted(j, p.have) == [] {
      CompleteEffect(k, j, p, c.d, S.Calm(true));
      ack := out[0];
      ReceiverStep(mach, k, msgs, c, [], next);
      events := [e] + [];
    } else {
      ChunkEffect(k, j, p, c.d, S.Calm(true));
      ExpectedStep(k, j, p, next.s.p);
      var rest;
      rest, ack := TakeRest(mach, k, j, next);
      ReceiverStep(mach, k, msgs, c, rest, S.Config(S.Returned(true), DeliveredDisk(j)));
      events := [e] + rest;
      assert [] + Said(mach, next, rest) == Said(mach, next, rest);
    }
  }

  /** The state in which the manifest leaves the receiver. */
  lemma Asking(k: S.Scheme, j: S.Job, d: S.Disk) returns (c: S.Config)
    requires Sendable(j) && R.DiskOk(k, j, d) && Known(k, j, d) <= Range(S.Count(j))
    ensures Held(k, j, c)
    ensures var r := S.React(k, S.AwaitManifest, d, S.Got(S.MManifest(S.ManifestOf(k, j)), S.Calm(true)));
            && c == S.Config(r.next, S.ApplyAll(d, r.ops)) && r.out == [S.MReqChunks(Wanted(j, c.s.p.have))]
  {
    ManifestEffect(k, j, d, S.Calm(true));
    c := S.Step(k, S.Config(S.AwaitManifest, d), S.Got(S.MManifest(S.ManifestOf(k, j)), S.Calm(true)));
  }

  /** From the manifest on. */
  lemma TakeManifest(mach: V.SessionMachine, k: S.Scheme, j: S.Job, d: S.Disk)
    returns (events: seq<S.Event>, ix: seq<nat>, ack: S.Msg)
    requires Sendable(j) && Answers(mach, k) && R.DiskOk(k, j, d) && Known(k, j, d) <= Range(S.Count(j))
    ensures Lives(mach, [S.MManifest(S.ManifestOf(k, j))] + (ChunksOf(k, j, ix) + [Finish(k, j)]),
                  S.Config(S.AwaitManifest, d), events, S.Config(S.Returned(true), DeliveredDisk(j)))
    ensures Said(mach, S.Config(S.AwaitManifest, d), events) == [S.MReqChunks(ix)] + [ack]
    ensures Speakable(ack) && ack.MAck? && |ix| <= S.Count(j) && (forall i :: i in ix ==> i < S.Count(j))
    ensures forall e :: e in events ==> Willing(e)
  {
    var c := Asking(k, j, d);
    ix := Wanted(j, c.s.p.have);
    Resume.MissingExact(c.s.p.have, S.Count(j));
    Resume.MissingCount(c.s.p.have, S.Count(j));
    var rest;
    rest, ack := TakeRest(mach, k, j, c);
    var manifest, later := S.MManifest(S.ManifestOf(k, j)), Expected(k, j, c.s);
    assert ([manifest] + later)[1..] == later;
    ReceiverStep(mach, k, [manifest] + later, S.Config(S.AwaitManifest, d), rest,
                 S.Config(S.Returned(true), DeliveredDisk(j)));
    events := [S.Got(manifest, S.Calm(true))] + rest;
  }

  lemma TakeAll(mach: V.SessionMachine, k: S.Scheme, j: S.Job, d: S.Disk)
    returns (events: seq<S.Event>, ix: seq<nat>, ack: S.Msg)
    requires Sendable(j) && Answers(mach, k) && R.DiskOk(k, j, d) && Known(k, j, d) <= Range(S.Count(j))
    ensures Lives(mach, Opening(PlanOf(k, j)) + (ChunksOf(k, j, ix) + [Finish(k, j)]),
                  S.Config(S.AwaitHello, d), events, S.Config(S.Returned(true), DeliveredDisk(j)))
    ensures Said(mach, S.Config(S.AwaitHello, d), events) == [S.MHello(S.OWN_HELLO), S.MReqChunks(ix), ack]
    ensures Speakable(ack) && ack.MAck? && |ix| <= S.Count(j) && (forall i :: i in ix ==> i < S.Count(j))
    ensures forall e :: e in events ==> Willing(e)
  {
    var rest;
    rest, ix, ack := TakeManifest(mach, k, j, d);
    var hello, more := S.MHello(S.OWN_HELLO), ChunksOf(k, j, ix) + [Finish(k, j)];
    var later := [S.MManifest(S.ManifestOf(k, j))] + more;
    assert S.ApplyAll(d, []) == d && ([hello] + later)[1..] == later;
    ReceiverStep(mach, k, [hello] + later, S.Config(S.AwaitHello, d), rest,
                 S.Config(S.Returned(true), DeliveredDisk(j)));
    events := [S.Got(hello, S.Calm(true))] + rest;
    assert Opening(PlanOf(k, j)) + more == [hello] + later;
  }

  // ---------------------------------------------------------------------
  // Both.
  // ---------------------------------------------------------------------

  /** The bytes that carry the messages, and that the peer reads them back as. */
  lemma WireFor(crc: F.Checksum, read: F.Frame -> S.Msg, msgs: seq<S.Msg>)
    returns (frames: seq<F.Frame>, bytes: seq<byte>)
    requires (forall f {:trigger MsgOf(f)} :: read(f) == MsgOf(f)) && forall msg :: msg in msgs ==> Speakable(msg)
    ensures Spells(read, frames, msgs) && F.Parse(F.ParserFor(crc, F.MAX_PAYLOAD), bytes).frames == frames
    ensures F.Torn(F.Encoder(crc), [] + F.Concat(F.Encoder(crc), frames), bytes)
  {
    frames := FramesFor(read, msgs);
    bytes := F.Concat(F.Encoder(crc), frames);
    assert [] + bytes == bytes;
    F.CutStream(crc, frames, bytes, bytes);
  }

  lemma MachinesPlay(h: Hasher, j: C.SendJob)
    ensures Plays(C.SenderOf(h, j), C.PlanFor(h, j)) && Answers(V.MachineOf(h), Wire(h))
  {
    MachinesAnswer(h);
  }

  lemma PlannedSpeakable(h: Hasher, j: C.HonestJob, ix: seq<nat>)
    requires Sendable(j) && InRange(C.PlanFor(h, j), ix)
    ensures var plan := C.PlanFor(h, j);
            && (forall msg :: msg in Opening(plan) + (Planned(plan, ix) + [plan.finish]) ==> Speakable(msg))
            && Opening(plan) + (Planned(plan, ix) + [plan.finish]) ==
               Opening(PlanOf(Wire(h), j)) + (ChunksOf(Wire(h), j, ix) + [Finish(Wire(h), j)])
  {
    C.HonestPlan(h, j);
    PlanSmall(h, j);
    var plan := C.PlanFor(h, j);
    forall msg | msg in Planned(plan, ix) ensures Speakable(msg) {
      var a :| 0 <= a < |ix| && msg == plan.chunk(ix[a]);
      assert ix[a] in ix;
    }
    assert Planned(plan, ix) == ChunksOf(Wire(h), j, ix) && Opening(plan) == Opening(PlanOf(Wire(h), j));
  }

  /** A run that hears the messages of one stream and fills another with what it says. */
  lemma Ran<C, E>(mach: Machine<C, E>, crc: F.Checksum, c0: C, msgs: seq<S.Msg>, frames: seq<F.Frame>, got: seq<byte>,
                  trace: seq<E>, end: C, sent: seq<F.Frame>, wrote: seq<byte>)
    requires Spells(mach.read, frames, msgs) && F.Parse(F.ParserFor(crc, F.MAX_PAYLOAD), got).frames == frames
    requires Lives(mach, msgs, c0, trace, end) && Spells(mach.read, sent, Said(mach, c0, trace))
    requires F.Torn(F.Encoder(crc), [] + F.Concat(F.Encoder(crc), sent), wrote)
    ensures Explained(mach, c0, F.Parse(F.ParserFor(crc, F.MAX_PAYLOAD), got).frames, trace, end, Listened(mach, trace))
    ensures RepliedInPart(mach, c0, trace, sent, F.Encoder(crc), [], wrote)
  {
    LivesExplained(mach, c0, frames, msgs, trace, end);
    SaidIsOuts(mach, c0, trace);
  }

  /** The two machines in conversation. */
  lemma Converse(h: Hasher, j: C.HonestJob, d: S.Disk) returns (trace: seq<C.ClientEvent>, events: seq<S.Event>)
    requires Sendable(j) && R.DiskOk(Wire(h), j, d) && Known(Wire(h), j, d) <= Range(S.Count(j))
    ensures var sender, receiver, c0 := C.SenderOf(h, j), V.MachineOf(h), S.Config(S.AwaitHello, d);
            var msgs, replies := Said(sender, CStart, trace), Said(receiver, c0, events);
            && Lives(sender, replies, CStart, trace, CReturned(true))
            && Lives(receiver, msgs, c0, events, S.Config(S.Returned(true), DeliveredDisk(j)))
            && (forall msg :: msg in msgs ==> Speakable(msg)) && (forall msg :: msg in replies ==> Speakable(msg))
    ensures (forall e :: e in trace ==> Able(e)) && (forall e :: e in events ==> Willing(e))
  {
    var plan := C.PlanFor(h, j);
    MachinesPlay(h, j);
    C.HonestPlan(h, j);
    PlanSmall(h, j);
    var ix, ack;
    events, ix, ack := TakeAll(V.MachineOf(h), Wire(h), j, d);
    trace := SendAll(C.SenderOf(h, j), plan, ack, ix);
    PlannedSpeakable(h, j, ix);
    RepliesSpeakable(h, j, ix, ack);
  }

  lemma RepliesSpeakable(h: Hasher, j: C.HonestJob, ix: seq<nat>, ack: S.Msg)
    requires Sendable(j) && Speakable(ack) && |ix| <= S.Count(j) && forall i :: i in ix ==> i < S.Count(j)
    ensures forall msg :: msg in [S.MHello(S.OWN_HELLO), S.MReqChunks(ix), ack] ==> Speakable(msg)
  {
  }

  /**
   * For every job that fits its frames, every hash and checksum, and all files whose sidecar tells the
   * truth, there are two runs of the programs that hear all the other wrote with nothing failing.
   */
  lemma TransferExists(h: Hasher, crc: F.Checksum, j: C.HonestJob, d: S.Disk) returns (s: SenderRun, r: ReceiverRun)
    requires Sendable(j) && R.DiskOk(Wire(h), j, d) && Known(Wire(h), j, d) <= Range(S.Count(j))
    ensures SenderRan(h, crc, j, s) && ReceiverRan(h, crc, r) && Uninterrupted(s, r) && r.before == d
  {
    var sender, receiver, c0 := C.SenderOf(h, j), V.MachineOf(h), S.Config(S.AwaitHello, d);
    var trace, events := Converse(h, j, d);
    var msgs, replies := Said(sender, CStart, trace), Said(receiver, c0, events);
    var sent, wrote := WireFor(crc, sender.read, msgs);
    var answered, answer := WireFor(crc, receiver.read, replies);
    Ran(sender, crc, CStart, replies, answered, answer, trace, CReturned(true), sent, wrote);
    Ran(receiver, crc, c0, msgs, sent, wrote, events, S.Config(S.Returned(true), DeliveredDisk(j)), answered, answer);
    s := SenderRun(C.Log(trace, sent, Listened(sender, trace)), answer, wrote, true);
    r := ReceiverRun(events, answered, Listened(receiver, events), wrote, answer, d, DeliveredDisk(j), true);
  }
}
