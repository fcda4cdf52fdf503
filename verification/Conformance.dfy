/** The rules of the protocol as the two programs keep them, down to the frames they read. */
module Conformance {
  import opened Bytes
  import opened Folds
  import opened Messages
  import opened Chunks
  import opened Journal
  import opened Wiring
  import opened EndToEnd
  import F = Frames
  import S = Session
  import P = Protocol
  import U = Rules
  import C = ClientSession
  import V = ServerSession

  // ---------------------------------------------------------------------
  // The sender.
  // ---------------------------------------------------------------------

  /** The manifest of a job, field by field. */
  lemma OfferFields(h: Hasher, j: C.SendJob)
    ensures var m := S.OfferOf(h, j);
            && m.fileSize == |j.file| && m.chunkSize == j.chunkSize && m.path == j.path
            && m.chunkCount ==
               (if j.file == [] then 0
                else (|j.file| + j.chunkSize - 1) % 0x1_0000_0000_0000_0000 / j.chunkSize % 0x1_0000_0000)
            && |m.chunkHashes| == m.chunkCount
            && forall i :: 0 <= i < m.chunkCount ==> m.chunkHashes[i] == h(Slice(j.file, j.chunkSize, i))
  {
  }

  /** What follows the manifest: chunks under their own index and hash, and COMPLETE with the root and status 0. */
  lemma PlanFields(h: Hasher, j: C.SendJob, i: nat)
    requires i < S.CountOf(j)
    ensures var plan, m, piece := C.PlanFor(h, j), S.OfferOf(h, j), Slice(j.file, j.chunkSize, i);
            && plan.count == m.chunkCount && plan.finish == S.MComplete(CompleteMsg(m.rootHash, 0))
            && plan.chunk(i) == S.MChunk(ChunkMsg(i, m.chunkHashes[i], piece)) && h(piece) == m.chunkHashes[i]
  {
    assert Wrap32(i) == i;
  }

  /** The peer's HELLO of version 1 was heard. */
  ghost predicate Met(trace: seq<C.ClientEvent>) {
    exists e :: e in trace && e.Hearing? && e.msg.MHello? && e.msg.hello.version == 1
  }

  /** The sender has got beyond the greeting. */
  predicate Beyond(c: P.ClientState) {
    c.CAwaitReq? || c.CSending? || c.CAwaitAck? || c == P.CReturned(true)
  }

  lemma MetStep(plan: P.Plan, trace: seq<C.ClientEvent>, c: P.ClientState, e: C.ClientEvent)
    requires Beyond(c) ==> Met(trace)
    ensures Beyond(C.ClientReact(plan, c, e).next) ==> Met(trace + [e])
  {
    assert e in trace + [e] && forall x :: x in trace ==> x in trace + [e];
  }

  /** It goes on only with a peer that said HELLO in version 1. */
  lemma {:induction false} SenderGreeted(h: Hasher, j: C.SendJob, trace: seq<C.ClientEvent>)
    ensures Beyond(Fold(C.SenderOf(h, j).step, P.CStart, trace)) ==> Met(trace)
    decreases |trace|
  {
    if trace != [] {
      var n, mach := |trace| - 1, C.SenderOf(h, j);
      var c := Fold(mach.step, P.CStart, trace[..n]);
      SenderGreeted(h, j, trace[..n]);
      MetStep(C.PlanFor(h, j), trace[..n], c, trace[n]);
      assert trace[..n] + [trace[n]] == trace;
      FoldAppend(mach.step, P.CStart, trace[..n], [trace[n]]);
      assert [trace[n]][1..] == [] && Fold(mach.step, c, [trace[n]]) == mach.step(c, trace[n]);
    }
  }

  /** A HELLO of version 1, on the wire. */
  predicate VersionOne(f: F.Frame) {
    f.ftype.Hello? && |f.payload| == 9 && f.payload[0] == 1
  }

  lemma HelloRead(f: F.Frame)
    ensures MsgOf(f).MHello? && MsgOf(f).hello.version == 1 <==> VersionOne(f)
  {
  }

  ghost predicate Came(s: SenderRun, crc: F.Checksum, f: F.Frame) {
    f in F.Parse(F.ParserFor(crc, F.MAX_PAYLOAD), s.got).frames
  }

  lemma HeardFrame(h: Hasher, crc: F.Checksum, j: C.SendJob, s: SenderRun, e: C.ClientEvent)
    requires SenderRan(h, crc, j, s) && e in s.log.trace && e.Hearing?
    ensures exists f :: Came(s, crc, f) && MsgOf(f) == e.msg
  {
    var frames, mach := F.Parse(F.ParserFor(crc, F.MAX_PAYLOAD), s.got).frames, C.SenderOf(h, j);
    assert mach.hears(e) == Hears(e.msg);
    HeardFromFrame(mach, frames, s.log.trace, e);
    var f :| f in frames && mach.read(f) == e.msg;
    assert Came(s, crc, f);
  }

  /** A sender that reports success read a HELLO of version 1. */
  lemma SuccessGreeted(h: Hasher, crc: F.Checksum, j: C.SendJob, s: SenderRun)
    requires SenderRan(h, crc, j, s) && s.ok
    ensures exists f :: Came(s, crc, f) && VersionOne(f)
  {
    SenderGreeted(h, j, s.log.trace);
    var e :| e in s.log.trace && e.Hearing? && e.msg.MHello? && e.msg.hello.version == 1;
    HeardFrame(h, crc, j, s, e);
    var f :| Came(s, crc, f) && MsgOf(f) == e.msg;
    HelloRead(f);
  }

  /** An ACK is told by its type alone. */
  lemma AckRead(f: F.Frame)
    ensures P.IsAck(MsgOf(f)) <==> f.ftype.Ack?
  {
  }

  /** And it read a frame of type ACK. */
  lemma SuccessAcked(h: Hasher, crc: F.Checksum, j: C.SendJob, s: SenderRun)
    requires SenderRan(h, crc, j, s) && s.ok
    ensures exists f :: Came(s, crc, f) && f.ftype.Ack?
  {
    SenderFollowsScript(h, j, s.log.trace);
    var msg, sendOk :| P.IsAck(msg) && C.Hearing(msg, sendOk) in s.log.trace;
    HeardFrame(h, crc, j, s, C.Hearing(msg, sendOk));
    var f :| Came(s, crc, f) && MsgOf(f) == msg;
    AckRead(f);
  }

  // ---------------------------------------------------------------------
  // The receiver.
  // ---------------------------------------------------------------------

  lemma {:induction false} SaidAreReplies(h: Hasher, c: S.Config, trace: seq<S.Event>)
    ensures Said(V.MachineOf(h), c, trace) == U.Replies(Wire(h), c, trace)
    decreases |trace|
  {
    if trace != [] { SaidAreReplies(h, S.Step(Wire(h), c, trace[0]), trace[1..]); }
  }

  /** A receiver that reports success, or has touched a file, read a HELLO of version 1 first. */
  lemma ReceiverGreeted(h: Hasher, crc: F.Checksum, r: ReceiverRun)
    requires ReceiverRan(h, crc, r) && (r.ok || r.after != r.before)
    ensures var frames := F.Parse(F.ParserFor(crc, F.MAX_PAYLOAD), r.got).frames;
            frames != [] && VersionOne(frames[0])
  {
    var c, mach := S.Config(S.AwaitHello, r.before), V.MachineOf(h);
    var frames := F.Parse(F.ParserFor(crc, F.MAX_PAYLOAD), r.got).frames;
    NoBegin(h, c, r.trace);
    V.FollowingIsRunning(h, c, r.trace);
    if r.trace != [] && !U.Greeted(r.trace) { U.GreetingRequired(Wire(h), r.before, r.trace); }
    var e := r.trace[0];
    assert mach.hears(e) == Hears(e.msg) && r.trace[..0] == [];
    assert Comes(mach, frames, Listened(mach, r.trace[..0]), e);
    HelloRead(frames[0]);
  }

  /** Every ACK that the receiver sends names the last chunk of the sender's file. */
  lemma ReceiverAcksLast(h: Hasher, crc: F.Checksum, j: C.SendJob, s: SenderRun, r: ReceiverRun, n: nat)
    requires SenderRan(h, crc, j, s) && ReceiverRan(h, crc, r) && Connected(s, r)
    requires S.MAck(n) in Outs(V.MachineOf(h), S.Config(S.AwaitHello, r.before), r.trace)
    ensures U.LastOf(n, S.CountOf(j))
  {
    ReceiverAcks(h, crc, r, n);
    ManifestsArriveHonest(h, crc, j, s, r);
    assert r.trace[1] in r.trace;
  }

  lemma ReceiverAcks(h: Hasher, crc: F.Checksum, r: ReceiverRun, n: nat)
    requires ReceiverRan(h, crc, r)
    requires S.MAck(n) in Outs(V.MachineOf(h), S.Config(S.AwaitHello, r.before), r.trace)
    ensures |r.trace| >= 2 && r.trace[1].Got? && r.trace[1].msg.MManifest?
    ensures U.LastOf(n, r.trace[1].msg.manifest.chunkCount)
  {
    var c := S.Config(S.AwaitHello, r.before);
    NoBegin(h, c, r.trace);
    SaidIsOuts(V.MachineOf(h), c, r.trace);
    SaidAreReplies(h, c, r.trace);
    U.AckNamesLast(Wire(h), r.before, r.trace, n);
  }
}
