/**
 * Sender program, receiver program and the byte streams between them: what the two verified sessions
 * achieve together.
 */
module EndToEnd {
  import opened Bytes
  import opened Folds
  import opened Journal
  import opened Wiring
  import opened Delivery
  import opened Storage
  import opened Connections
  import F = Frames
  import S = Session
  import P = Protocol
  import R = ResumeSafety
  import C = ClientSession
  import V = ServerSession

  // ---------------------------------------------------------------------
  // The sender's script.
  // ---------------------------------------------------------------------

  ghost predicate InRange(plan: P.Plan, ix: seq<nat>) {
    forall i :: i in ix ==> i < plan.count
  }

  function Opening(plan: P.Plan): seq<S.Msg> {
    [S.MHello(S.OWN_HELLO), plan.manifest]
  }

  function Planned(plan: P.Plan, ix: seq<nat>): seq<S.Msg> {
    seq(|ix|, a requires 0 <= a < |ix| => plan.chunk(ix[a]))
  }

  /** The peer asked for exactly ix. */
  ghost predicate Asked(trace: seq<C.ClientEvent>, ix: seq<nat>) {
    exists ok :: C.Hearing(S.MReqChunks(ix), ok) in trace
  }

  /** The whole conversation: HELLO, MANIFEST, the requested chunks in the requested order, COMPLETE. */
  ghost predicate Whole(plan: P.Plan, trace: seq<C.ClientEvent>, out: seq<S.Msg>) {
    exists ix :: Asked(trace, ix) && InRange(plan, ix) && out == Opening(plan) + Planned(plan, ix) + [plan.finish]
  }

  /** HELLO, MANIFEST and the given chunks have been sent. */
  ghost predicate SentSoFar(plan: P.Plan, out: seq<S.Msg>, done: seq<nat>) {
    InRange(plan, done) && out == Opening(plan) + Planned(plan, done)
  }

  /** The conversation up to some chunk of the request. */
  ghost predicate Partway(plan: P.Plan, trace: seq<C.ClientEvent>, out: seq<S.Msg>, rest: seq<nat>) {
    exists done: seq<nat> :: Asked(trace, done + rest) && SentSoFar(plan, out, done)
  }

  ghost predicate Acknowledged(trace: seq<C.ClientEvent>) {
    exists msg, sendOk :: P.IsAck(msg) && C.Hearing(msg, sendOk) in trace
  }

  /** What has been sent by the time the sender is in state c. */
  ghost predicate Script(plan: P.Plan, trace: seq<C.ClientEvent>, out: seq<S.Msg>, c: P.ClientState) {
    match c
    case CStart => out == []
    case CAwaitHello => out == Opening(plan)[..1]
    case CAwaitReq => out == Opening(plan)
    case CSending(rest) => Partway(plan, trace, out, rest)
    case CAwaitAck => Whole(plan, trace, out)
    case CReturned(ok) => ok ==> Whole(plan, trace, out) && Acknowledged(trace)
  }

  lemma ChunksSnoc(plan: P.Plan, done: seq<nat>, i: nat)
    ensures Planned(plan, done + [i]) == Planned(plan, done) + [plan.chunk(i)]
  {
  }

  lemma AskedStill(trace: seq<C.ClientEvent>, e: C.ClientEvent, ix: seq<nat>)
    requires Asked(trace, ix)
    ensures Asked(trace + [e], ix)
  {
    var ok :| C.Hearing(S.MReqChunks(ix), ok) in trace;
    assert C.Hearing(S.MReqChunks(ix), ok) in trace + [e];
  }

  lemma WholeStill(plan: P.Plan, trace: seq<C.ClientEvent>, e: C.ClientEvent, out: seq<S.Msg>)
    requires Whole(plan, trace, out)
    ensures Whole(plan, trace + [e], out)
  {
    var ix :| Asked(trace, ix) && InRange(plan, ix) && out == Opening(plan) + Planned(plan, ix) + [plan.finish];
    AskedStill(trace, e, ix);
  }

  lemma PartwayStill(plan: P.Plan, trace: seq<C.ClientEvent>, e: C.ClientEvent, out: seq<S.Msg>,
                     rest: seq<nat>)
    requires Partway(plan, trace, out, rest)
    ensures Partway(plan, trace + [e], out, rest)
  {
    var done: seq<nat> :| Asked(trace, done + rest) && SentSoFar(plan, out, done);
    AskedStill(trace, e, done + rest);
  }

  lemma ScriptChunk(plan: P.Plan, trace: seq<C.ClientEvent>, e: C.ClientEvent, out: seq<S.Msg>,
                    rest: seq<nat>)
    requires Partway(plan, trace, out, rest) && rest != [] && rest[0] < plan.count
    ensures Partway(plan, trace + [e], out + [plan.chunk(rest[0])], rest[1..])
  {
    var done: seq<nat> :| Asked(trace, done + rest) && SentSoFar(plan, out, done);
    var more := done + [rest[0]];
    assert more + rest[1..] == done + rest;
    AskedStill(trace, e, done + rest);
    ChunksSnoc(plan, done, rest[0]);
    assert out + [plan.chunk(rest[0])] == Opening(plan) + Planned(plan, more);
  }

  lemma ScriptFinish(plan: P.Plan, trace: seq<C.ClientEvent>, e: C.ClientEvent, out: seq<S.Msg>)
    requires Partway(plan, trace, out, [])
    ensures Whole(plan, trace + [e], out + [plan.finish])
  {
    var done: seq<nat> :| Asked(trace, done + []) && SentSoFar(plan, out, done);
    assert done + [] == done;
    AskedStill(trace, e, done);
  }

  lemma ScriptStep(plan: P.Plan, trace: seq<C.ClientEvent>, out: seq<S.Msg>, c: P.ClientState,
                   e: C.ClientEvent)
    requires Script(plan, trace, out, c)
    ensures var r := C.ClientReact(plan, c, e); Script(plan, trace + [e], out + r.out, r.next)
  {
    var r := C.ClientReact(plan, c, e);
    assert out + [] == out && e in trace + [e];
    match c
    case CStart =>
    case CAwaitHello =>
    case CAwaitReq =>
      if r.next.CSending? {
        var ix := r.next.rest;
        assert C.Hearing(S.MReqChunks(ix), e.ok) in trace + [e];
        assert Asked(trace + [e], [] + ix) by { assert [] + ix == ix; }
        assert out + r.out == Opening(plan) + Planned(plan, []);
      }
    case CSending(rest) =>
      if r.out == [] {
        if r.next.CSending? { PartwayStill(plan, trace, e, out, rest); }
      } else if rest == [] {
        ScriptFinish(plan, trace, e, out);
      } else {
        ScriptChunk(plan, trace, e, out, rest);
      }
    case CAwaitAck =>
      WholeStill(plan, trace, e, out);
    case CReturned(ok) =>
      if ok {
        WholeStill(plan, trace, e, out);
        var msg, sendOk :| P.IsAck(msg) && C.Hearing(msg, sendOk) in trace;
        assert C.Hearing(msg, sendOk) in trace + [e];
      }
  }

  /** Along every run the sender has sent exactly the part of its script that its state says. */
  lemma {:induction false} SenderFollowsScript(h: Hasher, j: C.SendJob, trace: seq<C.ClientEvent>)
    ensures var mach := C.SenderOf(h, j);
            Script(C.PlanFor(h, j), trace, Outs(mach, P.CStart, trace), Fold(mach.step, P.CStart, trace))
    decreases |trace|
  {
    if trace != [] {
      var n, mach := |trace| - 1, C.SenderOf(h, j);
      var c := Fold(mach.step, P.CStart, trace[..n]);
      SenderFollowsScript(h, j, trace[..n]);
      ScriptStep(C.PlanFor(h, j), trace[..n], Outs(mach, P.CStart, trace[..n]), c, trace[n]);
      assert trace[..n] + [trace[n]] == trace;
      FoldAppend(mach.step, P.CStart, trace[..n], [trace[n]]);
      assert [trace[n]][1..] == [] && Fold(mach.step, c, [trace[n]]) == mach.step(c, trace[n]);
    }
  }

  /** A message of the plan. */
  ghost predicate Own(plan: P.Plan, msg: S.Msg) {
    || msg in Opening(plan) || msg == plan.finish
    || exists i: nat :: i < plan.count && msg == plan.chunk(i)
  }

  /** Even a sender that gives up has sent nothing else. */
  lemma {:induction false} SenderSendsOwn(h: Hasher, j: C.SendJob, trace: seq<C.ClientEvent>)
    ensures forall msg :: msg in Outs(C.SenderOf(h, j), P.CStart, trace) ==> Own(C.PlanFor(h, j), msg)
    decreases |trace|
  {
    if trace != [] {
      var n, mach := |trace| - 1, C.SenderOf(h, j);
      SenderSendsOwn(h, j, trace[..n]);
      OwnStep(C.PlanFor(h, j), Fold(mach.step, P.CStart, trace[..n]), trace[n]);
    }
  }

  lemma OwnStep(plan: P.Plan, c: P.ClientState, e: C.ClientEvent)
    ensures forall msg :: msg in C.ClientReact(plan, c, e).out ==> Own(plan, msg)
  {
    var open := Opening(plan);
    assert S.MHello(S.OWN_HELLO) == open[0] && plan.manifest == open[1];
  }

  // ---------------------------------------------------------------------
  // The receiver's acknowledgement.
  // ---------------------------------------------------------------------

  /** An ACK goes out only in the step that returns success. */
  lemma AckStep(k: S.Scheme, c: S.Config, e: S.Event, msg: S.Msg)
    requires !e.Begin? && P.IsAck(msg)
    ensures msg in S.React(k, c.s, c.d, e).out ==> S.React(k, c.s, c.d, e).next == S.Returned(true)
    ensures c.s.Returned? ==> S.React(k, c.s, c.d, e).next == c.s
  {
  }

  lemma AckMeansSuccess(h: Hasher, c: S.Config, trace: seq<S.Event>)
    requires forall e :: e in trace ==> !e.Begin?
    requires exists msg :: P.IsAck(msg) && msg in Outs(V.MachineOf(h), c, trace)
    ensures Fold(V.MachineOf(h).step, c, trace).s == S.Returned(true)
  {
    var msg :| P.IsAck(msg) && msg in Outs(V.MachineOf(h), c, trace);
    MachinesAnswer(h);
    AckEnds(V.MachineOf(h), Wire(h), c, trace, msg);
  }

  /** A machine that makes the receiver's steps. */
  ghost predicate Answers(mach: V.SessionMachine, k: S.Scheme) {
    && (forall c, e {:trigger mach.may(c, e)} :: mach.may(c, e) == V.Serves(c, e))
    && (forall c, e {:trigger mach.step(c, e)} :: mach.step(c, e) == S.Step(k, c, e))
    && (forall c, e {:trigger mach.out(c, e)} :: mach.out(c, e) == S.React(k, c.s, c.d, e).out)
    && (forall e {:trigger mach.hears(e)} :: mach.hears(e) == V.HearingOf(e))
  }

  lemma MachinesAnswer(h: Hasher)
    ensures Answers(V.MachineOf(h), Wire(h))
  {
  }

  lemma {:induction false} AckEnds(mach: V.SessionMachine, k: S.Scheme, c: S.Config, trace: seq<S.Event>, msg: S.Msg)
    requires Answers(mach, k) && (forall e :: e in trace ==> !e.Begin?)
    requires P.IsAck(msg) && msg in Outs(mach, c, trace)
    ensures Fold(mach.step, c, trace).s == S.Returned(true)
    decreases |trace|
  {
    var n := |trace| - 1;
    var before, last := trace[..n], trace[n];
    var mid := Fold(mach.step, c, before);
    AckStep(k, mid, last, msg);
    assert mach.out(mid, last) == S.React(k, mid.s, mid.d, last).out && mach.step(mid, last) == S.Step(k, mid, last);
    if msg in Outs(mach, c, before) {
      AckEnds(mach, k, c, before, msg);
    }
    assert before + [last] == trace && [last][1..] == [];
    FoldAppend(mach.step, c, before, [last]);
    assert Fold(mach.step, mid, [last]) == mach.step(mid, last);
  }

  // ---------------------------------------------------------------------
  // Both programs.
  // ---------------------------------------------------------------------

  /** A run of the sender's program: what it was given, what it wrote, what it reported. */
  datatype SenderRun = SenderRun(log: C.Log, got: seq<byte>, wrote: seq<byte>, ok: bool)

  /** A run of the receiver's program, with the files before and after. */
  datatype ReceiverRun = ReceiverRun(trace: seq<S.Event>, sent: seq<F.Frame>, heard: nat,
                                     got: seq<byte>, wrote: seq<byte>,
                                     before: S.Disk, after: S.Disk, ok: bool)

  /** What the sender's program guarantees of its run. */
  ghost predicate SenderRan(h: Hasher, crc: F.Checksum, j: C.SendJob, s: SenderRun) {
    C.Closed(C.SenderOf(h, j), crc, F.Parse(F.ParserFor(crc, F.MAX_PAYLOAD), s.got).frames, [], s.log,
             P.CReturned(s.ok), s.wrote)
  }

  /** What the receiver's program guarantees of its run. */
  ghost predicate ReceiverRan(h: Hasher, crc: F.Checksum, r: ReceiverRun) {
    var c := S.Config(S.AwaitHello, r.before);
    && Explained(V.MachineOf(h), c, F.Parse(F.ParserFor(crc, F.MAX_PAYLOAD), r.got).frames, r.trace,
                 S.Config(S.Returned(r.ok), r.after), r.heard)
    && RepliedInPart(V.MachineOf(h), c, r.trace, r.sent, F.Encoder(crc), [], r.wrote)
  }

  /** The sender's program on a fresh connection, with what is in store for its steps. */
  method SendFile(h: Hasher, src: FileSource, cs: u32, path: seq<byte>, got: seq<byte>, fate: seq<C.ClientIo>)
    returns (ok: bool, wrote: seq<byte>, ghost s: SenderRun)
    requires S.Given(S.Job(src.file, cs, path))
    ensures SenderRan(h, F.HeaderCrc, S.Job(src.file, cs, path), s) && C.Takes(s.log.trace, fate)
    ensures s.got == got && s.wrote == wrote && s.ok == ok
  {
    var conn := new Connection(F.ParserFor(F.HeaderCrc, F.MAX_PAYLOAD), F.HeaderCrc, got);
    ghost var log;
    ok, log := C.Send(h, src, cs, path, conn, fate);
    wrote := conn.outgoing;
    s := SenderRun(log, got, wrote, ok);
  }

  /** The receiver's program on a fresh connection, with what is in store for its steps. */
  method ReceiveFile(h: Hasher, disk: DiskFiles, got: seq<byte>, fate: seq<Io>)
    returns (ok: bool, wrote: seq<byte>, ghost r: ReceiverRun)
    modifies disk
    ensures ReceiverRan(h, F.HeaderCrc, r) && V.Carries(r.trace, fate)
    ensures r.got == got && r.wrote == wrote && r.ok == ok && r.before == old(disk.View()) && r.after == disk.View()
  {
    var conn := new Connection(F.ParserFor(F.HeaderCrc, F.MAX_PAYLOAD), F.HeaderCrc, got);
    ParserLimited(F.HeaderCrc);
    ghost var trace, sent, n;
    ok, trace, sent, n := V.HandleSession(h, conn, disk, fate);
    wrote := conn.outgoing;
    r := ReceiverRun(trace, sent, n, got, wrote, old(disk.View()), disk.View(), ok);
  }

  /** Each side gets the first so many bytes that the other wrote. */
  predicate Connected(s: SenderRun, r: ReceiverRun) {
    r.got <= s.wrote && s.got <= r.wrote
  }

  /** The strings that the receiver hashes. */
  ghost function Hashed(h: Hasher, r: ReceiverRun): set<seq<byte>> {
    S.RunHashes(Wire(h), S.Config(S.AwaitHello, r.before), r.trace)
  }

  /** The delivery, if there was one, was checked to the end. */
  ghost predicate Checked(h: Hasher, r: ReceiverRun) {
    Uncropped(Wire(h), S.Config(S.AwaitHello, r.before), r.trace)
  }

  lemma NoBegin(h: Hasher, c: S.Config, trace: seq<S.Event>)
    requires Proper(V.MachineOf(h), c, trace)
    ensures forall e :: e in trace ==> !e.Begin?
  {
    var mach := V.MachineOf(h);
    forall e | e in trace ensures !e.Begin? {
      var i :| 0 <= i < |trace| && trace[i] == e;
      assert mach.may(Fold(mach.step, c, trace[..i]), trace[i]);
    }
  }

  /** The only manifest that arrives is what the sender made of its job. */
  lemma ManifestsArriveHonest(h: Hasher, crc: F.Checksum, j: C.SendJob, s: SenderRun, r: ReceiverRun)
    requires SenderRan(h, crc, j, s) && ReceiverRan(h, crc, r) && Connected(s, r)
    ensures HonestManifests(Wire(h), {j}, r.trace)
  {
    var sender, receiver := C.SenderOf(h, j), V.MachineOf(h);
    SenderSendsOwn(h, j, s.log.trace);
    forall e | e in r.trace && e.Got? && e.msg.MManifest? ensures e.msg.manifest == S.OfferOf(h, j) {
      assert receiver.hears(e) == Hears(e.msg);
      HeardWasSent(sender, P.CStart, s.log.trace, s.log.sent, crc, s.wrote, receiver, r.got, r.trace, e);
      OwnManifest(h, j, e.msg);
    }
  }

  lemma OwnManifest(h: Hasher, j: C.SendJob, msg: S.Msg)
    requires Own(C.PlanFor(h, j), msg) && msg.MManifest?
    ensures msg.manifest == S.OfferOf(h, j)
  {
  }

  /** A sender that reports success heard an ACK that the receiver sent. */
  lemma SuccessWasAcknowledged(h: Hasher, crc: F.Checksum, j: C.SendJob, s: SenderRun, r: ReceiverRun)
    requires SenderRan(h, crc, j, s) && ReceiverRan(h, crc, r) && Connected(s, r) && s.ok
    ensures exists msg :: P.IsAck(msg) && msg in Outs(V.MachineOf(h), S.Config(S.AwaitHello, r.before), r.trace)
  {
    var sender, receiver, c := C.SenderOf(h, j), V.MachineOf(h), S.Config(S.AwaitHello, r.before);
    SenderFollowsScript(h, j, s.log.trace);
    var msg, sendOk :| P.IsAck(msg) && C.Hearing(msg, sendOk) in s.log.trace;
    assert sender.hears(C.Hearing(msg, sendOk)) == Hears(msg);
    HeardWasSent(receiver, c, r.trace, r.sent, crc, r.wrote, sender, s.got, s.log.trace, C.Hearing(msg, sendOk));
  }

  lemma SuccessIsShared(h: Hasher, crc: F.Checksum, j: C.SendJob, s: SenderRun, r: ReceiverRun)
    requires SenderRan(h, crc, j, s) && ReceiverRan(h, crc, r) && Connected(s, r) && s.ok
    ensures r.ok
  {
    var c := S.Config(S.AwaitHello, r.before);
    SuccessWasAcknowledged(h, crc, j, s, r);
    NoBegin(h, c, r.trace);
    AckMeansSuccess(h, c, r.trace);
  }

  lemma ReceiverCorrect(h: Hasher, crc: F.Checksum, j: C.SendJob, s: SenderRun, r: ReceiverRun)
    requires SenderRan(h, crc, j, s) && ReceiverRan(h, crc, r) && Connected(s, r)
    requires S.CollisionFree(h, S.SenderHashes(j) + Hashed(h, r))
    ensures || r.after.dest == r.before.dest
            || (r.after.dest.Some? && Right(j, !Checked(h, r), r.after.dest.value))
            || (r.after.dest == None && Lossy(r.trace))
    ensures r.ok ==> r.after.dest.Some? && Right(j, !Checked(h, r), r.after.dest.value)
  {
    var c := S.Config(S.AwaitHello, r.before);
    ManifestsArriveHonest(h, crc, j, s, r);
    V.FollowingIsRunning(h, c, r.trace);
    NoWrongFile(Wire(h), {j}, c, r.trace, S.SenderHashes(j) + Hashed(h, r));
  }

  /**
   * One transfer, from the bytes on the two streams to the file, for whatever the sender was given. The
   * streams may stop anywhere, the receiver may start from any files, and files may fail. The destination
   * is left as it was, or holds the sender's file, or is gone because the final rename failed after it had
   * been removed. If the receiver reports success it holds the file, and if the sender reports success the
   * receiver does too. Only where the read-back broke off may bytes follow the file.
   */
  lemma TransferCorrect(h: Hasher, crc: F.Checksum, j: C.SendJob, s: SenderRun, r: ReceiverRun)
    requires SenderRan(h, crc, j, s) && ReceiverRan(h, crc, r) && Connected(s, r)
    requires S.CollisionFree(h, S.SenderHashes(j) + Hashed(h, r))
    ensures || r.after.dest == r.before.dest
            || (r.after.dest.Some? && Right(j, !Checked(h, r), r.after.dest.value))
            || (r.after.dest == None && Lossy(r.trace))
    ensures r.ok ==> r.after.dest.Some? && Right(j, !Checked(h, r), r.after.dest.value)
    ensures s.ok ==> r.ok
  {
    ReceiverCorrect(h, crc, j, s, r);
    if s.ok { SuccessIsShared(h, crc, j, s, r); }
  }

  /** And the receiver's sidecar tells the truth afterwards if it did before, whoever the peer was. */
  lemma SidecarStaysTrue(h: Hasher, crc: F.Checksum, j: C.HonestJob, r: ReceiverRun)
    requires ReceiverRan(h, crc, r) && S.CollisionFree(h, R.HonestHashes(Wire(h), j) + Hashed(h, r))
    requires R.DiskOk(Wire(h), j, r.before) && R.Unharmed(Wire(h), j, S.Config(S.AwaitHello, r.before), r.trace)
    ensures R.DiskOk(Wire(h), j, r.after)
  {
    var c := S.Config(S.AwaitHello, r.before);
    WireInjective(h);
    V.FollowingIsRunning(h, c, r.trace);
    R.ResumeInvariant(Wire(h), j, c, r.trace, R.HonestHashes(Wire(h), j) + Hashed(h, r));
  }
}
