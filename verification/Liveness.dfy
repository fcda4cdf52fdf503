/** If nothing interrupts the two programs, the transfer succeeds. */
module Liveness {
  import opened Bytes
  import opened Journal
  import opened Wiring
  import opened EndToEnd
  import opened Protocol
  import opened Recovery
  import F = Frames
  import Resume
  import S = Session
  import R = ResumeSafety
  import C = ClientSession
  import V = ServerSession

  // ---------------------------------------------------------------------
  // The sender, when every send gets out.
  // ---------------------------------------------------------------------

  predicate Able(e: C.ClientEvent) {
    e.Loses? || e.ok
  }

  /** Every message of the plan fits a frame. */
  ghost predicate Small(plan: Plan) {
    && plan.fits && PayloadSize(plan.manifest) <= F.MAX_PAYLOAD && PayloadSize(plan.finish) <= F.MAX_PAYLOAD
    && forall i: nat :: i < plan.count ==> PayloadSize(plan.chunk(i)) <= F.MAX_PAYLOAD
  }

  /** A machine that makes the sender's steps for the plan. */
  ghost predicate Plays(mach: C.SenderMachine, plan: Plan) {
    && (forall c, e {:trigger mach.may(c, e)} :: mach.may(c, e) == C.Moves(c, e))
    && (forall c, e {:trigger mach.step(c, e)} :: mach.step(c, e) == C.ClientReact(plan, c, e).next)
    && (forall c, e {:trigger mach.out(c, e)} :: mach.out(c, e) == C.ClientReact(plan, c, e).out)
    && (forall e {:trigger mach.hears(e)} :: mach.hears(e) == C.ClientHears(e))
  }

  /** The sender is in state c with these messages to come, and its run goes on along trace to its end. */
  ghost predicate Talking(mach: C.SenderMachine, plan: Plan, msgs: seq<S.Msg>, c: ClientState,
                          trace: seq<C.ClientEvent>, ok: bool) {
    && Plays(mach, plan) && Small(plan) && (forall e :: e in trace ==> Able(e))
    && Lives(mach, msgs, c, trace, CReturned(ok))
  }

  /** What its next event must be. */
  lemma NextEvent(mach: C.SenderMachine, plan: Plan, msgs: seq<S.Msg>, c: ClientState,
                  trace: seq<C.ClientEvent>, ok: bool)
    requires Talking(mach, plan, msgs, c, trace, ok) && !c.CReturned?
    ensures trace != [] && C.Moves(c, trace[0])
    ensures trace[0] == if Sends(c) then C.Acts(true) else if msgs == [] then C.Loses else C.Hearing(msgs[0], true)
    ensures var r := C.ClientReact(plan, c, trace[0]);
            && Talking(mach, plan, if trace[0].Hearing? then msgs[1..] else msgs, r.next, trace[1..], ok)
            && Said(mach, c, trace) == r.out + Said(mach, r.next, trace[1..])
  {
    var e := trace[0];
    assert e in trace && forall x :: x in trace[1..] ==> x in trace;
    assert mach.may(c, e) == C.Moves(c, e) && mach.hears(e) == C.ClientHears(e);
    assert mach.step(c, e) == C.ClientReact(plan, c, e).next && mach.out(c, e) == C.ClientReact(plan, c, e).out;
  }

  /** It begins with HELLO. */
  lemma Starts(mach: C.SenderMachine, plan: Plan, msgs: seq<S.Msg>, trace: seq<C.ClientEvent>, ok: bool)
    requires Talking(mach, plan, msgs, CStart, trace, ok)
    ensures trace != [] && Talking(mach, plan, msgs, CAwaitHello, trace[1..], ok)
    ensures Said(mach, CStart, trace) ==
            [S.MHello(S.OWN_HELLO)] + Said(mach, CAwaitHello, trace[1..])
  {
    NextEvent(mach, plan, msgs, CStart, trace, ok);
  }

  /** It answers the peer's HELLO with its manifest. */
  lemma Offers(mach: C.SenderMachine, plan: Plan, msgs: seq<S.Msg>, trace: seq<C.ClientEvent>, ok: bool)
    requires Talking(mach, plan, msgs, CAwaitHello, trace, ok)
    requires msgs != [] && msgs[0] == S.MHello(S.OWN_HELLO)
    ensures trace != [] && Talking(mach, plan, msgs[1..], CAwaitReq, trace[1..], ok)
    ensures Said(mach, CAwaitHello, trace) == [plan.manifest] + Said(mach, CAwaitReq, trace[1..])
  {
    NextEvent(mach, plan, msgs, CAwaitHello, trace, ok);
  }

  lemma Obeys(mach: C.SenderMachine, plan: Plan, msgs: seq<S.Msg>, trace: seq<C.ClientEvent>, ok: bool)
    requires Talking(mach, plan, msgs, CAwaitReq, trace, ok) && msgs != [] && msgs[0].MReqChunks?
    ensures trace != [] && Talking(mach, plan, msgs[1..], CSending(msgs[0].indices), trace[1..], ok)
    ensures Said(mach, CAwaitReq, trace) == Said(mach, CSending(msgs[0].indices), trace[1..])
  {
    NextEvent(mach, plan, msgs, CAwaitReq, trace, ok);
    assert [] + Said(mach, CSending(msgs[0].indices), trace[1..]) ==
           Said(mach, CSending(msgs[0].indices), trace[1..]);
  }

  /** It sends what was asked for, and COMPLETE. */
  lemma {:induction false} SendsAsked(mach: C.SenderMachine, plan: Plan, msgs: seq<S.Msg>, ix: seq<nat>,
                                  trace: seq<C.ClientEvent>, ok: bool)
    returns (rest: seq<C.ClientEvent>)
    requires Talking(mach, plan, msgs, CSending(ix), trace, ok) && InRange(plan, ix)
    ensures Talking(mach, plan, msgs, CAwaitAck, rest, ok)
    ensures Said(mach, CSending(ix), trace) ==
            Planned(plan, ix) + [plan.finish] + Said(mach, CAwaitAck, rest)
    decreases |ix|
  {
    NextEvent(mach, plan, msgs, CSending(ix), trace, ok);
    var tail := trace[1..];
    if ix == [] {
      rest := tail;
      assert Planned(plan, ix) == [];
    } else {
      assert ix[0] in ix && forall i :: i in ix[1..] ==> i in ix;
      rest := SendsAsked(mach, plan, msgs, ix[1..], tail, ok);
      assert [plan.chunk(ix[0])] + Planned(plan, ix[1..]) == Planned(plan, ix);
    }
  }

  /** After that it sends no more, and an ACK is success. */
  lemma Concludes(mach: C.SenderMachine, plan: Plan, msgs: seq<S.Msg>, trace: seq<C.ClientEvent>, ok: bool)
    requires Talking(mach, plan, msgs, CAwaitAck, trace, ok)
    ensures Said(mach, CAwaitAck, trace) == []
    ensures msgs != [] && IsAck(msgs[0]) ==> ok
  {
    NextEvent(mach, plan, msgs, CAwaitAck, trace, ok);
  }

  // ---------------------------------------------------------------------
  // The receiver, when every reply gets out and no file fails.
  // ---------------------------------------------------------------------

  predicate Willing(e: S.Event) {
    e.Got? ==> e.env.sendOk && S.Smooth(e.env)
  }

  ghost predicate Listening(mach: V.SessionMachine, k: S.Scheme, msgs: seq<S.Msg>, c: S.Config,
                            trace: seq<S.Event>, end: S.Config) {
    && Answers(mach, k) && (forall e :: e in trace ==> Willing(e)) && end.s.Returned?
    && Lives(mach, msgs, c, trace, end)
  }

  /** The next message is what the next event is about. */
  lemma HearsNext(mach: V.SessionMachine, k: S.Scheme, msgs: seq<S.Msg>, c: S.Config,
                  trace: seq<S.Event>, end: S.Config)
    requires Listening(mach, k, msgs, c, trace, end) && !c.s.Returned? && msgs != []
    ensures trace != [] && trace[0].Got? && trace[0].msg == msgs[0] && Willing(trace[0])
    ensures Listening(mach, k, msgs[1..], S.Step(k, c, trace[0]), trace[1..], end)
    ensures Said(mach, c, trace) ==
            S.React(k, c.s, c.d, trace[0]).out + Said(mach, S.Step(k, c, trace[0]), trace[1..])
  {
    assert mach.may(c, trace[0]) && mach.step(c, trace[0]) == S.Step(k, c, trace[0]);
    assert mach.hears(trace[0]) == V.HearingOf(trace[0]);
    assert mach.out(c, trace[0]) == S.React(k, c.s, c.d, trace[0]).out;
  }

  lemma Greets(mach: V.SessionMachine, k: S.Scheme, msgs: seq<S.Msg>, d: S.Disk, trace: seq<S.Event>, end: S.Config)
    requires Listening(mach, k, msgs, S.Config(S.AwaitHello, d), trace, end)
    requires msgs != [] && msgs[0] == S.MHello(S.OWN_HELLO)
    ensures trace != [] && Listening(mach, k, msgs[1..], S.Config(S.AwaitManifest, d), trace[1..], end)
    ensures Said(mach, S.Config(S.AwaitHello, d), trace) ==
            [S.MHello(S.OWN_HELLO)] + Said(mach, S.Config(S.AwaitManifest, d), trace[1..])
  {
    HearsNext(mach, k, msgs, S.Config(S.AwaitHello, d), trace, end);
    assert S.ApplyAll(d, []) == d;
  }

  /** What the receiver keeps while it takes the chunks of an honest job. */
  ghost predicate Held(k: S.Scheme, j: S.Job, c: S.Config)
    requires S.Honest(j)
  {
    c.s.Receiving? && RecvOk(k, j, c.s.p, c.d) && R.DiskOk(k, j, c.d) && Known(k, j, c.d) <= Range(S.Count(j))
  }

  lemma Asks(mach: V.SessionMachine, k: S.Scheme, j: S.Job, msgs: seq<S.Msg>, d: S.Disk,
             trace: seq<S.Event>, end: S.Config)
    returns (c: S.Config)
    requires Sendable(j) && R.DiskOk(k, j, d) && Known(k, j, d) <= Range(S.Count(j))
    requires Listening(mach, k, msgs, S.Config(S.AwaitManifest, d), trace, end)
    requires msgs != [] && msgs[0] == S.MManifest(S.ManifestOf(k, j))
    ensures Held(k, j, c) && trace != [] && Listening(mach, k, msgs[1..], c, trace[1..], end)
    ensures Said(mach, S.Config(S.AwaitManifest, d), trace) ==
            [S.MReqChunks(Wanted(j, c.s.p.have))] + Said(mach, c, trace[1..])
  {
    HearsNext(mach, k, msgs, S.Config(S.AwaitManifest, d), trace, end);
    ManifestEffect(k, j, d, trace[0].env);
    c := S.Step(k, S.Config(S.AwaitManifest, d), trace[0]);
  }

  /** All that was asked for and COMPLETE: the file is delivered and the receiver says so. */
  lemma {:induction false} Takes(mach: V.SessionMachine, k: S.Scheme, j: S.Job, msgs: seq<S.Msg>, c: S.Config,
                                 trace: seq<S.Event>, end: S.Config)
    requires Sendable(j) && Held(k, j, c) && Listening(mach, k, msgs, c, trace, end)
    requires msgs == Expected(k, j, c.s)
    ensures end == S.Config(S.Returned(true), DeliveredDisk(j))
    ensures var out := Said(mach, c, trace); |out| == 1 && IsAck(out[0])
    decreases |Wanted(j, c.s.p.have)|
  {
    HearsNext(mach, k, msgs, c, trace, end);
    var p, e, next, tail := c.s.p, trace[0], S.Step(k, c, trace[0]), trace[1..];
    if tail != [] { assert mach.may(next, tail[0]) == V.Serves(next, tail[0]); }
    if Wanted(j, p.have) == [] {
      CompleteEffect(k, j, p, c.d, e.env);
    } else {
      ChunkEffect(k, j, p, c.d, e.env);
      ExpectedStep(k, j, p, next.s.p);
      Takes(mach, k, j, msgs[1..], next, tail, end);
      assert [] + Said(mach, next, tail) == Said(mach, next, tail);
    }
  }

  // ---------------------------------------------------------------------
  // Both together.
  // ---------------------------------------------------------------------

  lemma PlanSmall(h: Hasher, j: C.HonestJob)
    requires Sendable(j)
    ensures Small(C.PlanFor(h, j))
  {
    C.HonestPlan(h, j);
    forall i: nat | i < S.Count(j) ensures PayloadSize(ChunkOf(Wire(h), j, i)) <= F.MAX_PAYLOAD {
      SliceInRange(Wire(h), j, i);
    }
  }

  /** Everything that is written arrives, every send gets out, and no file fails; saves may. */
  ghost predicate Uninterrupted(s: SenderRun, r: ReceiverRun) {
    && r.got == s.wrote && s.got == r.wrote
    && (forall e :: e in s.log.trace ==> Able(e)) && (forall e :: e in r.trace ==> Willing(e))
  }

  /** The sender's run on the receiver's messages, read from the front. */
  lemma SenderLives(h: Hasher, crc: F.Checksum, j: C.HonestJob, s: SenderRun, r: ReceiverRun)
    requires Sendable(j) && SenderRan(h, crc, j, s) && ReceiverRan(h, crc, r) && Uninterrupted(s, r)
    ensures var replies := Said(V.MachineOf(h), S.Config(S.AwaitHello, r.before), r.trace);
            Talking(C.SenderOf(h, j), C.PlanFor(h, j), replies, CStart, s.log.trace, s.ok)
  {
    var c := S.Config(S.AwaitHello, r.before);
    SentArrives(V.MachineOf(h), c, r.trace, r.sent, crc, r.wrote, s.got);
    SaidIsOuts(V.MachineOf(h), c, r.trace);
    var frames, replies := F.Parse(F.ParserFor(crc, F.MAX_PAYLOAD), s.got).frames, Outs(V.MachineOf(h), c, r.trace);
    assert replies[..|frames|] == replies;
    ExplainedLives(C.SenderOf(h, j), CStart, frames, replies, s.log.trace, CReturned(s.ok), s.log.heard);
    PlanSmall(h, j);
  }

  /** The receiver's run on the sender's messages, read from the front. */
  lemma ReceiverLives(h: Hasher, crc: F.Checksum, j: C.HonestJob, s: SenderRun, r: ReceiverRun)
    requires SenderRan(h, crc, j, s) && ReceiverRan(h, crc, r) && Uninterrupted(s, r)
    ensures Listening(V.MachineOf(h), Wire(h), Said(C.SenderOf(h, j), CStart, s.log.trace),
                      S.Config(S.AwaitHello, r.before), r.trace, S.Config(S.Returned(r.ok), r.after))
  {
    var c, sender := S.Config(S.AwaitHello, r.before), C.SenderOf(h, j);
    SentArrives(sender, CStart, s.log.trace, s.log.sent, crc, s.wrote, r.got);
    SaidIsOuts(sender, CStart, s.log.trace);
    var frames, msgs := F.Parse(F.ParserFor(crc, F.MAX_PAYLOAD), r.got).frames, Outs(sender, CStart, s.log.trace);
    assert msgs[..|frames|] == msgs;
    ExplainedLives(V.MachineOf(h), c, frames, msgs, r.trace, S.Config(S.Returned(r.ok), r.after), r.heard);
  }

  /** The plan is that of the honest job. */
  ghost predicate PlanFits(plan: Plan, k: S.Scheme, j: S.Job)
    requires S.Honest(j)
  {
    && plan.manifest == S.MManifest(S.ManifestOf(k, j)) && plan.count == S.Count(j) && plan.finish == Finish(k, j)
    && forall i: nat :: plan.chunk(i) == ChunkOf(k, j, i)
  }

  /** Each side hears what the other says. */
  ghost predicate Conversing(sender: C.SenderMachine, plan: Plan, trace: seq<C.ClientEvent>, ok: bool,
                             receiver: V.SessionMachine, k: S.Scheme, d: S.Disk, events: seq<S.Event>, end: S.Config) {
    && Talking(sender, plan, Said(receiver, S.Config(S.AwaitHello, d), events), CStart, trace, ok)
    && Listening(receiver, k, Said(sender, CStart, trace), S.Config(S.AwaitHello, d), events, end)
  }

  /** HELLO both ways, the manifest, and the request for what is missing. */
  lemma OpeningTogether(sender: C.SenderMachine, plan: Plan, trace: seq<C.ClientEvent>, ok: bool,
                        receiver: V.SessionMachine, k: S.Scheme, j: S.Job, d: S.Disk,
                        events: seq<S.Event>, end: S.Config)
    returns (c: S.Config, to: seq<C.ClientEvent>, on: seq<S.Event>)
    requires Sendable(j) && PlanFits(plan, k, j) && R.DiskOk(k, j, d) && Known(k, j, d) <= Range(S.Count(j))
    requires Conversing(sender, plan, trace, ok, receiver, k, d, events, end)
    ensures Held(k, j, c)
    ensures var ix := Wanted(j, c.s.p.have);
            && Talking(sender, plan, Said(receiver, c, on), CSending(ix), to, ok)
            && Listening(receiver, k, Said(sender, CSending(ix), to), c, on, end)
  {
    var c0 := S.Config(S.AwaitHello, d);
    var msgs, replies := Said(sender, CStart, trace), Said(receiver, c0, events);
    Starts(sender, plan, replies, trace, ok);
    Greets(receiver, k, msgs, d, events, end);
    var t1, e1 := trace[1..], events[1..];
    assert msgs[1..] == Said(sender, CAwaitHello, t1);
    assert replies[1..] == Said(receiver, S.Config(S.AwaitManifest, d), e1);
    Offers(sender, plan, replies, t1, ok);
    c := Asks(receiver, k, j, msgs[1..], d, e1, end);
    var t2 := t1[1..];
    on := e1[1..];
    assert msgs[1..][1..] == Said(sender, CAwaitReq, t2) && replies[1..][1..] == Said(receiver, c, on);
    Obeys(sender, plan, replies[1..], t2, ok);
    to := t2[1..];
  }

  lemma Together(sender: C.SenderMachine, plan: Plan, trace: seq<C.ClientEvent>, ok: bool, receiver: V.SessionMachine,
                 k: S.Scheme, j: S.Job, d: S.Disk, events: seq<S.Event>, end: S.Config)
    requires Sendable(j) && PlanFits(plan, k, j) && R.DiskOk(k, j, d) && Known(k, j, d) <= Range(S.Count(j))
    requires Conversing(sender, plan, trace, ok, receiver, k, d, events, end)
    ensures ok && end == S.Config(S.Returned(true), DeliveredDisk(j))
  {
    var c, to, on := OpeningTogether(sender, plan, trace, ok, receiver, k, j, d, events, end);
    var ix := Wanted(j, c.s.p.have);
    var msgs, replies := Said(sender, CSending(ix), to), Said(receiver, c, on);
    assert InRange(plan, ix) by { Resume.MissingExact(c.s.p.have, S.Count(j)); }
    var rest := SendsAsked(sender, plan, replies, ix, to, ok);
    Concludes(sender, plan, replies, rest, ok);
    assert msgs == Expected(k, j, c.s) by {
      assert Planned(plan, ix) == ChunksOf(k, j, ix);
      assert msgs == Planned(plan, ix) + [plan.finish];
    }
    Takes(receiver, k, j, msgs, c, on, end);
  }

  /**
   * An uninterrupted transfer succeeds: two runs of the programs that hear all that the other wrote, with
   * every send getting out and no file failing, end with success on both sides, the file at the
   * destination and nothing else left, whatever was there before as long as the sidecar told the truth.
   */
  lemma TransferSucceeds(h: Hasher, crc: F.Checksum, j: C.HonestJob, s: SenderRun, r: ReceiverRun)
    requires Sendable(j) && SenderRan(h, crc, j, s) && ReceiverRan(h, crc, r) && Uninterrupted(s, r)
    requires R.DiskOk(Wire(h), j, r.before) && Known(Wire(h), j, r.before) <= Range(S.Count(j))
    ensures s.ok && r.ok && r.after == DeliveredDisk(j)
  {
    C.HonestPlan(h, j);
    SenderLives(h, crc, j, s, r);
    ReceiverLives(h, crc, j, s, r);
    assert PlanFits(C.PlanFor(h, j), Wire(h), j);
    Together(C.SenderOf(h, j), C.PlanFor(h, j), s.log.trace, s.ok,
             V.MachineOf(h), Wire(h), j, r.before, r.trace, S.Config(S.Returned(r.ok), r.after));
  }

  // ---------------------------------------------------------------------
  // From what is in store.
  // ---------------------------------------------------------------------

  /** No read and no send of the sender fails. */
  ghost predicate Kind(fate: seq<C.ClientIo>) {
    forall io :: io in fate ==> io.ok
  }

  /** No reply and no file of the receiver fails; saves may. */
  ghost predicate Benign(fate: seq<Io>) {
    forall io :: io in fate ==> io.env.sendOk && S.Smooth(io.env)
  }

  lemma KindIsAble(trace: seq<C.ClientEvent>, fate: seq<C.ClientIo>)
    requires C.Takes(trace, fate) && Kind(fate)
    ensures forall e :: e in trace ==> Able(e)
  {
    forall e | e in trace ensures Able(e) {
      var i :| 0 <= i < |trace| && trace[i] == e;
      C.TakesEach(trace, fate, i);
      if i < |fate| { assert fate[i] in fate; }
    }
  }

  lemma BenignIsWilling(trace: seq<S.Event>, fate: seq<Io>)
    requires V.Carries(trace, fate) && Benign(fate)
    ensures forall e :: e in trace ==> Willing(e)
  {
    forall e | e in trace ensures Willing(e) {
      var i :| 0 <= i < |trace| && trace[i] == e;
      V.CarriesEach(trace, fate, i);
      if i < |fate| { assert fate[i] in fate; }
    }
  }

  /**
   * The same for the programs as they are called: with nothing bad in store for either, and each reading
   * all that the other wrote, both report success and the file is at the destination. A program that gave
   * up on its own, skipped a removal or stopped a read early would not.
   */
  lemma ProgramsSucceed(h: Hasher, crc: F.Checksum, j: C.HonestJob, s: SenderRun, sent: seq<C.ClientIo>,
                        r: ReceiverRun, received: seq<Io>)
    requires Sendable(j) && SenderRan(h, crc, j, s) && ReceiverRan(h, crc, r)
    requires C.Takes(s.log.trace, sent) && Kind(sent) && V.Carries(r.trace, received) && Benign(received)
    requires r.got == s.wrote && s.got == r.wrote
    requires R.DiskOk(Wire(h), j, r.before) && Known(Wire(h), j, r.before) <= Range(S.Count(j))
    ensures s.ok && r.ok && r.after == DeliveredDisk(j)
  {
    KindIsAble(s.log.trace, sent);
    BenignIsWilling(r.trace, received);
    TransferSucceeds(h, crc, j, s, r);
  }

  // ---------------------------------------------------------------------
  // After any chain of sessions.
  // ---------------------------------------------------------------------

  /** Runs of the receiver's program one after the other over the same files, from first to last. */
  ghost predicate Chained(h: Hasher, crc: F.Checksum, first: S.Disk, runs: seq<ReceiverRun>, last: S.Disk)
    decreases |runs|
  {
    if runs == [] then first == last
    else ReceiverRan(h, crc, runs[0]) && runs[0].before == first && Chained(h, crc, runs[0].after, runs[1..], last)
  }

  /** No event of any of them harms a claim of the job. */
  ghost predicate AllUnharmed(h: Hasher, j: C.HonestJob, runs: seq<ReceiverRun>) {
    forall r :: r in runs ==> R.Unharmed(Wire(h), j, S.Config(S.AwaitHello, r.before), r.trace)
  }

  ghost function ChainHashes(h: Hasher, runs: seq<ReceiverRun>): set<seq<byte>> {
    if runs == [] then {} else Hashed(h, runs[0]) + ChainHashes(h, runs[1..])
  }

  /** The sidecar on disk tells the truth about the job and claims no chunk beyond its count. */
  ghost predicate Truthful(h: Hasher, j: C.HonestJob, d: S.Disk) {
    R.DiskOk(Wire(h), j, d) && BitsBelow(S.Config(S.AwaitHello, d))
  }

  lemma RunTruthful(h: Hasher, crc: F.Checksum, j: C.HonestJob, r: ReceiverRun, seen: set<seq<byte>>)
    requires ReceiverRan(h, crc, r) && R.Unharmed(Wire(h), j, S.Config(S.AwaitHello, r.before), r.trace)
    requires R.HonestHashes(Wire(h), j) + Hashed(h, r) <= seen && S.CollisionFree(h, seen)
    requires Truthful(h, j, r.before)
    ensures Truthful(h, j, r.after)
  {
    var c := S.Config(S.AwaitHello, r.before);
    SidecarStaysTrue(h, crc, j, r);
    V.FollowingIsRunning(h, c, r.trace);
    RunBitsBelow(Wire(h), c, r.trace);
  }

  lemma {:induction false} ChainTruthful(h: Hasher, crc: F.Checksum, j: C.HonestJob, first: S.Disk,
                                         runs: seq<ReceiverRun>, last: S.Disk, seen: set<seq<byte>>)
    requires Chained(h, crc, first, runs, last) && AllUnharmed(h, j, runs) && Truthful(h, j, first)
    requires R.HonestHashes(Wire(h), j) + ChainHashes(h, runs) <= seen && S.CollisionFree(h, seen)
    ensures Truthful(h, j, last)
    decreases |runs|
  {
    if runs != [] {
      assert runs[0] in runs && forall r :: r in runs[1..] ==> r in runs;
      RunTruthful(h, crc, j, runs[0], seen);
      ChainTruthful(h, crc, j, runs[0].after, runs[1..], last, seen);
    }
  }

  /**
   * The programs recover: after any chain of runs of the receiver's program over the same files, whoever
   * the peers were, wherever the streams stopped and whatever failed, as long as no event harmed the job's
   * claims, the next uninterrupted transfer succeeds.
   */
  lemma ProgramsRecover(h: Hasher, crc: F.Checksum, j: C.HonestJob, first: S.Disk, runs: seq<ReceiverRun>,
                        s: SenderRun, r: ReceiverRun)
    requires Sendable(j) && Truthful(h, j, first)
    requires Chained(h, crc, first, runs, r.before) && AllUnharmed(h, j, runs)
    requires S.CollisionFree(h, R.HonestHashes(Wire(h), j) + ChainHashes(h, runs))
    requires SenderRan(h, crc, j, s) && ReceiverRan(h, crc, r) && Uninterrupted(s, r)
    ensures s.ok && r.ok && r.after == DeliveredDisk(j)
  {
    ChainTruthful(h, crc, j, first, runs, r.before, R.HonestHashes(Wire(h), j) + ChainHashes(h, runs));
    TransferSucceeds(h, crc, j, s, r);
  }
}
