/**
 * Sender and receiver composed: two FIFO channels, connections that may be cut anywhere, and any
 * number of sessions over the same files, all for one honest job. Saves of the sidecar may fail; its
 * removal, the partial file and the final rename do not.
 */
module Protocol {
  import opened Bytes
  import opened Messages
  import opened Chunks
  import opened Resume
  import opened Session
  import opened Delivery
  import opened ResumeSafety
  import F = Frames

  // ---------------------------------------------------------------------
  // The sender.
  // ---------------------------------------------------------------------

  datatype ClientState =
    | CStart
    | CAwaitHello
    | CAwaitReq
    | CSending(rest: seq<nat>)
    | CAwaitAck
    | CReturned(ok: bool)

  function PayloadSize(msg: Msg): nat {
    match msg
    case MHello(_) => 9
    case MManifest(m) => 50 + |m.path| + 32 * |m.chunkHashes|
    case MReqChunks(ix) => 4 + 4 * |ix|
    case MChunk(c) => 36 + |c.data|
    case MComplete(_) => 33
    case MAck(_) => 4
    case _ => 4
  }

  /** What a sender step does: the next state, and the message that goes out with it. */
  datatype ClientReaction = ClientReaction(next: ClientState, out: seq<Msg>)

  /** send_frame refuses oversized payloads and reports stream errors; the sender then gives up. */
  function Transmit(msg: Msg, next: ClientState, sendOk: bool): ClientReaction {
    if sendOk && PayloadSize(msg) <= F.MAX_PAYLOAD then ClientReaction(next, [msg])
    else ClientReaction(CReturned(false), [])
  }

  function ChunkOf(k: Scheme, j: Job, i: nat): Msg {
    MChunk(ChunkMsg(Wrap32(i), k.hash(Slice(j.file, j.chunkSize, i)), Slice(j.file, j.chunkSize, i)))
  }

  function Finish(k: Scheme, j: Job): Msg {
    MComplete(CompleteMsg(k.hash(j.file), 0))
  }

  predicate Sends(c: ClientState) {
    c.CStart? || c.CSending?
  }

  /**
   * What a sender has to send: its manifest as it reads on the wire, whether that fits a frame, its chunks,
   * and its last message.
   */
  datatype Plan = Plan(manifest: Msg, fits: bool, count: nat, chunk: nat -> Msg, finish: Msg)

  function PlanOf(k: Scheme, j: Job): Plan
    requires Honest(j)
  {
    var manifest := MManifest(ManifestOf(k, j));
    Plan(manifest, PayloadSize(manifest) <= F.MAX_PAYLOAD, Count(j), (i: nat) => ChunkOf(k, j, i), Finish(k, j))
  }

  function ClientSend(plan: Plan, c: ClientState, sendOk: bool): ClientReaction
    requires Sends(c)
  {
    if c.CStart? then Transmit(MHello(OWN_HELLO), CAwaitHello, sendOk)
    else if c.rest == [] then Transmit(plan.finish, CAwaitAck, sendOk)
    else if c.rest[0] >= plan.count then ClientReaction(CReturned(false), [])
    else Transmit(plan.chunk(c.rest[0]), CSending(c.rest[1..]), sendOk)
  }

  /** The sender looks at the type of the last frame and not at its payload. */
  predicate IsAck(msg: Msg) {
    msg.MAck? || msg == MMalformed(F.Ack)
  }

  predicate Receives(c: ClientState) {
    c.CAwaitHello? || c.CAwaitReq? || c.CAwaitAck?
  }

  function ClientRecv(plan: Plan, c: ClientState, msg: Msg, sendOk: bool): ClientReaction
    requires Receives(c)
  {
    match c
    case CAwaitHello =>
      if msg.MHello? && msg.hello.version == PROTOCOL_VERSION
      then Transmit(plan.manifest, CAwaitReq, sendOk && plan.fits)
      else ClientReaction(CReturned(false), [])
    case CAwaitReq =>
      ClientReaction(if msg.MReqChunks? then CSending(msg.indices) else CReturned(false), [])
    case CAwaitAck =>
      ClientReaction(CReturned(IsAck(msg)), [])
  }

  // ---------------------------------------------------------------------
  // The composed system.
  // ---------------------------------------------------------------------

  /**
   * log lists the chunks accepted since the last delivery, over all sessions; clean says that every save
   * since then succeeded.
   */
  datatype World = World(client: ClientState, server: ServerState, disk: Disk, toServer: seq<Msg>, toClient: seq<Msg>,
                         cut: bool, delivered: bool, log: seq<nat>, clean: bool)

  datatype Move =
    | ClientSends(ok: bool)
    | ClientReceives(ok: bool)
    | ServerReceives(ok: bool, save: SaveOutcome)
    | CutConnection(keepToServer: nat, keepToClient: nat)
    | Restart

  /** A send can fail only once the connection is cut or the peer is gone. */
  predicate Enabled(w: World, mv: Move) {
    match mv
    case ClientSends(ok) => Sends(w.client) && (ok || w.cut || w.server.Returned?)
    case ClientReceives(ok) =>
      Receives(w.client) && (w.toClient != [] || w.cut || w.server.Returned?) && (ok || w.cut || w.server.Returned?)
    case ServerReceives(ok, _) =>
      !w.server.Returned? && (w.toServer != [] || w.cut || w.client.CReturned?) && (ok || w.cut || w.client.CReturned?)
    case CutConnection(a, b) => !w.cut && a <= |w.toServer| && b <= |w.toClient|
    case Restart => w.server.Returned? && w.client.CReturned?
  }

  function AfterClient(w: World, r: ClientReaction, toClient: seq<Msg>): World {
    w.(client := r.next, toClient := toClient, toServer := if w.cut then w.toServer else w.toServer + r.out)
  }

  function ServerEvent(w: World, ok: bool, save: SaveOutcome): Event {
    if w.toServer == [] then Cut else Got(w.toServer[0], Saving(ok, save))
  }

  function Accepted(s: ServerState, e: Event, next: ServerState): seq<nat> {
    if s.Receiving? && e.Got? && e.msg.MChunk? && next.Receiving? then [e.msg.chunk.index] else []
  }

  function AfterServer(k: Scheme, w: World, ok: bool, save: SaveOutcome): World {
    var e := ServerEvent(w, ok, save);
    var r := React(k, w.server, w.disk, e);
    w.(server := r.next,
       disk := ApplyAll(w.disk, r.ops),
       toServer := if w.toServer == [] then [] else w.toServer[1..],
       toClient := if w.cut then w.toClient else w.toClient + r.out,
       delivered := w.delivered || Deliver in r.ops,
       log := w.log + Accepted(w.server, e, r.next),
       clean := w.clean && save == Saved)
  }

  function Next(k: Scheme, j: Job, w: World, mv: Move): World
    requires Honest(j) && Enabled(w, mv)
  {
    match mv
    case ClientSends(ok) => AfterClient(w, ClientSend(PlanOf(k, j), w.client, ok), w.toClient)
    case ClientReceives(ok) =>
      if w.toClient == [] then w.(client := CReturned(false))
      else AfterClient(w, ClientRecv(PlanOf(k, j), w.client, w.toClient[0], ok), w.toClient[1..])
    case ServerReceives(ok, save) => AfterServer(k, w, ok, save)
    case CutConnection(a, b) => w.(cut := true, toServer := w.toServer[..a], toClient := w.toClient[..b])
    case Restart =>
      World(CStart, AwaitHello, w.disk, [], [], false, false, if w.delivered then [] else w.log, w.delivered || w.clean)
  }

  // ---------------------------------------------------------------------
  // The invariant.
  // ---------------------------------------------------------------------

  /** An honest job whose frames fit the 64 MiB limit. */
  predicate Sendable(j: Job) {
    && Honest(j)
    && 36 + j.chunkSize <= F.MAX_PAYLOAD
    && 50 + |j.path| + 32 * Count(j) <= F.MAX_PAYLOAD
  }

  /** The chunks that the files on disk already account for. */
  function Known(k: Scheme, j: Job, d: Disk): set<nat>
    requires Honest(j)
  {
    if Matches(k, ManifestOf(k, j), d.sidecar) then d.sidecar.have else {}
  }

  function Range(n: nat): (s: set<nat>)
    ensures forall i :: i in s <==> 0 <= i < n
  {
    if n == 0 then {} else Range(n - 1) + {n - 1}
  }

  function SetOf(log: seq<nat>): set<nat> {
    set i | i in log
  }

  ghost predicate NoRepeats(log: seq<nat>) {
    forall a, b :: 0 <= a < b < |log| ==> log[a] != log[b]
  }

  /** A receiving session of the job: true bits, and in order unless resumed. */
  ghost predicate RecvOk(k: Scheme, j: Job, p: Progress, d: Disk)
    requires Honest(j)
  {
    && p.m == ManifestOf(k, j)
    && GoodBits(j, d.partial, p.have) && p.have <= Range(Count(j))
    && p.inOrder == !p.resume
    && (p.inOrder ==> InOrder(j, p, d.partial.value) && p.have == Range(p.next))
  }

  function ChunksOf(k: Scheme, j: Job, ix: seq<nat>): (s: seq<Msg>)
    ensures |s| == |ix|
    ensures forall a :: 0 <= a < |ix| ==> s[a] == ChunkOf(k, j, ix[a])
  {
    seq(|ix|, a requires 0 <= a < |ix| => ChunkOf(k, j, ix[a]))
  }

  function Wanted(j: Job, have: set<nat>): (ix: seq<nat>)
    requires Honest(j)
  {
    Missing(have, Count(j))
  }

  /** What the receiver can still get from an honest sender in this session. */
  function Expected(k: Scheme, j: Job, s: ServerState): seq<Msg>
    requires Honest(j)
  {
    match s
    case AwaitHello => [MHello(OWN_HELLO)]
    case AwaitManifest => [MManifest(ManifestOf(k, j))]
    case Receiving(p) => ChunksOf(k, j, Wanted(j, p.have)) + [Finish(k, j)]
    case Returned(_) => []
  }

  predicate HasAck(toClient: seq<Msg>) {
    exists a :: 0 <= a < |toClient| && IsAck(toClient[a])
  }

  function DeliveredDisk(j: Job): Disk {
    Disk(Some(j.file), None, Absent)
  }

  /** With every save successful: what is persisted is what was accepted, once each. */
  ghost predicate Accounted(k: Scheme, j: Job, w: World)
    requires Honest(j)
  {
    && (w.server.Receiving? ==> Known(k, j, w.disk) == w.server.p.have)
    && NoRepeats(w.log)
    && SetOf(w.log) == (if w.delivered then Range(Count(j)) else Known(k, j, w.disk))
  }

  /** Holds in every reachable state, cut or not. */
  ghost predicate Core(k: Scheme, j: Job, w: World)
    requires Honest(j)
  {
    && DiskOk(k, j, w.disk) && Known(k, j, w.disk) <= Range(Count(j))
    && (w.server.Receiving? ==> RecvOk(k, j, w.server.p, w.disk))
    && (w.clean ==> Accounted(k, j, w))
    && (!w.server.Returned? ==> w.toServer <= Expected(k, j, w.server) && !w.delivered)
    && (w.delivered ==> w.disk == DeliveredDisk(j))
    && (HasAck(w.toClient) || w.client == CReturned(true) ==> w.delivered)
  }

  /** The exact coupling of the two sides while the connection is up. */
  ghost predicate InPhase(k: Scheme, j: Job, w: World)
    requires Honest(j)
  {
    match w.client
    case CStart => w.server.AwaitHello? && w.toServer == [] && w.toClient == []
    case CAwaitHello =>
      || (w.server.AwaitHello? && w.toServer == [MHello(OWN_HELLO)] && w.toClient == [])
      || (w.server.AwaitManifest? && w.toServer == [] && w.toClient == [MHello(OWN_HELLO)])
    case CAwaitReq =>
      || (w.server.AwaitManifest? && w.toServer == [MManifest(ManifestOf(k, j))] && w.toClient == [])
      || (w.server.Receiving? && w.toServer == [] && w.toClient == [MReqChunks(Wanted(j, w.server.p.have))])
    case CSending(rest) =>
      && w.server.Receiving? && w.toClient == []
      && var all, sent := Wanted(j, w.server.p.have), |w.toServer|;
         sent <= |all| && rest == all[sent..] && w.toServer == ChunksOf(k, j, all[..sent])
    case CAwaitAck =>
      || (w.server.Receiving? && w.toServer == Expected(k, j, w.server) && w.toClient == [])
      || (w.server == Returned(true) && w.toServer == [] && w.delivered && |w.toClient| == 1 && w.toClient[0].MAck?)
    case CReturned(ok) =>
      ok && w.server == Returned(true) && w.toServer == [] && w.toClient == [] && w.delivered
  }

  ghost predicate Inv(k: Scheme, j: Job, w: World)
    requires Honest(j)
  {
    Core(k, j, w) && (!w.cut ==> InPhase(k, j, w))
  }

  // ---------------------------------------------------------------------
  // One reaction of the receiver to what an honest sender sends.
  // ---------------------------------------------------------------------

  lemma ManifestEffect(k: Scheme, j: Job, d: Disk, env: Env)
    requires Sendable(j) && DiskOk(k, j, d) && Known(k, j, d) <= Range(Count(j)) && Smooth(env)
    ensures var r := OnManifest(k, d, ManifestOf(k, j), env);
            var d' := ApplyAll(d, r.ops);
            && DiskOk(k, j, d') && Known(k, j, d') == Known(k, j, d) && d'.dest == d.dest
            && Deliver !in r.ops
            && (if env.sendOk then
                  && r.next.Receiving? && RecvOk(k, j, r.next.p, d') && r.next.p.have == Known(k, j, d)
                  && r.out == [MReqChunks(Wanted(j, r.next.p.have))]
                else r.next == Returned(false))
  {
    var m := ManifestOf(k, j);
    MissingCount(Known(k, j, d), Count(j));
    if Matches(k, m, d.sidecar) {
      assert ApplyAll(d, []) == d;
    } else {
      assert [RemoveSidecar] + [CreatePartial(m.fileSize)] == [RemoveSidecar, CreatePartial(m.fileSize)];
      ApplyTwo(d, RemoveSidecar, CreatePartial(m.fileSize));
      assert Range(0) == {};
    }
  }

  lemma SliceInRange(k: Scheme, j: Job, i: nat)
    requires Honest(j) && i < Count(j)
    ensures Wrap64(Offset(i, j.chunkSize) + |Slice(j.file, j.chunkSize, i)|) <= |j.file|
    ensures |Slice(j.file, j.chunkSize, i)| <= j.chunkSize && Wrap32(i) == i
  {
    EdgeBelow(i, j.chunkSize, |j.file|);
  }

  lemma FirstMissingInOrder(next: nat, n: nat)
    requires next < n
    ensures Missing(Range(next), n) != [] && Missing(Range(next), n)[0] == next
  {
    MissingExact(Range(next), n);
    var ix := Missing(Range(next), n);
    assert next in ix;
    var a :| 0 <= a < |ix| && ix[a] == next;
    assert ix[0] in ix;
  }

  lemma ChunkEffect(k: Scheme, j: Job, p: Progress, d: Disk, env: Env)
    requires Honest(j) && RecvOk(k, j, p, d) && Wanted(j, p.have) != [] && Smooth(env)
    requires DiskOk(k, j, d) && Known(k, j, d) <= Range(Count(j))
    ensures var i := Wanted(j, p.have)[0];
            var r := OnChunk(k, p, ChunkOf(k, j, i).chunk, env);
            var d' := ApplyAll(d, r.ops);
            && i !in p.have && i < Count(j)
            && r.next.Receiving? && RecvOk(k, j, r.next.p, d') && DiskOk(k, j, d') && r.next.p.have == p.have + {i}
            && Known(k, j, d') <= Range(Count(j)) && (env.save == Saved ==> Known(k, j, d') == r.next.p.have)
            && Wanted(j, r.next.p.have) == Wanted(j, p.have)[1..]
            && d'.dest == d.dest && r.out == [] && Deliver !in r.ops
  {
    var n, i := Count(j), Wanted(j, p.have)[0];
    MissingExact(p.have, n);
    assert i in Missing(p.have, n);
    var c := ChunkOf(k, j, i).chunk;
    SliceInRange(k, j, i);
    assert ChunkFault(k, p, c).None?;
    AcceptedEffect(k, p, d, c, env);
    MissingAdd(p.have, n);
    ChunkOnDisk(k, j, p, d, c, env.save);
    HonestOffer(k, j);
    WriteTracks(j, p, c, d.partial.value);
    if p.inOrder {
      if p.next < n { FirstMissingInOrder(p.next, n); }
      assert i == p.next;
      assert Range(p.next) + {p.next} == Range(p.next + 1);
    }
  }

  /** What an accepted chunk leaves on disk, however its save ends. */
  lemma ChunkOnDisk(k: Scheme, j: Job, p: Progress, d: Disk, c: ChunkMsg, save: SaveOutcome)
    requires Honest(j) && p.m == ManifestOf(k, j) && GoodBits(j, d.partial, p.have) && p.have <= Range(Count(j))
    requires DiskOk(k, j, d) && Known(k, j, d) <= Range(Count(j))
    requires c.index < Count(j) && c.data == Slice(j.file, j.chunkSize, c.index)
    ensures var have := p.have + {c.index};
            var saved := Sidecar(Id(k, p.m), p.m.chunkCount, have);
            var d' := Disk(d.dest, Some(Splice(d.partial.value, Offset(c.index, p.m.chunkSize), c.data)),
                           AfterSave(d.sidecar, saved, save));
            && GoodBits(j, d'.partial, have) && DiskOk(k, j, d')
            && Known(k, j, d') <= Range(Count(j)) && (save == Saved ==> Known(k, j, d') == have)
  {
    WriteKeepsGood(j, d.partial.value, c.index, p.have);
    if Matches(k, p.m, d.sidecar) {
      WriteKeepsGood(j, d.partial.value, c.index, d.sidecar.have);
    }
  }

  /** With nothing missing, memory and disk both hold the whole file. */
  lemma AllReceived(k: Scheme, j: Job, p: Progress, d: Disk)
    requires Honest(j) && RecvOk(k, j, p, d) && Wanted(j, p.have) == []
    ensures p.have == Range(Count(j)) && d.partial == Some(j.file)
    ensures CountsRight(p) && RootInput(p, d, None) == j.file
  {
    var n := Count(j);
    MissingExact(p.have, n);
    assert Missing(p.have, n) == [];
    assert forall i :: 0 <= i < n ==> i in p.have;
    HasAll(d.partial.value, j.file, j.chunkSize);
    EdgeEnds(j.chunkSize, |j.file|);
    if p.inOrder {
      assert p.next !in p.have;
      assert p.next == n;
    }
  }

  lemma CompleteEffect(k: Scheme, j: Job, p: Progress, d: Disk, env: Env)
    requires Honest(j) && RecvOk(k, j, p, d) && Wanted(j, p.have) == [] && Smooth(env)
    ensures var r := OnComplete(k, p, d, Finish(k, j).complete, env);
            && p.have == Range(Count(j))
            && r.next == Returned(env.sendOk) && r.ops == [Deliver, RemoveSidecar]
            && ApplyAll(d, r.ops) == DeliveredDisk(j)
            && (if env.sendOk then |r.out| == 1 && r.out[0].MAck? else r.out == [])
  {
    AllReceived(k, j, p, d);
    ApplyTwo(d, Deliver, RemoveSidecar);
  }

  // ---------------------------------------------------------------------
  // Every move keeps the invariant.
  // ---------------------------------------------------------------------

  lemma PrefixStep<T>(s: seq<T>, t: seq<T>)
    requires s != [] && s <= t
    ensures s[0] == t[0] && s[1..] <= t[1..]
  {
  }

  lemma ExpectedStep(k: Scheme, j: Job, p: Progress, q: Progress)
    requires Honest(j) && Wanted(j, p.have) != [] && Wanted(j, q.have) == Wanted(j, p.have)[1..]
    ensures Expected(k, j, Receiving(p))[0] == ChunkOf(k, j, Wanted(j, p.have)[0])
    ensures Expected(k, j, Receiving(q)) == Expected(k, j, Receiving(p))[1..]
  {
    var all := Wanted(j, p.have);
    assert ChunksOf(k, j, all)[1..] == ChunksOf(k, j, all[1..]);
  }

  lemma LogChunk(log: seq<nat>, i: nat)
    requires NoRepeats(log) && i !in SetOf(log)
    ensures NoRepeats(log + [i]) && SetOf(log + [i]) == SetOf(log) + {i}
  {
    forall a | 0 <= a < |log| ensures log[a] != i { assert log[a] in SetOf(log); }
    assert SetOf(log + [i]) == SetOf(log) + {i};
  }

  lemma ManifestStepCore(k: Scheme, j: Job, w: World, ok: bool, save: SaveOutcome)
    requires Sendable(j) && Core(k, j, w) && Enabled(w, ServerReceives(ok, save))
    requires w.server.AwaitManifest? && w.toServer != []
    ensures Core(k, j, Next(k, j, w, ServerReceives(ok, save)))
  {
    PrefixStep(w.toServer, Expected(k, j, w.server));
    ManifestEffect(k, j, w.disk, Saving(ok, save));
    AckComesLast(k, j, w, ok, save);
    assert w.log + [] == w.log;
  }

  lemma ChunkStepCore(k: Scheme, j: Job, w: World, ok: bool, save: SaveOutcome)
    requires Sendable(j) && Core(k, j, w) && Enabled(w, ServerReceives(ok, save))
    requires w.server.Receiving? && w.toServer != [] && Wanted(j, w.server.p.have) != []
    ensures Core(k, j, Next(k, j, w, ServerReceives(ok, save)))
  {
    var p, w' := w.server.p, Next(k, j, w, ServerReceives(ok, save));
    PrefixStep(w.toServer, Expected(k, j, w.server));
    ChunkEffect(k, j, p, w.disk, Saving(ok, save));
    ExpectedStep(k, j, p, OnChunk(k, p, w.toServer[0].chunk, Saving(ok, save)).next.p);
    if w.clean { LogChunk(w.log, Wanted(j, p.have)[0]); }
    AckComesLast(k, j, w, ok, save);
  }

  lemma CompleteStepCore(k: Scheme, j: Job, w: World, ok: bool, save: SaveOutcome)
    requires Sendable(j) && Core(k, j, w) && Enabled(w, ServerReceives(ok, save))
    requires w.server.Receiving? && w.toServer != [] && Wanted(j, w.server.p.have) == []
    ensures Core(k, j, Next(k, j, w, ServerReceives(ok, save)))
  {
    PrefixStep(w.toServer, Expected(k, j, w.server));
    CompleteEffect(k, j, w.server.p, w.disk, Saving(ok, save));
    var w' := Next(k, j, w, ServerReceives(ok, save));
    assert w'.server == Returned(ok) && w'.disk == DeliveredDisk(j) && w'.delivered;
    assert w'.log == w.log && w'.client == w.client;
  }

  /** The receiver reacts to the next message of an honest sender, whether or not its reply gets out. */
  lemma ServerStepCore(k: Scheme, j: Job, w: World, ok: bool, save: SaveOutcome)
    requires Sendable(j) && Core(k, j, w) && Enabled(w, ServerReceives(ok, save))
    ensures Core(k, j, Next(k, j, w, ServerReceives(ok, save)))
  {
    if w.server.AwaitManifest? && w.toServer != [] {
      ManifestStepCore(k, j, w, ok, save);
    } else if w.server.Receiving? && w.toServer != [] {
      if Wanted(j, w.server.p.have) != [] {
        ChunkStepCore(k, j, w, ok, save);
      } else {
        CompleteStepCore(k, j, w, ok, save);
      }
    } else {
      assert w.log + [] == w.log && ApplyAll(w.disk, []) == w.disk;
      AckComesLast(k, j, w, ok, save);
    }
  }

  /** An acknowledgement is only ever sent with a delivery. */
  lemma AckComesLast(k: Scheme, j: Job, w: World, ok: bool, save: SaveOutcome)
    requires Honest(j) && Enabled(w, ServerReceives(ok, save))
    ensures var w' := Next(k, j, w, ServerReceives(ok, save));
            HasAck(w'.toClient) ==> HasAck(w.toClient) || w'.delivered
  {
    var w', r := Next(k, j, w, ServerReceives(ok, save)), React(k, w.server, w.disk, ServerEvent(w, ok, save));
    if HasAck(w'.toClient) && !HasAck(w.toClient) {
      var a :| 0 <= a < |w'.toClient| && IsAck(w'.toClient[a]);
      assert a >= |w.toClient| && w'.toClient[a] == r.out[a - |w.toClient|];
      AckDelivers(k, w.server, w.disk, ServerEvent(w, ok, save), w'.toClient[a]);
    }
  }

  lemma AckDelivers(k: Scheme, s: ServerState, d: Disk, e: Event, msg: Msg)
    requires IsAck(msg) && msg in React(k, s, d, e).out
    ensures Deliver in React(k, s, d, e).ops
  {
    assert Deliver in [Deliver, RemoveSidecar] && Deliver in [Deliver];
  }

  lemma ChunkStepPhase(k: Scheme, j: Job, w: World, save: SaveOutcome)
    requires Sendable(j) && Inv(k, j, w) && !w.cut && Enabled(w, ServerReceives(true, save))
    requires w.server.Receiving? && Wanted(j, w.server.p.have) != []
    ensures InPhase(k, j, Next(k, j, w, ServerReceives(true, save)))
  {
    var p := w.server.p;
    var all, sent := Wanted(j, p.have), |w.toServer|;
    PrefixStep(w.toServer, Expected(k, j, w.server));
    ChunkEffect(k, j, p, w.disk, Saving(true, save));
    var q := OnChunk(k, p, w.toServer[0].chunk, Saving(true, save)).next.p;
    ExpectedStep(k, j, p, q);
    var w' := Next(k, j, w, ServerReceives(true, save));
    assert w'.server == Receiving(q) && w'.toServer == w.toServer[1..] && w'.toClient == w.toClient + [];
    assert w'.client == w.client;
    if w.client.CSending? {
      assert all[1..][sent - 1..] == all[sent..] && all[1..][..sent - 1] == all[..sent][1..];
      assert ChunksOf(k, j, all[..sent])[1..] == ChunksOf(k, j, all[..sent][1..]);
    }
  }

  lemma ServerStepPhase(k: Scheme, j: Job, w: World, save: SaveOutcome)
    requires Sendable(j) && Inv(k, j, w) && !w.cut && Enabled(w, ServerReceives(true, save))
    ensures InPhase(k, j, Next(k, j, w, ServerReceives(true, save)))
  {
    if w.server.Receiving? && Wanted(j, w.server.p.have) != [] {
      ChunkStepPhase(k, j, w, save);
    } else {
      PrefixStep(w.toServer, Expected(k, j, w.server));
      if w.server.AwaitManifest? {
        ManifestEffect(k, j, w.disk, Saving(true, save));
      } else if w.server.Receiving? {
        CompleteEffect(k, j, w.server.p, w.disk, Saving(true, save));
      }
    }
  }

  lemma SentPrefix(k: Scheme, j: Job, all: seq<nat>, sent: nat)
    requires sent < |all|
    ensures all[sent..][0] == all[sent] && all[sent..][1..] == all[sent + 1..]
    ensures ChunksOf(k, j, all[..sent]) + [ChunkOf(k, j, all[sent])] == ChunksOf(k, j, all[..sent + 1])
    ensures ChunksOf(k, j, all[..sent + 1]) <= ChunksOf(k, j, all) + [Finish(k, j)]
  {
  }

  lemma SendsChunk(k: Scheme, j: Job, i: nat, rest: seq<nat>)
    requires Sendable(j) && rest != [] && rest[0] == i < Count(j)
    ensures ClientSend(PlanOf(k, j), CSending(rest), true) == ClientReaction(CSending(rest[1..]), [ChunkOf(k, j, i)])
  {
    SliceInRange(k, j, i);
  }

  lemma SendChunkInv(k: Scheme, j: Job, w: World)
    requires Sendable(j) && Inv(k, j, w) && !w.cut && w.client.CSending? && w.client.rest != []
    ensures Inv(k, j, Next(k, j, w, ClientSends(true)))
  {
    var have, sent := w.server.p.have, |w.toServer|;
    var all := Wanted(j, have);
    SentPrefix(k, j, all, sent);
    assert all[sent] < Count(j) by { MissingExact(have, Count(j)); assert all[sent] in all; }
    SendsChunk(k, j, all[sent], w.client.rest);
    var w' := w.(client := CSending(all[sent + 1..]), toServer := ChunksOf(k, j, all[..sent + 1]));
    assert Next(k, j, w, ClientSends(true)) == w';
    assert Core(k, j, w');
  }

  lemma ClientSendsInv(k: Scheme, j: Job, w: World, ok: bool)
    requires Sendable(j) && Inv(k, j, w) && Enabled(w, ClientSends(ok))
    ensures Inv(k, j, Next(k, j, w, ClientSends(ok)))
  {
    if !w.cut && w.client.CSending? {
      if w.client.rest == [] {
        var all := Wanted(j, w.server.p.have);
        assert all[..|all|] == all;
      } else {
        SendChunkInv(k, j, w);
      }
    }
  }

  lemma ClientReceivesInv(k: Scheme, j: Job, w: World, ok: bool)
    requires Sendable(j) && Inv(k, j, w) && Enabled(w, ClientReceives(ok))
    ensures Inv(k, j, Next(k, j, w, ClientReceives(ok)))
  {
    var w' := Next(k, j, w, ClientReceives(ok));
    if HasAck(w'.toClient) {
      var a :| 0 <= a < |w'.toClient| && IsAck(w'.toClient[a]);
      assert w.toClient[a + 1] == w'.toClient[a];
    }
    if w'.client == CReturned(true) {
      assert IsAck(w.toClient[0]);
    }
    if !w.cut && w.client.CAwaitReq? {
      var all := Wanted(j, w.server.p.have);
      assert all[0..] == all && all[..0] == [];
    }
  }

  lemma CutInv(k: Scheme, j: Job, w: World, a: nat, b: nat)
    requires Sendable(j) && Inv(k, j, w) && Enabled(w, CutConnection(a, b))
    ensures Inv(k, j, Next(k, j, w, CutConnection(a, b)))
  {
    var w' := Next(k, j, w, CutConnection(a, b));
    if HasAck(w'.toClient) {
      var x :| 0 <= x < |w'.toClient| && IsAck(w'.toClient[x]);
      assert w.toClient[x] == w'.toClient[x];
    }
  }

  lemma RestartInv(k: Scheme, j: Job, w: World)
    requires Sendable(j) && Inv(k, j, w) && Enabled(w, Restart)
    ensures Inv(k, j, Next(k, j, w, Restart))
  {
    assert SetOf([]) == {};
  }

  lemma MoveInv(k: Scheme, j: Job, w: World, mv: Move)
    requires Sendable(j) && Inv(k, j, w) && Enabled(w, mv)
    ensures Inv(k, j, Next(k, j, w, mv))
  {
    match mv
    case ClientSends(ok) => ClientSendsInv(k, j, w, ok);
    case ClientReceives(ok) => ClientReceivesInv(k, j, w, ok);
    case ServerReceives(ok, save) =>
      ServerStepCore(k, j, w, ok, save);
      if !w.cut { ServerStepPhase(k, j, w, save); }
    case CutConnection(a, b) => CutInv(k, j, w, a, b);
    case Restart => RestartInv(k, j, w);
  }
}
