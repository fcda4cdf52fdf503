/** The sender's session as the program runs it, explained step by step by the sender of the protocol. */
module ClientSession {
  import opened Bytes
  import opened Messages
  import opened MessageCodec
  import opened Chunks
  import opened Storage
  import opened Connections
  import opened Journal
  import opened Wiring
  import opened Protocol
  import F = Frames
  import S = Session

  // ---------------------------------------------------------------------
  // What the surroundings have in store.
  // ---------------------------------------------------------------------

  /**
   * For one step of the sender: whether it works and, if not, whether it is a read of the file that fails,
   * and where the read or the send breaks off.
   */
  datatype ClientIo = ClientIo(ok: bool, unread: bool, cut: nat)

  /** For step i; beyond the ones listed every step works. */
  function Due(fate: seq<ClientIo>, i: nat): ClientIo {
    if i < |fate| then fate[i] else ClientIo(true, false, 0)
  }

  function Broken(io: ClientIo): Option<nat> {
    if io.ok then None else Some(io.cut)
  }

  /** The chunk whose read fails, if it is a read that does. */
  function Unread(io: ClientIo): Option<nat> {
    if io.ok || !io.unread then None else Some(io.cut)
  }

  // ---------------------------------------------------------------------
  // Hashing the file.
  // ---------------------------------------------------------------------

  lemma ReadsSlice(f: seq<byte>, cs: nat, i: nat)
    requires cs > 0 && i < Ceil(|f|, cs)
    ensures Offset(i, cs) <= |f|
    ensures var n := if |f| - Offset(i, cs) < cs then |f| - Offset(i, cs) else cs;
            Slice(f, cs, i) == f[Offset(i, cs)..Offset(i, cs) + n]
  {
    EdgeBelow(i, cs, |f|);
    assert (i + 1) * cs == i * cs + cs;
  }

  /** Reads chunk i into the buffer, if the stream is good. */
  method ReadChunk(src: FileSource, cs: u32, i: nat, buf: array<byte>, good: bool) returns (chunk: Option<seq<byte>>)
    requires cs > 0 && i < Ceil(|src.file|, cs) && buf.Length == cs
    modifies buf
    ensures chunk == if good then Some(Slice(src.file, cs, i)) else None
  {
    ReadsSlice(src.file, cs, i);
    var ok, n := src.ReadAt(i * cs, buf, good);
    chunk := if ok then Some(buf[..n]) else None;
  }

  /** What the first pass finds out about the file. */
  datatype Inventory = Inventory(hashes: seq<Digest>, root: Digest)

  /**
   * The first pass over the file: one hash per chunk, and a running hash over all of them. With every
   * chunk counted the running hash is that of the file. It fails exactly if the read of a chunk does.
   */
  method HashPass(h: Hasher, src: FileSource, cs: u32, count: u32, bad: Option<nat>) returns (r: Option<Inventory>)
    requires count > 0 ==> cs > 0 && count <= Ceil(|src.file|, cs)
    ensures r.None? <==> bad.Some? && bad.value < count
    ensures r.Some? ==> |r.value.hashes| == count
    ensures r.Some? ==> forall i :: 0 <= i < count ==> r.value.hashes[i] == h(Slice(src.file, cs, i))
    ensures r.Some? ==> r.value.root == h(src.file[..Edge(count, cs, |src.file|)])
    ensures r.Some? && cs > 0 && count == Ceil(|src.file|, cs) ==> r.value.root == h(src.file)
  {
    var hasher := new Blake3Hasher(h);
    var scratch := new byte[cs];
    var hashes := [];
    for i := 0 to count
      invariant fresh(hasher) && fresh(scratch)
      invariant |hashes| == i && (bad.Some? ==> i <= bad.value)
      invariant forall a :: 0 <= a < i ==> hashes[a] == h(Slice(src.file, cs, a))
      invariant hasher.h == h && hasher.absorbed == src.file[..Edge(i, cs, |src.file|)]
    {
      var chunk := ReadChunk(src, cs, i, scratch, bad != Some(i));
      if chunk.None? {
        return None;
      }
      hashes := hashes + [h(chunk.value)];
      EdgeMonotone(i, i + 1, cs, |src.file|);
      hasher.Update(chunk.value);
    }
    var root := hasher.Finalize();
    if cs > 0 { EdgeEnds(cs, |src.file|); }
    assert src.file[..|src.file|] == src.file;
    r := Some(Inventory(hashes, root));
  }

  // ---------------------------------------------------------------------
  // What it has to send.
  // ---------------------------------------------------------------------

  type SendJob = j: S.Job | S.Given(j) witness S.Job([], 1, [])

  /** How a manifest reads at the other end. */
  function AsRead(m: ManifestMsg): S.Msg
    requires |m.chunkHashes| == m.chunkCount
  {
    if |m.path| < 0x1_0000 then S.MManifest(m) else S.MMalformed(F.Manifest)
  }

  function PlanFor(h: Hasher, j: SendJob): Plan {
    Plan(AsRead(S.OfferOf(h, j)), |EncodeManifest(S.OfferOf(h, j))| <= F.MAX_PAYLOAD,
         S.CountOf(j), (i: nat) => ChunkOf(Wire(h), j, i),
         S.MComplete(CompleteMsg(h(S.Covered(j)), 0)))
  }

  type HonestJob = j: SendJob | S.Honest(j) witness S.Job([], 1, [])

  /** For an honest job this is the plan of the protocol's sender. */
  lemma HonestPlan(h: Hasher, j: HonestJob)
    ensures var plan := PlanFor(h, j);
            && plan.manifest == S.MManifest(S.ManifestOf(Wire(h), j)) && plan.count == S.Count(j)
            && plan.fits == (PayloadSize(plan.manifest) <= F.MAX_PAYLOAD)
            && plan.finish == Finish(Wire(h), j) && forall i: nat :: plan.chunk(i) == ChunkOf(Wire(h), j, i)
  {
    S.HonestOffer(Wire(h), j);
    ManifestLayout(S.OfferOf(h, j));
  }

  // ---------------------------------------------------------------------
  // The sender as a machine.
  // ---------------------------------------------------------------------

  /** A step of its own, a frame from the peer, or the end of the stream. */
  datatype ClientEvent = Acts(ok: bool) | Hearing(msg: S.Msg, ok: bool) | Loses

  /** It sends when it is its turn, and otherwise waits for the peer. */
  predicate Moves(c: ClientState, e: ClientEvent) {
    if e.Acts? then Sends(c) else Receives(c)
  }

  function ClientReact(plan: Plan, c: ClientState, e: ClientEvent): ClientReaction {
    if !Moves(c, e) then ClientReaction(c, [])
    else match e
      case Acts(ok) => ClientSend(plan, c, ok)
      case Hearing(msg, ok) => ClientRecv(plan, c, msg, ok)
      case Loses => ClientReaction(CReturned(false), [])
  }

  function ClientHears(e: ClientEvent): Intake {
    match e
    case Acts(_) => Quiet
    case Hearing(msg, _) => Hears(msg)
    case Loses => Ends
  }

  type SenderMachine = Machine<ClientState, ClientEvent>

  function SenderOf(h: Hasher, j: SendJob): SenderMachine {
    Machine((c: ClientState, e: ClientEvent) => Moves(c, e),
            (c: ClientState, e: ClientEvent) => ClientReact(PlanFor(h, j), c, e).next,
            (c: ClientState, e: ClientEvent) => ClientReact(PlanFor(h, j), c, e).out,
            ClientHears,
            (f: F.Frame) => MsgOf(f))
  }

  ghost predicate Drives(mach: SenderMachine, h: Hasher, j: SendJob) {
    && (forall c, e {:trigger Moves(c, e)} :: mach.may(c, e) == Moves(c, e))
    && (forall c, e {:trigger ClientReact(PlanFor(h, j), c, e)} ::
          && mach.step(c, e) == ClientReact(PlanFor(h, j), c, e).next
          && mach.out(c, e) == ClientReact(PlanFor(h, j), c, e).out)
    && (forall e {:trigger ClientHears(e)} :: mach.hears(e) == ClientHears(e))
    && (forall f {:trigger MsgOf(f)} :: mach.read(f) == MsgOf(f))
  }

  lemma SenderDrives(h: Hasher, j: SendJob)
    ensures Drives(SenderOf(h, j), h, j)
  {
  }

  /** The step takes what was in store for it. */
  predicate Took(e: ClientEvent, io: ClientIo) {
    e.Loses? || e.ok == io.ok
  }

  /** The i-th event of the trace takes the i-th of what was in store. */
  ghost predicate Takes(trace: seq<ClientEvent>, fate: seq<ClientIo>)
    decreases |trace|
  {
    trace != [] ==>
      var n := |trace| - 1;
      Takes(trace[..n], fate) && Took(trace[n], Due(fate, n))
  }

  lemma {:induction false} TakesEach(trace: seq<ClientEvent>, fate: seq<ClientIo>, i: nat)
    requires Takes(trace, fate) && i < |trace|
    ensures Took(trace[i], Due(fate, i))
    decreases |trace|
  {
    var n := |trace| - 1;
    if i < n { TakesEach(trace[..n], fate, i); }
  }

  /** The machine makes one step, from c to next, and what it sends goes out. */
  ghost predicate Turns(mach: SenderMachine, crc: F.Checksum, frames: seq<F.Frame>, n: nat, c: ClientState,
                        e: ClientEvent, next: ClientState, before: seq<byte>, after: seq<byte>) {
    && mach.may(c, e) && Comes(mach, frames, n, e) && mach.step(c, e) == next
    && Wrote(mach.read, F.Encoder(crc), before, after, mach.out(c, e))
    && (mach.out(c, e) == [] && !next.CReturned? ==> after == before)
  }

  // ---------------------------------------------------------------------
  // Its sends.
  // ---------------------------------------------------------------------

  /** Sends a frame that reads as msg. */
  method Put(conn: Connection, f: F.Frame, breaks: Option<nat>, ghost msg: S.Msg) returns (ok: bool)
    requires MsgOf(f) == msg && |f.payload| >= PayloadSize(msg)
    modifies conn`outgoing
    ensures ok <==> breaks.None? && |f.payload| <= F.MAX_PAYLOAD
    ensures Sent(conn.crc, old(conn.outgoing), conn.outgoing, if ok then [msg] else [])
  {
    ok := conn.SendFrame(f, breaks);
  }

  method PutHello(conn: Connection, breaks: Option<nat>) returns (ok: bool)
    modifies conn`outgoing
    ensures ok <==> breaks.None?
    ensures Sent(conn.crc, old(conn.outgoing), conn.outgoing, if ok then [S.MHello(S.OWN_HELLO)] else [])
  {
    HelloRoundTrip(S.OWN_HELLO);
    ok := Put(conn, F.Frame(F.Hello, EncodeHello(S.OWN_HELLO)), breaks, S.MHello(S.OWN_HELLO));
  }

  method PutManifest(conn: Connection, m: ManifestMsg, breaks: Option<nat>) returns (ok: bool)
    requires |m.chunkHashes| == m.chunkCount
    modifies conn`outgoing
    ensures ok <==> breaks.None? && |EncodeManifest(m)| <= F.MAX_PAYLOAD
    ensures ok ==> PayloadSize(AsRead(m)) <= F.MAX_PAYLOAD
    ensures Sent(conn.crc, old(conn.outgoing), conn.outgoing, if ok then [AsRead(m)] else [])
  {
    ManifestRoundTrip(m);
    if |m.path| >= 0x1_0000 { LongPathRejected(m); }
    ManifestLayout(m);
    var payload := AppendManifest(m);
    ok := Put(conn, F.Frame(F.Manifest, payload), breaks, AsRead(m));
  }

  method PutChunk(conn: Connection, c: ChunkMsg, breaks: Option<nat>) returns (ok: bool)
    modifies conn`outgoing
    ensures ok <==> breaks.None? && PayloadSize(S.MChunk(c)) <= F.MAX_PAYLOAD
    ensures Sent(conn.crc, old(conn.outgoing), conn.outgoing, if ok then [S.MChunk(c)] else [])
  {
    ChunkRoundTrip(c);
    ok := Put(conn, F.Frame(F.Chunk, EncodeChunk(c)), breaks, S.MChunk(c));
  }

  method PutComplete(conn: Connection, c: CompleteMsg, breaks: Option<nat>) returns (ok: bool)
    modifies conn`outgoing
    ensures ok <==> breaks.None?
    ensures Sent(conn.crc, old(conn.outgoing), conn.outgoing, if ok then [S.MComplete(c)] else [])
  {
    CompleteRoundTrip(c);
    ok := Put(conn, F.Frame(F.Complete, EncodeComplete(c)), breaks, S.MComplete(c));
  }

  // ---------------------------------------------------------------------
  // Its turns.
  // ---------------------------------------------------------------------

  /** A send that the machine makes too. */
  lemma PutTurns(mach: SenderMachine, h: Hasher, j: SendJob, crc: F.Checksum, frames: seq<F.Frame>, n: nat,
                 c: ClientState,
                 e: ClientEvent, msg: S.Msg, next: ClientState, ok: bool, before: seq<byte>, after: seq<byte>)
    requires Drives(mach, h, j) && Comes(mach, frames, n, e) && Moves(c, e)
    requires ClientReact(PlanFor(h, j), c, e) == Transmit(msg, next, ok)
    requires ok ==> PayloadSize(msg) <= F.MAX_PAYLOAD
    requires Sent(crc, before, after, if ok then [msg] else [])
    ensures Turns(mach, crc, frames, n, c, e, if ok then next else CReturned(false), before, after)
    ensures ok ==> mach.out(c, e) != []
  {
    WroteSent(mach.read, crc, before, after, if ok then [msg] else []);
  }

  /** A step that sends nothing. */
  lemma QuietTurns(mach: SenderMachine, h: Hasher, j: SendJob, crc: F.Checksum, frames: seq<F.Frame>, n: nat,
                   c: ClientState,
                   e: ClientEvent, next: ClientState, out: seq<byte>)
    requires Drives(mach, h, j) && Comes(mach, frames, n, e) && Moves(c, e)
    requires ClientReact(PlanFor(h, j), c, e) == ClientReaction(next, [])
    ensures Turns(mach, crc, frames, n, c, e, next, out, out)
  {
  }

  /** What the next receive yields, as an event. */
  method Receive(conn: Connection, ghost mach: SenderMachine, ghost h: Hasher, ghost j: SendJob,
                 ghost frames: seq<F.Frame>, ghost n: nat)
    returns (f: Option<F.Frame>)
    requires Drives(mach, h, j) && n <= |frames| && F.Parse(conn.parser, conn.incoming).frames == frames[n..]
    modifies conn`incoming
    ensures f.None? ==> Comes(mach, frames, n, Loses)
    ensures f.Some? ==> forall ok {:trigger Hearing(MsgOf(f.value), ok)} ::
                          var e := Hearing(MsgOf(f.value), ok);
                          mach.hears(e).Hears? && Comes(mach, frames, n, e)
    ensures f.Some? ==> n < |frames| && F.Parse(conn.parser, conn.incoming).frames == frames[n + 1..]
    ensures if f.Some? then f.value == frames[n] else n == |frames|
  {
    var reason;
    f, reason := conn.RecvFrame();
    assert mach.hears(Loses) == ClientHears(Loses);
    if f.Some? {
      assert f.value == frames[n] && mach.read(f.value) == MsgOf(f.value);
      forall ok {:trigger Hearing(MsgOf(f.value), ok)}
        ensures var e := Hearing(MsgOf(f.value), ok); mach.hears(e).Hears? && Comes(mach, frames, n, e)
      {
        assert mach.hears(Hearing(MsgOf(f.value), ok)) == ClientHears(Hearing(MsgOf(f.value), ok));
      }
    }
  }

  /** The sender's own HELLO. */
  method HelloTurn(conn: Connection, io: ClientIo, ghost mach: SenderMachine, ghost h: Hasher, ghost j: SendJob,
                   ghost frames: seq<F.Frame>)
    returns (go: bool, ghost e: ClientEvent)
    requires Drives(mach, h, j)
    modifies conn`outgoing
    ensures Turns(mach, conn.crc, frames, 0, CStart, e, if go then CAwaitHello else CReturned(false),
                  old(conn.outgoing), conn.outgoing)
    ensures mach.hears(e).Quiet? && Took(e, io)
  {
    go := PutHello(conn, Broken(io));
    e := Acts(io.ok);
    assert mach.hears(e) == ClientHears(e);
    PutTurns(mach, h, j, conn.crc, frames, 0, CStart, e, S.MHello(S.OWN_HELLO), CAwaitHello, go,
             old(conn.outgoing), conn.outgoing);
  }

  /** The peer's HELLO, the hash pass, and the MANIFEST. */
  method ManifestTurn(h: Hasher, src: FileSource, cs: u32, path: seq<byte>, conn: Connection, io: ClientIo,
                      ghost mach: SenderMachine, ghost j: SendJob, ghost frames: seq<F.Frame>, ghost n: nat)
    returns (m: Option<ManifestMsg>, ghost e: ClientEvent)
    requires Drives(mach, h, j) && j == S.Job(src.file, cs, path)
    requires n <= |frames| && F.Parse(conn.parser, conn.incoming).frames == frames[n..]
    modifies conn
    ensures Turns(mach, conn.crc, frames, n, CAwaitHello, e, if m.Some? then CAwaitReq else CReturned(false),
                  old(conn.outgoing), conn.outgoing)
    ensures Took(e, io) && (m.Some? ==> m.value == S.OfferOf(h, j) && mach.hears(e).Hears?)
    ensures m.Some? ==> n < |frames| && F.Parse(conn.parser, conn.incoming).frames == frames[n + 1..]
  {
    var f := Receive(conn, mach, h, j, frames, n);
    if f.None? {
      QuietTurns(mach, h, j, conn.crc, frames, n, CAwaitHello, Loses, CReturned(false), conn.outgoing);
      return None, Loses;
    }
    e := Hearing(MsgOf(f.value), io.ok);
    var greeted := AcceptsHello(f.value);
    if greeted {
      m := BuildManifest(h, src, cs, path, Unread(io));
    }
    if !greeted || m.None? {
      QuietTurns(mach, h, j, conn.crc, frames, n, CAwaitHello, e, CReturned(false), conn.outgoing);
      return None, e;
    }
    var go := PutManifest(conn, m.value, Broken(io));
    PutTurns(mach, h, j, conn.crc, frames, n, CAwaitHello, e, AsRead(m.value), CAwaitReq, go,
             old(conn.outgoing), conn.outgoing);
    if !go {
      m := None;
    }
  }

  method AcceptsHello(f: F.Frame) returns (ok: bool)
    ensures ok <==> f.ftype.Hello? && |f.payload| == 9 && f.payload[0] == 1
    ensures ok <==> MsgOf(f).MHello? && MsgOf(f).hello.version == S.PROTOCOL_VERSION
  {
    if !f.ftype.Hello? {
      return false;
    }
    var hello := TakeHello(f.payload);
    ok := hello.Some? && hello.value.version == S.PROTOCOL_VERSION;
  }

  /** The manifest of whatever the program was given. */
  method BuildManifest(h: Hasher, src: FileSource, cs: u32, path: seq<byte>, bad: Option<nat>)
    returns (m: Option<ManifestMsg>)
    requires S.Given(S.Job(src.file, cs, path))
    ensures m.None? <==> bad.Some? && bad.value < S.CountOf(S.Job(src.file, cs, path))
    ensures m.Some? ==> m.value.fileSize == |src.file| && m.value.chunkSize == cs && m.value.path == path
    ensures m.Some? ==> m.value == S.OfferOf(h, S.Job(src.file, cs, path))
  {
    var count := ChunkCount(|src.file|, cs);
    if count > 0 { ChunkCountBelow(|src.file|, cs); }
    var r := HashPass(h, src, cs, count, bad);
    if r.None? {
      return None;
    }
    m := Some(ManifestMsg(|src.file|, cs, count, r.value.root, path, r.value.hashes));
    assert r.value.hashes == S.ChunkHashes(h, S.Job(src.file, cs, path), count);
  }

  /** The request for chunks. */
  method RequestTurn(conn: Connection, io: ClientIo, ghost mach: SenderMachine, ghost h: Hasher, ghost j: SendJob,
                     ghost frames: seq<F.Frame>, ghost n: nat)
    returns (go: bool, indices: seq<u32>, ghost e: ClientEvent)
    requires Drives(mach, h, j) && n <= |frames| && F.Parse(conn.parser, conn.incoming).frames == frames[n..]
    modifies conn`incoming
    ensures Turns(mach, conn.crc, frames, n, CAwaitReq, e, if go then CSending(indices) else CReturned(false),
                  conn.outgoing, conn.outgoing)
    ensures Took(e, io)
    ensures go ==> mach.hears(e).Hears? && n < |frames| && F.Parse(conn.parser, conn.incoming).frames == frames[n + 1..]
  {
    go, indices := false, [];
    var f := Receive(conn, mach, h, j, frames, n);
    if f.None? {
      e := Loses;
    } else {
      e := Hearing(MsgOf(f.value), io.ok);
      if f.value.ftype.ReqChunks? {
        var req := TakeReqChunks(f.value.payload);
        if req.Some? {
          go, indices := true, req.value.indices;
        }
      }
    }
    QuietTurns(mach, h, j, conn.crc, frames, n, CAwaitReq, e, if go then CSending(indices) else CReturned(false),
               conn.outgoing);
  }

  /** The next requested chunk, checked, read and sent with the hash of the first pass. */
  method ChunkTurn(h: Hasher, src: FileSource, m: ManifestMsg, i: u32, buf: array<byte>, conn: Connection,
                   io: ClientIo, ghost mach: SenderMachine, ghost j: SendJob, ghost frames: seq<F.Frame>, ghost n: nat,
                   ghost rest: seq<nat>)
    returns (go: bool, ghost e: ClientEvent)
    requires Drives(mach, h, j) && j.file == src.file && m == S.OfferOf(h, j)
    requires rest != [] && rest[0] == i && buf.Length == m.chunkSize
    modifies conn`outgoing, buf
    ensures Turns(mach, conn.crc, frames, n, CSending(rest), e, if go then CSending(rest[1..]) else CReturned(false),
                  old(conn.outgoing), conn.outgoing)
    ensures mach.hears(e).Quiet? && Took(e, io)
  {
    e := Acts(io.ok);
    assert mach.hears(e) == ClientHears(e);
    var c := LoadChunk(h, src, m, i, buf, Unread(io).None?, j);
    if c.None? {
      QuietTurns(mach, h, j, conn.crc, frames, n, CSending(rest), e, CReturned(false), conn.outgoing);
      return false, e;
    }
    go := PutChunk(conn, c.value, Broken(io));
    PutTurns(mach, h, j, conn.crc, frames, n, CSending(rest), e, S.MChunk(c.value), CSending(rest[1..]), go,
             old(conn.outgoing), conn.outgoing);
  }

  /** The CHUNK message for a requested index, unless the index is out of range or the read fails. */
  method LoadChunk(ghost h: Hasher, src: FileSource, m: ManifestMsg, i: u32, buf: array<byte>, good: bool,
                   ghost j: SendJob)
    returns (c: Option<ChunkMsg>)
    requires j.file == src.file && m == S.OfferOf(h, j) && buf.Length == m.chunkSize
    modifies buf
    ensures c.Some? <==> i < m.chunkCount && good
    ensures c.Some? ==> S.MChunk(c.value) == PlanFor(h, j).chunk(i)
  {
    if i >= m.chunkCount {
      return None;
    }
    ChunkCountBelow(|src.file|, m.chunkSize);
    var data := ReadChunk(src, m.chunkSize, i, buf, good);
    if data.None? {
      return None;
    }
    assert Wrap32(i) == i;
    c := Some(ChunkMsg(i, m.chunkHashes[i], data.value));
  }

  method FinishTurn(h: Hasher, m: ManifestMsg, conn: Connection, io: ClientIo,
                    ghost mach: SenderMachine, ghost j: SendJob, ghost frames: seq<F.Frame>, ghost n: nat)
    returns (go: bool, ghost e: ClientEvent)
    requires Drives(mach, h, j) && m == S.OfferOf(h, j)
    modifies conn`outgoing
    ensures Turns(mach, conn.crc, frames, n, CSending([]), e, if go then CAwaitAck else CReturned(false),
                  old(conn.outgoing), conn.outgoing)
    ensures mach.hears(e).Quiet? && Took(e, io)
  {
    go := PutComplete(conn, CompleteMsg(m.rootHash, 0), Broken(io));
    e := Acts(io.ok);
    assert mach.hears(e) == ClientHears(e);
    PutTurns(mach, h, j, conn.crc, frames, n, CSending([]), e, PlanFor(h, j).finish, CAwaitAck, go,
             old(conn.outgoing), conn.outgoing);
  }

  /** The last frame: success exactly if it is an ACK. */
  method AckTurn(conn: Connection, io: ClientIo, ghost mach: SenderMachine, ghost h: Hasher, ghost j: SendJob,
                 ghost frames: seq<F.Frame>, ghost n: nat)
    returns (ok: bool, ghost e: ClientEvent)
    requires Drives(mach, h, j) && n <= |frames| && F.Parse(conn.parser, conn.incoming).frames == frames[n..]
    modifies conn`incoming
    ensures Took(e, io) && (ok <==> n < |frames| && frames[n].ftype.Ack?)
    ensures Turns(mach, conn.crc, frames, n, CAwaitAck, e, CReturned(ok), conn.outgoing, conn.outgoing)
  {
    var f := Receive(conn, mach, h, j, frames, n);
    ok, e := f.Some? && f.value.ftype.Ack?, if f.Some? then Hearing(MsgOf(f.value), io.ok) else Loses;
    assert f.Some? ==> (IsAck(MsgOf(f.value)) <==> f.value.ftype.Ack?);
    QuietTurns(mach, h, j, conn.crc, frames, n, CAwaitAck, e, CReturned(ok), conn.outgoing);
  }

  // ---------------------------------------------------------------------
  // The whole session.
  // ---------------------------------------------------------------------

  /** A trace, the frames sent along it, and the number of frames received. */
  datatype Log = Log(trace: seq<ClientEvent>, sent: seq<F.Frame>, heard: nat)

  ghost predicate Logged(mach: SenderMachine, crc: F.Checksum, frames: seq<F.Frame>, out0: seq<byte>, log: Log,
                         c: ClientState, out: seq<byte>) {
    && Explained(mach, CStart, frames, log.trace, c, log.heard)
    && Replied(mach, CStart, log.trace, log.sent, F.Encoder(crc), out0, out)
  }

  ghost predicate Closed(mach: SenderMachine, crc: F.Checksum, frames: seq<F.Frame>, out0: seq<byte>, log: Log,
                         c: ClientState, out: seq<byte>) {
    && Explained(mach, CStart, frames, log.trace, c, log.heard)
    && RepliedInPart(mach, CStart, log.trace, log.sent, F.Encoder(crc), out0, out)
  }

  lemma LoggedNothing(mach: SenderMachine, crc: F.Checksum, frames: seq<F.Frame>, out0: seq<byte>)
    ensures Logged(mach, crc, frames, out0, Log([], [], 0), CStart, out0)
  {
    assert out0 + [] == out0;
  }

  lemma Advance(mach: SenderMachine, crc: F.Checksum, frames: seq<F.Frame>, out0: seq<byte>, log: Log,
                c: ClientState, e: ClientEvent, next: ClientState, mid: seq<byte>, after: seq<byte>,
                fate: seq<ClientIo>)
    returns (log': Log)
    requires Logged(mach, crc, frames, out0, log, c, mid)
    requires Turns(mach, crc, frames, log.heard, c, e, next, mid, after)
    requires Takes(log.trace, fate) && Took(e, Due(fate, |log.trace|))
    ensures |log'.trace| == |log.trace| + 1 && Takes(log'.trace, fate)
    ensures Closed(mach, crc, frames, out0, log', next, after)
    ensures !next.CReturned? ==> Logged(mach, crc, frames, out0, log', next, after)
    ensures log'.heard == log.heard + (if mach.hears(e).Hears? then 1 else 0)
  {
    var sent := Extend(mach, CStart, frames, log.trace, c, log.heard, e, F.Encoder(crc), out0, mid, after, log.sent);
    assert (log.trace + [e])[..|log.trace|] == log.trace;
    log' := Log(log.trace + [e], sent, log.heard + (if mach.hears(e).Hears? then 1 else 0));
  }

  /** Sends the requested chunks in the order of the request. */
  method SendChunks(h: Hasher, src: FileSource, m: ManifestMsg, indices: seq<u32>, conn: Connection,
                    fate: seq<ClientIo>, ghost mach: SenderMachine, ghost j: SendJob, ghost frames: seq<F.Frame>,
                    ghost out0: seq<byte>, ghost log0: Log)
    returns (go: bool, ghost log: Log)
    requires Drives(mach, h, j) && j.file == src.file && m == S.OfferOf(h, j)
    requires Logged(mach, conn.crc, frames, out0, log0, CSending(indices), conn.outgoing)
    requires |log0.trace| == 3 && Takes(log0.trace, fate)
    modifies conn`outgoing
    ensures log.heard == log0.heard && Takes(log.trace, fate)
    ensures go ==> |log.trace| == 3 + |indices|
    ensures if go then Logged(mach, conn.crc, frames, out0, log, CSending([]), conn.outgoing)
            else Closed(mach, conn.crc, frames, out0, log, CReturned(false), conn.outgoing)
  {
    log := log0;
    var buf := new byte[m.chunkSize];
    ghost var rest: seq<nat> := indices;
    assert indices[0..] == indices;
    for a := 0 to |indices|
      invariant fresh(buf) && rest == indices[a..] && log.heard == log0.heard
      invariant |log.trace| == 3 + a && Takes(log.trace, fate)
      invariant Logged(mach, conn.crc, frames, out0, log, CSending(rest), conn.outgoing)
    {
      ghost var mid := conn.outgoing;
      var sent, e := ChunkTurn(h, src, m, indices[a], buf, conn, Due(fate, 3 + a), mach, j, frames, log.heard, rest);
      log := Advance(mach, conn.crc, frames, out0, log, CSending(rest), e,
                     if sent then CSending(rest[1..]) else CReturned(false), mid, conn.outgoing, fate);
      if !sent {
        return false, log;
      }
      rest := rest[1..];
    }
    assert rest == [];
    go := true;
  }

  /**
   * The sender from first send to return: what goes out and the result are those of the protocol's
   * sender on the frames the stream delivers, with the outcomes given for its reads and sends.
   */
  method Send(h: Hasher, src: FileSource, cs: u32, path: seq<byte>, conn: Connection, fate: seq<ClientIo>)
    returns (ok: bool, ghost log: Log)
    requires S.Given(S.Job(src.file, cs, path))
    modifies conn
    ensures Takes(log.trace, fate)
    ensures Closed(SenderOf(h, S.Job(src.file, cs, path)), conn.crc, F.Parse(conn.parser, old(conn.incoming)).frames,
                   old(conn.outgoing), log, CReturned(ok), conn.outgoing)
  {
    ghost var j: SendJob := S.Job(src.file, cs, path);
    SenderDrives(h, j);
    ok, log := Converse(h, src, cs, path, conn, fate, SenderOf(h, j), j);
  }

  method Converse(h: Hasher, src: FileSource, cs: u32, path: seq<byte>, conn: Connection, fate: seq<ClientIo>,
                  ghost mach: SenderMachine, ghost j: SendJob)
    returns (ok: bool, ghost log: Log)
    requires Drives(mach, h, j) && j == S.Job(src.file, cs, path)
    modifies conn
    ensures Takes(log.trace, fate)
    ensures Closed(mach, conn.crc, F.Parse(conn.parser, old(conn.incoming)).frames, old(conn.outgoing), log,
                   CReturned(ok), conn.outgoing)
  {
    ghost var frames, out0 := F.Parse(conn.parser, conn.incoming).frames, conn.outgoing;
    log := Log([], [], 0);
    LoggedNothing(mach, conn.crc, frames, out0);
    var go, e := HelloTurn(conn, Due(fate, 0), mach, h, j, frames);
    ghost var mid := conn.outgoing;
    log := Advance(mach, conn.crc, frames, out0, log, CStart, e, if go then CAwaitHello else CReturned(false),
                   out0, mid, fate);
    if !go {
      return false, log;
    }
    var m;
    m, e := ManifestTurn(h, src, cs, path, conn, Due(fate, 1), mach, j, frames, 0);
    log := Advance(mach, conn.crc, frames, out0, log, CAwaitHello, e, if m.Some? then CAwaitReq else CReturned(false),
                   mid, conn.outgoing, fate);
    if m.None? {
      return false, log;
    }
    ok, log := Deliver(h, src, m.value, conn, fate, mach, j, frames, out0, log);
  }

  /** From the request to the acknowledgement. */
  method Deliver(h: Hasher, src: FileSource, m: ManifestMsg, conn: Connection, fate: seq<ClientIo>,
                 ghost mach: SenderMachine, ghost j: SendJob, ghost frames: seq<F.Frame>,
                 ghost out0: seq<byte>, ghost log0: Log)
    returns (ok: bool, ghost log: Log)
    requires Drives(mach, h, j) && j.file == src.file && m == S.OfferOf(h, j)
    requires log0.heard <= |frames| && F.Parse(conn.parser, conn.incoming).frames == frames[log0.heard..]
    requires Logged(mach, conn.crc, frames, out0, log0, CAwaitReq, conn.outgoing)
    requires |log0.trace| == 2 && Takes(log0.trace, fate)
    modifies conn
    ensures Takes(log.trace, fate)
    ensures Closed(mach, conn.crc, frames, out0, log, CReturned(ok), conn.outgoing)
  {
    ghost var mid := conn.outgoing;
    var go, indices, e := RequestTurn(conn, Due(fate, 2), mach, h, j, frames, log0.heard);
    log := Advance(mach, conn.crc, frames, out0, log0, CAwaitReq, e, if go then CSending(indices) else CReturned(false),
                   mid, mid, fate);
    if !go {
      return false, log;
    }
    go, log := SendChunks(h, src, m, indices, conn, fate, mach, j, frames, out0, log);
    if !go {
      return false, log;
    }
    mid := conn.outgoing;
    go, e := FinishTurn(h, m, conn, Due(fate, 3 + |indices|), mach, j, frames, log.heard);
    log := Advance(mach, conn.crc, frames, out0, log, CSending([]), e, if go then CAwaitAck else CReturned(false), mid,
                   conn.outgoing, fate);
    if !go {
      return false, log;
    }
    mid := conn.outgoing;
    ok, e := AckTurn(conn, Due(fate, 4 + |indices|), mach, h, j, frames, log.heard);
    log := Advance(mach, conn.crc, frames, out0, log, CAwaitAck, e, CReturned(ok), mid, mid, fate);
  }
}
