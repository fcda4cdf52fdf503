/** The receiver's session as the program runs it, explained step by step by the session machine. */
module ServerSession {
  import opened Bytes
  import opened Messages
  import opened MessageCodec
  import opened Chunks
  import opened Resume
  import opened Storage
  import opened Connections
  import opened Folds
  import opened Journal
  import opened Wiring
  import F = Frames
  import S = Session

  /** Replies: the result of a failed error report is ignored, as in the program. */
  method SendError(conn: Connection, code: S.ErrorCode, io: Io)
    modifies conn`outgoing
    ensures Sent(conn.crc, old(conn.outgoing), conn.outgoing, if io.env.sendOk then [S.MError(code)] else [])
  {
    var f := F.Frame(F.Error, EncodeError(ErrorMsg(CodeNumber(code), [])));
    ErrorRoundTrip(ErrorMsg(CodeNumber(code), []));
    assert MsgOf(f) == S.MError(code);
    var _ := conn.SendFrame(f, Breaks(io));
  }

  // ---------------------------------------------------------------------
  // HELLO.
  // ---------------------------------------------------------------------

  /** Only a HELLO of version 1 is answered with one; any other version draws an error. */
  method OnHelloFrame(ghost k: S.Scheme, ghost d: S.Disk, f: F.Frame, conn: Connection, io: Io) returns (go: bool)
    modifies conn`outgoing
    ensures go ==> f.ftype.Hello? && |f.payload| == 9 && f.payload[0] == 1
    ensures var r := S.React(k, S.AwaitHello, d, S.Got(MsgOf(f), io.env));
            && r.next == (if go then S.AwaitManifest else S.Returned(false)) && r.ops == []
            && Sent(conn.crc, old(conn.outgoing), conn.outgoing, r.out)
  {
    if !f.ftype.Hello? {
      return false;
    }
    var hello := TakeHello(f.payload);
    if hello.None? {
      SendError(conn, S.ProtocolViolation, io);
      return false;
    }
    if hello.value.version != S.PROTOCOL_VERSION {
      SendError(conn, S.UnsupportedVersion, io);
      return false;
    }
    var reply := F.Frame(F.Hello, EncodeHello(S.OWN_HELLO));
    HelloRoundTrip(S.OWN_HELLO);
    assert MsgOf(reply) == S.MHello(S.OWN_HELLO);
    go := conn.SendFrame(reply, Breaks(io));
  }

  method HelloPhase(ghost k: S.Scheme, ghost d: S.Disk, conn: Connection, io: Io)
    returns (go: bool, ghost e: S.Event)
    modifies conn
    ensures Heard(conn.parser, old(conn.incoming), conn.incoming, e) && Fated(e, io)
    ensures var r := S.React(k, S.AwaitHello, d, e);
            && r.next == (if go then S.AwaitManifest else S.Returned(false)) && r.ops == []
            && Sent(conn.crc, old(conn.outgoing), conn.outgoing, r.out)
  {
    var f, _ := conn.RecvFrame();
    if f.None? {
      return false, S.Cut;
    }
    assert F.Parse(conn.parser, old(conn.incoming)).frames[0] == f.value;
    e := S.Got(MsgOf(f.value), io.env);
    go := OnHelloFrame(k, d, f.value, conn, io);
  }

  // ---------------------------------------------------------------------
  // MANIFEST.
  // ---------------------------------------------------------------------

  /** The session's variables from the manifest on. */
  class Transfer {
    const h: Hasher
    const disk: DiskFiles
    const m: S.Manifest
    const resume: bool
    const state: ResumeState
    const sink: FileSink
    const hasher: Blake3Hasher
    var bytes: u64
    var chunks: u32
    var inOrder: bool
    var next: nat

    ghost function View(): S.Progress
      reads this, state, hasher
      requires state.Valid()
    {
      S.Progress(m, resume, Have(state.Data()), bytes, chunks, hasher.absorbed, inOrder, next)
    }

    ghost predicate Valid()
      reads this, state, sink, hasher, disk
    {
      && state.Valid() && state.id == S.Id(Wire(h), m) && state.count == m.chunkCount
      && hasher.h == h
      && sink.disk == disk && sink.isOpen && sink.total == m.fileSize && disk.partial.Some?
    }

    constructor (h: Hasher, disk: DiskFiles, m: S.Manifest, resume: bool, state: ResumeState, sink: FileSink)
      requires state.Valid() && state.id == S.Id(Wire(h), m) && state.count == m.chunkCount
      requires sink.disk == disk && sink.isOpen && sink.total == m.fileSize && disk.partial.Some?
      ensures Valid() && fresh(hasher)
      ensures this.h == h && this.disk == disk && this.state == state && this.sink == sink
      ensures View() == S.Progress(m, resume, Have(state.Data()), 0, 0, [], !resume, 0)
    {
      this.h, this.disk, this.m, this.resume, this.state, this.sink := h, disk, m, resume, state, sink;
      hasher := new Blake3Hasher(h);
      bytes, chunks, inOrder, next := 0, 0, !resume, 0;
    }

    /** Index, then the frame's own hash, then the manifest's. */
    method CheckChunk(c: ChunkMsg) returns (fault: Option<S.ErrorCode>)
      requires Valid()
      ensures fault.Some? ==> S.ChunkFault(Wire(h), View(), c) == fault
      ensures fault.None? ==> c.index < m.chunkCount && h(c.data) == c.hash == m.chunkHashes[c.index]
    {
      if c.index >= m.chunkCount {
        return Some(S.ProtocolViolation);
      }
      if h(c.data) != c.hash {
        return Some(S.HashMismatch);
      }
      if m.chunkHashes[c.index] != c.hash {
        return Some(S.HashMismatch);
      }
      return None;
    }

    /** The in-order hash: fed while chunks come in order, given up for good when one does not. */
    method TrackOrder(c: ChunkMsg)
      modifies this`inOrder, this`next, hasher
      ensures inOrder == (old(inOrder) && c.index == old(next))
      ensures next == if inOrder then old(next) + 1 else old(next)
      ensures hasher.absorbed == if inOrder then old(hasher.absorbed) + c.data else old(hasher.absorbed)
    {
      if inOrder && c.index == next {
        hasher.Update(c.data);
        next := next + 1;
      } else {
        inOrder := false;
      }
    }

    predicate Fits(c: ChunkMsg) {
      Wrap64(Offset(c.index, m.chunkSize) + |c.data|) <= m.fileSize
    }

    /** Hash it if in order, then write it. */
    method Write(c: ChunkMsg, fault: S.Fault) returns (ok: bool)
      requires Valid()
      modifies this`inOrder, this`next, hasher, disk`partial
      ensures ok <==> Fits(c) && !fault.WriteFails?
      ensures Valid() && View() == Hashed(old(View()), c)
      ensures disk.View() == if Fits(c) then Written(old(disk.View()), c, fault) else old(disk.View())
    {
      ghost var d := disk.View();
      TrackOrder(c);
      ok := sink.WriteAt(Offset(c.index, m.chunkSize), c.data, fault);
      assert Fits(c) ==> disk.View() == Written(d, c, fault);
    }

    static ghost function Hashed(p: S.Progress, c: ChunkMsg): S.Progress {
      var ordered := p.inOrder && c.index == p.next;
      p.(inOrder := ordered, next := if ordered then p.next + 1 else p.next,
         hashed := if ordered then p.hashed + c.data else p.hashed)
    }

    ghost function Written(d: S.Disk, c: ChunkMsg, fault: S.Fault): S.Disk {
      S.Apply(d, S.WriteAt(Offset(c.index, m.chunkSize),
                           if fault.WriteFails? then S.Front(c.data, fault.wrote) else c.data))
    }

    /** Mark it, save, count it. */
    method Commit(c: ChunkMsg, io: Io)
      requires Valid() && c.index < m.chunkCount
      modifies this`bytes, this`chunks, state`bitmap, disk`sidecar
      ensures Valid() && View() == Counted(old(View()), c)
      ensures disk.View() == Saved(old(disk.View()), View().have, io.env.save)
    {
      state.MarkReceived(c.index);
      var _ := state.Save(disk, io.env.save, io.cut);
      bytes := Wrap64(bytes + |c.data|);
      chunks := Wrap32(chunks + 1);
    }

    static ghost function Counted(p: S.Progress, c: ChunkMsg): S.Progress {
      p.(have := p.have + {c.index}, bytes := Wrap64(p.bytes + |c.data|), chunks := Wrap32(p.chunks + 1))
    }

    /** One chunk of the receive loop. */
    method AcceptChunk(c: ChunkMsg, conn: Connection, io: Io) returns (going: bool)
      requires Valid()
      modifies this, state`bitmap, hasher, disk, conn`outgoing
      ensures var r := S.OnChunk(Wire(h), old(View()), c, io.env);
              && disk.View() == S.ApplyAll(old(disk.View()), r.ops)
              && Sent(conn.crc, old(conn.outgoing), conn.outgoing, r.out)
              && (if going then Valid() && r.next == S.Receiving(View()) && conn.outgoing == old(conn.outgoing)
                  else r.next == S.Returned(false))
    {
      assert S.ApplyAll(disk.View(), []) == disk.View();
      var fault := CheckChunk(c);
      if fault.Some? {
        SendError(conn, fault.value, io);
        return false;
      }
      going := TakeIn(c, conn, io);
    }

    /** A chunk that passed the checks: write it and save, or say that it could not be written. */
    method TakeIn(c: ChunkMsg, conn: Connection, io: Io) returns (going: bool)
      requires Valid() && c.index < m.chunkCount && h(c.data) == c.hash == m.chunkHashes[c.index]
      modifies this, state`bitmap, hasher, disk, conn`outgoing
      ensures var r := S.OnChunk(Wire(h), old(View()), c, io.env);
              && disk.View() == S.ApplyAll(old(disk.View()), r.ops)
              && Sent(conn.crc, old(conn.outgoing), conn.outgoing, r.out)
              && (if going then Valid() && r.next == S.Receiving(View()) && conn.outgoing == old(conn.outgoing)
                  else r.next == S.Returned(false))
    {
      StoredEffect(Wire(h), View(), disk.View(), c, io.env);
      going := Store(c, io);
      if !going {
        SendError(conn, S.InternalError, io);
      }
    }

    method Store(c: ChunkMsg, io: Io) returns (ok: bool)
      requires Valid() && c.index < m.chunkCount
      modifies this, state`bitmap, hasher, disk
      ensures ok <==> Fits(c) && !io.env.fault.WriteFails?
      ensures ok ==> Valid() && View() == Counted(Hashed(old(View()), c), c)
      ensures disk.View() ==
              if ok then Saved(Written(old(disk.View()), c, io.env.fault), View().have, io.env.save)
              else if Fits(c) then Written(old(disk.View()), c, io.env.fault)
              else old(disk.View())
    {
      ok := Write(c, io.env.fault);
      if ok {
        Commit(c, io);
      }
    }

    ghost function Saved(d: S.Disk, have: set<nat>, outcome: S.SaveOutcome): S.Disk {
      S.Apply(d, S.SaveSidecar(S.Sidecar(S.Id(Wire(h), m), m.chunkCount, have), outcome))
    }

    /** What the machine makes of a chunk that passed the checks. */
    lemma StoredEffect(k: S.Scheme, p: S.Progress, d: S.Disk, c: ChunkMsg, env: S.Env)
      requires k == Wire(h) && p.m == m && c.index < m.chunkCount && h(c.data) == c.hash == m.chunkHashes[c.index]
      ensures var r, q, written := S.OnChunk(k, p, c, env), Counted(Hashed(p, c), c), Written(d, c, env.fault);
              if Fits(c) && !env.fault.WriteFails?
              then r.next == S.Receiving(q) && r.out == [] && S.ApplyAll(d, r.ops) == Saved(written, q.have, env.save)
              else && r.next == S.Returned(false) && r.out == S.Refuse(S.InternalError, env).out
                   && S.ApplyAll(d, r.ops) == if Fits(c) then written else d
    {
      var r := S.OnChunk(k, p, c, env);
      if !Fits(c) {
        assert S.ApplyAll(d, []) == d;
      } else if env.fault.WriteFails? {
        S.FailedEffect(k, p, d, c, env);
      } else {
        S.ApplyTwo(d, r.ops[0], r.ops[1]);
      }
    }

    /** The root hash: of what came in order, or of the partial file as far as it is read back. */
    method RootHash(stops: Option<nat>) returns (root: Digest)
      requires Valid()
      ensures root == h(S.RootInput(View(), disk.View(), stops))
    {
      if inOrder {
        root := hasher.Finalize();
      } else {
        root := HashFile(h, disk.partial.value, stops);
      }
    }

    method CheckCounts() returns (ok: bool)
      requires Valid()
      ensures ok == S.CountsRight(View())
    {
      if resume {
        ok := state.Complete();
      } else {
        ok := bytes == m.fileSize && chunks == m.chunkCount;
      }
    }

    /** Why COMPLETE is refused, if it is: the counts, the file to read back, both root hashes. */
    method CheckComplete(c: CompleteMsg, env: S.Env) returns (refusal: Option<S.ErrorCode>)
      requires Valid()
      ensures var unreadable := !View().inOrder && env.fault.ReadBackFails?;
              var root := h(S.RootInput(View(), disk.View(), env.stops));
              refusal == if !S.CountsRight(View()) then Some(S.ProtocolViolation)
                         else if unreadable then Some(S.InternalError)
                         else if root != m.rootHash || root != c.finalRootHash then Some(S.HashMismatch)
                         else None
    {
      var counted := CheckCounts();
      if !counted {
        return Some(S.ProtocolViolation);
      }
      if !inOrder && env.fault.ReadBackFails? {
        return Some(S.InternalError);
      }
      var root := RootHash(env.stops);
      if root != m.rootHash || root != c.finalRootHash {
        return Some(S.HashMismatch);
      }
      return None;
    }

    /** Deliver, remove the sidecar, acknowledge. */
    method Conclude(conn: Connection, io: Io) returns (ok: bool)
      requires Valid()
      modifies sink, disk, conn`outgoing
      ensures !io.env.fault.RenameFails? ==>
                && ok == io.env.sendOk && disk.View() == Concluded(old(disk.View()), io.env.removes)
                && exists n: nat ::
                     && (n + 1 == m.chunkCount || n == 0 == m.chunkCount)
                     && Sent(conn.crc, old(conn.outgoing), conn.outgoing, if ok then [S.MAck(n)] else [])
      ensures io.env.fault.RenameFails? ==>
                && !ok
                && disk.View() == (if io.env.fault.destLost then S.Apply(old(disk.View()), S.RemoveDest)
                                   else old(disk.View()))
                && Sent(conn.crc, old(conn.outgoing), conn.outgoing, S.Refuse(S.InternalError, io.env).out)
    {
      var done := sink.Finalize(io.env.fault);
      if !done {
        SendError(conn, S.InternalError, io);
        return false;
      }
      disk.RemoveSidecar(io.env.removes);
      var last := if m.chunkCount == 0 then 0 else m.chunkCount - 1;
      var f := F.Frame(F.Ack, EncodeAck(AckMsg(last)));
      AckRoundTrip(AckMsg(last));
      assert MsgOf(f) == S.MAck(last);
      ok := conn.SendFrame(f, Breaks(io));
    }

    static ghost function Concluded(d: S.Disk, removes: bool): S.Disk {
      var delivered := S.Apply(d, S.Deliver);
      if removes then S.Apply(delivered, S.RemoveSidecar) else delivered
    }

    /**
     * COMPLETE: check everything, deliver, remove the sidecar, acknowledge. A partial file that can be read
     * back, and whose hash is the one announced twice, is delivered.
     */
    method FinishTransfer(c: CompleteMsg, conn: Connection, io: Io) returns (ok: bool)
      requires Valid()
      modifies sink, disk, conn`outgoing
      ensures old(!inOrder && S.CountsRight(View()) && h(disk.partial.value) == m.rootHash == c.finalRootHash)
              && S.Smooth(io.env)
              ==> ok == io.env.sendOk && disk.View() == S.Disk(old(disk.partial), None, S.Absent)
      ensures var r := S.OnComplete(Wire(h), old(View()), old(disk.View()), c, io.env);
              && disk.View() == S.ApplyAll(old(disk.View()), r.ops)
              && Sent(conn.crc, old(conn.outgoing), conn.outgoing, r.out)
              && r.next == S.Returned(ok)
    {
      ghost var d := disk.View();
      assert S.ApplyAll(d, []) == d;
      var refusal := CheckComplete(c, io.env);
      if refusal.Some? {
        SendError(conn, refusal.value, io);
        return false;
      }
      ok := Conclude(conn, io);
      S.ApplyOne(d, S.RemoveDest);
      S.ApplyOne(d, S.Deliver);
      S.ApplyTwo(d, S.Deliver, S.RemoveSidecar);
    }

    /** One turn of the receive loop on a frame that has arrived. */
    method OnFrame(f: F.Frame, conn: Connection, io: Io) returns (going: bool, ok: bool)
      requires Valid()
      modifies this, state`bitmap, hasher, sink, disk, conn`outgoing
      ensures var r := S.React(Wire(h), S.Receiving(old(View())), old(disk.View()), S.Got(MsgOf(f), io.env));
              && disk.View() == S.ApplyAll(old(disk.View()), r.ops)
              && Sent(conn.crc, old(conn.outgoing), conn.outgoing, r.out)
              && (if going then Valid() && r.next == S.Receiving(View()) && conn.outgoing == old(conn.outgoing)
                  else r.next == S.Returned(ok))
    {
      assert S.ApplyAll(disk.View(), []) == disk.View();
      if f.ftype.Complete? {
        var complete := TakeComplete(f.payload);
        if complete.Some? {
          assert MsgOf(f) == S.MComplete(complete.value);
          ok := FinishTransfer(complete.value, conn, io);
          return false, ok;
        }
      } else if f.ftype.Chunk? {
        var chunk := TakeChunk(f.payload);
        if chunk.Some? {
          assert MsgOf(f) == S.MChunk(chunk.value);
          going := AcceptChunk(chunk.value, conn, io);
          return going, false;
        }
      }
      assert !MsgOf(f).MChunk? && !MsgOf(f).MComplete?;
      SendError(conn, S.ProtocolViolation, io);
      return false, false;
    }
  }

  /** A manifest that fits a frame has far fewer chunks than the bitmap can address. */
  lemma ManifestCountBound(payload: seq<byte>)
    requires |payload| <= F.MAX_PAYLOAD && DecodeManifest(payload).Some?
    ensures DecodeManifest(payload).value.chunkCount <= 0x20_0000
  {
  }

  /** Loads and reconciles the sidecar; a stale one is wiped before anything else is touched. */
  method Reconcile(h: Hasher, m: S.Manifest, disk: DiskFiles, removes: bool)
    returns (state: ResumeState, resume: bool)
    requires m.chunkCount <= 0x20_0000
    modifies disk`sidecar
    ensures fresh(state) && state.Valid() && state.id == S.Id(Wire(h), m) && state.count == m.chunkCount
    ensures resume == S.Matches(Wire(h), m, old(disk.View()).sidecar)
    ensures Have(state.Data()) == if resume then old(disk.View()).sidecar.have else {}
    ensures !resume && removes ==> disk.sidecar.None?
    ensures resume || !removes ==> disk.sidecar == old(disk.sidecar)
  {
    var enc := AppendManifest(m);
    var id := h(enc);
    var loaded := LoadState(disk.sidecar);
    if loaded.Some? && loaded.value.id == id && loaded.value.count == m.chunkCount {
      state := new ResumeState.FromData(loaded.value);
      resume := true;
    } else {
      disk.RemoveSidecar(removes);
      state := new ResumeState(id, m.chunkCount);
      resume := false;
    }
  }

  /** Reconcile and open the sink. */
  method OpenFiles(h: Hasher, m: S.Manifest, disk: DiskFiles, removes: bool, fault: S.Fault)
    returns (state: ResumeState, resume: bool, sink: FileSink)
    requires m.chunkCount <= 0x20_0000
    modifies disk
    ensures fresh(state) && fresh(sink) && state.Valid() && state.id == S.Id(Wire(h), m) && state.count == m.chunkCount
    ensures resume == S.Matches(Wire(h), m, old(disk.View()).sidecar)
    ensures Have(state.Data()) == if resume then old(disk.View()).sidecar.have else {}
    ensures sink.disk == disk && sink.total == m.fileSize && (sink.isOpen ==> disk.partial.Some?)
    ensures var reuse := resume && S.Reusable(m, old(disk.View())) && S.Reopens(fault);
            && sink.isOpen == (reuse || !S.CannotOpen(m.fileSize, fault))
            && disk.View() == OpenedDisk(old(disk.View()), !resume && removes, reuse || fault == S.OpenFails(false),
                                         S.CreatePartial(if S.CannotOpen(m.fileSize, fault) then 0 else m.fileSize))
  {
    state, resume := Reconcile(h, m, disk, removes);
    sink := new FileSink(disk);
    var _ := sink.Open(m.fileSize, resume, fault);
  }

  /** Reconcile, open the sink, and ask for what is missing. */
  method OpenTransfer(h: Hasher, m: S.Manifest, conn: Connection, disk: DiskFiles, io: Io) returns (t: Transfer?)
    requires m.chunkCount <= 0x20_0000 && !io.env.fault.PathRefused?
    modifies conn`outgoing, disk
    ensures var r := S.OnManifest(Wire(h), old(disk.View()), m, io.env);
            && disk.View() == S.ApplyAll(old(disk.View()), r.ops)
            && Sent(conn.crc, old(conn.outgoing), conn.outgoing, r.out)
            && (if t == null then r.next == S.Returned(false)
                else fresh(t) && fresh(t.state) && fresh(t.sink) && fresh(t.hasher) && t.h == h && t.disk == disk
                     && t.Valid() && r.next == S.Receiving(t.View()))
  {
    ghost var d := disk.View();
    var state, resume, sink := OpenFiles(h, m, disk, io.env.removes, io.env.fault);
    ghost var reuse := resume && S.Reusable(m, d) && S.Reopens(io.env.fault);
    OpenOps(d, !resume && io.env.removes, reuse || io.env.fault == S.OpenFails(false),
            S.CreatePartial(if S.CannotOpen(m.fileSize, io.env.fault) then 0 else m.fileSize));
    if !sink.isOpen {
      SendError(conn, S.InternalError, io);
      return null;
    }
    var ok := SendRequest(conn, state, io);
    MissingCount(Have(state.Data()), m.chunkCount);
    if !ok {
      return null;
    }
    t := new Transfer(h, disk, m, resume, state, sink);
  }

  ghost function OpenedDisk(d: S.Disk, wipe: bool, keep: bool, create: S.DiskOp): S.Disk {
    var wiped := if wipe then S.Apply(d, S.RemoveSidecar) else d;
    if keep then wiped else S.Apply(wiped, create)
  }

  lemma OpenOps(d: S.Disk, wipe: bool, keep: bool, create: S.DiskOp)
    ensures S.ApplyAll(d, (if wipe then [S.RemoveSidecar] else []) + (if keep then [] else [create]))
            == OpenedDisk(d, wipe, keep, create)
  {
    if wipe && !keep {
      assert [S.RemoveSidecar] + [create] == [S.RemoveSidecar, create];
      S.ApplyTwo(d, S.RemoveSidecar, create);
    } else if wipe {
      assert [S.RemoveSidecar] + [] == [S.RemoveSidecar];
      S.ApplyOne(d, S.RemoveSidecar);
    } else if !keep {
      assert [] + [create] == [create];
      S.ApplyOne(d, create);
    }
  }

  method SendRequest(conn: Connection, state: ResumeState, io: Io) returns (ok: bool)
    requires state.Valid() && state.count <= 0x20_0000
    modifies conn`outgoing
    ensures ok == io.env.sendOk
    ensures Sent(conn.crc, old(conn.outgoing), conn.outgoing,
                 if ok then [S.MReqChunks(Missing(Have(state.Data()), state.count))] else [])
  {
    var wanted := state.MissingChunks();
    MissingExact(Have(state.Data()), state.count);
    MissingCount(Have(state.Data()), state.count);
    forall i | 0 <= i < |wanted| ensures wanted[i] < state.count { assert wanted[i] in wanted; }
    var indices: seq<u32> := wanted;
    var payload := AppendReqChunks(ReqChunksMsg(indices));
    ReqChunksRoundTrip(ReqChunksMsg(indices));
    var f := F.Frame(F.ReqChunks, payload);
    assert MsgOf(f) == S.MReqChunks(wanted);
    ok := conn.SendFrame(f, Breaks(io));
  }

  /** Whether the path lies under the receiver's root is decided outside of this model. */
  method OnManifestFrame(h: Hasher, f: F.Frame, conn: Connection, disk: DiskFiles, io: Io) returns (t: Transfer?)
    requires |f.payload| <= F.MAX_PAYLOAD
    modifies conn`outgoing, disk
    ensures var r := S.React(Wire(h), S.AwaitManifest, old(disk.View()), S.Got(MsgOf(f), io.env));
            && disk.View() == S.ApplyAll(old(disk.View()), r.ops)
            && Sent(conn.crc, old(conn.outgoing), conn.outgoing, r.out)
            && (if t == null then r.next == S.Returned(false)
                else fresh(t) && fresh(t.state) && fresh(t.sink) && fresh(t.hasher) && t.h == h && t.disk == disk
                     && t.Valid() && r.next == S.Receiving(t.View()))
  {
    assert S.ApplyAll(disk.View(), []) == disk.View();
    if !f.ftype.Manifest? {
      return null;
    }
    var m := TakeManifest(f.payload);
    if m.None? {
      SendError(conn, S.ProtocolViolation, io);
      return null;
    }
    ManifestCanonical(f.payload);
    ManifestCountBound(f.payload);
    assert MsgOf(f) == S.MManifest(m.value);
    if io.env.fault.PathRefused? {
      SendError(conn, S.InvalidPath, io);
      return null;
    }
    t := OpenTransfer(h, m.value, conn, disk, io);
  }

  method ManifestPhase(h: Hasher, conn: Connection, disk: DiskFiles, io: Io) returns (t: Transfer?, ghost e: S.Event)
    requires Limited(conn.parser)
    modifies conn, disk
    ensures Heard(conn.parser, old(conn.incoming), conn.incoming, e) && Fated(e, io)
    ensures var r := S.React(Wire(h), S.AwaitManifest, old(disk.View()), e);
            && disk.View() == S.ApplyAll(old(disk.View()), r.ops)
            && Sent(conn.crc, old(conn.outgoing), conn.outgoing, r.out)
            && (if t == null then r.next == S.Returned(false)
                else fresh(t) && fresh(t.state) && fresh(t.sink) && fresh(t.hasher) && t.h == h && t.disk == disk
                     && t.Valid() && r.next == S.Receiving(t.View()))
  {
    FramesLimited(conn.parser, conn.incoming);
    var f, _ := conn.RecvFrame();
    if f.None? {
      assert S.ApplyAll(disk.View(), []) == disk.View();
      return null, S.Cut;
    }
    assert F.Parse(conn.parser, old(conn.incoming)).frames[0] == f.value;
    t := OnManifestFrame(h, f.value, conn, disk, io);
    e := S.Got(MsgOf(f.value), io.env);
  }

  // ---------------------------------------------------------------------
  // The whole session.
  // ---------------------------------------------------------------------

  type SessionMachine = Machine<S.Config, S.Event>

  /** Every frame and the end of the stream are for a session that has not returned. */
  predicate Serves(c: S.Config, e: S.Event) {
    !c.s.Returned? && !e.Begin?
  }

  function HearingOf(e: S.Event): Intake {
    match e
    case Begin => Quiet
    case Got(msg, _) => Hears(msg)
    case Cut => Ends
  }

  function MachineOf(h: Hasher): SessionMachine {
    Machine((c: S.Config, e: S.Event) => Serves(c, e),
            (c: S.Config, e: S.Event) => S.Step(Wire(h), c, e),
            (c: S.Config, e: S.Event) => S.React(Wire(h), c.s, c.d, e).out,
            HearingOf,
            (f: F.Frame) => MsgOf(f))
  }

  ghost predicate Models(mach: SessionMachine, h: Hasher) {
    && (forall c, e {:trigger Serves(c, e)} :: mach.may(c, e) == Serves(c, e))
    && (forall c, e {:trigger S.Step(Wire(h), c, e)} :: mach.step(c, e) == S.Step(Wire(h), c, e))
    && (forall c, e {:trigger S.React(Wire(h), c.s, c.d, e)} :: mach.out(c, e) == S.React(Wire(h), c.s, c.d, e).out)
    && (forall e {:trigger HearingOf(e)} :: mach.hears(e) == HearingOf(e))
    && (forall f {:trigger MsgOf(f)} :: mach.read(f) == MsgOf(f))
  }

  /** What the session machine does at an event, read off a machine that models it. */
  lemma Mirrors(mach: SessionMachine, h: Hasher, c: S.Config, e: S.Event, crc: F.Checksum,
                before: seq<byte>, after: seq<byte>)
    requires Models(mach, h) && Serves(c, e) && Sent(crc, before, after, S.React(Wire(h), c.s, c.d, e).out)
    ensures mach.may(c, e) && mach.hears(e) == HearingOf(e) && mach.step(c, e) == S.Step(Wire(h), c, e)
    ensures mach.out(c, e) == S.React(Wire(h), c.s, c.d, e).out
    ensures Wrote(mach.read, F.Encoder(crc), before, after, mach.out(c, e))
  {
    WroteSent(mach.read, crc, before, after, mach.out(c, e));
  }

  /** One receive and its handling, in terms of the machine. */
  method HelloTurn(h: Hasher, conn: Connection, io: Io, ghost d: S.Disk, ghost mach: SessionMachine,
                   ghost frames: seq<F.Frame>)
    returns (go: bool, ghost e: S.Event)
    requires Models(mach, h) && F.Parse(conn.parser, conn.incoming).frames == frames
    modifies conn
    ensures Comes(mach, frames, 0, e) && mach.may(S.Config(S.AwaitHello, d), e) && Fated(e, io)
    ensures mach.step(S.Config(S.AwaitHello, d), e) == S.Config(if go then S.AwaitManifest else S.Returned(false), d)
    ensures Wrote(mach.read, F.Encoder(conn.crc), old(conn.outgoing), conn.outgoing,
                  mach.out(S.Config(S.AwaitHello, d), e))
    ensures go ==> mach.out(S.Config(S.AwaitHello, d), e) != []
    ensures go ==> mach.hears(e).Hears? && frames != [] && F.Parse(conn.parser, conn.incoming).frames == frames[1..]
  {
    go, e := HelloPhase(Wire(h), d, conn, io);
    assert S.ApplyAll(d, []) == d;
    Mirrors(mach, h, S.Config(S.AwaitHello, d), e, conn.crc, old(conn.outgoing), conn.outgoing);
  }

  method ManifestTurn(h: Hasher, conn: Connection, disk: DiskFiles, io: Io, ghost mach: SessionMachine,
                      ghost frames: seq<F.Frame>, ghost n: nat)
    returns (t: Transfer?, ghost e: S.Event)
    requires Models(mach, h) && Limited(conn.parser)
    requires n <= |frames| && F.Parse(conn.parser, conn.incoming).frames == frames[n..]
    modifies conn, disk
    ensures Comes(mach, frames, n, e) && Fated(e, io)
    ensures var c := S.Config(S.AwaitManifest, old(disk.View()));
            && mach.may(c, e)
            && Wrote(mach.read, F.Encoder(conn.crc), old(conn.outgoing), conn.outgoing, mach.out(c, e))
            && (if t == null then mach.step(c, e) == S.Config(S.Returned(false), disk.View())
                else && fresh(t) && fresh(t.state) && fresh(t.sink) && fresh(t.hasher) && t.h == h && t.disk == disk
                     && t.Valid() && mach.step(c, e) == S.Config(S.Receiving(t.View()), disk.View())
                     && mach.out(c, e) != []
                     && mach.hears(e).Hears? && n < |frames|
                     && F.Parse(conn.parser, conn.incoming).frames == frames[n + 1..])
  {
    ghost var c := S.Config(S.AwaitManifest, disk.View());
    t, e := ManifestPhase(h, conn, disk, io);
    Mirrors(mach, h, c, e, conn.crc, old(conn.outgoing), conn.outgoing);
  }

  method LoopTurn(t: Transfer, conn: Connection, io: Io, ghost mach: SessionMachine, ghost frames: seq<F.Frame>,
                  ghost n: nat)
    returns (going: bool, ok: bool, ghost e: S.Event)
    requires t.Valid() && Models(mach, t.h)
    requires n <= |frames| && F.Parse(conn.parser, conn.incoming).frames == frames[n..]
    modifies t, t.state, t.hasher, t.sink, t.disk, conn
    ensures Comes(mach, frames, n, e) && Fated(e, io)
    ensures var c := S.Config(S.Receiving(old(t.View())), old(t.disk.View()));
            && mach.may(c, e)
            && Wrote(mach.read, F.Encoder(conn.crc), old(conn.outgoing), conn.outgoing, mach.out(c, e))
            && (if going
                then && t.Valid() && mach.step(c, e) == S.Config(S.Receiving(t.View()), t.disk.View())
                     && conn.outgoing == old(conn.outgoing)
                     && mach.hears(e).Hears? && n < |frames|
                     && F.Parse(conn.parser, conn.incoming).frames == frames[n + 1..]
                else mach.step(c, e) == S.Config(S.Returned(ok), t.disk.View()))
  {
    ghost var c := S.Config(S.Receiving(t.View()), t.disk.View());
    var f, _ := conn.RecvFrame();
    if f.None? {
      going, ok, e := false, false, S.Cut;
      assert S.ApplyAll(c.d, []) == c.d;
    } else {
      assert f.value == frames[n];
      going, ok := t.OnFrame(f.value, conn, io);
      e := S.Got(MsgOf(f.value), io.env);
    }
    Mirrors(mach, t.h, c, e, conn.crc, old(conn.outgoing), conn.outgoing);
  }

  /** The i-th event of the trace carries the i-th outcomes that were given. */
  ghost predicate Carries(trace: seq<S.Event>, fate: seq<Io>)
    decreases |trace|
  {
    trace != [] ==>
      var n := |trace| - 1;
      Carries(trace[..n], fate) && Fated(trace[n], At(fate, n))
  }

  lemma {:induction false} CarriesEach(trace: seq<S.Event>, fate: seq<Io>, i: nat)
    requires Carries(trace, fate) && i < |trace|
    ensures Fated(trace[i], At(fate, i))
    decreases |trace|
  {
    var n := |trace| - 1;
    if i < n { CarriesEach(trace[..n], fate, i); }
  }

  lemma CarriesMore(trace: seq<S.Event>, e: S.Event, fate: seq<Io>)
    requires Carries(trace, fate) && Fated(e, At(fate, |trace|))
    ensures Carries(trace + [e], fate)
  {
    assert (trace + [e])[..|trace|] == trace;
  }

  /** The receive loop, until COMPLETE, a fault, or the end of the stream. */
  method ReceiveLoop(t: Transfer, conn: Connection, fate: seq<Io>, ghost mach: SessionMachine, ghost c0: S.Config,
                     ghost frames: seq<F.Frame>, ghost out0: seq<byte>,
                     ghost trace0: seq<S.Event>, ghost sent0: seq<F.Frame>, ghost n0: nat)
    returns (ok: bool, ghost trace: seq<S.Event>, ghost sent: seq<F.Frame>, ghost n: nat)
    requires t.Valid() && Models(mach, t.h)
    requires n0 <= |frames| && F.Parse(conn.parser, conn.incoming).frames == frames[n0..]
    requires Explained(mach, c0, frames, trace0, S.Config(S.Receiving(t.View()), t.disk.View()), n0)
    requires Replied(mach, c0, trace0, sent0, F.Encoder(conn.crc), out0, conn.outgoing)
    requires |trace0| == 2 && Carries(trace0, fate)
    modifies t, t.state, t.hasher, t.sink, t.disk, conn
    ensures Carries(trace, fate)
    ensures Explained(mach, c0, frames, trace, S.Config(S.Returned(ok), t.disk.View()), n)
    ensures RepliedInPart(mach, c0, trace, sent, F.Encoder(conn.crc), out0, conn.outgoing)
  {
    trace, sent, n := trace0, sent0, n0;
    var turn := 2;
    while true
      invariant t.Valid() && turn == |trace| && Carries(trace, fate)
      invariant n <= |frames| && F.Parse(conn.parser, conn.incoming).frames == frames[n..]
      invariant Explained(mach, c0, frames, trace, S.Config(S.Receiving(t.View()), t.disk.View()), n)
      invariant Replied(mach, c0, trace, sent, F.Encoder(conn.crc), out0, conn.outgoing)
      decreases |frames| - n
    {
      ghost var c, mid := S.Config(S.Receiving(t.View()), t.disk.View()), conn.outgoing;
      var going, done, e := LoopTurn(t, conn, At(fate, turn), mach, frames, n);
      sent := Extend(mach, c0, frames, trace, c, n, e, F.Encoder(conn.crc), out0, mid, conn.outgoing, sent);
      CarriesMore(trace, e, fate);
      trace, turn := trace + [e], turn + 1;
      n := n + (if mach.hears(e).Hears? then 1 else 0);
      if !going {
        return done, trace, sent, n;
      }
    }
  }

  lemma MachineModels(h: Hasher)
    ensures Models(MachineOf(h), h)
  {
  }

  /**
   * The session from first receive to return. Whatever the stream delivers, wherever it ends, and
   * whatever outcomes of sends, saves and disk operations are given for its steps, the files, the replies
   * and the result are those of the session machine run on the frames of the stream with those outcomes.
   */
  method HandleSession(h: Hasher, conn: Connection, disk: DiskFiles, fate: seq<Io>)
    returns (ok: bool, ghost trace: seq<S.Event>, ghost sent: seq<F.Frame>, ghost n: nat)
    requires Limited(conn.parser)
    modifies conn, disk
    ensures Carries(trace, fate)
    ensures Explained(MachineOf(h), S.Config(S.AwaitHello, old(disk.View())),
                      F.Parse(conn.parser, old(conn.incoming)).frames, trace, S.Config(S.Returned(ok), disk.View()), n)
    ensures RepliedInPart(MachineOf(h), S.Config(S.AwaitHello, old(disk.View())), trace, sent,
                          F.Encoder(conn.crc), old(conn.outgoing), conn.outgoing)
  {
    MachineModels(h);
    ok, trace, sent, n := Conduct(h, conn, disk, fate, MachineOf(h));
  }

  method Conduct(h: Hasher, conn: Connection, disk: DiskFiles, fate: seq<Io>, ghost mach: SessionMachine)
    returns (ok: bool, ghost trace: seq<S.Event>, ghost sent: seq<F.Frame>, ghost n: nat)
    requires Limited(conn.parser) && Models(mach, h)
    modifies conn, disk
    ensures Carries(trace, fate)
    ensures Explained(mach, S.Config(S.AwaitHello, old(disk.View())),
                      F.Parse(conn.parser, old(conn.incoming)).frames, trace, S.Config(S.Returned(ok), disk.View()), n)
    ensures RepliedInPart(mach, S.Config(S.AwaitHello, old(disk.View())), trace, sent,
                          F.Encoder(conn.crc), old(conn.outgoing), conn.outgoing)
  {
    ghost var c0, enc := S.Config(S.AwaitHello, disk.View()), F.Encoder(conn.crc);
    ghost var frames, out0 := F.Parse(conn.parser, conn.incoming).frames, conn.outgoing;
    assert Explained(mach, c0, frames, [], c0, 0) && Replied(mach, c0, [], [], enc, out0, out0);

    var greeted, e := HelloTurn(h, conn, At(fate, 0), c0.d, mach, frames);
    sent := Extend(mach, c0, frames, [], c0, 0, e, enc, out0, out0, conn.outgoing, []);
    CarriesMore([], e, fate);
    trace, n := [] + [e], if mach.hears(e).Hears? then 1 else 0;
    if !greeted {
      return false, trace, sent, n;
    }

    ghost var c1, mid := S.Config(S.AwaitManifest, disk.View()), conn.outgoing;
    var t;
    t, e := ManifestTurn(h, conn, disk, At(fate, 1), mach, frames, 1);
    sent := Extend(mach, c0, frames, trace, c1, n, e, enc, out0, mid, conn.outgoing, sent);
    CarriesMore(trace, e, fate);
    trace, n := trace + [e], n + (if mach.hears(e).Hears? then 1 else 0);
    if t == null {
      return false, trace, sent, n;
    }
    ok, trace, sent, n := ReceiveLoop(t, conn, fate, mach, c0, frames, out0, trace, sent, n);
  }

  /** Following the machine's step function is running the session machine. */
  lemma {:induction false} FollowingIsRunning(h: Hasher, c: S.Config, trace: seq<S.Event>)
    ensures Fold(MachineOf(h).step, c, trace) == S.Run(Wire(h), c, trace)
    decreases |trace|
  {
    if trace != [] {
      FollowingIsRunning(h, S.Step(Wire(h), c, trace[0]), trace[1..]);
    }
  }
}
