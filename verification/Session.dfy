/**
 * The receiver as a machine: it blocks in a receive, reacts to what came (or to the stream's end) by
 * changing files and sending replies, and blocks again or returns.
 */
module Session {
  import opened Bytes
  import opened Messages
  import opened Chunks
  import opened Resume
  import F = Frames

  // ---------------------------------------------------------------------
  // Files next to one destination.
  // ---------------------------------------------------------------------

  datatype Sidecar = Absent | Unreadable | Sidecar(id: Digest, count: u32, have: set<nat>)

  datatype Disk = Disk(dest: Option<seq<byte>>, partial: Option<seq<byte>>, sidecar: Sidecar)

  /**
   * How an attempt to save the sidecar ends: written; not written; lost with the old one removed; or cut
   * short by a flush whose failure goes unnoticed.
   */
  datatype SaveOutcome = Saved | Kept | Lost | Truncated

  function AfterSave(was: Sidecar, content: Sidecar, outcome: SaveOutcome): Sidecar {
    match outcome
    case Saved => content
    case Kept => was
    case Lost => Absent
    case Truncated => Unreadable
  }

  datatype DiskOp =
    | RemoveSidecar
    | CreatePartial(size: nat)
    | WriteAt(off: nat, data: seq<byte>)
    | SaveSidecar(content: Sidecar, outcome: SaveOutcome)
    | Deliver
    | RemoveDest

  function Apply(d: Disk, op: DiskOp): Disk {
    match op
    case RemoveSidecar => d.(sidecar := Absent)
    case CreatePartial(size) => d.(partial := Some(Zeros(size)))
    case WriteAt(off, data) =>
      if d.partial.Some? then d.(partial := Some(Splice(d.partial.value, off, data))) else d
    case SaveSidecar(content, outcome) => d.(sidecar := AfterSave(d.sidecar, content, outcome))
    case Deliver =>
      if d.partial.Some? then d.(dest := d.partial, partial := None) else d
    case RemoveDest => d.(dest := None)
  }

  function ApplyAll(d: Disk, ops: seq<DiskOp>): Disk
    decreases |ops|
  {
    if ops == [] then d else ApplyAll(Apply(d, ops[0]), ops[1..])
  }

  // ---------------------------------------------------------------------
  // What is received and what is sent.
  // ---------------------------------------------------------------------

  /** A manifest that came through the decoder. */
  type Manifest = m: ManifestMsg | WellFormedManifest(m)
    witness ManifestMsg(0, 0, 0, Zeros(32), [], [])

  datatype ErrorCode = ProtocolViolation | UnsupportedVersion | HashMismatch | InvalidPath | InternalError

  datatype Msg =
    | MHello(hello: HelloMsg)
    | MManifest(manifest: Manifest)
    | MReqChunks(indices: seq<nat>)
    | MChunk(chunk: ChunkMsg)
    | MComplete(complete: CompleteMsg)
    | MAck(lastIndex: nat)
    | MError(code: ErrorCode)
    | MForeign
    | MMalformed(ftype: F.FrameType)

  /**
   * What may go wrong around a step: the destination path is refused; the partial file to resume cannot be
   * reopened and is made anew; it cannot be opened at all, or is truncated and then cannot be pre-sized; a
   * write fails after some bytes; the partial file cannot be read back; the final flush or rename fails,
   * and the old destination may have been removed on the way.
   */
  datatype Fault =
    | NoFault
    | PathRefused
    | ReopenFails
    | OpenFails(truncated: bool)
    | WriteFails(wrote: nat)
    | ReadBackFails
    | RenameFails(destLost: bool)

  /**
   * What the surroundings decide at a step: whether the reply gets out, how a save ends, whether a removal
   * of the sidecar works, where a read-back of the partial file breaks off, if it does, and what else fails.
   */
  datatype Env = Env(sendOk: bool, save: SaveOutcome, removes: bool, stops: Option<nat>, fault: Fault)

  /** Nothing fails, except that the reply may not get out. */
  function Calm(sendOk: bool): Env {
    Env(sendOk, Saved, true, None, NoFault)
  }

  /** The same, except that the save may end differently too. */
  function Saving(sendOk: bool, save: SaveOutcome): Env {
    Calm(sendOk).(save := save)
  }

  /** Nothing fails but, perhaps, the reply and the save. */
  predicate Smooth(env: Env) {
    env.removes && env.stops.None? && env.fault.NoFault?
  }

  /** Begin is a new connection; Cut is a receive that fails. */
  datatype Event = Begin | Got(msg: Msg, env: Env) | Cut

  /** The hash and the manifest encoding, fixed for a receiver. */
  datatype Scheme = Scheme(hash: Hasher, encode: Manifest -> seq<byte>)

  function Id(k: Scheme, m: Manifest): Digest {
    k.hash(k.encode(m))
  }

  // ---------------------------------------------------------------------
  // The receiver.
  // ---------------------------------------------------------------------

  const PROTOCOL_VERSION: byte := 1
  const OWN_HELLO: HelloMsg := HelloMsg(PROTOCOL_VERSION, 1024 * 1024, 0)
  const MAX_SEEK: nat := 0x8000_0000_0000_0000

  datatype Progress = Progress(m: Manifest, resume: bool, have: set<nat>, bytes: u64, chunks: u32,
                               hashed: seq<byte>, inOrder: bool, next: nat)

  datatype ServerState = AwaitHello | AwaitManifest | Receiving(p: Progress) | Returned(ok: bool)

  datatype Reaction = Reaction(next: ServerState, ops: seq<DiskOp>, out: seq<Msg>)

  function Silent(): Reaction {
    Reaction(Returned(false), [], [])
  }

  function Refuse(code: ErrorCode, env: Env): Reaction {
    Reaction(Returned(false), [], if env.sendOk then [MError(code)] else [])
  }

  function OnHello(hello: HelloMsg, env: Env): Reaction {
    if hello.version != PROTOCOL_VERSION then Refuse(UnsupportedVersion, env)
    else if env.sendOk then Reaction(AwaitManifest, [], [MHello(OWN_HELLO)])
    else Silent()
  }

  /** The sidecar on disk belongs to this very manifest. */
  predicate Matches(k: Scheme, m: Manifest, s: Sidecar) {
    s.Sidecar? && s.id == Id(k, m) && s.count == m.chunkCount
  }

  predicate Reusable(m: Manifest, d: Disk) {
    d.partial.Some? && |d.partial.value| >= m.fileSize
  }

  /** The partial file is made anew and that does not work out. */
  predicate CannotOpen(size: nat, fault: Fault) {
    size > MAX_SEEK || fault == OpenFails(false) || (fault == OpenFails(true) && size > 0)
  }

  predicate Reopens(fault: Fault) {
    !fault.ReopenFails? && !fault.OpenFails?
  }

  /** Reconcile the sidecar with the manifest, open the partial file, ask for what is missing. */
  function OnManifest(k: Scheme, d: Disk, m: Manifest, env: Env): Reaction {
    var resume := Matches(k, m, d.sidecar);
    var have := if resume then d.sidecar.have else {};
    var wipe := if resume || !env.removes then [] else [RemoveSidecar];
    var reuse := resume && Reusable(m, d) && Reopens(env.fault);
    if env.fault.PathRefused? then Refuse(InvalidPath, env)
    else if !reuse && CannotOpen(m.fileSize, env.fault) then
      Refuse(InternalError, env).(ops := wipe + if env.fault == OpenFails(false) then [] else [CreatePartial(0)])
    else
      var ops := wipe + (if reuse then [] else [CreatePartial(m.fileSize)]);
      var wanted := Missing(have, m.chunkCount);
      if env.sendOk && 4 + 4 * |wanted| <= F.MAX_PAYLOAD then
        Reaction(Receiving(Progress(m, resume, have, 0, 0, [], !resume, 0)), ops, [MReqChunks(wanted)])
      else Reaction(Returned(false), ops, [])
  }

  /** The progress after an accepted chunk, with the counters' widths. */
  function Accept(p: Progress, c: ChunkMsg): Progress {
    var ordered := p.inOrder && c.index == p.next;
    Progress(p.m, p.resume, p.have + {c.index}, Wrap64(p.bytes + |c.data|), Wrap32(p.chunks + 1),
             if ordered then p.hashed + c.data else p.hashed, ordered, if ordered then p.next + 1 else p.next)
  }

  /** Why a chunk is refused, if it is. */
  function ChunkFault(k: Scheme, p: Progress, c: ChunkMsg): Option<ErrorCode> {
    if c.index >= p.m.chunkCount then Some(ProtocolViolation)
    else if k.hash(c.data) != c.hash then Some(HashMismatch)
    else if p.m.chunkHashes[c.index] != c.hash then Some(HashMismatch)
    else if Wrap64(Offset(c.index, p.m.chunkSize) + |c.data|) > p.m.fileSize then Some(InternalError)
    else None
  }

  function Front(data: seq<byte>, n: nat): seq<byte> {
    if n <= |data| then data[..n] else data
  }

  /** Check, write, mark, save: in that order. */
  function OnChunk(k: Scheme, p: Progress, c: ChunkMsg, env: Env): Reaction {
    var fault := ChunkFault(k, p, c);
    if fault.Some? then Refuse(fault.value, env)
    else if env.fault.WriteFails? then
      Refuse(InternalError, env).(ops := [WriteAt(Offset(c.index, p.m.chunkSize), Front(c.data, env.fault.wrote))])
    else
      var q := Accept(p, c);
      Reaction(Receiving(q),
               [WriteAt(Offset(c.index, p.m.chunkSize), c.data),
                SaveSidecar(Sidecar(Id(k, p.m), p.m.chunkCount, q.have), env.save)],
               [])
  }

  predicate CountsRight(p: Progress) {
    if p.resume then Missing(p.have, p.m.chunkCount) == []
    else p.bytes == p.m.fileSize && p.chunks == p.m.chunkCount
  }

  /** What a read-back sees: an error ends it like the end of the file. */
  function ReadBack(file: seq<byte>, stops: Option<nat>): seq<byte> {
    if stops.None? then file else Front(file, stops.value)
  }

  /** The bytes whose hash stands for the whole file: those seen in order, or those read back from disk. */
  function RootInput(p: Progress, d: Disk, stops: Option<nat>): seq<byte>
    requires p.inOrder || d.partial.Some?
  {
    if p.inOrder then p.hashed else ReadBack(d.partial.value, stops)
  }

  function OnComplete(k: Scheme, p: Progress, d: Disk, c: CompleteMsg, env: Env): Reaction {
    if !CountsRight(p) then Refuse(ProtocolViolation, env)
    else if !p.inOrder && (d.partial.None? || env.fault.ReadBackFails?) then Refuse(InternalError, env)
    else
      var root := k.hash(RootInput(p, d, env.stops));
      if root != p.m.rootHash || root != c.finalRootHash then Refuse(HashMismatch, env)
      else if d.partial.None? || env.fault.RenameFails? then
        Refuse(InternalError, env).(ops := if env.fault == RenameFails(true) then [RemoveDest] else [])
      else
        var last := if p.m.chunkCount == 0 then 0 else p.m.chunkCount - 1;
        Reaction(Returned(env.sendOk), if env.removes then [Deliver, RemoveSidecar] else [Deliver],
                 if env.sendOk then [MAck(last)] else [])
  }

  function React(k: Scheme, s: ServerState, d: Disk, e: Event): Reaction {
    match e
    case Begin => Reaction(AwaitHello, [], [])
    case Cut => Reaction(if s.Returned? then s else Returned(false), [], [])
    case Got(msg, env) =>
      match s
      case Returned(_) => Reaction(s, [], [])
      case AwaitHello =>
        if msg.MHello? then OnHello(msg.hello, env)
        else if msg == MMalformed(F.Hello) then Refuse(ProtocolViolation, env)
        else Silent()
      case AwaitManifest =>
        if msg.MManifest? then OnManifest(k, d, msg.manifest, env)
        else if msg == MMalformed(F.Manifest) then Refuse(ProtocolViolation, env)
        else Silent()
      case Receiving(p) =>
        if msg.MChunk? then OnChunk(k, p, msg.chunk, env)
        else if msg.MComplete? then OnComplete(k, p, d, msg.complete, env)
        else Refuse(ProtocolViolation, env)
  }

  datatype Config = Config(s: ServerState, d: Disk)

  function Step(k: Scheme, c: Config, e: Event): Config {
    var r := React(k, c.s, c.d, e);
    Config(r.next, ApplyAll(c.d, r.ops))
  }

  function Run(k: Scheme, c: Config, events: seq<Event>): Config
    decreases |events|
  {
    if events == [] then c else Run(k, Step(k, c, events[0]), events[1..])
  }

  lemma {:induction false} RunAppend(k: Scheme, c: Config, a: seq<Event>, b: seq<Event>)
    ensures Run(k, c, a + b) == Run(k, Run(k, c, a), b)
    decreases |a|
  {
    if a == [] {
      assert a + b == b;
    } else {
      assert (a + b)[1..] == a[1..] + b;
      RunAppend(k, Step(k, c, a[0]), a[1..], b);
    }
  }

  lemma ApplyOne(d: Disk, a: DiskOp)
    ensures ApplyAll(d, [a]) == Apply(d, a)
  {
    assert [a][1..] == [];
  }

  lemma ApplyTwo(d: Disk, a: DiskOp, b: DiskOp)
    ensures ApplyAll(d, [a, b]) == Apply(Apply(d, a), b)
  {
    assert [a, b][1..] == [b];
    ApplyOne(Apply(d, a), b);
  }

  /** The effect of an accepted chunk. */
  lemma AcceptedEffect(k: Scheme, p: Progress, d: Disk, c: ChunkMsg, env: Env)
    requires ChunkFault(k, p, c).None? && !env.fault.WriteFails? && d.partial.Some?
    ensures var r := OnChunk(k, p, c, env);
            var saved := Sidecar(Id(k, p.m), p.m.chunkCount, p.have + {c.index});
            && r.next == Receiving(Accept(p, c)) && r.out == []
            && ApplyAll(d, r.ops) ==
               Disk(d.dest, Some(Splice(d.partial.value, Offset(c.index, p.m.chunkSize), c.data)),
                    AfterSave(d.sidecar, saved, env.save))
  {
    var r := OnChunk(k, p, c, env);
    ApplyTwo(d, r.ops[0], r.ops[1]);
  }

  /** The effect of a chunk whose write fails. */
  lemma FailedEffect(k: Scheme, p: Progress, d: Disk, c: ChunkMsg, env: Env)
    requires ChunkFault(k, p, c).None? && env.fault.WriteFails?
    ensures var r := OnChunk(k, p, c, env);
            && r.next == Returned(false) && r.out == Refuse(InternalError, env).out
            && ApplyAll(d, r.ops) == Apply(d, WriteAt(Offset(c.index, p.m.chunkSize), Front(c.data, env.fault.wrote)))
  {
    ApplyOne(d, OnChunk(k, p, c, env).ops[0]);
  }

  // ---------------------------------------------------------------------
  // Honest senders and collisions.
  // ---------------------------------------------------------------------

  /** A file to send, the chunk size, and the destination path. */
  datatype Job = Job(file: seq<byte>, chunkSize: nat, path: seq<byte>)

  /** Any file, chunk size and path the program can be given; only an empty file may have chunk size zero. */
  predicate Given(j: Job) {
    |j.file| < 0x1_0000_0000_0000_0000 && j.chunkSize < 0x1_0000_0000 && (j.file != [] ==> j.chunkSize > 0)
  }

  /** The count as the sender computes it, in 64 and then 32 bits. */
  function CountOf(j: Job): u32
    requires Given(j)
  {
    ChunkCount(|j.file|, j.chunkSize)
  }

  /** The bytes of the counted chunks: the file, unless the count was truncated. */
  function Covered(j: Job): seq<byte>
    requires Given(j)
  {
    EdgeMonotone(0, CountOf(j), j.chunkSize, |j.file|);
    j.file[..Edge(CountOf(j), j.chunkSize, |j.file|)]
  }

  /** The manifest the sender builds: one hash per counted chunk and a flat hash of them all. */
  function OfferOf(h: Hasher, j: Job): ManifestMsg
    requires Given(j)
  {
    ManifestMsg(|j.file|, j.chunkSize, CountOf(j), h(Covered(j)), j.path, ChunkHashes(h, j, CountOf(j)))
  }

  /** What the sender's arithmetic, the manifest's fields and the receiver's seeks can carry. */
  predicate Honest(j: Job) {
    && 0 < j.chunkSize < 0x1_0000_0000
    && |j.file| <= MAX_SEEK
    && Ceil(|j.file|, j.chunkSize) < 0x1_0000_0000
    && |j.path| < 0x1_0000
  }

  function Count(j: Job): nat
    requires j.chunkSize > 0
  {
    Ceil(|j.file|, j.chunkSize)
  }

  function ChunkHashes(h: Hasher, j: Job, n: nat): (s: seq<Digest>)
    ensures |s| == n
    ensures forall i :: 0 <= i < n ==> s[i] == h(Slice(j.file, j.chunkSize, i))
  {
    seq<Digest>(n, i requires 0 <= i < n => h(Slice(j.file, j.chunkSize, i)))
  }

  /** The manifest of an honest job: one hash per chunk and a flat hash of the file. */
  function ManifestOf(k: Scheme, j: Job): Manifest
    requires Honest(j)
  {
    ManifestMsg(|j.file|, j.chunkSize, Count(j), k.hash(j.file), j.path, ChunkHashes(k.hash, j, Count(j)))
  }

  ghost predicate CollisionFree(h: Hasher, strings: set<seq<byte>>) {
    forall a, b :: a in strings && b in strings && h(a) == h(b) ==> a == b
  }

  /** For an honest job the sender builds the honest manifest. */
  lemma HonestOffer(k: Scheme, j: Job)
    requires Honest(j)
    ensures Given(j) && CountOf(j) == Count(j) && Covered(j) == j.file && OfferOf(k.hash, j) == ManifestOf(k, j)
  {
    ChunkCountExact(|j.file|, j.chunkSize);
    EdgeEnds(j.chunkSize, |j.file|);
    assert j.file[..|j.file|] == j.file;
    assert ChunkHashes(k.hash, j, CountOf(j)) == ChunkHashes(k.hash, j, Count(j));
  }

  /** What the sender hashes for a job. */
  function SenderHashes(j: Job): set<seq<byte>>
    requires Given(j)
  {
    {Covered(j)} + set i | 0 <= i < CountOf(j) :: Slice(j.file, j.chunkSize, i)
  }

  /** What the receiver hashes when it reacts to an event. */
  function ReceiverHashes(k: Scheme, c: Config, e: Event): set<seq<byte>> {
    if !e.Got? then {}
    else if c.s.AwaitManifest? && e.msg.MManifest? && !e.env.fault.PathRefused? then {k.encode(e.msg.manifest)}
    else if c.s.Receiving? && e.msg.MChunk? && e.msg.chunk.index < c.s.p.m.chunkCount then {e.msg.chunk.data}
    else if c.s.Receiving? && e.msg.MComplete? && CountsRight(c.s.p)
            && (c.s.p.inOrder || (c.d.partial.Some? && !e.env.fault.ReadBackFails?))
    then {RootInput(c.s.p, c.d, e.env.stops)}
    else {}
  }

  /** Everything the receiver hashes in a run. */
  function RunHashes(k: Scheme, c: Config, events: seq<Event>): set<seq<byte>>
    decreases |events|
  {
    if events == [] then {}
    else ReceiverHashes(k, c, events[0]) + RunHashes(k, Step(k, c, events[0]), events[1..])
  }

  /** A chunk that passes the checks of a job's manifest is the right slice of the file. */
  lemma AcceptedIsSlice(k: Scheme, j: Job, p: Progress, c: ChunkMsg, seen: set<seq<byte>>)
    requires Given(j) && p.m == OfferOf(k.hash, j)
    requires SenderHashes(j) <= seen && c.data in seen && CollisionFree(k.hash, seen)
    requires ChunkFault(k, p, c).None?
    ensures c.index < CountOf(j) && c.data == Slice(j.file, j.chunkSize, c.index)
  {
    assert Slice(j.file, j.chunkSize, c.index) in SenderHashes(j);
  }
}
