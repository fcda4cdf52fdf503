/** The sidecar never claims a chunk that the partial file does not hold. */
module ResumeSafety {
  import opened Bytes
  import opened Messages
  import opened Chunks
  import opened Session

  /** The partial file has the file's length and holds every chunk in have. */
  ghost predicate GoodBits(j: Job, partial: Option<seq<byte>>, have: set<nat>)
    requires Honest(j)
  {
    && partial.Some? && |partial.value| == |j.file|
    && forall i :: i in have && i < Count(j) ==> Has(partial.value, j.file, j.chunkSize, i)
  }

  /** If the sidecar carries the id of the job's manifest, its bits are true. */
  ghost predicate DiskOk(k: Scheme, j: Job, d: Disk)
    requires Honest(j)
  {
    Matches(k, ManifestOf(k, j), d.sidecar) ==> GoodBits(j, d.partial, d.sidecar.have)
  }

  /** What a running session keeps: true bits in memory, or an id other than the job's. */
  ghost predicate Coupled(k: Scheme, j: Job, s: ServerState, d: Disk)
    requires Honest(j)
  {
    s.Receiving? ==>
      if s.p.m == ManifestOf(k, j) then GoodBits(j, d.partial, s.p.have)
      else Id(k, s.p.m) != Id(k, ManifestOf(k, j))
  }

  ghost predicate Safe(k: Scheme, j: Job, c: Config)
    requires Honest(j)
  {
    DiskOk(k, j, c.d) && Coupled(k, j, c.s, c.d)
  }

  /** A rename that the sidecar's removal follows. */
  predicate Passing(ops: seq<DiskOp>) {
    |ops| > 1 && ops[0].Deliver? && ops[1].RemoveSidecar?
  }

  /** The bits are true after every single file operation, except between the rename and the sidecar's removal. */
  ghost predicate AlwaysOk(k: Scheme, j: Job, d: Disk, ops: seq<DiskOp>)
    requires Honest(j)
    decreases |ops|
  {
    ops == [] ||
    ((Passing(ops) || DiskOk(k, j, Apply(d, ops[0]))) && AlwaysOk(k, j, Apply(d, ops[0]), ops[1..]))
  }

  lemma AlwaysOne(k: Scheme, j: Job, d: Disk, a: DiskOp)
    requires Honest(j)
    ensures AlwaysOk(k, j, d, [a]) <==> DiskOk(k, j, Apply(d, a))
  {
    assert [a][1..] == [];
  }

  lemma AlwaysTwo(k: Scheme, j: Job, d: Disk, a: DiskOp, b: DiskOp)
    requires Honest(j)
    ensures AlwaysOk(k, j, d, [a, b]) <==>
            && (Passing([a, b]) || DiskOk(k, j, Apply(d, a)))
            && DiskOk(k, j, Apply(Apply(d, a), b))
  {
    assert [a, b][1..] == [b];
    AlwaysOne(k, j, Apply(d, a), b);
  }

  /** Distinct manifests have distinct encodings. */
  ghost predicate Injective(k: Scheme) {
    forall a, b :: k.encode(a) == k.encode(b) ==> a == b
  }

  // ---------------------------------------------------------------------
  // The steps that make a claim false.
  // ---------------------------------------------------------------------

  /** The sidecar claims chunks of the job. */
  predicate Claims(k: Scheme, j: Job, d: Disk)
    requires Honest(j)
  {
    Matches(k, ManifestOf(k, j), d.sidecar)
  }

  /** Opening for a manifest truncates the partial file. */
  predicate Truncates(k: Scheme, d: Disk, m: Manifest, env: Env) {
    && !env.fault.PathRefused? && env.fault != OpenFails(false)
    && !(Matches(k, m, d.sidecar) && Reusable(m, d) && Reopens(env.fault))
  }

  /** The length the truncated file is given. */
  function NewSize(m: Manifest, env: Env): nat {
    if CannotOpen(m.fileSize, env.fault) then 0 else m.fileSize
  }

  predicate ZeroClaims(j: Job, have: set<nat>)
    requires Honest(j)
  {
    forall i :: i in have && i < Count(j) ==> AllZero(Slice(j.file, j.chunkSize, i))
  }

  /**
   * The partial file is truncated under the job's sidecar: by the job's own manifest, which keeps it, or by
   * another one whose wipe of it fails. That is harmless only if the new file of zeros has the file's
   * length and every claimed chunk is zeros.
   */
  predicate OpeningHarms(k: Scheme, j: Job, d: Disk, m: Manifest, env: Env)
    requires Honest(j)
  {
    && Claims(k, j, d) && (m == ManifestOf(k, j) || !env.removes) && Truncates(k, d, m, env)
    && !(NewSize(m, env) == |j.file| && ZeroClaims(j, d.sidecar.have))
  }

  /** Writing data at off changes a byte of a claimed chunk, or the length. */
  ghost predicate Spoils(j: Job, have: set<nat>, off: nat, data: seq<byte>)
    requires Honest(j)
  {
    data != [] &&
    (off + |data| > |j.file| || exists i :: i in have && i < Count(j) && SpoilsChunk(j, i, off, data))
  }

  ghost predicate SpoilsChunk(j: Job, i: nat, off: nat, data: seq<byte>) {
    exists x :: SpoilsAt(j, i, off, data, x)
  }

  predicate SpoilsAt(j: Job, i: nat, off: nat, data: seq<byte>, x: nat) {
    && Edge(i, j.chunkSize, |j.file|) <= x < Edge(i + 1, j.chunkSize, |j.file|) <= |j.file|
    && off <= x < off + |data| && data[x - off] != j.file[x]
  }

  /** How much of a chunk gets written. */
  function Reached(c: ChunkMsg, env: Env): seq<byte> {
    if env.fault.WriteFails? then Front(c.data, env.fault.wrote) else c.data
  }

  /** A chunk of another manifest, in a session whose wipe of the job's sidecar failed, spoils a claim. */
  ghost predicate ChunkHarms(k: Scheme, j: Job, p: Progress, d: Disk, c: ChunkMsg, env: Env)
    requires Honest(j)
  {
    && p.m != ManifestOf(k, j) && Claims(k, j, d) && ChunkFault(k, p, c).None?
    && Spoils(j, d.sidecar.have, Offset(c.index, p.m.chunkSize), Reached(c, env))
  }

  /** The partial file is renamed away and the removal of the job's sidecar fails. */
  predicate CompleteHarms(k: Scheme, j: Job, p: Progress, d: Disk, c: CompleteMsg, env: Env)
    requires Honest(j)
  {
    Claims(k, j, d) && !env.removes && Deliver in OnComplete(k, p, d, c, env).ops
  }

  /** The event makes a claim of the job false. */
  ghost predicate Harms(k: Scheme, j: Job, c: Config, e: Event)
    requires Honest(j)
  {
    e.Got? &&
    match c.s
    case AwaitManifest => e.msg.MManifest? && OpeningHarms(k, j, c.d, e.msg.manifest, e.env)
    case Receiving(p) =>
      || (e.msg.MChunk? && ChunkHarms(k, j, p, c.d, e.msg.chunk, e.env))
      || (e.msg.MComplete? && CompleteHarms(k, j, p, c.d, e.msg.complete, e.env))
    case _ => false
  }

  // ---------------------------------------------------------------------
  // Each kind of step: the claims stay true exactly if it is not one of those.
  // ---------------------------------------------------------------------

  lemma ZerosGood(j: Job, n: nat, have: set<nat>)
    requires Honest(j)
    ensures GoodBits(j, Some(Zeros(n)), have) <==> n == |j.file| && ZeroClaims(j, have)
  {
    forall i | i in have && i < Count(j)
      ensures Has(Zeros(|j.file|), j.file, j.chunkSize, i) <==> AllZero(Slice(j.file, j.chunkSize, i))
    {
      ZeroChunk(j.file, j.chunkSize, i);
    }
  }

  /** A manifest, this job's or any other, honest or not. */
  lemma ManifestExact(k: Scheme, j: Job, d: Disk, m: Manifest, env: Env)
    requires Honest(j) && DiskOk(k, j, d)
    requires m != ManifestOf(k, j) ==> Id(k, m) != Id(k, ManifestOf(k, j))
    ensures var r := OnManifest(k, d, m, env);
            && (AlwaysOk(k, j, d, r.ops) <==> !OpeningHarms(k, j, d, m, env))
            && (!OpeningHarms(k, j, d, m, env) ==> Safe(k, j, Config(r.next, ApplyAll(d, r.ops))))
  {
    var r, create := OnManifest(k, d, m, env), CreatePartial(NewSize(m, env));
    ZerosGood(j, NewSize(m, env), if d.sidecar.Sidecar? then d.sidecar.have else {});
    ZerosGood(j, |j.file|, {});
    if |r.ops| == 2 {
      assert r.ops == [RemoveSidecar, create];
      ApplyTwo(d, RemoveSidecar, create);
      AlwaysTwo(k, j, d, RemoveSidecar, create);
    } else if |r.ops| == 1 {
      assert r.ops == [r.ops[0]];
      ApplyOne(d, r.ops[0]);
      AlwaysOne(k, j, d, r.ops[0]);
    } else {
      assert r.ops == [] && ApplyAll(d, []) == d;
    }
  }

  lemma WriteKeepsGood(j: Job, was: seq<byte>, i: nat, have: set<nat>)
    requires Honest(j) && i < Count(j) && GoodBits(j, Some(was), have)
    ensures var now := Splice(was, Offset(i, j.chunkSize), Slice(j.file, j.chunkSize, i));
            GoodBits(j, Some(now), have + {i})
  {
    WriteSlice(was, j.file, j.chunkSize, i);
  }

  /** A chunk of this job's session whose write fails partway. */
  lemma FailedWriteSafe(k: Scheme, j: Job, p: Progress, d: Disk, c: ChunkMsg, env: Env)
    requires Honest(j) && p.m == ManifestOf(k, j) && Safe(k, j, Config(Receiving(p), d))
    requires ChunkFault(k, p, c).None? && env.fault.WriteFails?
    requires c.index < Count(j) && c.data == Slice(j.file, j.chunkSize, c.index)
    ensures var r := OnChunk(k, p, c, env);
            AlwaysOk(k, j, d, r.ops) && Safe(k, j, Config(r.next, ApplyAll(d, r.ops)))
  {
    var r := OnChunk(k, p, c, env);
    WritePart(d.partial.value, j.file, j.chunkSize, c.index, Front(c.data, env.fault.wrote));
    ApplyOne(d, r.ops[0]);
    AlwaysOne(k, j, d, r.ops[0]);
  }

  /** A chunk of this job's session: written, then marked, then saved. */
  lemma OwnChunkSafe(k: Scheme, j: Job, p: Progress, d: Disk, c: ChunkMsg, env: Env)
    requires Honest(j) && p.m == ManifestOf(k, j) && Safe(k, j, Config(Receiving(p), d))
    requires ChunkFault(k, p, c).None? && !env.fault.WriteFails?
    requires c.index < Count(j) && c.data == Slice(j.file, j.chunkSize, c.index)
    ensures var r := OnChunk(k, p, c, env);
            AlwaysOk(k, j, d, r.ops) && Safe(k, j, Config(r.next, ApplyAll(d, r.ops)))
  {
    var r := OnChunk(k, p, c, env);
    AcceptedEffect(k, p, d, c, env);
    WriteKeepsGood(j, d.partial.value, c.index, p.have);
    if Matches(k, p.m, d.sidecar) {
      WriteKeepsGood(j, d.partial.value, c.index, d.sidecar.have);
    }
    ApplyTwo(d, r.ops[0], r.ops[1]);
    AlwaysTwo(k, j, d, r.ops[0], r.ops[1]);
  }

  lemma WriteExact(j: Job, was: seq<byte>, have: set<nat>, off: nat, data: seq<byte>)
    requires Honest(j) && GoodBits(j, Some(was), have)
    ensures GoodBits(j, Some(Splice(was, off, data)), have) <==> !Spoils(j, have, off, data)
  {
    if data != [] && off + |data| <= |j.file| {
      forall i | i in have && i < Count(j)
        ensures Has(Splice(was, off, data), j.file, j.chunkSize, i) <==> !SpoilsChunk(j, i, off, data)
      {
        ChunkSpoilt(j, was, i, off, data);
      }
    }
  }

  lemma ChunkSpoilt(j: Job, was: seq<byte>, i: nat, off: nat, data: seq<byte>)
    requires |was| == |j.file| && Has(was, j.file, j.chunkSize, i) && data != [] && off + |data| <= |j.file|
    ensures Has(Splice(was, off, data), j.file, j.chunkSize, i) <==> !SpoilsChunk(j, i, off, data)
  {
    var now, a, b := Splice(was, off, data), Edge(i, j.chunkSize, |j.file|), Edge(i + 1, j.chunkSize, |j.file|);
    EdgeMonotone(i, i + 1, j.chunkSize, |j.file|);
    forall x | a <= x < b ensures now[x] != j.file[x] <==> SpoilsAt(j, i, off, data, x) {
      SpliceAt(was, off, data, x);
    }
  }

  lemma SpliceAt(was: seq<byte>, off: nat, data: seq<byte>, x: nat)
    requires off + |data| <= |was| && x < |was|
    ensures Splice(was, off, data)[x] == if off <= x < off + |data| then data[x - off] else was[x]
  {
  }

  /** A chunk of another manifest's session. */
  lemma ForeignChunkExact(k: Scheme, j: Job, p: Progress, d: Disk, c: ChunkMsg, env: Env)
    requires Honest(j) && p.m != ManifestOf(k, j) && Safe(k, j, Config(Receiving(p), d))
    requires ChunkFault(k, p, c).None?
    ensures var r := OnChunk(k, p, c, env);
            && (AlwaysOk(k, j, d, r.ops) <==> !ChunkHarms(k, j, p, d, c, env))
            && (!ChunkHarms(k, j, p, d, c, env) ==> Safe(k, j, Config(r.next, ApplyAll(d, r.ops))))
  {
    var r, off := OnChunk(k, p, c, env), Offset(c.index, p.m.chunkSize);
    if Claims(k, j, d) {
      WriteExact(j, d.partial.value, d.sidecar.have, off, Reached(c, env));
    }
    if env.fault.WriteFails? {
      ApplyOne(d, r.ops[0]);
      AlwaysOne(k, j, d, r.ops[0]);
    } else {
      ApplyTwo(d, r.ops[0], r.ops[1]);
      AlwaysTwo(k, j, d, r.ops[0], r.ops[1]);
    }
  }

  lemma CompleteExact(k: Scheme, j: Job, p: Progress, d: Disk, c: CompleteMsg, env: Env)
    requires Honest(j) && Safe(k, j, Config(Receiving(p), d))
    ensures var r := OnComplete(k, p, d, c, env);
            && (AlwaysOk(k, j, d, r.ops) <==> !CompleteHarms(k, j, p, d, c, env))
            && (!CompleteHarms(k, j, p, d, c, env) ==> Safe(k, j, Config(r.next, ApplyAll(d, r.ops))))
  {
    var r := OnComplete(k, p, d, c, env);
    if r.ops == [] {
      assert ApplyAll(d, []) == d;
    } else if |r.ops| == 1 {
      assert r.ops == [r.ops[0]];
      ApplyOne(d, r.ops[0]);
      AlwaysOne(k, j, d, r.ops[0]);
    } else {
      ApplyTwo(d, Deliver, RemoveSidecar);
      AlwaysTwo(k, j, d, Deliver, RemoveSidecar);
    }
  }

  /** What the sender hashes for an honest job, and its manifest. */
  function HonestHashes(k: Scheme, j: Job): set<seq<byte>>
    requires Honest(j)
  {
    HonestOffer(k, j);
    SenderHashes(j) + {k.encode(ManifestOf(k, j))}
  }

  lemma OwnSlice(k: Scheme, j: Job, p: Progress, c: ChunkMsg, seen: set<seq<byte>>)
    requires Honest(j) && p.m == ManifestOf(k, j) && ChunkFault(k, p, c).None?
    requires HonestHashes(k, j) <= seen && c.data in seen && CollisionFree(k.hash, seen)
    ensures c.index < Count(j) && c.data == Slice(j.file, j.chunkSize, c.index)
  {
    HonestOffer(k, j);
    AcceptedIsSlice(k, j, p, c, seen);
  }

  /** Another manifest has another id. */
  lemma ManifestIds(k: Scheme, j: Job, m: Manifest, seen: set<seq<byte>>)
    requires Honest(j) && Injective(k)
    requires HonestHashes(k, j) <= seen && k.encode(m) in seen && CollisionFree(k.hash, seen)
    ensures m != ManifestOf(k, j) ==> Id(k, m) != Id(k, ManifestOf(k, j))
  {
    assert k.encode(ManifestOf(k, j)) in HonestHashes(k, j);
  }

  /** Every event of every history: the claims stay true through it exactly if it does not harm them. */
  lemma StepExact(k: Scheme, j: Job, c: Config, e: Event, seen: set<seq<byte>>)
    requires Honest(j) && Safe(k, j, c) && Injective(k)
    requires HonestHashes(k, j) <= seen && ReceiverHashes(k, c, e) <= seen && CollisionFree(k.hash, seen)
    ensures AlwaysOk(k, j, c.d, React(k, c.s, c.d, e).ops) <==> !Harms(k, j, c, e)
    ensures !Harms(k, j, c, e) ==> Safe(k, j, Step(k, c, e))
  {
    assert ApplyAll(c.d, []) == c.d;
    if e.Got? && c.s.AwaitManifest? && e.msg.MManifest? {
      if !e.env.fault.PathRefused? {
        ManifestIds(k, j, e.msg.manifest, seen);
        ManifestExact(k, j, c.d, e.msg.manifest, e.env);
      }
    } else if e.Got? && c.s.Receiving? && e.msg.MChunk? {
      ChunkExact(k, j, c.s.p, c.d, e.msg.chunk, e.env, seen);
    } else if e.Got? && c.s.Receiving? && e.msg.MComplete? {
      CompleteExact(k, j, c.s.p, c.d, e.msg.complete, e.env);
    }
  }

  lemma ChunkExact(k: Scheme, j: Job, p: Progress, d: Disk, c: ChunkMsg, env: Env, seen: set<seq<byte>>)
    requires Honest(j) && Safe(k, j, Config(Receiving(p), d)) && CollisionFree(k.hash, seen)
    requires HonestHashes(k, j) <= seen && (c.index < p.m.chunkCount ==> c.data in seen)
    ensures var r := OnChunk(k, p, c, env);
            && (AlwaysOk(k, j, d, r.ops) <==> !ChunkHarms(k, j, p, d, c, env))
            && (!ChunkHarms(k, j, p, d, c, env) ==> Safe(k, j, Config(r.next, ApplyAll(d, r.ops))))
  {
    if ChunkFault(k, p, c).Some? {
      assert ApplyAll(d, []) == d;
    } else if p.m != ManifestOf(k, j) {
      ForeignChunkExact(k, j, p, d, c, env);
    } else {
      OwnSlice(k, j, p, c, seen);
      if env.fault.WriteFails? {
        FailedWriteSafe(k, j, p, d, c, env);
      } else {
        OwnChunkSafe(k, j, p, d, c, env);
      }
    }
  }

  // ---------------------------------------------------------------------
  // Whole histories.
  // ---------------------------------------------------------------------

  /** The bits are true after every file operation of a run, but for the instant before a sidecar's removal. */
  ghost predicate AlwaysOkRun(k: Scheme, j: Job, c: Config, events: seq<Event>)
    requires Honest(j)
    decreases |events|
  {
    events == [] ||
    (AlwaysOk(k, j, c.d, React(k, c.s, c.d, events[0]).ops) && AlwaysOkRun(k, j, Step(k, c, events[0]), events[1..]))
  }

  /** No event of the run harms a claim of the job. */
  ghost predicate Unharmed(k: Scheme, j: Job, c: Config, events: seq<Event>)
    requires Honest(j)
    decreases |events|
  {
    events == [] || (!Harms(k, j, c, events[0]) && Unharmed(k, j, Step(k, c, events[0]), events[1..]))
  }

  /**
   * The resume invariant over any history at one destination: sessions for this job's manifest and for
   * any other manifests, honest or not, with any frames from the peer, cut anywhere, files failing or not.
   * What the sidecar claims of the job is true after every file operation if and only if no event is one
   * of three: the partial file is truncated under a sidecar that stays, a foreign chunk overwrites a claim
   * that a failed wipe has left, or a delivery is not followed by the removal of the sidecar.
   */
  lemma {:induction false} ResumeInvariant(k: Scheme, j: Job, c: Config, events: seq<Event>, seen: set<seq<byte>>)
    requires Honest(j) && Safe(k, j, c) && Injective(k)
    requires HonestHashes(k, j) <= seen && RunHashes(k, c, events) <= seen && CollisionFree(k.hash, seen)
    ensures AlwaysOkRun(k, j, c, events) <==> Unharmed(k, j, c, events)
    ensures Unharmed(k, j, c, events) ==> Safe(k, j, Run(k, c, events))
    decreases |events|
  {
    if events != [] {
      StepExact(k, j, c, events[0], seen);
      if !Harms(k, j, c, events[0]) {
        ResumeInvariant(k, j, Step(k, c, events[0]), events[1..], seen);
      }
    }
  }
}
