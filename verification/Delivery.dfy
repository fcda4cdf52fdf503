/** No wrong file is ever delivered, and the fast root hash stands for the bytes on disk. */
module Delivery {
  import opened Bytes
  import opened Messages
  import opened Chunks
  import opened Session

  /** The first chunks came in order, once each, were hashed as they came, and are on disk. */
  ghost predicate InOrder(j: Job, p: Progress, partial: seq<byte>) {
    && !p.resume && p.next <= p.m.chunkCount && p.chunks == p.next
    && p.bytes == Edge(p.next, j.chunkSize, |j.file|)
    && p.hashed == j.file[..Edge(p.next, j.chunkSize, |j.file|)]
    && forall i :: 0 <= i < p.next ==> Has(partial, j.file, j.chunkSize, i)
  }

  ghost predicate Tracks(j: Job, p: Progress, d: Disk) {
    && d.partial.Some? && |d.partial.value| >= |j.file|
    && (!p.resume ==> |d.partial.value| == |j.file|)
    && (p.inOrder ==> InOrder(j, p, d.partial.value))
  }

  /** Whatever the files held before, a session for a job's manifest starts on track. */
  lemma ManifestTracks(k: Scheme, j: Job, d: Disk, m: Manifest, env: Env)
    requires Given(j) && m == OfferOf(k.hash, j)
    ensures var r := OnManifest(k, d, m, env);
            var d' := ApplyAll(d, r.ops);
            d'.dest == d.dest && (r.next.Receiving? ==> r.next.p.m == m && Tracks(j, r.next.p, d'))
  {
    var r := OnManifest(k, d, m, env);
    if |r.ops| == 2 {
      assert r.ops == [r.ops[0], r.ops[1]];
      ApplyTwo(d, r.ops[0], r.ops[1]);
    } else if |r.ops| == 1 {
      assert r.ops == [r.ops[0]];
      ApplyOne(d, r.ops[0]);
    } else {
      assert ApplyAll(d, []) == d;
    }
  }

  /** The counters do not wrap while chunks come in order. */
  lemma CountersExact(j: Job, p: Progress, c: ChunkMsg, partial: seq<byte>)
    requires Given(j) && InOrder(j, p, partial) && p.inOrder
    requires c.index == p.next < p.m.chunkCount && c.data == Slice(j.file, j.chunkSize, c.index)
    ensures var q := Accept(p, c);
            && q.next == p.next + 1 && q.chunks == q.next
            && q.bytes == Edge(q.next, j.chunkSize, |j.file|)
            && q.hashed == j.file[..Edge(q.next, j.chunkSize, |j.file|)]
  {
    EdgeMonotone(p.next, p.next + 1, j.chunkSize, |j.file|);
    var a, b := Edge(p.next, j.chunkSize, |j.file|), Edge(p.next + 1, j.chunkSize, |j.file|);
    assert p.bytes + |c.data| == b;
    assert j.file[..a] + j.file[a..b] == j.file[..b];
  }

  /** Any chunk that is accepted is the right one and lands in the right place. */
  lemma ChunkTracks(k: Scheme, j: Job, p: Progress, d: Disk, c: ChunkMsg, env: Env)
    requires Given(j) && p.m == OfferOf(k.hash, j) && Tracks(j, p, d)
    requires ChunkFault(k, p, c).None?
    requires c.index < CountOf(j) && c.data == Slice(j.file, j.chunkSize, c.index)
    ensures var r := OnChunk(k, p, c, env);
            var d' := ApplyAll(d, r.ops);
            && d'.dest == d.dest && (r.next.Receiving? ==> r.next.p.m == p.m && Tracks(j, r.next.p, d'))
            && r.next != Returned(true)
  {
    if env.fault.WriteFails? {
      ApplyOne(d, OnChunk(k, p, c, env).ops[0]);
    } else {
      AcceptedEffect(k, p, d, c, env);
      ChunkCountBelow(|j.file|, j.chunkSize);
      WriteTracks(j, p, c, d.partial.value);
    }
  }

  lemma WriteTracks(j: Job, p: Progress, c: ChunkMsg, was: seq<byte>)
    requires Given(j) && |was| >= |j.file| && (p.inOrder ==> InOrder(j, p, was))
    requires j.chunkSize > 0 && c.index < p.m.chunkCount <= Ceil(|j.file|, j.chunkSize)
    requires c.data == Slice(j.file, j.chunkSize, c.index)
    ensures var now := Splice(was, Offset(c.index, j.chunkSize), c.data);
            |now| == |was| && (Accept(p, c).inOrder ==> InOrder(j, Accept(p, c), now))
  {
    WriteSlice(was, j.file, j.chunkSize, c.index);
    if p.inOrder && c.index == p.next {
      CountersExact(j, p, c, was);
    }
  }

  /**
   * In order and complete means that the counted chunks are the whole file, and that what was hashed is
   * what is on disk.
   */
  lemma FastRootIsDiskRoot(k: Scheme, j: Job, p: Progress, d: Disk)
    requires Given(j) && p.m == OfferOf(k.hash, j) && Tracks(j, p, d)
    requires p.inOrder && CountsRight(p)
    ensures p.next == CountOf(j) && p.hashed == d.partial.value == Covered(j) == j.file
  {
    var n := CountOf(j);
    assert Edge(n, j.chunkSize, |j.file|) == |j.file|;
    if j.chunkSize > 0 {
      HasFirst(d.partial.value, j.file, j.chunkSize, n);
    }
    assert d.partial.value[..|j.file|] == d.partial.value && j.file[..|j.file|] == j.file;
  }

  /** The final rename failed after the old destination had been removed to make room. */
  predicate DestLost(env: Env) {
    env.fault == RenameFails(true)
  }

  /** The step puts the partial file at the destination. */
  predicate Delivers(k: Scheme, c: Config, e: Event) {
    Deliver in React(k, c.s, c.d, e).ops
  }

  /** A delivery whose read-back broke off before the end of the partial file, without anyone noticing. */
  predicate Cropped(k: Scheme, c: Config, e: Event) {
    && Delivers(k, c, e) && c.s.Receiving? && !c.s.p.inOrder && c.d.partial.Some?
    && e.Got? && e.env.stops.Some? && e.env.stops.value < |c.d.partial.value|
  }

  /**
   * What may be delivered for a job: its file; or, if the read-back was cropped, a file at least as long
   * that begins with the bytes the root hash was checked for.
   */
  predicate Right(j: Job, cropped: bool, file: seq<byte>)
    requires Given(j)
  {
    file == j.file || (cropped && Covered(j) <= file && |file| >= |j.file|)
  }

  /** If COMPLETE leads to delivery, what is delivered is right. */
  lemma CompleteDelivers(k: Scheme, j: Job, p: Progress, d: Disk, c: CompleteMsg, env: Env, seen: set<seq<byte>>)
    requires Given(j) && p.m == OfferOf(k.hash, j) && Tracks(j, p, d)
    requires Covered(j) in seen && ReceiverHashes(k, Config(Receiving(p), d), Got(MComplete(c), env)) <= seen
    requires CollisionFree(k.hash, seen)
    ensures var r := OnComplete(k, p, d, c, env);
            var d' := ApplyAll(d, r.ops);
            var delivered := Disk(d.partial, None, if env.removes then Absent else d.sidecar);
            && r.next.Returned?
            && (if Deliver in r.ops
                then && d' == delivered
                     && Right(j, Cropped(k, Config(Receiving(p), d), Got(MComplete(c), env)), d.partial.value)
                else !r.next.ok && (d' == d || (DestLost(env) && d' == d.(dest := None))))
  {
    var r := OnComplete(k, p, d, c, env);
    if r.ops == [] {
      assert ApplyAll(d, []) == d;
    } else if r.ops == [RemoveDest] {
      ApplyOne(d, RemoveDest);
    } else {
      assert r.ops[0] == Deliver;
      if env.removes { ApplyTwo(d, Deliver, RemoveSidecar); } else { ApplyOne(d, Deliver); }
      if p.inOrder {
        FastRootIsDiskRoot(k, j, p, d);
      } else {
        ReadBackRight(j, d.partial.value, env.stops);
      }
    }
  }

  /** A read-back that gives the bytes the root hash stands for. */
  lemma ReadBackRight(j: Job, file: seq<byte>, stops: Option<nat>)
    requires Given(j) && |file| >= |j.file| && ReadBack(file, stops) == Covered(j)
    ensures Right(j, stops.Some? && stops.value < |file|, file)
  {
    if stops.None? || stops.value >= |file| {
      assert ReadBack(file, stops) == file;
      CoveredInFull(j);
    }
  }

  /** The counted chunks are as long as the file only if they are the file. */
  lemma CoveredInFull(j: Job)
    requires Given(j) && |Covered(j)| >= |j.file|
    ensures Covered(j) == j.file
  {
    assert Covered(j) == j.file[..|j.file|] == j.file;
  }

  // ---------------------------------------------------------------------
  // Whole histories: many sessions, many honest senders, hostile chunks.
  // ---------------------------------------------------------------------

  /** Every manifest in the history is what the sender's program makes of one of the jobs. */
  ghost predicate HonestManifests(k: Scheme, jobs: set<Job>, events: seq<Event>) {
    && (forall j :: j in jobs ==> Given(j))
    && (forall e :: e in events && e.Got? && e.msg.MManifest? ==>
          exists j :: j in jobs && e.msg.manifest == OfferOf(k.hash, j))
  }

  ghost predicate OnTrack(k: Scheme, jobs: set<Job>, cropped: bool, c: Config)
    requires forall j :: j in jobs ==> Given(j)
  {
    && (c.s.Receiving? ==> exists j :: j in jobs && c.s.p.m == OfferOf(k.hash, j) && Tracks(j, c.s.p, c.d))
    && (c.s == Returned(true) ==> exists j :: j in jobs && c.d.dest.Some? && Right(j, cropped, c.d.dest.value))
  }

  /** Some final rename failed and cost the destination. */
  ghost predicate Lossy(events: seq<Event>) {
    exists e :: e in events && e.Got? && DestLost(e.env)
  }

  /** Every delivery of the run was checked to the end. */
  predicate Uncropped(k: Scheme, c: Config, events: seq<Event>)
    decreases |events|
  {
    events == [] || (!Cropped(k, c, events[0]) && Uncropped(k, Step(k, c, events[0]), events[1..]))
  }

  /** The destination holds what it held, or what may be delivered for a job, or was lost to a failed rename. */
  ghost predicate Authentic(jobs: set<Job>, cropped: bool, lossy: bool,
                            before: Option<seq<byte>>, after: Option<seq<byte>>)
    requires forall j :: j in jobs ==> Given(j)
  {
    || after == before
    || (after.Some? && exists j :: j in jobs && Right(j, cropped, after.value))
    || (after == None && lossy)
  }

  lemma StepAuthentic(k: Scheme, jobs: set<Job>, cropped: bool, c: Config, e: Event, seen: set<seq<byte>>)
    requires HonestManifests(k, jobs, [e]) && OnTrack(k, jobs, cropped, c) && (Cropped(k, c, e) ==> cropped)
    requires forall j :: j in jobs ==> SenderHashes(j) <= seen
    requires ReceiverHashes(k, c, e) <= seen && CollisionFree(k.hash, seen)
    ensures OnTrack(k, jobs, cropped, Step(k, c, e))
    ensures Authentic(jobs, cropped, Lossy([e]), c.d.dest, Step(k, c, e).d.dest)
  {
    assert ApplyAll(c.d, []) == c.d;
    if e.Got? && c.s.AwaitManifest? && e.msg.MManifest? {
      assert e in [e];
      var j :| j in jobs && e.msg.manifest == OfferOf(k.hash, j);
      ManifestTracks(k, j, c.d, e.msg.manifest, e.env);
    } else if e.Got? && c.s.Receiving? {
      var j :| j in jobs && c.s.p.m == OfferOf(k.hash, j) && Tracks(j, c.s.p, c.d);
      if e.msg.MChunk? {
        ChunkAuthentic(k, j, c, e, seen);
      } else if e.msg.MComplete? {
        assert e in [e];
        CompleteAuthentic(k, j, c, e, seen);
      }
    }
  }

  lemma ChunkAuthentic(k: Scheme, j: Job, c: Config, e: Event, seen: set<seq<byte>>)
    requires Given(j) && c.s.Receiving? && c.s.p.m == OfferOf(k.hash, j) && Tracks(j, c.s.p, c.d)
    requires e.Got? && e.msg.MChunk?
    requires SenderHashes(j) <= seen && ReceiverHashes(k, c, e) <= seen && CollisionFree(k.hash, seen)
    ensures var c' := Step(k, c, e);
            && c'.d.dest == c.d.dest && c'.s != Returned(true)
            && (c'.s.Receiving? ==> c'.s.p.m == c.s.p.m && Tracks(j, c'.s.p, c'.d))
  {
    if ChunkFault(k, c.s.p, e.msg.chunk).None? {
      AcceptedIsSlice(k, j, c.s.p, e.msg.chunk, seen);
      ChunkTracks(k, j, c.s.p, c.d, e.msg.chunk, e.env);
    } else {
      assert ApplyAll(c.d, []) == c.d;
    }
  }

  lemma CompleteAuthentic(k: Scheme, j: Job, c: Config, e: Event, seen: set<seq<byte>>)
    requires Given(j) && c.s.Receiving? && c.s.p.m == OfferOf(k.hash, j) && Tracks(j, c.s.p, c.d)
    requires e.Got? && e.msg.MComplete?
    requires SenderHashes(j) <= seen && ReceiverHashes(k, c, e) <= seen && CollisionFree(k.hash, seen)
    ensures var c' := Step(k, c, e);
            && c'.s.Returned?
            && (if Delivers(k, c, e) then c'.d.dest.Some? && Right(j, Cropped(k, c, e), c'.d.dest.value)
                else !c'.s.ok && (c'.d.dest == c.d.dest || (DestLost(e.env) && c'.d.dest == None)))
  {
    assert Covered(j) in SenderHashes(j);
    CompleteDelivers(k, j, c.s.p, c.d, e.msg.complete, e.env, seen);
  }

  /**
   * No wrong file is ever delivered. From any contents of the destination, the partial file and the
   * sidecar, through any number of sessions for manifests of given jobs in which the peer may send any
   * frames, the stream may end anywhere and files may fail, the destination only ever changes to the file
   * of one of the jobs, or is lost when the final rename fails, and a session that reports success has left
   * such a file there, provided no two distinct strings hashed in the run collide. Only after a read-back
   * that broke off may bytes follow that were not checked.
   */
  lemma NoWrongFile(k: Scheme, jobs: set<Job>, c: Config, events: seq<Event>, seen: set<seq<byte>>)
    requires HonestManifests(k, jobs, events) && OnTrack(k, jobs, !Uncropped(k, c, events), c)
    requires forall j :: j in jobs ==> SenderHashes(j) <= seen
    requires RunHashes(k, c, events) <= seen && CollisionFree(k.hash, seen)
    ensures OnTrack(k, jobs, !Uncropped(k, c, events), Run(k, c, events))
    ensures Authentic(jobs, !Uncropped(k, c, events), Lossy(events), c.d.dest, Run(k, c, events).d.dest)
  {
    RunAuthentic(k, jobs, !Uncropped(k, c, events), c, events, seen);
  }

  lemma {:induction false} RunAuthentic(k: Scheme, jobs: set<Job>, cropped: bool, c: Config, events: seq<Event>,
                                        seen: set<seq<byte>>)
    requires HonestManifests(k, jobs, events) && OnTrack(k, jobs, cropped, c) && (!Uncropped(k, c, events) ==> cropped)
    requires forall j :: j in jobs ==> SenderHashes(j) <= seen
    requires RunHashes(k, c, events) <= seen && CollisionFree(k.hash, seen)
    ensures OnTrack(k, jobs, cropped, Run(k, c, events))
    ensures Authentic(jobs, cropped, Lossy(events), c.d.dest, Run(k, c, events).d.dest)
    decreases |events|
  {
    if events != [] {
      var e, rest := events[0], events[1..];
      assert e in events && forall x :: x in rest ==> x in events;
      StepAuthentic(k, jobs, cropped, c, e, seen);
      RunAuthentic(k, jobs, cropped, Step(k, c, e), rest, seen);
    }
  }

  // ---------------------------------------------------------------------
  // Exactly when every delivery is right.
  // ---------------------------------------------------------------------

  /** If the step delivers, it delivers the file of the session's job. */
  ghost predicate DeliversRight(k: Scheme, jobs: set<Job>, c: Config, e: Event)
    requires forall j :: j in jobs ==> Given(j)
  {
    Delivers(k, c, e) && c.s.Receiving? ==>
      forall j :: j in jobs && c.s.p.m == OfferOf(k.hash, j) ==> Step(k, c, e).d.dest == Some(j.file)
  }

  ghost predicate AllRight(k: Scheme, jobs: set<Job>, c: Config, events: seq<Event>)
    requires forall j :: j in jobs ==> Given(j)
    decreases |events|
  {
    events == [] || (DeliversRight(k, jobs, c, events[0]) && AllRight(k, jobs, Step(k, c, events[0]), events[1..]))
  }

  /** Jobs with the same manifest have the same file, so the session is on track for each of them. */
  lemma SameManifest(k: Scheme, jobs: set<Job>, c: Config, j: Job, seen: set<seq<byte>>)
    requires (forall i :: i in jobs ==> Honest(i) && Given(i) && SenderHashes(i) <= seen) && CollisionFree(k.hash, seen)
    requires OnTrack(k, jobs, true, c) && c.s.Receiving? && j in jobs && c.s.p.m == OfferOf(k.hash, j)
    ensures Tracks(j, c.s.p, c.d)
  {
    var i :| i in jobs && c.s.p.m == OfferOf(k.hash, i) && Tracks(i, c.s.p, c.d);
    HonestOffer(k, i);
    HonestOffer(k, j);
    assert i.file in SenderHashes(i) && j.file in SenderHashes(j);
  }

  /** For a job that the manifest can carry, a delivery is right if and only if it was checked to the end. */
  lemma DeliveryExact(k: Scheme, j: Job, c: Config, e: Event, seen: set<seq<byte>>)
    requires Honest(j) && Given(j) && c.s.Receiving? && c.s.p.m == OfferOf(k.hash, j) && Tracks(j, c.s.p, c.d)
    requires Covered(j) in seen && ReceiverHashes(k, c, e) <= seen && CollisionFree(k.hash, seen)
    requires Delivers(k, c, e)
    ensures Step(k, c, e).d.dest == Some(j.file) <==> !Cropped(k, c, e)
  {
    HonestOffer(k, j);
    CompleteDelivers(k, j, c.s.p, c.d, e.msg.complete, e.env, seen);
  }

  lemma StepRight(k: Scheme, jobs: set<Job>, c: Config, e: Event, seen: set<seq<byte>>)
    requires forall j :: j in jobs ==> Honest(j) && Given(j) && SenderHashes(j) <= seen
    requires OnTrack(k, jobs, true, c) && ReceiverHashes(k, c, e) <= seen && CollisionFree(k.hash, seen)
    ensures DeliversRight(k, jobs, c, e) <==> !Cropped(k, c, e)
  {
    if Delivers(k, c, e) && c.s.Receiving? {
      forall j | j in jobs && c.s.p.m == OfferOf(k.hash, j)
        ensures Step(k, c, e).d.dest == Some(j.file) <==> !Cropped(k, c, e)
      {
        SameManifest(k, jobs, c, j, seen);
        assert Covered(j) in SenderHashes(j);
        DeliveryExact(k, j, c, e, seen);
      }
      var j :| j in jobs && c.s.p.m == OfferOf(k.hash, j);
    }
  }

  /**
   * Over any number of sessions for jobs that their manifests can carry, from any files, with any frames
   * and any failing files: every delivery is of the session's own file if and only if none of them was
   * cropped by a read-back that broke off before the end of the partial file.
   */
  lemma {:induction false} RightExactly(k: Scheme, jobs: set<Job>, c: Config, events: seq<Event>, seen: set<seq<byte>>)
    requires HonestManifests(k, jobs, events) && OnTrack(k, jobs, true, c)
    requires forall j :: j in jobs ==> Honest(j) && SenderHashes(j) <= seen
    requires RunHashes(k, c, events) <= seen && CollisionFree(k.hash, seen)
    ensures AllRight(k, jobs, c, events) <==> Uncropped(k, c, events)
    decreases |events|
  {
    if events != [] {
      var e, rest := events[0], events[1..];
      assert e in events && forall x :: x in rest ==> x in events;
      StepRight(k, jobs, c, e, seen);
      StepAuthentic(k, jobs, true, c, e, seen);
      RightExactly(k, jobs, Step(k, c, e), rest, seen);
    }
  }

  /**
   * An input: a resumed session with every chunk there, and a partial file that is longer than the file. A
   * read-back that breaks off where the file ends finds the right hash, and all of it is delivered.
   */
  lemma LongerDelivered(k: Scheme, j: Job, p: Progress, dest: Option<seq<byte>>, more: seq<byte>, sidecar: Sidecar)
    requires Honest(j) && p.m == ManifestOf(k, j) && p.resume && !p.inOrder && CountsRight(p)
    ensures var e := Got(MComplete(CompleteMsg(k.hash(j.file), 0)), Calm(true).(stops := Some(|j.file|)));
            Step(k, Config(Receiving(p), Disk(dest, Some(j.file + more), sidecar)), e)
            == Config(Returned(true), Disk(Some(j.file + more), None, Absent))
  {
    var d := Disk(dest, Some(j.file + more), sidecar);
    assert (j.file + more)[..|j.file|] == j.file;
    ApplyTwo(d, Deliver, RemoveSidecar);
  }
}
