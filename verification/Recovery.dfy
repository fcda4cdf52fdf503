/** Exactly which files on disk an uninterrupted honest session recovers from. */
module Recovery {
  import opened Bytes
  import opened Messages
  import opened Chunks
  import opened Resume
  import opened Session
  import opened ResumeSafety
  import opened Protocol

  /** The partial file as the session opens it: reused if the sidecar matches and it is long enough. */
  function Opened(k: Scheme, j: Job, d: Disk): seq<byte>
    requires Honest(j)
  {
    var m := ManifestOf(k, j);
    if Matches(k, m, d.sidecar) && Reusable(m, d) then d.partial.value else Zeros(|j.file|)
  }

  /**
   * What can be checked before the session: either the sidecar is not this manifest's, or the partial
   * file it will work on has the file's length and really holds every chunk the sidecar claims.
   */
  ghost predicate Trustworthy(k: Scheme, j: Job, d: Disk)
    requires Honest(j)
  {
    Matches(k, ManifestOf(k, j), d.sidecar) ==> GoodBits(j, Some(Opened(k, j, d)), d.sidecar.have)
  }

  /** Truth on disk is enough. */
  lemma DiskOkIsTrustworthy(k: Scheme, j: Job, d: Disk)
    requires Honest(j) && DiskOk(k, j, d)
    ensures Trustworthy(k, j, d)
  {
  }

  const CALM: Env := Calm(true)

  function ChunkEvents(k: Scheme, j: Job, ix: seq<nat>): seq<Event> {
    if ix == [] then [] else [Got(ChunkOf(k, j, ix[0]), CALM)] + ChunkEvents(k, j, ix[1..])
  }

  /** Everything an honest sender sends in one uninterrupted session over these files. */
  function HonestSession(k: Scheme, j: Job, d: Disk): seq<Event>
    requires Honest(j)
  {
    SessionTo(k, j, d, CALM)
  }

  /** The same with given surroundings at its last step. */
  function SessionTo(k: Scheme, j: Job, d: Disk, last: Env): seq<Event>
    requires Honest(j)
  {
    [Got(MHello(OWN_HELLO), CALM), Got(MManifest(ManifestOf(k, j)), CALM)]
    + ChunkEvents(k, j, Wanted(j, Known(k, j, d))) + [Got(Finish(k, j), last)]
  }

  /** now is was with the chunks outside have filled in and nothing else changed. */
  ghost predicate Filled(j: Job, was: seq<byte>, now: seq<byte>, have: set<nat>)
    requires Honest(j)
  {
    && |now| == |was| >= |j.file|
    && forall i :: 0 <= i < Count(j) ==>
         (Has(now, j.file, j.chunkSize, i) <==> i !in have || Has(was, j.file, j.chunkSize, i))
  }

  lemma FilledRight(j: Job, was: seq<byte>, now: seq<byte>, have: set<nat>)
    requires Honest(j) && Filled(j, was, now, have)
    ensures now == j.file <==> GoodBits(j, Some(was), have)
  {
    if GoodBits(j, Some(was), have) {
      HasAll(now, j.file, j.chunkSize);
    }
    if now == j.file {
      forall i | i in have && i < Count(j) ensures Has(was, j.file, j.chunkSize, i) {
        HasSelf(j.file, j.chunkSize, i);
      }
    }
  }

  /** A resumed session for the job, whatever its partial file holds. */
  ghost predicate Resumed(k: Scheme, j: Job, c: Config, have: set<nat>)
    requires Honest(j)
  {
    && c.s.Receiving? && c.s.p.m == ManifestOf(k, j) && c.s.p.resume && !c.s.p.inOrder && c.s.p.have == have
    && c.d.partial.Some? && |c.d.partial.value| >= |j.file|
    && c.d.sidecar == Sidecar(Id(k, c.s.p.m), c.s.p.m.chunkCount, have)
  }

  lemma ResumedChunk(k: Scheme, j: Job, c: Config, have: set<nat>)
    requires Honest(j) && Resumed(k, j, c, have) && Wanted(j, have) != []
    ensures var i := Wanted(j, have)[0];
            var c' := Step(k, c, Got(ChunkOf(k, j, i), CALM));
            && i !in have && i < Count(j) && Wanted(j, have + {i}) == Wanted(j, have)[1..]
            && Resumed(k, j, c', have + {i}) && c'.d.dest == c.d.dest
            && Filled(j, c.d.partial.value, c'.d.partial.value, Range(Count(j)) - {i})
  {
    var n, i, p := Count(j), Wanted(j, have)[0], c.s.p;
    MissingExact(have, n);
    assert i in Missing(have, n);
    MissingAdd(have, n);
    SliceInRange(k, j, i);
    assert ChunkFault(k, p, ChunkOf(k, j, i).chunk).None?;
    AcceptedEffect(k, p, c.d, ChunkOf(k, j, i).chunk, CALM);
    WriteSlice(c.d.partial.value, j.file, j.chunkSize, i);
  }

  lemma {:induction false} ResumedRun(k: Scheme, j: Job, c: Config, have: set<nat>)
    requires Honest(j) && Resumed(k, j, c, have) && have <= Range(Count(j))
    ensures var c' := Run(k, c, ChunkEvents(k, j, Wanted(j, have)));
            && Resumed(k, j, c', Range(Count(j))) && c'.d.dest == c.d.dest
            && Filled(j, c.d.partial.value, c'.d.partial.value, have)
    decreases |Wanted(j, have)|
  {
    var ix, n := Wanted(j, have), Count(j);
    MissingExact(have, n);
    if ix == [] {
      forall i | 0 <= i < n ensures i in have { assert i !in Missing(have, n); }
      assert have == Range(n);
    } else {
      ResumedChunk(k, j, c, have);
      var e := Got(ChunkOf(k, j, ix[0]), CALM);
      var c1 := Step(k, c, e);
      ResumedRun(k, j, c1, have + {ix[0]});
      assert ([e] + ChunkEvents(k, j, ix[1..]))[1..] == ChunkEvents(k, j, ix[1..]);
    }
  }

  lemma ResumedEnd(k: Scheme, j: Job, c: Config, seen: set<seq<byte>>)
    requires Honest(j) && Resumed(k, j, c, Range(Count(j)))
    requires j.file in seen && ReceiverHashes(k, c, Got(Finish(k, j), CALM)) <= seen && CollisionFree(k.hash, seen)
    ensures var c' := Step(k, c, Got(Finish(k, j), CALM));
            if c.d.partial.value == j.file then c' == Config(Returned(true), DeliveredDisk(j))
            else c' == Config(Returned(false), c.d)
  {
    var p := c.s.p;
    NothingMissing(Range(Count(j)), Count(j));
    assert CountsRight(p) && RootInput(p, c.d, None) == c.d.partial.value;
    if c.d.partial.value == j.file {
      ApplyTwo(c.d, Deliver, RemoveSidecar);
    } else {
      assert k.hash(c.d.partial.value) != k.hash(j.file);
      assert OnComplete(k, p, c.d, Finish(k, j).complete, CALM) == Refuse(HashMismatch, CALM);
      assert ApplyAll(c.d, []) == c.d;
    }
  }

  /** A session that starts afresh takes every chunk in order. */
  lemma {:induction false} FreshRun(k: Scheme, j: Job, c: Config)
    requires Honest(j) && c.s.Receiving? && RecvOk(k, j, c.s.p, c.d)
    requires DiskOk(k, j, c.d) && Known(k, j, c.d) <= Range(Count(j))
    ensures var c' := Run(k, c, ChunkEvents(k, j, Wanted(j, c.s.p.have)));
            && c'.s.Receiving? && RecvOk(k, j, c'.s.p, c'.d) && Wanted(j, c'.s.p.have) == []
            && (Known(k, j, c.d) == c.s.p.have ==> Known(k, j, c'.d) == c'.s.p.have)
    decreases |Wanted(j, c.s.p.have)|
  {
    var ix := Wanted(j, c.s.p.have);
    if ix != [] {
      ChunkEffect(k, j, c.s.p, c.d, CALM);
      var e := Got(ChunkOf(k, j, ix[0]), CALM);
      FreshRun(k, j, Step(k, c, e));
      assert ([e] + ChunkEvents(k, j, ix[1..]))[1..] == ChunkEvents(k, j, ix[1..]);
    }
  }

  lemma {:induction false} LastHashed(k: Scheme, c: Config, events: seq<Event>, e: Event)
    ensures ReceiverHashes(k, Run(k, c, events), e) <= RunHashes(k, c, events + [e])
    decreases |events|
  {
    if events == [] {
      assert [] + [e] == [e];
    } else {
      assert (events + [e])[1..] == events[1..] + [e];
      LastHashed(k, Step(k, c, events[0]), events[1..], e);
    }
  }

  /** Hello and manifest: the state in which the chunks find the receiver. */
  function Greeted(k: Scheme, j: Job, d: Disk): Config
    requires Honest(j)
  {
    Step(k, Config(AwaitManifest, d), Got(MManifest(ManifestOf(k, j)), CALM))
  }

  lemma GreetedRun(k: Scheme, j: Job, d: Disk, last: Env)
    requires Honest(j)
    ensures Run(k, Config(AwaitHello, d), SessionTo(k, j, d, last)[..2]) == Greeted(k, j, d)
  {
    var es, c := SessionTo(k, j, d, last)[..2], Config(AwaitHello, d);
    assert ApplyAll(d, []) == d;
    assert Step(k, c, es[0]) == Config(AwaitManifest, d);
    assert es[1..][1..] == [];
    assert Run(k, Config(AwaitManifest, d), es[1..]) == Step(k, Config(AwaitManifest, d), es[1]);
  }

  lemma GreetedMatching(k: Scheme, j: Job, d: Disk)
    requires Sendable(j) && Matches(k, ManifestOf(k, j), d.sidecar) && d.sidecar.have <= Range(Count(j))
    ensures Resumed(k, j, Greeted(k, j, d), d.sidecar.have)
    ensures Greeted(k, j, d).d.partial == Some(Opened(k, j, d)) && Greeted(k, j, d).d.dest == d.dest
  {
    MissingCount(d.sidecar.have, Count(j));
    if Reusable(ManifestOf(k, j), d) {
      assert ApplyAll(d, []) == d;
    } else {
      assert [] + [CreatePartial(|j.file|)] == [CreatePartial(|j.file|)];
      ApplyOne(d, CreatePartial(|j.file|));
    }
  }

  lemma SessionRun(k: Scheme, j: Job, d: Disk, last: Env)
    requires Honest(j)
    ensures var chunks := Run(k, Greeted(k, j, d), ChunkEvents(k, j, Wanted(j, Known(k, j, d))));
            var e := Got(Finish(k, j), last);
            && Run(k, Config(AwaitHello, d), SessionTo(k, j, d, last)) == Step(k, chunks, e)
            && ReceiverHashes(k, chunks, e) <= RunHashes(k, Config(AwaitHello, d), SessionTo(k, j, d, last))
  {
    var c, all := Config(AwaitHello, d), SessionTo(k, j, d, last);
    var mid, e := ChunkEvents(k, j, Wanted(j, Known(k, j, d))), Got(Finish(k, j), last);
    assert all == (all[..2] + mid) + [e];
    GreetedRun(k, j, d, last);
    RunAppend(k, c, all[..2], mid);
    RunAppend(k, c, all[..2] + mid, [e]);
    var chunks := Run(k, c, all[..2] + mid);
    assert Run(k, chunks, [e]) == Step(k, chunks, e) by { assert [e][1..] == []; }
    LastHashed(k, c, all[..2] + mid, e);
  }

  /**
   * From any files at all, an uninterrupted honest session delivers the file if and only if the files
   * are trustworthy. Otherwise it fails on the root hash, and leaves files that are still not trustworthy.
   */
  lemma ExactRecovery(k: Scheme, j: Job, d: Disk, seen: set<seq<byte>>)
    requires Sendable(j) && Known(k, j, d) <= Range(Count(j))
    requires j.file in seen && RunHashes(k, Config(AwaitHello, d), HonestSession(k, j, d)) <= seen
    requires CollisionFree(k.hash, seen)
    ensures var end := Run(k, Config(AwaitHello, d), HonestSession(k, j, d));
            if Trustworthy(k, j, d) then end == Config(Returned(true), DeliveredDisk(j))
            else && end.s == Returned(false) && end.d.dest == d.dest
                 && !Trustworthy(k, j, end.d) && Known(k, j, end.d) <= Range(Count(j))
  {
    SessionRun(k, j, d, CALM);
    var chunks := Run(k, Greeted(k, j, d), ChunkEvents(k, j, Wanted(j, Known(k, j, d))));
    if Matches(k, ManifestOf(k, j), d.sidecar) {
      var have := d.sidecar.have;
      GreetedMatching(k, j, d);
      ResumedRun(k, j, Greeted(k, j, d), have);
      var was, now := Opened(k, j, d), chunks.d.partial.value;
      FilledRight(j, was, now, have);
      ResumedEnd(k, j, chunks, seen);
      if now != j.file {
        StillUntrusted(k, j, chunks);
      }
    } else {
      ManifestEffect(k, j, d, CALM);
      FreshRun(k, j, Greeted(k, j, d));
      CompleteEffect(k, j, chunks.s.p, chunks.d, CALM);
    }
  }

  lemma StillUntrusted(k: Scheme, j: Job, c: Config)
    requires Honest(j) && Resumed(k, j, c, Range(Count(j))) && c.d.partial.value != j.file
    ensures !Trustworthy(k, j, c.d)
  {
    if GoodBits(j, Some(c.d.partial.value), Range(Count(j))) {
      HasAll(c.d.partial.value, j.file, j.chunkSize);
    }
  }

  // ---------------------------------------------------------------------
  // Once untrustworthy, always untrustworthy.
  // ---------------------------------------------------------------------

  /** One uninterrupted honest session over the given files. */
  function Attempt(k: Scheme, j: Job, d: Disk): Config
    requires Honest(j)
  {
    Run(k, Config(AwaitHello, d), HonestSession(k, j, d))
  }

  /** The files after n of them. */
  function Attempts(k: Scheme, j: Job, d: Disk, n: nat): Disk
    requires Honest(j)
  {
    if n == 0 then d else Attempt(k, j, Attempts(k, j, d, n - 1)).d
  }

  /** From untrustworthy files no number of uninterrupted honest sessions ever succeeds or touches the destination. */
  lemma {:induction false} NeverRecovers(k: Scheme, j: Job, d: Disk, n: nat, seen: set<seq<byte>>)
    requires Sendable(j) && Known(k, j, d) <= Range(Count(j)) && !Trustworthy(k, j, d)
    requires j.file in seen && CollisionFree(k.hash, seen)
    requires forall i {:trigger Attempts(k, j, d, i)} :: 0 <= i <= n ==>
               var was := Attempts(k, j, d, i); RunHashes(k, Config(AwaitHello, was), HonestSession(k, j, was)) <= seen
    ensures var was := Attempts(k, j, d, n);
            && was.dest == d.dest && !Trustworthy(k, j, was) && Known(k, j, was) <= Range(Count(j))
            && Attempt(k, j, was).s == Returned(false)
  {
    if n > 0 {
      NeverRecovers(k, j, d, n - 1, seen);
      assert 0 <= n - 1 <= n;
      ExactRecovery(k, j, Attempts(k, j, d, n - 1), seen);
    }
    ExactRecovery(k, j, Attempts(k, j, d, n), seen);
  }

  /** The sidecar of a job that claims the chunks in have. */
  function Claiming(k: Scheme, j: Job, have: set<nat>): Sidecar
    requires Honest(j)
  {
    Sidecar(Id(k, ManifestOf(k, j)), Count(j), have)
  }

  /** If the partial file is lost and the sidecar is not, the claimed chunks must have been zeros all along. */
  lemma LostPartial(k: Scheme, j: Job, dest: Option<seq<byte>>, have: set<nat>)
    requires Honest(j) && have <= Range(Count(j))
    ensures Trustworthy(k, j, Disk(dest, None, Claiming(k, j, have)))
            <==> forall i :: i in have ==> AllZero(Slice(j.file, j.chunkSize, i))
  {
    ZerosGood(j, |j.file|, have);
  }

  /**
   * What is left between the rename and the removal of the sidecar, and after a removal that fails: for a
   * file with a nonzero byte, the same transfer can never be repeated, although the destination holds it.
   */
  lemma StaleSidecar(k: Scheme, j: Job, x: nat)
    requires Honest(j) && x < |j.file| && j.file[x] != 0
    ensures var d := Disk(Some(j.file), None, Claiming(k, j, Range(Count(j))));
            !Trustworthy(k, j, d) && Known(k, j, d) <= Range(Count(j))
  {
    var i := NonzeroChunk(j, x);
    LostPartial(k, j, Some(j.file), Range(Count(j)));
    assert i in Range(Count(j));
  }

  /**
   * An honest session from truthful files in which only the last removal fails: both sides are told of
   * success, and the files are left as above.
   */
  lemma StaleAfterSuccess(k: Scheme, j: Job, d: Disk, x: nat)
    requires Sendable(j) && DiskOk(k, j, d) && Known(k, j, d) <= Range(Count(j))
    requires x < |j.file| && j.file[x] != 0
    ensures Run(k, Config(AwaitHello, d), SessionTo(k, j, d, CALM.(removes := false))) ==
            Config(Returned(true), Disk(Some(j.file), None, Claiming(k, j, Range(Count(j)))))
  {
    var last := CALM.(removes := false);
    SessionRun(k, j, d, last);
    ManifestEffect(k, j, d, CALM);
    FreshRun(k, j, Greeted(k, j, d));
    var c := Run(k, Greeted(k, j, d), ChunkEvents(k, j, Wanted(j, Known(k, j, d))));
    assert Count(j) > 0 by { Tiling(x, j.chunkSize, |j.file|); }
    LeftStale(k, j, c);
  }

  lemma LeftStale(k: Scheme, j: Job, c: Config)
    requires Honest(j) && c.s.Receiving? && RecvOk(k, j, c.s.p, c.d) && Wanted(j, c.s.p.have) == []
    requires Count(j) > 0 && Known(k, j, c.d) == c.s.p.have
    ensures Step(k, c, Got(Finish(k, j), CALM.(removes := false))) ==
            Config(Returned(true), Disk(Some(j.file), None, Claiming(k, j, Range(Count(j)))))
  {
    AllReceived(k, j, c.s.p, c.d);
    assert 0 in Range(Count(j));
    ApplyOne(c.d, Deliver);
  }

  lemma NonzeroChunk(j: Job, x: nat) returns (i: nat)
    requires Honest(j) && x < |j.file| && j.file[x] != 0
    ensures i < Count(j) && !AllZero(Slice(j.file, j.chunkSize, i))
  {
    i := x / j.chunkSize;
    Tiling(x, j.chunkSize, |j.file|);
    EdgeMonotone(i, i + 1, j.chunkSize, |j.file|);
    var s, y := Slice(j.file, j.chunkSize, i), x - Edge(i, j.chunkSize, |j.file|);
    assert s[y] == j.file[x];
  }

  /** A partial file that is truncated on reopening: when the sidecar, which stays, is still true. */
  lemma WreckedLies(k: Scheme, j: Job, d: Disk, env: Env)
    requires Honest(j) && Claims(k, j, d) && d.sidecar.have <= Range(Count(j))
    requires env.fault.ReopenFails? || env.fault == OpenFails(true)
    ensures var end := Step(k, Config(AwaitManifest, d), Got(MManifest(ManifestOf(k, j)), env)).d;
            DiskOk(k, j, end) <==>
              if env.fault.ReopenFails? then forall i :: i in d.sidecar.have ==> AllZero(Slice(j.file, j.chunkSize, i))
              else j.file == []
  {
    var m := ManifestOf(k, j);
    var create := CreatePartial(NewSize(m, env));
    assert [] + [create] == [create];
    ApplyOne(d, create);
    ZerosGood(j, NewSize(m, env), d.sidecar.have);
    EdgeEnds(j.chunkSize, |j.file|);
  }

  // ---------------------------------------------------------------------
  // After any history.
  // ---------------------------------------------------------------------

  /** No bit is claimed beyond the count, on disk or in memory. */
  ghost predicate BitsBelow(c: Config) {
    && (c.d.sidecar.Sidecar? ==> forall i :: i in c.d.sidecar.have ==> i < c.d.sidecar.count)
    && (c.s.Receiving? ==> forall i :: i in c.s.p.have ==> i < c.s.p.m.chunkCount)
  }

  lemma StepBitsBelow(k: Scheme, c: Config, e: Event)
    requires BitsBelow(c)
    ensures BitsBelow(Step(k, c, e))
  {
    assert ApplyAll(c.d, []) == c.d;
    if e.Got? && c.s.AwaitManifest? && e.msg.MManifest? {
      ManifestBitsBelow(k, c.d, e.msg.manifest, e.env);
    } else if e.Got? && c.s.Receiving? && e.msg.MChunk? {
      ChunkBitsBelow(k, c.s.p, c.d, e.msg.chunk, e.env);
    } else if e.Got? && c.s.Receiving? && e.msg.MComplete? {
      var ops := OnComplete(k, c.s.p, c.d, e.msg.complete, e.env).ops;
      if |ops| == 1 {
        assert ops == [ops[0]];
        ApplyOne(c.d, ops[0]);
      } else if |ops| == 2 {
        ApplyTwo(c.d, Deliver, RemoveSidecar);
      }
    }
  }

  lemma ManifestBitsBelow(k: Scheme, d: Disk, m: Manifest, env: Env)
    requires BitsBelow(Config(AwaitManifest, d))
    ensures var r := OnManifest(k, d, m, env); BitsBelow(Config(r.next, ApplyAll(d, r.ops)))
  {
    var ops := OnManifest(k, d, m, env).ops;
    if |ops| == 2 {
      assert ops == [ops[0], ops[1]];
      ApplyTwo(d, ops[0], ops[1]);
    } else if |ops| == 1 {
      assert ops == [ops[0]];
      ApplyOne(d, ops[0]);
    } else {
      assert ApplyAll(d, []) == d;
    }
  }

  lemma ChunkBitsBelow(k: Scheme, p: Progress, d: Disk, c: ChunkMsg, env: Env)
    requires BitsBelow(Config(Receiving(p), d))
    ensures var r := OnChunk(k, p, c, env); BitsBelow(Config(r.next, ApplyAll(d, r.ops)))
  {
    var ops := OnChunk(k, p, c, env).ops;
    if |ops| == 2 {
      ApplyTwo(d, ops[0], ops[1]);
    } else if |ops| == 1 {
      ApplyOne(d, ops[0]);
    } else {
      assert ApplyAll(d, []) == d;
    }
  }

  lemma {:induction false} RunBitsBelow(k: Scheme, c: Config, events: seq<Event>)
    requires BitsBelow(c)
    ensures BitsBelow(Run(k, c, events))
    decreases |events|
  {
    if events != [] {
      StepBitsBelow(k, c, events[0]);
      RunBitsBelow(k, Step(k, c, events[0]), events[1..]);
    }
  }

  /**
   * Resume recovers from any history at the destination: sessions for this and any other manifests,
   * honest or not, hostile peers, cuts anywhere, saves, writes and renames that fail or lose files, as long
   * as no event harms the job's claims. If the sidecar told the truth at the start, the next uninterrupted
   * honest session delivers.
   */
  lemma AnyHistoryRecovers(k: Scheme, j: Job, c: Config, history: seq<Event>, seen: set<seq<byte>>)
    requires Sendable(j) && Safe(k, j, c) && BitsBelow(c) && Injective(k) && Unharmed(k, j, c, history)
    requires HonestHashes(k, j) <= seen && RunHashes(k, c, history) <= seen && CollisionFree(k.hash, seen)
    requires var d := Run(k, c, history).d; RunHashes(k, Config(AwaitHello, d), HonestSession(k, j, d)) <= seen
    ensures Attempt(k, j, Run(k, c, history).d) == Config(Returned(true), DeliveredDisk(j))
  {
    var d := Run(k, c, history).d;
    HonestOffer(k, j);
    ResumeInvariant(k, j, c, history, seen);
    RunBitsBelow(k, c, history);
    DiskOkIsTrustworthy(k, j, d);
    ExactRecovery(k, j, d, seen);
  }
}
