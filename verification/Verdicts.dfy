/** Exactly which sessions succeed, for every manifest, every list of chunks and every state of the files. */
module Verdicts {
  import opened Bytes
  import opened Messages
  import opened Chunks
  import opened Resume
  import opened Session
  import opened Rules

  // ---------------------------------------------------------------------
  // What a list of chunks amounts to, apart from any session.
  // ---------------------------------------------------------------------

  function Total(chunks: seq<ChunkMsg>): nat {
    if chunks == [] then 0 else |chunks[0].data| + Total(chunks[1..])
  }

  function Joined(chunks: seq<ChunkMsg>): seq<byte> {
    if chunks == [] then [] else chunks[0].data + Joined(chunks[1..])
  }

  /** The chunks written one after the other at multiples of the chunk size. */
  function Laid(file: seq<byte>, cs: nat, chunks: seq<ChunkMsg>): seq<byte>
    decreases |chunks|
  {
    if chunks == [] then file
    else Laid(Splice(file, chunks[0].index * cs, chunks[0].data), cs, chunks[1..])
  }

  function Named(chunks: seq<ChunkMsg>): set<nat> {
    set c | c in chunks :: c.index
  }

  /** They come in order, the first one being chunk n. */
  predicate InSequence(chunks: seq<ChunkMsg>, n: nat) {
    forall i :: 0 <= i < |chunks| ==> chunks[i].index == n + i
  }

  predicate AllGood(k: Scheme, m: Manifest, chunks: seq<ChunkMsg>) {
    forall c :: c in chunks ==> Genuine(k, m, c) && Inside(m, c)
  }

  // ---------------------------------------------------------------------
  // The chunks in a session.
  // ---------------------------------------------------------------------

  /** The chunks arrive, with whatever becomes of the saves; no write fails. */
  function Arrivals(chunks: seq<ChunkMsg>, envs: seq<Env>): seq<Event>
    requires |chunks| == |envs|
  {
    if chunks == [] then [] else [Got(MChunk(chunks[0]), envs[0])] + Arrivals(chunks[1..], envs[1..])
  }

  ghost predicate Writable(envs: seq<Env>) {
    forall env :: env in envs ==> !env.fault.WriteFails?
  }

  /** The counters, with their widths. */
  ghost predicate Counts(p: Progress, chunks: seq<ChunkMsg>, q: Progress) {
    && q.bytes == (p.bytes + Total(chunks)) % 0x1_0000_0000_0000_0000
    && q.chunks == (p.chunks + |chunks|) % 0x1_0000_0000
  }

  /** The hash of what came in order. */
  ghost predicate Streams(p: Progress, chunks: seq<ChunkMsg>, q: Progress) {
    && q.inOrder == (p.inOrder && InSequence(chunks, p.next))
    && (q.inOrder ==> q.hashed == p.hashed + Joined(chunks))
  }

  /** What the session holds after the chunks, if it accepts them all. */
  ghost predicate Gathered(p: Progress, d: Disk, chunks: seq<ChunkMsg>, c: Config) {
    && d.partial.Some? && c.s.Receiving? && Counts(p, chunks, c.s.p) && Streams(p, chunks, c.s.p)
    && c.s.p.m == p.m && c.s.p.resume == p.resume && c.s.p.have == p.have + Named(chunks)
    && c.d.partial == Some(Laid(d.partial.value, p.m.chunkSize, chunks)) && c.d.dest == d.dest
  }

  lemma CountsCons(p: Progress, chunks: seq<ChunkMsg>, q: Progress)
    requires chunks != [] && Counts(Accept(p, chunks[0]), chunks[1..], q)
    ensures Counts(p, chunks, q)
  {
    WrapSums(p.bytes, |chunks[0].data|, Total(chunks[1..]), p.chunks, |chunks[1..]|);
  }

  lemma StreamsCons(p: Progress, chunks: seq<ChunkMsg>, q: Progress)
    requires chunks != [] && Streams(Accept(p, chunks[0]), chunks[1..], q)
    ensures Streams(p, chunks, q)
  {
    SequenceCons(chunks, p.next);
    assert p.hashed + (chunks[0].data + Joined(chunks[1..])) == (p.hashed + chunks[0].data) + Joined(chunks[1..]);
  }

  /** One good chunk in front of the others. */
  lemma GatheredCons(p: Progress, d: Disk, e: Disk, chunks: seq<ChunkMsg>, c: Config)
    requires chunks != [] && Gathered(Accept(p, chunks[0]), e, chunks[1..], c)
    requires d.partial.Some? && e.dest == d.dest
    requires e.partial == Some(Splice(d.partial.value, chunks[0].index * p.m.chunkSize, chunks[0].data))
    ensures Gathered(p, d, chunks, c)
  {
    CountsCons(p, chunks, c.s.p);
    StreamsCons(p, chunks, c.s.p);
    NamedCons(chunks);
  }

  lemma NamedCons(chunks: seq<ChunkMsg>)
    requires chunks != []
    ensures Named(chunks) == {chunks[0].index} + Named(chunks[1..])
  {
    assert chunks == [chunks[0]] + chunks[1..];
    assert forall c :: c in chunks <==> c == chunks[0] || c in chunks[1..];
  }

  lemma SequenceCons(chunks: seq<ChunkMsg>, n: nat)
    requires chunks != []
    ensures InSequence(chunks, n) <==> chunks[0].index == n && InSequence(chunks[1..], n + 1)
  {
    if chunks[0].index == n && InSequence(chunks[1..], n + 1) {
      forall i | 0 <= i < |chunks| ensures chunks[i].index == n + i {
        if i > 0 { assert chunks[i] == chunks[1..][i - 1]; }
      }
    }
  }

  lemma WrapSums(b: u64, x: nat, y: nat, c: u32, z: nat)
    ensures (Wrap64(b + x) + y) % 0x1_0000_0000_0000_0000 == (b + (x + y)) % 0x1_0000_0000_0000_0000
    ensures (Wrap32(c + 1) + z) % 0x1_0000_0000 == (c + (1 + z)) % 0x1_0000_0000
  {
  }

  lemma {:induction false} ArrivalsAreOne(chunks: seq<ChunkMsg>, envs: seq<Env>)
    requires |chunks| == |envs|
    ensures OneSession(Arrivals(chunks, envs))
    decreases |chunks|
  {
    if chunks != [] { ArrivalsAreOne(chunks[1..], envs[1..]); }
  }

  /** What one chunk does. */
  lemma ChunkDoes(k: Scheme, p: Progress, d: Disk, chunk: ChunkMsg, env: Env)
    requires d.partial.Some? && !env.fault.WriteFails?
    ensures var c := Step(k, Config(Receiving(p), d), Got(MChunk(chunk), env));
            if Genuine(k, p.m, chunk) && Inside(p.m, chunk)
            then && c.s == Receiving(Accept(p, chunk)) && c.d.dest == d.dest
                 && c.d.partial == Some(Splice(d.partial.value, chunk.index * p.m.chunkSize, chunk.data))
            else c == Config(Returned(false), d)
  {
    if ChunkFault(k, p, chunk).None? {
      AcceptedEffect(k, p, d, chunk, env);
    } else {
      assert ApplyAll(d, []) == d;
    }
  }

  lemma ArrivalsCons(chunks: seq<ChunkMsg>, envs: seq<Env>)
    requires |chunks| == |envs| && chunks != []
    ensures var events := Arrivals(chunks, envs);
            events[0] == Got(MChunk(chunks[0]), envs[0]) && events[1..] == Arrivals(chunks[1..], envs[1..])
  {
  }

  lemma AllGoodCons(k: Scheme, m: Manifest, chunks: seq<ChunkMsg>)
    requires chunks != []
    ensures AllGood(k, m, chunks) <==> Genuine(k, m, chunks[0]) && Inside(m, chunks[0]) && AllGood(k, m, chunks[1..])
  {
    assert chunks == [chunks[0]] + chunks[1..];
  }

  lemma WritableCons(envs: seq<Env>)
    requires Writable(envs) && envs != []
    ensures !envs[0].fault.WriteFails? && Writable(envs[1..])
  {
    assert envs == [envs[0]] + envs[1..];
  }

  /** The session keeps exactly the account of the chunks given above, and ends at the first bad one. */
  lemma {:induction false} Gathers(k: Scheme, p: Progress, d: Disk, chunks: seq<ChunkMsg>, envs: seq<Env>)
    requires d.partial.Some? && |chunks| == |envs| && Writable(envs)
    ensures var c := Run(k, Config(Receiving(p), d), Arrivals(chunks, envs));
            if AllGood(k, p.m, chunks) then Gathered(p, d, chunks, c) else c.s == Returned(false) && c.d.dest == d.dest
    decreases |chunks|
  {
    if chunks == [] {
      assert p.hashed + [] == p.hashed && Named(chunks) == {};
    } else {
      var first, rest, more := chunks[0], chunks[1..], Arrivals(chunks[1..], envs[1..]);
      ArrivalsCons(chunks, envs);
      AllGoodCons(k, p.m, chunks);
      WritableCons(envs);
      ChunkDoes(k, p, d, first, envs[0]);
      var c := Step(k, Config(Receiving(p), d), Got(MChunk(first), envs[0]));
      if Genuine(k, p.m, first) && Inside(p.m, first) {
        Gathers(k, c.s.p, c.d, rest, envs[1..]);
        if AllGood(k, p.m, rest) { GatheredCons(p, d, c.d, chunks, Run(k, c, more)); }
      } else {
        ArrivalsAreOne(rest, envs[1..]);
        ReturnedStays(k, c, more);
      }
    }
  }

  // ---------------------------------------------------------------------
  // The whole session.
  // ---------------------------------------------------------------------

  /** What the partial file holds when the first chunk comes. */
  function Start(k: Scheme, m: Manifest, d: Disk): seq<byte> {
    if Continues(k, m, d) && d.partial.Some? && |d.partial.value| >= m.fileSize then d.partial.value
    else Zeros(m.fileSize)
  }

  /** What it holds after the last. */
  function Final(k: Scheme, m: Manifest, d: Disk, chunks: seq<ChunkMsg>): seq<byte> {
    Laid(Start(k, m, d), m.chunkSize, chunks)
  }

  /** The bytes that are hashed against the root: the stream if it came whole and in order, or the file. */
  function Rooted(k: Scheme, m: Manifest, d: Disk, chunks: seq<ChunkMsg>): seq<byte> {
    if !Continues(k, m, d) && InSequence(chunks, 0) then Joined(chunks) else Final(k, m, d, chunks)
  }

  /** There is room for the file and for the request. */
  predicate Admitted(k: Scheme, m: Manifest, d: Disk) {
    && (m.fileSize <= 0x8000_0000_0000_0000
        || (Continues(k, m, d) && d.partial.Some? && |d.partial.value| >= m.fileSize))
    && 4 + 4 * |Missing(KnownFrom(k, m, d), m.chunkCount)| <= 67_108_864
  }

  /** The chunks are enough, as the session counts. */
  predicate Enough(k: Scheme, m: Manifest, d: Disk, chunks: seq<ChunkMsg>) {
    if Continues(k, m, d)
    then forall i :: 0 <= i < m.chunkCount ==> i in d.sidecar.have || i in Named(chunks)
    else && Total(chunks) % 0x1_0000_0000_0000_0000 == m.fileSize
         && |chunks| % 0x1_0000_0000 == m.chunkCount
  }

  ghost predicate Succeeds(k: Scheme, m: Manifest, d: Disk, chunks: seq<ChunkMsg>, fin: CompleteMsg) {
    && Admitted(k, m, d) && AllGood(k, m, chunks) && Enough(k, m, d, chunks)
    && k.hash(Rooted(k, m, d, chunks)) == m.rootHash == fin.finalRootHash
  }

  /** Nothing but a save fails, and replies get out. */
  predicate Favourable(env: Env) {
    env.sendOk && Smooth(env)
  }

  /** The state after a manifest that is admitted. */
  function Opening(k: Scheme, m: Manifest, d: Disk): Config {
    var resume := Continues(k, m, d);
    Config(Receiving(Progress(m, resume, KnownFrom(k, m, d), 0, 0, [], !resume, 0)),
           Disk(d.dest, Some(Start(k, m, d)), if resume then d.sidecar else Absent))
  }

  lemma ManifestDoes(k: Scheme, m: Manifest, d: Disk, env: Env)
    requires Favourable(env)
    ensures var c := Step(k, Config(AwaitManifest, d), Got(MManifest(m), env));
            if Admitted(k, m, d) then c == Opening(k, m, d) else c.s == Returned(false) && c.d.dest == d.dest
  {
    var r := OnManifest(k, d, m, env);
    if r.ops == [] {
      assert ApplyAll(d, []) == d;
    } else if |r.ops| == 1 {
      ApplyOne(d, r.ops[0]);
      assert r.ops == [r.ops[0]];
    } else {
      ApplyTwo(d, r.ops[0], r.ops[1]);
      assert r.ops == [r.ops[0], r.ops[1]];
    }
  }

  lemma CompleteDoes(k: Scheme, p: Progress, d: Disk, fin: CompleteMsg, env: Env)
    requires Favourable(env) && d.partial.Some?
    ensures var c := Step(k, Config(Receiving(p), d), Got(MComplete(fin), env));
            var root := k.hash(if p.inOrder then p.hashed else d.partial.value);
            if Received(p) && root == p.m.rootHash == fin.finalRootHash
            then c == Config(Returned(true), Disk(d.partial, None, Absent))
            else c == Config(Returned(false), d)
  {
    ReceivedCounts(p);
    assert ApplyAll(d, []) == d;
    ApplyTwo(d, Deliver, RemoveSidecar);
  }

  /** A chunk list that a session accepted settles what COMPLETE finds. */
  lemma Settles(k: Scheme, m: Manifest, d: Disk, chunks: seq<ChunkMsg>, c: Config)
    requires var o := Opening(k, m, d); Gathered(o.s.p, o.d, chunks, c)
    ensures c.s.Receiving? && c.s.p.m == m && c.d.partial == Some(Final(k, m, d, chunks)) && c.d.dest == d.dest
    ensures Received(c.s.p) <==> Enough(k, m, d, chunks)
    ensures (if c.s.p.inOrder then c.s.p.hashed else c.d.partial.value) == Rooted(k, m, d, chunks)
  {
    var q, have := c.s.p, KnownFrom(k, m, d) + Named(chunks);
    assert [] + Joined(chunks) == Joined(chunks);
    assert q.have == have && forall i :: i in have <==> i in KnownFrom(k, m, d) || i in Named(chunks);
  }

  /** HELLO, MANIFEST, any chunks, COMPLETE. */
  function Conversation(hello: Event, manifest: Event, chunks: seq<ChunkMsg>, envs: seq<Env>, fin: Event): seq<Event>
    requires |chunks| == |envs|
  {
    [hello, manifest] + Arrivals(chunks, envs) + [fin]
  }

  /** The last two parts of the conversation, after the manifest. */
  lemma ConversationEnds(k: Scheme, m: Manifest, d: Disk, chunks: seq<ChunkMsg>, envs: seq<Env>,
                         fin: CompleteMsg, last: Env)
    requires |chunks| == |envs| && Writable(envs) && Favourable(last) && Admitted(k, m, d)
    ensures var c := Run(k, Opening(k, m, d), Arrivals(chunks, envs) + [Got(MComplete(fin), last)]);
            if Succeeds(k, m, d, chunks, fin)
            then c == Config(Returned(true), Disk(Some(Final(k, m, d, chunks)), None, Absent))
            else c.s == Returned(false) && c.d.dest == d.dest
  {
    var o, events, e := Opening(k, m, d), Arrivals(chunks, envs), Got(MComplete(fin), last);
    var c := Run(k, o, events);
    RunAppend(k, o, events, [e]);
    assert [e][1..] == [];
    Gathers(k, o.s.p, o.d, chunks, envs);
    if AllGood(k, m, chunks) {
      Settles(k, m, d, chunks, c);
      CompleteDoes(k, c.s.p, c.d, fin, last);
    } else {
      assert OneSession([e]);
      ReturnedStays(k, c, [e]);
    }
  }

  /**
   * A session succeeds exactly if there is room, every chunk is genuine and inside the file, the chunks are
   * enough, and what is hashed has the hash that the manifest and COMPLETE both name. It then leaves the
   * chunks laid over what was there before; otherwise the destination stays as it was.
   */
  lemma SessionVerdict(k: Scheme, d: Disk, hello: HelloMsg, m: Manifest, chunks: seq<ChunkMsg>, fin: CompleteMsg,
                       first: Env, second: Env, envs: seq<Env>, last: Env)
    requires hello.version == 1 && first.sendOk && Favourable(second) && Favourable(last)
    requires |chunks| == |envs| && Writable(envs)
    ensures var c := Run(k, Config(AwaitHello, d),
                         Conversation(Got(MHello(hello), first), Got(MManifest(m), second), chunks, envs,
                                      Got(MComplete(fin), last)));
            if Succeeds(k, m, d, chunks, fin)
            then c == Config(Returned(true), Disk(Some(Final(k, m, d, chunks)), None, Absent))
            else c.s == Returned(false) && c.d.dest == d.dest
  {
    var e0, e1, e2 := Got(MHello(hello), first), Got(MManifest(m), second), Got(MComplete(fin), last);
    var rest := Arrivals(chunks, envs) + [e2];
    var events := Conversation(e0, e1, chunks, envs, e2);
    assert events[0] == e0 && events[1..] == [e1] + rest && ([e1] + rest)[1..] == rest;
    assert ApplyAll(d, []) == d;
    assert Step(k, Config(AwaitHello, d), e0) == Config(AwaitManifest, d);
    ManifestDoes(k, m, d, second);
    if Admitted(k, m, d) {
      ConversationEnds(k, m, d, chunks, envs, fin, last);
    } else {
      ArrivalsAreOne(chunks, envs);
      ReturnedStays(k, Step(k, Config(AwaitManifest, d), e1), rest);
    }
  }
}
