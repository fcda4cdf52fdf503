/**
 * The receiver's rules, said apart from the machine that follows them: which message draws which reply,
 * what a session must have seen before it goes on, and exactly which sessions succeed.
 */
module Rules {
  import opened Bytes
  import opened Messages
  import opened Chunks
  import opened Resume
  import opened Session
  import F = Frames

  // ---------------------------------------------------------------------
  // Replies, by the reply.
  // ---------------------------------------------------------------------

  /** Some message before the manifest that is there but cannot be read. */
  predicate Garbled(c: Config, msg: Msg) {
    || (c.s.AwaitHello? && msg == MMalformed(F.Hello))
    || (c.s.AwaitManifest? && msg == MMalformed(F.Manifest))
  }

  /** The chunk is one the manifest names, and unharmed. */
  predicate Genuine(k: Scheme, m: Manifest, c: ChunkMsg) {
    c.index < m.chunkCount && k.hash(c.data) == c.hash && m.chunkHashes[c.index] == c.hash
  }

  /** The chunk lies inside the file, in 64-bit arithmetic. */
  predicate Inside(m: Manifest, c: ChunkMsg) {
    (c.index * m.chunkSize + |c.data|) % 0x1_0000_0000_0000_0000 <= m.fileSize
  }

  /** All was received: every chunk when resuming, the right number of bytes and chunks otherwise. */
  predicate Received(p: Progress) {
    if p.resume then forall i :: 0 <= i < p.m.chunkCount ==> i in p.have
    else p.bytes == p.m.fileSize && p.chunks == p.m.chunkCount
  }

  /** The bytes to hash at the end can be had. */
  predicate Legible(p: Progress, d: Disk, env: Env) {
    p.inOrder || (d.partial.Some? && !env.fault.ReadBackFails?)
  }

  function Content(p: Progress, d: Disk, env: Env): seq<byte>
    requires Legible(p, d, env)
  {
    if p.inOrder then p.hashed
    else if env.stops.Some? && env.stops.value < |d.partial.value| then d.partial.value[..env.stops.value]
    else d.partial.value
  }

  predicate RootsAgree(k: Scheme, p: Progress, d: Disk, fin: CompleteMsg, env: Env)
    requires Legible(p, d, env)
  {
    k.hash(Content(p, d, env)) == p.m.rootHash == fin.finalRootHash
  }

  /** The sidecar on disk is for this manifest. */
  predicate Continues(k: Scheme, m: Manifest, d: Disk) {
    d.sidecar.Sidecar? && d.sidecar.id == k.hash(k.encode(m)) && d.sidecar.count == m.chunkCount
  }

  /** The partial file on disk is used again. */
  predicate Reuses(k: Scheme, m: Manifest, d: Disk, env: Env) {
    && Continues(k, m, d) && d.partial.Some? && |d.partial.value| >= m.fileSize
    && !env.fault.ReopenFails? && !env.fault.OpenFails?
  }

  /** There is a partial file to write to: the old one, or a new one of at most 2^63 bytes. */
  predicate Opens(k: Scheme, m: Manifest, d: Disk, env: Env) {
    || Reuses(k, m, d, env)
    || (m.fileSize <= 0x8000_0000_0000_0000 && !env.fault.OpenFails?)
    || (m.fileSize == 0 && env.fault == OpenFails(true))
  }

  /** What makes the receiver report an error. */
  predicate Warrants(k: Scheme, c: Config, msg: Msg, env: Env, code: ErrorCode) {
    match code
    case UnsupportedVersion => c.s.AwaitHello? && msg.MHello? && msg.hello.version != 1
    case InvalidPath => c.s.AwaitManifest? && msg.MManifest? && env.fault.PathRefused?
    case ProtocolViolation =>
      || Garbled(c, msg)
      || (c.s.Receiving? && !msg.MChunk? && !msg.MComplete?)
      || (c.s.Receiving? && msg.MChunk? && msg.chunk.index >= c.s.p.m.chunkCount)
      || (c.s.Receiving? && msg.MComplete? && !Received(c.s.p))
    case HashMismatch =>
      || (c.s.Receiving? && msg.MChunk? && msg.chunk.index < c.s.p.m.chunkCount && !Genuine(k, c.s.p.m, msg.chunk))
      || (c.s.Receiving? && msg.MComplete? && Received(c.s.p) && Legible(c.s.p, c.d, env)
          && !RootsAgree(k, c.s.p, c.d, msg.complete, env))
    case InternalError =>
      || (c.s.AwaitManifest? && msg.MManifest? && !env.fault.PathRefused? && !Opens(k, msg.manifest, c.d, env))
      || (c.s.Receiving? && msg.MChunk? && Genuine(k, c.s.p.m, msg.chunk)
          && (!Inside(c.s.p.m, msg.chunk) || env.fault.WriteFails?))
      || (c.s.Receiving? && msg.MComplete? && Received(c.s.p) && !Legible(c.s.p, c.d, env))
      || (c.s.Receiving? && msg.MComplete? && Received(c.s.p) && Legible(c.s.p, c.d, env)
          && RootsAgree(k, c.s.p, c.d, msg.complete, env) && (c.d.partial.None? || env.fault.RenameFails?))
  }

  lemma ReceivedCounts(p: Progress)
    ensures CountsRight(p) <==> Received(p)
  {
    if p.resume {
      var n := p.m.chunkCount;
      MissingExact(p.have, n);
      if Received(p) {
        NothingMissing(p.have, n);
      } else {
        var i :| 0 <= i < n && i !in p.have;
        assert i in Missing(p.have, n);
      }
    }
  }

  lemma ContentIs(p: Progress, d: Disk, env: Env)
    requires Legible(p, d, env)
    ensures RootInput(p, d, env.stops) == Content(p, d, env)
  {
    if !p.inOrder { assert d.partial.value[..|d.partial.value|] == d.partial.value; }
  }

  lemma ChunkErrors(k: Scheme, p: Progress, d: Disk, c: ChunkMsg, env: Env, code: ErrorCode)
    ensures MError(code) in OnChunk(k, p, c, env).out <==>
            env.sendOk && Warrants(k, Config(Receiving(p), d), MChunk(c), env, code)
  {
  }

  lemma CompleteErrors(k: Scheme, p: Progress, d: Disk, fin: CompleteMsg, env: Env, code: ErrorCode)
    ensures MError(code) in OnComplete(k, p, d, fin, env).out <==>
            env.sendOk && Warrants(k, Config(Receiving(p), d), MComplete(fin), env, code)
  {
    ReceivedCounts(p);
    if Legible(p, d, env) { ContentIs(p, d, env); }
  }

  /** An error is reported exactly when it is warranted and the report gets out. */
  lemma ErrorsWarranted(k: Scheme, c: Config, msg: Msg, env: Env, code: ErrorCode)
    ensures MError(code) in React(k, c.s, c.d, Got(msg, env)).out <==> env.sendOk && Warrants(k, c, msg, env, code)
  {
    if c.s.Receiving? && msg.MChunk? {
      ChunkErrors(k, c.s.p, c.d, msg.chunk, env, code);
    } else if c.s.Receiving? && msg.MComplete? {
      CompleteErrors(k, c.s.p, c.d, msg.complete, env, code);
    }
  }

  /** ix lists, in increasing order, the indices below n that are not in have. */
  ghost predicate Lists(ix: seq<nat>, have: set<nat>, n: nat) {
    && (forall a, b :: 0 <= a < b < |ix| ==> ix[a] < ix[b])
    && (forall i :: i in ix <==> 0 <= i < n && i !in have)
  }

  lemma ListEnd(ix: seq<nat>, have: set<nat>, n: nat)
    requires Lists(ix, have, n) && n > 0 && n - 1 !in have
    ensures ix != [] && ix[|ix| - 1] == n - 1
  {
    assert n - 1 in ix;
    var a := Position(ix, n - 1);
    var last := |ix| - 1;
    assert ix[last] in ix;
  }

  lemma Position(ix: seq<nat>, i: nat) returns (a: nat)
    requires i in ix
    ensures a < |ix| && ix[a] == i
  {
    a :| 0 <= a < |ix| && ix[a] == i;
  }

  lemma ListInit(ix: seq<nat>, have: set<nat>, n: nat)
    requires Lists(ix, have, n) && n > 0 && ix != [] && ix[|ix| - 1] == n - 1
    ensures Lists(ix[..|ix| - 1], have, n - 1)
  {
    var last := |ix| - 1;
    var init := ix[..last];
    forall i ensures i in init <==> 0 <= i < n - 1 && i !in have {
      if i in init {
        var a := Position(init, i);
        assert ix[a] in ix && ix[a] < ix[last];
      }
      if 0 <= i < n - 1 && i !in have {
        assert i in ix;
        var a := Position(ix, i);
        assert a < last && init[a] == i;
      }
    }
  }

  lemma ListSkip(ix: seq<nat>, have: set<nat>, n: nat)
    requires Lists(ix, have, n) && n > 0 && n - 1 in have
    ensures Lists(ix, have, n - 1)
  {
  }

  lemma First(ix: seq<nat>) returns (i: nat)
    requires ix != []
    ensures i in ix
  {
    i := ix[0];
  }

  lemma ListNone(ix: seq<nat>, have: set<nat>)
    requires Lists(ix, have, 0)
    ensures ix == []
  {
    if ix != [] { var i := First(ix); }
  }

  /** The list without its last entry is the list for one chunk less. */
  lemma ListBack(ix: seq<nat>, have: set<nat>, n: nat) returns (init: seq<nat>)
    requires Lists(ix, have, n) && n > 0
    ensures Lists(init, have, n - 1) && ix == init + if n - 1 in have then [] else [n - 1]
  {
    if n - 1 in have {
      ListSkip(ix, have, n);
      init := ix;
    } else {
      ListEnd(ix, have, n);
      ListInit(ix, have, n);
      init := ix[..|ix| - 1];
    }
  }

  lemma {:induction false} ListUnique(ix: seq<nat>, have: set<nat>, n: nat)
    requires Lists(ix, have, n)
    ensures ix == Missing(have, n)
    decreases n
  {
    if n == 0 {
      ListNone(ix, have);
    } else {
      var init := ListBack(ix, have, n);
      ListUnique(init, have, n - 1);
    }
  }

  lemma ListIsMissing(ix: seq<nat>, have: set<nat>, n: nat)
    ensures Lists(ix, have, n) <==> ix == Missing(have, n)
  {
    if ix == Missing(have, n) { MissingExact(have, n); }
    if Lists(ix, have, n) { ListUnique(ix, have, n); }
  }

  function KnownFrom(k: Scheme, m: Manifest, d: Disk): set<nat> {
    if Continues(k, m, d) then d.sidecar.have else {}
  }

  /** The reply to a manifest is a request for exactly what is missing, in increasing order. */
  ghost predicate AsksFor(k: Scheme, c: Config, msg: Msg, env: Env, ix: seq<nat>) {
    && c.s.AwaitManifest? && msg.MManifest? && !env.fault.PathRefused? && Opens(k, msg.manifest, c.d, env)
    && Lists(ix, KnownFrom(k, msg.manifest, c.d), msg.manifest.chunkCount) && 4 + 4 * |ix| <= 67_108_864
  }

  lemma RequestsExact(k: Scheme, c: Config, msg: Msg, env: Env, ix: seq<nat>)
    ensures MReqChunks(ix) in React(k, c.s, c.d, Got(msg, env)).out <==> env.sendOk && AsksFor(k, c, msg, env, ix)
  {
    if c.s.AwaitManifest? && msg.MManifest? {
      ListIsMissing(ix, KnownFrom(k, msg.manifest, c.d), msg.manifest.chunkCount);
    }
  }

  /** Everything arrived, was checked twice and is in place. */
  predicate Concludes(k: Scheme, c: Config, msg: Msg, env: Env) {
    && c.s.Receiving? && msg.MComplete? && Received(c.s.p) && Legible(c.s.p, c.d, env)
    && RootsAgree(k, c.s.p, c.d, msg.complete, env) && c.d.partial.Some? && !env.fault.RenameFails?
  }

  /** n is the last index of count chunks, or zero where there are none. */
  predicate LastOf(n: nat, count: nat) {
    n + 1 == count || n == 0 == count
  }

  lemma AcksExact(k: Scheme, c: Config, msg: Msg, env: Env, n: nat)
    ensures MAck(n) in React(k, c.s, c.d, Got(msg, env)).out <==>
            env.sendOk && Concludes(k, c, msg, env) && LastOf(n, c.s.p.m.chunkCount)
  {
    if c.s.Receiving? && msg.MComplete? {
      ReceivedCounts(c.s.p);
      if Legible(c.s.p, c.d, env) { ContentIs(c.s.p, c.d, env); }
    }
  }

  lemma HellosExact(k: Scheme, c: Config, msg: Msg, env: Env, hello: HelloMsg)
    ensures MHello(hello) in React(k, c.s, c.d, Got(msg, env)).out <==>
            && env.sendOk && c.s.AwaitHello? && msg.MHello? && msg.hello.version == 1
            && hello == HelloMsg(1, 1_048_576, 0)
  {
  }

  /** There are no other replies, and never two. */
  lemma OneReply(k: Scheme, c: Config, e: Event)
    ensures var out := React(k, c.s, c.d, e).out;
            && |out| <= 1 && (!e.Got? ==> out == [])
            && forall msg :: msg in out ==> msg.MError? || msg.MHello? || msg.MReqChunks? || msg.MAck?
  {
  }

  // ---------------------------------------------------------------------
  // Over whole sessions.
  // ---------------------------------------------------------------------

  ghost predicate OneSession(events: seq<Event>) {
    forall e :: e in events ==> !e.Begin?
  }

  /** All replies of a run, in order. */
  function Replies(k: Scheme, c: Config, events: seq<Event>): seq<Msg>
    decreases |events|
  {
    if events == [] then []
    else React(k, c.s, c.d, events[0]).out + Replies(k, Step(k, c, events[0]), events[1..])
  }

  lemma {:induction false} ReturnedStays(k: Scheme, c: Config, events: seq<Event>)
    requires c.s.Returned? && OneSession(events)
    ensures Run(k, c, events) == c && Replies(k, c, events) == []
    decreases |events|
  {
    if events != [] {
      assert events[0] in events && forall e :: e in events[1..] ==> e in events;
      assert Step(k, c, events[0]) == c;
      ReturnedStays(k, c, events[1..]);
    }
  }

  /** The peer opened with a HELLO of the one supported version. */
  predicate Greeted(events: seq<Event>) {
    events != [] && events[0].Got? && events[0].msg.MHello? && events[0].msg.hello.version == 1
  }

  /**
   * Nothing happens before a HELLO of version 1: whatever comes otherwise, the session fails, touches no
   * file, and says at most one thing, an error.
   */
  lemma GreetingRequired(k: Scheme, d: Disk, events: seq<Event>)
    requires OneSession(events) && events != [] && !Greeted(events)
    ensures Run(k, Config(AwaitHello, d), events) == Config(Returned(false), d)
    ensures var out := Replies(k, Config(AwaitHello, d), events);
            out == [] || out == [MError(UnsupportedVersion)] || out == [MError(ProtocolViolation)]
  {
    var c, e := Config(AwaitHello, d), events[0];
    assert e in events && forall x :: x in events[1..] ==> x in events;
    assert Step(k, c, e) == Config(Returned(false), d);
    ReturnedStays(k, Step(k, c, e), events[1..]);
    assert React(k, c.s, c.d, e).out + [] == React(k, c.s, c.d, e).out;
  }

  /** A HELLO of any other version is answered with error 2, whatever follows. */
  lemma OtherVersionRefused(k: Scheme, d: Disk, hello: HelloMsg, env: Env, more: seq<Event>)
    requires OneSession(more) && hello.version != 1
    ensures var events := [Got(MHello(hello), env)] + more;
            && Run(k, Config(AwaitHello, d), events) == Config(Returned(false), d)
            && Replies(k, Config(AwaitHello, d), events) == if env.sendOk then [MError(UnsupportedVersion)] else []
  {
    var c, e, events := Config(AwaitHello, d), Got(MHello(hello), env), [Got(MHello(hello), env)] + more;
    assert events[1..] == more && events[0] == e;
    assert Step(k, c, e) == Config(Returned(false), d);
    ReturnedStays(k, Step(k, c, e), more);
    assert React(k, c.s, c.d, e).out + [] == React(k, c.s, c.d, e).out;
  }

  /** The manifest does not change while chunks arrive. */
  lemma {:induction false} AckFrom(k: Scheme, c: Config, events: seq<Event>, n: nat)
    requires OneSession(events) && c.s.Receiving? && MAck(n) in Replies(k, c, events)
    ensures LastOf(n, c.s.p.m.chunkCount)
    decreases |events|
  {
    var e, next := events[0], Step(k, c, events[0]);
    assert e in events && forall x :: x in events[1..] ==> x in events;
    if MAck(n) in React(k, c.s, c.d, e).out {
      AcksExact(k, c, e.msg, e.env, n);
    } else if next.s.Receiving? {
      AckFrom(k, next, events[1..], n);
    } else {
      ReturnedStays(k, next, events[1..]);
    }
  }

  lemma AckAfterManifest(k: Scheme, d: Disk, events: seq<Event>, n: nat)
    requires OneSession(events) && MAck(n) in Replies(k, Config(AwaitManifest, d), events)
    ensures events[0].Got? && events[0].msg.MManifest? && LastOf(n, events[0].msg.manifest.chunkCount)
  {
    var c, e := Config(AwaitManifest, d), events[0];
    assert e in events && forall x :: x in events[1..] ==> x in events;
    var next := Step(k, c, e);
    if next.s.Returned? {
      ReturnedStays(k, next, events[1..]);
      if e.Got? { AcksExact(k, c, e.msg, e.env, n); }
    } else {
      if e.Got? { AcksExact(k, c, e.msg, e.env, n); }
      AckFrom(k, next, events[1..], n);
    }
  }

  /** Every ACK of a session names the last chunk of the manifest that the session received. */
  lemma AckNamesLast(k: Scheme, d: Disk, events: seq<Event>, n: nat)
    requires OneSession(events) && MAck(n) in Replies(k, Config(AwaitHello, d), events)
    ensures Greeted(events) && |events| >= 2 && events[1].Got? && events[1].msg.MManifest?
    ensures LastOf(n, events[1].msg.manifest.chunkCount)
  {
    var c, e := Config(AwaitHello, d), events[0];
    if !Greeted(events) { GreetingRequired(k, d, events); }
    assert e in events && forall x :: x in events[1..] ==> x in events;
    AcksExact(k, c, e.msg, e.env, n);
    var next := Step(k, c, e);
    if next.s.Returned? {
      ReturnedStays(k, next, events[1..]);
    } else {
      AckAfterManifest(k, d, events[1..], n);
    }
  }

  /** For an honest job that is the chunk the file ends with, and it is not empty. */
  lemma LastChunkEnds(j: Job, n: nat)
    requires Honest(j) && LastOf(n, Count(j))
    ensures if Count(j) == 0 then j.file == []
            else Slice(j.file, j.chunkSize, n) != [] && n * j.chunkSize <= |j.file|
                 && Slice(j.file, j.chunkSize, n) == j.file[n * j.chunkSize..]
  {
    CeilExact(|j.file|, j.chunkSize);
    EdgeEnds(j.chunkSize, |j.file|);
    if Count(j) > 0 { EdgeBelow(n, j.chunkSize, |j.file|); }
  }
}
