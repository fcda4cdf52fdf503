/** Runs of the composed system: progress, termination, resume convergence and conservation. */
module Convergence {
  import opened Chunks
  import opened Resume
  import opened Session
  import opened ResumeSafety
  import opened Protocol

  // ---------------------------------------------------------------------
  // Runs.
  // ---------------------------------------------------------------------

  /** A first session over any files whose sidecar, if it is this job's, tells the truth. */
  ghost predicate Init(k: Scheme, j: Job, w: World)
    requires Honest(j)
  {
    && w.client.CStart? && w.server.AwaitHello? && w.toServer == [] && w.toClient == []
    && !w.cut && !w.delivered && w.clean
    && DiskOk(k, j, w.disk) && Known(k, j, w.disk) <= Range(Count(j))
    && NoRepeats(w.log) && SetOf(w.log) == Known(k, j, w.disk)
  }

  ghost predicate Legal(k: Scheme, j: Job, w: World, moves: seq<Move>)
    requires Honest(j)
    decreases |moves|
  {
    moves == [] || (Enabled(w, moves[0]) && Legal(k, j, Next(k, j, w, moves[0]), moves[1..]))
  }

  ghost function Play(k: Scheme, j: Job, w: World, moves: seq<Move>): World
    requires Honest(j) && Legal(k, j, w, moves)
    decreases |moves|
  {
    if moves == [] then w else Play(k, j, Next(k, j, w, moves[0]), moves[1..])
  }

  /** The invariant holds after any moves: any number of sessions, each cut anywhere. */
  lemma {:induction false} PlayInv(k: Scheme, j: Job, w: World, moves: seq<Move>)
    requires Sendable(j) && Inv(k, j, w) && Legal(k, j, w, moves)
    ensures Inv(k, j, Play(k, j, w, moves))
    decreases |moves|
  {
    if moves != [] {
      MoveInv(k, j, w, moves[0]);
      PlayInv(k, j, Next(k, j, w, moves[0]), moves[1..]);
    }
  }

  predicate Finished(w: World) {
    w.client.CReturned? && w.server.Returned?
  }

  /** Not a cut and not a new session. */
  predicate Ordinary(mv: Move) {
    mv.ClientSends? || mv.ClientReceives? || mv.ServerReceives?
  }

  /** No deadlock: until both sides have returned, one of them can step. */
  lemma NoDeadlock(k: Scheme, j: Job, w: World)
    requires Sendable(j) && Inv(k, j, w) && !Finished(w)
    ensures exists mv :: Ordinary(mv) && Enabled(w, mv)
  {
    if Enabled(w, ClientSends(true)) {
      assert Ordinary(ClientSends(true));
    } else if Enabled(w, ServerReceives(true, Saved)) {
      assert Ordinary(ServerReceives(true, Saved));
    } else {
      assert Enabled(w, ClientReceives(true)) && Ordinary(ClientReceives(true));
    }
  }

  function ClientWeight(c: ClientState): nat {
    match c
    case CStart => 5
    case CAwaitHello => 4
    case CAwaitReq => 3
    case CSending(_) => 2
    case CAwaitAck => 1
    case CReturned(_) => 0
  }

  function ServerWeight(s: ServerState): nat {
    match s
    case AwaitHello => 3
    case AwaitManifest => 2
    case Receiving(_) => 1
    case Returned(_) => 0
  }

  function Phase(w: World): nat {
    ClientWeight(w.client) + ServerWeight(w.server) + (if w.cut then 0 else 9)
  }

  function Unsent(w: World): nat {
    if w.client.CSending? then |w.client.rest| else 0
  }

  /** Phase first, then chunks not yet sent, then messages in flight. */
  predicate Smaller(a: World, b: World) {
    || Phase(a) < Phase(b)
    || (Phase(a) == Phase(b) && Unsent(a) < Unsent(b))
    || (Phase(a) == Phase(b) && Unsent(a) == Unsent(b) && |a.toServer| < |b.toServer|)
  }

  /** Every move except a new session makes progress, from any state at all. */
  lemma MoveShrinks(k: Scheme, j: Job, w: World, mv: Move)
    requires Honest(j) && Enabled(w, mv) && !mv.Restart?
    ensures Smaller(Next(k, j, w, mv), w)
  {
    if mv.ServerReceives? {
      ServerShrinks(k, w, mv.ok, mv.save);
    }
  }

  lemma ServerShrinks(k: Scheme, w: World, ok: bool, save: SaveOutcome)
    requires Enabled(w, ServerReceives(ok, save))
    ensures Smaller(AfterServer(k, w, ok, save), w)
  {
    WeightDrops(k, w.server, w.disk, ServerEvent(w, ok, save));
  }

  /** Each event takes the receiver to its next phase, unless it is a chunk. */
  lemma WeightDrops(k: Scheme, s: ServerState, d: Disk, e: Event)
    requires !s.Returned? && !e.Begin?
    ensures var next := React(k, s, d, e).next;
            ServerWeight(next) < ServerWeight(s) || (e.Got? && s.Receiving? && next.Receiving?)
  {
  }

  /** A scheduler that always picks some step that is possible, and neither cuts nor restarts. */
  ghost predicate Schedules(k: Scheme, j: Job, sched: World -> Move)
    requires Honest(j)
  {
    forall w :: Inv(k, j, w) && !Finished(w) ==> Ordinary(sched(w)) && Enabled(w, sched(w))
  }

  /** One of them: the sender sends while it can, then the receiver goes, then the sender listens. */
  function Eager(w: World): Move {
    if Enabled(w, ClientSends(true)) then ClientSends(true)
    else if Enabled(w, ServerReceives(true, Saved)) then ServerReceives(true, Saved)
    else ClientReceives(true)
  }

  lemma EagerSchedules(k: Scheme, j: Job)
    requires Sendable(j)
    ensures Schedules(k, j, Eager)
  {
    forall w | Inv(k, j, w) && !Finished(w) ensures Ordinary(Eager(w)) && Enabled(w, Eager(w)) {
      NoDeadlock(k, j, w);
    }
  }

  /** The moves are those the scheduler picks, one after the other, until both sides have returned. */
  ghost predicate Scheduled(k: Scheme, j: Job, w: World, sched: World -> Move, moves: seq<Move>)
    requires Honest(j)
    decreases |moves|
  {
    if moves == [] then Finished(w)
    else
      && !Finished(w) && moves[0] == sched(w) && Enabled(w, moves[0])
      && Scheduled(k, j, Next(k, j, w, moves[0]), sched, moves[1..])
  }

  /** Every schedule ends with both sides returned. */
  lemma {:induction false} RunToEnd(k: Scheme, j: Job, w: World, sched: World -> Move) returns (moves: seq<Move>)
    requires Sendable(j) && Inv(k, j, w) && Schedules(k, j, sched)
    ensures Scheduled(k, j, w, sched, moves) && forall mv :: mv in moves ==> Ordinary(mv)
    ensures Legal(k, j, w, moves)
    ensures var end := Play(k, j, w, moves); Finished(end) && Inv(k, j, end) && end.cut == w.cut
    decreases Phase(w), Unsent(w), |w.toServer|
  {
    if Finished(w) {
      moves := [];
    } else {
      var mv := sched(w);
      MoveInv(k, j, w, mv);
      MoveShrinks(k, j, w, mv);
      var rest := RunToEnd(k, j, Next(k, j, w, mv), sched);
      moves := [mv] + rest;
      assert moves[1..] == rest;
    }
  }

  // ---------------------------------------------------------------------
  // How long a session can take.
  // ---------------------------------------------------------------------

  /** No request under way asks for more chunks than there are. */
  ghost predicate Modest(j: Job, w: World)
    requires Honest(j)
  {
    forall a :: 0 <= a < |w.toClient| && w.toClient[a].MReqChunks? ==> |w.toClient[a].indices| <= Count(j)
  }

  lemma MoveModest(k: Scheme, j: Job, w: World, mv: Move)
    requires Sendable(j) && Inv(k, j, w) && Modest(j, w) && Enabled(w, mv)
    ensures Modest(j, Next(k, j, w, mv))
  {
    if mv.ServerReceives? {
      ReplyModest(k, j, w, mv.ok, mv.save);
    }
  }

  lemma ReplyModest(k: Scheme, j: Job, w: World, ok: bool, save: SaveOutcome)
    requires Sendable(j) && Core(k, j, w) && Enabled(w, ServerReceives(ok, save))
    ensures var out := React(k, w.server, w.disk, ServerEvent(w, ok, save)).out;
            forall msg :: msg in out && msg.MReqChunks? ==> |msg.indices| <= Count(j)
  {
    var e := ServerEvent(w, ok, save);
    RequestModest(k, w.server, w.disk, e);
    if w.server.AwaitManifest? && w.toServer != [] {
      PrefixStep(w.toServer, Expected(k, j, w.server));
    }
  }

  /** A request answers a manifest and asks for no more chunks than that has. */
  lemma RequestModest(k: Scheme, s: ServerState, d: Disk, e: Event)
    ensures forall msg :: msg in React(k, s, d, e).out && msg.MReqChunks? ==>
              s.AwaitManifest? && e.Got? && e.msg.MManifest? && |msg.indices| <= e.msg.manifest.chunkCount
  {
    if s.AwaitManifest? && e.Got? && e.msg.MManifest? {
      var m := e.msg.manifest;
      MissingCount(if Matches(k, m, d.sidecar) then d.sidecar.have else {}, m.chunkCount);
    }
  }

  function ClientRank(n: nat, c: ClientState): nat {
    match c
    case CStart => n + 5
    case CAwaitHello => n + 4
    case CAwaitReq => n + 3
    case CSending(rest) => |rest| + 2
    case CAwaitAck => 1
    case CReturned(_) => 0
  }

  function ServerRank(j: Job, s: ServerState): nat
    requires Honest(j)
  {
    match s
    case AwaitHello => Count(j) + 3
    case AwaitManifest => Count(j) + 2
    case Receiving(p) => |Wanted(j, p.have)| + 1
    case Returned(_) => 0
  }

  /** The moves a session has left at most. */
  function Rank(j: Job, w: World): nat
    requires Honest(j)
  {
    ClientRank(Count(j), w.client) + ServerRank(j, w.server) + if w.cut then 0 else 1
  }

  lemma ServerRankDrops(k: Scheme, j: Job, w: World, ok: bool, save: SaveOutcome)
    requires Sendable(j) && Core(k, j, w) && Enabled(w, ServerReceives(ok, save))
    ensures ServerRank(j, React(k, w.server, w.disk, ServerEvent(w, ok, save)).next) < ServerRank(j, w.server)
  {
    if w.toServer != [] {
      PrefixStep(w.toServer, Expected(k, j, w.server));
      if w.server.AwaitManifest? {
        MissingCount(Known(k, j, w.disk), Count(j));
        ManifestEffect(k, j, w.disk, Saving(ok, save));
      } else if w.server.Receiving? {
        ReceivingRankDrops(k, j, w.server.p, w.disk, w.toServer[0], Saving(ok, save));
      }
    }
  }

  lemma ReceivingRankDrops(k: Scheme, j: Job, p: Progress, d: Disk, msg: Msg, env: Env)
    requires Honest(j) && RecvOk(k, j, p, d) && DiskOk(k, j, d) && Known(k, j, d) <= Range(Count(j)) && Smooth(env)
    requires msg == Expected(k, j, Receiving(p))[0]
    ensures ServerRank(j, React(k, Receiving(p), d, Got(msg, env)).next) < ServerRank(j, Receiving(p))
  {
    if Wanted(j, p.have) != [] {
      ChunkEffect(k, j, p, d, env);
    } else {
      CompleteEffect(k, j, p, d, env);
    }
  }

  lemma ClientRankDrops(n: nat, plan: Plan, c: ClientState, msg: Msg, ok: bool)
    requires msg.MReqChunks? ==> |msg.indices| <= n
    ensures Sends(c) ==> ClientRank(n, ClientSend(plan, c, ok).next) < ClientRank(n, c)
    ensures Receives(c) ==> ClientRank(n, ClientRecv(plan, c, msg, ok).next) < ClientRank(n, c)
  {
  }

  lemma RankDrops(k: Scheme, j: Job, w: World, mv: Move)
    requires Sendable(j) && Inv(k, j, w) && Modest(j, w) && Enabled(w, mv) && !mv.Restart?
    ensures Rank(j, Next(k, j, w, mv)) < Rank(j, w)
  {
    if mv.ServerReceives? {
      ServerRankDrops(k, j, w, mv.ok, mv.save);
    } else if Ordinary(mv) {
      ClientRankDrops(Count(j), PlanOf(k, j), w.client, if w.toClient == [] then MForeign else w.toClient[0], mv.ok);
    }
  }

  /** No sequence of moves within a session, chosen in any way, is longer than what the session has left. */
  lemma {:induction false} SessionBound(k: Scheme, j: Job, w: World, moves: seq<Move>)
    requires Sendable(j) && Inv(k, j, w) && Modest(j, w) && Legal(k, j, w, moves)
    requires forall mv :: mv in moves ==> !mv.Restart?
    ensures |moves| + Rank(j, Play(k, j, w, moves)) <= Rank(j, w)
    decreases |moves|
  {
    if moves != [] {
      var mv, rest := moves[0], moves[1..];
      assert mv in moves && forall x :: x in rest ==> x in moves;
      RankDrops(k, j, w, mv);
      MoveInv(k, j, w, mv);
      MoveModest(k, j, w, mv);
      SessionBound(k, j, Next(k, j, w, mv), rest);
    }
  }

  // ---------------------------------------------------------------------
  // What every run means.
  // ---------------------------------------------------------------------

  /** The sender reports success, and nothing but the delivered file is left. */
  predicate Success(j: Job, w: World) {
    w.client == CReturned(true) && w.server == Returned(true) && w.disk == DeliveredDisk(j)
  }

  /** A session after any series of sessions, each cut anywhere or not at all, with saves failing at will. */
  ghost predicate Resumes(k: Scheme, j: Job, w: World, series: seq<Move>, again: World)
    requires Honest(j)
  {
    && Init(k, j, w) && Legal(k, j, w, series) && Enabled(Play(k, j, w, series), Restart)
    && again == Next(k, j, Play(k, j, w, series), Restart)
  }

  lemma ResumedInv(k: Scheme, j: Job, w: World, series: seq<Move>, again: World)
    requires Sendable(j) && Resumes(k, j, w, series, again)
    ensures Inv(k, j, again) && Modest(j, again) && Rank(j, again) == 2 * Count(j) + 9
  {
    PlayInv(k, j, w, series);
    MoveInv(k, j, Play(k, j, w, series), Restart);
  }

  /** From every first session there is such a series, and it can be as short as that session. */
  lemma SeriesExists(k: Scheme, j: Job, w: World) returns (series: seq<Move>, again: World)
    requires Sendable(j) && Init(k, j, w)
    ensures Resumes(k, j, w, series, again) && Schedules(k, j, Eager)
  {
    EagerSchedules(k, j);
    series := RunToEnd(k, j, w, Eager);
    again := Next(k, j, Play(k, j, w, series), Restart);
  }

  /**
   * Resume converges: after any series of sessions, each cut anywhere or not at all, and with saves of
   * the sidecar failing at will, a further session that is not interrupted follows its schedule to the
   * sender's success, whatever the schedule and its saves.
   */
  lemma ResumeConverges(k: Scheme, j: Job, w: World, series: seq<Move>, again: World, sched: World -> Move)
    requires Sendable(j) && Resumes(k, j, w, series, again) && Schedules(k, j, sched)
    ensures exists last :: Scheduled(k, j, again, sched, last)
    ensures forall last :: Scheduled(k, j, again, sched, last) ==>
              |last| <= 2 * Count(j) + 8 && Legal(k, j, again, last) && Success(j, Play(k, j, again, last))
  {
    ResumedInv(k, j, w, series, again);
    var run := RunToEnd(k, j, again, sched);
    assert Scheduled(k, j, again, sched, run);
    forall last | Scheduled(k, j, again, sched, last)
      ensures |last| <= 2 * Count(j) + 8 && Legal(k, j, again, last) && Success(j, Play(k, j, again, last))
    {
      ScheduledEnds(k, j, again, sched, last);
      SessionBound(k, j, again, last);
    }
  }

  lemma {:induction false} ScheduledEnds(k: Scheme, j: Job, w: World, sched: World -> Move, moves: seq<Move>)
    requires Sendable(j) && Inv(k, j, w) && Schedules(k, j, sched) && Scheduled(k, j, w, sched, moves)
    ensures Legal(k, j, w, moves) && forall mv :: mv in moves ==> Ordinary(mv)
    ensures var end := Play(k, j, w, moves); Finished(end) && Inv(k, j, end) && end.cut == w.cut
    decreases |moves|
  {
    if moves != [] {
      MoveInv(k, j, w, moves[0]);
      ScheduledEnds(k, j, Next(k, j, w, moves[0]), sched, moves[1..]);
      assert moves == [moves[0]] + moves[1..];
    }
  }

  /**
   * And without a schedule: however its moves are chosen, such a session makes at most 2n + 8 of them for n
   * chunks, and as long as it has not ended in the sender's success a further one is possible.
   */
  lemma EveryChoiceConverges(k: Scheme, j: Job, w: World, series: seq<Move>, again: World, moves: seq<Move>)
    requires Sendable(j) && Resumes(k, j, w, series, again)
    requires Legal(k, j, again, moves) && forall mv :: mv in moves ==> Ordinary(mv)
    ensures |moves| <= 2 * Count(j) + 8
    ensures var end := Play(k, j, again, moves); Success(j, end) || exists mv :: Ordinary(mv) && Enabled(end, mv)
  {
    ResumedInv(k, j, w, series, again);
    SessionBound(k, j, again, moves);
    PlayInv(k, j, again, moves);
    StaysUncut(k, j, again, moves);
    var end := Play(k, j, again, moves);
    if !Finished(end) { NoDeadlock(k, j, end); }
  }

  lemma {:induction false} StaysUncut(k: Scheme, j: Job, w: World, moves: seq<Move>)
    requires Honest(j) && Legal(k, j, w, moves) && forall mv :: mv in moves ==> Ordinary(mv)
    ensures Play(k, j, w, moves).cut == w.cut
    decreases |moves|
  {
    if moves != [] {
      assert moves[0] in moves && forall x :: x in moves[1..] ==> x in moves;
      StaysUncut(k, j, Next(k, j, w, moves[0]), moves[1..]);
    }
  }

  /**
   * In every run: the two sides are never stuck; a session that ends uncut ends in success; and the
   * sender reports success only when the destination holds the file, cut or not.
   */
  lemma EveryRun(k: Scheme, j: Job, w: World, moves: seq<Move>)
    requires Sendable(j) && Init(k, j, w) && Legal(k, j, w, moves)
    ensures var end := Play(k, j, w, moves);
            && (!Finished(end) ==> exists mv :: Ordinary(mv) && Enabled(end, mv))
            && (Finished(end) && !end.cut ==> Success(j, end))
            && (end.client == CReturned(true) ==> end.disk == DeliveredDisk(j))
  {
    PlayInv(k, j, w, moves);
    var end := Play(k, j, w, moves);
    if !Finished(end) { NoDeadlock(k, j, end); }
  }

  // ---------------------------------------------------------------------
  // Conservation.
  // ---------------------------------------------------------------------

  function AcceptedBytes(j: Job, log: seq<nat>): nat {
    if log == [] then 0
    else AcceptedBytes(j, log[..|log| - 1]) + |Slice(j.file, j.chunkSize, log[|log| - 1])|
  }

  lemma {:induction false} BytesAppend(j: Job, a: seq<nat>, b: seq<nat>)
    ensures AcceptedBytes(j, a + b) == AcceptedBytes(j, a) + AcceptedBytes(j, b)
    decreases |b|
  {
    if b == [] {
      assert a + b == a;
    } else {
      assert (a + b)[..|a + b| - 1] == a + b[..|b| - 1];
      BytesAppend(j, a, b[..|b| - 1]);
    }
  }

  function Without(log: seq<nat>, a: nat): seq<nat>
    requires a < |log|
  {
    log[..a] + log[a + 1..]
  }

  lemma BytesWithout(j: Job, log: seq<nat>, a: nat)
    requires a < |log|
    ensures AcceptedBytes(j, log) == AcceptedBytes(j, Without(log, a)) + |Slice(j.file, j.chunkSize, log[a])|
  {
    var left, right := log[..a], log[a + 1..];
    assert log == (left + [log[a]]) + right;
    BytesAppend(j, left + [log[a]], right);
    BytesAppend(j, left, right);
    assert (left + [log[a]])[..a] == left;
  }

  lemma LastWithout(log: seq<nat>, a: nat, n: nat)
    requires n > 0 && NoRepeats(log) && SetOf(log) == Range(n) && a < |log| && log[a] == n - 1
    ensures NoRepeats(Without(log, a)) && SetOf(Without(log, a)) == Range(n - 1)
  {
    var rest := Without(log, a);
    assert forall x :: 0 <= x < |rest| ==> rest[x] == if x < a then log[x] else log[x + 1];
    forall i | i in SetOf(rest) ensures i in Range(n - 1) {
      assert i in SetOf(log);
    }
    forall i | i in Range(n - 1) ensures i in SetOf(rest) {
      assert i in SetOf(log);
      var x :| 0 <= x < |log| && log[x] == i;
      assert rest[if x < a then x else x - 1] == i;
    }
  }

  /** Chunks accepted once each add up to the file, in whatever order they came. */
  lemma {:induction false} OnceEachAddsUp(j: Job, log: seq<nat>, n: nat)
    requires j.chunkSize > 0 && NoRepeats(log) && SetOf(log) == Range(n)
    ensures |log| == n && AcceptedBytes(j, log) == Edge(n, j.chunkSize, |j.file|)
    decreases n
  {
    if log != [] { assert log[0] in SetOf(log); }
    if n > 0 {
      var a := Find(log, n - 1);
      var rest := Without(log, a);
      BytesWithout(j, log, a);
      LastWithout(log, a, n);
      OnceEachAddsUp(j, rest, n - 1);
      SliceLength(j, n - 1);
      assert |rest| + 1 == |log|;
    }
  }

  lemma Find(log: seq<nat>, i: nat) returns (a: nat)
    requires i in SetOf(log)
    ensures a < |log| && log[a] == i
  {
    a :| 0 <= a < |log| && log[a] == i;
  }

  lemma SliceLength(j: Job, i: nat)
    ensures Edge(i, j.chunkSize, |j.file|) + |Slice(j.file, j.chunkSize, i)| == Edge(i + 1, j.chunkSize, |j.file|)
  {
    EdgeMonotone(i, i + 1, j.chunkSize, |j.file|);
  }

  /**
   * Conservation: in every run without a failed save since the last delivery, by the time the file is
   * delivered, over however many sessions, each chunk has been accepted exactly once and the accepted
   * bytes add up to the file size.
   */
  lemma Conservation(k: Scheme, j: Job, w: World, moves: seq<Move>)
    requires Sendable(j) && Init(k, j, w) && Legal(k, j, w, moves)
    ensures var end := Play(k, j, w, moves);
            end.clean ==>
              && NoRepeats(end.log)
              && (end.delivered ==> && |end.log| == Count(j) && SetOf(end.log) == Range(Count(j))
                                    && AcceptedBytes(j, end.log) == |j.file|)
  {
    PlayInv(k, j, w, moves);
    var end := Play(k, j, w, moves);
    if end.clean && end.delivered {
      OnceEachAddsUp(j, end.log, Count(j));
      EdgeEnds(j.chunkSize, |j.file|);
    }
  }

  /** While saves succeed, a session asks for exactly the chunks that none since the last delivery has accepted. */
  lemma RequestsAreNew(k: Scheme, j: Job, w: World, moves: seq<Move>)
    requires Sendable(j) && Init(k, j, w) && Legal(k, j, w, moves)
    ensures var end := Play(k, j, w, moves);
            end.clean && !end.cut && end.client.CAwaitReq? && end.toClient != [] ==>
              && end.toClient[0].MReqChunks?
              && forall i :: i in end.toClient[0].indices <==> 0 <= i < Count(j) && i !in end.log
  {
    PlayInv(k, j, w, moves);
    var end := Play(k, j, w, moves);
    if end.clean && !end.cut && end.client.CAwaitReq? && end.toClient != [] {
      MissingExact(end.server.p.have, Count(j));
      assert end.server.p.have == SetOf(end.log);
    }
  }
}
