/**
 * The in-order root hash is taken over the chunks as they came, not over the file: for which chunk
 * lengths the two agree, for every manifest, honest or not.
 */
module FastPath {
  import opened Bytes
  import opened Messages
  import opened Chunks
  import opened Session
  import F = Frames
  import opened Resume

  /** Parts written one after the other, part i at i * cs. */
  function Written(p: seq<byte>, cs: nat, parts: seq<seq<byte>>): seq<byte>
    decreases |parts|
  {
    if parts == [] then p
    else
      var n := |parts| - 1;
      Splice(Written(p, cs, parts[..n]), Offset(n, cs), parts[n])
  }

  function Sum(lens: seq<nat>): nat {
    if lens == [] then 0 else Sum(lens[..|lens| - 1]) + lens[|lens| - 1]
  }

  function Lens(parts: seq<seq<byte>>): (s: seq<nat>)
    ensures |s| == |parts|
  {
    seq(|parts|, i requires 0 <= i < |parts| => |parts[i]|)
  }

  /** Every nonempty part starts where the parts before it end. */
  predicate Aligned(lens: seq<nat>, cs: nat) {
    forall i :: 0 <= i < |lens| && lens[i] > 0 ==> Sum(lens[..i]) == Offset(i, cs)
  }

  /** Every write passes the range check. */
  predicate InRange(lens: seq<nat>, cs: nat, total: nat) {
    forall i :: 0 <= i < |lens| ==> Offset(i, cs) + lens[i] <= total
  }

  lemma {:induction false} ConcatLength(parts: seq<seq<byte>>)
    ensures |Concat(parts)| == Sum(Lens(parts))
  {
    if parts != [] {
      var n := |parts| - 1;
      ConcatLength(parts[..n]);
      assert Lens(parts)[..n] == Lens(parts[..n]);
    }
  }

  lemma {:induction false} AlignedPrefix(parts: seq<seq<byte>>, cs: nat, total: nat, k: nat)
    requires k <= |parts| && Aligned(Lens(parts), cs) && InRange(Lens(parts), cs, total)
    requires Sum(Lens(parts)) == total
    ensures |Concat(parts[..k])| <= total
    ensures Written(Zeros(total), cs, parts[..k]) == Concat(parts[..k]) + Zeros(total - |Concat(parts[..k])|)
  {
    if k > 0 {
      AlignedPrefix(parts, cs, total, k - 1);
      var before, part := Concat(parts[..k - 1]), parts[k - 1];
      assert parts[..k][..k - 1] == parts[..k - 1];
      ConcatLength(parts[..k - 1]);
      assert Lens(parts[..k - 1]) == Lens(parts)[..k - 1];
      assert Concat(parts[..k]) == before + part;
      if part == [] {
        assert before + part == before;
      } else {
        assert Lens(parts)[k - 1] == |part| && Offset(k - 1, cs) == |before|;
      }
    }
  }

  lemma AlignedAgrees(parts: seq<seq<byte>>, cs: nat)
    requires Aligned(Lens(parts), cs) && InRange(Lens(parts), cs, Sum(Lens(parts)))
    ensures Written(Zeros(Sum(Lens(parts))), cs, parts) == Concat(parts)
  {
    var total := Sum(Lens(parts));
    AlignedPrefix(parts, cs, total, |parts|);
    assert parts[..|parts|] == parts;
    ConcatLength(parts);
  }

  /** Part i all ones, the others all zeros. */
  function Marked(lens: seq<nat>, i: nat): (parts: seq<seq<byte>>)
    ensures |parts| == |lens| && Lens(parts) == lens
  {
    seq<seq<byte>>(|lens|, q requires 0 <= q < |lens| => seq(lens[q], _ => if q == i then 1 else 0))
  }

  lemma {:induction false} MarkedWritten(lens: seq<nat>, cs: nat, total: nat, i: nat, k: nat)
    requires i < |lens| && k <= |lens| && InRange(lens, cs, total)
    ensures |Written(Zeros(total), cs, Marked(lens, i)[..k])| == total
    ensures forall x :: 0 <= x < total && Written(Zeros(total), cs, Marked(lens, i)[..k])[x] == 1 ==>
              Offset(i, cs) <= x < Offset(i, cs) + lens[i]
  {
    if k > 0 {
      MarkedWritten(lens, cs, total, i, k - 1);
      var parts := Marked(lens, i);
      assert parts[..k][..k - 1] == parts[..k - 1];
      var was := Written(Zeros(total), cs, parts[..k - 1]);
      MarkedNext(lens, cs, total, i, k - 1, was);
    }
  }

  lemma MarkedNext(lens: seq<nat>, cs: nat, total: nat, i: nat, k: nat, was: seq<byte>)
    requires i < |lens| && k < |lens| && InRange(lens, cs, total) && |was| == total
    requires forall x :: 0 <= x < total && was[x] == 1 ==> Offset(i, cs) <= x < Offset(i, cs) + lens[i]
    ensures var now := Splice(was, Offset(k, cs), Marked(lens, i)[k]);
            && |now| == total
            && forall x :: 0 <= x < total && now[x] == 1 ==> Offset(i, cs) <= x < Offset(i, cs) + lens[i]
  {
    var part, off := Marked(lens, i)[k], Offset(k, cs);
    var now := Splice(was, off, part);
    assert |part| == lens[k];
    forall x | 0 <= x < total && now[x] == 1 ensures Offset(i, cs) <= x < Offset(i, cs) + lens[i] {
      if part != [] && off <= x < off + |part| {
        assert now[x] == part[x - off];
      } else {
        assert now[x] == was[x];
      }
    }
  }

  lemma {:induction false} ConcatAt(parts: seq<seq<byte>>, i: nat, y: nat)
    requires i < |parts| && y < |parts[i]|
    ensures Sum(Lens(parts)[..i]) + y < |Concat(parts)|
    ensures Concat(parts)[Sum(Lens(parts)[..i]) + y] == parts[i][y]
    decreases |parts|
  {
    var n := |parts| - 1;
    ConcatLength(parts[..n]);
    assert Lens(parts[..n]) == Lens(parts)[..n];
    if i < n {
      ConcatAt(parts[..n], i, y);
      assert Lens(parts[..n])[..i] == Lens(parts)[..i];
    }
  }

  lemma AgreementAligns(lens: seq<nat>, cs: nat, i: nat)
    requires i < |lens| && lens[i] > 0 && InRange(lens, cs, Sum(lens))
    requires Written(Zeros(Sum(lens)), cs, Marked(lens, i)) == Concat(Marked(lens, i))
    ensures Sum(lens[..i]) == Offset(i, cs)
  {
    var parts, at := Marked(lens, i), Sum(lens[..i]);
    MarkedWritten(lens, cs, Sum(lens), i, |lens|);
    assert parts[..|lens|] == parts;
    ConcatAt(parts, i, 0);
    ConcatAt(parts, i, lens[i] - 1);
  }

  /**
   * For in-range writes of given lengths, the bytes hashed and the bytes on disk agree for all contents
   * if and only if every nonempty chunk starts where the previous ones end.
   */
  lemma FastPathExact(lens: seq<nat>, cs: nat)
    requires InRange(lens, cs, Sum(lens))
    ensures (forall parts :: Lens(parts) == lens ==> Written(Zeros(Sum(lens)), cs, parts) == Concat(parts))
            <==> Aligned(lens, cs)
  {
    if Aligned(lens, cs) {
      forall parts | Lens(parts) == lens ensures Written(Zeros(Sum(lens)), cs, parts) == Concat(parts) {
        AlignedAgrees(parts, cs);
      }
    }
    if forall parts :: Lens(parts) == lens ==> Written(Zeros(Sum(lens)), cs, parts) == Concat(parts) {
      forall i | 0 <= i < |lens| && lens[i] > 0 ensures Sum(lens[..i]) == Offset(i, cs) {
        assert Lens(Marked(lens, i)) == lens;
        AgreementAligns(lens, cs, i);
      }
    }
  }

  // ---------------------------------------------------------------------
  // In the session.
  // ---------------------------------------------------------------------

  /** In-order progress through the given parts of any manifest. */
  ghost predicate Shape(parts: seq<seq<byte>>, p: Progress, d: Disk) {
    && !p.resume && p.inOrder && p.next == |parts| == p.chunks
    && p.bytes == Sum(Lens(parts)) && p.hashed == Concat(parts)
    && d.partial == Some(Written(Zeros(p.m.fileSize), p.m.chunkSize, parts))
  }

  lemma SumGrows(lens: seq<nat>, n: nat)
    requires n <= |lens|
    ensures Sum(lens[..n]) <= Sum(lens)
    decreases |lens| - n
  {
    if n == |lens| {
      assert lens[..n] == lens;
    } else {
      SumGrows(lens, n + 1);
      assert lens[..n + 1][..n] == lens[..n];
    }
  }

  lemma LensSnoc(parts: seq<seq<byte>>, part: seq<byte>)
    ensures Lens(parts + [part]) == Lens(parts) + [|part|]
    ensures Sum(Lens(parts + [part])) == Sum(Lens(parts)) + |part|
    ensures Concat(parts + [part]) == Concat(parts) + part
  {
    assert (Lens(parts) + [|part|])[..|parts|] == Lens(parts);
    assert (parts + [part])[..|parts|] == parts;
  }

  /** Each in-order chunk that is accepted extends the parts, whatever its length. */
  lemma InOrderShape(k: Scheme, parts: seq<seq<byte>>, p: Progress, d: Disk, c: ChunkMsg, env: Env)
    requires Shape(parts, p, d) && ChunkFault(k, p, c).None? && c.index == p.next && !env.fault.WriteFails?
    requires Sum(Lens(parts)) + |c.data| < 0x1_0000_0000_0000_0000
    ensures var r := OnChunk(k, p, c, env);
            r.next == Receiving(Accept(p, c)) && Shape(parts + [c.data], r.next.p, ApplyAll(d, r.ops))
  {
    AcceptedEffect(k, p, d, c, env);
    ShapeAccept(parts, p, d, c);
    assert (parts + [c.data])[..|parts|] == parts;
  }

  lemma ShapeAccept(parts: seq<seq<byte>>, p: Progress, d: Disk, c: ChunkMsg)
    requires Shape(parts, p, d) && c.index == p.next < p.m.chunkCount
    requires Sum(Lens(parts)) + |c.data| < 0x1_0000_0000_0000_0000
    ensures var q, more := Accept(p, c), parts + [c.data];
            && q.m == p.m && !q.resume && q.inOrder && q.next == |more| == q.chunks
            && q.bytes == Sum(Lens(more)) && q.hashed == Concat(more)
  {
    LensSnoc(parts, c.data);
    assert Wrap64(p.bytes + |c.data|) == p.bytes + |c.data|;
    assert Wrap32(p.chunks + 1) == p.chunks + 1;
  }

  /** Chunk lengths that a manifest and its request can carry, each write in range. */
  predicate Carriable(lens: seq<nat>, cs: nat) {
    && cs < 0x1_0000_0000 && 4 + 4 * |lens| <= F.MAX_PAYLOAD
    && Sum(lens) <= MAX_SEEK && InRange(lens, cs, Sum(lens))
  }

  type Path = p: seq<byte> | |p| < 0x1_0000

  /** The manifest that names the given parts as its chunks, whatever their lengths. */
  function Naming(k: Scheme, parts: seq<seq<byte>>, cs: nat, path: Path): Manifest
    requires Carriable(Lens(parts), cs)
  {
    ManifestMsg(Sum(Lens(parts)), cs, |parts|, k.hash(Concat(parts)), path,
                seq<Digest>(|parts|, i requires 0 <= i < |parts| => k.hash(parts[i])))
  }

  function PartEvent(k: Scheme, parts: seq<seq<byte>>, n: nat): Event
    requires n < |parts| < 0x1_0000_0000
  {
    Got(MChunk(ChunkMsg(n, k.hash(parts[n]), parts[n])), Calm(true))
  }

  function PartEvents(k: Scheme, parts: seq<seq<byte>>, n: nat): seq<Event>
    requires n <= |parts| < 0x1_0000_0000
  {
    if n == 0 then []
    else PartEvents(k, parts, n - 1) + [PartEvent(k, parts, n - 1)]
  }

  /** The manifest, its chunks in order, and COMPLETE with its root hash. */
  function InOrderSession(k: Scheme, parts: seq<seq<byte>>, cs: nat, path: Path): seq<Event>
    requires Carriable(Lens(parts), cs)
  {
    [Got(MManifest(Naming(k, parts, cs, path)), Calm(true))] + PartEvents(k, parts, |parts|)
    + [Got(MComplete(CompleteMsg(k.hash(Concat(parts)), 0)), Calm(true))]
  }

  lemma SessionOpens(k: Scheme, parts: seq<seq<byte>>, cs: nat, path: Path, d: Disk)
    requires Carriable(Lens(parts), cs) && !Matches(k, Naming(k, parts, cs, path), d.sidecar)
    ensures var m := Naming(k, parts, cs, path);
            var c := Step(k, Config(AwaitManifest, d), Got(MManifest(m), Calm(true)));
            && c.s == Receiving(Progress(m, false, {}, 0, 0, [], true, 0))
            && c.d == Disk(d.dest, Some(Zeros(m.fileSize)), Absent)
  {
    var m := Naming(k, parts, cs, path);
    MissingCount({}, m.chunkCount);
    assert [RemoveSidecar] + [CreatePartial(m.fileSize)] == [RemoveSidecar, CreatePartial(m.fileSize)];
    ApplyTwo(d, RemoveSidecar, CreatePartial(m.fileSize));
  }

  /** Every part passes every check. */
  lemma PartAccepted(k: Scheme, parts: seq<seq<byte>>, cs: nat, path: Path, p: Progress, n: nat)
    requires Carriable(Lens(parts), cs) && p.m == Naming(k, parts, cs, path) && n < |parts|
    ensures ChunkFault(k, p, ChunkMsg(n, k.hash(parts[n]), parts[n])).None?
  {
    assert Lens(parts)[n] == |parts[n]|;
    assert Offset(n, cs) + |parts[n]| <= Sum(Lens(parts)) <= MAX_SEEK;
    assert Wrap64(Offset(n, cs) + |parts[n]|) == Offset(n, cs) + |parts[n]|;
  }

  lemma {:induction false} PartsArrive(k: Scheme, parts: seq<seq<byte>>, cs: nat, path: Path, c: Config, n: nat)
    requires Carriable(Lens(parts), cs) && n <= |parts|
    requires c.s.Receiving? && c.s.p.m == Naming(k, parts, cs, path) && Shape([], c.s.p, c.d)
    ensures var c' := Run(k, c, PartEvents(k, parts, n));
            c'.s.Receiving? && c'.s.p.m == c.s.p.m && Shape(parts[..n], c'.s.p, c'.d)
  {
    if n > 0 {
      PartsArrive(k, parts, cs, path, c, n - 1);
      var before, e := Run(k, c, PartEvents(k, parts, n - 1)), PartEvent(k, parts, n - 1);
      PartArrives(k, parts, cs, path, before, n - 1);
      RunAppend(k, c, PartEvents(k, parts, n - 1), [e]);
      assert Run(k, before, [e]) == Step(k, before, e) by { assert [e][1..] == []; }
    }
  }

  lemma PartArrives(k: Scheme, parts: seq<seq<byte>>, cs: nat, path: Path, c: Config, n: nat)
    requires Carriable(Lens(parts), cs) && n < |parts|
    requires c.s.Receiving? && c.s.p.m == Naming(k, parts, cs, path) && Shape(parts[..n], c.s.p, c.d)
    ensures var c' := Step(k, c, PartEvent(k, parts, n));
            c'.s.Receiving? && c'.s.p.m == c.s.p.m && Shape(parts[..n + 1], c'.s.p, c'.d)
  {
    assert Lens(parts[..n + 1]) == Lens(parts)[..n + 1] && parts[..n] + [parts[n]] == parts[..n + 1];
    SumGrows(Lens(parts), n + 1);
    LensSnoc(parts[..n], parts[n]);
    PartAccepted(k, parts, cs, path, c.s.p, n);
    InOrderShape(k, parts[..n], c.s.p, c.d, PartEvent(k, parts, n).msg.chunk, Calm(true));
  }

  lemma PartsComplete(k: Scheme, parts: seq<seq<byte>>, cs: nat, path: Path, c: Config)
    requires Carriable(Lens(parts), cs)
    requires c.s.Receiving? && c.s.p.m == Naming(k, parts, cs, path) && Shape(parts, c.s.p, c.d)
    ensures Step(k, c, Got(MComplete(CompleteMsg(k.hash(Concat(parts)), 0)), Calm(true))) ==
            Config(Returned(true), Disk(Some(Written(Zeros(Sum(Lens(parts))), cs, parts)), None, Absent))
  {
    ApplyTwo(c.d, Deliver, RemoveSidecar);
  }

  /**
   * The whole session, for a manifest that names any parts, honest or not: it succeeds, and delivers the
   * parts written in place, while the root hash it checked is that of their concatenation.
   */
  lemma InOrderDelivers(k: Scheme, parts: seq<seq<byte>>, cs: nat, path: Path, d: Disk)
    requires Carriable(Lens(parts), cs) && !Matches(k, Naming(k, parts, cs, path), d.sidecar)
    ensures Run(k, Config(AwaitManifest, d), InOrderSession(k, parts, cs, path)) ==
            Config(Returned(true), Disk(Some(Written(Zeros(Sum(Lens(parts))), cs, parts)), None, Absent))
  {
    var es, c := InOrderSession(k, parts, cs, path), Config(AwaitManifest, d);
    var mid, last := PartEvents(k, parts, |parts|), Got(MComplete(CompleteMsg(k.hash(Concat(parts)), 0)), Calm(true));
    SessionOpens(k, parts, cs, path, d);
    var c1 := Step(k, c, es[0]);
    PartsArrive(k, parts, cs, path, c1, |parts|);
    assert parts[..|parts|] == parts;
    var c2 := Run(k, c1, mid);
    PartsComplete(k, parts, cs, path, c2);
    assert es[1..] == mid + [last];
    RunAppend(k, c1, mid, [last]);
    assert Run(k, c2, [last]) == Step(k, c2, last) by { assert [last][1..] == []; }
  }

  /** What a session over the given parts delivers. */
  function Delivered(k: Scheme, parts: seq<seq<byte>>, cs: nat, path: Path, d: Disk): Option<seq<byte>>
    requires Carriable(Lens(parts), cs)
  {
    Run(k, Config(AwaitManifest, d), InOrderSession(k, parts, cs, path)).d.dest
  }

  /**
   * For chunks of given lengths, an in-order session delivers the bytes whose root hash it checked, for
   * all contents, if and only if every nonempty chunk starts where the previous ones end. The lengths
   * and the chunk size are all it takes to tell.
   */
  lemma SessionExact(k: Scheme, lens: seq<nat>, cs: nat, path: Path, d: Disk)
    requires Carriable(lens, cs) && !d.sidecar.Sidecar?
    ensures (forall parts :: Lens(parts) == lens ==> Delivered(k, parts, cs, path, d) == Some(Concat(parts)))
            <==> Aligned(lens, cs)
  {
    forall parts | Lens(parts) == lens
      ensures Delivered(k, parts, cs, path, d) == Some(Written(Zeros(Sum(lens)), cs, parts))
    {
      InOrderDelivers(k, parts, cs, path, d);
    }
    FastPathExact(lens, cs);
  }

  // "abc" and "d", in chunks of one byte.
  const OVERLAPPING: seq<seq<byte>> := [[97, 98, 99], [100]]

  /** With any hash, a session that succeeds and delivers "adc" and a zero byte under the root hash of "abcd". */
  lemma FastPathMisdelivers(k: Scheme, d: Disk)
    requires !d.sidecar.Sidecar?
    ensures Carriable(Lens(OVERLAPPING), 1)
    ensures Run(k, Config(AwaitManifest, d), InOrderSession(k, OVERLAPPING, 1, [120])) ==
            Config(Returned(true), Disk(Some([97, 100, 99, 0]), None, Absent))
    ensures Naming(k, OVERLAPPING, 1, [120]).rootHash == k.hash([97, 98, 99, 100])
  {
    OverlappingLengths();
    OverlappingWrites();
    InOrderDelivers(k, OVERLAPPING, 1, [120], d);
  }

  lemma OverlappingLengths()
    ensures Sum(Lens(OVERLAPPING)) == 4 && Carriable(Lens(OVERLAPPING), 1)
    ensures Concat(OVERLAPPING) == [97, 98, 99, 100]
  {
    var first: seq<byte>, second: seq<byte> := [97, 98, 99], [100];
    LensSnoc([], first);
    LensSnoc([first], second);
    assert [] + [first] == [first] && [first] + [second] == OVERLAPPING;
  }

  lemma OverlappingWrites()
    ensures Written(Zeros(4), 1, OVERLAPPING) == [97, 100, 99, 0]
  {
    var first: seq<byte>, zeros: seq<byte> := [97, 98, 99], [0, 0, 0, 0];
    assert OVERLAPPING[..1] == [first] && [first][..0] == [];
    assert Zeros(4) == zeros;
    assert Written(zeros, 1, [first]) == [97, 98, 99, 0];
  }

  // ---------------------------------------------------------------------
  // The length of the partial file.
  // ---------------------------------------------------------------------

  predicate HasLength(file: Option<seq<byte>>, n: nat) {
    file.Some? && |file.value| == n
  }

  /** Until the session ends the partial file has the declared length, and after that it, or what was delivered. */
  predicate Sized(m: Manifest, c: Config) {
    || (c.s.Receiving? && c.s.p.m == m && HasLength(c.d.partial, m.fileSize))
    || (c.s.Returned? && (HasLength(c.d.partial, m.fileSize) || (c.d.partial.None? && HasLength(c.d.dest, m.fileSize))))
  }

  /** An event of the same session whose chunk, if it is one, came in a frame. */
  predicate Fitting(e: Event) {
    !e.Begin? && (e.Got? && e.msg.MChunk? ==> |e.msg.chunk.data| + 36 <= F.MAX_PAYLOAD)
  }

  lemma ChunkSized(k: Scheme, p: Progress, d: Disk, c: ChunkMsg, env: Env)
    requires HasLength(d.partial, p.m.fileSize) && |c.data| + 36 <= F.MAX_PAYLOAD
    ensures var r := OnChunk(k, p, c, env);
            (r.next.Receiving? ==> r.next.p.m == p.m) && HasLength(ApplyAll(d, r.ops).partial, p.m.fileSize)
  {
    var r := OnChunk(k, p, c, env);
    if ChunkFault(k, p, c).Some? {
      assert ApplyAll(d, []) == d;
    } else {
      RangeCheckExact(c.index, p.m.chunkCount, p.m.chunkSize, |c.data|, p.m.fileSize);
      if env.fault.WriteFails? {
        ApplyOne(d, r.ops[0]);
      } else {
        AcceptedEffect(k, p, d, c, env);
      }
    }
  }

  lemma StepSized(k: Scheme, m: Manifest, c: Config, e: Event)
    requires Sized(m, c) && Fitting(e)
    ensures Sized(m, Step(k, c, e))
  {
    assert ApplyAll(c.d, []) == c.d;
    if c.s.Receiving? && e.Got? {
      if e.msg.MChunk? {
        ChunkSized(k, c.s.p, c.d, e.msg.chunk, e.env);
      } else if e.msg.MComplete? {
        var ops := OnComplete(k, c.s.p, c.d, e.msg.complete, e.env).ops;
        if |ops| == 1 {
          assert ops == [ops[0]];
          ApplyOne(c.d, ops[0]);
        } else if |ops| == 2 {
          ApplyTwo(c.d, Deliver, RemoveSidecar);
        }
      }
    }
  }

  lemma {:induction false} RunSized(k: Scheme, m: Manifest, c: Config, events: seq<Event>)
    requires Sized(m, c) && forall e :: e in events ==> Fitting(e)
    ensures Sized(m, Run(k, c, events))
    decreases |events|
  {
    if events != [] {
      StepSized(k, m, c, events[0]);
      RunSized(k, m, Step(k, c, events[0]), events[1..]);
    }
  }

  /**
   * A freshly opened partial file keeps its declared length to the end of the session, for every
   * manifest, honest or not, whatever the peer sends and whatever fails, and so does what is delivered.
   */
  lemma LengthKept(k: Scheme, m: Manifest, d: Disk, env: Env, events: seq<Event>)
    requires !Matches(k, m, d.sidecar) && m.fileSize <= MAX_SEEK && !env.fault.PathRefused? && !env.fault.OpenFails?
    requires forall e :: e in events ==> Fitting(e)
    ensures Sized(m, Run(k, Config(AwaitManifest, d), [Got(MManifest(m), env)] + events))
  {
    var c, e, create := Config(AwaitManifest, d), Got(MManifest(m), env), CreatePartial(m.fileSize);
    assert [RemoveSidecar] + [create] == [RemoveSidecar, create] && [] + [create] == [create];
    ApplyTwo(d, RemoveSidecar, create);
    ApplyOne(d, create);
    RunSized(k, m, Step(k, c, e), events);
    assert ([e] + events)[1..] == events;
  }
}
