/**
 * How a program that receives and sends frames is explained by a machine: a trace of events that
 * follows the frames of the incoming stream, and replies that are the frames of the outgoing one.
 */
module Journal {
  import opened Bytes
  import opened Folds
  import F = Frames
  import S = Session

  /** What an event takes from the incoming stream: nothing, a frame, or its end. */
  datatype Intake = Quiet | Hears(msg: S.Msg) | Ends

  /** A machine as functions, so that a run can be followed without looking inside. */
  datatype Machine<!C, !E> = Machine(may: (C, E) -> bool, step: (C, E) -> C, out: (C, E) -> seq<S.Msg>,
                                     hears: E -> Intake, read: F.Frame -> S.Msg)

  /** The number of frames received along a trace. */
  ghost function Listened<C, E>(mach: Machine<C, E>, trace: seq<E>): nat
    decreases |trace|
  {
    if trace == [] then 0
    else
      var n := |trace| - 1;
      Listened(mach, trace[..n]) + (if mach.hears(trace[n]).Hears? then 1 else 0)
  }

  /** After n frames, e may come next. */
  ghost predicate Comes<C, E>(mach: Machine<C, E>, frames: seq<F.Frame>, n: nat, e: E) {
    match mach.hears(e)
    case Quiet => true
    case Hears(msg) => n < |frames| && msg == mach.read(frames[n])
    case Ends => n >= |frames|
  }

  /** The events of a trace take the frames of the stream in order, and its end at the end. */
  ghost predicate Follows<C, E>(mach: Machine<C, E>, frames: seq<F.Frame>, trace: seq<E>) {
    forall i :: 0 <= i < |trace| ==> Comes(mach, frames, Listened(mach, trace[..i]), trace[i])
  }

  /** Every event of the trace has its place in the state it finds the machine in. */
  ghost predicate Proper<C, E>(mach: Machine<C, E>, c: C, trace: seq<E>) {
    forall i :: 0 <= i < |trace| ==> mach.may(Fold(mach.step, c, trace[..i]), trace[i])
  }

  /** The trace leads from c0 to c along the frames of the stream, n of which are used up. */
  ghost predicate Explained<C, E>(mach: Machine<C, E>, c0: C, frames: seq<F.Frame>, trace: seq<E>, c: C, n: nat) {
    && Proper(mach, c0, trace) && Follows(mach, frames, trace)
    && Fold(mach.step, c0, trace) == c && Listened(mach, trace) == n
  }

  /** Every message the machine sends along a trace. */
  ghost function Outs<C, E>(mach: Machine<C, E>, c: C, trace: seq<E>): seq<S.Msg>
    decreases |trace|
  {
    if trace == [] then []
    else
      var n := |trace| - 1;
      Outs(mach, c, trace[..n]) + mach.out(Fold(mach.step, c, trace[..n]), trace[n])
  }

  ghost predicate Spells(read: F.Frame -> S.Msg, sent: seq<F.Frame>, msgs: seq<S.Msg>) {
    |sent| == |msgs| && forall i :: 0 <= i < |sent| ==> read(sent[i]) == msgs[i] && |sent[i].payload| <= F.MAX_PAYLOAD
  }

  /** A message that got out is one frame; a failed send may have got out in part. */
  ghost predicate Wrote(read: F.Frame -> S.Msg, enc: F.Frame -> seq<byte>, before: seq<byte>, after: seq<byte>,
                        out: seq<S.Msg>) {
    if out == [] then F.Torn(enc, before, after)
    else
      && |out| == 1
      && exists f: F.Frame :: |f.payload| <= F.MAX_PAYLOAD && read(f) == out[0] && after == before + enc(f)
  }

  /** What went out are the machine's messages, frame after frame. */
  ghost predicate Replied<C, E>(mach: Machine<C, E>, c0: C, trace: seq<E>, sent: seq<F.Frame>,
                                enc: F.Frame -> seq<byte>, out0: seq<byte>, out: seq<byte>) {
    Spells(mach.read, sent, Outs(mach, c0, trace)) && out == out0 + F.Concat(enc, sent)
  }

  /** As above, but a last send that failed may have got out in part. */
  ghost predicate RepliedInPart<C, E>(mach: Machine<C, E>, c0: C, trace: seq<E>, sent: seq<F.Frame>,
                                      enc: F.Frame -> seq<byte>, out0: seq<byte>, out: seq<byte>) {
    Spells(mach.read, sent, Outs(mach, c0, trace)) && F.Torn(enc, out0 + F.Concat(enc, sent), out)
  }

  lemma ExtendTrace<C, E>(mach: Machine<C, E>, c0: C, frames: seq<F.Frame>, trace: seq<E>, c: C, n: nat, e: E)
    requires Explained(mach, c0, frames, trace, c, n) && Comes(mach, frames, n, e) && mach.may(c, e)
    ensures Explained(mach, c0, frames, trace + [e], mach.step(c, e), n + (if mach.hears(e).Hears? then 1 else 0))
    ensures Outs(mach, c0, trace + [e]) == Outs(mach, c0, trace) + mach.out(c, e)
  {
    var longer := trace + [e];
    FoldAppend(mach.step, c0, trace, [e]);
    assert [e][1..] == [];
    assert Fold(mach.step, c, [e]) == mach.step(c, e);
    assert longer[..|trace|] == trace;
    forall i | 0 <= i < |longer|
      ensures Comes(mach, frames, Listened(mach, longer[..i]), longer[i])
      ensures mach.may(Fold(mach.step, c0, longer[..i]), longer[i])
    {
      if i < |trace| { assert longer[..i] == trace[..i]; }
    }
  }

  /** One more event and what it sends. */
  lemma Extend<C, E>(mach: Machine<C, E>, c0: C, frames: seq<F.Frame>, trace: seq<E>, c: C, n: nat, e: E,
                     enc: F.Frame -> seq<byte>, out0: seq<byte>, mid: seq<byte>, after: seq<byte>, sent: seq<F.Frame>)
    returns (sent': seq<F.Frame>)
    requires Explained(mach, c0, frames, trace, c, n) && Comes(mach, frames, n, e) && mach.may(c, e)
    requires Replied(mach, c0, trace, sent, enc, out0, mid) && Wrote(mach.read, enc, mid, after, mach.out(c, e))
    ensures Explained(mach, c0, frames, trace + [e], mach.step(c, e), n + (if mach.hears(e).Hears? then 1 else 0))
    ensures RepliedInPart(mach, c0, trace + [e], sent', enc, out0, after)
    ensures mach.out(c, e) != [] || after == mid ==> Replied(mach, c0, trace + [e], sent', enc, out0, after)
  {
    ExtendTrace(mach, c0, frames, trace, c, n, e);
    sent' := ExtendSent(mach.read, enc, out0, mid, after, sent, Outs(mach, c0, trace), mach.out(c, e));
  }

  lemma ExtendSent(read: F.Frame -> S.Msg, enc: F.Frame -> seq<byte>, out0: seq<byte>, mid: seq<byte>, after: seq<byte>,
                   sent: seq<F.Frame>, msgs: seq<S.Msg>, out: seq<S.Msg>)
    returns (sent': seq<F.Frame>)
    requires Spells(read, sent, msgs) && mid == out0 + F.Concat(enc, sent) && Wrote(read, enc, mid, after, out)
    ensures Spells(read, sent', msgs + out) && F.Torn(enc, out0 + F.Concat(enc, sent'), after)
    ensures out != [] || after == mid ==> after == out0 + F.Concat(enc, sent')
  {
    if out == [] {
      sent' := sent;
      assert msgs + out == msgs;
    } else {
      var f: F.Frame :| |f.payload| <= F.MAX_PAYLOAD && read(f) == out[0] && after == mid + enc(f);
      sent' := sent + [f];
      ConcatSnoc(enc, sent, f);
      assert out0 + (F.Concat(enc, sent) + enc(f)) == mid + enc(f);
    }
  }

  lemma {:induction false} ConcatSnoc(enc: F.Frame -> seq<byte>, sent: seq<F.Frame>, f: F.Frame)
    ensures F.Concat(enc, sent + [f]) == F.Concat(enc, sent) + enc(f)
    decreases |sent|
  {
    if sent == [] {
      assert [] + [f] == [f] && [f][1..] == [];
    } else {
      assert (sent + [f])[1..] == sent[1..] + [f];
      ConcatSnoc(enc, sent[1..], f);
    }
  }

  /** What is heard along a trace was read off a frame of the stream. */
  lemma HeardFromFrame<C, E>(mach: Machine<C, E>, frames: seq<F.Frame>, trace: seq<E>, e: E)
    requires Follows(mach, frames, trace) && e in trace && mach.hears(e).Hears?
    ensures exists f :: f in frames && mach.read(f) == mach.hears(e).msg
  {
    var i :| 0 <= i < |trace| && trace[i] == e;
    assert Comes(mach, frames, Listened(mach, trace[..i]), trace[i]);
  }

  /** However much of what was written arrives, the frames that arrive carry the first of the messages sent. */
  lemma SentArrives<C, E>(mach: Machine<C, E>, c0: C, trace: seq<E>, sent: seq<F.Frame>,
                          crc: F.Checksum, written: seq<byte>, got: seq<byte>)
    requires RepliedInPart(mach, c0, trace, sent, F.Encoder(crc), [], written) && got <= written
    ensures var frames := F.Parse(F.ParserFor(crc, F.MAX_PAYLOAD), got).frames;
            && |frames| <= |Outs(mach, c0, trace)| && Spells(mach.read, frames, Outs(mach, c0, trace)[..|frames|])
            && (got == written ==> |frames| == |Outs(mach, c0, trace)|)
  {
    assert [] + F.Concat(F.Encoder(crc), sent) == F.Concat(F.Encoder(crc), sent);
    F.CutStream(crc, sent, written, got);
  }

  /** What one side hears the other has sent. */
  lemma HeardWasSent<C, E, D, G>(a: Machine<C, E>, c0: C, trace: seq<E>, sent: seq<F.Frame>, crc: F.Checksum,
                                 written: seq<byte>,
                                 b: Machine<D, G>, got: seq<byte>, heard: seq<G>, e: G)
    requires RepliedInPart(a, c0, trace, sent, F.Encoder(crc), [], written) && got <= written
    requires Follows(b, F.Parse(F.ParserFor(crc, F.MAX_PAYLOAD), got).frames, heard)
    requires e in heard && b.hears(e).Hears? && forall f :: a.read(f) == b.read(f)
    ensures b.hears(e).msg in Outs(a, c0, trace)
  {
    var frames, outs := F.Parse(F.ParserFor(crc, F.MAX_PAYLOAD), got).frames, Outs(a, c0, trace);
    SentArrives(a, c0, trace, sent, crc, written, got);
    HeardFromFrame(b, frames, heard, e);
    var f :| f in frames && b.read(f) == b.hears(e).msg;
    var i :| 0 <= i < |frames| && frames[i] == f;
    assert a.read(f) == outs[..|frames|][i] == outs[i];
  }

  // ---------------------------------------------------------------------
  // A run read from the front.
  // ---------------------------------------------------------------------

  /** The messages a machine sends along a trace, from the first event on. */
  ghost function Said<C, E>(mach: Machine<C, E>, c: C, trace: seq<E>): seq<S.Msg> {
    if trace == [] then [] else mach.out(c, trace[0]) + Said(mach, mach.step(c, trace[0]), trace[1..])
  }

  /** The machine gets from c to end, taking the messages in order and the end of the stream after the last. */
  ghost predicate Lives<C, E>(mach: Machine<C, E>, msgs: seq<S.Msg>, c: C, trace: seq<E>, end: C)
    decreases |trace|
  {
    if trace == [] then c == end
    else
      var e, next := trace[0], mach.step(c, trace[0]);
      && mach.may(c, e)
      && match mach.hears(e)
         case Quiet => Lives(mach, msgs, next, trace[1..], end)
         case Hears(msg) => msgs != [] && msg == msgs[0] && Lives(mach, msgs[1..], next, trace[1..], end)
         case Ends => msgs == [] && Lives(mach, msgs, next, trace[1..], end)
  }

  lemma {:induction false} SaidSnoc<C, E>(mach: Machine<C, E>, c: C, trace: seq<E>, e: E)
    ensures Said(mach, c, trace + [e]) == Said(mach, c, trace) + mach.out(Fold(mach.step, c, trace), e)
    decreases |trace|
  {
    if trace == [] {
      assert [] + [e] == [e] && [e][1..] == [];
    } else {
      assert (trace + [e])[1..] == trace[1..] + [e];
      SaidSnoc(mach, mach.step(c, trace[0]), trace[1..], e);
    }
  }

  lemma {:induction false} SaidIsOuts<C, E>(mach: Machine<C, E>, c: C, trace: seq<E>)
    ensures Said(mach, c, trace) == Outs(mach, c, trace)
    decreases |trace|
  {
    if trace != [] {
      var n := |trace| - 1;
      SaidIsOuts(mach, c, trace[..n]);
      SaidSnoc(mach, c, trace[..n], trace[n]);
      assert trace[..n] + [trace[n]] == trace;
    }
  }

  lemma {:induction false} ListenedCons<C, E>(mach: Machine<C, E>, trace: seq<E>)
    requires trace != []
    ensures Listened(mach, trace) == FramesHeard(mach, trace[0]) + Listened(mach, trace[1..])
    decreases |trace|
  {
    var n := |trace| - 1;
    if n > 0 {
      ListenedCons(mach, trace[..n]);
      assert trace[..n][1..] == trace[1..][..n - 1] && trace[1..][n - 1] == trace[n];
    }
  }

  /** A trace that follows a stream from its k-th frame on. */
  ghost predicate FollowsFrom<C, E>(mach: Machine<C, E>, frames: seq<F.Frame>, k: nat, trace: seq<E>) {
    forall i :: 0 <= i < |trace| ==> Comes(mach, frames, k + Listened(mach, trace[..i]), trace[i])
  }

  ghost function FramesHeard<C, E>(mach: Machine<C, E>, e: E): nat {
    if mach.hears(e).Hears? then 1 else 0
  }

  lemma {:induction false} FollowsAt<C, E>(mach: Machine<C, E>, frames: seq<F.Frame>, k: nat, trace: seq<E>, i: nat)
    requires i + 1 < |trace| && FollowsFrom(mach, frames, k, trace)
    ensures Comes(mach, frames, k + FramesHeard(mach, trace[0]) + Listened(mach, trace[1..][..i]), trace[i + 1])
  {
    var front := trace[..i + 1];
    assert Comes(mach, frames, k + Listened(mach, front), trace[i + 1]);
    ListenedCons(mach, front);
    assert front[1..] == trace[1..][..i] && front[0] == trace[0];
  }

  lemma {:induction false} FollowsTail<C, E>(mach: Machine<C, E>, frames: seq<F.Frame>, k: nat, trace: seq<E>)
    requires trace != [] && FollowsFrom(mach, frames, k, trace)
    ensures Comes(mach, frames, k, trace[0])
    ensures FollowsFrom(mach, frames, k + FramesHeard(mach, trace[0]), trace[1..])
  {
    FollowsHead(mach, frames, k, trace);
    var k', tail := k + FramesHeard(mach, trace[0]), trace[1..];
    forall i | 0 <= i < |tail| ensures Comes(mach, frames, k' + Listened(mach, tail[..i]), tail[i]) {
      FollowsAt(mach, frames, k, trace, i);
    }
  }

  lemma {:induction false} FollowsHead<C, E>(mach: Machine<C, E>, frames: seq<F.Frame>, k: nat, trace: seq<E>)
    requires trace != [] && FollowsFrom(mach, frames, k, trace)
    ensures Comes(mach, frames, k, trace[0])
  {
    assert trace[..0] == [] && Comes(mach, frames, k + Listened(mach, trace[..0]), trace[0]);
  }

  lemma {:induction false} ProperTail<C, E>(mach: Machine<C, E>, c: C, trace: seq<E>)
    requires trace != [] && Proper(mach, c, trace)
    ensures mach.may(c, trace[0]) && Proper(mach, mach.step(c, trace[0]), trace[1..])
  {
    assert trace[..0] == [] && mach.may(Fold(mach.step, c, trace[..0]), trace[0]);
    var tail := trace[1..];
    forall i | 0 <= i < |tail| ensures mach.may(Fold(mach.step, mach.step(c, trace[0]), tail[..i]), tail[i]) {
      assert trace[..i + 1][1..] == tail[..i];
      assert mach.may(Fold(mach.step, c, trace[..i + 1]), trace[i + 1]);
    }
  }

  lemma {:induction false} FollowingLives<C, E>(mach: Machine<C, E>, frames: seq<F.Frame>, msgs: seq<S.Msg>,
                                                k: nat, c: C, trace: seq<E>)
    requires Spells(mach.read, frames, msgs) && k <= |frames|
    requires FollowsFrom(mach, frames, k, trace) && Proper(mach, c, trace)
    ensures Lives(mach, msgs[k..], c, trace, Fold(mach.step, c, trace))
    decreases |trace|
  {
    if trace != [] {
      FollowsTail(mach, frames, k, trace);
      ProperTail(mach, c, trace);
      FollowingLives(mach, frames, msgs, k + FramesHeard(mach, trace[0]), mach.step(c, trace[0]), trace[1..]);
    }
  }

  /** An explained run, read from the front. */
  lemma ExplainedLives<C, E>(mach: Machine<C, E>, c0: C, frames: seq<F.Frame>, msgs: seq<S.Msg>,
                             trace: seq<E>, end: C, n: nat)
    requires Explained(mach, c0, frames, trace, end, n) && Spells(mach.read, frames, msgs)
    ensures Lives(mach, msgs, c0, trace, end)
  {
    FollowingLives(mach, frames, msgs, 0, c0, trace);
    assert msgs[0..] == msgs;
  }

  lemma {:induction false} FollowsCons<C, E>(mach: Machine<C, E>, frames: seq<F.Frame>, k: nat, trace: seq<E>)
    requires trace != [] && Comes(mach, frames, k, trace[0])
    requires FollowsFrom(mach, frames, k + FramesHeard(mach, trace[0]), trace[1..])
    ensures FollowsFrom(mach, frames, k, trace)
  {
    var tail := trace[1..];
    forall i | 0 <= i < |trace| ensures Comes(mach, frames, k + Listened(mach, trace[..i]), trace[i]) {
      if i > 0 {
        var front := trace[..i];
        ListenedCons(mach, front);
        assert front[1..] == tail[..i - 1] && front[0] == trace[0];
        assert Comes(mach, frames, k + FramesHeard(mach, trace[0]) + Listened(mach, tail[..i - 1]), tail[i - 1]);
      }
    }
  }

  lemma {:induction false} ProperCons<C, E>(mach: Machine<C, E>, c: C, trace: seq<E>)
    requires trace != [] && mach.may(c, trace[0]) && Proper(mach, mach.step(c, trace[0]), trace[1..])
    ensures Proper(mach, c, trace)
  {
    var tail := trace[1..];
    forall i | 0 <= i < |trace| ensures mach.may(Fold(mach.step, c, trace[..i]), trace[i]) {
      if i > 0 {
        assert trace[..i][1..] == tail[..i - 1];
        assert mach.may(Fold(mach.step, mach.step(c, trace[0]), tail[..i - 1]), tail[i - 1]);
      }
    }
  }

  lemma {:induction false} LivingFollows<C, E>(mach: Machine<C, E>, frames: seq<F.Frame>, msgs: seq<S.Msg>, k: nat,
                                               c: C, trace: seq<E>, end: C)
    requires Spells(mach.read, frames, msgs) && k <= |frames| && Lives(mach, msgs[k..], c, trace, end)
    ensures FollowsFrom(mach, frames, k, trace) && Proper(mach, c, trace) && Fold(mach.step, c, trace) == end
    decreases |trace|
  {
    if trace != [] {
      var k' := k + FramesHeard(mach, trace[0]);
      if mach.hears(trace[0]).Hears? { assert msgs[k..][1..] == msgs[k'..]; }
      LivingFollows(mach, frames, msgs, k', mach.step(c, trace[0]), trace[1..], end);
      FollowsCons(mach, frames, k, trace);
      ProperCons(mach, c, trace);
    }
  }

  /** And a run read from the front is explained. */
  lemma LivesExplained<C, E>(mach: Machine<C, E>, c0: C, frames: seq<F.Frame>, msgs: seq<S.Msg>, trace: seq<E>, end: C)
    requires Spells(mach.read, frames, msgs) && Lives(mach, msgs, c0, trace, end)
    ensures Explained(mach, c0, frames, trace, end, Listened(mach, trace))
  {
    assert msgs[0..] == msgs;
    LivingFollows(mach, frames, msgs, 0, c0, trace, end);
    forall i | 0 <= i < |trace| ensures Comes(mach, frames, Listened(mach, trace[..i]), trace[i]) {
      assert Comes(mach, frames, 0 + Listened(mach, trace[..i]), trace[i]);
    }
  }
}
