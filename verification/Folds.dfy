/** Shift registers in general: a machine that consumes one input symbol a step. */
module Folds {

  function Fold<S, A>(step: (S, A) -> S, s: S, input: seq<A>): S
    decreases |input|
  {
    if input == [] then s else Fold(step, step(s, input[0]), input[1..])
  }

  function Repeat<S>(f: S -> S, s: S, k: nat): S
    decreases k
  {
    if k == 0 then s else Repeat(f, f(s), k - 1)
  }

  lemma {:induction false} FoldAppend<S, A>(step: (S, A) -> S, s: S, a: seq<A>, b: seq<A>)
    ensures Fold(step, s, a + b) == Fold(step, Fold(step, s, a), b)
    decreases |a|
  {
    if a == [] {
      assert a + b == b;
    } else {
      assert (a + b)[1..] == a[1..] + b;
      FoldAppend(step, step(s, a[0]), a[1..], b);
    }
  }

  ghost predicate Reversible<S(!new), A(!new)>(step: (S, A) -> S) {
    forall s, t, a :: step(s, a) == step(t, a) ==> s == t
  }

  lemma {:induction false} FoldInjective<S(!new), A(!new)>(step: (S, A) -> S, s: S, t: S, input: seq<A>)
    requires Reversible(step)
    requires Fold(step, s, input) == Fold(step, t, input)
    ensures s == t
    decreases |input|
  {
    if input != [] {
      FoldInjective(step, step(s, input[0]), step(t, input[0]), input[1..]);
    }
  }

  lemma {:induction false} RepeatInjective<S(!new)>(f: S -> S, s: S, t: S, k: nat)
    requires forall x, y :: f(x) == f(y) ==> x == y
    requires Repeat(f, s, k) == Repeat(f, t, k)
    ensures s == t
    decreases k
  {
    if k > 0 { RepeatInjective(f, f(s), f(t), k - 1); }
  }

  type bit = bv1

  /** Words of bits: low is the next bit to leave, half drops it, cons puts one back. */
  datatype WordOps<!W> = WordOps(low: W -> bit, half: W -> W, cons: (bit, W) -> W, within: (W, W) -> bool)

  /** The low bits of w, in order, are bits; what is left above them is rest. */
  ghost predicate Holds<W>(ops: WordOps<W>, w: W, bits: seq<bit>, rest: W)
    decreases |bits|
  {
    if bits == [] then w == rest
    else ops.low(w) == bits[0] && Holds(ops, ops.half(w), bits[1..], rest)
  }

  /** The next bit may be fed on its own, or as part of the whole word. */
  ghost predicate Absorbs<W(!new)>(ops: WordOps<W>, step: (W, bit) -> W, shift: W -> W, xor: (W, W) -> W) {
    forall c, w :: xor(step(c, ops.low(w)), ops.half(w)) == shift(xor(c, w))
  }

  /** Feeding bits one by one is shifting the register xor the word that holds them. */
  lemma {:induction false} FoldWord<W(!new)>(ops: WordOps<W>, step: (W, bit) -> W, shift: W -> W,
                                             xor: (W, W) -> W, c: W, w: W, bits: seq<bit>, rest: W)
    requires Absorbs(ops, step, shift, xor)
    requires Holds(ops, w, bits, rest)
    ensures xor(Fold(step, c, bits), rest) == Repeat(shift, xor(c, w), |bits|)
    decreases |bits|
  {
    if bits != [] {
      assert xor(step(c, ops.low(w)), ops.half(w)) == shift(xor(c, w));
      FoldWord(ops, step, shift, xor, step(c, bits[0]), ops.half(w), bits[1..], rest);
    }
  }

  lemma HoldsFour<W>(ops: WordOps<W>, a: W, b: W, c: W, d: W, e: W, bits: seq<bit>, tail: seq<bit>, rest: W)
    requires |bits| == 4 && Holds(ops, e, tail, rest)
    requires ops.low(a) == bits[0] && ops.low(b) == bits[1] && ops.low(c) == bits[2] && ops.low(d) == bits[3]
    requires b == ops.half(a) && c == ops.half(b) && d == ops.half(c) && e == ops.half(d)
    ensures Holds(ops, a, bits + tail, rest)
  {
    var s := bits + tail;
    assert s[4..] == tail && s[3..][1..] == s[4..];
    assert Holds(ops, d, s[3..], rest);
    assert s[2..][1..] == s[3..];
    assert Holds(ops, c, s[2..], rest);
    assert s[1..][1..] == s[2..];
    assert Holds(ops, b, s[1..], rest);
  }

  lemma {:induction false} HoldsUnique<W>(ops: WordOps<W>, w: W, a: seq<bit>, b: seq<bit>, r: W, t: W)
    requires |a| == |b| && Holds(ops, w, a, r) && Holds(ops, w, b, t)
    ensures a == b
    decreases |a|
  {
    if a != [] {
      HoldsUnique(ops, ops.half(w), a[1..], b[1..], r, t);
      assert a == [a[0]] + a[1..] && b == [b[0]] + b[1..];
    }
  }

  function Pack<W>(ops: WordOps<W>, bits: seq<bit>, zero: W): W
    decreases |bits|
  {
    if bits == [] then zero else ops.cons(bits[0], Pack(ops, bits[1..], zero))
  }

  /** The mask m has at least n low bits. */
  ghost predicate Room<W>(ops: WordOps<W>, n: nat, m: W)
    decreases n
  {
    n == 0 || (ops.low(m) == 1 && Room(ops, n - 1, ops.half(m)))
  }

  ghost predicate ConsFit<W>(ops: WordOps<W>, b: bit, p: W, m: W) {
    ops.within(p, ops.half(m)) && ops.low(m) == 1 ==>
      ops.within(ops.cons(b, p), m) && ops.low(ops.cons(b, p)) == b && ops.half(ops.cons(b, p)) == p
  }

  ghost predicate ConsFits<W(!new)>(ops: WordOps<W>, zero: W) {
    && (forall m :: ops.within(zero, m))
    && (forall b, p, m :: ConsFit(ops, b, p, m))
  }

  lemma {:induction false} PackHolds<W(!new)>(ops: WordOps<W>, bits: seq<bit>, zero: W, m: W)
    requires ConsFits(ops, zero)
    requires Room(ops, |bits|, m)
    ensures ops.within(Pack(ops, bits, zero), m)
    ensures Holds(ops, Pack(ops, bits, zero), bits, zero)
    decreases |bits|
  {
    if bits == [] {
      assert ops.within(zero, m);
    } else {
      PackHolds(ops, bits[1..], zero, ops.half(m));
      assert ConsFit(ops, bits[0], Pack(ops, bits[1..], zero), m);
    }
  }

  /** xor can be undone on the right, and zero changes nothing. */
  ghost predicate Cancels<W(!new)>(xor: (W, W) -> W, zero: W) {
    && (forall x :: xor(x, zero) == x)
    && (forall c, v, w :: xor(c, v) == xor(c, w) ==> v == w)
  }

  /** As many bits as a word can hold are recoverable from the register they lead to. */
  lemma WindowRecovered<W(!new)>(ops: WordOps<W>, step: (W, bit) -> W, shift: W -> W, xor: (W, W) -> W,
                                 zero: W, full: W, c: W, a: seq<bit>, b: seq<bit>)
    requires Absorbs(ops, step, shift, xor) && ConsFits(ops, zero) && Cancels(xor, zero)
    requires forall x, y :: shift(x) == shift(y) ==> x == y
    requires |a| == |b| && Room(ops, |a|, full) && Fold(step, c, a) == Fold(step, c, b)
    ensures a == b
  {
    var v, w := Pack(ops, a, zero), Pack(ops, b, zero);
    PackHolds(ops, a, zero, full);
    PackHolds(ops, b, zero, full);
    FoldWord(ops, step, shift, xor, c, v, a, zero);
    FoldWord(ops, step, shift, xor, c, w, b, zero);
    RepeatInjective(shift, xor(c, v), xor(c, w), |a|);
    HoldsUnique(ops, v, a, b, zero, zero);
  }

  /** The strings agree outside the len positions that start at p. */
  ghost predicate AgreeOutside<T>(a: seq<T>, b: seq<T>, p: nat, len: nat) {
    && |a| == |b|
    && forall i :: 0 <= i < |a| && !(p <= i < p + len) ==> a[i] == b[i]
  }

  lemma AgreeConcat<T>(x: seq<T>, u: seq<T>, v: seq<T>, z: seq<T>, p: nat, len: nat)
    requires |u| == |v|
    requires |u| > 0 ==> p <= |x| && |x| + |u| <= p + len
    ensures AgreeOutside(x + u + z, x + v + z, p, len)
  {
  }

  /** A reversible machine that tells windows of a given length apart detects every burst of that length. */
  lemma BurstChangesState<S(!new), A(!new)>(step: (S, A) -> S, s: S, a: seq<A>, b: seq<A>, p: nat, len: nat)
    requires Reversible(step)
    requires forall c, u, v :: |u| == |v| == len && Fold(step, c, u) == Fold(step, c, v) ==> u == v
    requires p + len <= |a| && AgreeOutside(a, b, p, len)
    requires Fold(step, s, a) == Fold(step, s, b)
    ensures a == b
  {
    var head, u, v, tail := a[..p], a[p..p + len], b[p..p + len], a[p + len..];
    assert a == head + (u + tail);
    assert b == head + (v + tail);
    FoldAppend(step, s, head, u + tail);
    FoldAppend(step, s, head, v + tail);
    var c := Fold(step, s, head);
    FoldAppend(step, c, u, tail);
    FoldAppend(step, c, v, tail);
    FoldInjective(step, Fold(step, c, u), Fold(step, c, v), tail);
  }
}
