/** How a file is cut into chunks, and what writing chunks into a sink does. */
module Chunks {
  import opened Bytes

  /** The exact number of chunks. */
  function Ceil(size: nat, cs: nat): nat
    requires cs > 0
  {
    (size + cs - 1) / cs
  }

  /** The sender's chunk count, with its 64-bit sum and its cast to 32 bits. */
  function ChunkCount(size: u64, cs: u32): u32
    requires size > 0 ==> cs > 0
  {
    if size == 0 then 0 else Wrap32(Wrap64(size + cs - 1) / cs)
  }

  /** Where the receiver writes chunk i. */
  function Offset(i: nat, cs: nat): nat {
    i * cs
  }

  /** Where chunk k begins: k * cs, but never past the end of the file. */
  function Edge(k: nat, cs: nat, size: nat): nat {
    if k * cs <= size then k * cs else size
  }

  function Slice(f: seq<byte>, cs: nat, i: nat): seq<byte> {
    EdgeMonotone(i, i + 1, cs, |f|);
    f[Edge(i, cs, |f|)..Edge(i + 1, cs, |f|)]
  }

  lemma MulMonotone(i: nat, j: nat, cs: nat)
    requires i <= j
    ensures i * cs <= j * cs
    ensures i < j ==> i * cs + cs <= j * cs
  {
    assert (j - i) * cs == j * cs - i * cs;
    if i < j {
      assert (j - i) * cs == (j - i - 1) * cs + cs;
    }
  }

  lemma EdgeMonotone(i: nat, j: nat, cs: nat, size: nat)
    requires i <= j
    ensures Edge(i, cs, size) <= Edge(j, cs, size) <= size
  {
    MulMonotone(i, j, cs);
  }

  lemma DivBounds(x: nat, cs: nat)
    requires cs > 0
    ensures (x / cs) * cs <= x < (x / cs) * cs + cs
  {
  }

  /** The count is the exact ceiling: the last chunk is not empty and the file ends with it. */
  lemma CeilExact(size: nat, cs: nat)
    requires cs > 0
    ensures size <= Ceil(size, cs) * cs < size + cs
  {
    DivBounds(size + cs - 1, cs);
  }

  /** Every chunk below the count is nonempty and starts at its multiple of the chunk size. */
  lemma EdgeBelow(i: nat, cs: nat, size: nat)
    requires cs > 0 && i < Ceil(size, cs)
    ensures Edge(i, cs, size) == i * cs < Edge(i + 1, cs, size) <= size
    ensures Edge(i + 1, cs, size) <= i * cs + cs
    ensures i + 1 < Ceil(size, cs) ==> Edge(i + 1, cs, size) == i * cs + cs
  {
    CeilExact(size, cs);
    var n := Ceil(size, cs);
    MulMonotone(i, n, cs);
    assert (i + 1) * cs == i * cs + cs;
    if i + 1 < n { MulMonotone(i + 1, n, cs); }
  }

  lemma EdgeEnds(cs: nat, size: nat)
    requires cs > 0
    ensures Edge(0, cs, size) == 0 && Edge(Ceil(size, cs), cs, size) == size
  {
    CeilExact(size, cs);
  }

  /** The 32-bit count is the exact ceiling precisely when the ceiling fits in 32 bits. */
  lemma ChunkCountExact(size: u64, cs: u32)
    requires cs > 0
    ensures ChunkCount(size, cs) == Ceil(size, cs) <==> Ceil(size, cs) < 0x1_0000_0000
  {
    if size == 0 {
      assert (cs - 1) / cs == 0 by { DivBounds(cs - 1, cs); }
    } else if size + cs - 1 >= 0x1_0000_0000_0000_0000 {
      WrappedSum(size, cs);
    } else {
      assert Wrap64(size + cs - 1) / cs == Ceil(size, cs);
      CeilExact(size, cs);
    }
  }

  /** Where the 64-bit sum wraps, the ceiling does not fit in 32 bits either. */
  lemma WrappedSum(size: u64, cs: u32)
    requires cs > 0 && size + cs - 1 >= 0x1_0000_0000_0000_0000
    ensures Ceil(size, cs) >= 0x1_0000_0000
  {
    CeilExact(size, cs);
    var n := Ceil(size, cs);
    if n < 0x1_0000_0000 {
      MulMonotone(n, 0xFFFF_FFFF, cs);
      assert false;
    }
  }

  lemma DivMonotone(a: nat, b: nat, cs: nat)
    requires cs > 0 && a <= b
    ensures a / cs <= b / cs
  {
    DivBounds(a, cs);
    DivBounds(b, cs);
    if a / cs > b / cs { MulMonotone(b / cs, a / cs, cs); }
  }

  /** Where the count is not exact it is too small, so every chunk that is counted is one of the file. */
  lemma ChunkCountBelow(size: u64, cs: u32)
    requires cs > 0
    ensures ChunkCount(size, cs) <= Ceil(size, cs)
  {
    if size > 0 {
      DivMonotone(Wrap64(size + cs - 1), size + cs - 1, cs);
    }
  }

  /** Each byte of the file lies in exactly one chunk. */
  lemma Tiling(x: nat, cs: nat, size: nat)
    requires cs > 0 && x < size
    ensures x / cs < Ceil(size, cs)
    ensures Edge(x / cs, cs, size) <= x < Edge(x / cs + 1, cs, size)
    ensures forall i: nat :: Edge(i, cs, size) <= x < Edge(i + 1, cs, size) ==> i == x / cs
  {
    var q, n := x / cs, Ceil(size, cs);
    DivBounds(x, cs);
    CeilExact(size, cs);
    if q >= n { MulMonotone(n, q, cs); }
    EdgeBelow(q, cs, size);
    assert (q + 1) * cs == q * cs + cs;
    forall i: nat | Edge(i, cs, size) <= x < Edge(i + 1, cs, size) ensures i == q {
      if i < q { EdgeMonotone(i + 1, q, cs, size); }
      if i > q { EdgeMonotone(q + 1, i, cs, size); }
    }
  }

  function Concat(parts: seq<seq<byte>>): seq<byte> {
    if parts == [] then [] else Concat(parts[..|parts| - 1]) + parts[|parts| - 1]
  }

  function Slices(f: seq<byte>, cs: nat, k: nat): (s: seq<seq<byte>>)
    ensures |s| == k
  {
    if k == 0 then [] else Slices(f, cs, k - 1) + [Slice(f, cs, k - 1)]
  }

  /** The first k chunks, in order, are the file up to chunk k. */
  lemma {:induction false} SlicesConcat(f: seq<byte>, cs: nat, k: nat)
    ensures Concat(Slices(f, cs, k)) == f[..Edge(k, cs, |f|)]
  {
    if k > 0 {
      SlicesConcat(f, cs, k - 1);
      EdgeMonotone(k - 1, k, cs, |f|);
      var s := Slices(f, cs, k);
      assert s[..k - 1] == Slices(f, cs, k - 1);
    }
  }

  /** All chunks together are the file. */
  lemma SlicesCover(f: seq<byte>, cs: nat)
    requires cs > 0
    ensures Concat(Slices(f, cs, Ceil(|f|, cs))) == f
  {
    SlicesConcat(f, cs, Ceil(|f|, cs));
    EdgeEnds(cs, |f|);
  }

  // ---------------------------------------------------------------------
  // Random-access writes.
  // ---------------------------------------------------------------------

  /** Writing data at an offset; a write past the end extends the file, with zeros in any gap. */
  function Splice(p: seq<byte>, off: nat, data: seq<byte>): (r: seq<byte>)
    ensures |r| == if off + |data| <= |p| || data == [] then |p| else off + |data|
  {
    if data == [] then p
    else
      var q := if off + |data| <= |p| then p else p + Zeros(off + |data| - |p|);
      q[..off] + data + q[off + |data|..]
  }

  /** p holds chunk i of f. */
  ghost predicate Has(p: seq<byte>, f: seq<byte>, cs: nat, i: nat) {
    && Edge(i + 1, cs, |f|) <= |p|
    && forall x :: Edge(i, cs, |f|) <= x < Edge(i + 1, cs, |f|) ==> p[x] == f[x]
  }

  /** Writing chunk i puts it in place and disturbs no other chunk. */
  lemma WriteSlice(p: seq<byte>, f: seq<byte>, cs: nat, i: nat)
    requires cs > 0 && i < Ceil(|f|, cs) && |f| <= |p|
    ensures var q := Splice(p, Offset(i, cs), Slice(f, cs, i));
      && |q| == |p| && q[|f|..] == p[|f|..]
      && Has(q, f, cs, i)
      && (forall j :: Has(p, f, cs, j) ==> Has(q, f, cs, j))
      && (forall j :: j != i && Has(q, f, cs, j) ==> Has(p, f, cs, j))
  {
    EdgeBelow(i, cs, |f|);
    var q := Splice(p, Offset(i, cs), Slice(f, cs, i));
    forall x | 0 <= x < |f|
      ensures q[x] == if Edge(i, cs, |f|) <= x < Edge(i + 1, cs, |f|) then f[x] else p[x]
    {
    }
    forall j: nat | Has(p, f, cs, j) ensures Has(q, f, cs, j) {
      EdgeMonotone(j, j + 1, cs, |f|);
    }
    forall j: nat | j != i && Has(q, f, cs, j) ensures Has(p, f, cs, j) {
      EdgeMonotone(j, j + 1, cs, |f|);
      if j < i { EdgeMonotone(j + 1, i, cs, |f|); } else { EdgeMonotone(i + 1, j, cs, |f|); }
    }
  }

  /** A write that stops partway through a chunk disturbs no chunk that is there. */
  lemma WritePart(p: seq<byte>, f: seq<byte>, cs: nat, i: nat, part: seq<byte>)
    requires cs > 0 && i < Ceil(|f|, cs) && |f| <= |p| && part <= Slice(f, cs, i)
    ensures var q := Splice(p, Offset(i, cs), part);
            |q| == |p| && forall j :: Has(p, f, cs, j) ==> Has(q, f, cs, j)
  {
    EdgeBelow(i, cs, |f|);
    var q := Splice(p, Offset(i, cs), part);
    forall x | 0 <= x < |f| ensures q[x] == p[x] || q[x] == f[x] {
      if Offset(i, cs) <= x < Offset(i, cs) + |part| {
        assert q[x] == part[x - Offset(i, cs)] == Slice(f, cs, i)[x - Offset(i, cs)];
      }
    }
    forall j: nat | Has(p, f, cs, j) ensures Has(q, f, cs, j) {
      EdgeMonotone(j, j + 1, cs, |f|);
    }
  }

  /** A file of the right length that holds every chunk is the file. */
  lemma HasAll(p: seq<byte>, f: seq<byte>, cs: nat)
    requires cs > 0 && |p| == |f|
    requires forall i :: 0 <= i < Ceil(|f|, cs) ==> Has(p, f, cs, i)
    ensures p == f
  {
    forall x | 0 <= x < |f| ensures p[x] == f[x] {
      Tiling(x, cs, |f|);
      assert Has(p, f, cs, x / cs);
    }
  }

  /** A file that holds the first n chunks begins with their bytes. */
  lemma HasFirst(p: seq<byte>, f: seq<byte>, cs: nat, n: nat)
    requires cs > 0 && |f| <= |p| && forall i :: 0 <= i < n ==> Has(p, f, cs, i)
    ensures p[..Edge(n, cs, |f|)] == f[..Edge(n, cs, |f|)]
  {
    forall x | 0 <= x < Edge(n, cs, |f|) ensures p[x] == f[x] {
      Tiling(x, cs, |f|);
      var q := x / cs;
      if q >= n { EdgeMonotone(n, q, cs, |f|); }
      assert Has(p, f, cs, q);
    }
  }

  predicate AllZero(s: seq<byte>) {
    forall x :: 0 <= x < |s| ==> s[x] == 0
  }

  /** A file of zeros holds exactly the chunks that are zeros. */
  lemma ZeroChunk(f: seq<byte>, cs: nat, i: nat)
    ensures Has(Zeros(|f|), f, cs, i) <==> AllZero(Slice(f, cs, i))
  {
    EdgeMonotone(i, i + 1, cs, |f|);
    var a, b, s := Edge(i, cs, |f|), Edge(i + 1, cs, |f|), Slice(f, cs, i);
    assert forall x :: 0 <= x < |s| ==> s[x] == f[a + x];
    if AllZero(s) {
      forall x | a <= x < b ensures f[x] == 0 { assert s[x - a] == 0; }
    }
  }

  lemma HasSelf(f: seq<byte>, cs: nat, i: nat)
    ensures Has(f, f, cs, i)
  {
    EdgeMonotone(i, i + 1, cs, |f|);
  }

  function WriteAll(p: seq<byte>, f: seq<byte>, cs: nat, order: seq<nat>): seq<byte> {
    if order == [] then p
    else
      var i := order[|order| - 1];
      Splice(WriteAll(p, f, cs, order[..|order| - 1]), Offset(i, cs), Slice(f, cs, i))
  }

  lemma {:induction false} WriteAllHas(p: seq<byte>, f: seq<byte>, cs: nat, order: seq<nat>)
    requires cs > 0 && |p| == |f|
    requires forall i :: i in order ==> i < Ceil(|f|, cs)
    ensures |WriteAll(p, f, cs, order)| == |f|
    ensures forall i :: i in order ==> Has(WriteAll(p, f, cs, order), f, cs, i)
    decreases |order|
  {
    if order != [] {
      var init, i := order[..|order| - 1], order[|order| - 1];
      assert i in order && forall j :: j in init ==> j in order;
      WriteAllHas(p, f, cs, init);
      WriteSlice(WriteAll(p, f, cs, init), f, cs, i);
      assert forall j :: j in order ==> j in init || j == i;
    }
  }

  /** Writing the chunks in any order, with any repeats, produces the file as soon as each came once. */
  lemma AnyOrderRebuilds(f: seq<byte>, cs: nat, order: seq<nat>)
    requires cs > 0
    requires forall i :: i in order ==> i < Ceil(|f|, cs)
    requires forall i :: 0 <= i < Ceil(|f|, cs) ==> i in order
    ensures WriteAll(Zeros(|f|), f, cs, order) == f
  {
    WriteAllHas(Zeros(|f|), f, cs, order);
    HasAll(WriteAll(Zeros(|f|), f, cs, order), f, cs);
  }

  lemma OffsetBound(index: nat, cs: nat)
    requires index <= 0xFFFF_FFFE && cs <= 0xFFFF_FFFF
    ensures Offset(index, cs) <= 0xFFFF_FFFE * 0xFFFF_FFFF
  {
    MulMonotone(index, 0xFFFF_FFFE, cs);
    MulMonotone(cs, 0xFFFF_FFFF, 0xFFFF_FFFE);
    assert 0xFFFF_FFFE * cs == cs * 0xFFFF_FFFE;
  }

  /** 64-bit unsigned arithmetic. */
  function Wrap64(n: nat): u64 {
    n % 0x1_0000_0000_0000_0000
  }

  function Wrap32(n: nat): u32 {
    n % 0x1_0000_0000
  }

  lemma NoWrap(off: nat, size: nat)
    requires off <= 0xFFFF_FFFE * 0xFFFF_FFFF && size <= 64 * 1024 * 1024
    ensures off < 0x1_0000_0000_0000_0000 && Wrap64(off + size) == off + size
  {
  }

  /** The 64-bit range check cannot wrap for any chunk a session can accept. */
  lemma RangeCheckExact(index: u32, count: u32, cs: u32, size: nat, total: u64)
    requires index < count && size <= 64 * 1024 * 1024
    ensures Offset(index, cs) < 0x1_0000_0000_0000_0000
    ensures Wrap64(Offset(index, cs) + size) <= total <==> Offset(index, cs) + size <= total
  {
    OffsetBound(index, cs);
    NoWrap(Offset(index, cs), size);
  }
}
