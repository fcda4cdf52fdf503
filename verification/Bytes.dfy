/** Bytes, fixed-width integers and the byte orders used on the wire and in the sidecar file. */
module Bytes {

  type byte = bv8

  type u16 = n: nat | n < 0x1_0000
  type u32 = n: nat | n < 0x1_0000_0000
  type u64 = n: nat | n < 0x1_0000_0000_0000_0000

  /** A 32-byte digest or manifest id. */
  type Digest = s: seq<byte> | |s| == 32 witness seq(32, _ => 0)

  /** BLAKE3 is a parameter of the whole model: any total function into 32 bytes. */
  type Hasher = seq<byte> -> Digest

  datatype Option<+T> = None | Some(value: T)

  function Zeros(n: nat): (s: seq<byte>)
    ensures |s| == n
  {
    seq(n, _ => 0)
  }

  function Pow256(k: nat): (p: nat)
    ensures p > 0
  {
    if k == 0 then 1 else 256 * Pow256(k - 1)
  }

  /** The byte with value n. */
  function ByteOf(n: nat): (b: byte)
    requires n < 256
    ensures b as nat == n
  {
    if n == 0 then 0 else ByteOf(n - 1) + 1
  }

  lemma ByteUnique(a: byte, b: byte)
    requires a as nat == b as nat
    ensures a == b
  {
    assert (a as nat) as bv8 == a && (b as nat) as bv8 == b;
  }

  /** Base-256 digit j of n, counting from the least significant. */
  function Digit(n: nat, j: nat): byte
    decreases j
  {
    if j == 0 then ByteOf(n % 256) else Digit(n / 256, j - 1)
  }

  /** The k least significant base-256 digits of n, most significant first. */
  function BigEndian(n: nat, k: nat): (s: seq<byte>)
    ensures |s| == k
  {
    seq(k, i requires 0 <= i < k => Digit(n, k - 1 - i))
  }

  function FromBigEndian(s: seq<byte>): (n: nat)
    ensures n < Pow256(|s|)
  {
    if s == [] then 0 else FromBigEndian(s[..|s| - 1]) * 256 + s[|s| - 1] as nat
  }

  lemma BigEndianStep(n: nat, k: nat)
    requires k > 0
    ensures BigEndian(n, k) == BigEndian(n / 256, k - 1) + [ByteOf(n % 256)]
  {
    var a, b := BigEndian(n, k), BigEndian(n / 256, k - 1) + [ByteOf(n % 256)];
    forall i | 0 <= i < k ensures a[i] == b[i] {
      DigitStep(n, k - 1 - i);
    }
  }

  lemma DigitStep(n: nat, j: nat)
    ensures Digit(n, j) == if j == 0 then ByteOf(n % 256) else Digit(n / 256, j - 1)
  {
  }

  lemma {:induction false} BigEndianRoundTrip(n: nat, k: nat)
    requires n < Pow256(k)
    ensures FromBigEndian(BigEndian(n, k)) == n
  {
    if k > 0 {
      BigEndianRoundTrip(n / 256, k - 1);
      BigEndianStep(n, k);
      var s := BigEndian(n, k);
      assert s[..k - 1] == BigEndian(n / 256, k - 1);
    }
  }

  lemma {:induction false} FromBigEndianRoundTrip(s: seq<byte>)
    ensures BigEndian(FromBigEndian(s), |s|) == s
  {
    if s != [] {
      var init, last := s[..|s| - 1], s[|s| - 1];
      FromBigEndianRoundTrip(init);
      var n := FromBigEndian(s);
      assert n / 256 == FromBigEndian(init) && n % 256 == last as nat;
      ByteUnique(ByteOf(n % 256), last);
      BigEndianStep(n, |s|);
    }
  }

  lemma WidthBounds()
    ensures Pow256(2) == 0x1_0000
    ensures Pow256(4) == 0x1_0000_0000
    ensures Pow256(8) == 0x1_0000_0000_0000_0000
  {
    assert Pow256(4) == 0x1_0000_0000;
    assert Pow256(6) == 0x1_0000_0000_0000;
  }

  function U16Bytes(n: u16): (s: seq<byte>) ensures |s| == 2 { BigEndian(n, 2) }
  function U32Bytes(n: u32): (s: seq<byte>) ensures |s| == 4 { BigEndian(n, 4) }
  function U64Bytes(n: u64): (s: seq<byte>) ensures |s| == 8 { BigEndian(n, 8) }

  function ReadU16(s: seq<byte>): (n: u16)
    requires |s| == 2
  {
    WidthBounds();
    FromBigEndian(s)
  }

  function ReadU32(s: seq<byte>): (n: u32)
    requires |s| == 4
  {
    WidthBounds();
    FromBigEndian(s)
  }

  function ReadU64(s: seq<byte>): (n: u64)
    requires |s| == 8
  {
    WidthBounds();
    FromBigEndian(s)
  }

  lemma U16RoundTrip(n: u16)
    ensures ReadU16(U16Bytes(n)) == n
  {
    WidthBounds();
    BigEndianRoundTrip(n, 2);
  }

  lemma U32RoundTrip(n: u32)
    ensures ReadU32(U32Bytes(n)) == n
  {
    WidthBounds();
    BigEndianRoundTrip(n, 4);
  }

  lemma U64RoundTrip(n: u64)
    ensures ReadU64(U64Bytes(n)) == n
  {
    WidthBounds();
    BigEndianRoundTrip(n, 8);
  }

  lemma ReadRoundTrips(s: seq<byte>)
    ensures |s| == 2 ==> U16Bytes(ReadU16(s)) == s
    ensures |s| == 4 ==> U32Bytes(ReadU32(s)) == s
    ensures |s| == 8 ==> U64Bytes(ReadU64(s)) == s
  {
    FromBigEndianRoundTrip(s);
  }

  /** The digit that shifting right by 8 * j and masking selects. */
  lemma {:induction false} DigitByShift(n: nat, j: nat)
    ensures Digit(n, j) == ByteOf(n / Pow256(j) % 256)
    decreases j
  {
    if j > 0 {
      DigitByShift(n / 256, j - 1);
      DivDiv(n, Pow256(j - 1));
    }
  }

  lemma DivDiv(n: nat, b: nat)
    requires b > 0
    ensures n / 256 / b == n / (256 * b)
  {
    var q := n / 256 / b;
    var r := 256 * (n / 256 % b) + n % 256;
    assert n / 256 == b * q + n / 256 % b;
    assert q * (256 * b) == 256 * (b * q);
    QuotientUnique(n, 256 * b, q, r);
  }

  lemma QuotientUnique(n: nat, d: nat, q: int, r: int)
    requires d > 0 && n == q * d + r && 0 <= r < d
    ensures n / d == q
  {
    var x := n / d - q;
    assert x * d == (n / d) * d - q * d;
    if x >= 1 {
      assert x * d >= d by { MulAtLeast(x, d); }
    } else if x <= -1 {
      assert -x * d >= d by { MulAtLeast(-x, d); }
    }
  }

  lemma MulAtLeast(x: nat, d: nat)
    requires x >= 1
    ensures x * d >= d
  {
    assert x * d == (x - 1) * d + d;
  }

  /** Writes eight bytes in place at the front of dst, most significant first. */
  method WriteU64(dst: array<byte>, v: u64)
    requires dst.Length >= 8
    modifies dst
    ensures dst[..8] == U64Bytes(v)
    ensures dst[8..] == old(dst[8..])
  {
    for i := 0 to 8
      invariant forall j :: 0 <= j < i ==> dst[j] == U64Bytes(v)[j]
      invariant dst[8..] == old(dst[8..])
    {
      DigitByShift(v, 7 - i);
      dst[i] := ByteOf(v / Pow256(7 - i) % 256);
    }
  }

  /** The accumulator loop `v = (v << 8) | byte` over eight bytes. */
  method AccumulateU64(src: seq<byte>) returns (v: u64)
    requires |src| == 8
    ensures v == ReadU64(src)
  {
    WidthBounds();
    v := 0;
    assert src[..8] == src;
    for i := 0 to 8
      invariant v == FromBigEndian(src[..i])
    {
      assert src[..i + 1][..i] == src[..i];
      assert FromBigEndian(src[..i + 1]) == v * 256 + src[i] as nat;
      PowMonotone(i + 1, 8);
      v := v * 256 + src[i] as nat;
    }
  }

  lemma PowMonotone(a: nat, b: nat)
    requires a <= b
    ensures Pow256(a) <= Pow256(b)
    decreases b
  {
    if a < b { PowMonotone(a, b - 1); }
  }
}
