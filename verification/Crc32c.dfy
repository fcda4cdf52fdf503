/** CRC-32C: the table-driven loop of the program against the bit-serial definition. */
module Crc32c {
  import opened Bytes
  import opened Folds

  /** The Castagnoli polynomial, reflected (section 12.1 of RFC 3720). */
  const POLY: bv32 := 0x82F63B78

  // ---------------------------------------------------------------------
  // Definition: one message bit at a time, least significant bit of each byte first.
  // ---------------------------------------------------------------------

  /** One step of the shift register. */
  function Shift(c: bv32): bv32 {
    if c & 1 != 0 then (c >> 1) ^ POLY else c >> 1
  }

  function BitStep(c: bv32, b: bit): bv32 {
    Shift(c ^ (b as bv32))
  }

  function Place(b: byte): bit { (b & 1) as bit }

  function ByteBits(b: byte): (s: seq<bit>)
    ensures |s| == 8
  {
    [Place(b), Place(b >> 1), Place(b >> 2), Place(b >> 3), Place(b >> 4), Place(b >> 5), Place(b >> 6), Place(b >> 7)]
  }

  function Bits(data: seq<byte>): (s: seq<bit>)
    ensures |s| == 8 * |data|
  {
    if data == [] then [] else ByteBits(data[0]) + Bits(data[1..])
  }

  /** CRC-32C of data, continued from an earlier CRC. */
  function Crc(data: seq<byte>, seed: bv32 := 0): bv32 {
    Not(Fold(BitStep, Not(seed), Bits(data)))
  }

  function Not(c: bv32): bv32 { !c }

  // ---------------------------------------------------------------------
  // The register is linear: a word can be fed in one piece.
  // ---------------------------------------------------------------------

  function Low(w: bv32): bit { (w & 1) as bit }
  function Half(w: bv32): bv32 { w >> 1 }
  function Cons(b: bit, w: bv32): bv32 { (w << 1) | (b as bv32) }
  function Within(w: bv32, m: bv32): bool { w & !m == 0 }
  function Xor(c: bv32, w: bv32): bv32 { c ^ w }

  function Ops(): WordOps<bv32> {
    WordOps(Low, Half, Cons, Within)
  }

  lemma ShiftAbsorbs(c: bv32, w: bv32)
    ensures Shift(c ^ (w & 1)) ^ (w >> 1) == Shift(c ^ w)
  {
  }

  lemma LowBit(w: bv32)
    ensures Low(w) as bv32 == w & 1
  {
  }

  lemma StepLowBit(c: bv32, w: bv32)
    ensures BitStep(c, Low(w)) == Shift(c ^ (w & 1))
  {
    LowBit(w);
  }

  lemma AbsorbBit(c: bv32, w: bv32)
    ensures Xor(BitStep(c, Low(w)), Half(w)) == Shift(Xor(c, w))
  {
    calc {
      Xor(BitStep(c, Low(w)), Half(w));
      { StepLowBit(c, w); }
      Xor(Shift(c ^ (w & 1)), w >> 1);
      Shift(c ^ (w & 1)) ^ (w >> 1);
      { ShiftAbsorbs(c, w); }
      Shift(c ^ w);
      Shift(Xor(c, w));
    }
  }

  lemma OpsAbsorb()
    ensures Absorbs(Ops(), BitStep, Shift, Xor)
  {
    forall c, w ensures Xor(BitStep(c, Low(w)), Half(w)) == Shift(Xor(c, w)) {
      AbsorbBit(c, w);
    }
  }

  lemma WordBit(w: bv32, b: byte)
    requires w & 0xFF == b as bv32
    ensures var s := ByteBits(b);
      && s[0] == Low(w) && s[1] == Low(w >> 1) && s[2] == Low(w >> 2) && s[3] == Low(w >> 3)
      && s[4] == Low(w >> 4) && s[5] == Low(w >> 5) && s[6] == Low(w >> 6) && s[7] == Low(w >> 7)
  {
  }

  lemma HalfChain(w: bv32)
    ensures Half(w) == w >> 1 && Half(w >> 1) == w >> 2 && Half(w >> 2) == w >> 3 && Half(w >> 3) == w >> 4
    ensures Half(w >> 4) == w >> 5 && Half(w >> 5) == w >> 6 && Half(w >> 6) == w >> 7 && Half(w >> 7) == w >> 8
  {
  }

  /** The bits of a byte are the low eight bits of any word that ends in it. */
  lemma ByteHolds(w: bv32, b: byte)
    requires w & 0xFF == b as bv32
    ensures Holds(Ops(), w, ByteBits(b), w >> 8)
  {
    WordBit(w, b);
    HalfChain(w);
    var ops, s := Ops(), ByteBits(b);
    assert Holds(ops, w >> 8, [], w >> 8);
    HoldsFour(ops, w >> 4, w >> 5, w >> 6, w >> 7, w >> 8, s[4..], [], w >> 8);
    assert s[4..] + [] == s[4..];
    HoldsFour(ops, w, w >> 1, w >> 2, w >> 3, w >> 4, s[..4], s[4..], w >> 8);
    assert s[..4] + s[4..] == s;
  }

  lemma XorFacts(c: bv32, w: bv32)
    ensures Xor(c, 0) == c && Xor(0, c) == c
    ensures Xor(c, w) == Xor(w, c)
    ensures Xor(c, Xor(c, w)) == w
  {
  }

  /** The table entry that a register and the next byte select. */
  function Index(c: bv32, b: byte): byte {
    (Xor(c, b as bv32) & 0xFF) as byte
  }

  lemma IndexFacts(c: bv32, b: byte)
    ensures (b as bv32) & 0xFF == b as bv32 && (b as bv32) >> 8 == 0
    ensures Xor(c, b as bv32) >> 8 == c >> 8
    ensures Xor(c, b as bv32) & 0xFF == Index(c, b) as bv32
  {
  }

  lemma FeedByte(c: bv32, b: byte)
    ensures Fold(BitStep, c, ByteBits(b)) == Repeat(Shift, Xor(c, b as bv32), 8)
  {
    IndexFacts(c, b);
    ByteHolds(b as bv32, b);
    OpsAbsorb();
    FoldWord(Ops(), BitStep, Shift, Xor, c, b as bv32, ByteBits(b), 0);
    XorFacts(Fold(BitStep, c, ByteBits(b)), 0);
  }

  lemma ShiftEight(x: bv32, d: byte)
    requires x & 0xFF == d as bv32
    ensures Repeat(Shift, x, 8) == Xor(x >> 8, Repeat(Shift, d as bv32, 8))
  {
    var f := Fold(BitStep, 0, ByteBits(d));
    ByteHolds(x, d);
    OpsAbsorb();
    FoldWord(Ops(), BitStep, Shift, Xor, 0, x, ByteBits(d), x >> 8);
    FeedByte(0, d);
    XorFacts(x, 0);
    XorFacts(d as bv32, 0);
    XorFacts(f, x >> 8);
  }

  /** One table lookup advances the register by a whole byte. */
  lemma TableStep(c: bv32, b: byte)
    ensures Fold(BitStep, c, ByteBits(b)) == Xor(c >> 8, TableAt(Index(c, b)))
  {
    FeedByte(c, b);
    IndexFacts(c, b);
    ShiftEight(Xor(c, b as bv32), Index(c, b));
  }

  // ---------------------------------------------------------------------
  // The program's loops.
  // ---------------------------------------------------------------------

  function TableAt(b: byte): bv32 {
    Repeat(Shift, b as bv32, 8)
  }

  /** The inner loop of the table construction. */
  method TableEntry(b: byte) returns (c: bv32)
    ensures c == TableAt(b)
  {
    c := b as bv32;
    for k := 0 to 8
      invariant TableAt(b) == Repeat(Shift, c, 8 - k)
    {
      c := if c & 1 != 0 then (c >> 1) ^ POLY else c >> 1;
    }
  }

  lemma ByteIndex(b: byte, i: nat)
    requires i < 256 && b as int == i
    ensures i as bv8 == b
  {
  }

  /** Entry b of the table is b shifted eight times. */
  method BuildTable() returns (table: array<bv32>)
    ensures fresh(table) && table.Length == 256
    ensures forall b: byte :: table[b as int] == TableAt(b)
  {
    table := new bv32[256];
    for i := 0 to 256
      invariant forall b: byte :: b as int < i ==> table[b as int] == TableAt(b)
    {
      var c := TableEntry(i as bv8);
      table[i] := c;
      forall b: byte | b as int == i ensures TableAt(b) == c { ByteIndex(b, i); }
    }
  }

  /** The byte-at-a-time loop computes the bit-serial CRC of every byte string from every seed. */
  method Compute(data: seq<byte>, seed: bv32) returns (crc: bv32)
    ensures crc == Crc(data, seed)
  {
    var built := BuildTable();
    var table := built[..];
    var c := Not(seed);
    assert data[0..] == data;
    for i := 0 to |data|
      invariant Fold(BitStep, Not(seed), Bits(data)) == Fold(BitStep, c, Bits(data[i..]))
    {
      assert data[i..][0] == data[i] && data[i..][1..] == data[i + 1..];
      FoldAppend(BitStep, c, ByteBits(data[i]), Bits(data[i + 1..]));
      TableStep(c, data[i]);
      c := Xor(c >> 8, table[Index(c, data[i]) as int]);
    }
    assert data[|data|..] == [];
    crc := Not(c);
  }

  lemma {:induction false} BitsAppend(a: seq<byte>, b: seq<byte>)
    ensures Bits(a + b) == Bits(a) + Bits(b)
  {
    if a == [] {
      assert a + b == b;
    } else {
      assert (a + b)[1..] == a[1..] + b;
      BitsAppend(a[1..], b);
    }
  }

  lemma NotNot(c: bv32)
    ensures Not(Not(c)) == c
  {
  }

  /** Chaining: the CRC of a concatenation continues from the CRC of its first part. */
  lemma Chaining(a: seq<byte>, b: seq<byte>, seed: bv32)
    ensures Crc(b, Crc(a, seed)) == Crc(a + b, seed)
  {
    BitsAppend(a, b);
    FoldAppend(BitStep, Not(seed), Bits(a), Bits(b));
    NotNot(Fold(BitStep, Not(seed), Bits(a)));
  }

  // ---------------------------------------------------------------------
  // Error detection.
  // ---------------------------------------------------------------------

  lemma ShiftInjective(x: bv32, y: bv32)
    requires Shift(x) == Shift(y)
    ensures x == y
  {
  }

  lemma BitStepInjective(x: bv32, y: bv32, b: bit)
    requires BitStep(x, b) == BitStep(y, b)
    ensures x == y
  {
  }

  lemma RegisterReversible()
    ensures Reversible(BitStep)
    ensures forall x, y :: Shift(x) == Shift(y) ==> x == y
  {
    forall x, y, b | BitStep(x, b) == BitStep(y, b) ensures x == y { BitStepInjective(x, y, b); }
    forall x, y | Shift(x) == Shift(y) ensures x == y { ShiftInjective(x, y); }
  }

  /** For fixed data, distinct seeds give distinct CRCs. */
  lemma SeedInjective(data: seq<byte>, s: bv32, t: bv32)
    requires Crc(data, s) == Crc(data, t)
    ensures s == t
  {
    RegisterReversible();
    NotNot(Fold(BitStep, Not(s), Bits(data)));
    NotNot(Fold(BitStep, Not(t), Bits(data)));
    FoldInjective(BitStep, Not(s), Not(t), Bits(data));
    NotNot(s);
    NotNot(t);
  }

  lemma ConsFact(b: bit, p: bv32, m: bv32)
    requires Within(p, Half(m)) && Low(m) == 1
    ensures Within(Cons(b, p), m) && Low(Cons(b, p)) == b && Half(Cons(b, p)) == p
  {
  }

  lemma OpsFit()
    ensures ConsFits(Ops(), 0)
  {
    forall m ensures Within(0, m) { }
    forall b, p, m ensures ConsFit(Ops(), b, p, m) {
      if Within(p, Half(m)) && Low(m) == 1 { ConsFact(b, p, m); }
    }
  }

  lemma RoomForWord()
    ensures Room(Ops(), 32, 0xFFFF_FFFF)
  {
    RoomEight(0xFFFF_FFFF, 24);
    RoomEight(0xFF_FFFF, 16);
    RoomEight(0xFFFF, 8);
    RoomEight(0xFF, 0);
  }

  lemma RoomEight(m: bv32, n: nat)
    requires m & 0xFF == 0xFF
    ensures Room(Ops(), n, m >> 8) ==> Room(Ops(), n + 8, m)
  {
    WordBit(m, 0xFF);
    HalfChain(m);
    var ops := Ops();
    if Room(ops, n, m >> 8) {
      assert Room(ops, n + 1, m >> 7);
      assert Room(ops, n + 2, m >> 6);
      assert Room(ops, n + 3, m >> 5);
      assert Room(ops, n + 4, m >> 4);
      assert Room(ops, n + 5, m >> 3);
      assert Room(ops, n + 6, m >> 2);
      assert Room(ops, n + 7, m >> 1);
    }
  }

  /** A 32-bit window is recoverable from the register it leads to. */
  lemma WindowInjective(c: bv32, a: seq<bit>, b: seq<bit>)
    requires |a| == |b| == 32
    requires Fold(BitStep, c, a) == Fold(BitStep, c, b)
    ensures a == b
  {
    OpsAbsorb();
    OpsFit();
    RoomForWord();
    RegisterReversible();
    XorCancels();
    WindowRecovered(Ops(), BitStep, Shift, Xor, 0, 0xFFFF_FFFF, c, a, b);
  }

  lemma XorCancels()
    ensures Cancels(Xor, 0)
  {
    forall x ensures Xor(x, 0) == x { XorFacts(x, 0); }
    forall c, v, w | Xor(c, v) == Xor(c, w) ensures v == w {
      XorFacts(c, v);
      XorFacts(c, w);
    }
  }

  /** Every error burst of at most 32 bits, at any bit position and any length, changes the CRC. */
  lemma BurstDetected(a: seq<byte>, b: seq<byte>, p: nat, seed: bv32)
    requires AgreeOutside(Bits(a), Bits(b), p, 32)
    requires Crc(a, seed) == Crc(b, seed)
    ensures a == b
  {
    var s, x, y := Not(seed), Bits(a), Bits(b);
    NotNot(Fold(BitStep, s, x));
    NotNot(Fold(BitStep, s, y));
    var pad := seq(p + 32, _ => 0 as bit);
    FoldAppend(BitStep, s, x, pad);
    FoldAppend(BitStep, s, y, pad);
    RegisterReversible();
    forall c, u, v | |u| == |v| == 32 && Fold(BitStep, c, u) == Fold(BitStep, c, v) ensures u == v {
      WindowInjective(c, u, v);
    }
    BurstChangesState(BitStep, s, x + pad, y + pad, p, 32);
    assert x == (x + pad)[..|x|] && y == (y + pad)[..|y|];
    BitsInjective(a, b);
  }

  lemma ByteBitsInjective(x: byte, y: byte)
    requires ByteBits(x) == ByteBits(y)
    ensures x == y
  {
    var s, t := ByteBits(x), ByteBits(y);
    assert s[0] == t[0] && s[1] == t[1] && s[2] == t[2] && s[3] == t[3];
    assert s[4] == t[4] && s[5] == t[5] && s[6] == t[6] && s[7] == t[7];
  }

  lemma {:induction false} BitsInjective(a: seq<byte>, b: seq<byte>)
    requires Bits(a) == Bits(b)
    ensures a == b
  {
    assert |a| == |b|;
    if a != [] {
      assert ByteBits(a[0]) == Bits(a)[..8] == Bits(b)[..8] == ByteBits(b[0]);
      assert Bits(a[1..]) == Bits(a)[8..] == Bits(b)[8..] == Bits(b[1..]);
      ByteBitsInjective(a[0], b[0]);
      BitsInjective(a[1..], b[1..]);
      assert a == [a[0]] + a[1..] && b == [b[0]] + b[1..];
    }
  }

  /** In particular: strings that differ only inside four consecutive bytes have different CRCs. */
  lemma FourByteBurstDetected(a: seq<byte>, b: seq<byte>, p: nat, seed: bv32)
    requires AgreeOutside(a, b, p, 4)
    requires Crc(a, seed) == Crc(b, seed)
    ensures a == b
  {
    var n := |a|;
    var lo, hi := if p <= n then p else n, if p + 4 <= n then p + 4 else n;
    var front, back, u, v := a[..lo], a[hi..], a[lo..hi], b[lo..hi];
    assert b[..lo] == front && b[hi..] == back;
    SplitBits(a, front, u, back);
    SplitBits(b, front, v, back);
    AgreeConcat(Bits(front), Bits(u), Bits(v), Bits(back), 8 * p, 32);
    BurstDetected(a, b, 8 * p, seed);
  }

  lemma SplitBits(a: seq<byte>, front: seq<byte>, mid: seq<byte>, back: seq<byte>)
    requires a == front + mid + back
    ensures Bits(a) == Bits(front) + Bits(mid) + Bits(back)
  {
    BitsAppend(front + mid, back);
    BitsAppend(front, mid);
  }
}
