/** Polynomials over the two-element field, and CRC-32C as a remainder on division by its generator. */
module Polynomials {
  import opened Bytes
  import opened Folds
  import opened Crc32c

  // ---------------------------------------------------------------------
  // Polynomials as coefficient sequences, highest degree first.
  // ---------------------------------------------------------------------

  function Nil(n: nat): (s: seq<bit>)
    ensures |s| == n
  {
    seq(n, _ => 0)
  }

  function Plus(a: bit, b: bit): bit { a ^ b }

  function Times(t: bit, b: bit): bit { if t == 1 then b else 0 }

  function Add(a: seq<bit>, b: seq<bit>): (s: seq<bit>)
    requires |a| == |b|
    ensures |s| == |a|
  {
    seq(|a|, i requires 0 <= i < |a| => Plus(a[i], b[i]))
  }

  function Scale(t: bit, g: seq<bit>): (s: seq<bit>)
    ensures |s| == |g|
  {
    seq(|g|, i requires 0 <= i < |g| => Times(t, g[i]))
  }

  /** The product of q and g. */
  function Product(q: seq<bit>, g: seq<bit>): (s: seq<bit>)
    requires g != []
    ensures |s| == |q| + |g| - 1
    decreases |q|
  {
    if q == [] then Nil(|g| - 1)
    else Add(Scale(q[0], g) + Nil(|q| - 1), [0] + Product(q[1..], g))
  }

  ghost predicate Divides(g: seq<bit>, s: seq<bit>)
    requires g != []
  {
    exists q: seq<bit> :: |q| + |g| == |s| + 1 && Product(q, g) == s
  }

  lemma BitFacts(a: bit, b: bit, c: bit)
    ensures Plus(a, 0) == a && Plus(0, a) == a && Times(a, 1) == a
    ensures Plus(a, b) == Plus(a, c) ==> b == c
    ensures Plus(a, b) == Plus(b, a) && Plus(Plus(a, b), c) == Plus(a, Plus(b, c)) && Plus(a, a) == 0
  {
  }

  /** Coefficient i of a product, by the leading coefficient of the quotient. */
  lemma ProductAt(q: seq<bit>, g: seq<bit>, i: nat)
    requires q != [] && g != [] && i < |q| + |g| - 1
    ensures Product(q, g)[i] == Plus(if i < |g| then Times(q[0], g[i]) else 0,
                                     if i == 0 then 0 else Product(q[1..], g)[i - 1])
  {
  }

  lemma ProductHead(q: seq<bit>, g: seq<bit>)
    requires q != [] && g != [] && g[0] == 1
    ensures Product(q, g)[0] == q[0]
  {
    ProductAt(q, g, 0);
    BitFacts(q[0], 0, 0);
  }

  lemma ProductTail(p: seq<bit>, q: seq<bit>, g: seq<bit>, i: nat)
    requires p != [] && q != [] && p[0] == q[0] && g != [] && i + 1 < |p| + |g| - 1 && i + 1 < |q| + |g| - 1
    requires Product(p, g)[i + 1] == Product(q, g)[i + 1]
    ensures Product(p[1..], g)[i] == Product(q[1..], g)[i]
  {
    ProductAt(p, g, i + 1);
    ProductAt(q, g, i + 1);
    BitFacts(if i + 1 < |g| then Times(q[0], g[i + 1]) else 0, Product(p[1..], g)[i], Product(q[1..], g)[i]);
  }

  /** A quotient by a polynomial with leading coefficient one is determined by the leading part. */
  lemma {:induction false} SameQuotient(p: seq<bit>, q: seq<bit>, g: seq<bit>)
    requires |p| == |q| && g != [] && g[0] == 1
    requires forall i :: 0 <= i < |p| ==> Product(p, g)[i] == Product(q, g)[i]
    ensures p == q
    decreases |p|
  {
    if p != [] {
      ProductHead(p, g);
      ProductHead(q, g);
      forall i | 0 <= i < |p| - 1 ensures Product(p[1..], g)[i] == Product(q[1..], g)[i] {
        ProductTail(p, q, g, i);
      }
      SameQuotient(p[1..], q[1..], g);
      assert p == [p[0]] + p[1..] && q == [q[0]] + q[1..];
    }
  }

  // ---------------------------------------------------------------------
  // Words as coefficients, least significant bit first.
  // ---------------------------------------------------------------------

  /** The n low bits of a word, lowest first. */
  function Word(w: bv32, n: nat): (s: seq<bit>)
    ensures |s| == n
    decreases n
  {
    if n == 0 then [] else [Low(w)] + Word(Half(w), n - 1)
  }

  lemma LowXor(x: bv32, y: bv32)
    ensures Low(Xor(x, y)) == Plus(Low(x), Low(y))
  {
  }

  lemma HalfXor(x: bv32, y: bv32)
    ensures Half(Xor(x, y)) == Xor(Half(x), Half(y))
  {
  }

  lemma HalfLow(x: bv32, y: bv32)
    requires Low(x) == Low(y) && Half(x) == Half(y)
    ensures x == y
  {
  }

  lemma AddCons(a: bit, b: bit, s: seq<bit>, t: seq<bit>)
    requires |s| == |t|
    ensures Add([a] + s, [b] + t) == [Plus(a, b)] + Add(s, t)
  {
  }

  lemma {:induction false} WordXor(x: bv32, y: bv32, n: nat)
    ensures Word(Xor(x, y), n) == Add(Word(x, n), Word(y, n))
    decreases n
  {
    if n > 0 {
      LowXor(x, y);
      HalfXor(x, y);
      AddCons(Low(x), Low(y), Word(Half(x), n - 1), Word(Half(y), n - 1));
      WordXor(Half(x), Half(y), n - 1);
    }
  }

  lemma {:induction false} WordLast(w: bv32, n: nat)
    ensures Word(w, n + 1) == Word(w, n) + [Low(Repeat(Half, w, n))]
    decreases n
  {
    if n > 0 { WordLast(Half(w), n - 1); }
  }

  lemma {:induction false} WordInjective(x: bv32, y: bv32, n: nat)
    requires Word(x, n) == Word(y, n) && Repeat(Half, x, n) == Repeat(Half, y, n)
    ensures x == y
    decreases n
  {
    if n > 0 {
      assert Word(Half(x), n - 1) == Word(x, n)[1..] && Word(Half(y), n - 1) == Word(y, n)[1..];
      assert Low(x) == Word(x, n)[0] && Low(y) == Word(y, n)[0];
      WordInjective(Half(x), Half(y), n - 1);
      HalfLow(x, y);
    }
  }

  function Upper(w: bv32): bv32 { w >> 8 }

  lemma HalfEight(w: bv32, n: nat)
    ensures Repeat(Half, w, n + 8) == Repeat(Half, Upper(w), n)
  {
    HalfChain(w);
    assert Repeat(Half, w, n + 8) == Repeat(Half, w >> 2, n + 6);
    assert Repeat(Half, w >> 2, n + 6) == Repeat(Half, w >> 4, n + 4);
    assert Repeat(Half, w >> 4, n + 4) == Repeat(Half, w >> 6, n + 2);
    assert Repeat(Half, w >> 6, n + 2) == Repeat(Half, w >> 8, n);
  }

  lemma AllUpper(w: bv32)
    ensures Upper(Upper(Upper(Upper(w)))) == 0
  {
  }

  /** After 32 halvings nothing is left. */
  lemma HalvedOut(w: bv32)
    ensures Repeat(Half, w, 32) == 0
  {
    HalfSixteen(w, 16);
    HalfSixteen(Upper(Upper(w)), 0);
    AllUpper(w);
  }

  lemma HalfSixteen(w: bv32, n: nat)
    ensures Repeat(Half, w, n + 16) == Repeat(Half, Upper(Upper(w)), n)
  {
    HalfEight(w, n + 8);
    HalfEight(Upper(w), n);
  }

  /** Halving a word moves its coefficients up by one. */
  lemma WordHalf(w: bv32, n: nat)
    requires n > 0 && Repeat(Half, w, n) == 0
    ensures Word(Half(w), n) == Word(w, n)[1..] + [0]
  {
    WordLast(w, n);
    LowZero();
    assert Word(Half(w), n) == Word(w, n + 1)[1..];
  }

  lemma LowZero()
    ensures Low(0) == 0
  {
  }

  lemma {:induction false} WordHolds(w: bv32, bits: seq<bit>, rest: bv32, n: nat)
    requires Holds(Ops(), w, bits, rest)
    ensures Word(w, |bits| + n) == bits + Word(rest, n)
    decreases |bits|
  {
    if bits == [] {
      assert bits + Word(rest, n) == Word(rest, n);
    } else {
      WordHolds(Half(w), bits[1..], rest, n);
      assert [bits[0]] + (bits[1..] + Word(rest, n)) == bits + Word(rest, n);
    }
  }

  lemma WordEight(w: bv32, b: byte, n: nat)
    requires w & 0xFF == b as bv32
    ensures Word(w, n + 8) == ByteBits(b) + Word(Upper(w), n)
  {
    ByteHolds(w, b);
    WordHolds(w, ByteBits(b), w >> 8, n);
  }

  // ---------------------------------------------------------------------
  // The generator.
  // ---------------------------------------------------------------------

  /** The exponents of the Castagnoli polynomial (section 12.1 of RFC 3720). */
  const EXPONENTS: set<nat> := {32, 28, 27, 26, 25, 23, 22, 20, 19, 18, 14, 13, 11, 10, 9, 8, 6, 0}

  function Generator(): (g: seq<bit>)
    ensures |g| == 33 && g[0] == 1
  {
    seq(33, i requires 0 <= i < 33 => if 32 - i in EXPONENTS then 1 else 0)
  }

  lemma PolyBytes()
    ensures POLY & 0xFF == 0x78 && Upper(POLY) & 0xFF == 0x3B
    ensures Upper(Upper(POLY)) & 0xFF == 0xF6 && Upper(Upper(Upper(POLY))) & 0xFF == 0x82
  {
  }

  lemma PolyByteBits()
    ensures ByteBits(0x78) == [0, 0, 0, 1, 1, 1, 1, 0] && ByteBits(0x3B) == [1, 1, 0, 1, 1, 1, 0, 0]
    ensures ByteBits(0xF6) == [0, 1, 1, 0, 1, 1, 1, 1] && ByteBits(0x82) == [0, 1, 0, 0, 0, 0, 0, 1]
  {
  }

  lemma GeneratorBits()
    ensures Generator()[1..] == [0, 0, 0, 1, 1, 1, 1, 0] + [1, 1, 0, 1, 1, 1, 0, 0]
                                + [0, 1, 1, 0, 1, 1, 1, 1] + [0, 1, 0, 0, 0, 0, 0, 1]
  {
  }

  lemma Joined<T>(w: seq<T>, x: seq<T>, y: seq<T>, z: seq<T>, a: seq<T>, b: seq<T>, c: seq<T>, d: seq<T>)
    requires w == a + x && x == b + y && y == c + z && z == d + []
    ensures w == a + b + c + d
  {
    assert z == d && a + (b + (c + d)) == a + b + c + d;
  }

  /** The program's constant holds the coefficients below the leading one. */
  lemma PolyIsGenerator()
    ensures Word(POLY, 32) == Generator()[1..]
  {
    PolyBytes();
    var p, q, r := Upper(POLY), Upper(Upper(POLY)), Upper(Upper(Upper(POLY)));
    WordEight(POLY, 0x78, 24);
    WordEight(p, 0x3B, 16);
    WordEight(q, 0xF6, 8);
    WordEight(r, 0x82, 0);
    Joined(Word(POLY, 32), Word(p, 24), Word(q, 16), Word(r, 8),
           ByteBits(0x78), ByteBits(0x3B), ByteBits(0xF6), ByteBits(0x82));
    PolyByteBits();
    GeneratorBits();
  }

  // ---------------------------------------------------------------------
  // The register divides.
  // ---------------------------------------------------------------------

  lemma ShiftIs(x: bv32)
    ensures Shift(x) == if Low(x) == 1 then Xor(Half(x), POLY) else Half(x)
  {
  }

  lemma FeedBit(c: bv32, b: bit)
    ensures Low(c ^ (b as bv32)) == Plus(Low(c), b) && Half(c ^ (b as bv32)) == Half(c)
  {
  }

  lemma StepIs(c: bv32, b: bit)
    ensures BitStep(c, b) == if Plus(Low(c), b) == 1 then Xor(Half(c), POLY) else Half(c)
  {
    FeedBit(c, b);
    ShiftIs(c ^ (b as bv32));
  }

  /** The coefficients move up, and the generator is subtracted if a one falls out. */
  ghost predicate Moved(g: seq<bit>, first: seq<bit>, b: bit, second: seq<bit>) {
    && |g| == 33 && |first| == |second| == 32
    && forall k :: 0 <= k < 32 ==>
         second[k] == Plus(if k < 31 then first[k + 1] else 0, Times(Plus(first[0], b), g[k + 1]))
  }

  lemma MovedBy(g: seq<bit>, first: seq<bit>, b: bit, half: seq<bit>, low: seq<bit>, second: seq<bit>)
    requires |g| == 33 && low == g[1..] && |first| == 32 && half == first[1..] + [0]
    requires second == if Plus(first[0], b) == 1 then Add(half, low) else half
    ensures Moved(g, first, b, second)
  {
    forall k | 0 <= k < 32
      ensures second[k] == Plus(if k < 31 then first[k + 1] else 0, Times(Plus(first[0], b), g[k + 1]))
    {
      BitFacts(half[k], 0, 0);
    }
  }

  function Register(c: bv32): (s: seq<bit>)
    ensures |s| == 32
  {
    Word(c, 32)
  }

  lemma RegisterFirst(c: bv32)
    ensures Register(c)[0] == Low(c)
    ensures Register(Half(c)) == Register(c)[1..] + [0]
    ensures Register(Xor(c, POLY)) == Add(Register(c), Generator()[1..])
  {
    HalvedOut(c);
    WordHalf(c, 32);
    WordXor(c, POLY, 32);
    PolyIsGenerator();
  }

  /** A step of the register is a step of long division. */
  lemma RegisterMoves(c: bv32, b: bit)
    ensures Moved(Generator(), Register(c), b, Register(BitStep(c, b)))
  {
    StepIs(c, b);
    RegisterFirst(c);
    RegisterFirst(Half(c));
    MovedBy(Generator(), Register(c), b, Register(Half(c)), Generator()[1..], Register(BitStep(c, b)));
  }

  /** A message followed by 32 more coefficients, with 32 coefficients added at the front. */
  function Codeword(m: seq<bit>, first: seq<bit>, last: seq<bit>): (s: seq<bit>)
    requires |first| == |last|
    ensures |s| == |m| + |first|
  {
    Add(m + last, first + Nil(|m|))
  }

  lemma Cancel(t: bit, x: bit, f: bit)
    ensures Plus(t, Plus(x, Plus(f, t))) == Plus(x, f)
  {
  }

  /** One step of long division. */
  lemma LongDivision(g: seq<bit>, m: seq<bit>, first: seq<bit>, second: seq<bit>, last: seq<bit>, q: seq<bit>)
    requires m != [] && Moved(g, first, m[0], second) && g[0] == 1 && |last| == 32
    requires |q| == |m| - 1 && Product(q, g) == Codeword(m[1..], second, last)
    ensures Product([Plus(first[0], m[0])] + q, g) == Codeword(m, first, last)
  {
    var t := Plus(first[0], m[0]);
    var p, s := Product([t] + q, g), Codeword(m, first, last);
    assert ([t] + q)[1..] == q;
    forall i | 0 <= i < |s| ensures p[i] == s[i] {
      ProductAt([t] + q, g, i);
      if i == 0 {
        BitFacts(t, 0, 0);
        BitFacts(first[0], m[0], 0);
      } else {
        Subtracted(g, m, first, second, last, i);
      }
    }
  }

  /** What adding a multiple of the generator does to a coefficient after the first. */
  lemma Subtracted(g: seq<bit>, m: seq<bit>, first: seq<bit>, second: seq<bit>, last: seq<bit>, i: nat)
    requires m != [] && Moved(g, first, m[0], second) && |last| == 32 && 0 < i < |m| + 32
    ensures Codeword(m, first, last)[i] ==
            Plus(if i < 33 then Times(Plus(first[0], m[0]), g[i]) else 0, Codeword(m[1..], second, last)[i - 1])
  {
    var x, f := (m + last)[i], if i < 32 then first[i] else 0;
    assert (m[1..] + last)[i - 1] == x && Codeword(m, first, last)[i] == Plus(x, f);
    if i < 33 {
      Cancel(Times(Plus(first[0], m[0]), g[i]), x, f);
    } else {
      BitFacts(Plus(x, f), 0, 0);
    }
  }

  /** A machine whose every step moves the coefficients of its state. */
  ghost predicate Divider<W(!new)>(g: seq<bit>, word: W -> seq<bit>, step: (W, bit) -> W) {
    |g| == 33 && g[0] == 1 && forall c, b :: Moved(g, word(c), b, word(step(c, b)))
  }

  /** What such a machine holds after a message is what is left of it on division. */
  lemma {:induction false} Divided<W(!new)>(g: seq<bit>, word: W -> seq<bit>, step: (W, bit) -> W, c: W, m: seq<bit>)
    requires Divider(g, word, step) && |word(c)| == 32
    ensures |word(Fold(step, c, m))| == 32 && Divides(g, Codeword(m, word(c), word(Fold(step, c, m))))
    decreases |m|
  {
    if m == [] {
      SelfCancels(word(c));
      assert Codeword(m, word(c), word(c)) == Product([], g);
    } else {
      var next := step(c, m[0]);
      assert Moved(g, word(c), m[0], word(next));
      Divided(g, word, step, next, m[1..]);
      var last := word(Fold(step, c, m));
      var q :| |q| + |g| == |m[1..]| + 32 + 1 && Product(q, g) == Codeword(m[1..], word(next), last);
      LongDivision(g, m, word(c), word(next), last, q);
    }
  }

  lemma SelfCancels(s: seq<bit>)
    ensures Codeword([], s, s) == Nil(|s|)
  {
    forall i | 0 <= i < |s| ensures Codeword([], s, s)[i] == 0 {
      BitFacts(s[i], 0, 0);
    }
  }

  /** Only one remainder will do. */
  lemma RemainderUnique(m: seq<bit>, first: seq<bit>, a: seq<bit>, b: seq<bit>)
    requires |first| == |a| == |b| == 32
    requires Divides(Generator(), Codeword(m, first, a)) && Divides(Generator(), Codeword(m, first, b))
    ensures a == b
  {
    var g, s, t := Generator(), Codeword(m, first, a), Codeword(m, first, b);
    var p :| |p| + |g| == |s| + 1 && Product(p, g) == s;
    var q :| |q| + |g| == |t| + 1 && Product(q, g) == t;
    SameQuotient(p, q, g);
    forall i | 0 <= i < 32 ensures a[i] == b[i] {
      var k := |m| + i;
      assert (m + a)[k] == a[i] && (m + b)[k] == b[i] && s[k] == t[k];
      var f := (first + Nil(|m|))[k];
      BitFacts(f, a[i], b[i]);
      BitFacts(f, a[i], 0);
      BitFacts(f, b[i], 0);
    }
  }

  lemma RegisterInjective(x: bv32, y: bv32)
    requires Register(x) == Register(y)
    ensures x == y
  {
    HalvedOut(x);
    HalvedOut(y);
    WordInjective(x, y, 32);
  }

  /**
   * CRC-32C is what the standard says it is: the one word whose complement, appended to the message with
   * the complement of the seed added at its front, gives a multiple of the generator polynomial.
   */
  lemma CrcIsRemainder(data: seq<byte>, seed: bv32, w: bv32)
    ensures w == Crc(data, seed) <==>
            Divides(Generator(), Codeword(Bits(data), Register(Not(seed)), Register(Not(w))))
  {
    var g, m, c := Generator(), Bits(data), Not(seed);
    var r := Fold(BitStep, c, m);
    forall x, b ensures Moved(g, Register(x), b, Register(BitStep(x, b))) { RegisterMoves(x, b); }
    Divided(g, Register, BitStep, c, m);
    NotNot(r);
    if Divides(g, Codeword(m, Register(c), Register(Not(w)))) {
      RemainderUnique(m, Register(c), Register(r), Register(Not(w)));
      RegisterInjective(r, Not(w));
      NotNot(w);
    }
  }
}
