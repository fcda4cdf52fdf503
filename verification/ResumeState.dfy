/** The receiver's resume state: a packed bitmap of received chunks and its sidecar file. */
module Resume {
  import opened Bytes

  datatype ResumeData = ResumeData(id: Digest, count: u32, bitmap: seq<byte>)

  // ---------------------------------------------------------------------
  // Sets of chunk indices.
  // ---------------------------------------------------------------------

  /** The indices below n that are not in have, in increasing order. */
  function Missing(have: set<nat>, n: nat): seq<nat> {
    if n == 0 then []
    else Missing(have, n - 1) + (if n - 1 in have then [] else [n - 1])
  }

  function Below(have: set<nat>, n: nat): set<nat> {
    set i | i in have && i < n
  }

  /** Missing is the strictly increasing complement. */
  lemma {:induction false} MissingExact(have: set<nat>, n: nat)
    ensures forall i :: i in Missing(have, n) <==> 0 <= i < n && i !in have
    ensures forall j, k :: 0 <= j < k < |Missing(have, n)| ==> Missing(have, n)[j] < Missing(have, n)[k]
  {
    if n > 0 {
      MissingExact(have, n - 1);
      var prev, cur := Missing(have, n - 1), Missing(have, n);
      forall j, k | 0 <= j < k < |cur| ensures cur[j] < cur[k] {
        assert cur[j] == prev[j] && prev[j] in prev;
        if k < |prev| { assert cur[k] == prev[k]; }
      }
    }
  }

  /** Nothing is lost and nothing counted twice. */
  lemma {:induction false} MissingCount(have: set<nat>, n: nat)
    ensures |Missing(have, n)| + |Below(have, n)| == n
  {
    if n == 0 {
      assert Below(have, 0) == {};
    } else {
      MissingCount(have, n - 1);
      if n - 1 in have {
        assert Below(have, n) == Below(have, n - 1) + {n - 1};
      } else {
        assert Below(have, n) == Below(have, n - 1);
      }
    }
  }

  /** Receiving the first missing chunk removes exactly it from the list. */
  lemma {:induction false} MissingAdd(have: set<nat>, n: nat)
    requires Missing(have, n) != []
    ensures Missing(have + {Missing(have, n)[0]}, n) == Missing(have, n)[1..]
  {
    var prev, cur := Missing(have, n - 1), Missing(have, n);
    var m := cur[0];
    if prev == [] {
      MissingSame(have, have + {m}, n - 1);
    } else {
      assert m == prev[0];
      MissingExact(have, n - 1);
      assert m in prev;
      MissingAdd(have, n - 1);
      assert cur[1..] == prev[1..] + (if n - 1 in have then [] else [n - 1]);
    }
  }

  lemma {:induction false} MissingSame(a: set<nat>, b: set<nat>, n: nat)
    requires forall i :: 0 <= i < n ==> (i in a <==> i in b)
    ensures Missing(a, n) == Missing(b, n)
  {
    if n > 0 { MissingSame(a, b, n - 1); }
  }

  lemma {:induction false} NothingMissing(have: set<nat>, n: nat)
    requires forall i :: 0 <= i < n ==> i in have
    ensures Missing(have, n) == []
  {
    if n > 0 { NothingMissing(have, n - 1); }
  }

  // ---------------------------------------------------------------------
  // The packed bitmap.
  // ---------------------------------------------------------------------

  /** Bitmap size, computed in 32-bit arithmetic. */
  function BitmapBytes(count: u32): nat {
    ((count + 7) % 0x1_0000_0000) / 8
  }

  /** The 32-bit size covers every index precisely up to a count of 2^32 - 8. */
  lemma BitmapCovers(count: u32)
    ensures (forall i :: 0 <= i < count ==> i / 8 < BitmapBytes(count)) <==> count <= 0xFFFF_FFF8
  {
    if count > 0xFFFF_FFF8 {
      assert BitmapBytes(count) == 0;
      assert 0 / 8 >= BitmapBytes(count);
    }
  }

  /** 1 << k, for k below 8. */
  function Mask(k: nat): byte
    requires k < 8
  {
    match k
    case 0 => 1
    case 1 => 2
    case 2 => 4
    case 3 => 8
    case 4 => 16
    case 5 => 32
    case 6 => 64
    case 7 => 128
  }

  lemma MaskSets(b: byte, k: nat)
    requires k < 8
    ensures (b | Mask(k)) & Mask(k) != 0
    ensures (0 as byte) & Mask(k) == 0
  {
  }

  lemma MaskKeeps(b: byte, j: nat, k: nat)
    requires j < 8 && k < 8 && j != k
    ensures (b | Mask(k)) & Mask(j) == b & Mask(j)
  {
    MasksDisjoint(j, k);
    OrDisjoint(b, Mask(k), Mask(j));
  }

  lemma MasksDisjoint(j: nat, k: nat)
    requires j < 8 && k < 8 && j != k
    ensures Mask(k) & Mask(j) == 0
  {
  }

  lemma OrDisjoint(x: byte, y: byte, z: byte)
    requires y & z == 0
    ensures (x | y) & z == x & z
  {
  }

  /** The bitmap has a bit for every chunk. */
  predicate Covering(r: ResumeData) {
    |r.bitmap| == BitmapBytes(r.count) && r.count <= 0xFFFF_FFF8
  }

  predicate IsSet(r: ResumeData, i: nat)
    requires Covering(r)
  {
    i < r.count && r.bitmap[i / 8] & Mask(i % 8) != 0
  }

  function Mark(r: ResumeData, i: nat): (s: ResumeData)
    requires Covering(r)
    ensures Covering(s)
  {
    if i >= r.count then r
    else r.(bitmap := r.bitmap[i / 8 := r.bitmap[i / 8] | Mask(i % 8)])
  }

  function Empty(id: Digest, count: u32): (r: ResumeData)
    ensures count <= 0xFFFF_FFF8 ==> Covering(r)
  {
    ResumeData(id, count, Zeros(BitmapBytes(count)))
  }

  /** The received chunks; padding bits beyond the count do not matter. */
  function Have(r: ResumeData): set<nat>
    requires Covering(r)
  {
    set i | 0 <= i < r.count && IsSet(r, i)
  }

  lemma EmptyHave(id: Digest, count: u32)
    requires count <= 0xFFFF_FFF8
    ensures Have(Empty(id, count)) == {}
  {
    var r := Empty(id, count);
    forall i | 0 <= i < count ensures !IsSet(r, i) { MaskSets(0, i % 8); }
  }

  /** Marking adds one index, changes no other bit, and ignores indices out of range. */
  lemma MarkHave(r: ResumeData, i: nat)
    requires Covering(r)
    ensures Have(Mark(r, i)) == Have(r) + (if i < r.count then {i} else {})
  {
    if i < r.count {
      var s := Mark(r, i);
      forall j | 0 <= j < r.count ensures IsSet(s, j) <==> IsSet(r, j) || j == i {
        MarkBit(r, i, j);
      }
    }
  }

  lemma MarkBit(r: ResumeData, i: nat, j: nat)
    requires Covering(r) && i < r.count && j < r.count
    ensures IsSet(Mark(r, i), j) <==> IsSet(r, j) || j == i
  {
    var a, b := i / 8, j / 8;
    MaskSets(r.bitmap[a], i % 8);
    if a == b && i != j {
      SameByte(i, j);
      MaskKeeps(r.bitmap[a], j % 8, i % 8);
    }
  }

  lemma SameByte(i: nat, j: nat)
    requires i / 8 == j / 8 && i != j
    ensures i % 8 != j % 8
  {
  }

  // ---------------------------------------------------------------------
  // The sidecar file.
  // ---------------------------------------------------------------------

  const MAGIC: seq<byte> := [0x46, 0x54, 0x58, 0x53]
  const VERSION: byte := 1
  const FIXED: nat := 41

  function LittleEndian32(n: u32): (s: seq<byte>)
    ensures |s| == 4
  {
    var b := U32Bytes(n);
    [b[3], b[2], b[1], b[0]]
  }

  function ReadLittleEndian32(s: seq<byte>): u32
    requires |s| == 4
  {
    ReadU32([s[3], s[2], s[1], s[0]])
  }

  lemma LittleEndianRoundTrips(n: u32, s: seq<byte>)
    ensures ReadLittleEndian32(LittleEndian32(n)) == n
    ensures |s| == 4 ==> LittleEndian32(ReadLittleEndian32(s)) == s
  {
    var b := U32Bytes(n);
    assert [b[0], b[1], b[2], b[3]] == b;
    U32RoundTrip(n);
    if |s| == 4 { ReadRoundTrips([s[3], s[2], s[1], s[0]]); }
  }

  function SaveBytes(r: ResumeData): seq<byte> {
    MAGIC + [VERSION] + r.id + LittleEndian32(r.count) + r.bitmap
  }

  /** None where the program's loader returns false; bytes after the bitmap are not read. */
  function LoadBytes(b: seq<byte>): (r: Option<ResumeData>)
    ensures r.Some? ==> |r.value.bitmap| == BitmapBytes(r.value.count)
  {
    if |b| < 4 || b[..4] != MAGIC then None
    else if |b| < 5 || b[4] != VERSION then None
    else if |b| < FIXED then None
    else
      var count := ReadLittleEndian32(b[37..41]);
      var n := BitmapBytes(count);
      if |b| < FIXED + n then None
      else Some(ResumeData(b[5..37], count, b[41..41 + n]))
  }

  lemma SaveLayout(r: ResumeData)
    ensures var b := SaveBytes(r);
      && |b| == FIXED + |r.bitmap|
      && b[..4] == MAGIC && b[4] == VERSION && b[5..37] == r.id
      && b[37..41] == LittleEndian32(r.count) && b[41..] == r.bitmap
  {
  }

  /** A saved state loads back, whatever bytes follow it in the file. */
  lemma SaveLoad(r: ResumeData, junk: seq<byte>)
    requires |r.bitmap| == BitmapBytes(r.count)
    ensures LoadBytes(SaveBytes(r) + junk) == Some(r)
  {
    SaveLayout(r);
    var s, b := SaveBytes(r), SaveBytes(r) + junk;
    assert b[..4] == s[..4] && b[5..37] == s[5..37] && b[37..41] == s[37..41];
    LittleEndianRoundTrips(r.count, []);
    assert b[41..41 + |r.bitmap|] == s[41..];
  }

  /** Whatever loads is a saved state followed by ignored bytes. */
  lemma LoadCanonical(b: seq<byte>)
    requires LoadBytes(b).Some?
    ensures SaveBytes(LoadBytes(b).value) <= b
  {
    var r := LoadBytes(b).value;
    var n := |r.bitmap|;
    LittleEndianRoundTrips(0, b[37..41]);
    assert b[..41 + n] == b[..4] + [b[4]] + b[5..37] + b[37..41] + b[41..41 + n];
    assert b == b[..41 + n] + b[41 + n..];
  }

  /** A file cut short anywhere is rejected. */
  lemma StrictPrefixRejected(r: ResumeData, k: nat)
    requires |r.bitmap| == BitmapBytes(r.count)
    requires k < |SaveBytes(r)|
    ensures LoadBytes(SaveBytes(r)[..k]) == None
  {
    SaveLayout(r);
    var s, b := SaveBytes(r), SaveBytes(r)[..k];
    if k >= FIXED {
      assert b[37..41] == s[37..41];
      LittleEndianRoundTrips(r.count, []);
    }
  }
}
