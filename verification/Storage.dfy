/** Files, hashing and the resume state as the program updates them in place. */
module Storage {
  import opened Bytes
  import opened Chunks
  import opened Resume
  import S = Session

  /** A hasher that is fed piece by piece; its digest is that of everything fed so far. */
  class Blake3Hasher {
    const h: Hasher
    var absorbed: seq<byte>

    constructor (h: Hasher)
      ensures this.h == h && absorbed == []
    {
      this.h, absorbed := h, [];
    }

    method Update(data: seq<byte>)
      modifies this
      ensures absorbed == old(absorbed) + data
    {
      absorbed := absorbed + data;
    }

    method Finalize() returns (digest: Digest)
      ensures digest == h(absorbed)
    {
      digest := h(absorbed);
    }
  }

  /**
   * Reads a file back in 64 KiB blocks and hashes it. A read error, at the byte where the disk stops, ends
   * the loop like the end of the file.
   */
  method HashFile(h: Hasher, file: seq<byte>, stops: Option<nat>) returns (digest: Digest)
    ensures stops.None? ==> digest == h(file)
    ensures digest == h(S.ReadBack(file, stops))
  {
    var hasher := new Blake3Hasher(h);
    var pos := 0;
    while pos < |file|
      invariant 0 <= pos <= |file| && fresh(hasher)
      invariant hasher.h == h && hasher.absorbed == file[..pos]
      invariant stops.Some? ==> pos <= stops.value
    {
      var n := if |file| - pos < 64 * 1024 then |file| - pos else 64 * 1024;
      if stops.Some? && stops.value < pos + n {
        hasher.Update(file[pos..stops.value]);
        assert file[..pos] + file[pos..stops.value] == file[..stops.value];
        digest := hasher.Finalize();
        return;
      }
      hasher.Update(file[pos..pos + n]);
      assert file[..pos] + file[pos..pos + n] == file[..pos + n];
      pos := pos + n;
    }
    assert file[..pos] == file;
    digest := hasher.Finalize();
  }

  // ---------------------------------------------------------------------
  // The sender's side.
  // ---------------------------------------------------------------------

  class FileSource {
    const file: seq<byte>

    constructor (file: seq<byte>)
      ensures this.file == file
    {
      this.file := file;
    }

    /** Fills the front of buf with what the file has at the offset, if the stream is good. */
    method ReadAt(offset: nat, buf: array<byte>, good: bool) returns (ok: bool, n: nat)
      modifies buf
      ensures ok <==> good && offset <= |file|
      ensures ok ==> n == (if |file| - offset < buf.Length then |file| - offset else buf.Length)
      ensures ok ==> buf[..n] == file[offset..offset + n]
      ensures ok ==> buf[n..] == old(buf[n..])
    {
      if offset > |file| {
        return false, 0;
      }
      var available := |file| - offset;
      n := if available < buf.Length then available else buf.Length;
      if !good {
        return false, n;
      }
      forall i | 0 <= i < n {
        buf[i] := file[offset + i];
      }
      ok := true;
    }
  }

  // ---------------------------------------------------------------------
  // The receiver's files.
  // ---------------------------------------------------------------------

  /** What the session logic sees of a sidecar file. A count that defeats the bitmap fits no manifest. */
  function SidecarOf(file: Option<seq<byte>>): (s: S.Sidecar)
    ensures s.Sidecar? ==> forall i :: i in s.have ==> i < s.count
  {
    if file.None? then S.Absent
    else
      var r := LoadBytes(file.value);
      if r.Some? && Covering(r.value) then S.Sidecar(r.value.id, r.value.count, Have(r.value)) else S.Unreadable
  }

  /** Destination, partial file and sidecar of one transfer. */
  class DiskFiles {
    var dest: Option<seq<byte>>
    var partial: Option<seq<byte>>
    var sidecar: Option<seq<byte>>

    ghost function View(): S.Disk
      reads this
    {
      S.Disk(dest, partial, SidecarOf(sidecar))
    }

    /** Removes the sidecar if that works; whether it did is not looked at. */
    method RemoveSidecar(works: bool)
      modifies this`sidecar
      ensures sidecar == if works then None else old(sidecar)
    {
      if works {
        sidecar := None;
      }
    }
  }

  /** The write side: a partial file that is renamed to the destination at the end. */
  class FileSink {
    const disk: DiskFiles
    var isOpen: bool
    var total: u64

    constructor (disk: DiskFiles)
      ensures this.disk == disk && !isOpen
    {
      this.disk, isOpen, total := disk, false, 0;
    }

    /**
     * Reuses a long enough partial file when resuming, unless it cannot be reopened; otherwise truncates
     * it and pre-sizes it.
     */
    method Open(size: u64, resume: bool, fault: S.Fault) returns (ok: bool)
      modifies this, disk`partial
      ensures total == size && ok == isOpen
      ensures var reuse := Reuse(resume, size, old(disk.partial)) && S.Reopens(fault);
              && (ok <==> reuse || !S.CannotOpen(size, fault))
              && disk.partial == if reuse || fault == S.OpenFails(false) then old(disk.partial)
                                 else Some(Zeros(if S.CannotOpen(size, fault) then 0 else size))
    {
      total, isOpen := size, false;
      if resume && disk.partial.Some? && |disk.partial.value| >= size && S.Reopens(fault) {
        isOpen := true;
        return true;
      }
      if fault == S.OpenFails(false) {
        return false;
      }
      disk.partial := Some([]);
      assert Zeros(0) == [];
      if size > S.MAX_SEEK {
        return false;
      }
      if size > 0 {
        if fault == S.OpenFails(true) {
          return false;
        }
        disk.partial := Some(Splice([], size - 1, [0]));
        assert Splice([], size - 1, [0]) == Zeros(size);
      }
      isOpen := true;
      ok := true;
    }

    static ghost predicate Reuse(resume: bool, size: u64, partial: Option<seq<byte>>) {
      resume && partial.Some? && |partial.value| >= size
    }

    /** Accepts a write only inside the declared size, in 64-bit arithmetic; a failing stream takes a part. */
    method WriteAt(offset: nat, data: seq<byte>, fault: S.Fault) returns (ok: bool)
      requires isOpen ==> disk.partial.Some?
      modifies disk`partial
      ensures ok <==> isOpen && Wrap64(offset + |data|) <= total && !fault.WriteFails?
      ensures disk.partial ==
              if !isOpen || Wrap64(offset + |data|) > total then old(disk.partial)
              else Some(Splice(old(disk.partial.value), offset,
                               if fault.WriteFails? then S.Front(data, fault.wrote) else data))
    {
      if !isOpen || Wrap64(offset + |data|) > total {
        return false;
      }
      if fault.WriteFails? {
        disk.partial := Some(Splice(disk.partial.value, offset, S.Front(data, fault.wrote)));
        return false;
      }
      disk.partial := Some(Splice(disk.partial.value, offset, data));
      return true;
    }

    /**
     * Closes the stream and renames the partial file over the destination. If that fails the destination
     * is removed and the rename tried once more; a second attempt that works ends as the first would have.
     */
    method Finalize(fault: S.Fault) returns (ok: bool)
      modifies this`isOpen, disk`dest, disk`partial
      ensures ok <==> old(disk.partial).Some? && !fault.RenameFails?
      ensures disk.partial == if ok then None else old(disk.partial)
      ensures disk.dest == if ok then old(disk.partial)
                           else if fault == S.RenameFails(true) then None
                           else old(disk.dest)
    {
      isOpen := false;
      if disk.partial.None? || fault.RenameFails? {
        if fault == S.RenameFails(true) {
          disk.dest := None;
        }
        return false;
      }
      disk.dest, disk.partial := disk.partial, None;
      return true;
    }
  }

  /** Reads the sidecar field by field; any short read or wrong tag gives None. */
  method LoadState(file: Option<seq<byte>>) returns (r: Option<ResumeData>)
    ensures r == if file.None? then None else LoadBytes(file.value)
  {
    if file.None? {
      return None;
    }
    var f := file.value;
    if |f| < 4 || f[..4] != MAGIC {
      return None;
    }
    if |f| < 5 || f[4] != VERSION {
      return None;
    }
    if |f| < 37 {
      return None;
    }
    var id := f[5..37];
    if |f| < FIXED {
      return None;
    }
    var count := ReadLittleEndian32(f[37..41]);
    var n := BitmapBytes(count);
    var bitmap: seq<byte> := [];
    if n > 0 {
      if |f| - FIXED < n {
        return None;
      }
      bitmap := f[41..41 + n];
    }
    r := Some(ResumeData(id, count, bitmap));
  }

  /** The bitmap in memory, and its file. */
  class ResumeState {
    var id: Digest
    var count: u32
    var bitmap: seq<byte>

    ghost function Data(): ResumeData
      reads this
    {
      ResumeData(id, count, bitmap)
    }

    ghost predicate Valid()
      reads this
    {
      Covering(Data())
    }

    /** All bits clear; from 2^32 - 7 chunks on the bitmap is too short to be used. */
    constructor (id: Digest, count: u32)
      ensures this.id == id && this.count == count
      ensures Valid() <==> count <= 0xFFFF_FFF8
      ensures Valid() ==> Have(Data()) == {}
    {
      this.id, this.count, bitmap := id, count, Zeros(BitmapBytes(count));
      if count <= 0xFFFF_FFF8 { EmptyHave(id, count); }
    }

    constructor FromData(r: ResumeData)
      ensures Data() == r
    {
      id, count, bitmap := r.id, r.count, r.bitmap;
    }

    predicate Has(i: nat)
      requires Valid()
      reads this
    {
      i < count && bitmap[i / 8] & Mask(i % 8) != 0
    }

    method MarkReceived(i: u32)
      requires Valid()
      modifies this`bitmap
      ensures Valid()
      ensures Have(Data()) == old(Have(Data())) + (if i < count then {i} else {})
    {
      MarkHave(Data(), i);
      if i >= count {
        return;
      }
      bitmap := bitmap[i / 8 := bitmap[i / 8] | Mask(i % 8)];
    }

    method MissingChunks() returns (out: seq<nat>)
      requires Valid()
      ensures out == Missing(Have(Data()), count)
    {
      out := [];
      for i := 0 to count
        invariant out == Missing(Have(Data()), i)
      {
        if !Has(i) {
          out := out + [i];
        }
      }
    }

    method Complete() returns (all: bool)
      requires Valid()
      ensures all <==> Missing(Have(Data()), count) == []
    {
      MissingExact(Have(Data()), count);
      for i := 0 to count
        invariant forall k :: 0 <= k < i ==> k in Have(Data())
      {
        if !Has(i) {
          assert i in Missing(Have(Data()), count);
          return false;
        }
      }
      NothingMissing(Have(Data()), count);
      return true;
    }

    /**
     * Writes a temporary file and renames it; on failure the old sidecar is kept or lost. A flush that
     * fails is not noticed, and what got out is renamed all the same.
     */
    method Save(disk: DiskFiles, outcome: S.SaveOutcome, cut: nat) returns (ok: bool)
      requires Valid()
      modifies disk`sidecar
      ensures ok <==> outcome.Saved? || outcome.Truncated?
      ensures outcome.Saved? ==> disk.sidecar == Some(SaveBytes(Data()))
      ensures disk.View() == S.Apply(old(disk.View()), S.SaveSidecar(S.Sidecar(id, count, Have(Data())), outcome))
    {
      if outcome.Kept? {
        return false;
      }
      var f := MAGIC;
      f := f + [VERSION];
      f := f + id;
      f := f + LittleEndian32(count);
      if bitmap != [] {
        f := f + bitmap;
      }
      assert f == SaveBytes(Data());
      if outcome.Lost? {
        disk.sidecar := None;
        return false;
      }
      if outcome.Truncated? {
        var n := if cut < |f| then cut else |f| - 1;
        disk.sidecar := Some(f[..n]);
        StrictPrefixRejected(Data(), n);
        return true;
      }
      disk.sidecar := Some(f);
      SaveLoad(Data(), []);
      assert f + [] == f;
      return true;
    }
  }
}
