/** One cached track of up to 256 sectors, with a dirty flag for each sector and a save that
    writes runs of consecutive dirty sectors with one transfer. */
module DiskTracks {
  import opened ImageFiles

  const SECTORS_PER_TRACK: nat := 256

  function SectorSize(shift: nat): (size: nat)
    requires 8 <= shift <= 12
    ensures 256 <= size <= 4096
  {
    match shift
    case 8 => 256
    case 9 => 512
    case 10 => 1024
    case 11 => 2048
    case _ => 4096
  }

  // Reference definition of a save: every dirty sector is written on its own.

  ghost predicate Fits(f: Bytes, base: nat, size: nat, buffer: Bytes, flags: seq<bool>) {
    |buffer| == Offset(|flags|, size) && Offset(base + |flags|, size) <= |f|
  }

  lemma SectorFits(f: Bytes, base: nat, size: nat, buffer: Bytes, flags: seq<bool>, i: nat, j: nat)
    requires Fits(f, base, size, buffer, flags) && i <= j <= |flags|
    ensures Offset(i, size) <= Offset(j, size) <= |buffer|
    ensures Offset(base + i, size) - Offset(i, size) == Offset(base + j, size) - Offset(j, size) == Offset(base, size)
    ensures Offset(base + j, size) <= |f|
  {
    OffsetAscends(i, j, size);
    OffsetAscends(j, |flags|, size);
    OffsetAscends(base + j, base + |flags|, size);
    OffsetSum(base, i, size);
    OffsetSum(base, j, size);
  }

  ghost function WriteDirty(f: Bytes, base: nat, size: nat, buffer: Bytes, flags: seq<bool>, n: nat): (r: Bytes)
    requires Fits(f, base, size, buffer, flags) && n <= |flags|
    ensures |r| == |f|
  {
    if n == 0 then f else
      var g := WriteDirty(f, base, size, buffer, flags, n - 1);
      if flags[n - 1] then
        SectorFits(f, base, size, buffer, flags, n - 1, n);
        Splice(g, Offset(base + n - 1, size), buffer[Offset(n - 1, size)..Offset(n, size)])
      else g
  }

  /** Byte p of the file belongs to dirty sector k of a track starting at sector `base`. */
  ghost predicate InDirty(p: int, base: nat, size: nat, flags: seq<bool>, n: nat) {
    exists k: nat :: k < n && k < |flags| && flags[k] && InSector(p, base + k, size)
  }

  lemma JoinRuns(f: Bytes, pos: nat, buffer: Bytes, lo: nat, mid: nat, hi: nat)
    requires lo <= mid <= hi <= |buffer| && pos + (hi - lo) <= |f|
    ensures Splice(f, pos, buffer[lo..hi])
         == Splice(Splice(f, pos, buffer[lo..mid]), pos + (mid - lo), buffer[mid..hi])
  {
    assert buffer[lo..hi] == buffer[lo..mid] + buffer[mid..hi];
    SpliceTwice(f, pos, buffer[lo..mid], buffer[mid..hi]);
  }

  lemma NoneWritten(f: Bytes, base: nat, size: nat, buffer: Bytes, flags: seq<bool>)
    requires |buffer| == Offset(|flags|, size) && Offset(base + |flags|, size) <= |f|
    ensures Fits(f, base, size, buffer, flags) && WriteDirty(f, base, size, buffer, flags, 0) == f
  {
  }

  lemma CleanSector(f: Bytes, base: nat, size: nat, buffer: Bytes, flags: seq<bool>, i: nat)
    requires Fits(f, base, size, buffer, flags) && i < |flags| && !flags[i]
    ensures WriteDirty(f, base, size, buffer, flags, i + 1) == WriteDirty(f, base, size, buffer, flags, i)
  {
  }

  lemma NoSplice(f: Bytes, pos: nat)
    requires pos <= |f|
    ensures Splice(f, pos, []) == f
  {
  }

  /** Writing one transfer for a whole run of dirty sectors is writing its sectors one by one. */
  lemma {:induction false} RunIsSectors(f: Bytes, base: nat, size: nat, buffer: Bytes, flags: seq<bool>, i: nat, j: nat)
    requires Fits(f, base, size, buffer, flags) && i <= j <= |flags|
    requires forall k :: i <= k < j ==> flags[k]
    ensures Offset(i, size) <= Offset(j, size) <= |buffer|
            && Offset(base + i, size) + (Offset(j, size) - Offset(i, size)) <= |f|
    ensures Splice(WriteDirty(f, base, size, buffer, flags, i), Offset(base + i, size),
                   buffer[Offset(i, size)..Offset(j, size)])
         == WriteDirty(f, base, size, buffer, flags, j)
  {
    hide Offset, Splice;
    SectorFits(f, base, size, buffer, flags, i, j);
    if i == j {
      assert buffer[Offset(i, size)..Offset(j, size)] == [];
      NoSplice(WriteDirty(f, base, size, buffer, flags, i), Offset(base + i, size));
    } else {
      RunIsSectors(f, base, size, buffer, flags, i, j - 1);
      SectorFits(f, base, size, buffer, flags, i, j - 1);
      SectorFits(f, base, size, buffer, flags, j - 1, j);
      JoinRuns(WriteDirty(f, base, size, buffer, flags, i), Offset(base + i, size), buffer,
               Offset(i, size), Offset(j - 1, size), Offset(j, size));
    }
  }

  /** The save changes exactly the bytes of dirty sectors, and these become the buffer's bytes. */
  lemma {:induction false} WriteDirtyAt(f: Bytes, base: nat, size: nat, buffer: Bytes, flags: seq<bool>, n: nat, p: nat)
    requires Fits(f, base, size, buffer, flags) && n <= |flags| && p < |f|
    ensures InDirty(p, base, size, flags, n) ==> Offset(base, size) <= p < Offset(base, size) + |buffer|
    ensures WriteDirty(f, base, size, buffer, flags, n)[p]
         == if InDirty(p, base, size, flags, n) then buffer[p - Offset(base, size)] else f[p]
  {
    if n > 0 {
      WriteDirtyAt(f, base, size, buffer, flags, n - 1, p);
      SectorFits(f, base, size, buffer, flags, n - 1, n);
      SectorFits(f, base, size, buffer, flags, 0, n - 1);
      InDirtyStep(p, base, size, flags, n);
      if flags[n - 1] {
        SpliceAt(WriteDirty(f, base, size, buffer, flags, n - 1), Offset(base + n - 1, size),
                 buffer[Offset(n - 1, size)..Offset(n, size)], p);
      }
    }
  }

  lemma IsDirty(p: int, base: nat, size: nat, flags: seq<bool>, n: nat, k: nat)
    requires k < n <= |flags| && flags[k] && InSector(p, base + k, size)
    ensures InDirty(p, base, size, flags, n)
  {
  }

  lemma InDirtyStep(p: int, base: nat, size: nat, flags: seq<bool>, n: nat)
    requires 0 < n <= |flags|
    ensures InDirty(p, base, size, flags, n) <==>
              InDirty(p, base, size, flags, n - 1) || (flags[n - 1] && InSector(p, base + (n - 1), size))
  {
    hide Offset, InSector;
    if InDirty(p, base, size, flags, n) {
      var k: nat :| k < n && flags[k] && InSector(p, base + k, size);
      assert k < n - 1 || k == n - 1;
    }
    if InDirty(p, base, size, flags, n - 1) {
      var k: nat :| k < n - 1 && flags[k] && InSector(p, base + k, size);
      IsDirty(p, base, size, flags, n, k);
    }
  }

  /** Byte p of a file after a save: the buffer's byte in a dirty sector, untouched elsewhere. */
  ghost predicate SavedByte(f: Bytes, r: Bytes, base: nat, size: nat, buffer: Bytes, flags: seq<bool>, p: nat)
    requires p < |f| == |r|
  {
    if InDirty(p, base, size, flags, |flags|) then
      Offset(base, size) <= p < Offset(base, size) + |buffer| && r[p] == buffer[p - Offset(base, size)]
    else r[p] == f[p]
  }

  /** No byte outside the dirty sectors differs. */
  ghost predicate KeepsClean(f: Bytes, r: Bytes, base: nat, size: nat, flags: seq<bool>)
    requires |f| == |r|
  {
    forall p: nat :: p < |f| && !InDirty(p, base, size, flags, |flags|) ==> r[p] == f[p]
  }

  lemma WriteDirtyBytes(f: Bytes, r: Bytes, base: nat, size: nat, buffer: Bytes, flags: seq<bool>)
    requires Fits(f, base, size, buffer, flags) && r == WriteDirty(f, base, size, buffer, flags, |flags|)
    ensures forall p: nat :: p < |f| ==> SavedByte(f, r, base, size, buffer, flags, p)
    ensures KeepsClean(f, r, base, size, flags)
  {
    forall p: nat | p < |f|
      ensures SavedByte(f, r, base, size, buffer, flags, p)
      ensures !InDirty(p, base, size, flags, |flags|) ==> r[p] == f[p]
    {
      WriteDirtyAt(f, base, size, buffer, flags, |flags|, p);
    }
  }

  class DiskTrack {
    var trackNumber: nat
    var shiftCount: nat
    var sectorCount: nat
    var buffer: Bytes
    var isInitialized: bool
    var isModified: bool
    var modifiedFlags: seq<bool>

    constructor ()
      ensures !isInitialized && !isModified
    {
      trackNumber, shiftCount, sectorCount := 0, 8, 1;
      buffer, isInitialized, isModified, modifiedFlags := [], false, false, [];
    }

    ghost predicate Loaded()
      reads this
    {
      && isInitialized
      && 8 <= shiftCount <= 12
      && 0 < sectorCount <= SECTORS_PER_TRACK
      && |buffer| == Offset(sectorCount, SectorSize(shiftCount))
      && |modifiedFlags| == sectorCount
      && (!isModified ==> forall k :: 0 <= k < sectorCount ==> !modifiedFlags[k])
    }

    ghost function Size(): nat
      requires Loaded()
      reads this
    {
      SectorSize(shiftCount)
    }

    /** The first sector of the track. */
    ghost function Base(): nat
      reads this
    {
      trackNumber * SECTORS_PER_TRACK
    }

    /** The byte position of the track in the image file. */
    ghost function Start(): nat
      requires Loaded()
      reads this
    {
      Offset(Base(), Size())
    }

    ghost predicate Dirty(p: int)
      requires Loaded()
      reads this
    {
      InDirty(p, Base(), Size(), modifiedFlags, sectorCount)
    }

    method Init(track: nat, shift: nat, sectors: nat)
      requires 0 < sectors <= SECTORS_PER_TRACK && 8 <= shift <= 12
      modifies this
      ensures trackNumber == track && shiftCount == shift && sectorCount == sectors
      ensures !isInitialized && !isModified
    {
      trackNumber, shiftCount, sectorCount := track, shift, sectors;
      isInitialized, isModified := false, false;
    }

    method Load(file: ImageFile) returns (ok: bool)
      requires 8 <= shiftCount <= 12 && 0 < sectorCount <= SECTORS_PER_TRACK
      requires isInitialized ==> Loaded()
      modifies this, file`failures
      ensures trackNumber == old(trackNumber) && shiftCount == old(shiftCount) && sectorCount == old(sectorCount)
      ensures old(isInitialized) ==> ok && unchanged(this)
      ensures old(file.failures) <= file.failures
      ensures !ok && Offset(Base() + sectorCount, SectorSize(shiftCount)) <= |file.bytes| ==>
                old(file.failures) < file.failures
      ensures ok ==> Loaded()
      ensures ok && !old(isInitialized) ==>
                && (forall k :: 0 <= k < sectorCount ==> !modifiedFlags[k])
                && Start() + |buffer| <= |file.bytes|
                && buffer == file.bytes[Start()..Start() + |buffer|]
    {
      if isInitialized {
        return true;
      }
      var size := Offset(sectorCount, SectorSize(shiftCount));
      OffsetSum(Base(), sectorCount, SectorSize(shiftCount));
      modifiedFlags := seq(sectorCount, _ => false);
      isInitialized, isModified := true, false;
      ok := file.Open();
      if !ok {
        return false;
      }
      var data;
      ok, data := file.Read(Offset(trackNumber * SECTORS_PER_TRACK, SectorSize(shiftCount)), size);
      if ok {
        buffer := data;
      }
    }

    /** A successful save leaves the file as if each dirty sector had been written individually. A
        failed save keeps every dirty flag and has touched no byte outside the dirty sectors. */
    method Save(file: ImageFile) returns (ok: bool)
      requires Loaded() && Offset(Base() + sectorCount, Size()) <= |file.bytes|
      modifies this`isModified, this`modifiedFlags, file
      ensures Loaded() && |file.bytes| == |old(file.bytes)|
      ensures old(file.failures) <= file.failures && (!ok ==> old(file.failures) < file.failures)
      ensures file.full ==> file.bytes == old(file.bytes)
      ensures ok ==>
                && file.bytes == WriteDirty(old(file.bytes), Base(), Size(), buffer, old(modifiedFlags), sectorCount)
                && !isModified
      ensures !ok ==> modifiedFlags == old(modifiedFlags) && isModified == old(isModified)
      ensures ok ==> forall p: nat :: p < |file.bytes| ==>
                SavedByte(old(file.bytes), file.bytes, Base(), Size(), buffer, old(modifiedFlags), p)
      ensures KeepsClean(old(file.bytes), file.bytes, Base(), Size(), old(modifiedFlags))
    {
      ghost var before, base, flags := file.bytes, Base(), modifiedFlags;
      assert KeepsClean(before, before, base, Size(), flags);
      hide InDirty, KeepsClean, SavedByte, Offset, SectorSize, Splice, WriteDirty, Fits;
      if !isInitialized || !isModified {
        NothingDirty(before, base, Size(), buffer, flags, sectorCount);
        WriteDirtyBytes(before, before, base, Size(), buffer, flags);
        return true;
      }
      var size := SectorSize(shiftCount);
      var offset := Offset(trackNumber * SECTORS_PER_TRACK, size);
      ok := file.Open();
      if !ok {
        return false;
      }
      var i := 0;
      NoneWritten(before, base, size, buffer, modifiedFlags);
      while i < sectorCount
        modifies file
        invariant 0 <= i <= sectorCount
        invariant file.bytes == WriteDirty(before, base, size, buffer, modifiedFlags, i)
        invariant file.full ==> file.bytes == before
        invariant old(file.failures) <= file.failures
      {
        if modifiedFlags[i] {
          ok, i := SaveRun(file, i, offset, before);
          if !ok {
            return false;
          }
        } else {
          CleanSector(before, base, size, buffer, modifiedFlags, i);
          i := i + 1;
        }
      }
      WriteDirtyBytes(before, file.bytes, base, size, buffer, flags);
      modifiedFlags := seq(sectorCount, _ => false);
      isModified := false;
      ok := true;
    }

    /** Saves the run of dirty sectors that starts at i. */
    method SaveRun(file: ImageFile, i: nat, offset: nat, ghost before: Bytes) returns (ok: bool, j: nat)
      requires Loaded() && i < sectorCount && modifiedFlags[i] && offset == Start()
      requires Fits(before, Base(), Size(), buffer, modifiedFlags) && |file.bytes| == |before|
      requires file.bytes == WriteDirty(before, Base(), Size(), buffer, modifiedFlags, i)
      modifies file
      ensures |file.bytes| == |before|
      ensures old(file.failures) <= file.failures && (!ok ==> old(file.failures) < file.failures)
      ensures file.full ==> file.bytes == old(file.bytes)
      ensures i < j <= sectorCount
      ensures ok ==> file.bytes == WriteDirty(before, Base(), Size(), buffer, modifiedFlags, j)
      ensures KeepsClean(before, file.bytes, Base(), Size(), modifiedFlags)
    {
      hide InDirty, KeepsClean, SavedByte, Offset, SectorSize, Splice, WriteDirty, Fits;
      var size := SectorSize(shiftCount);
      var total;
      ghost var stored;
      j, total := DirtyRun(i);
      RunIsSectors(before, Base(), Size(), buffer, modifiedFlags, i, j);
      ok, stored := file.Write(offset + Offset(i, size), buffer[Offset(i, size)..Offset(i, size) + total]);
      TornRun(before, Base(), Size(), buffer, modifiedFlags, i, j, stored);
    }

    /** The end of the run of dirty sectors that starts at i, and its length in bytes. */
    method DirtyRun(i: nat) returns (j: nat, total: nat)
      requires Loaded() && i < sectorCount && modifiedFlags[i]
      ensures i < j <= sectorCount && forall k :: i <= k < j ==> modifiedFlags[k]
      ensures Offset(i, Size()) <= Offset(j, Size()) <= |buffer| && total == Offset(j, Size()) - Offset(i, Size())
      ensures Offset(Base() + i, Size()) == Start() + Offset(i, Size())
      ensures Offset(Base() + i, Size()) + total <= Offset(Base() + sectorCount, Size())
    {
      var size := SectorSize(shiftCount);
      j, total := i, 0;
      while j < sectorCount && modifiedFlags[j]
        invariant i <= j <= sectorCount
        invariant forall k :: i <= k < j ==> modifiedFlags[k]
        invariant total == Offset(j, size) - Offset(i, size)
      {
        total, j := total + size, j + 1;
      }
      OffsetAscends(i, j, size);
      OffsetAscends(j, sectorCount, size);
      OffsetSum(Base(), i, size);
      OffsetSum(Base(), j, size);
      OffsetAscends(Base() + j, Base() + sectorCount, size);
    }

    method ReadSector(sector: nat) returns (length: nat, data: Bytes)
      requires sector < SECTORS_PER_TRACK && Loaded()
      ensures sector >= sectorCount ==> length == 0
      ensures sector < sectorCount ==>
                && length == |data| == Size()
                && Offset(sector + 1, Size()) <= |buffer|
                && data == SectorAt(buffer, sector, Size())
    {
      if !isInitialized || sector >= sectorCount {
        return 0, [];
      }
      var size := SectorSize(shiftCount);
      OffsetAscends(sector + 1, sectorCount, size);
      var offset := Offset(sector, size);
      return size, buffer[offset..offset + size];
    }

    /** Stores a sector in the buffer; its flag is set only if the contents differ. */
    method WriteSector(data: Bytes, sector: nat) returns (length: nat)
      requires sector < SECTORS_PER_TRACK && Loaded() && |data| == Size()
      modifies this`buffer, this`isModified, this`modifiedFlags
      ensures Loaded()
      ensures sector >= sectorCount ==> length == 0 && unchanged(this)
      ensures sector < sectorCount ==>
                && length == Size()
                && Offset(sector + 1, Size()) <= |buffer| == |old(buffer)|
                && buffer == Splice(old(buffer), Offset(sector, Size()), data)
                && (buffer == old(buffer) ==> modifiedFlags == old(modifiedFlags))
                && (buffer != old(buffer) ==> modifiedFlags == old(modifiedFlags)[sector := true])
    {
      if !isInitialized || sector >= sectorCount {
        return 0;
      }
      var size := SectorSize(shiftCount);
      var offset := Offset(sector, size);
      OffsetAscends(sector + 1, sectorCount, size);
      if data != buffer[offset..offset + size] {
        ghost var before := buffer;
        buffer := Splice(buffer, offset, data);
        assert buffer[offset..offset + size] == data;
        modifiedFlags := modifiedFlags[sector := true];
        isModified := true;
      }
      return size;
    }
  }

  lemma {:induction false} NothingDirty(f: Bytes, base: nat, size: nat, buffer: Bytes, flags: seq<bool>, n: nat)
    requires Fits(f, base, size, buffer, flags) && n <= |flags|
    requires forall k :: 0 <= k < |flags| ==> !flags[k]
    ensures WriteDirty(f, base, size, buffer, flags, n) == f
  {
    if n > 0 {
      NothingDirty(f, base, size, buffer, flags, n - 1);
    }
  }

  lemma ByteOfRun(f: Bytes, base: nat, size: nat, buffer: Bytes, flags: seq<bool>, i: nat, j: nat, p: nat)
    requires Fits(f, base, size, buffer, flags) && i <= j <= |flags|
    requires forall k :: i <= k < j ==> flags[k]
    requires Offset(base + i, size) <= p < Offset(base + j, size)
    ensures InDirty(p, base, size, flags, |flags|)
  {
    var s := SectorOf(p, base + i, base + j, size);
    assert flags[s - base] && InSector(p, base + (s - base), size);
  }

  /** A run that stopped half way has touched dirty sectors only. */
  lemma TornRun(f: Bytes, base: nat, size: nat, buffer: Bytes, flags: seq<bool>, i: nat, j: nat, stored: nat)
    requires Fits(f, base, size, buffer, flags) && i <= j <= |flags|
    requires forall k :: i <= k < j ==> flags[k]
    requires stored <= Offset(j, size) - Offset(i, size) && Offset(j, size) <= |buffer|
    requires Offset(base + i, size) + stored <= |f|
    ensures KeepsClean(f, Splice(WriteDirty(f, base, size, buffer, flags, i), Offset(base + i, size),
                                 buffer[Offset(i, size)..Offset(j, size)][..stored]), base, size, flags)
  {
    SectorFits(f, base, size, buffer, flags, i, j);
    forall p: nat | p < |f| && !InDirty(p, base, size, flags, |flags|)
      ensures Splice(WriteDirty(f, base, size, buffer, flags, i), Offset(base + i, size),
                     buffer[Offset(i, size)..Offset(j, size)][..stored])[p] == f[p]
    {
      WriteDirtyAt(f, base, size, buffer, flags, i, p);
      if Offset(base + i, size) <= p < Offset(base + i, size) + stored {
        ByteOfRun(f, base, size, buffer, flags, i, j, p);
      }
    }
  }
}
