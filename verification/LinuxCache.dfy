/** The cache modes that leave caching to the operating system: every access goes to the image file. */
module LinuxCaches {
  import opened ImageFiles
  import opened Transfers

  class LinuxCache {
    const file: ImageFile
    const sectorSize: nat
    const sectors: nat
    const writeThrough: bool

    constructor (f: ImageFile, size: nat, count: nat, through: bool)
      ensures file == f && sectorSize == size && sectors == count && writeThrough == through
    {
      file, sectorSize, sectors, writeThrough := f, size, count, through;
    }

    /** The sectors of the medium are in the file. */
    ghost predicate Valid()
      reads file`bytes
    {
      sectorSize > 0 && Offset(sectors, sectorSize) <= |file.bytes|
    }

    /** The length of a transfer is an int. */
    method ReadSectors(start: nat, count: nat) returns (length: nat, data: Bytes)
      requires Valid() && count > 0
      modifies file`failures
      ensures start + count > sectors ==> length == 0
      ensures old(file.failures) <= file.failures
      ensures length == 0 && start + count <= sectors && AsInt(Offset(count, sectorSize)) > 0 ==>
                old(file.failures) < file.failures
      ensures length != 0 ==>
                && length == |data| == AsInt(Offset(count, sectorSize))
                && Offset(start, sectorSize) + length <= |file.bytes|
                && data == file.bytes[Offset(start, sectorSize)..Offset(start, sectorSize) + length]
    {
      if sectors < start + count {
        return 0, [];
      }
      InFile(start, count);
      length, data := Read(start, AsInt(Offset(count, sectorSize)));
    }

    method WriteSectors(data: Bytes, start: nat, count: nat) returns (length: nat, ghost stored: nat)
      requires Valid() && count > 0 && |data| == AsInt(Offset(count, sectorSize)) > 0
      modifies file
      ensures Valid() && |file.bytes| == |old(file.bytes)|
      ensures old(file.failures) <= file.failures
      ensures start + count <= sectors && length == 0 ==> old(file.failures) < file.failures
      ensures file.full ==> file.bytes == old(file.bytes)
      ensures start + count > sectors ==> length == 0 && stored == 0 && file.bytes == old(file.bytes)
      ensures writeThrough && length != 0 ==> file.synced
      ensures length != 0 ==> length == stored == |data|
      ensures stored <= |data| && (stored > 0 ==> Offset(start, sectorSize) + |data| <= |file.bytes|)
      ensures file.bytes == if stored == 0 then old(file.bytes)
                            else Splice(old(file.bytes), Offset(start, sectorSize), data[..stored])
    {
      if sectors < start + count {
        return 0, 0;
      }
      InFile(start, count);
      length, stored := Write(data, start);
    }

    method ReadLong(start: nat, length: nat) returns (r: nat, data: Bytes)
      requires Valid() && length == sectorSize
      modifies file`failures
      ensures start >= sectors ==> r == 0
      ensures old(file.failures) <= file.failures
      ensures start < sectors && r == 0 ==> old(file.failures) < file.failures
      ensures r != 0 ==> r == |data| == length && Offset(start + 1, sectorSize) <= |file.bytes|
      ensures r != 0 ==> data == SectorAt(file.bytes, start, sectorSize)
    {
      if sectors <= start {
        return 0, [];
      }
      InFile(start, 1);
      r, data := Read(start, length);
    }

    lemma InFile(start: nat, count: nat)
      requires Valid() && start + count <= sectors
      ensures Offset(start, sectorSize) + Offset(count, sectorSize) == Offset(start + count, sectorSize) <= |file.bytes|
      ensures count > 0 ==> Offset(count, sectorSize) > 0
      ensures Offset(start + 1, sectorSize) == Offset(start, sectorSize) + sectorSize
    {
      OffsetSum(start, count, sectorSize);
      OffsetAscends(start + count, sectors, sectorSize);
      if count > 0 {
        OffsetAscends(1, count, sectorSize);
      }
    }

    /** A stream does not read a negative number of bytes. */
    method Read(start: nat, length: int) returns (r: nat, data: Bytes)
      modifies file`failures
      ensures r != 0 ==> r == |data| == length && Offset(start, sectorSize) + length <= |file.bytes|
      ensures old(file.failures) <= file.failures
      ensures r == 0 && length > 0 && Offset(start, sectorSize) + length <= |file.bytes| ==>
                old(file.failures) < file.failures
      ensures r != 0 ==> data == file.bytes[Offset(start, sectorSize)..Offset(start, sectorSize) + length]
    {
      if length < 0 {
        return 0, [];
      }
      var ok;
      ok, data := file.Read(Offset(start, sectorSize), length);
      r := if ok then length else 0;
    }

    /** A write that fails may have stored any part of its data. */
    method Write(data: Bytes, start: nat) returns (r: nat, ghost stored: nat)
      requires data != [] && Offset(start, sectorSize) + |data| <= |file.bytes|
      modifies file
      ensures stored <= |data| && (r != 0 ==> r == stored == |data|) && (writeThrough && r != 0 ==> file.synced)
      ensures old(file.failures) <= file.failures
      ensures r == 0 ==> old(file.failures) < file.failures
      ensures file.full ==> file.bytes == old(file.bytes)
      ensures file.bytes == if stored == 0 then old(file.bytes)
                            else Splice(old(file.bytes), Offset(start, sectorSize), data[..stored])
    {
      var ok;
      ghost var before := file.bytes;
      ok, stored := file.Write(Offset(start, sectorSize), data);
      if stored == 0 {
        NothingSpliced(before, Offset(start, sectorSize), data);
      }
      if !ok {
        return 0, stored;
      }
      if writeThrough {
        ok := Flush();
      }
      r := if ok then |data| else 0;
    }

    method Flush() returns (ok: bool)
      modifies file`failures, file`synced
      ensures file.failures == old(file.failures) + if ok then 0 else 1
      ensures ok ==> file.synced
    {
      ok := file.Flush();
    }
  }

  lemma NothingSpliced(f: Bytes, pos: nat, data: Bytes)
    requires pos + |data| <= |f|
    ensures Splice(f, pos, data[..0]) == f
  {
  }
}
