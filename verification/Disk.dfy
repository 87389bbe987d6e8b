/** The disk: READ and WRITE over its caches, in the chunks the controller asks for. */
module Disks {
  import opened ImageFiles
  import opened MemoryUtil
  import opened Transfers
  import opened DiskTracks
  import opened DiskCaches
  import opened LinuxCaches

  datatype AccessMode = RW6 | RW10 | RW16 | SEEK6 | SEEK10

  datatype CachingMode = PISCSI | LINUX | LINUX_OPTIMIZED | WRITE_THROUGH

  function CdbLength(mode: AccessMode): nat {
    match mode
    case RW6 => 6
    case SEEK6 => 6
    case RW10 => 10
    case SEEK10 => 10
    case RW16 => 16
  }

  function StartOf(mode: AccessMode, cdb: Bytes): nat
    requires |cdb| >= CdbLength(mode)
  {
    if mode == RW6 || mode == SEEK6 then GetInt24(cdb, 1)
    else if mode == RW16 then GetInt64(cdb, 2) else GetInt32(cdb, 2)
  }

  /** In a command of 6 bytes the count 0 stands for 256. */
  function CountOf(mode: AccessMode, cdb: Bytes): nat
    requires |cdb| >= CdbLength(mode)
  {
    if mode == RW6 || mode == SEEK6 then if cdb[4] == 0 then 256 else cdb[4] as int
    else if mode == RW16 then GetInt32(cdb, 10)
    else if mode == RW10 then GetInt16(cdb, 7) else 0
  }

  datatype Check = NotReady | OutOfRange | Accepted(process: bool)

  const WORD64: nat := 0x1_0000_0000_0000_0000
  const WORD32: nat := 0x1_0000_0000

  /** The address that a cache gets for a sector. */
  function Address(sector: nat): (a: nat)
    ensures a <= sector
  {
    sector % WORD32
  }

  /** The address has the low 32 bits of the sector number. */
  lemma AddressIsLow(sector: nat)
    ensures Address(sector) < 0x1_0000_0000 && (sector - Address(sector)) % 0x1_0000_0000 == 0
  {
  }

  /** CheckAndGetStartAndCount: the sum of start and count has 64 bits. */
  function CheckRange(ready: bool, capacity: nat, mode: AccessMode, cdb: Bytes): (c: Check)
    requires |cdb| >= CdbLength(mode)
  {
    if !ready then NotReady
    else if capacity == 0 || (StartOf(mode, cdb) + CountOf(mode, cdb)) % WORD64 > capacity then OutOfRange
    else Accepted(CountOf(mode, cdb) != 0 || mode == SEEK6 || mode == SEEK10)
  }

  /** The fields of a command are the numbers that its bytes are. */
  lemma FieldsOf(mode: AccessMode, cdb: Bytes)
    requires |cdb| >= CdbLength(mode)
    ensures mode in {RW6, SEEK6} ==>
              |cdb| >= 6 && StartOf(mode, cdb) == FromBigEndian(cdb[1..4])
              && CountOf(mode, cdb) == if cdb[4] == 0 then 256 else cdb[4] as nat
    ensures mode in {RW10, SEEK10} ==> |cdb| >= 10 && StartOf(mode, cdb) == FromBigEndian(cdb[2..6])
    ensures mode == RW10 ==> CountOf(mode, cdb) == FromBigEndian(cdb[7..9])
    ensures mode == RW16 ==>
              |cdb| >= 16 && StartOf(mode, cdb) == FromBigEndian(cdb[2..10])
              && CountOf(mode, cdb) == FromBigEndian(cdb[10..14])
  {
    hide *;
    FieldsAre(mode, cdb);
    FieldIsNumber(cdb, 1);
    FieldIsNumber(cdb, 2);
    FieldIsNumber(cdb, 7);
    FieldIsNumber(cdb, 10);
  }

  lemma FieldsAre(mode: AccessMode, cdb: Bytes)
    requires |cdb| >= CdbLength(mode)
    ensures mode in {RW6, SEEK6} ==>
              |cdb| >= 6 && StartOf(mode, cdb) == GetInt24(cdb, 1)
              && CountOf(mode, cdb) == if cdb[4] == 0 then 256 else cdb[4] as nat
    ensures mode in {RW10, SEEK10} ==> |cdb| >= 10 && StartOf(mode, cdb) == GetInt32(cdb, 2)
    ensures mode == RW10 ==> CountOf(mode, cdb) == GetInt16(cdb, 7)
    ensures mode == RW16 ==>
              |cdb| >= 16 && StartOf(mode, cdb) == GetInt64(cdb, 2) && CountOf(mode, cdb) == GetInt32(cdb, 10)
  {
    hide GetInt16, GetInt24, GetInt32, GetInt64;
  }

  /** The commands of an initiator. */
  function Cdb6(opcode: byte, start: nat, count: byte, control: byte): Bytes {
    [opcode] + ToBigEndian(start, 3) + [count, control]
  }

  function Cdb10(opcode: byte, flags: byte, start: nat, group: byte, count: nat, control: byte): Bytes {
    [opcode, flags] + ToBigEndian(start, 4) + [group] + ToBigEndian(count, 2) + [control]
  }

  function Cdb16(opcode: byte, flags: byte, start: nat, count: nat, group: byte, control: byte): Bytes {
    [opcode, flags] + ToBigEndian(start, 8) + ToBigEndian(count, 4) + [group, control]
  }

  /** The drive gets the start and the count that the initiator has put into a command. */
  lemma CommandIsDecoded(opcode: byte, flags: byte, start: nat, count: nat, group: byte, control: byte)
    ensures start < 0x100_0000 && count < 0x100 ==>
              var cdb := Cdb6(opcode, start, count as byte, control);
              && |cdb| == CdbLength(RW6) && StartOf(RW6, cdb) == start
              && CountOf(RW6, cdb) == if count == 0 then 256 else count
    ensures start < 0x1_0000_0000 && count < 0x1_0000 ==>
              var cdb := Cdb10(opcode, flags, start, group, count, control);
              |cdb| == CdbLength(RW10) && StartOf(RW10, cdb) == start && CountOf(RW10, cdb) == count
    ensures start < 0x1_0000_0000_0000_0000 && count < 0x1_0000_0000 ==>
              var cdb := Cdb16(opcode, flags, start, count, group, control);
              |cdb| == CdbLength(RW16) && StartOf(RW16, cdb) == start && CountOf(RW16, cdb) == count
  {
    Powers();
    if start < 0x100_0000 && count < 0x100 {
      Decoded6(opcode, start, count as byte, control);
    }
    if start < 0x1_0000_0000 && count < 0x1_0000 {
      Decoded10(opcode, flags, start, group, count, control);
    }
    if start < 0x1_0000_0000_0000_0000 && count < 0x1_0000_0000 {
      Decoded16(opcode, flags, start, count, group, control);
    }
    hide *;
  }

  lemma Powers()
    ensures Power(2) == 0x1_0000 && Power(3) == 0x100_0000 && Power(4) == 0x1_0000_0000
    ensures Power(8) == 0x1_0000_0000_0000_0000
  {
    assert Power(5) == Power(4) * 0x100 && Power(6) == Power(5) * 0x100 && Power(7) == Power(6) * 0x100;
  }

  lemma Decoded6(opcode: byte, start: nat, count: byte, control: byte)
    requires start < 0x100_0000
    ensures var cdb := Cdb6(opcode, start, count, control);
            && |cdb| == CdbLength(RW6) && StartOf(RW6, cdb) == start
            && CountOf(RW6, cdb) == if count == 0 then 256 else count as nat
  {
    var cdb := Cdb6(opcode, start, count, control);
    Powers();
    BigEndianRoundTrip(start, 3);
    assert cdb[1..4] == ToBigEndian(start, 3) && cdb[4] == count;
    FieldsOf(RW6, cdb);
    hide StartOf, CountOf, FromBigEndian, ToBigEndian, Power;
  }

  lemma Decoded10(opcode: byte, flags: byte, start: nat, group: byte, count: nat, control: byte)
    requires start < 0x1_0000_0000 && count < 0x1_0000
    ensures var cdb := Cdb10(opcode, flags, start, group, count, control);
            |cdb| == CdbLength(RW10) && StartOf(RW10, cdb) == start && CountOf(RW10, cdb) == count
  {
    var cdb := Cdb10(opcode, flags, start, group, count, control);
    Powers();
    BigEndianRoundTrip(start, 4);
    BigEndianRoundTrip(count, 2);
    assert cdb[2..6] == ToBigEndian(start, 4) && cdb[7..9] == ToBigEndian(count, 2);
    FieldsOf(RW10, cdb);
    hide StartOf, CountOf, FromBigEndian, ToBigEndian, Power;
  }

  lemma Decoded16(opcode: byte, flags: byte, start: nat, count: nat, group: byte, control: byte)
    requires start < 0x1_0000_0000_0000_0000 && count < 0x1_0000_0000
    ensures var cdb := Cdb16(opcode, flags, start, count, group, control);
            |cdb| == CdbLength(RW16) && StartOf(RW16, cdb) == start && CountOf(RW16, cdb) == count
  {
    var cdb := Cdb16(opcode, flags, start, count, group, control);
    Powers();
    BigEndianRoundTrip(start, 8);
    BigEndianRoundTrip(count, 4);
    assert cdb[2..10] == ToBigEndian(start, 8) && cdb[10..14] == ToBigEndian(count, 4);
    FieldsOf(RW16, cdb);
    hide StartOf, CountOf, FromBigEndian, ToBigEndian, Power;
  }

  /** An accepted READ or WRITE moves data unless the bytes of its count are zero, and with 6 bytes always. */
  lemma ProcessedCommands(capacity: nat, mode: AccessMode, cdb: Bytes)
    requires |cdb| >= CdbLength(mode) && CheckRange(true, capacity, mode, cdb).Accepted?
    ensures CheckRange(true, capacity, mode, cdb).process <==>
              match mode
              case RW6 => true
              case SEEK6 => true
              case SEEK10 => true
              case RW10 => cdb[7] != 0 || cdb[8] != 0
              case RW16 => cdb[10] != 0 || cdb[11] != 0 || cdb[12] != 0 || cdb[13] != 0
  {
  }

  /** A command is accepted if it stays on the medium, and also if its range wraps around 64 bits. */
  lemma AcceptedRanges(capacity: nat, mode: AccessMode, cdb: Bytes)
    requires |cdb| >= CdbLength(mode) && capacity < WORD64
    ensures CheckRange(true, capacity, mode, cdb).Accepted? <==>
              capacity > 0 &&
              var end := StartOf(mode, cdb) + CountOf(mode, cdb);
              (end <= capacity || (mode == RW16 && WORD64 <= end <= WORD64 + capacity))
    ensures CheckRange(false, capacity, mode, cdb) == NotReady && CheckRange(true, capacity, mode, cdb) != NotReady
  {
  }

  /** The last sector of 64 bits and the sector behind it, on any medium that is not empty. */
  lemma WrappingRange(capacity: nat, cdb: Bytes)
    requires |cdb| == 16 && cdb[2..14] == [0xff, 0xff, 0xff, 0xff, 0xff, 0xff, 0xff, 0xff, 0, 0, 0, 2]
    requires 0 < capacity < WORD64
    ensures StartOf(RW16, cdb) == WORD64 - 1 && CountOf(RW16, cdb) == 2
    ensures CheckRange(true, capacity, RW16, cdb) == Accepted(true)
  {
  }

  /** The outcome of a READ: not accepted, nothing to do, all data, or some data and a medium error. */
  datatype ReadResult = Refused(check: Check) | Nothing | Sent(data: Bytes) | ReadError(data: Bytes)

  /** The outcome of a WRITE. After a failed handshake the bus is reset. */
  datatype WriteResult = NotAccepted(check: Check) | NothingWritten | Stored | WriteFault | Aborted

  class Disk {
    const file: ImageFile
    const transfer: Transfer
    const blockSize: nat
    const blockCount: nat
    var cachingMode: CachingMode
    var trackCache: DiskCache?
    var linuxCache: LinuxCache?
    var nextSector: nat
    var sectorTransferCount: nat
    var ready: bool

    ghost predicate Valid()
      reads this`cachingMode, this`trackCache, this`linuxCache, file`bytes, trackCache,
        if trackCache != null then trackCache.tracks else {}
    {
      && 0 < blockSize < 0x8000_0000 && Offset(blockCount, blockSize) <= |file.bytes|
      && if cachingMode == PISCSI then
           && trackCache != null && linuxCache == null && trackCache.file == file
           && trackCache.Valid() && trackCache.blocks == blockCount && trackCache.Size() == blockSize
         else
           && trackCache == null && linuxCache != null && linuxCache.file == file
           && linuxCache.sectors == blockCount && linuxCache.sectorSize == blockSize
           && (linuxCache.writeThrough <==> cachingMode == WRITE_THROUGH)
    }

    /** The bytes of the medium as the initiator sees them. */
    ghost function View(): Bytes
      reads this`trackCache, file`bytes, trackCache
    {
      if trackCache != null then trackCache.view else file.bytes
    }

    /** InitCache */
    constructor (f: ImageFile, size: nat, count: nat, mode: CachingMode)
      requires if mode == PISCSI then IsStandardSize(size) && count < 0x8000_0000 else 0 < size < 0x8000_0000
      requires Offset(count, size) <= |f.bytes|
      ensures Valid() && View() == f.bytes && file == f && blockSize == size && blockCount == count
              && cachingMode == mode
      ensures fresh(transfer) && (trackCache != null ==> fresh(trackCache) && trackCache.tracks == {})
    {
      file, blockSize, blockCount, cachingMode := f, size, count, mode;
      transfer := new Transfer();
      nextSector, sectorTransferCount, ready := 0, 0, true;
      if mode == PISCSI {
        linuxCache := null;
        trackCache := new DiskCache(f, size, count);
      } else {
        trackCache := null;
        linuxCache := new LinuxCache(f, size, count, mode == WRITE_THROUGH);
      }
    }

    /** The totals that the model covers: those that fit into 31 bits, and for standard sector sizes all
        others. */
    predicate Covers(count: nat) {
      0 < blockSize < 0x8000_0000 && (Offset(count, blockSize) < 0x8000_0000 || IsStandardSize(blockSize))
    }

    lemma SizeBounds()
      requires Valid()
      ensures 0 < blockSize < 0x8000_0000 && |View()| == |file.bytes|
      ensures Offset(1, blockSize) == blockSize && Covers(1) && SectorsMoved(1, blockSize) == 1
    {
      OneOffset(blockSize);
    }

    /** A chunk that the cache can move: the track cache takes single sectors, and the others a positive number
        of bytes. */
    predicate Movable(count: nat)
      reads this`trackCache
    {
      AsInt(Offset(count, blockSize)) > 0 && (trackCache != null ==> count == 1)
    }

    /** The bytes that are moved at once. */
    function AtOnce(count: nat): int
      reads this`cachingMode
    {
      AsInt(Offset(ChunkOf(count), blockSize))
    }

    lemma ChunkMoves(count: nat)
      requires Valid()
      ensures AtOnce(count) == AsInt(Offset(ChunkOf(count), blockSize))
      ensures AtOnce(count) > 0 ==> Movable(ChunkOf(count))
    {
      hide Offset, AsInt;
    }

    /** cache->ReadSectors, whatever the cache is. */
    method CacheRead(sector: nat, count: nat) returns (length: nat, data: Bytes)
      requires Valid() && count > 0 && sector < blockCount && Covers(count)
      modifies file, trackCache, if trackCache != null then trackCache.tracks else {}
      ensures Valid() && View() == old(View())
      ensures old(file.failures) <= file.failures
      ensures length == 0 && sector + count <= blockCount && Movable(count) ==> old(file.failures) < file.failures
      ensures file.full ==> file.bytes == old(file.bytes)
      ensures trackCache != null ==> fresh(trackCache.tracks - old(trackCache.tracks))
      ensures length != 0 ==>
                && sector + count <= blockCount && AsInt(Offset(count, blockSize)) > 0
                && length == |data| == Offset(SectorsMoved(count, blockSize), blockSize)
                && Offset(sector + SectorsMoved(count, blockSize), blockSize) <= |View()|
                && data == SectorRange(View(), sector, SectorsMoved(count, blockSize), blockSize)
    {
      SizeBounds();
      hide SectorRange, Offset, SectorsMoved, AsInt;
      if trackCache != null {
        TrackOnMedium(sector, blockCount);
        length, data := trackCache.ReadSectors(sector, count);
        if length != 0 {
          SmallInt(blockSize);
          OneSector(trackCache.view, sector, blockSize);
        }
      } else {
        length, data := linuxCache.ReadSectors(sector, count);
        if length != 0 {
          RangeOfLength(file.bytes, sector, count, blockSize);
        }
      }
    }

    /** cache->WriteSectors, whatever the cache is. */
    method CacheWrite(data: Bytes, sector: nat, count: nat) returns (length: nat, ghost stored: nat)
      requires Valid() && count > 0 && sector + count <= blockCount
      requires |data| == AsInt(Offset(count, blockSize)) > 0 && (trackCache != null ==> count == 1)
      modifies file, trackCache, if trackCache != null then trackCache.tracks else {}
      ensures Valid() && |View()| == |old(View())|
      ensures old(file.failures) <= file.failures
      ensures length == 0 ==> old(file.failures) < file.failures
      ensures length != 0 && cachingMode == WRITE_THROUGH ==> file.synced
      ensures file.full ==> file.bytes == old(file.bytes)
      ensures trackCache != null ==> fresh(trackCache.tracks - old(trackCache.tracks)) && stored in {0, |data|}
      ensures length != 0 ==> stored == |data|
      ensures Patched(old(View()), View(), Offset(sector, blockSize), data, stored)
    {
      hide SectorRange;
      if trackCache != null {
        TrackOnMedium(sector, blockCount);
        OneOffset(blockSize);
        length := trackCache.WriteSectors(data, sector, count);
        stored := if length != 0 then |data| else 0;
        assert data[..|data|] == data;
      } else {
        length, stored := linuxCache.WriteSectors(data, sector, count);
      }
    }

    /** ReadData: the next chunk. The cache gets an address of 32 bits. */
    method ReadData() returns (ok: bool, data: Bytes)
      requires Valid() && sectorTransferCount > 0 && nextSector + sectorTransferCount <= blockCount
      requires Covers(sectorTransferCount)
      modifies this`nextSector, file, trackCache, if trackCache != null then trackCache.tracks else {}
      ensures Valid() && View() == old(View())
      ensures old(file.failures) <= file.failures
      ensures !ok && ready && Movable(sectorTransferCount) ==> old(file.failures) < file.failures
      ensures file.full ==> file.bytes == old(file.bytes)
      ensures trackCache != null ==> fresh(trackCache.tracks - old(trackCache.tracks))
      ensures ok ==>
                var n := SectorsMoved(sectorTransferCount, blockSize);
                && nextSector == old(nextSector) + sectorTransferCount
                && AsInt(Offset(sectorTransferCount, blockSize)) > 0 && |data| == Offset(n, blockSize)
                && Offset(Address(old(nextSector)) + n, blockSize) <= |View()|
                && data == SectorRange(View(), Address(old(nextSector)), n, blockSize)
    {
      if !ready {
        return false, [];
      }
      var length;
      length, data := CacheRead(Address(nextSector), sectorTransferCount);
      if length == 0 {
        return false, [];
      }
      nextSector := nextSector + sectorTransferCount;
      ok := true;
    }

    /** WriteData: a chunk of a WRITE. */
    method WriteData(data: Bytes) returns (ok: bool, ghost stored: nat)
      requires Valid() && sectorTransferCount > 0 && nextSector + sectorTransferCount <= blockCount
      requires trackCache != null ==> sectorTransferCount == 1
      requires |data| == AsInt(Offset(sectorTransferCount, blockSize)) > 0
      modifies this`nextSector, file, trackCache, if trackCache != null then trackCache.tracks else {}
      ensures Valid() && |View()| == |old(View())|
      ensures old(file.failures) <= file.failures
      ensures !ok && ready ==> old(file.failures) < file.failures
      ensures file.full ==> file.bytes == old(file.bytes)
      ensures trackCache != null ==> fresh(trackCache.tracks - old(trackCache.tracks)) && stored in {0, |data|}
      ensures ok ==> nextSector == old(nextSector) + sectorTransferCount && stored == |data|
      ensures ok && cachingMode == WRITE_THROUGH ==> file.synced
      ensures Patched(old(View()), View(), Offset(Address(old(nextSector)), blockSize), data, stored)
    {
      stored := 0;
      if !ready {
        return false, 0;
      }
      var length;
      length, stored := CacheWrite(data, Address(nextSector), sectorTransferCount);
      if length == 0 {
        return false, stored;
      }
      nextSector := nextSector + sectorTransferCount;
      ok := true;
    }

    /** The sectors that are asked for at a time. */
    function ChunkOf(count: nat): nat
      reads this`cachingMode
    {
      if cachingMode == LINUX_OPTIMIZED then count else 1
    }

    /** READ: DATA IN with the first chunk, and more chunks until the controller has sent them all. */
    method Read(mode: AccessMode, cdb: Bytes) returns (r: ReadResult)
      requires Valid() && mode in {RW6, RW10, RW16} && |cdb| >= CdbLength(mode)
      requires StartOf(mode, cdb) + CountOf(mode, cdb) < WORD64 && Covers(CountOf(mode, cdb))
      modifies this`nextSector, this`sectorTransferCount, transfer, file, trackCache,
        if trackCache != null then trackCache.tracks else {}
      ensures Valid() && View() == old(View())
      ensures old(file.failures) <= file.failures
      ensures r.ReadError? && AtOnce(CountOf(mode, cdb)) > 0 ==> old(file.failures) < file.failures
      ensures file.full ==> file.bytes == old(file.bytes)
      ensures trackCache != null ==> fresh(trackCache.tracks - old(trackCache.tracks))
      ensures ReadOutcome(
                CheckRange(ready, blockCount, mode, cdb), View(), StartOf(mode, cdb), CountOf(mode, cdb), blockSize,
                cachingMode == LINUX_OPTIMIZED, r)
    {
      var check := CheckRange(ready, blockCount, mode, cdb);
      if !check.Accepted? {
        return Refused(check);
      }
      if !check.process {
        return Nothing;
      }
      var start, count := StartOf(mode, cdb), CountOf(mode, cdb);
      r := SendSectors(start, count);
    }

    lemma OnMedium(sector: nat)
      requires Valid() && sector <= blockCount
      ensures Offset(sector, blockSize) <= |View()| == |file.bytes|
    {
      OffsetAscends(sector, blockCount, blockSize);
    }

    /** A READ that moves n sectors, k of which were moved. */
    predicate Moved(start: nat, n: nat, k: nat)
      reads this`nextSector, this`sectorTransferCount, this`cachingMode, transfer
    {
      && k <= n && transfer.remainingLength == Offset(n - k, blockSize)
      && (k < n ==>
            && nextSector == start + k && sectorTransferCount == 1 && transfer.chunkSize == blockSize
            && cachingMode != LINUX_OPTIMIZED)
    }

    lemma MovedIs(start: nat, n: nat, k: nat)
      ensures Moved(start, n, k) <==>
                && k <= n && transfer.remainingLength == Offset(n - k, blockSize)
                && (k < n ==>
                      && nextSector == start + k && sectorTransferCount == 1 && transfer.chunkSize == blockSize
                      && cachingMode != LINUX_OPTIMIZED)
    {
      hide Offset;
    }

    /** READ up to the end of its first chunk. */
    method SendFirst(start: nat, count: nat, ghost n: nat) returns (ok: bool, data: Bytes, ghost k: nat)
      requires Valid() && count > 0 && start + count <= blockCount && Covers(count)
      requires n == SectorsMoved(count, blockSize)
      modifies this`nextSector, this`sectorTransferCount, transfer, file, trackCache,
        if trackCache != null then trackCache.tracks else {}
      ensures Valid() && View() == old(View())
      ensures old(file.failures) <= file.failures
      ensures !ok && ready && AtOnce(count) > 0 ==> old(file.failures) < file.failures
      ensures file.full ==> file.bytes == old(file.bytes)
      ensures trackCache != null ==> fresh(trackCache.tracks - old(trackCache.tracks))
      ensures ok ==> Moved(start, n, k) && IsRange(View(), start, k, blockSize, cachingMode == LINUX_OPTIMIZED, data)
      ensures ok && cachingMode == LINUX_OPTIMIZED ==> AsInt(Offset(count, blockSize)) > 0
    {
      hide *;
      nextSector := start;
      sectorTransferCount := ChunkOf(count);
      ChunkIs(count, n);
      ChunkMoves(count);
      k := SectorsMoved(sectorTransferCount, blockSize);
      FirstTransfer(count, n, k, blockSize);
      transfer.SetTransferSize(AsInt(Offset(count, blockSize)), AsInt(Offset(sectorTransferCount, blockSize)));
      transfer.SetCurrentLength(AsInt(Offset(count, blockSize)));
      ok, data := ReadData();
      if ok {
        transfer.SetCurrentLength(|data|);
        transfer.ChunkSent();
        MovedIs(start, n, k);
        OnMedium(start + k);
        FirstRange(View(), start, k, blockSize, cachingMode == LINUX_OPTIMIZED, data);
      }
    }

    /** The first chunk: all sectors that are moved in one piece, or one sector. */
    lemma ChunkIs(count: nat, n: nat)
      requires Valid() && count > 0 && Covers(count) && n == SectorsMoved(count, blockSize)
      ensures 0 < n <= count && 0 < blockSize < 0x8000_0000 && 0 < ChunkOf(count) <= count && Covers(ChunkOf(count))
      ensures SectorsMoved(ChunkOf(count), blockSize) == if cachingMode == LINUX_OPTIMIZED then n else 1
      ensures ChunkOf(count) == if cachingMode == LINUX_OPTIMIZED then count else 1
      ensures trackCache != null <==> cachingMode == PISCSI
      ensures Offset(count, blockSize) < 0x8000_0000 || IsStandardSize(blockSize)
      ensures AsInt(Offset(ChunkOf(count), blockSize)) > 0 ==>
                AsInt(Offset(ChunkOf(count), blockSize)) == Offset(SectorsMoved(ChunkOf(count), blockSize), blockSize)
      ensures cachingMode != LINUX_OPTIMIZED ==> AsInt(Offset(ChunkOf(count), blockSize)) == blockSize
    {
      MovedSectors(count, blockSize);
      SizeBounds();
      MovedSectors(ChunkOf(count), blockSize);
      SmallInt(blockSize);
      hide Offset, AsInt, IsStandardSize;
    }

    /** TransferToHost: another chunk. */
    method SendNext(ghost start: nat, ghost count: nat, ghost k: nat, ghost data: Bytes)
      returns (ok: bool, chunk: Bytes)
      requires Valid() && Moved(start, count, k) && k < count && start + count <= blockCount
      requires IsRange(View(), start, k, blockSize, cachingMode == LINUX_OPTIMIZED, data)
      modifies this`nextSector, transfer, file, trackCache, if trackCache != null then trackCache.tracks else {}
      ensures Valid() && View() == old(View())
      ensures old(file.failures) <= file.failures
      ensures !ok && ready ==> old(file.failures) < file.failures
      ensures file.full ==> file.bytes == old(file.bytes)
      ensures trackCache != null ==> fresh(trackCache.tracks - old(trackCache.tracks))
      ensures ok ==>
                && Moved(start, count, k + 1)
                && IsRange(View(), start, k + 1, blockSize, cachingMode == LINUX_OPTIMIZED, data + chunk)
    {
      hide SectorRange, Offset, DataOf, IsRange, Address, SectorsMoved, AsInt;
      SizeBounds();
      ok, chunk := ReadData();
      if ok {
        OnMedium(start + k + 1);
        NextRange(View(), start, k, blockSize, data, chunk);
        LastChunk(count, k, blockSize);
        transfer.SetCurrentLength(transfer.chunkSize);
        transfer.ResetOffset();
        transfer.ChunkSent();
      }
    }

    lemma WhileMoved(start: nat, n: nat, k: nat)
      requires Valid() && Moved(start, n, k)
      ensures k <= n && transfer.remainingLength == Offset(n - k, blockSize)
      ensures transfer.remainingLength > 0 ==> k < n && Offset(n - (k + 1), blockSize) < Offset(n - k, blockSize)
      ensures transfer.remainingLength <= 0 ==> k == n
    {
      hide Offset;
      NotDone(n, k, blockSize);
      AllDone(n, k, blockSize);
      if k < n {
        NextIsLess(n, k, blockSize);
      }
    }

    lemma PartlyRead(start: nat, n: nat, k: nat, data: Bytes)
      requires Valid() && start + n <= blockCount && k <= n
      requires IsRange(View(), start, k, blockSize, cachingMode == LINUX_OPTIMIZED, data)
      ensures k < n ==> IsRead(View(), start, n, blockSize, cachingMode == LINUX_OPTIMIZED, ReadError(data))
      ensures k == n ==> IsRead(View(), start, n, blockSize, cachingMode == LINUX_OPTIMIZED, Sent(data))
    {
      hide Offset, DataOf;
      OnMedium(start + n);
    }

    /** The controller asks for chunk after chunk. */
    method SendRest(ghost start: nat, ghost n: nat, first: Bytes, ghost k0: nat) returns (r: ReadResult)
      requires Valid() && Moved(start, n, k0) && start + n <= blockCount
      requires IsRange(View(), start, k0, blockSize, cachingMode == LINUX_OPTIMIZED, first)
      modifies this`nextSector, transfer, file, trackCache, if trackCache != null then trackCache.tracks else {}
      ensures Valid() && View() == old(View())
      ensures old(file.failures) <= file.failures
      ensures r.ReadError? && ready ==> old(file.failures) < file.failures
      ensures file.full ==> file.bytes == old(file.bytes)
      ensures trackCache != null ==> fresh(trackCache.tracks - old(trackCache.tracks))
      ensures IsRead(View(), start, n, blockSize, cachingMode == LINUX_OPTIMIZED, r)
    {
      hide *;
      ghost var k := k0;
      var data := first;
      while transfer.remainingLength > 0
        invariant Valid() && View() == old(View()) && Moved(start, n, k)
        invariant trackCache != null ==> fresh(trackCache.tracks - old(trackCache.tracks))
        invariant IsRange(View(), start, k, blockSize, cachingMode == LINUX_OPTIMIZED, data)
        invariant old(file.failures) <= file.failures
        invariant file.full ==> file.bytes == old(file.bytes)
        decreases transfer.remainingLength
      {
        WhileMoved(start, n, k);
        var ok, chunk := SendNext(start, n, k, data);
        if !ok {
          PartlyRead(start, n, k, data);
          return ReadError(data);
        }
        data, k := data + chunk, k + 1;
        WhileMoved(start, n, k);
      }
      WhileMoved(start, n, k);
      PartlyRead(start, n, k, data);
      r := Sent(data);
    }

    method SendSectors(start: nat, count: nat) returns (r: ReadResult)
      requires Valid() && count > 0 && start + count <= blockCount && Covers(count)
      modifies this`nextSector, this`sectorTransferCount, transfer, file, trackCache,
        if trackCache != null then trackCache.tracks else {}
      ensures Valid() && View() == old(View())
      ensures old(file.failures) <= file.failures
      ensures r.ReadError? && ready && AtOnce(count) > 0 ==> old(file.failures) < file.failures
      ensures file.full ==> file.bytes == old(file.bytes)
      ensures trackCache != null ==> fresh(trackCache.tracks - old(trackCache.tracks))
      ensures IsRead(View(), start, SectorsMoved(count, blockSize), blockSize, cachingMode == LINUX_OPTIMIZED, r)
      ensures cachingMode == LINUX_OPTIMIZED && AsInt(Offset(count, blockSize)) <= 0 ==> r == ReadError([])
    {
      ghost var n := SectorsMoved(count, blockSize);
      ChunkIs(count, n);
      OnMedium(start + n);
      NothingRead(View(), start, n, blockSize, cachingMode == LINUX_OPTIMIZED);
      PartlyRead(start, n, 0, []);
      hide *;
      var ok, data;
      ghost var k;
      ok, data, k := SendFirst(start, count, n);
      if !ok {
        return ReadError([]);
      }
      r := SendRest(start, n, data, k);
    }

    /** WRITE: DATA OUT, and the controller hands over chunk after chunk. */
    method Write(mode: AccessMode, cdb: Bytes, data: Bytes) returns (r: WriteResult, ghost stored: nat)
      requires Valid() && mode in {RW6, RW10, RW16} && |cdb| >= CdbLength(mode)
      requires StartOf(mode, cdb) + CountOf(mode, cdb) < WORD64 && Covers(CountOf(mode, cdb))
      requires |data| == Offset(CountOf(mode, cdb), blockSize)
      modifies this`nextSector, this`sectorTransferCount, transfer, file, trackCache,
        if trackCache != null then trackCache.tracks else {}
      ensures Valid() && |View()| == |old(View())|
      ensures old(transfer.failures) <= transfer.failures
      ensures r == Aborted && AtOnce(CountOf(mode, cdb)) >= 0 ==> old(transfer.failures) < transfer.failures
      ensures old(file.failures) <= file.failures
      ensures r == WriteFault ==> old(file.failures) < file.failures
      ensures file.full ==> file.bytes == old(file.bytes)
      ensures trackCache != null ==> fresh(trackCache.tracks - old(trackCache.tracks))
      ensures WriteOutcome(CheckRange(ready, blockCount, mode, cdb), old(View()), View(), StartOf(mode, cdb),
                           CountOf(mode, cdb), blockSize, old(cachingMode) == LINUX_OPTIMIZED, data, r, stored)
      ensures r == Stored ==> transfer.exchanged == old(transfer.exchanged) + stored
      ensures r == Stored && cachingMode == WRITE_THROUGH ==> file.synced
      ensures old(cachingMode) == PISCSI ==> exists k: nat :: k <= CountOf(mode, cdb) && stored == Offset(k, blockSize)
    {
      var check := CheckRange(ready, blockCount, mode, cdb);
      stored := 0;
      var start, count := StartOf(mode, cdb), CountOf(mode, cdb);
      assert Offset(0, blockSize) == 0;
      if !check.Accepted? {
        return NotAccepted(check), 0;
      }
      if !check.process {
        return NothingWritten, 0;
      }
      r, stored := ReceiveSectors(start, count, data);
    }

    /** A WRITE that moves n sectors, k of which were taken over. Without a positive total there is a first
        chunk all the same, unless the sectors are moved in one piece. */
    predicate Expecting(start: nat, n: nat, k: nat)
      reads this`nextSector, this`sectorTransferCount, this`cachingMode, transfer
    {
      && k <= n && (k == n ==> transfer.remainingLength == 0)
      && (k < n ==>
            var c := ChunkOf(n);
            && c in {1, n - k} && nextSector == start + k && 0 < sectorTransferCount
            && (cachingMode == LINUX_OPTIMIZED || sectorTransferCount == 1)
            && nextSector + sectorTransferCount <= blockCount
            && transfer.currentLength == AsInt(Offset(sectorTransferCount, blockSize))
            && transfer.currentLength == Offset(c, blockSize) > 0
            && if transfer.remainingLength > 0 then
                 && transfer.remainingLength == Offset(n - k, blockSize)
                 && transfer.chunkSize == Offset(c, blockSize)
               else k == 0 && n == 1 && transfer.chunkSize == transfer.remainingLength)
    }

    lemma ExpectingIs(start: nat, n: nat, k: nat)
      ensures Expecting(start, n, k) <==>
                && k <= n && (k == n ==> transfer.remainingLength == 0)
                && (k < n ==>
                      var c := ChunkOf(n);
                      && c in {1, n - k} && nextSector == start + k && 0 < sectorTransferCount
                      && (cachingMode == LINUX_OPTIMIZED || sectorTransferCount == 1)
                      && nextSector + sectorTransferCount <= blockCount
                      && transfer.currentLength == AsInt(Offset(sectorTransferCount, blockSize))
                      && transfer.currentLength == Offset(c, blockSize) > 0
                      && if transfer.remainingLength > 0 then
                           && transfer.remainingLength == Offset(n - k, blockSize)
                           && transfer.chunkSize == Offset(c, blockSize)
                         else k == 0 && n == 1 && transfer.chunkSize == transfer.remainingLength)
    {
      hide Offset, AsInt;
    }

    /** The accounting of TransferFromHost. */
    method CountChunk()
      modifies transfer
      ensures transfer.failures == old(transfer.failures) && transfer.exchanged == old(transfer.exchanged)
      ensures var length := Min(old(transfer.chunkSize), old(transfer.remainingLength));
              && transfer.remainingLength
              == (if old(transfer.remainingLength) < length then 0 else old(transfer.remainingLength) - length)
              && transfer.chunkSize == Min(transfer.remainingLength, old(transfer.chunkSize))
              && transfer.currentLength == transfer.chunkSize
    {
      var length := Min(transfer.chunkSize, transfer.remainingLength);
      transfer.UpdateTransferLength(length);
      transfer.SetCurrentLength(transfer.chunkSize);
      transfer.ResetOffset();
    }

    /** TransferFromHost: a chunk, behind those that were received before. */
    method ReceiveNext(data: Bytes, received: nat, ghost start: nat, ghost n: nat, ghost k: nat, ghost before: Bytes)
      returns (ok: bool, ghost stored: nat)
      requires Valid() && Expecting(start, n, k) && k < n && start + n <= blockCount
      requires Offset(n, blockSize) <= |data| && |before| == |View()| && received == Offset(k, blockSize)
      requires IsOverwritten(before, View(), start, k, blockSize, cachingMode == LINUX_OPTIMIZED, data)
      modifies this`nextSector, transfer, file, trackCache, if trackCache != null then trackCache.tracks else {}
      ensures Valid() && |View()| == |before|
      ensures transfer.failures == old(transfer.failures) && transfer.exchanged == old(transfer.exchanged)
      ensures old(file.failures) <= file.failures
      ensures !ok && ready ==> old(file.failures) < file.failures
      ensures file.full ==> file.bytes == old(file.bytes)
      ensures trackCache != null ==> fresh(trackCache.tracks - old(trackCache.tracks))
      ensures ok && cachingMode == WRITE_THROUGH ==> file.synced
      ensures cachingMode == PISCSI ==> stored == Offset(k, blockSize) || stored == Offset(k + 1, blockSize)
      ensures Landed(before, View(), start, n, blockSize, cachingMode == LINUX_OPTIMIZED, data, stored)
      ensures ok ==>
                var c := ChunkOf(n);
                && IsOverwritten(before, View(), start, k + c, blockSize, cachingMode == LINUX_OPTIMIZED, data)
                && Expecting(start, n, k + c) && stored == Offset(k + c, blockSize) <= |data|
    {
      hide *;
      ExpectingIs(start, n, k);
      ghost var c := ChunkOf(n);
      CacheIs(n);
      OnMedium(start + n);
      ChunkInData(start, n, k, c, blockSize);
      var buf := data[received..received + transfer.currentLength];
      transfer.UpdateOffsetAndLength();
      ghost var middle := View();
      ghost var s;
      ok, s := WriteData(buf);
      stored := Offset(k, blockSize) + s;
      ChunkLands(before, middle, View(), start, n, k, c, blockSize, cachingMode == LINUX_OPTIMIZED, data, buf, s);
      if ok {
        MinIs(transfer.chunkSize, transfer.remainingLength);
        CountChunk();
        MinIs(transfer.remainingLength, Offset(c, blockSize));
        ExpectingIs(start, n, k + c);
      }
    }

    lemma CacheIs(n: nat)
      requires Valid()
      ensures blockSize > 0 && (trackCache != null <==> cachingMode == PISCSI)
      ensures ChunkOf(n) == if cachingMode == LINUX_OPTIMIZED then n else 1
    {
    }

    /** WriteVerify */
    method ReceiveSectors(start: nat, count: nat, data: Bytes) returns (r: WriteResult, ghost stored: nat)
      requires Valid() && count > 0 && start + count <= blockCount && |data| == Offset(count, blockSize)
               && Covers(count)
      modifies this`nextSector, this`sectorTransferCount, transfer, file, trackCache,
        if trackCache != null then trackCache.tracks else {}
      ensures Valid() && |View()| == |old(View())|
      ensures old(transfer.failures) <= transfer.failures
      ensures r == Aborted && AtOnce(count) >= 0 ==> old(transfer.failures) < transfer.failures
      ensures old(file.failures) <= file.failures
      ensures r == WriteFault && ready ==> old(file.failures) < file.failures
      ensures file.full ==> file.bytes == old(file.bytes)
      ensures trackCache != null ==> fresh(trackCache.tracks - old(trackCache.tracks))
      ensures IsWrite(old(View()), View(), start, count, blockSize, old(cachingMode) == LINUX_OPTIMIZED, data, r,
                      stored)
      ensures r == Stored ==> transfer.exchanged == old(transfer.exchanged) + stored
      ensures r == Stored && cachingMode == WRITE_THROUGH ==> file.synced
      ensures cachingMode == PISCSI ==> exists k: nat :: k <= count && stored == Offset(k, blockSize)
    {
      hide *;
      SizeBounds();
      ghost var n := SectorsMoved(count, blockSize);
      CacheIs(n);
      ChunkIs(count, n);
      ChunkMoves(count);
      nextSector := start;
      sectorTransferCount := ChunkOf(count);
      transfer.SetTransferSize(AsInt(Offset(count, blockSize)), AsInt(Offset(sectorTransferCount, blockSize)));
      transfer.SetCurrentLength(AsInt(Offset(sectorTransferCount, blockSize)));
      if transfer.currentLength <= 0 {
        OnMedium(start);
        NothingAtOnce(View(), start, count, blockSize, data);
        var moved := transfer.HandShake(transfer.currentLength);
        return if moved == transfer.currentLength then Stored else Aborted, 0;
      }
      FirstWrite(count, n, ChunkOf(n), blockSize);
      ExpectingIs(start, n, 0);
      r, stored := ReceiveChunks(start, count, data);
    }

    /** The controller receives chunk after chunk. */
    method ReceiveChunks(ghost start: nat, ghost count: nat, data: Bytes) returns (r: WriteResult, ghost stored: nat)
      requires Valid() && count > 0 && start + count <= blockCount && |data| == Offset(count, blockSize)
      requires Covers(count) && Expecting(start, SectorsMoved(count, blockSize), 0)
      requires cachingMode == LINUX_OPTIMIZED ==> AsInt(Offset(count, blockSize)) > 0
      modifies this`nextSector, transfer, file, trackCache, if trackCache != null then trackCache.tracks else {}
      ensures Valid() && |View()| == |old(View())|
      ensures old(transfer.failures) <= transfer.failures
      ensures r == Aborted ==> old(transfer.failures) < transfer.failures
      ensures old(file.failures) <= file.failures
      ensures r == WriteFault && ready ==> old(file.failures) < file.failures
      ensures file.full ==> file.bytes == old(file.bytes)
      ensures trackCache != null ==> fresh(trackCache.tracks - old(trackCache.tracks))
      ensures IsWrite(old(View()), View(), start, count, blockSize, old(cachingMode) == LINUX_OPTIMIZED, data, r,
                      stored)
      ensures r == Stored ==> transfer.exchanged == old(transfer.exchanged) + stored
      ensures r == Stored && cachingMode == WRITE_THROUGH ==> file.synced
      ensures cachingMode == PISCSI ==> exists k: nat :: k <= count && stored == Offset(k, blockSize)
    {
      hide *;
      SizeBounds();
      ghost var n, whole, before := SectorsMoved(count, blockSize), cachingMode == LINUX_OPTIMIZED, View();
      CacheIs(n);
      ChunkIs(count, n);
      OffsetAscends(n, count, blockSize);
      OnMedium(start + n);
      NothingOverwritten(before, start, n, blockSize, whole, data);
      NothingLanded(before, start, n, blockSize, whole, data);
      ghost var k: nat := 0;
      var first, received := true, 0;
      stored := 0;
      while first || transfer.remainingLength > 0
        invariant Valid() && |View()| == |before| && Expecting(start, n, k)
        invariant trackCache != null ==> fresh(trackCache.tracks - old(trackCache.tracks))
        invariant k <= n && (first <==> k == 0)
        invariant received == stored == Offset(k, blockSize)
        invariant transfer.exchanged == old(transfer.exchanged) + received
        invariant old(file.failures) <= file.failures && old(transfer.failures) <= transfer.failures
        invariant file.full ==> file.bytes == old(file.bytes)
        invariant !first && cachingMode == WRITE_THROUGH ==> file.synced
        invariant IsOverwritten(before, View(), start, k, blockSize, whole, data)
        invariant Landed(before, View(), start, n, blockSize, whole, data, stored)
        decreases n - k
      {
        ExpectingIs(start, n, k);
        var length := transfer.currentLength;
        var moved := transfer.HandShake(length);
        if moved != length {
          WriteEnds(before, View(), start, count, blockSize, whole, data, Aborted, stored);
          return Aborted, stored;
        }
        ExpectingIs(start, n, k);
        var ok;
        ghost var s;
        ok, s := ReceiveNext(data, received, start, n, k, before);
        stored := s;
        if !ok {
          WriteEnds(before, View(), start, count, blockSize, whole, data, WriteFault, stored);
          return WriteFault, s;
        }
        first, received := false, received + length;
        OffsetSum(k, ChunkOf(n), blockSize);
        k := k + ChunkOf(n);
        ExpectingIs(start, n, k);
      }
      ExpectingIs(start, n, k);
      WriteEnds(before, View(), start, count, blockSize, whole, data, Stored, stored);
      r := Stored;
    }

    // READ LONG and the switch of the caching mode

    /** FlushCache. The commands that call it do not look at the result. */
    method FlushCache() returns (ok: bool)
      requires Valid()
      modifies file, if trackCache != null then trackCache.tracks else {}
      ensures Valid() && View() == old(View())
      ensures old(file.failures) <= file.failures
      ensures !ok && ready ==> old(file.failures) < file.failures
      ensures file.full ==> file.bytes == old(file.bytes)
      ensures ok ==> file.bytes == View() && (linuxCache != null ==> file.synced)
      ensures trackCache != null ==> forall p: nat :: trackCache.Pending(p) ==> old(trackCache.Pending(p))
    {
      ok := false;
      if ready {
        if trackCache != null {
          ok := trackCache.Flush();
        } else {
          ok := linuxCache.Flush();
        }
      }
    }

    /** The long commands replace the track cache, after a flush whose result is ignored. The medium survives
        this if the flush succeeds, and whatever the flush does if nothing is unsaved. On a full file it
        survives if and only if the file shows it already. */
    method UseLinuxCache() returns (ghost flushed: bool)
      requires Valid()
      modifies this`cachingMode, this`trackCache, this`linuxCache, file, if trackCache != null then trackCache.tracks
        else {}
      ensures Valid() && trackCache == null && View() == file.bytes
      ensures old(file.failures) <= file.failures
      ensures !flushed && ready ==> old(file.failures) < file.failures
      ensures file.full ==> file.bytes == old(file.bytes)
      ensures old(trackCache) == null ==> View() == old(View()) && cachingMode == old(cachingMode)
      ensures flushed ==> View() == old(View())
      ensures old(trackCache) != null ==> cachingMode == LINUX && |View()| == |old(View())|
      ensures old(trackCache) != null ==> forall p: nat ::
                p < |View()| && View()[p] != old(View())[p] ==> !flushed && old(trackCache.Pending(p))
      ensures old(trackCache) != null && (forall p: nat :: p < |View()| ==> !old(trackCache.Pending(p))) ==>
                View() == old(View())
      ensures file.full ==> (View() == old(View()) <==> old(View()) == old(file.bytes))
    {
      flushed := true;
      if linuxCache == null {
        var ok := FlushCache();
        flushed := ok;
        cachingMode := LINUX;
        linuxCache := new LinuxCache(file, blockSize, blockCount, false);
        trackCache := null;
      }
    }

    /** READ LONG */
    method ReadLong(sector: nat, length: nat) returns (r: ReadResult, ghost flushed: bool)
      requires Valid()
      modifies this`cachingMode, this`trackCache, this`linuxCache, file, transfer,
        if trackCache != null then trackCache.tracks else {}
      ensures Valid() && (flushed ==> View() == old(View()))
      ensures old(file.failures) <= file.failures
      ensures r.ReadError? ==> old(file.failures) < file.failures
      ensures file.full ==> file.bytes == old(file.bytes)
      ensures !ready ==> r == Refused(NotReady)
      ensures ready && sector >= blockCount ==> r == Refused(OutOfRange)
      ensures r.Sent? ==>
                && length == blockSize && sector < blockCount && Offset(sector + 1, blockSize) <= |View()|
                && r.data == SectorAt(View(), sector, blockSize)
      ensures ready && sector < blockCount && length == 0 ==> r == Nothing
      ensures ready && sector < blockCount && length != 0 && length != blockSize ==> r == Refused(Accepted(false))
      ensures r.Sent? || r.ReadError? ==> View() == file.bytes
      ensures ready && sector < blockCount && length == blockSize ==> r.Sent? || r.ReadError?
      ensures r.Refused? || r == Nothing ==> flushed && cachingMode == old(cachingMode)
    {
      flushed := true;
      if !ready {
        return Refused(NotReady), true;
      }
      if sector >= blockCount {
        return Refused(OutOfRange), true;
      }
      if length == 0 {
        return Nothing, true;
      }
      if length != blockSize {
        return Refused(Accepted(false)), true;
      }
      flushed := UseLinuxCache();
      transfer.SetTransferSize(length, length);
      transfer.SetCurrentLength(length);
      var n, data := linuxCache.ReadLong(sector, length);
      r := if n != 0 then Sent(data) else ReadError([]);
    }
  }

  /** A sector that was stored with success is lost by READ LONG: the cached sector cannot be saved, and the
      drive goes on with the old contents of the file. */
  method LoseSector(disk: Disk, cdb: Bytes, data: Bytes)
    returns (w: WriteResult, r: ReadResult, ghost written: Bytes, ghost flushed: bool)
    requires disk.Valid() && disk.ready && disk.cachingMode == PISCSI && disk.file.full && |cdb| == 10
    requires CountOf(RW10, cdb) == 1 && StartOf(RW10, cdb) < disk.blockCount
    requires Offset(StartOf(RW10, cdb) + 1, disk.blockSize) <= |disk.file.bytes|
    requires |data| == disk.blockSize && data != SectorAt(disk.file.bytes, StartOf(RW10, cdb), disk.blockSize)
    modifies disk, disk.transfer, disk.file, disk.trackCache, disk.trackCache.tracks
    ensures disk.Valid() && |written| == |disk.View()| == |old(disk.file.bytes)|
    ensures w == Stored ==>
              var n, size := StartOf(RW10, cdb), disk.blockSize;
              && SectorAt(written, n, size) == data && !flushed
              && disk.View() == old(disk.file.bytes) && SectorAt(disk.View(), n, size) != data
              && (r.ReadError? || r == Sent(SectorAt(old(disk.file.bytes), n, size)))
  {
    var n, size := StartOf(RW10, cdb), disk.blockSize;
    hide *;
    disk.SizeBounds();
    ghost var before := disk.View();
    OneIsAccepted(disk.ready, disk.blockCount, cdb, size);
    ghost var stored;
    w, stored := disk.Write(RW10, cdb, data);
    written := disk.View();
    if w == Stored {
      OneIsStored(disk.ready, disk.blockCount, cdb, before, written, size, data, stored);
    }
    r, flushed := disk.ReadLong(n, size);
  }

  /** A WRITE(10) of one sector on the medium. */
  lemma OneIsAccepted(ready: bool, capacity: nat, cdb: Bytes, size: nat)
    requires ready && |cdb| == 10 && CountOf(RW10, cdb) == 1 && StartOf(RW10, cdb) < capacity
    ensures |cdb| >= CdbLength(RW10) && StartOf(RW10, cdb) + CountOf(RW10, cdb) < WORD64 && Offset(1, size) == size
    ensures CheckRange(ready, capacity, RW10, cdb) == Accepted(true)
    ensures RW10 in {RW6, RW10, RW16}
  {
    OneOffset(size);
    hide Offset;
  }

  lemma OneIsStored(ready: bool, capacity: nat, cdb: Bytes, before: Bytes, after: Bytes, size: nat, data: Bytes,
                    stored: nat)
    requires ready && |cdb| == 10 && CountOf(RW10, cdb) == 1 && StartOf(RW10, cdb) < capacity
    requires 0 < size < 0x8000_0000 && |data| == size
    requires WriteOutcome(CheckRange(ready, capacity, RW10, cdb), before, after, StartOf(RW10, cdb),
                          CountOf(RW10, cdb), size, false, data, Stored, stored)
    ensures Offset(StartOf(RW10, cdb) + 1, size) <= |after| == |before|
    ensures SectorAt(after, StartOf(RW10, cdb), size) == data
  {
    hide CountOf, StartOf, CheckRange, SectorsMoved, Landed, Overwrite, Address, Splice, SectorAt, Offset;
    var n := StartOf(RW10, cdb);
    OneIsAccepted(ready, capacity, cdb, size);
    OneSectorMoved(size);
    StartIsShort(cdb);
    OwnAddress(n);
    SingleSector(before, n, size, false, data);
    SplicedSector(before, n, size, data);
  }

  lemma StartIsShort(cdb: Bytes)
    requires |cdb| == 10
    ensures StartOf(RW10, cdb) < WORD32
  {
  }

  lemma OneSectorMoved(size: nat)
    requires 0 < size < 0x8000_0000
    ensures Offset(1, size) == size && SectorsMoved(1, size) == 1
  {
    OneOffset(size);
  }

  lemma SplicedSector(f: Bytes, n: nat, size: nat, data: Bytes)
    requires |data| == size && Offset(n, size) + size <= |f|
    ensures Offset(n + 1, size) == Offset(n, size) + size
    ensures SectorAt(Splice(f, Offset(n, size), data), n, size) == data
  {
  }

  lemma TrackOnMedium(sector: nat, blocks: nat)
    requires sector < blocks
    ensures sector / SECTORS_PER_TRACK * SECTORS_PER_TRACK < blocks
  {
  }

  /** The bytes of k sectors from `start` on as the caches find them: each at its address, or all of them
      behind the address of the first one if they are moved in one piece. */
  ghost function DataOf(view: Bytes, start: nat, k: nat, size: nat, whole: bool): (r: Bytes)
    requires Offset(start + k, size) <= |view|
    decreases k
  {
    AddressFits(view, start, k, size);
    if whole then SectorRange(view, Address(start), k, size)
    else if k == 0 then []
    else DataOf(view, start, k - 1, size, whole) + SectorAt(view, Address(start + k - 1), size)
  }

  lemma AddressFits(view: Bytes, start: nat, k: nat, size: nat)
    requires Offset(start + k, size) <= |view|
    ensures Offset(Address(start) + k, size) <= |view|
    ensures k > 0 ==> Offset(start + k - 1, size) <= |view| && Offset(Address(start + k - 1) + 1, size) <= |view|
  {
    OffsetAscends(Address(start) + k, start + k, size);
    if k > 0 {
      OffsetAscends(start + k - 1, start + k, size);
      OffsetAscends(Address(start + k - 1) + 1, start + k, size);
    }
  }

  /** What a READ of some sectors sends: all of them, or those before a medium error. */
  ghost predicate IsRead(view: Bytes, start: nat, count: nat, size: nat, whole: bool, r: ReadResult) {
    && Offset(start + count, size) <= |view|
    && match r
       case Sent(data) => data == DataOf(view, start, count, size, whole)
       case ReadError(data) => exists k: nat :: k < count && IsRange(view, start, k, size, whole, data)
       case _ => false
  }

  ghost predicate IsRange(view: Bytes, start: nat, k: nat, size: nat, whole: bool, data: Bytes) {
    Offset(start + k, size) <= |view| && data == DataOf(view, start, k, size, whole)
  }

  /** The result of a READ for the check of its range. */
  ghost predicate ReadOutcome(check: Check, view: Bytes, start: nat, count: nat, size: nat, whole: bool, r: ReadResult)
    requires size > 0
  {
    match check
    case NotReady => r == Refused(check)
    case OutOfRange => r == Refused(check)
    case Accepted(process) =>
      if process then
        && IsRead(view, start, SectorsMoved(count, size), size, whole, r)
        && (whole && AsInt(Offset(count, size)) <= 0 ==> r == ReadError([]))
      else r == Nothing
  }

  lemma NothingRead(view: Bytes, start: nat, count: nat, size: nat, whole: bool)
    requires Offset(start + count, size) <= |view|
    ensures IsRange(view, start, 0, size, whole, [])
  {
    OffsetAscends(start, start + count, size);
    assert Offset(0, size) == 0;
    hide Offset;
  }

  lemma FirstRange(view: Bytes, start: nat, k: nat, size: nat, whole: bool, data: Bytes)
    requires Offset(start + k, size) <= |view| && (whole || k == 1)
    requires Offset(Address(start) + k, size) <= |view| && data == SectorRange(view, Address(start), k, size)
    ensures IsRange(view, start, k, size, whole, data)
  {
    if !whole {
      OneSector(view, Address(start), size);
      assert DataOf(view, start, 0, size, whole) == [];
      hide SectorRange, Offset;
      assert [] + data == data;
    }
  }

  lemma NextRange(view: Bytes, start: nat, k: nat, size: nat, data: Bytes, chunk: Bytes)
    requires IsRange(view, start, k, size, false, data) && Offset(start + k + 1, size) <= |view|
    requires Offset(Address(start + k) + 1, size) <= |view|
    requires chunk == SectorRange(view, Address(start + k), 1, size)
    ensures IsRange(view, start, k + 1, size, false, data + chunk)
  {
    hide SectorRange, Offset, Address;
    OneSector(view, Address(start + k), size);
  }

  // Addresses of more than 32 bits

  /** The last of n sectors is set, and the others are not. */
  function LastSector(start: nat, n: nat, size: nat): (view: Bytes)
    requires n > 0
  {
    seq(Offset(start + n, size), p => if p < Offset(start + n - 1, size) then 0 else 1)
  }

  /** A READ sends the sectors that were asked for on any medium if and only if its addresses are not cut. */
  lemma ReadAsAskedOnly(start: nat, n: nat, size: nat, whole: bool)
    requires size > 0
    ensures (forall view: Bytes :: Offset(start + n, size) <= |view| ==>
               DataOf(view, start, n, size, whole) == SectorRange(view, start, n, size))
            <==> Addressable(start, n, whole)
  {
    if Addressable(start, n, whole) {
      forall view: Bytes | Offset(start + n, size) <= |view|
        ensures DataOf(view, start, n, size, whole) == SectorRange(view, start, n, size)
      {
        ReadAsAsked(view, start, n, size, whole);
      }
    } else {
      CutAddress(start, n, size, whole);
    }
  }

  lemma CutAddress(start: nat, n: nat, size: nat, whole: bool)
    requires size > 0 && n > 0 && !Addressable(start, n, whole)
    ensures var view := LastSector(start, n, size);
            && |view| == Offset(start + n, size)
            && DataOf(view, start, n, size, whole) != SectorRange(view, start, n, size)
  {
    hide *;
    CutEnd(start, n, size, whole);
    LastSectorIs(start, n, size);
    LastByte(LastSector(start, n, size), start, n, size, whole);
  }

  /** Behind the last byte that is sent. */
  function EndOf(start: nat, n: nat, size: nat, whole: bool): nat
    requires n > 0
  {
    if whole then Offset(Address(start) + n, size) else Offset(Address(start + n - 1) + 1, size)
  }

  lemma CutEnd(start: nat, n: nat, size: nat, whole: bool)
    requires size > 0 && n > 0 && !Addressable(start, n, whole)
    ensures EndOf(start, n, size, whole) <= Offset(start + n - 1, size) < Offset(start + n, size)
  {
    if whole {
      OffsetAscends(Address(start) + n, start + n - 1, size);
    } else {
      OffsetAscends(Address(start + n - 1) + 1, start + n - 1, size);
    }
  }

  lemma LastSectorIs(start: nat, n: nat, size: nat)
    requires n > 0
    ensures var view := LastSector(start, n, size);
            && |view| == Offset(start + n, size)
            && forall p :: 0 <= p < |view| ==> view[p] == if p < Offset(start + n - 1, size) then 0 else 1
  {
    hide Offset;
  }

  lemma LastByte(view: Bytes, start: nat, n: nat, size: nat, whole: bool)
    requires size > 0 && n > 0 && Offset(start + n, size) <= |view|
    ensures var d, r := DataOf(view, start, n, size, whole), SectorRange(view, start, n, size);
            var end := EndOf(start, n, size, whole);
            && |d| > 0 && |r| > 0 && 0 < end <= |view| && 0 < Offset(start + n, size)
            && d[|d| - 1] == view[end - 1] && r[|r| - 1] == view[Offset(start + n, size) - 1]
  {
    hide *;
    EndIs(start, n, size, whole);
    LastOf(view, start, n, size);
    if whole {
      DataWhole(view, start, n, size);
      LastOf(view, Address(start), n, size);
    } else {
      DataStep(view, start, n, size);
      LastOf(view, Address(start + n - 1), 1, size);
      OneSector(view, Address(start + n - 1), size);
    }
  }

  lemma EndIs(start: nat, n: nat, size: nat, whole: bool)
    requires n > 0
    ensures EndOf(start, n, size, whole)
         == if whole then Offset(Address(start) + n, size) else Offset(Address(start + n - 1) + 1, size)
  {
  }

  lemma LastOf(view: Bytes, start: nat, n: nat, size: nat)
    requires size > 0 && n > 0 && Offset(start + n, size) <= |view|
    ensures var r := SectorRange(view, start, n, size);
            |r| > 0 && 0 < Offset(start + n, size) <= |view| && r[|r| - 1] == view[Offset(start + n, size) - 1]
  {
    OffsetSum(start, n, size);
    OneOffset(size);
    OffsetAscends(1, n, size);
  }

  /** A transfer whose addresses are not cut. */
  predicate Addressable(start: nat, n: nat, whole: bool) {
    n == 0 || (if whole then start < WORD32 else start + n <= WORD32)
  }

  lemma DataStep(view: Bytes, start: nat, n: nat, size: nat)
    requires n > 0 && Offset(start + n, size) <= |view|
    ensures Offset(start + n - 1, size) <= |view| && Offset(Address(start + n - 1) + 1, size) <= |view|
    ensures DataOf(view, start, n, size, false)
         == DataOf(view, start, n - 1, size, false) + SectorAt(view, Address(start + n - 1), size)
  {
    AddressFits(view, start, n, size);
    hide Offset, Address, SectorAt;
  }

  lemma DataWhole(view: Bytes, start: nat, n: nat, size: nat)
    requires Offset(start + n, size) <= |view|
    ensures Offset(Address(start) + n, size) <= |view|
    ensures DataOf(view, start, n, size, true) == SectorRange(view, Address(start), n, size)
  {
    AddressFits(view, start, n, size);
    hide Offset, Address, SectorRange;
  }

  lemma NoData(view: Bytes, start: nat, size: nat, whole: bool)
    requires Offset(start, size) <= |view|
    ensures DataOf(view, start, 0, size, whole) == SectorRange(view, start, 0, size) == []
  {
    AddressFits(view, start, 0, size);
    assert Offset(0, size) == 0;
    hide Offset, Address;
  }

  /** Such a READ sends the sectors that were asked for. */
  lemma {:induction false} ReadAsAsked(view: Bytes, start: nat, n: nat, size: nat, whole: bool)
    requires Offset(start + n, size) <= |view| && Addressable(start, n, whole)
    ensures DataOf(view, start, n, size, whole) == SectorRange(view, start, n, size)
    decreases n
  {
    hide *;
    AddressableIs(start, n, whole);
    if n == 0 {
      NoData(view, start, size, whole);
    } else if whole {
      OwnAddress(start);
      DataWhole(view, start, n, size);
    } else {
      OwnAddress(start + n - 1);
      AddressableIs(start, n - 1, whole);
      DataStep(view, start, n, size);
      ReadAsAsked(view, start, n - 1, size, whole);
      OneSector(view, start + n - 1, size);
      RangeJoins(view, start, n - 1, 1, size);
    }
  }

  lemma SmallInt(n: nat)
    requires n < 0x8000_0000
    ensures AsInt(n) == n
  {
  }

  /** What was read for a length in bytes are the sectors that are moved. */
  lemma RangeOfLength(f: Bytes, start: nat, count: nat, size: nat)
    requires 0 < count && 0 < size < 0x8000_0000 && AsInt(Offset(count, size)) > 0
    requires Offset(count, size) < 0x8000_0000 || IsStandardSize(size)
    requires Offset(start, size) + AsInt(Offset(count, size)) <= |f|
    ensures var n := SectorsMoved(count, size);
            && AsInt(Offset(count, size)) == Offset(n, size) && Offset(start + n, size) <= |f|
            && f[Offset(start, size)..Offset(start, size) + AsInt(Offset(count, size))]
               == SectorRange(f, start, n, size)
  {
    MovedSectors(count, size);
    OffsetSum(start, SectorsMoved(count, size), size);
    hide Offset, AsInt, SectorsMoved;
  }

  /** The accounting of the first chunk of a READ. */
  lemma FirstTransfer(count: nat, n: nat, k: nat, size: nat)
    requires count > 0 && 0 < size < 0x8000_0000 && n == SectorsMoved(count, size)
    requires Offset(count, size) < 0x8000_0000 || IsStandardSize(size)
    requires k in {1, n}
    ensures k <= n <= count
    ensures var total, chunk := AsInt(Offset(count, size)), Offset(k, size);
            var first := if total < chunk then total else chunk;
            var rest := if total < first then 0 else total - first;
            && rest == Offset(n - k, size)
            && (k < n ==> k == 1 && (if rest < first then rest else first) == size)
  {
    MovedSectors(count, size);
    OneOffset(size);
    FirstChunk(n, k, size);
    assert Offset(0, size) == 0;
    hide Offset, IsStandardSize;
  }

  /** The accounting of a WRITE before its first chunk. */
  lemma FirstWrite(count: nat, n: nat, c: nat, size: nat)
    requires count > 0 && 0 < size < 0x8000_0000 && n == SectorsMoved(count, size)
    requires Offset(count, size) < 0x8000_0000 || IsStandardSize(size)
    requires c in {1, n} && (c == 1 || AsInt(Offset(count, size)) > 0)
    ensures c <= n && Offset(0, size) == 0 && Offset(c, size) > 0
    ensures var total := AsInt(Offset(count, size));
            if total > 0 then total == Offset(n, size) >= Offset(c, size) else n == 1 && total < Offset(c, size)
  {
    MovedSectors(count, size);
    OneOffset(size);
    OffsetAscends(1, c, size);
    OffsetAscends(c, n, size);
  }

  lemma FirstChunk(count: nat, k: nat, size: nat)
    requires count > 0 && k in {1, count}
    ensures k <= count && Offset(count, size) == Offset(count - k, size) + Offset(k, size)
    ensures k < count ==> k == 1 && Offset(1, size) == size <= Offset(count - k, size)
  {
    OffsetSum(count - k, k, size);
    OneOffset(size);
    if k < count {
      OffsetAscends(1, count - k, size);
    }
  }

  lemma LastChunk(count: nat, k: nat, size: nat)
    requires k < count
    ensures Offset(count - k, size) == Offset(count - (k + 1), size) + size
    ensures k + 1 < count ==> size <= Offset(count - (k + 1), size)
  {
    if k + 1 < count {
      OneOffset(size);
      OffsetAscends(1, count - (k + 1), size);
    }
  }

  lemma NextIsLess(count: nat, k: nat, size: nat)
    requires k < count && size > 0
    ensures Offset(count - (k + 1), size) < Offset(count - k, size)
  {
  }

  lemma NotDone(count: nat, k: nat, size: nat)
    requires k <= count
    ensures Offset(count - k, size) > 0 ==> k < count
  {
  }

  lemma AllDone(count: nat, k: nat, size: nat)
    requires k <= count && size > 0
    ensures Offset(count - k, size) <= 0 ==> k == count
  {
    if k < count {
      OffsetAscends(1, count - k, size);
      OneOffset(size);
    }
  }

  /** The medium behind a WRITE of k sectors, each at its address, or behind the address of the first one. */
  ghost function Overwrite(f: Bytes, start: nat, k: nat, size: nat, whole: bool, data: Bytes): (r: Bytes)
    requires Offset(start + k, size) <= |f| && Offset(k, size) <= |data|
    ensures |r| == |f|
    decreases k
  {
    AddressFits(f, start, k, size);
    OffsetSum(Address(start), k, size);
    if whole then Splice(f, Offset(Address(start), size), data[..Offset(k, size)])
    else if k == 0 then f
    else
      Splice(Overwrite(f, start, k - 1, size, whole, data), Offset(Address(start + k - 1), size),
             data[Offset(k - 1, size)..Offset(k, size)])
  }

  ghost predicate IsOverwritten(
      before: Bytes, after: Bytes, start: nat, k: nat, size: nat, whole: bool, data: Bytes) {
    && Offset(start + k, size) <= |before| && Offset(k, size) <= |data|
    && after == Overwrite(before, start, k, size, whole, data)
  }

  /** Behind k sectors, s bytes of the next chunk of c sectors were stored. */
  ghost predicate IsTorn(
      before: Bytes, after: Bytes, start: nat, k: nat, c: nat, size: nat, whole: bool, data: Bytes, s: nat) {
    && Offset(k, size) <= Offset(k + c, size) <= |data|
    && Offset(start + k, size) <= |before|
    && Patched(Overwrite(before, start, k, size, whole, data), after, Offset(Address(start + k), size),
               data[Offset(k, size)..Offset(k + c, size)], s)
  }

  /** `stored` bytes of a WRITE of n sectors have reached the medium, and nothing else has changed. */
  ghost predicate Landed(
      before: Bytes, after: Bytes, start: nat, n: nat, size: nat, whole: bool, data: Bytes, stored: nat) {
    var c := if whole then n else 1;
    exists k: nat, s: nat ::
      k + c <= n && stored == Offset(k, size) + s && IsTorn(before, after, start, k, c, size, whole, data, s)
  }

  lemma NothingOverwritten(f: Bytes, start: nat, n: nat, size: nat, whole: bool, data: Bytes)
    requires Offset(start + n, size) <= |f|
    ensures Offset(0, size) == 0 && IsOverwritten(f, f, start, 0, size, whole, data)
  {
    OffsetAscends(start, start + n, size);
    AddressFits(f, start, 0, size);
    NoSplice(f, Offset(Address(start), size));
    assert Offset(0, size) == 0;
    assert data[..0] == [];
    hide Offset, Splice;
  }

  lemma ChunkLands(before: Bytes, middle: Bytes, after: Bytes, start: nat, n: nat, k: nat, c: nat, size: nat,
                   whole: bool, data: Bytes, buf: Bytes, s: nat)
    requires IsOverwritten(before, middle, start, k, size, whole, data) && Offset(start + n, size) <= |before|
    requires k + c <= n && c == (if whole then n else 1) && Offset(n, size) <= |data|
    requires Offset(k, size) <= Offset(k + c, size) <= |data| && buf == data[Offset(k, size)..Offset(k + c, size)]
    requires Patched(middle, after, Offset(Address(start + k), size), buf, s)
    ensures Landed(before, after, start, n, size, whole, data, Offset(k, size) + s)
    ensures s == |buf| && c > 0 ==> IsOverwritten(before, after, start, k + c, size, whole, data)
  {
    assert IsTorn(before, after, start, k, c, size, whole, data, s);
    if s == |buf| && c > 0 {
      LastChunkLands(before, middle, after, start, n, k, c, size, whole, data, buf);
    }
  }

  lemma LastChunkLands(before: Bytes, middle: Bytes, after: Bytes, start: nat, n: nat, k: nat, c: nat, size: nat,
                       whole: bool, data: Bytes, buf: Bytes)
    requires IsOverwritten(before, middle, start, k, size, whole, data) && Offset(start + n, size) <= |before|
    requires 0 < c && k + c <= n && c == (if whole then n else 1) && Offset(n, size) <= |data|
    requires Offset(k, size) <= Offset(k + c, size) <= |data| && buf == data[Offset(k, size)..Offset(k + c, size)]
    requires Patched(middle, after, Offset(Address(start + k), size), buf, |buf|)
    ensures IsOverwritten(before, after, start, k + c, size, whole, data)
  {
    hide Patched, Offset, Splice, Address;
    OffsetAscends(start + k + c, start + n, size);
    AddressFits(before, start, k + c, size);
    if whole {
      OffsetAscends(Address(start), Address(start) + n, size);
      OffsetSum(Address(start), n, size);
      AllPatched(middle, after, Offset(Address(start), size), buf);
      WholeLands(before, middle, after, start, n, size, data);
    } else {
      OffsetAscends(Address(start + k), Address(start + k) + 1, size);
      AllPatched(middle, after, Offset(Address(start + k), size), buf);
    }
  }

  lemma WholeLands(before: Bytes, middle: Bytes, after: Bytes, start: nat, n: nat, size: nat, data: Bytes)
    requires IsOverwritten(before, middle, start, 0, size, true, data)
    requires Offset(start + n, size) <= |before| && Offset(n, size) <= |data|
    requires Offset(Address(start), size) + Offset(n, size) <= |middle|
    requires after == Splice(middle, Offset(Address(start), size), data[Offset(0, size)..Offset(n, size)])
    ensures IsOverwritten(before, after, start, n, size, true, data)
  {
    assert Offset(0, size) == 0;
    assert data[..0] == [];
    assert data[0..Offset(n, size)] == data[..Offset(n, size)];
    hide Offset, Splice, Address;
    NoSplice(before, Offset(Address(start), size));
  }

  lemma AllPatched(before: Bytes, after: Bytes, pos: nat, data: Bytes)
    requires Patched(before, after, pos, data, |data|) && (data != [] || pos <= |before|)
    ensures pos + |data| <= |before| && after == Splice(before, pos, data)
  {
    assert data[..|data|] == data;
    if data == [] {
      NoSplice(before, pos);
    }
  }

  lemma OverwriteStep(f: Bytes, start: nat, n: nat, size: nat, data: Bytes)
    requires n > 0 && Offset(start + n, size) <= |f| && Offset(n, size) <= |data|
    ensures Offset(start + n - 1, size) + size == Offset(start + n, size)
    ensures Offset(n - 1, size) + size == Offset(n, size)
    ensures Offset(Address(start + n - 1), size) + size <= |f|
    ensures Overwrite(f, start, n, size, false, data)
         == Splice(Overwrite(f, start, n - 1, size, false, data), Offset(Address(start + n - 1), size),
                   data[Offset(n - 1, size)..Offset(n, size)])
  {
    AddressFits(f, start, n, size);
    assert Offset(start + n, size) == Offset(start + n - 1, size) + size;
    assert Offset(n, size) == Offset(n - 1, size) + size;
    assert Offset(Address(start + n - 1) + 1, size) == Offset(Address(start + n - 1), size) + size;
    hide Splice, Address, Offset;
  }

  lemma OverwriteWhole(f: Bytes, start: nat, n: nat, size: nat, data: Bytes)
    requires Offset(start + n, size) <= |f| && Offset(n, size) <= |data|
    ensures Offset(Address(start), size) + Offset(n, size) <= |f|
    ensures Overwrite(f, start, n, size, true, data) == Splice(f, Offset(Address(start), size), data[..Offset(n, size)])
  {
    AddressFits(f, start, n, size);
    OffsetSum(Address(start), n, size);
    hide Splice, Address, Offset;
  }

  lemma AddressableIs(start: nat, n: nat, whole: bool)
    ensures Addressable(start, n, whole) <==> n == 0 || (if whole then start < WORD32 else start + n <= WORD32)
  {
  }

  lemma OwnAddress(sector: nat)
    requires sector < WORD32
    ensures Address(sector) == sector
  {
  }

  /** A WRITE within 2^32 sectors changes the range that was asked for, and nothing else. */
  lemma {:induction false} OverwriteAsAsked(f: Bytes, start: nat, n: nat, size: nat, whole: bool, data: Bytes)
    requires Offset(start + n, size) <= |f| && Offset(n, size) <= |data| && Addressable(start, n, whole)
    ensures Offset(start, size) + Offset(n, size) <= |f|
    ensures Overwrite(f, start, n, size, whole, data) == Splice(f, Offset(start, size), data[..Offset(n, size)])
    decreases n
  {
    hide *;
    AddressableIs(start, n, whole);
    OffsetSum(start, n, size);
    if n == 0 {
      NothingAsAsked(f, start, size, whole, data);
    } else if whole {
      OverwriteWhole(f, start, n, size, data);
      OwnAddress(start);
    } else {
      OverwriteStep(f, start, n, size, data);
      OwnAddress(start + n - 1);
      AddressableIs(start, n - 1, whole);
      OffsetSum(start, n - 1, size);
      OverwriteAsAsked(f, start, n - 1, size, whole, data);
      JoinSectors(f, Offset(start, size), data, Offset(n - 1, size), Offset(n, size));
    }
  }

  lemma NothingAsAsked(f: Bytes, start: nat, size: nat, whole: bool, data: Bytes)
    requires Offset(start, size) <= |f|
    ensures Offset(0, size) == 0
    ensures Overwrite(f, start, 0, size, whole, data) == Splice(f, Offset(start, size), data[..0])
  {
    NothingOverwritten(f, start, 0, size, whole, data);
    assert data[..0] == [];
    NoSplice(f, Offset(start, size));
    hide Splice, Overwrite, Address;
  }

  lemma JoinSectors(f: Bytes, pos: nat, data: Bytes, a: nat, b: nat)
    requires a <= b <= |data| && pos + b <= |f|
    ensures Splice(Splice(f, pos, data[..a]), pos + a, data[a..b]) == Splice(f, pos, data[..b])
  {
    assert data[..a] + data[a..b] == data[..b];
    SpliceTwice(f, pos, data[..a], data[a..b]);
  }

  lemma LandsAsAsked(before: Bytes, after: Bytes, start: nat, n: nat, size: nat, whole: bool, data: Bytes, stored: nat)
    requires Landed(before, after, start, n, size, whole, data, stored) && n > 0 && Addressable(start, n, whole)
    requires Offset(start + n, size) <= |before|
    ensures Patched(before, after, Offset(start, size), data, stored)
  {
    hide *;
    var k, s := LandedAt(before, after, start, n, size, whole, data, stored);
    PartAddressable(start, n, k, whole);
    TornAsAsked(before, after, start, k, if whole then n else 1, size, whole, data, s);
  }

  lemma LandedAt(before: Bytes, after: Bytes, start: nat, n: nat, size: nat, whole: bool, data: Bytes, stored: nat)
    returns (k: nat, s: nat)
    requires Landed(before, after, start, n, size, whole, data, stored)
    ensures k + (if whole then n else 1) <= n && stored == Offset(k, size) + s
    ensures IsTorn(before, after, start, k, if whole then n else 1, size, whole, data, s)
  {
    hide IsTorn, Offset;
    var c := if whole then n else 1;
    k, s :|
      k + c <= n && stored == Offset(k, size) + s && IsTorn(before, after, start, k, c, size, whole, data, s);
  }

  lemma PartAddressable(start: nat, n: nat, k: nat, whole: bool)
    requires n > 0 && Addressable(start, n, whole) && k + (if whole then n else 1) <= n
    ensures Address(start + k) == start + k && Addressable(start, k, whole)
  {
  }

  lemma TornIs(before: Bytes, after: Bytes, start: nat, k: nat, c: nat, size: nat, whole: bool, data: Bytes, s: nat)
    requires IsTorn(before, after, start, k, c, size, whole, data, s)
    ensures Offset(k, size) <= Offset(k + c, size) <= |data| && Offset(start + k, size) <= |before|
    ensures Patched(Overwrite(before, start, k, size, whole, data), after, Offset(Address(start + k), size),
                    data[Offset(k, size)..Offset(k + c, size)], s)
    ensures |data[Offset(k, size)..Offset(k + c, size)]| == Offset(k + c, size) - Offset(k, size)
  {
    hide Offset, Overwrite, Patched, Address;
  }

  lemma TornAsAsked(before: Bytes, after: Bytes, start: nat, k: nat, c: nat, size: nat, whole: bool, data: Bytes,
                    s: nat)
    requires IsTorn(before, after, start, k, c, size, whole, data, s) && Address(start + k) == start + k
    requires Addressable(start, k, whole)
    ensures Patched(before, after, Offset(start, size), data, Offset(k, size) + s)
  {
    hide *;
    TornIs(before, after, start, k, c, size, whole, data, s);
    var middle := Overwrite(before, start, k, size, whole, data);
    var buf := data[Offset(k, size)..Offset(k + c, size)];
    OverwriteAsAsked(before, start, k, size, whole, data);
    OffsetSum(start, k, size);
    PatchedFirst(before, middle, Offset(start, size), data, Offset(k, size));
    PatchJoins(before, middle, after, Offset(start, size), data, Offset(k, size), buf, s);
  }

  lemma PatchedFirst(before: Bytes, after: Bytes, pos: nat, data: Bytes, k: nat)
    requires k <= |data| && pos + k <= |before| && after == Splice(before, pos, data[..k])
    ensures Patched(before, after, pos, data, k)
  {
    if k == 0 {
      assert data[..0] == [];
      NoSplice(before, pos);
    }
  }

  /** A WRITE of one sector from 2^32 on overwrites another sector, and the one that was asked for stays. */
  lemma OtherSectorIsWritten(before: Bytes, after: Bytes, sector: nat, size: nat, whole: bool, data: Bytes)
    requires sector >= WORD32 && size == |data| > 0 && IsOverwritten(before, after, sector, 1, size, whole, data)
    ensures Address(sector) < sector && Offset(Address(sector) + 1, size) <= Offset(sector + 1, size) <= |after|
    ensures SectorAt(after, Address(sector), size) == data
    ensures SectorAt(after, sector, size) == SectorAt(before, sector, size)
  {
    hide *;
    OneOverwritten(before, after, sector, size, whole, data);
    SingleSector(before, sector, size, whole, data);
    CutIsBelow(sector);
    OffsetAscends(Address(sector) + 1, sector, size);
    OffsetAscends(sector, sector + 1, size);
    SplicedSector(before, Address(sector), size, data);
    SplicedElsewhere(before, Address(sector), sector, size, data);
  }

  lemma OneOverwritten(before: Bytes, after: Bytes, sector: nat, size: nat, whole: bool, data: Bytes)
    requires size == |data| && IsOverwritten(before, after, sector, 1, size, whole, data)
    ensures Offset(sector + 1, size) <= |before| && after == Overwrite(before, sector, 1, size, whole, data)
  {
    hide Overwrite, Offset;
  }

  lemma CutIsBelow(sector: nat)
    requires sector >= WORD32
    ensures Address(sector) < sector
  {
  }

  lemma SplicedElsewhere(f: Bytes, n: nat, m: nat, size: nat, data: Bytes)
    requires |data| == size && Offset(n, size) + size <= Offset(m, size) && Offset(m + 1, size) <= |f|
    ensures Offset(n, size) + size <= |f|
    ensures SectorAt(Splice(f, Offset(n, size), data), m, size) == SectorAt(f, m, size)
  {
    OffsetAscends(m, m + 1, size);
    hide Offset;
  }

  lemma SingleSector(f: Bytes, sector: nat, size: nat, whole: bool, data: Bytes)
    requires |data| == size && Offset(sector + 1, size) <= |f|
    ensures Offset(1, size) == size && Offset(Address(sector), size) + size <= |f|
    ensures Overwrite(f, sector, 1, size, whole, data) == Splice(f, Offset(Address(sector), size), data)
  {
    OneOffset(size);
    AddressFits(f, sector, 1, size);
    assert data[..size] == data && data[0..size] == data;
    assert Offset(0, size) == 0;
    hide Splice, Address;
  }

  /** Such a command is accepted: READ(16) or WRITE(16) of sector 2^32 on a medium of 2^32 + 1 sectors. */
  lemma FirstLongAddress(cdb: Bytes)
    requires |cdb| == 16 && cdb[2..14] == [0, 0, 0, 1, 0, 0, 0, 0, 0, 0, 0, 1]
    ensures StartOf(RW16, cdb) == WORD32 && CountOf(RW16, cdb) == 1 && Address(WORD32) == 0
    ensures CheckRange(true, WORD32 + 1, RW16, cdb) == Accepted(true)
  {
  }

  /** The sectors that a WRITE moves. In one piece, without a positive total, these are none. */
  function SectorsWritten(count: nat, size: nat, whole: bool): nat
    requires size > 0
  {
    if whole && AsInt(Offset(count, size)) <= 0 then 0 else SectorsMoved(count, size)
  }

  /** What a WRITE of some sectors does. A negative number of bytes cannot be received. */
  ghost predicate IsWrite(before: Bytes, after: Bytes, start: nat, count: nat, size: nat, whole: bool, data: Bytes,
                          r: WriteResult, stored: nat) {
    && size > 0 && r in {Stored, WriteFault, Aborted}
    && Landed(before, after, start, SectorsWritten(count, size, whole), size, whole, data, stored)
    && (whole && AsInt(Offset(count, size)) < 0 ==> r == Aborted)
    && (whole && AsInt(Offset(count, size)) == 0 ==> r == Stored)
    && (r == Stored ==>
          var n := SectorsWritten(count, size, whole);
          stored == Offset(n, size) && IsOverwritten(before, after, start, n, size, whole, data))
  }

  lemma NothingAtOnce(f: Bytes, start: nat, count: nat, size: nat, data: Bytes)
    requires size > 0 && Offset(start, size) <= |f| && AsInt(Offset(count, size)) <= 0
    ensures AsInt(Offset(count, size)) < 0 ==> IsWrite(f, f, start, count, size, true, data, Aborted, 0)
    ensures AsInt(Offset(count, size)) == 0 ==> IsWrite(f, f, start, count, size, true, data, Stored, 0)
  {
    NothingOverwritten(f, start, 0, size, true, data);
    NothingLanded(f, start, 0, size, true, data);
    hide Offset, AsInt, Landed, IsOverwritten;
  }

  lemma NothingLanded(f: Bytes, start: nat, n: nat, size: nat, whole: bool, data: Bytes)
    requires IsOverwritten(f, f, start, 0, size, whole, data) && Offset(n, size) <= |data| && (n > 0 || whole)
    ensures Landed(f, f, start, n, size, whole, data, 0)
  {
    var c := if whole then n else 1;
    OffsetAscends(0, c, size);
    OffsetAscends(c, n, size);
    assert Offset(0, size) == 0;
    assert IsTorn(f, f, start, 0, c, size, whole, data, 0);
  }

  lemma WriteEnds(before: Bytes, after: Bytes, start: nat, count: nat, size: nat, whole: bool, data: Bytes,
                  r: WriteResult, stored: nat)
    requires size > 0 && r in {Stored, WriteFault, Aborted} && (whole ==> AsInt(Offset(count, size)) > 0)
    requires Landed(before, after, start, SectorsMoved(count, size), size, whole, data, stored)
    requires r == Stored ==>
               && stored == Offset(SectorsMoved(count, size), size)
               && IsOverwritten(before, after, start, SectorsMoved(count, size), size, whole, data)
    ensures IsWrite(before, after, start, count, size, whole, data, r, stored)
  {
    hide Offset, AsInt, Landed, IsOverwritten, SectorsMoved;
  }

  /** The result of a WRITE for the check of its range. */
  ghost predicate WriteOutcome(
      check: Check, before: Bytes, after: Bytes, start: nat, count: nat, size: nat, whole: bool, data: Bytes,
      r: WriteResult, stored: nat)
    requires size > 0
  {
    match check
    case NotReady => r == NotAccepted(check) && after == before
    case OutOfRange => r == NotAccepted(check) && after == before
    case Accepted(process) =>
      if process then IsWrite(before, after, start, count, size, whole, data, r, stored)
      else r == NothingWritten && after == before
  }

  lemma ChunkInData(start: nat, count: nat, k: nat, c: nat, size: nat)
    requires k < count && 0 < c <= count - k && c in {1, count - k}
    ensures Offset(count, size) - Offset(count - k, size) == Offset(k, size)
    ensures Offset(k, size) + Offset(c, size) == Offset(k + c, size) <= Offset(count, size)
    ensures Offset(count - k, size) - Offset(c, size) == Offset(count - (k + c), size)
    ensures Offset(start, size) + Offset(k, size) == Offset(start + k, size)
    ensures k + c < count ==> c == 1 && Offset(c, size) == size <= Offset(count - (k + c), size)
    ensures k + c == count ==> Offset(count - (k + c), size) == 0
  {
    OffsetSum(k, count - k, size);
    OffsetSum(k, c, size);
    OffsetSum(count - (k + c), c, size);
    OffsetSum(start, k, size);
    OffsetAscends(k + c, count, size);
    if k + c < count {
      OneOffset(size);
      OffsetAscends(1, count - (k + c), size);
    }
  }

  /** Block sizes that the track cache knows. */
  predicate IsStandardSize(size: nat) {
    size in {256, 512, 1024, 2048, 4096}
  }

  /** The sectors that READ and WRITE move for a count: the total in bytes has 32 bits, and without a
      positive total only the first chunk is moved. */
  function SectorsMoved(count: nat, size: nat): nat
    requires size > 0
  {
    var total := AsInt(Offset(count, size));
    if total <= 0 then 1 else total / size
  }

  lemma SizeDivides(size: nat) returns (m: nat)
    requires IsStandardSize(size)
    ensures size * m == WORD32 && m > 0
  {
    m := WORD32 / size;
  }

  lemma MovedSectors(count: nat, size: nat)
    requires 0 < count && 0 < size < 0x8000_0000
    requires Offset(count, size) < 0x8000_0000 || IsStandardSize(size)
    ensures var total, n := AsInt(Offset(count, size)), SectorsMoved(count, size);
            && 0 < n <= count && AsInt(size) == size
            && (total > 0 ==> total == Offset(n, size))
            && (total <= 0 ==> n == 1)
    ensures SectorsMoved(count, size) == count <==> Offset(count, size) < 0x8000_0000
  {
    if Offset(count, size) < 0x8000_0000 {
      OffsetQuotient(count, size);
      OffsetAscends(1, count, size);
      OneOffset(size);
    } else {
      var m := SizeDivides(size);
      LowBytes(count, size, m);
      var b := count % m;
      OffsetQuotient(b, size);
      hide Offset, IsStandardSize;
      OneIsSmall(count, size);
      if AsInt(Offset(count, size)) > 0 {
        LowIsBelow(count, b, size);
      }
    }
  }

  lemma OneIsSmall(count: nat, size: nat)
    requires Offset(count, size) >= 0x8000_0000 > size
    ensures count != 1
  {
    OneOffset(size);
  }

  lemma LowIsBelow(count: nat, b: nat, size: nat)
    requires b <= count && 0 < Offset(b, size) < 0x8000_0000 <= Offset(count, size)
    ensures 0 < b < count
  {
    assert Offset(0, size) == 0;
  }

  /** A WRITE moves all sectors if and only if the total is below 2 GiB, and otherwise fewer. */
  lemma WrittenSectors(count: nat, size: nat, whole: bool)
    requires 0 < count && 0 < size < 0x8000_0000
    requires Offset(count, size) < 0x8000_0000 || IsStandardSize(size)
    ensures SectorsWritten(count, size, whole) <= count
    ensures SectorsWritten(count, size, whole) == count <==> Offset(count, size) < 0x8000_0000
  {
    MovedSectors(count, size);
    OffsetAscends(1, count, size);
    OneOffset(size);
    hide Offset, IsStandardSize, SectorsMoved;
  }

  /** READ(16) or WRITE(16) of 4 GiB: the total of 32 bits is 0, and a single sector is moved. A WRITE in one
      piece stores nothing and ends with success. */
  lemma FourGigabytes(before: Bytes, after: Bytes, start: nat, data: Bytes, r: WriteResult, stored: nat)
    ensures Offset(0x80_0000, 512) == WORD32 && SectorsMoved(0x80_0000, 512) == 1
    ensures IsWrite(before, after, start, 0x80_0000, 512, true, data, r, stored) ==>
              r == Stored && stored == 0 && after == before
  {
    OffsetIsProduct(0x80_0000, 512);
    if IsWrite(before, after, start, 0x80_0000, 512, true, data, r, stored) {
      NothingOverwritten(before, start, 0, 512, true, data);
    }
    hide Landed, Overwrite, Address;
  }

  lemma MinIs(a: int, b: int)
    ensures a < b ==> Min(a, b) == a
    ensures a >= b ==> Min(a, b) == b
  {
  }
}
