/** The device that passes commands on to the SG driver: a transfer is split into chunks, and the command
    of each chunk is made by rewriting the command of the whole transfer. */
module ScsiGenerics {
  import opened ImageFiles
  import opened MemoryUtil
  import opened Transfers

  const MAX_TRANSFER_LENGTH: nat := 65536

  /** Where a command has its length and its block address. */
  datatype CdbMetaData = CdbMetaData(
    lengthOffset: nat, lengthSize: nat, blockOffset: nat, blockSize: nat, hasDataOut: bool, byteCount: nat)

  const READ_6: byte := 0x08
  const WRITE_6: byte := 0x0a
  const READ_10: byte := 0x28
  const WRITE_10: byte := 0x2a
  const READ_12: byte := 0xa8
  const WRITE_12: byte := 0xaa
  const READ_16: byte := 0x88
  const WRITE_16: byte := 0x8a

  predicate IsTransfer(opcode: byte) {
    opcode in {READ_6, WRITE_6, READ_10, WRITE_10, READ_12, WRITE_12, READ_16, WRITE_16}
  }

  function MetaDataOf(opcode: byte): CdbMetaData
    requires IsTransfer(opcode)
  {
    if opcode == READ_6 then CdbMetaData(4, 1, 1, 3, false, 6)
    else if opcode == WRITE_6 then CdbMetaData(4, 1, 1, 3, true, 6)
    else if opcode == READ_10 then CdbMetaData(7, 2, 2, 4, false, 10)
    else if opcode == WRITE_10 then CdbMetaData(7, 2, 2, 4, true, 10)
    else if opcode == READ_12 then CdbMetaData(6, 4, 2, 4, false, 12)
    else if opcode == WRITE_12 then CdbMetaData(6, 4, 2, 4, true, 12)
    else if opcode == READ_16 then CdbMetaData(10, 4, 2, 8, false, 16)
    else CdbMetaData(10, 4, 2, 8, true, 16)
  }

  predicate IsCdb(cdb: Bytes) {
    |cdb| > 0 && IsTransfer(cdb[0]) && |cdb| == MetaDataOf(cdb[0]).byteCount
  }

  /** GetAllocationLength, for commands whose length counts blocks. */
  function CountField(cdb: Bytes): nat
    requires IsCdb(cdb)
  {
    var m := MetaDataOf(cdb[0]);
    if m.lengthSize == 1 then cdb[m.lengthOffset] as int
    else if m.lengthSize == 2 then GetInt16(cdb, m.lengthOffset) else GetInt32(cdb, m.lengthOffset)
  }

  function StartField(cdb: Bytes): nat
    requires IsCdb(cdb)
  {
    var m := MetaDataOf(cdb[0]);
    if m.blockSize == 3 then GetInt24(cdb, m.blockOffset)
    else if m.blockSize == 4 then GetInt32(cdb, m.blockOffset) else GetInt64(cdb, m.blockOffset)
  }

  /** The fields of a command are the numbers that its bytes are. */
  lemma FieldsOf(cdb: Bytes)
    requires IsCdb(cdb)
    ensures cdb[0] in {0x08, 0x0a} ==>
              |cdb| == 6 && StartField(cdb) == FromBigEndian(cdb[1..4]) && CountField(cdb) == FromBigEndian(cdb[4..5])
    ensures cdb[0] in {0x28, 0x2a} ==>
              |cdb| == 10 && StartField(cdb) == FromBigEndian(cdb[2..6]) && CountField(cdb) == FromBigEndian(cdb[7..9])
    ensures cdb[0] in {0xa8, 0xaa} ==>
              |cdb| == 12 && StartField(cdb) == FromBigEndian(cdb[2..6]) && CountField(cdb) == FromBigEndian(cdb[6..10])
    ensures cdb[0] in {0x88, 0x8a} ==>
              |cdb| == 16 && StartField(cdb) == FromBigEndian(cdb[2..10])
              && CountField(cdb) == FromBigEndian(cdb[10..14])
    ensures cdb[0] in {0x08, 0x0a, 0x28, 0x2a, 0xa8, 0xaa, 0x88, 0x8a}
    ensures IsWrite(cdb) <==> cdb[0] in {0x0a, 0x2a, 0xaa, 0x8a}
  {
    FieldIsNumber(cdb, MetaDataOf(cdb[0]).blockOffset);
    FieldIsNumber(cdb, MetaDataOf(cdb[0]).lengthOffset);
    ByteIsNumber(cdb, 4);
    hide FromBigEndian, GetInt16, GetInt24, GetInt32, GetInt64;
  }

  predicate IsWrite(cdb: Bytes)
    requires IsCdb(cdb)
  {
    MetaDataOf(cdb[0]).hasDataOut
  }

  /** The values that a count and a start field have room for. */
  function CountLimit(opcode: byte): nat
    requires IsTransfer(opcode)
  {
    var size := MetaDataOf(opcode).lengthSize;
    if size == 1 then 0x100 else if size == 2 then 0x1_0000 else 0x1_0000_0000
  }

  function StartLimit(opcode: byte): nat
    requires IsTransfer(opcode)
  {
    var size := MetaDataOf(opcode).blockSize;
    if size == 3 then 0x100_0000 else if size == 4 then 0x1_0000_0000 else 0x1_0000_0000_0000_0000
  }

  /** A block address as the command has room for it. */
  function Wrapped(block: nat, opcode: byte): nat
    requires IsTransfer(opcode)
  {
    block % StartLimit(opcode)
  }

  /** Two commands of the same kind with the same start, or the same count. */
  predicate SameStart(a: Bytes, b: Bytes) {
    IsCdb(a) && IsCdb(b) && a[0] == b[0] && StartField(a) == StartField(b)
  }

  predicate SameCount(a: Bytes, b: Bytes) {
    IsCdb(a) && IsCdb(b) && a[0] == b[0] && CountField(a) == CountField(b)
  }

  method SetBlockCount(cdb: array<byte>, count: nat)
    requires IsCdb(cdb[..])
    modifies cdb
    ensures SameStart(cdb[..], old(cdb[..])) && CountField(cdb[..]) == count % CountLimit(cdb[0])
  {
    var m := MetaDataOf(cdb[0]);
    if m.lengthSize == 1 {
      cdb[m.lengthOffset] := (count % 0x100) as byte;
    } else if m.lengthSize == 2 {
      SetInt16(cdb, m.lengthOffset, count);
    } else {
      SetInt32(cdb, m.lengthOffset, count);
    }
    Kept(cdb[..], old(cdb[..]), m.lengthOffset, m.lengthSize, m.blockOffset);
  }

  method UpdateStartBlock(cdb: array<byte>, count: nat)
    requires IsCdb(cdb[..])
    modifies cdb
    ensures SameCount(cdb[..], old(cdb[..]))
    ensures StartField(cdb[..]) == Wrapped(StartField(old(cdb[..])) + count, cdb[0])
  {
    var m := MetaDataOf(cdb[0]);
    if m.blockSize == 3 {
      SetInt24(cdb, m.blockOffset, GetInt24(cdb[..], m.blockOffset) + count);
    } else if m.blockSize == 4 {
      SetInt32(cdb, m.blockOffset, GetInt32(cdb[..], m.blockOffset) + count);
    } else {
      SetInt64(cdb, m.blockOffset, GetInt64(cdb[..], m.blockOffset) + count);
    }
    Kept(cdb[..], old(cdb[..]), m.blockOffset, m.blockSize, m.lengthOffset);
  }

  /** The commands with 6 bytes are converted, because some drives do not know them. */
  method LocalCdb(cdb: Bytes) returns (local: array<byte>)
    requires IsCdb(cdb)
    ensures fresh(local) && IsCdb(local[..]) && local[0] !in {READ_6, WRITE_6}
    ensures IsWrite(local[..]) == IsWrite(cdb) && StartField(local[..]) == StartField(cdb)
    ensures CountField(local[..]) == CountField(cdb)
    ensures cdb[0] in {READ_6, WRITE_6} ==> local[0] in {READ_10, WRITE_10}
    ensures cdb[0] !in {READ_6, WRITE_6} ==> local[..] == cdb
    ensures cdb[0] in {READ_6, WRITE_6} ==>
              local[..] == [if cdb[0] == 0x08 then 0x28 else 0x2a, 0, 0, cdb[1], cdb[2], cdb[3], 0, 0, cdb[4], cdb[5]]
  {
    hide GetInt16, GetInt24, GetInt32, GetInt64;
    if cdb[0] == READ_6 || cdb[0] == WRITE_6 {
      local := new byte[10](_ => 0);
      local[8], local[9] := cdb[4], cdb[5];
      SetInt32(local, 2, GetInt24(cdb, 1));
      ShortNumber(local[..], 2, cdb, 1);
      ghost var before := local[..];
      local[0] := if cdb[0] == WRITE_6 then WRITE_10 else READ_10;
      assert local[..] == before[0 := local[0]];
      LongCdb(local[..], cdb);
    } else {
      local := new byte[|cdb|](i requires 0 <= i < |cdb| => cdb[i]);
      assert local[..] == cdb;
    }
  }

  lemma ShortNumber(b: Bytes, i: nat, c: Bytes, j: nat)
    requires i + 4 <= |b| && j + 3 <= |c| && GetInt32(b, i) == GetInt24(c, j)
    ensures b[i] == 0 && b[i + 1] == c[j] && b[i + 2] == c[j + 1] && b[i + 3] == c[j + 2]
  {
  }

  lemma LongCdb(local: Bytes, cdb: Bytes)
    requires IsCdb(cdb) && cdb[0] in {READ_6, WRITE_6}
    requires local == [if cdb[0] == 0x08 then 0x28 else 0x2a, 0, 0, cdb[1], cdb[2], cdb[3], 0, 0, cdb[4], cdb[5]]
    ensures IsCdb(local) && IsWrite(local) == IsWrite(cdb) && StartField(local) == StartField(cdb)
    ensures CountField(local) == CountField(cdb)
  {
  }

  /** A command that was sent to the SG driver. */
  datatype Io = Io(start: nat, count: nat)

  /** The commands cover a range of blocks one behind the other, each but the last one with c blocks. */
  predicate Tiles(ios: seq<Io>, start: nat, count: nat, c: nat) {
    if ios == [] then count == 0
    else
      var n := |ios| - 1;
      0 < ios[n].count <= c && Offset(n, c) + ios[n].count == count
        && ios[n].start == start + Offset(n, c) && Tiles(ios[..n], start, Offset(n, c), c)
  }

  /** Only whole chunks were transferred. */
  predicate WholeTiles(ios: seq<Io>, start: nat, count: nat, c: nat) {
    Tiles(ios, start, count, c) && count == Offset(|ios|, c)
  }

  lemma TilesNext(ios: seq<Io>, start: nat, count: nat, more: nat, c: nat)
    requires WholeTiles(ios, start, count, c) && 0 < more <= c
    ensures Tiles(ios + [Io(start + count, more)], start, count + more, c)
    ensures more == c ==> WholeTiles(ios + [Io(start + count, more)], start, count + more, c)
  {
    assert (ios + [Io(start + count, more)])[..|ios|] == ios;
  }

  lemma {:induction false} TilesAscend(ios: seq<Io>, start: nat, count: nat, c: nat)
    requires Tiles(ios, start, count, c)
    ensures forall i, j :: 0 <= i < j < |ios| ==> ios[i].start + ios[i].count <= ios[j].start
    ensures forall i :: 0 <= i < |ios| ==> start <= ios[i].start && ios[i].start + ios[i].count <= start + count
    ensures forall i :: 0 <= i < |ios| ==> ios[i].count <= c
    ensures forall i :: 0 <= i < |ios| - 1 ==> ios[i].count == c
  {
    if ios != [] {
      var n := |ios| - 1;
      TilesAscend(ios[..n], start, count - ios[n].count, c);
      if n > 0 {
        assert ios[n - 1] == ios[..n][n - 1];
        assert Offset(n, c) == Offset(n - 1, c) + c;
      }
      hide Tiles, Offset;
      forall i | 0 <= i < n
        ensures ios[i] == ios[..n][i]
      {
      }
    }
  }

  /** No block is transferred twice, and none is missing. All commands but the last have c blocks. */
  lemma {:induction false} TilesCover(ios: seq<Io>, start: nat, count: nat, c: nat, b: nat)
    requires Tiles(ios, start, count, c)
    ensures start <= b < start + count <==>
              exists i :: 0 <= i < |ios| && ios[i].start <= b < ios[i].start + ios[i].count
    ensures forall i, j :: 0 <= i < j < |ios| ==> ios[i].start + ios[i].count <= ios[j].start
    ensures forall i :: 0 <= i < |ios| ==> start <= ios[i].start && ios[i].start + ios[i].count <= start + count
    ensures forall i :: 0 <= i < |ios| ==> if i < |ios| - 1 then ios[i].count == c else ios[i].count <= c
  {
    TilesAscend(ios, start, count, c);
    if start <= b < start + count {
      var n := |ios| - 1;
      if b < ios[n].start {
        TilesCover(ios[..n], start, count - ios[n].count, c, b);
        var i :| 0 <= i < n && ios[..n][i].start <= b < ios[..n][i].start + ios[..n][i].count;
        assert ios[i].start <= b < ios[i].start + ios[i].count;
      }
    }
  }

  class ScsiGeneric {
    const transfer: Transfer
    const blockSize: nat
    const chunkBlocks: nat
    var medium: Bytes
    var localCdb: array<byte>
    var remainingCount: int
    var issued: seq<Io>
    /** The commands that the driver has not executed although their blocks are on the medium. */
    ghost var failures: nat

    constructor (size: nat, chunk: nat, content: Bytes)
      requires size > 1 && Offset(chunk, size) == 65536
      ensures Valid() && chunkBlocks == chunk && medium == content && blockSize == size
      ensures fresh(transfer) && fresh(localCdb)
    {
      transfer := new Transfer();
      blockSize, chunkBlocks, medium, remainingCount, issued, failures := size, chunk, content, 0, [], 0;
      localCdb := new byte[10](_ => 0);
    }

    /** The calls of the driver and the handshakes that have failed. */
    ghost function Failed(): nat
      reads this`failures, transfer`failures
    {
      failures + transfer.failures
    }

    lemma FailedIs()
      ensures Failed() == failures + transfer.failures
    {
    }

    /** Block sizes divide the size of a chunk. */
    predicate Valid() {
      blockSize > 1 && Offset(chunkBlocks, blockSize) == MAX_TRANSFER_LENGTH
    }

    /** The SG driver executes the local command on the device, with a length of 32 bits without a sign. It
        transfers everything, or fails. */
    method SgIo(length: nat, data: Bytes) returns (ok: bool, r: Bytes)
      requires IsCdb(localCdb[..]) && length == Offset(CountField(localCdb[..]), blockSize)
      requires IsWrite(localCdb[..]) ==> |data| == length
      modifies this`medium, this`issued, this`failures
      ensures failures == old(failures) +
                if ok || Offset(StartField(localCdb[..]) + CountField(localCdb[..]), blockSize) > |medium| then 0 else 1
      ensures issued == old(issued) + [Io(StartField(localCdb[..]), CountField(localCdb[..]))]
      ensures |medium| == |old(medium)|
      ensures ok ==> Offset(StartField(localCdb[..]) + CountField(localCdb[..]), blockSize) <= |medium|
      ensures ok && !IsWrite(localCdb[..]) ==>
                r == SectorRange(medium, StartField(localCdb[..]), CountField(localCdb[..]), blockSize)
      ensures ok && IsWrite(localCdb[..]) ==>
                && Offset(StartField(localCdb[..]), blockSize) + length <= |medium|
                && medium == Splice(old(medium), Offset(StartField(localCdb[..]), blockSize), data)
      ensures !ok || !IsWrite(localCdb[..]) ==> medium == old(medium)
    {
      var start, count := StartField(localCdb[..]), CountField(localCdb[..]);
      issued := issued + [Io(start, count)];
      ok, r := *, [];
      if Offset(start + count, blockSize) > |medium| {
        ok := false;
      } else if !ok {
        failures := failures + 1;
      }
      if ok {
        OffsetSum(start, count, blockSize);
        if IsWrite(localCdb[..]) {
          medium := Splice(medium, Offset(start, blockSize), data);
        } else {
          r := SectorRange(medium, start, count, blockSize);
        }
      }
    }

    /** ReadWriteData: the local command gets the count of the chunk, and its address goes on behind it. A
        chunk that is negative as an int is a length of at least 2 GiB for the driver. */
    method ReadWriteData(chunk: int, data: Bytes, ghost m: nat) returns (ok: bool, r: Bytes)
      requires Valid() && IsCdb(localCdb[..]) && m < CountLimit(localCdb[0])
      requires IsChunk(remainingCount, chunk, m, chunkBlocks, blockSize)
      requires IsWrite(localCdb[..]) ==> |data| == Offset(m, blockSize)
      modifies this`medium, this`issued, this`remainingCount, this`failures, localCdb
      ensures localCdb == old(localCdb)
      ensures failures == old(failures) +
                if ok || Offset(old(StartField(localCdb[..])) + m, blockSize) > |medium| then 0 else 1
      ensures IsCdb(localCdb[..]) && localCdb[0] == old(localCdb[0]) && |medium| == |old(medium)|
      ensures issued == old(issued) + [Io(old(StartField(localCdb[..])), m)]
      ensures ok ==>
                && remainingCount == old(remainingCount) - chunk
                && StartField(localCdb[..]) == Wrapped(old(StartField(localCdb[..])) + m, localCdb[0])
                && Offset(old(StartField(localCdb[..])) + m, blockSize) <= |medium|
      ensures ok && !IsWrite(localCdb[..]) ==> r == SectorRange(medium, old(StartField(localCdb[..])), m, blockSize)
      ensures ok && IsWrite(localCdb[..]) ==>
                && Offset(old(StartField(localCdb[..])), blockSize) + Offset(m, blockSize) <= |medium|
                && medium == Splice(old(medium), Offset(old(StartField(localCdb[..])), blockSize), data)
      ensures !ok || !IsWrite(localCdb[..]) ==> medium == old(medium)
    {
      var length := if remainingCount < chunk then remainingCount else chunk;
      length := if length < MAX_TRANSFER_LENGTH then length else MAX_TRANSFER_LENGTH;
      ChunkLength(remainingCount, chunk, m, chunkBlocks, blockSize);
      SmallModulus(m, CountLimit(localCdb[0]));
      hide Offset, SectorRange, MetaDataOf, StartField, CountField, CountLimit, StartLimit, Wrapped, IsChunk, Unsigned;
      SetBlockCount(localCdb, Unsigned(length) / blockSize);
      SameKind(localCdb[..], old(localCdb[..]));
      ok, r := SgIo(Unsigned(length), data);
      if !ok {
        return;
      }
      ghost var before := localCdb[..];
      UpdateStartBlock(localCdb, Unsigned(length) / blockSize);
      SameKind(localCdb[..], before);
      remainingCount := remainingCount - length;
    }

    /** k of the blocks of a command were transferred. */
    ghost predicate Going(write: bool, start: nat, count: nat, k: nat)
      reads this, localCdb, transfer
    {
      && Valid() && IsCdb(localCdb[..]) && IsWrite(localCdb[..]) == write
      && k <= count < CountLimit(localCdb[0]) && start + count <= StartLimit(localCdb[0])
      && (k < count ==> StartField(localCdb[..]) == start + k)
      && remainingCount == transfer.remainingLength == Offset(count - k, blockSize)
      && transfer.chunkSize == Offset(Min(count - k, chunkBlocks), blockSize)
      && Tiles(issued, start, k, chunkBlocks) && (k < count ==> WholeTiles(issued, start, k, chunkBlocks))
    }

    lemma GoingIs(write: bool, start: nat, count: nat, k: nat)
      ensures Going(write, start, count, k) <==>
                && Valid() && IsCdb(localCdb[..]) && IsWrite(localCdb[..]) == write
                && k <= count < CountLimit(localCdb[0]) && start + count <= StartLimit(localCdb[0])
                && (k < count ==> StartField(localCdb[..]) == start + k)
                && remainingCount == transfer.remainingLength == Offset(count - k, blockSize)
                && transfer.chunkSize == Offset(Min(count - k, chunkBlocks), blockSize)
                && Tiles(issued, start, k, chunkBlocks) && (k < count ==> WholeTiles(issued, start, k, chunkBlocks))
      ensures Valid() ==> blockSize > 0 && Offset(chunkBlocks, blockSize) == MAX_TRANSFER_LENGTH
    {
      hide Offset, Tiles, WholeTiles, IsCdb, IsWrite, CountLimit, StartLimit, StartField, Min;
    }

    lemma SizeIs()
      requires Valid()
      ensures blockSize > 1 && Offset(chunkBlocks, blockSize) == MAX_TRANSFER_LENGTH
    {
    }

    /** TransferToHost: another chunk. */
    method SendChunk(ghost start: nat, ghost count: nat, ghost k: nat, ghost sent: Bytes) returns (ok: bool, r: Bytes)
      requires Going(false, start, count, k) && k < count && chunkBlocks > 0
      requires IsSent(medium, start, k, blockSize, sent)
      modifies this`medium, this`issued, this`remainingCount, this`failures, localCdb, transfer
      ensures medium == old(medium) && localCdb == old(localCdb)
      ensures old(Failed()) <= Failed()
      ensures !ok && Offset(start + count, blockSize) <= |medium| ==> old(Failed()) < Failed()
      ensures ok ==>
                var m := Min(count - k, chunkBlocks);
                Going(false, start, count, k + m) && IsSent(medium, start, k + m, blockSize, sent + r)
      ensures ok ==> transfer.exchanged == old(transfer.exchanged) + |r|
    {
      hide *;
      GoingIs(false, start, count, k);
      ghost var m := Min(count - k, chunkBlocks);
      NextChunk(count, k, m, chunkBlocks, blockSize);
      OffsetAscends(start + k + m, start + count, blockSize);
      FailedIs();
      TilesNext(issued, start, k, m, chunkBlocks);
      ghost var cdb := localCdb[..];
      SameKind(cdb, cdb);
      SmallChunk(remainingCount, transfer.chunkSize, m, chunkBlocks, blockSize);
      ok, r := ReadWriteData(transfer.chunkSize, [], m);
      SameKind(localCdb[..], cdb);
      if ok {
        var moved := transfer.HandShake(|r|);
        ok := moved == |r|;
      }
      FailedIs();
      if ok {
        MoreSent(medium, start, k, m, blockSize, sent, r);
        transfer.SetCurrentLength(|r|);
        transfer.ResetOffset();
        transfer.ChunkSent();
        NextAddress(start, count, k + m, localCdb[0]);
        GoingIs(false, start, count, k + m);
        FailedIs();
      }
    }

    /** TransferFromHost: another chunk. */
    method TakeChunk(data: Bytes, received: nat, ghost start: nat, ghost count: nat, ghost k: nat, ghost before: Bytes)
      returns (ok: bool)
      requires Going(true, start, count, k) && k < count && chunkBlocks > 0 && Offset(count, blockSize) <= |data|
      requires received == Offset(k, blockSize) && Patched(before, medium, Offset(start, blockSize), data, received)
      modifies this`medium, this`issued, this`remainingCount, this`failures, localCdb, transfer
      ensures localCdb == old(localCdb) && |medium| == |old(medium)|
      ensures old(Failed()) <= Failed()
      ensures !ok && Offset(start + count, blockSize) <= |medium| ==> old(Failed()) < Failed()
      ensures var m := Min(count - k, chunkBlocks);
              var done := if ok then k + m else k;
              && Patched(before, medium, Offset(start, blockSize), data, Offset(done, blockSize))
              && (ok ==> Going(true, start, count, k + m) && transfer.currentLength == transfer.chunkSize)
      ensures transfer.exchanged == old(transfer.exchanged)
    {
      hide *;
      GoingIs(true, start, count, k);
      ghost var m := Min(count - k, chunkBlocks);
      NextChunk(count, k, m, chunkBlocks, blockSize);
      OffsetSum(start, k, blockSize);
      OffsetAscends(start + k + m, start + count, blockSize);
      FailedIs();
      TilesNext(issued, start, k, m, chunkBlocks);
      var buf := data[received..received + transfer.chunkSize];
      ghost var middle := medium;
      transfer.UpdateOffsetAndLength();
      var nothing;
      ghost var cdb := localCdb[..];
      SameKind(cdb, cdb);
      SmallChunk(remainingCount, transfer.chunkSize, m, chunkBlocks, blockSize);
      ok, nothing := ReadWriteData(transfer.chunkSize, buf, m);
      FailedIs();
      SameKind(localCdb[..], cdb);
      if ok {
        PatchOf(middle, medium, Offset(start + k, blockSize), buf);
        PatchJoins(before, middle, medium, Offset(start, blockSize), data, Offset(k, blockSize), buf, |buf|);
        transfer.UpdateTransferLength(|buf|);
        transfer.SetCurrentLength(transfer.chunkSize);
        transfer.ResetOffset();
        NextAddress(start, count, k + m, localCdb[0]);
        GoingIs(true, start, count, k + m);
        FailedIs();
      }
    }

    /** Dispatch, up to the first chunk: the whole transfer is set up. */
    method SetUp(cdb: Bytes)
      requires Valid() && IsCdb(cdb) && StartField(cdb) + CountField(cdb) <= AddressLimit(cdb[0])
      modifies this`localCdb, this`issued, this`remainingCount, transfer`remainingLength, transfer`chunkSize
      ensures fresh(localCdb) && localCdb.Length > 0 && issued == []
      ensures IsCdb(localCdb[..]) && StartField(localCdb[..]) == StartField(cdb)
      ensures IsWrite(localCdb[..]) == IsWrite(cdb) && CountField(cdb) < CountLimit(localCdb[0])
      ensures Total(cdb, blockSize) >= 0 ==> Going(IsWrite(cdb), StartField(cdb), BlocksMoved(cdb, blockSize), 0)
      ensures remainingCount == transfer.remainingLength == Total(cdb, blockSize) && Failed() == old(Failed())
      ensures Total(cdb, blockSize) <= 0 ==> transfer.chunkSize == Total(cdb, blockSize)
    {
      localCdb := LocalCdb(cdb);
      issued := [];
      var byteCount := Total(cdb, blockSize);
      remainingCount := byteCount;
      TotalBlocks(cdb, chunkBlocks, blockSize);
      FirstSize(BlocksMoved(cdb, blockSize), chunkBlocks, blockSize);
      Limits(cdb, localCdb[..]);
      transfer.SetTransferSize(byteCount, if byteCount < MAX_TRANSFER_LENGTH then byteCount else MAX_TRANSFER_LENGTH);
    }

    /** READ in any form. With a negative total the driver gets a single command for all blocks at once. Even
        if it executes this command, the controller cannot send a negative number of bytes, and resets the bus. */
    method Read(cdb: Bytes) returns (ok: bool, sent: Bytes)
      requires Valid() && IsCdb(cdb) && !IsWrite(cdb) && StartField(cdb) + CountField(cdb) <= AddressLimit(cdb[0])
      modifies this, transfer
      ensures medium == old(medium)
      ensures !ok && Total(cdb, blockSize) >= 0
              && Offset(StartField(cdb) + BlocksMoved(cdb, blockSize), blockSize) <= |medium| ==>
                old(Failed()) < Failed()
      ensures Total(cdb, blockSize) < 0 ==>
                !ok && sent == [] && issued == [Io(StartField(cdb), UnsignedBlocks(cdb, blockSize))]
      ensures ok && BlocksMoved(cdb, blockSize) > 0 ==>
                Tiles(issued, StartField(cdb), BlocksMoved(cdb, blockSize), chunkBlocks)
      ensures ok && BlocksMoved(cdb, blockSize) == 0 ==> issued == [Io(StartField(cdb), 0)]
      ensures ok ==>
                && Offset(StartField(cdb) + BlocksMoved(cdb, blockSize), blockSize) <= |medium|
                && sent == SectorRange(medium, StartField(cdb), BlocksMoved(cdb, blockSize), blockSize)
      ensures ok ==> transfer.exchanged == old(transfer.exchanged) + |sent|
    {
      ghost var start, count := StartField(cdb), BlocksMoved(cdb, blockSize);
      hide *;
      sent := [];
      SetUp(cdb);
      SizeIs();
      FailedIs();
      SameKind(localCdb[..], localCdb[..]);
      if transfer.remainingLength > 0 {
        GoingIs(false, start, count, 0);
        Exhausted(count, 0, blockSize, chunkBlocks);
        ok, sent := SendChunks(start, count);
        return;
      }
      ghost var m := UnsignedBlocks(cdb, blockSize);
      FirstUnsigned(cdb, chunkBlocks, blockSize);
      var data;
      ok, data := ReadWriteData(transfer.chunkSize, [], m);
      if ok && transfer.chunkSize != 0 {
        var moved := transfer.HandShake(transfer.chunkSize);
        ok := moved == transfer.chunkSize;
      }
      FailedIs();
      if ok {
        sent := data;
      }
    }

    /** The chunks of a READ. */
    method SendChunks(ghost start: nat, ghost count: nat) returns (ok: bool, sent: Bytes)
      requires Going(false, start, count, 0) && count > 0
      modifies this`medium, this`issued, this`remainingCount, this`failures, localCdb, transfer
      ensures medium == old(medium) && old(Failed()) <= Failed()
      ensures !ok && Offset(start + count, blockSize) <= |medium| ==> old(Failed()) < Failed()
      ensures ok ==>
                && Tiles(issued, start, count, chunkBlocks) && Offset(start + count, blockSize) <= |medium|
                && sent == SectorRange(medium, start, count, blockSize)
      ensures ok ==> transfer.exchanged == old(transfer.exchanged) + |sent|
    {
      hide *;
      ghost var k: nat := 0;
      ok, sent := true, [];
      NothingSent(medium, start, blockSize);
      GoingIs(false, start, count, 0);
      while transfer.remainingLength > 0
        invariant ok && medium == old(medium) && localCdb == old(localCdb) && k <= count
        invariant old(Failed()) <= Failed() && transfer.exchanged == old(transfer.exchanged) + |sent|
        invariant Going(false, start, count, k) && IsSent(medium, start, k, blockSize, sent)
        decreases transfer.remainingLength
      {
        GoingIs(false, start, count, k);
        Exhausted(count, k, blockSize, chunkBlocks);
        var r;
        ok, r := SendChunk(start, count, k, sent);
        if !ok {
          return;
        }
        sent := sent + r;
        k := k + Min(count - k, chunkBlocks);
        GoingIs(false, start, count, k);
      }
      GoingIs(false, start, count, k);
      Exhausted(count, k, blockSize, chunkBlocks);
      AllSent(medium, start, count, blockSize, sent);
    }

    /** WRITE in any form. Without blocks no command is sent. With a negative total the controller cannot
        receive the first chunk, and resets the bus before a command is sent. */
    method Write(cdb: Bytes, data: Bytes) returns (ok: bool, ghost k: nat)
      requires Valid() && IsCdb(cdb) && IsWrite(cdb) && StartField(cdb) + CountField(cdb) <= AddressLimit(cdb[0])
      requires |data| == Offset(CountField(cdb), blockSize)
      modifies this, transfer
      ensures Total(cdb, blockSize) < 0 ==> !ok && issued == []
      ensures !ok && Total(cdb, blockSize) >= 0
              && Offset(StartField(cdb) + BlocksMoved(cdb, blockSize), blockSize) <= |medium| ==>
                old(Failed()) < Failed()
      ensures k <= BlocksMoved(cdb, blockSize)
      ensures ok ==> k == BlocksMoved(cdb, blockSize) && Tiles(issued, StartField(cdb), k, chunkBlocks)
      ensures ok ==> transfer.exchanged == old(transfer.exchanged) + Offset(k, blockSize)
      ensures BlocksMoved(cdb, blockSize) == 0 ==> issued == []
      ensures Patched(old(medium), medium, Offset(StartField(cdb), blockSize), data, Offset(k, blockSize))
    {
      ghost var start, count := StartField(cdb), BlocksMoved(cdb, blockSize);
      NoPatch(medium, Offset(start, blockSize), data, blockSize);
      TotalBlocks(cdb, chunkBlocks, blockSize);
      hide *;
      k := 0;
      SetUp(cdb);
      FailedIs();
      transfer.SetCurrentLength(transfer.chunkSize);
      if transfer.currentLength != 0 {
        var moved := transfer.HandShake(transfer.currentLength);
        FailedIs();
        if moved != transfer.currentLength {
          return false, 0;
        }
      }
      ok, k := TakeChunks(data, start, count);
    }

    /** The chunks of a WRITE. */
    method TakeChunks(data: Bytes, ghost start: nat, ghost count: nat) returns (ok: bool, ghost k: nat)
      requires Going(true, start, count, 0) && Offset(count, blockSize) <= |data| && issued == []
      modifies this`medium, this`issued, this`remainingCount, this`failures, localCdb, transfer
      ensures |medium| == |old(medium)| && old(Failed()) <= Failed()
      ensures !ok && Offset(start + count, blockSize) <= |medium| ==> old(Failed()) < Failed()
      ensures k <= count && (ok ==> k == count && Tiles(issued, start, count, chunkBlocks))
      ensures count == 0 ==> issued == []
      ensures ok ==>
                transfer.exchanged + old(transfer.chunkSize) == old(transfer.exchanged) + Offset(k, blockSize)
      ensures Patched(old(medium), medium, Offset(start, blockSize), data, Offset(k, blockSize))
    {
      hide *;
      k := 0;
      ok := true;
      var received := 0;
      NoPatch(medium, Offset(start, blockSize), data, blockSize);
      GoingIs(true, start, count, 0);
      while transfer.remainingLength > 0
        invariant ok && localCdb == old(localCdb) && k <= count && (count == 0 ==> issued == [])
        invariant |medium| == |old(medium)| && old(Failed()) <= Failed()
        invariant transfer.exchanged + old(transfer.chunkSize)
               == old(transfer.exchanged) + received + transfer.chunkSize
        invariant Going(true, start, count, k) && received == Offset(k, blockSize)
        invariant Patched(old(medium), medium, Offset(start, blockSize), data, received)
        decreases transfer.remainingLength
      {
        GoingIs(true, start, count, k);
        Exhausted(count, k, blockSize, chunkBlocks);
        var length := transfer.chunkSize;
        ghost var m := Min(count - k, chunkBlocks);
        ok := TakeChunk(data, received, start, count, k, old(medium));
        if !ok {
          return;
        }
        OffsetSum(k, m, blockSize);
        received := received + length;
        k := k + m;
        GoingIs(true, start, count, k);
        Exhausted(count, k, blockSize, chunkBlocks);
        if transfer.remainingLength > 0 {
          FailedIs();
          var moved := transfer.HandShake(transfer.currentLength);
          FailedIs();
          if moved != transfer.currentLength {
            return false, k;
          }
          GoingIs(true, start, count, k);
        }
      }
      GoingIs(true, start, count, k);
      Exhausted(count, k, blockSize, chunkBlocks);
    }
  }

  /** byte_count: the total has 32 bits. */
  function Total(cdb: Bytes, size: nat): int
    requires IsCdb(cdb)
  {
    AsInt(Offset(CountField(cdb), size))
  }

  /** A number of 32 bits without a sign. */
  function Unsigned(n: int): nat {
    n % 0x1_0000_0000
  }

  /** The blocks that the driver gets at once for a total that is not positive. */
  function UnsignedBlocks(cdb: Bytes, size: nat): nat
    requires IsCdb(cdb) && size > 0
  {
    Unsigned(Total(cdb, size)) / size
  }

  /** A chunk of m blocks, or a negative total that stands for m blocks. */
  ghost predicate IsChunk(remaining: int, chunk: int, m: nat, c: nat, size: nat) {
    if chunk >= 0 then m <= c && chunk == Offset(m, size) <= remaining
    else chunk == remaining && 0 <= chunk + 0x1_0000_0000 == Offset(m, size)
  }

  lemma ChunkLength(remaining: int, chunk: int, m: nat, c: nat, size: nat)
    requires IsChunk(remaining, chunk, m, c, size) && size > 0 && Offset(c, size) == MAX_TRANSFER_LENGTH
    ensures (if chunk < MAX_TRANSFER_LENGTH then chunk else MAX_TRANSFER_LENGTH) == chunk <= remaining
    ensures Unsigned(chunk) == Offset(m, size) && Unsigned(chunk) / size == m
  {
    if chunk >= 0 {
      OffsetAscends(m, c, size);
    }
    OffsetQuotient(m, size);
  }

  lemma SmallChunk(remaining: int, chunk: int, m: nat, c: nat, size: nat)
    requires m <= c && chunk == Offset(m, size) <= remaining
    ensures IsChunk(remaining, chunk, m, c, size)
  {
  }

  /** The command for a total that is not positive has the blocks that its low 32 bits stand for. */
  lemma FirstUnsigned(cdb: Bytes, c: nat, size: nat)
    requires IsCdb(cdb) && size > 0 && Offset(c, size) == MAX_TRANSFER_LENGTH && Total(cdb, size) <= 0
    ensures var total, m := Total(cdb, size), UnsignedBlocks(cdb, size);
            && m <= CountField(cdb) && IsChunk(total, total, m, c, size)
            && (total == 0 ==> m == 0 == BlocksMoved(cdb, size)) && (total < 0 ==> BlocksMoved(cdb, size) == 0)
  {
    hide *;
    TotalIs(cdb, size);
    FirstUnsignedOf(CountField(cdb), c, size);
  }

  lemma TotalIs(cdb: Bytes, size: nat)
    requires IsCdb(cdb) && size > 0
    ensures Total(cdb, size) == AsInt(Offset(CountField(cdb), size))
    ensures UnsignedBlocks(cdb, size) == Unsigned(Total(cdb, size)) / size
    ensures Total(cdb, size) <= 0 ==> BlocksMoved(cdb, size) == 0
  {
  }

  lemma FirstUnsignedOf(count: nat, c: nat, size: nat)
    requires size > 0 && Offset(c, size) == MAX_TRANSFER_LENGTH && AsInt(Offset(count, size)) <= 0
    ensures var total := AsInt(Offset(count, size));
            var n := Unsigned(total) / size;
            n <= count && IsChunk(total, total, n, c, size) && (total == 0 ==> n == 0)
  {
    hide *;
    var total, m := AsInt(Offset(count, size)), c * 0x1_0000;
    WholeWords(c, size);
    LowBytes(count, size, m);
    UnsignedOfInt(Offset(count, size));
    OffsetQuotient(count % m, size);
    SmallRemainder(count, m);
    ChunkOfInt(total, count % m, c, size);
  }

  lemma UnsignedOfInt(n: nat)
    ensures Unsigned(AsInt(n)) == n % 0x1_0000_0000 && AsInt(n) >= -0x8000_0000
  {
  }

  lemma ChunkOfInt(total: int, n: nat, c: nat, size: nat)
    requires Unsigned(total) == Offset(n, size) && -0x8000_0000 <= total <= 0 && size > 0
    ensures IsChunk(total, total, n, c, size) && (total == 0 ==> n == 0)
  {
    assert Offset(0, size) == 0;
    if n > 0 {
      OffsetAscends(1, n, size);
      OneOffset(size);
    }
    hide Offset;
  }

  /** READ(12) or READ(16) of 2 GiB: instead of chunks the driver gets one command for all blocks. */
  lemma TwoGigabytes(cdb: Bytes)
    requires IsCdb(cdb) && CountField(cdb) == 0x40_0000
    ensures Total(cdb, 512) == -0x8000_0000 && UnsignedBlocks(cdb, 512) == 0x40_0000
  {
    OffsetIsProduct(0x40_0000, 512);
    hide CountField;
  }

  /** The blocks that are moved. */
  function BlocksMoved(cdb: Bytes, size: nat): nat
    requires IsCdb(cdb)
  {
    if size == 0 || Total(cdb, size) <= 0 then 0 else Total(cdb, size) / size
  }

  lemma TotalBlocks(cdb: Bytes, c: nat, size: nat)
    requires IsCdb(cdb) && size > 0 && Offset(c, size) == MAX_TRANSFER_LENGTH
    ensures BlocksMoved(cdb, size) <= CountField(cdb)
    ensures Offset(BlocksMoved(cdb, size), size) <= Offset(CountField(cdb), size)
    ensures Total(cdb, size) >= 0 ==> Total(cdb, size) == Offset(BlocksMoved(cdb, size), size)
    ensures BlocksMoved(cdb, size) == CountField(cdb) <==> Offset(CountField(cdb), size) < 0x8000_0000
  {
    var count := CountField(cdb);
    BlocksOf(count, c, size);
    OffsetAscends(BlocksMoved(cdb, size), count, size);
    hide CountField;
  }

  lemma BlocksOf(count: nat, c: nat, size: nat)
    requires size > 0 && Offset(c, size) == MAX_TRANSFER_LENGTH
    ensures var total := AsInt(Offset(count, size));
            var n := if total <= 0 then 0 else total / size;
            && n <= count && (total >= 0 ==> total == Offset(n, size))
            && (n == count <==> Offset(count, size) < 0x8000_0000)
  {
    var total := AsInt(Offset(count, size));
    assert Offset(0, size) == 0;
    if Offset(count, size) < 0x8000_0000 {
      OffsetQuotient(count, size);
      if count > 0 {
        OffsetAscends(1, count, size);
        OneOffset(size);
      }
    } else {
      var m := c * 0x1_0000;
      WholeWords(c, size);
      LowBytes(count, size, m);
      OffsetQuotient(count % m, size);
      SmallRemainder(count, m);
      hide Offset;
    }
  }

  lemma WholeWords(c: nat, size: nat)
    requires size > 0 && Offset(c, size) == MAX_TRANSFER_LENGTH
    ensures c > 0 && size * (c * 0x1_0000) == 0x1_0000_0000
  {
    OffsetIsProduct(c, size);
    assert c == 0 ==> c * size == 0;
    assert size * (c * 0x1_0000) == (c * size) * 0x1_0000;
  }

  lemma SmallRemainder(count: nat, m: nat)
    requires m > 0
    ensures count % m <= count
    ensures count < m ==> count % m == count
  {
  }

  /** READ(16) of 4 GiB: no block is read, and the command succeeds. */
  lemma FourGigabytes(cdb: Bytes)
    requires IsCdb(cdb) && CountField(cdb) == 0x80_0000
    ensures BlocksMoved(cdb, 512) == 0 && Total(cdb, 512) == 0
  {
    OffsetIsProduct(0x80_0000, 512);
  }

  lemma SameKind(a: Bytes, b: Bytes)
    requires IsCdb(a) && IsCdb(b) && a[0] == b[0]
    ensures |a| > 0 && IsTransfer(a[0]) && IsWrite(a) == IsWrite(b) && CountLimit(a[0]) == CountLimit(b[0])
            && StartLimit(a[0]) == StartLimit(b[0])
  {
  }

  lemma SmallModulus(m: nat, n: nat)
    requires m < n
    ensures m % n == m
  {
  }

  lemma NextChunk(count: nat, k: nat, m: nat, c: nat, size: nat)
    requires k < count && c > 0 && m == Min(count - k, c)
    ensures 0 < m <= count - k && m <= c && (k + m < count ==> m == c)
    ensures Offset(count - k, size) - Offset(m, size) == Offset(count - (k + m), size)
    ensures Offset(count, size) - Offset(count - k, size) == Offset(k, size)
    ensures Offset(k, size) + Offset(m, size) == Offset(k + m, size) <= Offset(count, size)
    ensures var rest, one := Offset(count - (k + m), size), Offset(m, size);
            (if rest < one then rest else one) == Offset(Min(count - (k + m), c), size)
    ensures Offset(m, size) <= Offset(count - k, size)
  {
    OffsetSum(count - (k + m), m, size);
    OffsetSum(k, count - k, size);
    OffsetSum(k, m, size);
    OffsetAscends(k + m, count, size);
    var rest := count - (k + m);
    if rest > 0 {
      if rest < m {
        OffsetAscends(rest, m, size);
      } else {
        OffsetAscends(m, rest, size);
      }
    }
  }

  lemma NextAddress(start: nat, count: nat, k: nat, opcode: byte)
    requires k <= count && IsTransfer(opcode) && start + count <= StartLimit(opcode)
    ensures k < count ==> Wrapped(start + k, opcode) == start + k
  {
  }

  lemma PatchOf(before: Bytes, after: Bytes, pos: nat, data: Bytes)
    requires pos + |data| <= |before| && after == Splice(before, pos, data)
    ensures Patched(before, after, pos, data, |data|)
  {
    assert data[..|data|] == data;
  }

  /** The block addresses that the local command has room for. */
  function AddressLimit(opcode: byte): nat
    requires IsTransfer(opcode)
  {
    if opcode == READ_6 || opcode == WRITE_6 then StartLimit(READ_10) else StartLimit(opcode)
  }

  lemma FirstSize(count: nat, c: nat, size: nat)
    requires Offset(c, size) == MAX_TRANSFER_LENGTH
    ensures var n := Offset(count, size);
            (if n < MAX_TRANSFER_LENGTH then n else MAX_TRANSFER_LENGTH) == Offset(Min(count, c), size)
  {
    if count < c {
      OffsetAscends(count, c, size);
    } else {
      OffsetAscends(c, count, size);
    }
  }

  lemma Limits(cdb: Bytes, local: Bytes)
    requires IsCdb(cdb) && IsCdb(local) && local[0] !in {READ_6, WRITE_6} && CountField(cdb) == CountField(local)
    requires cdb[0] in {READ_6, WRITE_6} ==> local[0] in {READ_10, WRITE_10}
    requires cdb[0] !in {READ_6, WRITE_6} ==> local[0] == cdb[0]
    ensures StartLimit(local[0]) == AddressLimit(cdb[0]) && CountField(local) < CountLimit(local[0])
  {
  }

  lemma Exhausted(count: nat, k: nat, size: nat, c: nat)
    requires k <= count && size > 0 && Offset(c, size) == MAX_TRANSFER_LENGTH
    ensures c > 0 && Offset(0, size) == 0
    ensures k < count <==> Offset(count - k, size) > 0
    ensures k == count <==> Offset(count - k, size) == 0
    ensures k < count ==>
              && 0 < Min(count - k, c) <= count - k
              && Offset(count - (k + Min(count - k, c)), size) < Offset(count - k, size)
    ensures k == count ==> Min(count - k, c) == 0
  {
    if k < count {
      OffsetAscends(1, count - k, size);
      OneOffset(size);
      var m := Min(count - k, c);
      OffsetSum(count - (k + m), m, size);
      OffsetAscends(1, m, size);
    }
  }

  /** The first k blocks of a READ were sent. */
  predicate IsSent(medium: Bytes, start: nat, k: nat, size: nat, sent: Bytes) {
    if k == 0 then sent == []
    else Offset(start + k, size) <= |medium| && sent == SectorRange(medium, start, k, size)
  }

  lemma NothingSent(medium: Bytes, start: nat, size: nat)
    ensures IsSent(medium, start, 0, size, [])
  {
  }

  lemma AllSent(medium: Bytes, start: nat, k: nat, size: nat, sent: Bytes)
    requires k > 0 && IsSent(medium, start, k, size, sent)
    ensures Offset(start + k, size) <= |medium| && sent == SectorRange(medium, start, k, size)
  {
  }

  lemma MoreSent(medium: Bytes, start: nat, k: nat, m: nat, size: nat, sent: Bytes, r: Bytes)
    requires IsSent(medium, start, k, size, sent) && m > 0 && Offset(start + k + m, size) <= |medium|
    requires r == SectorRange(medium, start + k, m, size)
    ensures IsSent(medium, start, k + m, size, sent + r)
  {
    hide SectorRange, Offset;
    if k > 0 {
      RangeJoins(medium, start, k, m, size);
    } else {
      assert [] + r == r;
    }
  }

  lemma NoPatch(f: Bytes, pos: nat, data: Bytes, size: nat)
    ensures Offset(0, size) == 0 && Patched(f, f, pos, data, Offset(0, size))
  {
  }

  /** The blocks that a command asks for: with 6 bytes the count 0 stands for 256. */
  function BlocksAskedFor(cdb: Bytes): nat
    requires IsCdb(cdb)
  {
    if cdb[0] in {READ_6, WRITE_6} && cdb[4] == 0 then 256 else CountField(cdb)
  }

  /** The blocks that READ and WRITE move are those that the command asks for, except for READ(6) and
      WRITE(6) with the count 0 and for totals of 2 GiB and more. */
  lemma MovedIsAskedFor(cdb: Bytes, c: nat, size: nat)
    requires IsCdb(cdb) && size > 0 && Offset(c, size) == MAX_TRANSFER_LENGTH
    ensures BlocksMoved(cdb, size) == BlocksAskedFor(cdb) <==>
              !(cdb[0] in {READ_6, WRITE_6} && cdb[4] == 0) && Offset(CountField(cdb), size) < 0x8000_0000
  {
    TotalBlocks(cdb, c, size);
    hide Offset, BlocksMoved;
  }
}
