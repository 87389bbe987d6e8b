/** The tape drive: positioning, and moving records in chunks of one block. The image file has a
    fixed size (no append mode), and its meta data and end-of-data markers are those of SIMH. */
module Tapes {
  import opened ImageFiles
  import opened MemoryUtil
  import opened Simh
  import opened TapeWalk
  import opened TapeSpacing
  import opened TapeReading
  import opened TapeRecords
  import opened Transfers

  /** The sense data of a command that was given up. */
  datatype SenseData = SenseData(information: int, filemark: bool, eom: bool)

  /** The sense data for the reasons to give up a search. `requested` is the byte count of a READ in
      variable-length mode, which is reported for a filemark. */
  function SenseOf(stop: Stop, reverse: bool, read: bool, fixed: bool, requested: int, old_: SenseData): SenseData {
    match stop
    case AtBeginning(count) => SenseData(count, old_.filemark, true)
    case AtEndOfMedium(count) => SenseData(count, old_.filemark, true)
    case AtEndOfData(count) => old_.(information := count)
    case AtFilemark(count) =>
      SenseData(if read && !fixed then requested else if reverse then -count else count, true, old_.eom)
    case MediumError => old_
  }

  /** Drives accept multiples of 4. The controller counts no more than 24 bits. */
  predicate IsBlockSize(size: nat) {
    0 < size < 0x100_0000 && size % 4 == 0
  }

  /** The chunk that follows the first k bytes of the data of a WRITE. In fixed mode this is block m
      of n blocks. */
  ghost predicate IsNext(fixed: bool, size: nat, buf: Bytes, data: Bytes, k: nat, m: nat, n: nat) {
    && 0 < |buf| && k + |buf| <= |data| && buf == data[k..k + |buf|]
    && if fixed then |buf| == size && |data| == Offset(n, size) && m < n else m == n == 0
  }

  /** The number of complete blocks after another chunk. */
  function NextIndex(fixed: bool, m: nat): nat {
    if fixed then m + 1 else m
  }

  class Tape {
    const controller: Transfer
    const blockSize: nat
    const fileSize: nat
    var bytes: Bytes
    var tapePosition: int
    var objectLocation: int
    var initial: bool
    var fixed: bool
    var incorrectLength: bool
    var blocksRead: int
    var recordStart: int
    var recordLength: nat
    var byteCount: nat
    var remainingCount: int
    var sense: SenseData

    constructor (image: Bytes, size: nat)
      requires IsBlockSize(size) && |image| >= 12
      ensures Valid() && bytes == image && blockSize == size && fileSize == |image| && Where() == Head(0, 0)
              && fresh(controller)
    {
      controller := new Transfer();
      blockSize, fileSize, bytes := size, |image|, image;
      tapePosition, objectLocation, initial, fixed, incorrectLength := 0, 0, false, false, false;
      blocksRead, recordStart, recordLength, byteCount, remainingCount := 0, 0, 0, 0, 0;
      sense := SenseData(0, false, false);
    }

    ghost predicate Valid()
      reads this`bytes
    {
      IsBlockSize(blockSize) && 0 < blockSize < 0x100_0000 && Even(blockSize) && |bytes| >= fileSize >= 12
    }

    function Where(): Head
      reads this`tapePosition, this`objectLocation
    {
      Head(tapePosition, objectLocation)
    }

    // Positioning

    method ResetPositions()
      modifies this`tapePosition, this`objectLocation
      ensures Where() == Head(0, 0)
    {
      tapePosition, objectLocation := 0, 0;
    }

    method UpdateObjectLocation(m: MetaData, reverse: bool)
      modifies this`objectLocation
      ensures objectLocation == old(objectLocation) + if reverse then -Number(m) else Number(m)
    {
      if IsRecord(m) || (m.cls == BAD_DATA && m.value == 0) || (m.cls == GOOD_DATA && m.value == 0) {
        objectLocation := objectLocation + if reverse then -1 else 1;
      }
    }

    /** Reads one meta data word and moves over it, in reverse also over the record it ends. */
    method ReadNextMetaData(reverse: bool) returns (more: bool, failed: bool, m: MetaData)
      modifies this`tapePosition
      ensures reverse ==> !failed && (more <==> old(tapePosition) >= META_DATA_SIZE)
      ensures reverse && more ==>
                && m == ReadMetaData(bytes, old(tapePosition) - META_DATA_SIZE)
                && tapePosition == old(tapePosition) - META_DATA_SIZE - Rest(m)
      ensures !reverse ==> more && (failed <==> old(tapePosition) < 0)
      ensures !reverse && failed ==> tapePosition == old(tapePosition)
      ensures !reverse && !failed ==>
                && m == ReadMetaData(bytes, old(tapePosition))
                && tapePosition == old(tapePosition) + META_DATA_SIZE
    {
      m, failed, more := MetaData(0, 0), false, true;
      if reverse {
        tapePosition := tapePosition - META_DATA_SIZE;
        if tapePosition < 0 {
          more := false;
          return;
        }
        m := ReadMetaData(bytes, tapePosition);
        tapePosition := tapePosition - if IsRecord(m) then Pad(m.value) + META_DATA_SIZE else 0;
      } else {
        if tapePosition < 0 {
          failed := true;
          return;
        }
        m := ReadMetaData(bytes, tapePosition);
        tapePosition := tapePosition + META_DATA_SIZE;
      }
    }

    /** The next object in either direction, for any content of the file. */
    method ReadSimhMetaData(reverse: bool) returns (s: Search)
      modifies this`tapePosition, this`objectLocation
      ensures s == if reverse then NextReverse(bytes, old(Where())) else NextForward(bytes, old(Where()))
      ensures !s.BeginningReached? ==> Where() == s.head
    {
      hide Pad, IsRecord, ReadMetaData, FromLittleEndian;
      ghost var start := Where();
      while true
        invariant (if reverse then NextReverse(bytes, start) else NextForward(bytes, start))
               == (if reverse then NextReverse(bytes, Where()) else NextForward(bytes, Where()))
        decreases if reverse then tapePosition else |bytes| - tapePosition
      {
        var before := Where();
        var more, failed, m := ReadNextMetaData(reverse);
        if !more {
          return BeginningReached;
        }
        if failed {
          return Unreadable(before);
        }
        UpdateObjectLocation(m, reverse);
        match See(m) {
          case Visible(kind, length) => return Found(kind, length, m, Where());
          case MediumEnd => return EndReached(Where());
          case Skipped =>
            if !reverse && IsRecord(m) {
              tapePosition := tapePosition + Pad(m.value) + META_DATA_SIZE;
            }
            PastEnd(bytes, before.pos);
        }
      }
    }

    /** The outcome of a search, with the count negated first for a search in reverse. */
    ghost function SearchFrom(h: Head, wanted: Kind, count: int, read: bool): Walk
      reads this`bytes
    {
      if count < 0 then FindReverse(bytes, h, wanted, -count, read) else FindForward(bytes, h, wanted, count, read)
    }

    /** Searches for objects in either direction. The sense data hold what is left of the count. */
    method FindNextObject(wanted: Kind, count: int, read: bool, requested: int) returns (w: Walk)
      modifies this`tapePosition, this`objectLocation, this`sense
      ensures w == SearchFrom(old(Where()), wanted, count, read) && Where() == w.head
      ensures w.Done? ==> sense == old(sense)
      ensures w.Stopped? ==> sense == SenseOf(w.stop, count < 0, read, fixed, requested, old(sense))
    {
      hide NextForward, NextReverse;
      var reverse := count < 0;
      var left := if reverse then -count else count;
      ghost var start := Where();
      while true
        invariant SearchFrom(start, wanted, count, read)
               == if reverse then FindReverse(bytes, Where(), wanted, left, read)
                  else FindForward(bytes, Where(), wanted, left, read)
        invariant sense == old(sense)
        decreases if reverse then tapePosition else |bytes| - tapePosition
      {
        NextForwardAdvances(bytes, Where());
        NextReverseAdvances(bytes, Where());
        var found := ReadSimhMetaData(reverse);
        match found {
          case BeginningReached =>
            ResetPositions();
            w := Stopped(AtBeginning(left), Where());
            sense := SenseOf(w.stop, reverse, read, fixed, requested, sense);
            return;
          case EndReached(_) =>
            w := Stopped(AtEndOfMedium(left), Where());
            sense := SenseOf(w.stop, reverse, read, fixed, requested, sense);
            return;
          case Unreadable(_) =>
            return Stopped(MediumError, Where());
          case Found(kind, length, m, _) =>
            if read && kind == Block && length == 0 {
              return Done(m, Where());
            }
            if !reverse && IsRecord(m) {
              tapePosition := tapePosition + Pad(m.value) + META_DATA_SIZE;
            }
            if kind == EndOfData {
              if wanted == EndOfData {
                return Done(m, Where());
              }
              tapePosition := tapePosition - META_DATA_SIZE;
              w := Stopped(AtEndOfData(left), Where());
              sense := SenseOf(w.stop, reverse, read, fixed, requested, sense);
              return;
            } else if kind == Filemark && wanted == Block {
              w := Stopped(AtFilemark(left), Where());
              sense := SenseOf(w.stop, reverse, read, fixed, requested, sense);
              return;
            }
            if wanted != EndOfData && kind == wanted {
              left := left - 1;
              if left <= 0 {
                return Done(m, Where());
              }
            }
        }
      }
    }

    /** SPACE(6). Counts are signed; other object types than these are rejected. */
    method Space6(code: nat, count: int) returns (done: bool, ghost w: Walk)
      modifies this`tapePosition, this`objectLocation, this`sense
      ensures code !in {0, 1, 3} ==> !done && Where() == old(Where())
      ensures code in {0, 1} && count == 0 ==> done && Where() == old(Where())
      ensures code in {0, 1} && count != 0 ==>
                && w == SearchFrom(old(Where()), ObjectType(code), count, false)
                && Where() == w.head && done == w.Done?
                && (!done ==> sense == SenseOf(w.stop, count < 0, false, fixed, 0, NO_SENSE))
      ensures code == 3 ==>
                && w == SearchFrom(old(Where()), EndOfData, 0, false) && done == w.Done?
                && Where() == (if done then w.head.(pos := w.head.pos - META_DATA_SIZE) else w.head)
                && (!done ==> sense == SenseOf(w.stop, false, false, fixed, 0, NO_SENSE))
    {
      done, w, sense := true, Done(END_OF_DATA_MARKER, Where()), NO_SENSE;
      match ObjectType(code) {
        case Block =>
          if count != 0 {
            var r := FindNextObject(Block, count, false, 0);
            done, w := r.Done?, r;
          }
        case Filemark =>
          if count != 0 {
            var r := FindNextObject(Filemark, count, false, 0);
            done, w := r.Done?, r;
          }
        case EndOfData =>
          var r := FindNextObject(EndOfData, 0, false, 0);
          done, w := r.Done?, r;
          if done {
            tapePosition := tapePosition - META_DATA_SIZE;
          }
        case OtherKind =>
          done := false;
      }
    }

    /** Counts objects down to the identifier, from the current position. */
    method FindObject(identifier: nat) returns (l: Location)
      modifies this`tapePosition, this`objectLocation, this`sense
      ensures l == TapeSpacing.FindObject(bytes, old(Where()), identifier) && Where() == l.head
    {
      hide NextForward;
      var id := identifier;
      ghost var start := Where();
      while true
        invariant TapeSpacing.FindObject(bytes, start, identifier) == TapeSpacing.FindObject(bytes, Where(), id)
        decreases |bytes| - tapePosition
      {
        NextForwardAdvances(bytes, Where());
        var found := ReadSimhMetaData(false);
        match found {
          case BeginningReached =>
            ResetPositions();
            return LocateStopped(MediumError, Where());
          case EndReached(_) =>
            sense := SenseData(0, sense.filemark, true);
            return LocateStopped(AtEndOfMedium(0), Where());
          case Unreadable(_) =>
            return LocateStopped(MediumError, Where());
          case Found(_, _, m, _) =>
            if m.cls == PRIVATE_MARKER && m.value % 0x100_0000 == PRIVATE_MARKER_MAGIC {
              return NotLocated(Where());
            }
            if IsNumbered(m) {
              tapePosition := tapePosition + if IsRecord(m) then Pad(m.value) + META_DATA_SIZE else 0;
              id := Decrement(id);
              if id == 0 {
                return LocatedAt(Where());
              }
            }
        }
      }
    }

    /** LOCATE to an object number. */
    method Locate(identifier: nat) returns (l: Location)
      modifies this`tapePosition, this`objectLocation, this`sense
      ensures l == TapeSpacing.Locate(bytes, identifier) && Where() == l.head
    {
      sense := NO_SENSE;
      ResetPositions();
      if identifier != 0 {
        l := FindObject(identifier % 0x1_0000_0000);
      } else {
        l := LocatedAt(Where());
      }
    }

    lemma SearchIs(h: Head, wanted: Kind, count: int)
      ensures SearchFrom(h, wanted, count, false)
           == if count < 0 then FindReverse(bytes, h, wanted, -count, false)
              else FindForward(bytes, h, wanted, count, false)
    {
      hide FindForward, FindReverse;
    }

    /** LOCATE answers with GOOD whether the object was found or not, unless the search was given up. */
    method LocateCommand(identifier: nat) returns (good: bool, ghost l: Location)
      modifies this`tapePosition, this`objectLocation, this`sense
      ensures l == TapeSpacing.Locate(bytes, identifier) && Where() == l.head
      ensures good <==> l.LocatedAt? || l.NotLocated?
    {
      var found := Locate(identifier);
      l := found;
      good := !found.LocateStopped?;
    }

    /** READ POSITION: the reply has the bits BOP and EOP, and twice the object number or, with BT, the
        byte position, in 32 bits. */
    method ReadPosition(bt: bool) returns (reply: Bytes)
      ensures |reply| == 20 && GetInt32(reply, 4) == GetInt32(reply, 8)
      ensures SameModulo(if bt then tapePosition else objectLocation, GetInt32(reply, 4))
      ensures HasBits(reply[0], tapePosition == 0, tapePosition >= fileSize)
      ensures forall k :: 0 < k < 4 || 12 <= k < 20 ==> reply[k] == 0
    {
      hide *;
      var buf := new byte[20](_ => 0);
      if tapePosition == 0 {
        buf[0] := 0x80;
      }
      if tapePosition >= fileSize {
        buf[0] := buf[0] + 0x40;
      }
      TwoBits(buf[0], tapePosition == 0, tapePosition >= fileSize);
      var value := if bt then tapePosition else objectLocation;
      Low32(value);
      ghost var first := buf[..];
      SetInt32(buf, 4, value % 0x1_0000_0000);
      SameOutsideIs(buf[..], first, 4, 4);
      ghost var second := buf[..];
      SetInt32(buf, 8, value % 0x1_0000_0000);
      SameOutsideIs(buf[..], second, 8, 4);
      Kept(buf[..], second, 8, 4, 4);
      reply := buf[..];
    }

    // Writing

    /** WriteSimhMetaData. The check for the end of the file counts the position twice. */
    method PutMetaData(m: MetaData) returns (ok: bool)
      requires Encodable(m) && fileSize <= |bytes|
      modifies this`bytes
      ensures |bytes| == |old(bytes)|
      ensures ok <==> tapePosition >= 0 && 2 * tapePosition + META_DATA_SIZE <= fileSize
      ensures ok ==> bytes == Splice(old(bytes), tapePosition, ToLittleEndian(m))
      ensures !ok ==> bytes == old(bytes)
    {
      if tapePosition < 0 || tapePosition + (tapePosition + META_DATA_SIZE) > fileSize {
        return false;
      }
      bytes := Splice(bytes, tapePosition, ToLittleEndian(m));
      return true;
    }

    /** WriteMetaData: the word, and an end-of-data marker behind it if there is room for one. */
    method WriteMetaData(kind: Kind, size: nat, ghost f0: Bytes, ghost p: nat, ghost w: Bytes) returns (ok: bool)
      requires Valid() && kind in {Block, Filemark, EndOfData} && size < 0x1000_0000
      requires Written(f0, bytes, p, w) && tapePosition == p + |w|
      modifies this`bytes, this`tapePosition
      ensures |bytes| == |old(bytes)|
      ensures !ok ==> !Room(fileSize, p + |w| + if kind == EndOfData then 0 else META_DATA_SIZE)
      ensures ok && kind != EndOfData ==>
                && Room(fileSize, old(tapePosition)) && tapePosition == p + |w| + META_DATA_SIZE
                && Written(f0, bytes, p, w + LengthWord(size))
      ensures ok && kind == Filemark ==>
                && Room(fileSize, tapePosition) && p + |w| + 2 * META_DATA_SIZE <= |f0|
                && bytes == Splice(f0, p, w + LengthWord(size) + ToLittleEndian(END_OF_DATA_MARKER))
      ensures ok && kind == EndOfData ==> Written(f0, bytes, p, w) && tapePosition == p + |w|
      ensures ok && kind == EndOfData && p + |w| + META_DATA_SIZE <= fileSize ==>
                Room(fileSize, tapePosition) && bytes == Splice(f0, p, w + ToLittleEndian(END_OF_DATA_MARKER))
    {
      hide Written, ToLittleEndian;
      ghost var w1 := w;
      LengthsOfWritten(f0, bytes, p, w);
      if kind == Block || kind == Filemark {
        ok := PutMetaData(MetaData(GOOD_DATA, size));
        if !ok {
          return;
        }
        WriteMore(f0, old(bytes), p, w, LengthWord(size));
        tapePosition := tapePosition + META_DATA_SIZE;
        w1 := w + LengthWord(size);
      }
      ok := true;
      if fileSize >= tapePosition + META_DATA_SIZE {
        ghost var before := bytes;
        ok := PutMetaData(END_OF_DATA_MARKER);
        if ok {
          WriteMarker(f0, before, p, w1, ToLittleEndian(END_OF_DATA_MARKER));
        }
      }
    }

    method IsAtRecordBoundary() returns (boundary: bool)
      modifies this`initial
      ensures !initial
      ensures boundary == (fixed || old(initial) || remainingCount == 0 || byteCount - remainingCount == recordLength)
    {
      boundary := fixed || initial || remainingCount == 0 || byteCount - remainingCount == recordLength;
      initial := false;
    }

    /** A WRITE is under way: k bytes of its data, in m complete blocks in fixed mode, are on the tape. */
    ghost predicate Writing(f0: Bytes, p: nat, data: Bytes, k: nat, m: nat)
      reads this
    {
      && Valid() && k <= |data| == byteCount && (fixed || |data| < 0x1000_0000) && remainingCount == |data| - k
      && Even(p)
      && (if fixed then recordLength == blockSize && k == Offset(m, blockSize)
          else recordLength == |data| && (initial <==> k == 0))
      && Written(f0, bytes, p, Stream(fixed, data, blockSize, k, m))
      && tapePosition == p + |Stream(fixed, data, blockSize, k, m)|
    }

    /** A WRITE has left nothing but its records and the end-of-data marker behind them. */
    ghost predicate Completed(f0: Bytes, p: nat, stream: Bytes)
      reads this
    {
      && Room(fileSize, tapePosition) && p + |stream| + META_DATA_SIZE <= |f0|
      && bytes == Splice(f0, p, stream + ToLittleEndian(END_OF_DATA_MARKER))
    }

    /** WriteData, first part: the leading length if a record starts. */
    method Lead(ghost f0: Bytes, ghost p: nat, ghost data: Bytes, ghost k: nat, ghost m: nat)
      returns (ok: bool, ghost s: Bytes)
      requires Writing(f0, p, data, k, m) && k < |data|
      modifies this`bytes, this`tapePosition, this`initial
      ensures |bytes| == |old(bytes)| && !initial
      ensures s == Stream(fixed, data, blockSize, k, m) + if fixed || k == 0 then LengthWord(recordLength) else []
      ensures !ok ==> !Room(fileSize, p + |s|)
      ensures ok ==> Written(f0, bytes, p, s) && tapePosition == p + |s|
    {
      ghost var s0 := Stream(fixed, data, blockSize, k, m);
      hide Written, ToLittleEndian, Stream;
      s := s0 + if fixed || k == 0 then LengthWord(recordLength) else [];
      ok := true;
      var boundary := IsAtRecordBoundary();
      if boundary {
        ok := WriteMetaData(Block, recordLength, f0, p, s0);
      } else {
        assert s == s0;
      }
    }

    /** WriteData, second part: the data. */
    method PutData(buf: Bytes, ghost f0: Bytes, ghost p: nat, ghost s: Bytes) returns (ok: bool)
      requires Valid() && Written(f0, bytes, p, s) && tapePosition == p + |s| && |buf| <= byteCount
      modifies this`bytes, this`tapePosition, this`remainingCount
      ensures |bytes| == |old(bytes)|
      ensures !ok ==> p + |s + buf| > fileSize
      ensures ok ==> p + |s + buf| <= |bytes| && Written(f0, bytes, p, s + buf) && tapePosition == p + |s + buf|
      ensures ok ==> remainingCount == old(remainingCount) - |buf|
    {
      hide ToLittleEndian;
      var length := if byteCount < |buf| then byteCount else |buf|;
      if tapePosition + length > fileSize {
        return false;
      }
      assert buf[..length] == buf;
      WriteMore(f0, bytes, p, s, buf);
      bytes := Splice(bytes, tapePosition, buf[..length]);
      remainingCount := remainingCount - length;
      tapePosition := tapePosition + length;
      ok := true;
    }

    /** WriteData, third part: the padding byte and the trailing length of a complete record. */
    method Trail(ghost f0: Bytes, ghost p: nat, ghost s: Bytes) returns (ok: bool)
      requires Valid() && p + |s| <= |bytes| && Written(f0, bytes, p, s) && tapePosition == p + |s|
      requires recordLength < 0x1000_0000
      modifies this`bytes, this`tapePosition, this`objectLocation
      ensures |bytes| >= |old(bytes)|
      ensures var w := s + Padding(p + |s|) + LengthWord(recordLength);
              && (ok <==> Room(fileSize, p + |w| - META_DATA_SIZE))
              && (ok ==> |bytes| == |old(bytes)| && Written(f0, bytes, p, w) && tapePosition == p + |w|)
      ensures ok ==> objectLocation == old(objectLocation) + 1
    {
      hide Written, ToLittleEndian, Splice, Padding;
      ghost var s1 := s + Padding(p + |s|);
      PutPadding(f0, p, s);
      ghost var before := bytes;
      ok := PutMetaData(MetaData(GOOD_DATA, recordLength));
      if ok {
        WriteMore(f0, before, p, s1, LengthWord(recordLength));
        tapePosition := tapePosition + META_DATA_SIZE;
        objectLocation := objectLocation + 1;
      }
    }

    /** A byte of zero behind data of odd length, even if it makes the file longer. */
    method PutPadding(ghost f0: Bytes, ghost p: nat, ghost s: Bytes)
      requires Valid() && p + |s| <= |bytes| && Written(f0, bytes, p, s) && tapePosition == p + |s|
      modifies this`bytes, this`tapePosition
      ensures Valid() && |bytes| >= |old(bytes)|
      ensures tapePosition == p + |s + Padding(p + |s|)|
      ensures |bytes| == |old(bytes)| ==> Written(f0, bytes, p, s + Padding(p + |s|))
      ensures |bytes| > |old(bytes)| ==> p + |s + Padding(p + |s|)| > |old(bytes)|
    {
      hide Written;
      LengthsOfWritten(f0, bytes, p, s);
      if tapePosition % 2 != 0 {
        if tapePosition < |bytes| {
          WriteMore(f0, bytes, p, s, [0]);
          bytes := Splice(bytes, tapePosition, [0]);
        } else {
          bytes := bytes + [0];
        }
        tapePosition := tapePosition + 1;
      } else {
        assert s + Padding(p + |s|) == s;
      }
    }

    /** The leading length and the data of a chunk. */
    method PutChunk(buf: Bytes, ghost f0: Bytes, ghost p: nat, ghost data: Bytes, ghost k: nat, ghost m: nat)
      returns (ok: bool, ghost s: Bytes)
      requires Writing(f0, p, data, k, m) && k < |data| && |buf| <= |data|
      modifies this`bytes, this`tapePosition, this`initial, this`remainingCount
      ensures Valid() && |bytes| == |old(bytes)| && !initial
      ensures s == WithChunk(Stream(fixed, data, blockSize, k, m), buf, recordLength, fixed || k == 0)
      ensures !ok ==> !Room(fileSize, p + |s|)
      ensures ok ==> p + |s| <= |bytes| && Written(f0, bytes, p, s) && tapePosition == p + |s|
      ensures ok ==> remainingCount == |data| - k - |buf|
    {
      hide Written, ToLittleEndian, Stream, Offset, Even;
      ok, s := Lead(f0, p, data, k, m);
      if ok {
        ok := PutData(buf, f0, p, s);
      }
      s := s + buf;
    }

    /** WriteData, third part: at the end of a record its trailing length. */
    method EndChunk(ghost f0: Bytes, ghost p: nat, ghost s: Bytes, ghost t: Bytes) returns (ok: bool)
      requires Valid() && p + |s| <= |bytes| && Written(f0, bytes, p, s) && tapePosition == p + |s|
      requires recordLength < 0x1000_0000 && !initial
      requires fixed || remainingCount == 0 || byteCount - remainingCount != recordLength
      requires t == WithTrail(s, p, recordLength, fixed || remainingCount == 0)
      modifies this`bytes, this`tapePosition, this`initial, this`objectLocation
      ensures Valid() && |bytes| >= |old(bytes)| && !initial
      ensures !ok ==> !Room(fileSize, p + |t|)
      ensures ok ==> |bytes| == |old(bytes)| && Written(f0, bytes, p, t) && tapePosition == p + |t|
      ensures ok && (fixed || remainingCount == 0) ==> Room(fileSize, tapePosition - META_DATA_SIZE)
      ensures ok ==> objectLocation == old(objectLocation) + if fixed || remainingCount == 0 then 1 else 0
    {
      hide Written, Padding, LengthWord;
      ok := true;
      var boundary := IsAtRecordBoundary();
      if boundary {
        ok := Trail(f0, p, s);
      }
    }

    /** The parts of Writing, for proofs that do not unfold it. */
    lemma WhileWriting(f0: Bytes, p: nat, data: Bytes, k: nat, m: nat)
      requires Writing(f0, p, data, k, m)
      ensures Valid() && 0 < blockSize < 0x1000_0000 && Even(blockSize) && Even(p)
      ensures k <= |data| == byteCount && (fixed || |data| < 0x1000_0000) && remainingCount == |data| - k
      ensures recordLength == (if fixed then blockSize else |data|) && recordLength < 0x1000_0000
      ensures fixed ==> k == Offset(m, blockSize)
    {
    }

    lemma StillWriting(f0: Bytes, p: nat, data: Bytes, k: nat, m: nat)
      requires Valid() && 0 < k <= |data| == byteCount && (fixed || |data| < 0x1000_0000) && Even(p)
      requires remainingCount == |data| - k && !initial && recordLength == (if fixed then blockSize else |data|)
      requires fixed ==> k == Offset(m, blockSize)
      requires var s := Stream(fixed, data, blockSize, k, m); Written(f0, bytes, p, s) && tapePosition == p + |s|
      ensures Writing(f0, p, data, k, m)
    {
    }

    /** WriteData without the end-of-data marker: a chunk extends the stream of the WRITE. */
    method PutStream(buf: Bytes, ghost f0: Bytes, ghost p: nat, ghost data: Bytes, ghost k: nat, ghost m: nat,
                     ghost n: nat)
      returns (ok: bool)
      requires Writing(f0, p, data, k, m) && IsNext(fixed, blockSize, buf, data, k, m, n)
      modifies this`bytes, this`tapePosition, this`initial, this`remainingCount, this`objectLocation
      ensures |bytes| >= |old(bytes)| && (ok ==> |bytes| == |old(bytes)|)
      ensures !ok ==> !Room(fileSize, p + |Stream(fixed, data, blockSize, |data|, n)|)
      ensures ok ==> Writing(f0, p, data, k + |buf|, NextIndex(fixed, m))
      ensures ok ==> objectLocation == old(objectLocation) + if fixed || k + |buf| == |data| then 1 else 0
      ensures ok && k + |buf| == |data| ==> NextIndex(fixed, m) == n && Room(fileSize, tapePosition - META_DATA_SIZE)
    {
      hide *;
      WhileWriting(f0, p, data, k, m);
      NextStream(fixed, data, blockSize, p, k, m, n, buf);
      ghost var t := Stream(fixed, data, blockSize, k + |buf|, NextIndex(fixed, m));
      ghost var s := WithChunk(Stream(fixed, data, blockSize, k, m), buf, recordLength, fixed || k == 0);
      RoomShrinks(fileSize, p + |s|, p + |t|, p + |Stream(fixed, data, blockSize, |data|, n)|);
      ok, s := PutChunk(buf, f0, p, data, k, m);
      if ok {
        ok := EndChunk(f0, p, s, t);
      }
      if ok {
        StillWriting(f0, p, data, k + |buf|, NextIndex(fixed, m));
      }
    }

    /** WriteData: one chunk of the data of a WRITE. */
    method WriteData(buf: Bytes, ghost f0: Bytes, ghost p: nat, ghost data: Bytes, ghost k: nat, ghost m: nat,
                     ghost n: nat)
      returns (ok: bool)
      requires Writing(f0, p, data, k, m) && IsNext(fixed, blockSize, buf, data, k, m, n)
      modifies this`bytes, this`tapePosition, this`initial, this`remainingCount, this`objectLocation
      ensures |bytes| >= |old(bytes)| && (ok ==> |bytes| == |old(bytes)|)
      ensures !ok ==> !Room(fileSize, p + |Stream(fixed, data, blockSize, |data|, n)|)
      ensures ok ==> Writing(f0, p, data, k + |buf|, NextIndex(fixed, m))
      ensures ok ==> objectLocation == old(objectLocation) + if fixed || k + |buf| == |data| then 1 else 0
      ensures ok && k + |buf| == |data| ==>
                NextIndex(fixed, m) == n && Completed(f0, p, Stream(fixed, data, blockSize, |data|, n))
    {
      hide Stream, ToLittleEndian, Written, Offset, Even, NextIndex, IsBlockSize, IsNext;
      ok := PutStream(buf, f0, p, data, k, m, n);
      if ok && remainingCount == 0 {
        ok := WriteMetaData(EndOfData, 0, f0, p, Stream(fixed, data, blockSize, |data|, n));
      }
    }

    /** WRITE up to the first DATA OUT phase. */
    method StartWrite(fixedMode: bool, length: nat, ghost data: Bytes)
      requires Valid() && tapePosition >= 0 && Even(tapePosition) && length > 0
      requires data != [] && |data| == if fixedMode then Offset(length, blockSize) else length
      requires fixedMode || length < 0x1000_0000
      modifies this`initial, this`remainingCount, this`fixed, this`byteCount, this`recordLength, controller
      ensures fixed == fixedMode && Writing(bytes, tapePosition, data, 0, 0)
      ensures controller.remainingLength == |data|
      ensures controller.currentLength == controller.chunkSize == Min(|data|, blockSize)
    {
      fixed := fixedMode;
      byteCount := ByteCount(fixed, length, blockSize);
      remainingCount := byteCount;
      recordLength := if fixed then blockSize else byteCount;
      initial := true;
      var size := if byteCount < blockSize then byteCount else blockSize;
      controller.SetTransferSize(byteCount, size);
      controller.SetCurrentLength(size);
      NothingWritten(bytes, tapePosition);
      StreamAtStart(fixed, data, blockSize);
      hide Written, Stream, IsBlockSize, Even;
    }

    /** The controller hands over the next chunk, until it has no more. */
    method TransferFromHost(data: Bytes, ghost f0: Bytes, ghost p: nat, ghost n: nat) returns (ok: bool)
      requires Writing(f0, p, data, 0, 0) && data != []
      requires if fixed then |data| == Offset(n, blockSize) else n == 0
      requires controller.remainingLength == |data|
      requires controller.currentLength == controller.chunkSize == Min(|data|, blockSize)
      modifies this`bytes, this`tapePosition, this`initial, this`remainingCount, this`objectLocation, controller
      ensures |bytes| >= |old(bytes)|
      ensures ok <==> Room(fileSize, p + |Stream(fixed, data, blockSize, |data|, n)|)
      ensures ok ==> Completed(f0, p, Stream(fixed, data, blockSize, |data|, n))
      ensures ok ==> tapePosition == p + |Stream(fixed, data, blockSize, |data|, n)|
      ensures ok ==> objectLocation == old(objectLocation) + if fixed then n else 1
    {
      hide Written, Stream, Offset, IsBlockSize, Room, ToLittleEndian, NextIndex, IsNext;
      ghost var k: nat, m: nat := 0, 0;
      ok := true;
      while controller.remainingLength > 0
        invariant Writing(f0, p, data, k, m) && |bytes| == |old(bytes)| && ok
        invariant controller.remainingLength == |data| - k
        invariant controller.currentLength == controller.chunkSize == Min(|data| - k, blockSize)
        invariant fixed || m == 0
        invariant objectLocation == old(objectLocation) + if fixed then m else if k == |data| then 1 else 0
        invariant k == |data| ==> m == n && Completed(f0, p, Stream(fixed, data, blockSize, |data|, n))
        decreases controller.remainingLength
      {
        NextIsNext(fixed, blockSize, data, k, m, n, controller.currentLength);
        var buf := data[|data| - controller.remainingLength..][..controller.currentLength];
        controller.UpdateOffsetAndLength();
        ok := WriteData(buf, f0, p, data, k, m, n);
        if !ok {
          return;
        }
        controller.UpdateTransferLength(|buf|);
        controller.SetCurrentLength(controller.chunkSize);
        controller.ResetOffset();
        k, m := k + |buf|, NextIndex(fixed, m);
      }
    }

    /** WRITE. In fixed mode the length counts blocks, otherwise it counts bytes. */
    method Write(fixedMode: bool, length: nat, data: Bytes) returns (ok: bool)
      requires Valid() && tapePosition >= 0 && Even(tapePosition) && length < 0x100_0000
      requires |data| == if fixedMode then Offset(length, blockSize) else length
      requires |data| < 0x8000_0000
      modifies this`bytes, this`tapePosition, this`initial, this`remainingCount, this`objectLocation, this`fixed,
        this`byteCount, this`recordLength, controller
      ensures |bytes| >= |old(bytes)|
      ensures ok <==>
                (length == 0
                 || Room(fileSize, old(tapePosition) + |Encode(Records(fixedMode, data, blockSize, length))|))
      ensures ok && length == 0 ==> bytes == old(bytes) && Where() == old(Where())
      ensures ok && length > 0 ==>
                var records := Records(fixedMode, data, blockSize, length);
                && old(tapePosition) + |Encode(records)| + META_DATA_SIZE <= |old(bytes)|
                && bytes == Splice(old(bytes), old(tapePosition), Encode(records) + ToLittleEndian(END_OF_DATA_MARKER))
                && Where() == Head(old(tapePosition) + |Encode(records)|, old(objectLocation) + |records|)
    {
      hide Written, Stream, Offset, IsBlockSize, ToLittleEndian, Encode, Records, Splice;
      fixed := fixedMode;
      if length == 0 {
        return true;
      }
      if fixedMode {
        OneOffset(blockSize);
        OffsetAscends(1, length, blockSize);
      }
      StreamOfRecords(fixedMode, data, blockSize, length);
      hide Even, Room;
      StartWrite(fixedMode, length, data);
      ok := TransferFromHost(data, bytes, tapePosition, if fixed then length else 0);
    }

    /** WRITE FILEMARKS. The object number stays what it was. */
    method WriteFilemarks(count: nat) returns (ok: bool)
      requires Valid() && tapePosition >= 0
      modifies this`bytes, this`tapePosition
      ensures |bytes| == |old(bytes)|
      ensures ok <==> (count == 0 || Room(fileSize, old(tapePosition) + |Encode(Filemarks(count))|))
      ensures ok ==> tapePosition == old(tapePosition) + |Encode(Filemarks(count))|
      ensures ok && count == 0 ==> bytes == old(bytes)
      ensures ok && count > 0 ==>
                && old(tapePosition) + |Encode(Filemarks(count))| + META_DATA_SIZE <= |old(bytes)|
                && bytes == Splice(old(bytes), old(tapePosition),
                                   Encode(Filemarks(count)) + ToLittleEndian(END_OF_DATA_MARKER))
    {
      hide Written, ToLittleEndian, Even, IsBlockSize, Encode;
      ghost var p, f0 := tapePosition, bytes;
      NothingWritten(bytes, p);
      NoFilemarks();
      ok := true;
      for i := 0 to count
        invariant p >= 0 && Valid() && |bytes| == |f0| && tapePosition == p + |Encode(Filemarks(i))|
        invariant Written(f0, bytes, p, Encode(Filemarks(i)))
        invariant i == 0 ==> bytes == f0
        invariant i > 0 ==>
                    && Room(fileSize, tapePosition) && p + |Encode(Filemarks(i))| + META_DATA_SIZE <= |f0|
                    && bytes == Splice(f0, p, Encode(Filemarks(i)) + ToLittleEndian(END_OF_DATA_MARKER))
      {
        NextFilemark(i);
        ok := WriteMetaData(Filemark, 0, f0, p, Encode(Filemarks(i)));
        if !ok {
          FilemarksGrow(i + 1, count);
          return;
        }
      }
    }

    // Reading

    /** ReadData, first part: the search for the next record. */
    method FindRecord(requested: int) returns (ok: bool)
      modifies this`tapePosition, this`objectLocation, this`sense, this`recordLength, this`recordStart
      ensures var w := FindForward(bytes, old(Where()), Block, 0, true);
              && (ok <==> w.Done? && w.meta.value > 0)
              && (w.Stopped? ==>
                    Where() == w.head && sense == SenseOf(w.stop, false, true, fixed, requested, old(sense)))
              && (ok ==>
                    && recordLength == w.meta.value && objectLocation == w.head.loc && sense == old(sense)
                    && tapePosition == recordStart == w.head.pos - (recordLength + META_DATA_SIZE))
    {
      EmptyIsBad(bytes, Where(), 0);
      hide FindForward;
      var w := FindNextObject(Block, 0, true, requested);
      if w.Stopped? {
        return false;
      }
      recordLength := w.meta.value;
      if w.meta.cls == BAD_DATA && recordLength == 0 {
        return false;
      }
      tapePosition := tapePosition - (recordLength + META_DATA_SIZE);
      recordStart := tapePosition;
      ok := true;
    }

    /** CheckBlockLength: the length to use instead of the requested one, or 0. */
    method CheckBlockLength(sili: bool) returns (actual: nat)
      requires recordLength > 0 && byteCount > 0 && blockSize > 0
      modifies this`sense, this`incorrectLength
      ensures !fixed ==>
                && actual == (if recordLength == byteCount || (sili && byteCount <= recordLength) then 0
                              else Min(recordLength, byteCount))
                && (actual == 0 ==> sense == old(sense) && incorrectLength == old(incorrectLength))
                && (actual != 0 ==> sense == old(sense).(information := byteCount - recordLength) && incorrectLength)
      ensures fixed && byteCount % recordLength == 0 ==>
                actual == 0 && sense == old(sense) && incorrectLength == old(incorrectLength)
      ensures fixed && byteCount % recordLength != 0 ==>
                && incorrectLength && actual == Min(recordLength, byteCount)
                && sense == old(sense).(information := (byteCount - remainingCount) / blockSize - blocksRead)
    {
      if recordLength != byteCount {
        if fixed && byteCount % recordLength != 0 {
          incorrectLength := true;
          sense := sense.(information := (byteCount - remainingCount) / blockSize - blocksRead);
          return if recordLength < byteCount then recordLength else byteCount;
        }
        if !fixed && (!sili || byteCount > recordLength) {
          incorrectLength := true;
          sense := sense.(information := byteCount - recordLength);
          return if recordLength < byteCount then recordLength else byteCount;
        }
      }
      actual := 0;
    }

    /** k of the l bytes that are wanted from a record of length v have been read. */
    predicate Reading(start: int, v: nat, l: nat, k: nat, loc: int)
      reads this
    {
      && recordStart == start && recordLength == v && k < l <= v && !initial
      && tapePosition == start + k && (k > 0 ==> start >= 0) && objectLocation == loc
      && if fixed then k == 0 && l == v else byteCount == l && remainingCount == l - k
    }

    /** ReadData, third part: the trailing length must be the leading one. */
    method CloseRecord() returns (ok: bool)
      modifies this`tapePosition, this`sense, this`blocksRead
      ensures var trail := recordStart + Pad(recordLength);
              && (ok <==> 0 <= trail <= |bytes| - META_DATA_SIZE && TrailingLength(bytes, trail) == recordLength)
              && (ok ==> tapePosition == trail + META_DATA_SIZE && sense == old(sense))
    {
      tapePosition := recordStart + Pad(recordLength);
      if tapePosition < 0 || tapePosition + META_DATA_SIZE > |bytes| {
        return false;
      }
      var trailing := TrailingLength(bytes, tapePosition);
      tapePosition := tapePosition + META_DATA_SIZE;
      if trailing != recordLength {
        blocksRead := blocksRead + 1;
        sense := sense.(information := if fixed then blocksRead else byteCount);
        return false;
      }
      if remainingCount == 0 {
        blocksRead := blocksRead + 1;
      }
      ok := true;
    }

    /** ReadData, second part: the data, and behind the last of them the trailing length. */
    method TakeChunk(length: nat, ghost start: int, ghost v: nat, ghost l: nat, ghost k: nat, ghost loc: int)
      returns (ok: bool, data: Bytes)
      modifies this`tapePosition, this`remainingCount, this`initial, this`sense, this`blocksRead
      ensures old(Reading(start, v, l, k, loc)) && 0 < length <= l - k && (fixed ==> length == l) ==>
                && (!ok ==> RecordAt(bytes, start, v, loc) == Damaged(v))
                && (ok ==>
                      && 0 <= start && start + k + length <= |bytes| && data == bytes[start + k..start + k + length]
                      && sense == old(sense) && remainingCount == old(remainingCount) - length && !initial
                      && if k + length < l then Reading(start, v, l, k + length, loc)
                         else RecordAt(bytes, start, v, loc) == Readable(start, v, Where()))
      ensures fixed && ok ==> tapePosition == recordStart + Pad(recordLength) + META_DATA_SIZE <= |bytes|
    {
      data := [];
      hide TrailingLength, IsBlockSize;
      if tapePosition < 0 || tapePosition + length > |bytes| {
        return false, [];
      }
      data := bytes[tapePosition..tapePosition + length];
      remainingCount := remainingCount - length;
      tapePosition := tapePosition + length;
      ok := true;
      var boundary := IsAtRecordBoundary();
      if boundary {
        ok := CloseRecord();
      }
    }

    /** ReadData, first part: at a record boundary the next record is looked up, and a READ in
        variable-length mode is cut down to its length. */
    method OpenRecord(sili: bool, requested: nat, size: nat)
      returns (ok: bool, length: nat, ghost start: int, ghost v: nat, ghost l: nat, ghost loc: int)
      requires blockSize > 0 && !initial && byteCount > 0 && controller.chunkSize == size
      requires !fixed ==> byteCount == remainingCount == controller.remainingLength == requested
      requires !fixed ==> size == Min(requested, blockSize) && !incorrectLength
      modifies this`tapePosition, this`objectLocation, this`sense, this`recordLength, this`recordStart,
        this`remainingCount, this`byteCount, this`incorrectLength, controller
      ensures var w := FindForward(bytes, old(Where()), Block, 0, true);
              && (w.Stopped? ==>
                    && !ok && Where() == w.head
                    && sense == SenseOf(w.stop, false, true, fixed, requested, old(sense)))
              && (w.Done? ==> ok == (v > 0) && v == w.meta.value && loc == w.head.loc)
              && (w.Done? ==> start == w.head.pos - (v + META_DATA_SIZE))
      ensures ok && !fixed ==>
                && l == Min(v, requested) && Reading(start, v, l, 0, loc) && length == Min(l, blockSize)
                && controller.remainingLength == l && controller.chunkSize == length
                && incorrectLength == (v != requested && (!sili || requested > v))
                && sense == if incorrectLength then old(sense).(information := requested - v) else old(sense)
      ensures ok ==> recordStart == tapePosition == start && recordLength == v && objectLocation == loc && !initial
      ensures ok && fixed ==> byteCount > 0 && controller.chunkSize >= 0
      ensures ok && fixed && old(byteCount) % v == 0 ==>
                && l == v && Reading(start, v, v, 0, loc) && length == size && sense == old(sense)
                && incorrectLength == old(incorrectLength) && remainingCount == old(remainingCount)
                && byteCount == old(byteCount)
                && controller.remainingLength == old(controller.remainingLength) && controller.chunkSize == size
    {
      hide FindForward;
      start, v, l, loc, length := 0, 0, 0, 0, size;
      ok := FindRecord(requested);
      ghost var w := FindForward(bytes, old(Where()), Block, 0, true);
      if w.Done? {
        v := w.meta.value;
        start, loc := w.head.pos - (v + META_DATA_SIZE), w.head.loc;
      }
      if !ok {
        return;
      }
      var actual := CheckBlockLength(sili);
      if actual != 0 {
        byteCount := if actual < byteCount then actual else byteCount;
        remainingCount := byteCount;
        length := if actual < length then actual else length;
        controller.SetTransferSize(byteCount, blockSize);
        controller.SetCurrentLength(blockSize);
      }
      l := if fixed then v else byteCount;
    }

    /** A READ in variable-length mode before its first chunk. */
    predicate Starting(requested: nat)
      reads this, controller
    {
      && blockSize > 0 && !fixed && initial && !incorrectLength
      && byteCount == remainingCount == controller.remainingLength == requested > 0
      && controller.chunkSize == Min(requested, blockSize)
    }

    /** The same after k of l bytes of a record of length v. */
    predicate MoreToRead(start: int, v: nat, l: nat, k: nat, loc: int)
      reads this, controller
    {
      && blockSize > 0 && byteCount > 0 && !fixed && k > 0 && Reading(start, v, l, k, loc)
      && controller.remainingLength == l - k && controller.chunkSize == Min(l - k, blockSize)
    }

    /** A READ in fixed mode is about to move its next chunk. */
    predicate AnyBlocks()
      reads this, controller
    {
      fixed && byteCount > 0 && blockSize > 0 && controller.chunkSize >= 0
    }

    /** The same after nothing but records of the block size. */
    predicate MoreBlocks()
      reads this, controller
    {
      fixed && byteCount > 0 && IsMultiple(byteCount, blockSize) && controller.chunkSize == blockSize > 0
    }

    /** The result of the first chunk in variable-length mode, for the record r that is ahead. */
    predicate FirstRead(r: NextRecord, sili: bool, requested: nat, before: SenseData, ok: bool, data: Bytes,
        start: int, v: nat, l: nat, loc: int)
      reads this, controller
    {
      && !fixed
      && (r.NotFound? ==>
            && !ok && Where() == r.walk.head
            && (r.walk.Stopped? ==> sense == SenseOf(r.walk.stop, false, true, false, requested, before)))
      && (r.Readable? ==> ok)
      && (ok ==>
            && v > 0 && r == RecordAt(bytes, start, v, loc) && l == Min(v, requested) && blockSize > 0
            && start >= 0 && start + Min(l, blockSize) <= |bytes|
            && data == bytes[start..start + Min(l, blockSize)]
            && controller.remainingLength == l && controller.chunkSize == Min(l, blockSize)
            && LengthReported(v, sili, requested, before)
            && if blockSize < l then byteCount > 0 && Reading(start, v, l, blockSize, loc)
               else r == Readable(start, v, Where()))
    }

    /** The result of a block in fixed mode. */
    predicate BlockRead(r: NextRecord, requested: nat, before: SenseData, ok: bool, data: Bytes)
      reads this, controller
    {
      && (r.NotFound? ==>
            && !ok && Where() == r.walk.head
            && (r.walk.Stopped? ==> sense == SenseOf(r.walk.stop, false, true, true, requested, before)))
      && (r.Damaged? && r.length in {0, blockSize} ==> !ok)
      && (r.Readable? && r.length == blockSize ==>
            && ok && data == RecordData(bytes, r.start, blockSize) && Where() == r.after && sense == before)
    }

    /** ReadData up to the place of the next bytes: q of the y bytes that are wanted from a record of
        length x have been moved. */
    method StartChunk(sili: bool, requested: nat, ghost start: int, ghost v: nat, ghost l: nat, ghost k: nat,
                      ghost loc: int)
      returns (ok: bool, length: nat, ghost s: int, ghost x: nat, ghost y: nat, ghost q: nat, ghost n: int)
      requires Starting(requested) || MoreToRead(start, v, l, k, loc) || AnyBlocks()
      modifies this`tapePosition, this`objectLocation, this`sense, this`recordLength, this`recordStart,
        this`remainingCount, this`byteCount, this`initial, this`incorrectLength, controller
      ensures old(MoreToRead(start, v, l, k, loc)) ==>
                && ok && length == Min(l - k, blockSize) && s == start && x == v && y == l && q == k && n == loc
                && MoreToRead(start, v, l, k, loc) && controller.remainingLength == old(controller.remainingLength)
                && sense == old(sense) && incorrectLength == old(incorrectLength)
      ensures old(Starting(requested)) ==>
                FirstFound(RecordAhead(bytes, old(Where())), sili, requested, old(sense), ok, length, s, x, y, q, n)
      ensures old(AnyBlocks()) && ok ==>
                && AnyBlocks() && recordStart == tapePosition
                && recordStart + Pad(recordLength) + META_DATA_SIZE >= old(tapePosition) + META_DATA_SIZE
      ensures old(MoreBlocks()) ==>
                BlockFound(RecordAhead(bytes, old(Where())), requested, old(sense), ok, length, s, x, y, q, n)
      ensures old(MoreBlocks()) && ok && x == blockSize ==>
                && MoreBlocks() && controller.remainingLength == old(controller.remainingLength)
                && incorrectLength == old(incorrectLength)
    {
      hide FindForward, RecordAt, SenseOf, IsBlockSize, TrailingLength;
      s, x, y, q, n, ok := start, v, l, k, loc, true;
      FindForwardAdvances(bytes, Where(), 0);
      length := controller.chunkSize;
      var boundary := IsAtRecordBoundary();
      if boundary {
        q := 0;
        ok, length, s, x, y, n := OpenRecord(sili, requested, length);
        RecordAtIs(bytes, s, x, n);
      }
    }

    /** The place of the first chunk in variable-length mode, for the record r that is ahead. */
    predicate FirstFound(r: NextRecord, sili: bool, requested: nat, before: SenseData, ok: bool, length: nat,
        s: int, x: nat, y: nat, q: nat, n: int)
      reads this, controller
    {
      && !fixed
      && (r.NotFound? ==>
            && !ok && Where() == r.walk.head
            && (r.walk.Stopped? ==> sense == SenseOf(r.walk.stop, false, true, false, requested, before)))
      && (r.Readable? ==> ok)
      && (ok ==>
            && x > 0 && r == RecordAt(bytes, s, x, n) && y == Min(x, requested) && q == 0 && Reading(s, x, y, 0, n)
            && blockSize > 0 && byteCount > 0 && length == Min(y, blockSize)
            && controller.remainingLength == y && controller.chunkSize == length
            && LengthReported(x, sili, requested, before))
    }

    /** The place of a block in fixed mode. */
    predicate BlockFound(r: NextRecord, requested: nat, before: SenseData, ok: bool, length: nat,
        s: int, x: nat, y: nat, q: nat, n: int)
      reads this
    {
      && (r.NotFound? ==>
            && !ok && Where() == r.walk.head
            && (r.walk.Stopped? ==> sense == SenseOf(r.walk.stop, false, true, true, requested, before)))
      && (r.Readable? ==> ok)
      && (ok ==> x > 0 && r == RecordAt(bytes, s, x, n) && r.length == x && !r.NotFound?)
      && (r.Readable? && ok ==> r.start == s)
      && (ok && x == blockSize ==> y == x && q == 0 && Reading(s, x, x, 0, n) && length == blockSize && sense == before)
    }

    /** ReadData: the next chunk of a READ. */
    method ReadData(sili: bool, requested: nat, ghost start: int, ghost v: nat, ghost l: nat, ghost k: nat,
                    ghost loc: int)
      returns (ok: bool, data: Bytes, ghost s: int, ghost x: nat, ghost y: nat, ghost n: int)
      requires Starting(requested) || MoreToRead(start, v, l, k, loc) || AnyBlocks()
      modifies this`tapePosition, this`objectLocation, this`sense, this`recordLength, this`recordStart,
        this`remainingCount, this`byteCount, this`initial, this`incorrectLength, this`blocksRead, controller
      ensures old(Starting(requested)) ==>
                FirstRead(RecordAhead(bytes, old(Where())), sili, requested, old(sense), ok, data, s, x, y, n)
      ensures old(MoreToRead(start, v, l, k, loc)) ==>
                var c := Min(l - k, blockSize);
                && (!ok ==> RecordAt(bytes, start, v, loc) == Damaged(v))
                && (ok ==>
                      && start >= 0 && start + k + c <= |bytes| && data == bytes[start + k..start + k + c]
                      && controller.remainingLength == old(controller.remainingLength)
                      && controller.chunkSize == c && sense == old(sense) && incorrectLength == old(incorrectLength)
                      && if k + c < l then !fixed && byteCount > 0 && Reading(start, v, l, k + c, loc)
                         else RecordAt(bytes, start, v, loc) == Readable(start, v, Where()))
      ensures old(AnyBlocks()) && ok ==>
                && AnyBlocks() && old(tapePosition) + META_DATA_SIZE <= tapePosition <= |bytes|
      ensures old(MoreBlocks()) ==>
                BlockRead(RecordAhead(bytes, old(Where())), requested, old(sense), ok, data)
      ensures old(MoreBlocks()) && ok && RecordAhead(bytes, old(Where())).length == blockSize ==>
                MoreBlocks() && controller.remainingLength == old(controller.remainingLength)
                && incorrectLength == old(incorrectLength)
    {
      hide FindForward, RecordAt, SenseOf, IsBlockSize, TrailingLength, RecordAhead;
      data := [];
      var length;
      ghost var q;
      ok, length, s, x, y, q, n := StartChunk(sili, requested, start, v, l, k, loc);
      if ok {
        ok, data := TakeChunk(length, s, x, y, q, n);
      }
    }

    /** k bytes of a record are on their way to the initiator. */
    predicate HaveRead(k: nat, start: int, v: nat, l: nat, loc: int)
      reads this, controller
    {
      && !fixed && k <= l && start >= 0 && start + k <= |bytes| && controller.remainingLength == l - k
      && if k < l then MoreToRead(start, v, l, k, loc)
         else RecordAt(bytes, start, v, loc) == Readable(start, v, Where())
    }

    /** TransferToHost: another chunk of a record. */
    method SendMore(sili: bool, requested: nat, ghost start: int, ghost v: nat, ghost l: nat, ghost k: nat,
                    ghost loc: int)
      returns (ok: bool, chunk: Bytes)
      requires HaveRead(k, start, v, l, loc) && k < l
      modifies this`tapePosition, this`objectLocation, this`sense, this`recordLength, this`recordStart,
        this`remainingCount, this`byteCount, this`initial, this`incorrectLength, this`blocksRead, controller
      ensures !ok ==> RecordAt(bytes, start, v, loc) == Damaged(v)
      ensures ok ==>
                && |chunk| > 0 && HaveRead(k + |chunk|, start, v, l, loc)
                && chunk == bytes[start + k..start + k + |chunk|]
                && incorrectLength == old(incorrectLength) && sense == old(sense)
    {
      hide RecordAt, RecordAhead, SenseOf;
      ghost var s, x, y, n;
      ok, chunk, s, x, y, n := ReadData(sili, requested, start, v, l, k, loc);
      if ok {
        controller.SetCurrentLength(controller.chunkSize);
        controller.ResetOffset();
        controller.ChunkSent();
      }
    }

    /** The sense data and the state of a READ whose record has another length than was requested. */
    predicate LengthReported(v: nat, sili: bool, requested: nat, before: SenseData)
      reads this`incorrectLength, this`sense
    {
      && incorrectLength == (v != requested && (!sili || requested > v))
      && sense == if incorrectLength then before.(information := requested - v) else before
    }

    /** DATA IN phase, first chunk of a record. */
    method SendFirst(sili: bool, requested: nat)
      returns (ok: bool, data: Bytes, ghost start: int, ghost v: nat, ghost l: nat, ghost loc: int)
      requires Starting(requested)
      modifies this`tapePosition, this`objectLocation, this`sense, this`recordLength, this`recordStart,
        this`remainingCount, this`byteCount, this`initial, this`incorrectLength, this`blocksRead, controller
      ensures var r := RecordAhead(bytes, old(Where()));
              if ok then
                && r == RecordAt(bytes, start, v, loc) && v > 0 && l == Min(v, requested)
                && LengthReported(v, sili, requested, old(sense))
                && HaveRead(|data|, start, v, l, loc) && data == RecordData(bytes, start, |data|)
              else VariableRead(r, sili, requested, old(sense), ok, data)
    {
      hide RecordAt, RecordAhead, SenseOf;
      ghost var r := RecordAhead(bytes, Where());
      ok, data, start, v, l, loc := ReadData(sili, requested, 0, 0, 0, 0, 0);
      if ok {
        controller.SetCurrentLength(|data|);
        controller.ChunkSent();
      }
    }

    /** The chunks of a READ in variable-length mode. */
    method SendRecord(sili: bool, requested: nat) returns (ok: bool, data: Bytes)
      requires Starting(requested)
      modifies this`tapePosition, this`objectLocation, this`sense, this`recordLength, this`recordStart,
        this`remainingCount, this`byteCount, this`initial, this`incorrectLength, this`blocksRead, controller
      ensures VariableRead(RecordAhead(bytes, old(Where())), sili, requested, old(sense), ok, data)
    {
      hide *;
      ghost var r := RecordAhead(bytes, Where());
      ghost var start, v, l, loc;
      ok, data, start, v, l, loc := SendFirst(sili, requested);
      if !ok {
        return;
      }
      HaveReadIs(|data|, start, v, l, loc);
      while controller.remainingLength > 0
        invariant ok && HaveRead(|data|, start, v, l, loc) && data == RecordData(bytes, start, |data|)
        invariant LengthReported(v, sili, requested, old(sense))
        decreases controller.remainingLength
      {
        HaveReadIs(|data|, start, v, l, loc);
        var chunk;
        ok, chunk := SendMore(sili, requested, start, v, l, |data|, loc);
        if !ok {
          DamagedIsNotRead(r, v, sili, requested, old(sense), data);
          return;
        }
        HaveReadIs(|data| + |chunk|, start, v, l, loc);
        MoreData(bytes, start, |data|, |chunk|);
        data := data + chunk;
      }
      RecordIsSent(r, sili, requested, old(sense), data, start, v, l, loc);
    }

    lemma DamagedIsNotRead(r: NextRecord, v: nat, sili: bool, requested: nat, before: SenseData, data: Bytes)
      requires r == Damaged(v)
      ensures VariableRead(r, sili, requested, before, false, data)
    {
    }

    lemma HaveReadIs(k: nat, start: int, v: nat, l: nat, loc: int)
      ensures HaveRead(k, start, v, l, loc) ==>
                && k <= l && 0 <= start && start + k <= |bytes| && controller.remainingLength == l - k
    {
      hide RecordAt;
    }

    /** All l bytes of a record have been sent. */
    lemma RecordIsSent(
        r: NextRecord, sili: bool, requested: nat, before: SenseData, data: Bytes, start: int, v: nat, l: nat, loc: int)
      requires r == RecordAt(bytes, start, v, loc) && v > 0 && l == Min(v, requested)
      requires HaveRead(|data|, start, v, l, loc) && controller.remainingLength <= 0
      requires data == RecordData(bytes, start, |data|) && LengthReported(v, sili, requested, before)
      ensures VariableRead(r, sili, requested, before, true, data)
    {
      RecordAtIs(bytes, start, v, loc);
      hide RecordAt, RecordData, SenseOf;
    }

    /** The result of a READ in variable-length mode, for the record r that is ahead. */
    predicate VariableRead(r: NextRecord, sili: bool, requested: nat, before: SenseData, ok: bool, data: Bytes)
      reads this
    {
      match r
      case NotFound(w) =>
        && !ok && Where() == w.head
        && (w.Stopped? ==> sense == SenseOf(w.stop, false, true, false, requested, before))
      case Damaged(_) => !ok
      case Readable(start, v, after) =>
        && ok && Where() == after && data == RecordData(bytes, start, Min(v, requested))
        && incorrectLength == (v != requested && (!sili || requested > v))
        && sense == if incorrectLength then before.(information := requested - v) else before
    }

    /** The blocks of a READ in fixed mode. */
    method SendBlocks(n: nat, requested: nat) returns (ok: bool, data: Bytes)
      requires MoreBlocks() && n > 0 && controller.remainingLength == Offset(n, blockSize)
      modifies this`tapePosition, this`objectLocation, this`sense, this`recordLength, this`recordStart,
        this`remainingCount, this`byteCount, this`initial, this`incorrectLength, this`blocksRead, controller
      ensures FixedResult(FixedRead(bytes, old(Where()), blockSize, n), requested, old(sense), ok, data)
      ensures ok && FixedRead(bytes, old(Where()), blockSize, n).AllRead? ==> incorrectLength == old(incorrectLength)
    {
      hide RecordAhead, SenseOf, IsMultiple, RecordData, FixedRead, Prepend;
      ghost var all := FixedRead(bytes, Where(), blockSize, n);
      ghost var left := n;
      data := [];
      ok := true;
      FixedReadStarts(bytes, Where(), blockSize, n);
      while controller.remainingLength > 0
        invariant ok && AnyBlocks()
        invariant !all.OtherLength? ==>
                    && controller.remainingLength == Offset(left, blockSize) && (left > 0 ==> MoreBlocks())
                    && all == Prepend(data, FixedRead(bytes, Where(), blockSize, left))
                    && sense == old(sense) && incorrectLength == old(incorrectLength)
        decreases |bytes| - tapePosition
      {
        if left > 0 {
          FixedReadStep(bytes, Where(), blockSize, left, data);
        }
        ghost var r := RecordAhead(bytes, Where());
        var chunk;
        ghost var s, x, y, m;
        ok, chunk, s, x, y, m := ReadData(false, requested, 0, 0, 0, 0, 0);
        if !ok {
          return;
        }
        data := data + chunk;
        controller.SetCurrentLength(Min(controller.remainingLength, controller.chunkSize));
        controller.ResetOffset();
        controller.ChunkSent();
        left := if left > 0 then left - 1 else 0;
      }
      FixedReadEnds(bytes, Where(), blockSize, data);
      if left > 0 {
        OffsetAscends(1, left, blockSize);
      }
    }

    /** The result of a READ in fixed mode. A record of another length is not covered. */
    predicate FixedResult(r: BlocksRead, requested: nat, before: SenseData, ok: bool, data: Bytes)
      reads this
    {
      match r
      case AllRead(all, h) => ok && data == all && Where() == h && sense == before
      case Ended(some, why) =>
        && !ok && data == some
        && (why.NotFound? ==> Where() == why.walk.head)
        && (why.NotFound? && why.walk.Stopped? ==>
            sense == SenseOf(why.walk.stop, false, true, true, requested, before))
      case OtherLength => true
    }

    /** READ. SILI must not be set in fixed mode. */
    method Read(fixedMode: bool, sili: bool, length: nat) returns (ok: bool, data: Bytes)
      requires Valid() && length < 0x100_0000 && (fixedMode ==> Offset(length, blockSize) < 0x8000_0000)
      modifies this`tapePosition, this`objectLocation, this`sense, this`recordLength, this`recordStart,
        this`remainingCount, this`byteCount, this`initial, this`incorrectLength, this`blocksRead, this`fixed, controller
      ensures fixedMode && sili ==> !ok && data == [] && Where() == old(Where())
      ensures !(fixedMode && sili) && length == 0 ==> ok && data == [] && Where() == old(Where()) && !incorrectLength
      ensures !fixedMode && length > 0 ==>
                VariableRead(RecordAhead(bytes, old(Where())), sili, length, NO_SENSE, ok, data)
      ensures fixedMode && !sili && length > 0 ==>
                FixedResult(FixedRead(bytes, old(Where()), blockSize, length), Offset(length, blockSize), NO_SENSE, ok,
                            data)
      ensures fixedMode && ok && FixedRead(bytes, old(Where()), blockSize, length).AllRead? ==> !incorrectLength
    {
      hide RecordAhead, RecordAt, SenseOf, FixedRead, IsBlockSize, Even;
      sense, incorrectLength, data := NO_SENSE, false, [];
      if fixedMode && sili {
        return false, [];
      }
      fixed := fixedMode;
      byteCount := ByteCount(fixed, length, blockSize);
      NoBytes(fixed, length, blockSize);
      if byteCount == 0 {
        return true, [];
      }
      blocksRead := 0;
      remainingCount := byteCount;
      initial := true;
      controller.SetTransferSize(byteCount, blockSize);
      controller.SetCurrentLength(blockSize);
      if fixed {
        BlocksAreMultiple(length, blockSize);
        ok, data := SendBlocks(length, byteCount);
      } else {
        ok, data := SendRecord(sili, byteCount);
      }
    }
  }

  /** Equal as numbers of 32 bits. */
  ghost predicate SameModulo(value: int, n: nat) {
    n < 0x1_0000_0000 && exists wraps: int :: value == n + wraps * 0x1_0000_0000
  }

  /** The bits 7 and 6 of a byte, and no others. */
  predicate HasBits(b: byte, seven: bool, six: bool) {
    (b >= 0x80 <==> seven) && (b / 0x40 % 2 == 1 <==> six) && b % 0x40 == 0
  }

  lemma TwoBits(b: byte, seven: bool, six: bool)
    requires b == (if seven then 0x80 else 0) + (if six then 0x40 else 0)
    ensures HasBits(b, seven, six)
  {
  }

  lemma Low32(value: int)
    ensures 0 <= value % 0x1_0000_0000 < 0x1_0000_0000
    ensures value % 0x1_0000_0000 % 0x1_0000_0000 == value % 0x1_0000_0000
    ensures SameModulo(value, value % 0x1_0000_0000)
  {
    assert value == value % 0x1_0000_0000 + value / 0x1_0000_0000 * 0x1_0000_0000;
  }

  lemma SameOutsideIs(a: Bytes, b: Bytes, offset: nat, size: nat)
    requires SameOutside(a, b, offset, size)
    ensures |a| == |b| && forall k :: 0 <= k < |a| && !(offset <= k < offset + size) ==> a[k] == b[k]
  {
  }

  predicate IsMultiple(n: int, size: int) {
    size > 0 && n % size == 0
  }

  lemma BlocksAreMultiple(n: nat, size: nat)
    requires size > 0
    ensures IsMultiple(Offset(n, size), size)
    ensures n > 0 ==> Offset(n, size) >= size
  {
    OffsetIsProduct(n, size);
    ProductIsMultiple(n, size);
    if n > 0 {
      OffsetAscends(1, n, size);
    }
  }

  lemma ProductIsMultiple(n: nat, size: nat)
    requires size > 0
    ensures n * size % size == 0
  {
    var d, r := n * size / size, n * size % size;
    assert n * size == d * size + r;
    assert (n - d) * size == r;
    AtLeast(n - d, size);
  }

  lemma NoBytes(fixed: bool, length: nat, size: nat)
    requires size > 0
    ensures ByteCount(fixed, length, size) == 0 <==> length == 0
  {
    if length > 0 {
      OffsetAscends(1, length, size);
    }
  }

  const NO_SENSE := SenseData(0, false, false)

  /** GetByteCount */
  function ByteCount(fixed: bool, length: nat, size: nat): nat {
    if fixed then Offset(length, size) else length
  }

  lemma MoreData(f: Bytes, start: int, k: nat, m: nat)
    requires 0 <= start && start + k + m <= |f|
    ensures RecordData(f, start, k) + f[start + k..start + k + m] == RecordData(f, start, k + m)
  {
  }

  lemma RecordAtIs(f: Bytes, start: int, v: nat, loc: int)
    ensures var r := RecordAt(f, start, v, loc);
            && (v == 0 ==> r == Damaged(0)) && !r.NotFound? && r.length == v
            && (r.Readable? ==> r.start == start && r.after.loc == loc)
  {
  }

  lemma RoomShrinks(fileSize: nat, a: int, b: int, c: int)
    requires a <= b <= c
    ensures Room(fileSize, c) ==> Room(fileSize, b)
    ensures Room(fileSize, b) ==> Room(fileSize, a)
  {
  }

  lemma StreamAtStart(fixed: bool, data: Bytes, size: nat)
    requires 0 < size < 0x1000_0000 && (fixed || |data| < 0x1000_0000)
    ensures Stream(fixed, data, size, 0, 0) == []
  {
    if fixed {
      StreamStart(data, size);
    }
  }

  lemma NextIsNext(fixed: bool, size: nat, data: Bytes, k: nat, m: nat, n: nat, length: int)
    requires size > 0 && k < |data| && length == Min(|data| - k, size)
    requires if fixed then k == Offset(m, size) && |data| == Offset(n, size) else m == n == 0
    ensures 0 < length <= |data| - k && IsNext(fixed, size, data[k..][..length], data, k, m, n)
    ensures fixed ==> NextIndex(fixed, m) == m + 1
    ensures !fixed ==> NextIndex(fixed, m) == m
  {
    if fixed {
      BlocksAhead(size, m, n);
    }
  }

  /** Behind the end of the file there is nothing to skip. */
  lemma PastEnd(f: Bytes, pos: int)
    ensures pos + META_DATA_SIZE > |f| && pos >= 0 ==> See(ReadMetaData(f, pos)).MediumEnd?
  {
  }

  lemma LengthsOfWritten(f0: Bytes, f: Bytes, p: nat, w: Bytes)
    requires Written(f0, f, p, w)
    ensures |f| == |f0| && (p + |w| <= |f| || w == [])
  {
  }

  /** What a block adds to the stream of a fixed-length WRITE. */
  lemma NextFixed(data: Bytes, size: nat, p: nat, k: nat, m: nat, n: nat, buf: Bytes)
    requires 0 < size < 0x1000_0000 && Even(size) && Even(p)
    requires |buf| == size && k + |buf| <= |data| && buf == data[k..k + |buf|]
    requires k == Offset(m, size) && |data| == Offset(n, size) && m < n
    ensures k + |buf| == Offset(m + 1, size)
    ensures k + |buf| == |data| ==> m + 1 == n
    ensures var s1 := Stream(true, data, size, k, m) + LengthWord(size) + buf;
            && Stream(true, data, size, k + |buf|, m + 1) == s1 + Padding(p + |s1|) + LengthWord(size)
            && |s1| <= |Stream(true, data, size, k + |buf|, m + 1)| <= |Stream(true, data, size, |data|, n)|
  {
    hide Stream, LengthWord, Padding, Even;
    NextBlock(data, size, m);
    EvenStream(data, size, m);
    NoPadding(p, |Stream(true, data, size, k, m)|, size);
    StreamGrows(true, data, size, k + |buf|, m + 1, n);
    if k + |buf| == |data| {
      BlocksLeft(size, m, n);
    }
    var s, word := Stream(true, data, size, k, m), LengthWord(size);
    assert s + (word + buf + word) == s + word + buf + [] + word;
  }

  lemma BlocksLeft(size: nat, m: nat, n: nat)
    requires 0 < size && m < n && Offset(m + 1, size) >= Offset(n, size)
    ensures m + 1 == n
  {
    if m + 1 < n {
      OffsetAscends(m + 2, n, size);
    }
  }

  lemma EvenStream(data: Bytes, size: nat, m: nat)
    requires 0 < size < 0x1000_0000 && Even(size) && Offset(m, size) <= |data|
    ensures Even(|Stream(true, data, size, Offset(m, size), m)|)
  {
    hide Stream;
    StreamLength(data, size, m, size + 2 * META_DATA_SIZE);
    EvenOffset(m, size + 2 * META_DATA_SIZE);
  }

  lemma NoPadding(p: nat, a: nat, b: nat)
    requires Even(p) && Even(a) && Even(b)
    ensures Padding(p + a + META_DATA_SIZE + b) == []
  {
  }

  lemma SamePadding(p: nat, a: nat)
    requires Even(p)
    ensures Padding(p + META_DATA_SIZE + a) == Padding(a)
  {
  }

  lemma ChunksJoin(word: Bytes, data: Bytes, k: nat, buf: Bytes)
    requires k + |buf| <= |data| && buf == data[k..k + |buf|]
    ensures (if k == 0 then [] else word + data[..k]) + (if k == 0 then word else []) + buf == word + data[..k + |buf|]
  {
    assert data[..k] + buf == data[..k + |buf|];
  }

  /** What a chunk adds to the stream of a variable-length WRITE. */
  lemma NextVariable(data: Bytes, size: nat, p: nat, k: nat, buf: Bytes)
    requires 0 < size < 0x1000_0000 && |data| < 0x1000_0000 && Even(p)
    requires 0 < |buf| && k + |buf| <= |data| && buf == data[k..k + |buf|]
    ensures var l, word := k + |buf|, LengthWord(|data|);
            var s1 := Stream(false, data, size, k, 0) + (if k == 0 then word else []) + buf;
            && (l < |data| ==> Stream(false, data, size, l, 0) == s1)
            && (l == |data| ==> Stream(false, data, size, l, 0) == s1 + Padding(p + |s1|) + word)
            && |s1| <= |Stream(false, data, size, |data|, 0)|
  {
    hide Stream, LengthWord, Padding, Even;
    VariableStream(data, size, k);
    StreamBefore(false, data, size, k, 0);
    if k + |buf| < |data| {
      StreamBefore(false, data, size, k + |buf|, 0);
    }
    ChunksJoin(LengthWord(|data|), data, k, buf);
    SamePadding(p, |data|);
    if k + |buf| == |data| {
      assert data[..|data|] == data;
    }
  }

  /** A chunk, with the leading length if it starts a record. */
  function WithChunk(s: Bytes, buf: Bytes, length: nat, first: bool): Bytes
    requires length < 0x1000_0000
  {
    s + (if first then LengthWord(length) else []) + buf
  }

  /** The padding and the trailing length at the end of a record. */
  function WithTrail(s: Bytes, p: nat, length: nat, last: bool): Bytes
    requires length < 0x1000_0000
  {
    if last then s + Padding(p + |s|) + LengthWord(length) else s
  }

  /** What a chunk adds to the stream of a WRITE, and that this is no more than its final length. */
  lemma NextStream(fixed: bool, data: Bytes, size: nat, p: nat, k: nat, m: nat, n: nat, buf: Bytes)
    requires 0 < size < 0x1000_0000 && Even(size) && (fixed || |data| < 0x1000_0000) && Even(p)
    requires IsNext(fixed, size, buf, data, k, m, n) && (fixed ==> k == Offset(m, size))
    ensures k < |data| && 0 < |buf| <= |data| - k && (fixed ==> NextIndex(fixed, m) == m + 1)
    ensures fixed ==> k + |buf| == Offset(NextIndex(fixed, m), size) && |data| == Offset(n, size)
    ensures var l, length := k + |buf|, if fixed then size else |data|;
            var s := WithChunk(Stream(fixed, data, size, k, m), buf, length, fixed || k == 0);
            var t, e := Stream(fixed, data, size, l, NextIndex(fixed, m)), Stream(fixed, data, size, |data|, n);
            && t == WithTrail(s, p, length, fixed || l == |data|)
            && |s| <= |t| <= |e| && (l == |data| ==> t == e && NextIndex(fixed, m) == n)
  {
    hide Stream, LengthWord, Padding;
    if fixed {
      NextFixed(data, size, p, k, m, n, buf);
    } else {
      NextVariable(data, size, p, k, buf);
    }
  }
}
