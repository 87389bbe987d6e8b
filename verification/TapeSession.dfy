/** Sequences of commands for a tape drive. */
module TapeSessions {
  import opened ImageFiles
  import opened MemoryUtil
  import opened Simh
  import opened TapeWalk
  import opened TapeSpacing
  import opened TapeRecords
  import opened TapeReading
  import opened TapeRuns
  import opened TapeBoundaries
  import opened Tapes
  import opened Transfers

  datatype Command =
    | Rewind
    | Space(code: nat, count: int)
    | LocateTo(id: nat)
    | Read(fixed: bool, sili: bool, length: nat)
    | Write(fixed: bool, length: nat, data: Bytes)

  predicate IsCommand(c: Command, size: nat) {
    match c
    case Rewind => true
    case Space(_, _) => true
    case LocateTo(id) => id < 0x1_0000_0000
    case Read(fixed, _, length) => length < 0x100_0000 && (fixed ==> Offset(length, size) < 0x8000_0000)
    case Write(fixed, length, data) =>
      length < 0x100_0000 && |data| == (if fixed then Offset(length, size) else length) && |data| < 0x8000_0000
  }

  /** Whether a READ of one record, or of some blocks, ends on a record, a filemark or the end of the data. */
  predicate ReadCompletes(f: Bytes, h: Head, fixed: bool, length: nat, size: nat) {
    if fixed then
      var r := FixedRead(f, h, size, length);
      r.AllRead? || (r.Ended? && r.why.NotFound?)
    else !RecordAhead(f, h).Damaged?
  }

  /** The commands that leave the drive on a boundary: not a LOCATE to an object that is not there, not a
      READ of a damaged record or of a record of another length than the block size, and not a WRITE
      without room. */
  ghost predicate Completes(c: Command, f: Bytes, h: Head, objects: seq<Object>, size: nat, fileSize: nat)
    requires 0 < size < 0x100_0000 && IsCommand(c, size)
  {
    match c
    case Rewind => true
    case Space(_, _) => true
    case LocateTo(id) => id < |objects|
    case Read(fixed, sili, length) => (fixed && sili) || length == 0 || ReadCompletes(f, h, fixed, length, size)
    case Write(fixed, length, data) =>
      length == 0 || Room(fileSize, h.pos + |Encode(Records(fixed, data, size, length))|)
  }

  /** The drive is ready for the next command, in front of object i. */
  ghost predicate Standing(tape: Tape, objects: seq<Object>, i: nat)
    reads tape
  {
    tape.Valid() && tape.fileSize == |tape.bytes| && AtObject(tape.bytes, tape.Where(), objects, i)
  }

  /** Executes a command. */
  method Execute(tape: Tape, c: Command, ghost objects: seq<Object>, ghost i: nat)
    returns (kept: bool, ghost o: seq<Object>, ghost j: nat)
    requires Standing(tape, objects, i) && 0 < tape.blockSize < 0x100_0000 && IsCommand(c, tape.blockSize)
    modifies tape, tape.controller
    ensures kept <==> Completes(c, old(tape.bytes), old(tape.Where()), objects, tape.blockSize, tape.fileSize)
    ensures kept ==> Standing(tape, o, j)
    ensures !c.Write? ==> tape.bytes == old(tape.bytes) && o == objects
  {
    hide AtObject, Locate, RecordAhead, FixedRead, Encode, Records, Offset, Room;
    kept, o, j := true, objects, i;
    match c {
      case Rewind =>
        RewindKeeps(tape.bytes, tape.Where(), objects, i);
        tape.ResetPositions();
        j := 0;
      case Space(code, count) =>
        var done;
        done, j := ExecuteSpace(tape, code, count, objects, i);
      case LocateTo(id) =>
        kept, j := ExecuteLocate(tape, id, objects, i);
      case Read(fixed, sili, length) =>
        var ok, received;
        kept, ok, received, j := ExecuteRead(tape, fixed, sili, length, objects, i);
      case Write(fixed, length, data) =>
        kept, o, j := ExecuteWrite(tape, fixed, length, data, objects, i);
    }
  }

  method ExecuteLocate(tape: Tape, id: nat, ghost objects: seq<Object>, ghost i: nat) returns (kept: bool, ghost j: nat)
    requires Standing(tape, objects, i) && id < 0x1_0000_0000
    modifies tape
    ensures tape.bytes == old(tape.bytes) && (kept <==> id < |objects|) && (kept ==> Standing(tape, objects, j))
    ensures id < |objects| ==> tape.Where() == HeadAt(objects, id)
  {
    AtTape(tape.bytes, tape.Where(), objects, i);
    LocatedKeeps(tape.bytes, objects, id);
    if id < |objects| {
      LocateKeeps(tape.bytes, objects, id);
    }
    hide AtObject, Locate, Holds, Proper, HeadAt;
    var l := tape.Locate(id);
    kept, j := l.LocatedAt?, id;
  }

  lemma AtTape(f: Bytes, h: Head, objects: seq<Object>, i: nat)
    requires AtObject(f, h, objects, i)
    ensures Holds(f, objects) && Proper(objects) && i < |objects| && h == HeadAt(objects, i)
  {
    hide Holds, Proper, HeadAt;
  }

  // SPACE

  /** Spacing forward over blocks or filemarks: behind the n-th of them, behind a filemark or in front of the
      end of the data. The information is the number of objects that are missing. */
  ghost predicate SpacedForward(objects: seq<Object>, i: nat, kind: Kind, n: int, done: bool, h: Head, sense: SenseData)
    requires i < |objects|
  {
    && (forall k: nat :: k < |objects| ==>
          (done && h == HeadAt(objects, k) <==> PassedForward(objects, i, kind, n, k)))
    && (forall k: nat, left: int :: EndedForward(objects, i, kind, n, k, left) ==>
          !done && if k == |objects| - 1 then h == HeadAt(objects, k) && sense == SenseData(left, false, false)
                   else h == HeadAt(objects, k + 1) && sense == SenseData(left, true, false))
  }

  /** Spacing backwards: in front of the n-th object, in front of a filemark, or at the beginning. */
  ghost predicate SpacedBack(objects: seq<Object>, i: nat, kind: Kind, n: int, done: bool, h: Head, sense: SenseData)
    requires i < |objects|
  {
    && (forall k: nat :: k < |objects| ==>
          (done && h == HeadAt(objects, k) <==> PassedReverse(objects, i, kind, n, k)))
    && (forall k: nat, left: int :: EndedReverse(objects, i, kind, n, k, left) ==>
          !done && h == HeadAt(objects, k) && sense == SenseData(-left, true, false))
    && (Clear(objects, 0, i, kind) && Count(objects, 0, i, kind) < n ==>
          !done && h == Head(0, 0) && sense == SenseData(n - Count(objects, 0, i, kind), false, true))
  }

  lemma SenseIs(stop: Stop, reverse: bool, fixed: bool, count: int)
    ensures stop == AtFilemark(count) ==>
              SenseOf(stop, reverse, false, fixed, 0, SenseData(0, false, false))
              == SenseData(if reverse then -count else count, true, false)
    ensures stop == AtEndOfData(count) ==>
              SenseOf(stop, reverse, false, fixed, 0, SenseData(0, false, false)) == SenseData(count, false, false)
    ensures stop in {AtBeginning(count), AtEndOfMedium(count)} ==>
              SenseOf(stop, reverse, false, fixed, 0, SenseData(0, false, false)) == SenseData(count, false, true)
  {
  }

  lemma AgreesIs(objects: seq<Object>, w: Walk, l: ListWalk)
    requires !l.LeftList? && l.index <= |objects| && Agrees(objects, w, l)
    ensures w.Done? == l.DoneAt? && w.head == HeadAt(objects, l.index) && (l.StoppedAt? ==> w.stop == l.stop)
  {
    hide HeadAt;
  }

  lemma EndedIs(objects: seq<Object>, i: nat, kind: Kind, n: int, k: nat, left: int)
    requires Proper(objects) && i < |objects| && EndedForward(objects, i, kind, n, k, left)
    requires kind in {Block, Filemark}
    ensures k < |objects| && IsAt(objects, k, if k == |objects| - 1 then EndOfData else Filemark)
  {
    SightIs(objects, k);
    hide Proper, SightOf, Count, Clear;
  }

  lemma EndedBackIs(objects: seq<Object>, i: nat, kind: Kind, n: int, k: nat, left: int)
    requires Proper(objects) && i < |objects| && EndedReverse(objects, i, kind, n, k, left)
    requires kind in {Block, Filemark}
    ensures k < i && IsAt(objects, k, Filemark)
  {
    SightIs(objects, k);
    hide Proper, SightOf, Count, Clear;
  }

  lemma SpacesForward(f: Bytes, objects: seq<Object>, i: nat, kind: Kind, n: int, fixed: bool, w: Walk,
                      sense: SenseData)
    requires Holds(f, objects) && Proper(objects) && i < |objects| && kind in {Block, Filemark} && n > 0
    requires w == FindForward(f, HeadAt(objects, i), kind, n, false)
    requires w.Stopped? ==> sense == SenseOf(w.stop, false, false, fixed, 0, SenseData(0, false, false))
    ensures SpacedForward(objects, i, kind, n, w.Done?, w.head, sense)
  {
    hide Holds, Proper, FindForward, HeadAt, SenseOf, ListForward, Agrees, PassedForward, EndedForward, IsAt;
    ForwardRefines(f, objects, i, kind, n);
    ForwardStays(objects, i, kind, n);
    var l := ListForward(objects, i, kind, n);
    AgreesIs(objects, w, l);
    forall k: nat | k < |objects|
      ensures w.Done? && w.head == HeadAt(objects, k) <==> PassedForward(objects, i, kind, n, k)
    {
      ForwardEnds(objects, i, kind, n, k, 0);
      HeadsDiffer(objects, l.index, k);
    }
    forall k: nat, left: int | EndedForward(objects, i, kind, n, k, left)
      ensures k < |objects|
      ensures !w.Done?
      ensures if k == |objects| - 1 then w.head == HeadAt(objects, k) && sense == SenseData(left, false, false)
              else w.head == HeadAt(objects, k + 1) && sense == SenseData(left, true, false)
    {
      EndedIs(objects, i, kind, n, k, left);
      ForwardEnds(objects, i, kind, n, k, left);
      ForwardEnds(objects, i, kind, n, k + 1, left);
      SenseIs(AtFilemark(left), false, fixed, left);
      SenseIs(AtEndOfData(left), false, fixed, left);
    }
  }

  lemma SpacesBack(f: Bytes, objects: seq<Object>, i: nat, kind: Kind, n: int, fixed: bool, w: Walk, sense: SenseData)
    requires Holds(f, objects) && Proper(objects) && i < |objects| && kind in {Block, Filemark} && n > 0
    requires w == FindReverse(f, HeadAt(objects, i), kind, n, false)
    requires w.Stopped? ==> sense == SenseOf(w.stop, true, false, fixed, 0, SenseData(0, false, false))
    ensures SpacedBack(objects, i, kind, n, w.Done?, w.head, sense)
  {
    hide Holds, Proper, FindReverse, HeadAt, SenseOf, ListReverse, Agrees, PassedReverse, EndedReverse, IsAt, Clear,
      Count;
    ReverseRefines(f, objects, i, kind, n);
    ReverseStays(objects, i, kind, n);
    var l := ListReverse(objects, i, kind, n);
    AgreesIs(objects, w, l);
    BeginningHead(objects);
    forall k: nat | k < |objects|
      ensures w.Done? && w.head == HeadAt(objects, k) <==> PassedReverse(objects, i, kind, n, k)
    {
      ReverseEnds(objects, i, kind, n, k, 0);
      HeadsDiffer(objects, l.index, k);
    }
    forall k: nat, left: int | EndedReverse(objects, i, kind, n, k, left)
      ensures k < |objects| && !w.Done? && w.head == HeadAt(objects, k) && sense == SenseData(-left, true, false)
    {
      EndedBackIs(objects, i, kind, n, k, left);
      ReverseEnds(objects, i, kind, n, k, left);
      SenseIs(AtFilemark(left), true, fixed, left);
    }
    var left := n - Count(objects, 0, i, kind);
    ReverseEnds(objects, i, kind, n, 0, left);
    SenseIs(AtBeginning(left), true, fixed, left);
  }

  /** SPACE, in terms of the command and of the objects on the tape. */
  method ExecuteSpace(tape: Tape, code: nat, count: int, ghost objects: seq<Object>, ghost i: nat)
    returns (done: bool, ghost j: nat)
    requires Standing(tape, objects, i)
    modifies tape
    ensures Standing(tape, objects, j) && tape.bytes == old(tape.bytes)
    ensures code == 0 && count > 0 ==> SpacedForward(objects, i, Block, count, done, tape.Where(), tape.sense)
    ensures code == 1 && count > 0 ==> SpacedForward(objects, i, Filemark, count, done, tape.Where(), tape.sense)
    ensures code == 0 && count < 0 ==> SpacedBack(objects, i, Block, -count, done, tape.Where(), tape.sense)
    ensures code == 1 && count < 0 ==> SpacedBack(objects, i, Filemark, -count, done, tape.Where(), tape.sense)
    ensures code in {0, 1} && count == 0 ==> done && tape.Where() == old(tape.Where())
    ensures code == 3 ==> done && tape.Where() == HeadAt(objects, |objects| - 1)
    ensures code !in {0, 1, 3} ==> !done && tape.Where() == old(tape.Where())
  {
    hide *;
    StandsOn(tape, objects, i);
    ghost var f, h := tape.bytes, tape.Where();
    CodesAre();
    j := i;
    if code in {0, 1} && count != 0 {
      j := SpaceKeeps(f, h, objects, i, ObjectType(code), count);
    } else if code == 3 {
      EndKeeps(f, h, objects, i);
      j := |objects| - 1;
    }
    ghost var w;
    done, w := tape.Space6(code, count);
    if code in {0, 1} && count > 0 {
      tape.SearchIs(h, ObjectType(code), count);
      SpacesForward(f, objects, i, ObjectType(code), count, tape.fixed, w, tape.sense);
    } else if code in {0, 1} && count < 0 {
      tape.SearchIs(h, ObjectType(code), count);
      SpacesBack(f, objects, i, ObjectType(code), -count, tape.fixed, w, tape.sense);
    } else if code == 3 {
      tape.SearchIs(h, EndOfData, 0);
      AtTape(f, w.head.(pos := w.head.pos - META_DATA_SIZE), objects, j);
    }
    StandsStill(tape, objects, j);
  }

  lemma CodesAre()
    ensures ObjectType(0) == Block && ObjectType(1) == Filemark && Tapes.NO_SENSE == SenseData(0, false, false)
  {
  }

  lemma StandsOn(tape: Tape, objects: seq<Object>, i: nat)
    requires Standing(tape, objects, i)
    ensures tape.Valid() && tape.fileSize == |tape.bytes| && AtObject(tape.bytes, tape.Where(), objects, i)
    ensures Holds(tape.bytes, objects) && Proper(objects) && i < |objects| && tape.Where() == HeadAt(objects, i)
  {
    hide Holds, Proper, HeadAt;
  }

  lemma StandsStill(tape: Tape, objects: seq<Object>, i: nat)
    requires tape.Valid() && tape.fileSize == |tape.bytes| && AtObject(tape.bytes, tape.Where(), objects, i)
    ensures Standing(tape, objects, i)
  {
    hide AtObject;
  }

  // READ

  /** READ in variable-length mode: a record of even length is sent, as far as it was asked for, and a filemark,
      the end of the data, or anything that is not readable is reported. */
  ghost predicate RecordResult(o: Object, last: bool, sili: bool, length: nat, ok: bool, data: Bytes, moved: bool,
                               incorrectLength: bool, sense: SenseData) {
    if last then !ok && !moved && sense == SenseData(0, false, false)
    else if o == Marker(MetaData(0, 0)) then !ok && moved && sense == SenseData(length, true, false)
    else if o.Marker? || |o.data| % 2 == 1 then !ok
    else
      && ok && moved && data == o.data[..if length < |o.data| then length else |o.data|]
      && (incorrectLength <==> length > |o.data| || (length < |o.data| && !sili))
      && sense == SenseData(if incorrectLength then length - |o.data| else 0, false, false)
  }

  lemma ReadSenseIs(stop: Stop, fixed: bool, length: nat)
    ensures stop == AtFilemark(0) ==>
              SenseOf(stop, false, true, fixed, length, SenseData(0, false, false))
              == SenseData(if fixed then 0 else length, true, false)
    ensures stop == AtEndOfData(0) ==>
              SenseOf(stop, false, true, fixed, length, SenseData(0, false, false)) == SenseData(0, false, false)
  {
  }

  lemma MinOf(a: nat, b: nat)
    ensures Min(a, b) == if b < a then b else a
  {
  }

  /** The record, or what else is ahead, as object i. */
  lemma AheadIs(f: Bytes, objects: seq<Object>, i: nat)
    requires Holds(f, objects) && Proper(objects) && i < |objects|
    ensures var r, o := RecordAhead(f, HeadAt(objects, i)), objects[i];
            && (i == |objects| - 1 ==> o.Marker? && r == NotFound(Stopped(AtEndOfData(0), HeadAt(objects, i))))
            && (i < |objects| - 1 && o == Marker(MetaData(0, 0)) ==>
                  r == NotFound(Stopped(AtFilemark(0), HeadAt(objects, i + 1))))
            && (i < |objects| - 1 && o != Marker(MetaData(0, 0)) && (o.Marker? || |o.data| % 2 == 1) ==> r.Damaged?)
            && (o.Record? && |o.data| % 2 == 0 ==>
                  && i < |objects| - 1
                  && r == Readable(Position(objects, i) + META_DATA_SIZE, |o.data|, HeadAt(objects, i + 1))
                  && RecordData(f, Position(objects, i) + META_DATA_SIZE, |o.data|) == o.data)
  {
    hide *;
    KindsOf(objects, i);
    BodyIs(objects, i);
    if objects[i].Marker? {
      MarkerAhead(f, objects, i);
    } else {
      RecordIsData(objects[i]);
      EvenIs(|objects[i].data|);
      if Even(|objects[i].data|) {
        EvenRecordIsRead(f, objects, i);
      } else {
        OddRecordIsNotRead(f, objects, i);
      }
    }
  }

  lemma EvenIs(n: int)
    ensures Even(n) <==> n % 2 == 0
  {
  }

  lemma BodyIs(objects: seq<Object>, i: nat)
    requires Proper(objects) && i < |objects|
    ensures if i == |objects| - 1 then objects[i].Marker? else IsBody(objects[i])
    ensures i < |objects| - 1 && objects[i].Marker? ==>
              objects[i].meta.value == 0 && objects[i].meta.cls in {0, 8} && (objects[i].meta.cls == GOOD_DATA <==>
                objects[i] == Marker(MetaData(0, 0)))
  {
    hide Object.Valid;
  }

  /** READ, in terms of the command and of the objects on the tape. */
  method ExecuteRead(tape: Tape, fixed: bool, sili: bool, length: nat, ghost objects: seq<Object>, ghost i: nat)
    returns (kept: bool, ok: bool, data: Bytes, ghost j: nat)
    requires Standing(tape, objects, i)
    requires length < 0x100_0000 && (fixed ==> Offset(length, tape.blockSize) < 0x8000_0000)
    modifies tape, tape.controller
    ensures kept <==>
              (fixed && sili) || length == 0
              || ReadCompletes(old(tape.bytes), old(tape.Where()), fixed, length, tape.blockSize)
    ensures kept ==> Standing(tape, objects, j)
    ensures tape.bytes == old(tape.bytes)
    ensures fixed && sili ==> !ok && data == [] && tape.Where() == old(tape.Where())
    ensures !(fixed && sili) && length == 0 ==> ok && data == [] && tape.Where() == old(tape.Where())
    ensures !fixed && length > 0 ==>
              var moved := i + 1 < |objects| && tape.Where() == HeadAt(objects, i + 1);
              && RecordResult(objects[i], i == |objects| - 1, sili, length, ok, data, moved, tape.incorrectLength,
                              tape.sense)
              && (i == |objects| - 1 ==> tape.Where() == HeadAt(objects, i))
    ensures fixed && !sili && length > 0 && i == |objects| - 1 ==>
              !ok && data == [] && tape.Where() == HeadAt(objects, i) && tape.sense == SenseData(0, false, false)
    ensures fixed && !sili && length > 0 && objects[i] == Marker(MetaData(0, 0)) ==>
              && !ok && data == [] && i + 1 < |objects| && tape.Where() == HeadAt(objects, i + 1)
              && tape.sense == SenseData(0, true, false)
  {
    hide AtObject, RecordAhead, FixedRead, RecordResult, HeadAt, SenseOf;
    ghost var f, h := tape.bytes, tape.Where();
    StandsOn(tape, objects, i);
    kept := (fixed && sili) || length == 0 || ReadCompletes(tape.bytes, tape.Where(), fixed, length, tape.blockSize);
    j := i;
    if !(fixed && sili) && length > 0 {
      if fixed {
        j := ReadBlocksKeeps(f, h, objects, i, tape.blockSize, length);
      } else {
        j := ReadKeeps(f, h, objects, i);
      }
    }
    ok, data := tape.Read(fixed, sili, length);
    if length > 0 && !fixed {
      RecordIsSent(tape, f, objects, i, sili, length, ok, data);
    } else if length > 0 && !sili {
      NoBlockIsSent(tape, f, objects, i, length, ok, data);
    }
  }

  lemma RecordIsSent(tape: Tape, f: Bytes, objects: seq<Object>, i: nat, sili: bool, length: nat, ok: bool, data: Bytes)
    requires Holds(f, objects) && Proper(objects) && i < |objects| && tape.bytes == f && length > 0
    requires tape.VariableRead(RecordAhead(f, HeadAt(objects, i)), sili, length, Tapes.NO_SENSE, ok, data)
    ensures var moved := i + 1 < |objects| && tape.Where() == HeadAt(objects, i + 1);
            && RecordResult(objects[i], i == |objects| - 1, sili, length, ok, data, moved, tape.incorrectLength,
                            tape.sense)
            && (i == |objects| - 1 ==> tape.Where() == HeadAt(objects, i))
  {
    hide *;
    var r, o := RecordAhead(f, HeadAt(objects, i)), objects[i];
    AheadIs(f, objects, i);
    CodesAre();
    ReadSenseIs(AtFilemark(0), false, length);
    ReadSenseIs(AtEndOfData(0), false, length);
    VariableReadIs(tape, r, sili, length, ok, data);
    ResultIs(o, i == |objects| - 1, sili, length, ok, data, i + 1 < |objects| && tape.Where() == HeadAt(objects, i + 1),
             tape.incorrectLength, tape.sense);
    if o.Record? && |o.data| % 2 == 0 {
      MinOf(|o.data|, length);
      ReadablePart(f, Position(objects, i) + META_DATA_SIZE, o.data, if length < |o.data| then length else |o.data|);
    }
  }

  lemma ReadablePart(f: Bytes, start: nat, data: Bytes, n: nat)
    requires RecordData(f, start, |data|) == data && n <= |data|
    ensures RecordData(f, start, n) == data[..n]
  {
    if n > 0 {
      assert start + |data| <= |f|;
    }
  }

  lemma VariableReadIs(tape: Tape, r: NextRecord, sili: bool, length: nat, ok: bool, data: Bytes)
    requires tape.VariableRead(r, sili, length, SenseData(0, false, false), ok, data)
    ensures r.NotFound? && r.walk.Stopped? ==>
              !ok && tape.Where() == r.walk.head
              && tape.sense == SenseOf(r.walk.stop, false, true, false, length, SenseData(0, false, false))
    ensures r.Damaged? ==> !ok
    ensures r.Readable? ==>
              && ok && tape.Where() == r.after && data == RecordData(tape.bytes, r.start, Min(r.length, length))
              && tape.incorrectLength == (r.length != length && (!sili || length > r.length))
              && tape.sense == SenseData(if tape.incorrectLength then length - r.length else 0, false, false)
  {
    hide SenseOf, RecordData;
  }

  lemma ResultIs(o: Object, last: bool, sili: bool, length: nat, ok: bool, data: Bytes, moved: bool,
                 incorrectLength: bool, sense: SenseData)
    ensures RecordResult(o, last, sili, length, ok, data, moved, incorrectLength, sense) <==>
              if last then !ok && !moved && sense == SenseData(0, false, false)
              else if o == Marker(MetaData(0, 0)) then !ok && moved && sense == SenseData(length, true, false)
              else if o.Marker? || |o.data| % 2 == 1 then !ok
              else
                && ok && moved && data == o.data[..if length < |o.data| then length else |o.data|]
                && (incorrectLength <==> length > |o.data| || (length < |o.data| && !sili))
                && sense == SenseData(if incorrectLength then length - |o.data| else 0, false, false)
  {
  }

  /** A READ of blocks in front of a filemark or of the end of the data. */
  lemma NoBlockIsSent(tape: Tape, f: Bytes, objects: seq<Object>, i: nat, length: nat, ok: bool, data: Bytes)
    requires Holds(f, objects) && Proper(objects) && i < |objects| && length > 0
    requires tape.FixedResult(FixedRead(f, HeadAt(objects, i), tape.blockSize, length), Offset(length, tape.blockSize),
                              Tapes.NO_SENSE, ok, data)
    ensures i == |objects| - 1 ==>
              !ok && data == [] && tape.Where() == HeadAt(objects, i) && tape.sense == SenseData(0, false, false)
    ensures objects[i] == Marker(MetaData(0, 0)) ==>
              && !ok && data == [] && i + 1 < |objects| && tape.Where() == HeadAt(objects, i + 1)
              && tape.sense == SenseData(0, true, false)
  {
    hide *;
    AheadIs(f, objects, i);
    CodesAre();
    LastIsNoFilemark(objects);
    ReadSenseIs(AtFilemark(0), true, Offset(length, tape.blockSize));
    ReadSenseIs(AtEndOfData(0), true, Offset(length, tape.blockSize));
    FixedResultIs(tape, f, HeadAt(objects, i), length, Offset(length, tape.blockSize), ok, data);
  }

  lemma LastIsNoFilemark(objects: seq<Object>)
    requires Proper(objects)
    ensures objects != [] && objects[|objects| - 1] != Marker(MetaData(0, 0))
  {
  }

  lemma FixedResultIs(tape: Tape, f: Bytes, h: Head, n: nat, requested: nat, ok: bool, data: Bytes)
    requires n > 0
    requires tape.FixedResult(FixedRead(f, h, tape.blockSize, n), requested, SenseData(0, false, false), ok, data)
    ensures var r := RecordAhead(f, h);
            r.NotFound? && r.walk.Stopped? ==>
              && !ok && data == [] && tape.Where() == r.walk.head
              && tape.sense == SenseOf(r.walk.stop, false, true, true, requested, SenseData(0, false, false))
  {
    hide SenseOf, RecordAhead;
  }

  method ExecuteWrite(tape: Tape, fixed: bool, length: nat, data: Bytes, ghost objects: seq<Object>, ghost i: nat)
    returns (kept: bool, ghost o: seq<Object>, ghost j: nat)
    requires Standing(tape, objects, i) && 0 < tape.blockSize < 0x100_0000
    requires length < 0x100_0000 && |data| == (if fixed then Offset(length, tape.blockSize) else length)
    requires |data| < 0x8000_0000
    modifies tape, tape.controller
    ensures kept <==>
              (length == 0
               || Room(tape.fileSize,
                       old(tape.Where()).pos + |Encode(Records(fixed, data, tape.blockSize, length))|))
    ensures kept ==> Standing(tape, o, j)
  {
    hide *;
    ReadyToWrite(tape, objects, i);
    o, j := objects, i;
    ghost var more := Records(fixed, data, tape.blockSize, length);
    ghost var f, h := tape.bytes, tape.Where();
    if length > 0 && Room(tape.fileSize, h.pos + |Encode(more)|) {
      RoomIsSpace(tape.fileSize, h.pos + |Encode(more)|);
      WriteKeeps(f, h, objects, i, fixed, data, tape.blockSize, length);
      o, j := Rewritten(objects, i, more), i + |more|;
      WriteIs(f, h.pos, more);
    }
    var ok := tape.Write(fixed, length, data);
    kept := ok;
    if ok {
      StandsAgain(tape, o, j);
    }
  }

  lemma ReadyToWrite(tape: Tape, objects: seq<Object>, i: nat)
    requires Standing(tape, objects, i)
    ensures tape.Valid() && tape.fileSize == |tape.bytes| && AtObject(tape.bytes, tape.Where(), objects, i)
    ensures tape.tapePosition == tape.Where().pos >= 0 && Even(tape.tapePosition)
    ensures tape.objectLocation == tape.Where().loc && 0 < tape.blockSize < 0x100_0000
    ensures IsBlockSize(tape.blockSize) && Even(tape.blockSize) && tape.fileSize >= 12
  {
    EvenPosition(objects, i);
    hide Holds, Proper;
  }

  lemma StandsAgain(tape: Tape, objects: seq<Object>, i: nat)
    requires IsBlockSize(tape.blockSize) && 0 < tape.blockSize < 0x100_0000 && Even(tape.blockSize)
    requires |tape.bytes| == tape.fileSize >= 12 && AtObject(tape.bytes, tape.Where(), objects, i)
    ensures Standing(tape, objects, i)
  {
    hide AtObject, IsBlockSize, Even;
  }

  lemma WriteIs(f: Bytes, pos: nat, more: seq<Object>)
    requires (forall k :: 0 <= k < |more| ==> more[k].Valid()) && pos + |Encode(more)| + META_DATA_SIZE <= |f|
    ensures WriteObjects(f, pos, more) == Splice(f, pos, Encode(more) + ToLittleEndian(END_OF_DATA_MARKER))
    ensures |WriteObjects(f, pos, more)| == |f|
  {
    hide Encode, ToLittleEndian, Object.Valid;
  }

  // Runs

  /** Executes commands as long as they complete. After any number of them the drive is on an object
      boundary, and its object number is the number of the objects before it. */
  method Run(tape: Tape, commands: seq<Command>, ghost objects: seq<Object>, ghost i: nat)
    returns (kept: bool, ghost o: seq<Object>, ghost j: nat)
    requires Standing(tape, objects, i) && 0 < tape.blockSize < 0x100_0000
    requires forall k :: 0 <= k < |commands| ==> IsCommand(commands[k], tape.blockSize)
    modifies tape, tape.controller
    ensures kept ==> Standing(tape, o, j) && tape.objectLocation == j
    ensures (forall k :: 0 <= k < |commands| ==> !commands[k].Write?) ==> tape.bytes == old(tape.bytes) && o == objects
  {
    hide Standing, IsCommand, Completes;
    kept, o, j := true, objects, i;
    for n := 0 to |commands|
      invariant kept ==> Standing(tape, o, j)
      invariant (forall k :: 0 <= k < n ==> !commands[k].Write?) ==> tape.bytes == old(tape.bytes) && o == objects
    {
      if kept {
        kept, o, j := Execute(tape, commands[n], o, j);
      }
    }
    if kept {
      NumberIsIndex(tape, o, j);
    }
  }

  lemma NumberIsIndex(tape: Tape, objects: seq<Object>, i: nat)
    requires Standing(tape, objects, i)
    ensures tape.objectLocation == i
  {
    NumberedIsIndex(objects, i);
    hide Holds, Proper;
  }

  /** READ POSITION, any commands that do not write, and LOCATE to the reported number: the drive is at
      the same byte offset again. */
  method ReturnTo(tape: Tape, commands: seq<Command>, ghost objects: seq<Object>, ghost i: nat) returns (kept: bool)
    requires Standing(tape, objects, i) && 0 < tape.blockSize < 0x100_0000 && i < 0x1_0000_0000
    requires forall k :: 0 <= k < |commands| ==> IsCommand(commands[k], tape.blockSize) && !commands[k].Write?
    modifies tape, tape.controller
    ensures kept ==> tape.Where() == old(tape.Where()) && Standing(tape, objects, i)
  {
    NumberIsIndex(tape, objects, i);
    StandsAt(tape, objects, i);
    hide Standing, IsCommand, HeadAt;
    var reply := tape.ReadPosition(false);
    var number := GetInt32(reply, 4);
    SmallNumber(i, number);
    ghost var o, j;
    kept, o, j := Run(tape, commands, objects, i);
    if kept {
      kept, j := ExecuteLocate(tape, number, o, j);
    }
  }

  lemma StandsAt(tape: Tape, objects: seq<Object>, i: nat)
    requires Standing(tape, objects, i)
    ensures i < |objects| && tape.Where() == HeadAt(objects, i)
  {
    hide Holds, Proper, HeadAt;
  }

  lemma SmallNumber(i: nat, number: nat)
    requires i < 0x1_0000_0000 && number < 0x1_0000_0000
    requires SameModulo(i, number)
    ensures i == number
  {
  }

  lemma StandingIs(tape: Tape, objects: seq<Object>, i: nat)
    requires Standing(tape, objects, i)
    ensures Holds(tape.bytes, objects) && Proper(objects) && i < |objects|
  {
    hide Holds, Proper;
  }

  lemma SpacedOver(code: nat)
    requires code in {0, 1}
    ensures ObjectType(code) in {Block, Filemark}
  {
  }

  /** LOCATE to an object that is not there answers with GOOD, and the drive is behind the end-of-data
      object. A search backwards from there meets this object and leaves the drive one word in front of it,
      which is no object boundary if the last object is a record. */
  method LocateMissing(tape: Tape, id: nat, code: nat, count: int, ghost objects: seq<Object>, ghost i: nat)
    returns (good: bool, done: bool)
    requires Standing(tape, objects, i) && |objects| <= id < 0x1_0000_0000 && code in {0, 1} && count < 0
    modifies tape
    ensures tape.bytes == old(tape.bytes) && good && !done
    ensures |objects| > 0 && tape.Where() == Misplaced(HeadAt(objects, |objects| - 1))
    ensures (exists k: nat :: k <= |objects| && Position(objects, k) == tape.Where().pos) <==>
              |objects| > 1 && objects[|objects| - 2].Length() == META_DATA_SIZE
  {
    hide *;
    StandingIs(tape, objects, i);
    MissingEndsBehind(tape.bytes, objects, id);
    SpacedOver(code);
    BackFromBehind(tape.bytes, objects, ObjectType(code), -count);
    EndOfDataInReverse(objects, |objects| - 1);
    ghost var l;
    good, l := tape.LocateCommand(id);
    tape.SearchIs(tape.Where(), ObjectType(code), count);
    ghost var w;
    done, w := tape.Space6(code, count);
  }

  // Everything that was written is read back.

  /** The requests as the drive has executed them so far. */
  ghost predicate HasWritten(tape: Tape, f: Bytes, requests: seq<Request>)
    reads tape
  {
    && tape.Valid() && tape.fileSize == |tape.bytes| == |f| && AllAcceptable(requests, tape.blockSize)
    && WriteAll(f, requests, tape.blockSize) == Image(tape.bytes, tape.Where())
    && IsWritten(f, Image(tape.bytes, tape.Where()), requests, tape.blockSize)
    && tape.tapePosition >= 0 && Even(tape.tapePosition)
  }

  lemma EvenEnd(requests: seq<Request>, size: nat)
    requires AllAcceptable(requests, size)
    ensures Even(EncodedSize(requests, size))
  {
    var all := AllRecords(requests, size);
    EncodedLength(all);
    EvenPosition(all, |all|);
    hide Position, Encode, Object.Valid;
  }

  /** Overflow is not undone by more WRITEs. */
  lemma {:induction false} OverflowStays(f: Bytes, requests: seq<Request>, size: nat, k: nat)
    requires AllAcceptable(requests, size) && k <= |requests|
    requires AllAcceptable(requests[..k], size) && WriteAll(f, requests[..k], size) == Overflow
    ensures WriteAll(f, requests, size) == Overflow
    decreases |requests|
  {
    hide Request.Acceptable, Request.Objects, WriteMoreObjects;
    if k == |requests| {
      assert requests[..k] == requests;
    } else {
      var init := requests[..|requests| - 1];
      assert init[..k] == requests[..k];
      OverflowStays(f, init, size, k);
    }
  }

  lemma WriteOne(f: Bytes, requests: seq<Request>, size: nat, k: nat)
    requires AllAcceptable(requests, size) && k < |requests|
    ensures AllAcceptable(requests[..k], size) && AllAcceptable(requests[..k + 1], size) && requests[k].Acceptable(size)
    ensures WriteAll(f, requests[..k], size).Image? ==>
              WriteAll(f, requests[..k + 1], size)
              == WriteMoreObjects(WriteAll(f, requests[..k], size), requests[k].Objects(size))
  {
    hide Request.Acceptable, Request.Objects, WriteMoreObjects;
    assert requests[..k + 1][..k] == requests[..k];
  }

  /** WRITE of a request. */
  method WriteRequest(tape: Tape, r: Request, ghost f: Bytes, ghost requests: seq<Request>, ghost k: nat)
    returns (ok: bool)
    requires k < |requests| && r == requests[k] && AllAcceptable(requests, tape.blockSize) && |f| >= META_DATA_SIZE
    requires HasWritten(tape, f, requests[..k])
    modifies tape, tape.controller
    ensures AllAcceptable(requests[..k + 1], tape.blockSize)
    ensures ok ==> HasWritten(tape, f, requests[..k + 1])
    ensures !ok ==> WriteAll(f, requests[..k + 1], tape.blockSize) == Overflow
  {
    hide *;
    ghost var size, before := tape.blockSize, Image(tape.bytes, tape.Where());
    WrittenSoFar(tape, f, requests[..k]);
    WriteOne(f, requests, size, k);
    RequestIs(r, size);
    RequestLength(r, size);
    MoreIs(before, r.Objects(size));
    if before.head.pos >= 0 && Room(|before.file|, before.head.pos + |Encode(r.Objects(size))|) {
      RoomIsSpace(tape.fileSize, before.head.pos + |Encode(r.Objects(size))|);
      WriteIs(tape.bytes, tape.tapePosition, r.Objects(size));
    }
    ok := tape.Write(r.fixed, r.Length(), r.data);
    if ok {
      WriteAllHolds(f, requests[..k + 1], size);
      StillWritten(tape, f, requests[..k + 1]);
    }
  }

  lemma WrittenSoFar(tape: Tape, f: Bytes, requests: seq<Request>)
    requires HasWritten(tape, f, requests)
    ensures tape.Valid() && IsBlockSize(tape.blockSize) && Even(tape.blockSize) && tape.fileSize >= 12
    ensures tape.fileSize == |tape.bytes| == |f| && AllAcceptable(requests, tape.blockSize) && IsSize(tape.blockSize)
    ensures WriteAll(f, requests, tape.blockSize) == Image(tape.bytes, tape.Where())
    ensures tape.tapePosition == tape.Where().pos >= 0 && Even(tape.tapePosition)
    ensures tape.objectLocation == tape.Where().loc
  {
    hide WriteAll, IsWritten, Request.Acceptable;
  }

  lemma StillWritten(tape: Tape, f: Bytes, requests: seq<Request>)
    requires IsBlockSize(tape.blockSize) && Even(tape.blockSize) && tape.fileSize == |tape.bytes| == |f| >= 12
    requires AllAcceptable(requests, tape.blockSize)
    requires WriteAll(f, requests, tape.blockSize) == Image(tape.bytes, tape.Where())
    requires if Room(|f|, EncodedSize(requests, tape.blockSize)) then
               IsWritten(f, WriteAll(f, requests, tape.blockSize), requests, tape.blockSize)
             else WriteAll(f, requests, tape.blockSize) == Overflow
    ensures HasWritten(tape, f, requests)
  {
    EvenEnd(requests, tape.blockSize);
    hide WriteAll, Holds, EncodedSize, TapeObjects, HeadAt, AllRecords, Request.Acceptable;
  }

  lemma RequestLength(r: Request, size: nat)
    requires IsSize(size) && r.Acceptable(size)
    ensures r.Length() < 0x100_0000 && |r.data| == (if r.fixed then Offset(r.Length(), size) else r.Length())
    ensures |r.data| < 0x8000_0000 && (r.Length() == 0 <==> r.Objects(size) == [])
    ensures |Records(r.fixed, r.data, size, r.Length())| == |r.Objects(size)|
  {
    hide Even;
  }

  lemma MoreIs(t: Image, more: seq<Object>)
    requires t.Image? && forall k :: 0 <= k < |more| ==> more[k].Valid()
    ensures WriteMoreObjects(t, more) ==
              if more == [] then t
              else if t.head.pos >= 0 && Room(|t.file|, t.head.pos + |Encode(more)|) then
                (RoomIsSpace(|t.file|, t.head.pos + |Encode(more)|);
                 Image(WriteObjects(t.file, t.head.pos, more),
                       Head(t.head.pos + |Encode(more)|, t.head.loc + |more|)))
              else Overflow
  {
    hide Encode, Object.Valid, WriteObjects;
  }

  lemma {:induction false} PrefixReceived(f: Bytes, requests: seq<Request>, size: nat, k: nat)
    requires ReadAll(f, requests, size).Received? && k <= |requests|
    ensures ReadAll(f, requests[..k], size).Received?
    decreases |requests|
  {
    hide ReadOne;
    if k == |requests| {
      assert requests[..k] == requests;
    } else {
      var init := requests[..|requests| - 1];
      assert init[..k] == requests[..k];
      PrefixReceived(f, init, size, k);
    }
  }

  lemma ReadNext(f: Bytes, requests: seq<Request>, size: nat, k: nat)
    requires k < |requests| && ReadAll(f, requests[..k + 1], size).Received?
    ensures ReadAll(f, requests[..k], size).Received?
    ensures var before, r := ReadAll(f, requests[..k], size), requests[k];
            var one := ReadOne(f, before.head, r.fixed, r.Length(), size);
            && one.Received? && ReadAll(f, requests[..k + 1], size) == Received(before.data + one.data, one.head)
  {
    hide ReadOne;
    assert requests[..k + 1][..k] == requests[..k];
  }

  /** READ of what a request has written. */
  method ReadRequest(tape: Tape, r: Request) returns (data: Bytes)
    requires tape.Valid() && IsSize(tape.blockSize) && r.Acceptable(tape.blockSize)
    requires ReadOne(tape.bytes, tape.Where(), r.fixed, r.Length(), tape.blockSize).Received?
    modifies tape, tape.controller
    ensures tape.bytes == old(tape.bytes) && tape.Valid()
    ensures ReadOne(tape.bytes, old(tape.Where()), r.fixed, r.Length(), tape.blockSize)
            == Received([data], tape.Where())
  {
    RequestLength(r, tape.blockSize);
    hide RecordAhead, RecordData, Offset, Even, IsBlockSize, IsSize, Request.Objects, Records;
    ghost var f, h := tape.bytes, tape.Where();
    NoBlocksAhead(f, h, tape.blockSize);
    var ok;
    ok, data := tape.Read(r.fixed, false, r.Length());
  }

  lemma NoBlocksAhead(f: Bytes, h: Head, size: nat)
    ensures FixedRead(f, h, size, 0) == AllRead([], h)
  {
  }

  method WriteRequests(tape: Tape, requests: seq<Request>) returns (ok: bool)
    requires tape.Valid() && tape.fileSize == |tape.bytes| && AllAcceptable(requests, tape.blockSize)
    modifies tape, tape.controller
    ensures ok <==> Room(tape.fileSize, EncodedSize(requests, tape.blockSize))
    ensures ok ==> HasWritten(tape, old(tape.bytes), requests)
  {
    ghost var f, size := tape.bytes, tape.blockSize;
    Started(tape, requests);
    hide *;
    WriteAllHolds(f, requests, size);
    tape.ResetPositions();
    BeginsWritten(tape, f);
    AtStart(requests);
    ok := true;
    for k := 0 to |requests|
      invariant ok && HasWritten(tape, f, requests[..k])
    {
      ok := WriteRequest(tape, requests[k], f, requests, k);
      if !ok {
        OverflowStays(f, requests, size, k + 1);
        NotImage(f, requests, size);
        return;
      }
    }
    AtEnd(requests);
    WrittenSoFar(tape, f, requests);
    NotImage(f, requests, size);
  }

  lemma Started(tape: Tape, requests: seq<Request>)
    requires tape.Valid() && AllAcceptable(requests, tape.blockSize) && tape.fileSize == |tape.bytes|
    ensures IsBlockSize(tape.blockSize) && Even(tape.blockSize) && tape.fileSize >= 12 && IsSize(tape.blockSize)
    ensures |tape.bytes| >= META_DATA_SIZE && tape.fileSize == |tape.bytes|
  {
  }

  lemma AtStart(requests: seq<Request>)
    ensures requests[..0] == []
  {
  }

  lemma AtEnd(requests: seq<Request>)
    ensures requests[..|requests|] == requests
  {
  }

  lemma BeginsWritten(tape: Tape, f: Bytes)
    requires IsBlockSize(tape.blockSize) && Even(tape.blockSize) && IsSize(tape.blockSize)
    requires tape.bytes == f && tape.fileSize == |f| >= 12 && tape.Where() == Head(0, 0)
    ensures HasWritten(tape, f, [])
  {
    NothingIsWritten(f, tape.blockSize);
    hide IsWritten;
  }

  lemma NotImage(f: Bytes, requests: seq<Request>, size: nat)
    requires AllAcceptable(requests, size)
    requires if Room(|f|, EncodedSize(requests, size)) then IsWritten(f, WriteAll(f, requests, size), requests, size)
             else WriteAll(f, requests, size) == Overflow
    ensures Room(|f|, EncodedSize(requests, size)) <==> WriteAll(f, requests, size).Image?
  {
    hide WriteAll, Holds, HeadAt, TapeObjects, AllRecords, Request.Acceptable, EncodedSize;
  }

  method ReadRequests(tape: Tape, requests: seq<Request>) returns (data: seq<Bytes>)
    requires tape.Valid() && AllAcceptable(requests, tape.blockSize)
    requires ReadAll(tape.bytes, requests, tape.blockSize).Received?
    modifies tape, tape.controller
    ensures tape.bytes == old(tape.bytes) && tape.Valid()
    ensures ReadAll(tape.bytes, requests, tape.blockSize) == Received(data, tape.Where())
  {
    ghost var f, size := tape.bytes, tape.blockSize;
    hide *;
    AcceptableSize(requests, size);
    tape.ResetPositions();
    data := [];
    AtStart(requests);
    NothingReceived(f, size);
    for k := 0 to |requests|
      invariant tape.bytes == f && tape.Valid()
      invariant ReadAll(f, requests[..k], size) == Received(data, tape.Where())
    {
      PrefixReceived(f, requests, size, k + 1);
      ReadNext(f, requests, size, k);
      EachAcceptable(requests, size, k);
      var one := ReadRequest(tape, requests[k]);
      data := data + [one];
    }
    AtEnd(requests);
  }

  lemma NothingReceived(f: Bytes, size: nat)
    ensures ReadAll(f, [], size) == Received([], Head(0, 0))
  {
  }

  lemma EachAcceptable(requests: seq<Request>, size: nat, k: nat)
    requires AllAcceptable(requests, size) && k < |requests|
    ensures requests[k].Acceptable(size)
  {
    hide Request.Acceptable;
  }

  /** A sequence of WRITEs from the beginning of a tape succeeds exactly if there is room for all records
      and a meta data word. Then the matching READs after a REWIND return the data that were written, and
      the file is the encoding of the records and of an end-of-data marker. */
  method WriteThenRead(tape: Tape, requests: seq<Request>) returns (ok: bool, data: seq<Bytes>)
    requires tape.Valid() && tape.fileSize == |tape.bytes| && AllAcceptable(requests, tape.blockSize)
    modifies tape, tape.controller
    ensures ok <==> Room(tape.fileSize, EncodedSize(requests, tape.blockSize))
    ensures ok ==>
              && data == Data(requests)
              && IsWritten(old(tape.bytes), Image(tape.bytes, tape.Where()), requests, tape.blockSize)
  {
    ghost var f, size := tape.bytes, tape.blockSize;
    Started(tape, requests);
    hide *;
    data := [];
    ok := WriteRequests(tape, requests);
    if ok {
      WrittenSoFar(tape, f, requests);
      WrittenIsRead(f, requests, size);
      data := ReadRequests(tape, requests);
    }
  }
}
