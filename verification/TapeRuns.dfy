/** Whole runs of a tape drive: what READ makes of the objects on a tape, what WRITE adds to them, and
    that everything that was written is read back. */
module TapeRuns {
  import opened ImageFiles
  import opened Simh
  import opened TapeWalk
  import opened TapeRecords
  import opened TapeReading
  import opened Transfers

  // Reading

  /** What READ finds at an object that is not a gap. */
  function Ahead(f: Bytes, m: MetaData, h: Head, next: Head): NextRecord {
    match See(m)
    case MediumEnd => NotFound(Stopped(AtEndOfMedium(0), next))
    case Skipped => RecordAhead(f, next)
    case Visible(kind, length) =>
      if kind == Block then
        var g := if length == 0 then Head(h.pos + META_DATA_SIZE, next.loc) else next;
        RecordAt(f, g.pos - (m.value + META_DATA_SIZE), m.value, g.loc)
      else if kind == EndOfData then NotFound(Stopped(AtEndOfData(0), h))
      else if kind == Filemark then NotFound(Stopped(AtFilemark(0), next))
      else RecordAhead(f, next)
  }

  lemma RecordAheadStep(f: Bytes, h: Head, m: MetaData, next: Head)
    requires h.pos >= 0 && m == ReadMetaData(f, h.pos)
    requires next == Head(h.pos + META_DATA_SIZE + Rest(m), h.loc + Number(m))
    ensures RecordAhead(f, h) == Ahead(f, m, h, next)
  {
    MarkersAreShort(m);
    hide ReadMetaData, See, Rest, Number, RecordAt;
    if See(m).Skipped? {
      assert NextForward(f, h) == NextForward(f, next);
    }
  }

  lemma AheadOf(f: Bytes, objects: seq<Object>, i: nat)
    requires Holds(f, objects) && i < |objects|
    ensures RecordAhead(f, HeadAt(objects, i))
            == Ahead(f, objects[i].Meta(), HeadAt(objects, i), HeadAt(objects, i + 1))
  {
    ForwardStep(f, objects, i);
    hide RecordAhead, Ahead, Holds, Position, Numbered, Rest, Number;
    RecordAheadStep(f, HeadAt(objects, i), objects[i].Meta(), HeadAt(objects, i + 1));
  }

  /** A record that READ transfers, good or bad. */
  predicate IsData(o: Object) {
    o.Record? && o.Valid() && o.cls in {GOOD_DATA, BAD_DATA}
  }

  lemma RecordSight(o: Object)
    requires IsData(o)
    ensures o.Record? && o.Valid() && See(o.Meta()) == Visible(Block, |o.data|) && |o.data| > 0
    ensures o.Meta().value == |o.data| && o.Length() == Pad(|o.data|) + 2 * META_DATA_SIZE
  {
  }

  lemma RecordAheadOf(f: Bytes, objects: seq<Object>, i: nat)
    requires Holds(f, objects) && i < |objects| && IsData(objects[i])
    ensures var v := |objects[i].data|;
            && v > 0 && Position(objects, i + 1) == Position(objects, i) + Pad(v) + 2 * META_DATA_SIZE
            && RecordAhead(f, HeadAt(objects, i))
            == RecordAt(f, Position(objects, i + 1) - (v + META_DATA_SIZE), v, Numbered(objects, i + 1))
  {
    hide *;
    NextHead(objects, i);
    RecordSight(objects[i]);
    AheadOf(f, objects, i);
    AheadIsRecord(f, objects[i].Meta(), HeadAt(objects, i), HeadAt(objects, i + 1));
  }

  lemma NextHead(objects: seq<Object>, i: nat)
    requires i < |objects|
    ensures HeadAt(objects, i + 1) == Head(Position(objects, i + 1), Numbered(objects, i + 1))
    ensures Position(objects, i + 1) == Position(objects, i) + objects[i].Length()
  {
  }

  lemma AheadIsRecord(f: Bytes, m: MetaData, h: Head, next: Head)
    requires See(m).Visible? && See(m).kind == Block && See(m).length > 0
    ensures Ahead(f, m, h, next) == RecordAt(f, next.pos - (m.value + META_DATA_SIZE), m.value, next.loc)
  {
    hide See, RecordAt;
  }

  lemma TrailingWord(f: Bytes, pos: nat)
    requires pos + META_DATA_SIZE <= |f|
    ensures TrailingLength(f, pos) == ReadMetaData(f, pos).value
  {
  }

  lemma EvenPad(v: nat)
    ensures Even(v) ==> Pad(v) == v && Padding(v) == []
    ensures !Even(v) ==> Pad(v) == v + 1
  {
  }

  /** A record of even length is read as it is. */
  lemma EvenRecordIsRead(f: Bytes, objects: seq<Object>, i: nat)
    requires Holds(f, objects) && i < |objects| && IsData(objects[i]) && Even(|objects[i].data|)
    ensures RecordAhead(f, HeadAt(objects, i))
         == Readable(Position(objects, i) + META_DATA_SIZE, |objects[i].data|, HeadAt(objects, i + 1))
    ensures RecordData(f, Position(objects, i) + META_DATA_SIZE, |objects[i].data|) == objects[i].data
  {
    EvenRecordIsFound(f, objects, i);
    EvenRecordData(f, objects, i);
    hide *;
  }

  lemma EvenRecordIsFound(f: Bytes, objects: seq<Object>, i: nat)
    requires Holds(f, objects) && i < |objects| && IsData(objects[i]) && Even(|objects[i].data|)
    ensures RecordAhead(f, HeadAt(objects, i))
         == Readable(Position(objects, i) + META_DATA_SIZE, |objects[i].data|, HeadAt(objects, i + 1))
  {
    hide *;
    NextHead(objects, i);
    RecordSight(objects[i]);
    EvenPad(|objects[i].data|);
    RecordAheadOf(f, objects, i);
    MetaDataAtBothEnds(f, objects, i);
    RecordAtEnd(f, Position(objects, i + 1), |objects[i].data|, Numbered(objects, i + 1));
  }

  lemma EvenRecordData(f: Bytes, objects: seq<Object>, i: nat)
    requires Holds(f, objects) && i < |objects| && IsData(objects[i]) && Even(|objects[i].data|)
    ensures RecordData(f, Position(objects, i) + META_DATA_SIZE, |objects[i].data|) == objects[i].data
  {
    hide *;
    RecordSight(objects[i]);
    RecordLayout(objects[i]);
    ObjectBytes(f, objects, i);
    Middle(f, Position(objects, i), Position(objects, i + 1), ToLittleEndian(objects[i].Meta()), objects[i].data);
  }

  lemma RecordLayout(o: Object)
    requires IsData(o) && Even(|o.data|)
    ensures o.Valid() && |ToLittleEndian(o.Meta())| == META_DATA_SIZE
    ensures o.Encoding() == ToLittleEndian(o.Meta()) + o.data + [] + ToLittleEndian(o.Meta())
  {
    EvenPad(|o.data|);
    hide ToLittleEndian;
  }

  lemma Middle(f: Bytes, a: nat, b: nat, word: Bytes, data: Bytes)
    requires a <= b <= |f| && f[a..b] == word + data + [] + word && |word| == META_DATA_SIZE
    ensures b == a + |data| + 2 * META_DATA_SIZE
    ensures RecordData(f, a + META_DATA_SIZE, |data|) == data
  {
    var s := f[a..b];
    assert |s| == b - a;
    assert |s| == |data| + 2 * META_DATA_SIZE;
    forall x | 0 <= x < |data|
      ensures f[a + META_DATA_SIZE + x] == data[x]
    {
      assert s[META_DATA_SIZE + x] == data[x];
    }
  }

  lemma RecordAtEnd(f: Bytes, b: nat, v: nat, loc: int)
    requires 0 < v <= b - 2 * META_DATA_SIZE && b <= |f| && Pad(v) == v
    requires ReadMetaData(f, b - META_DATA_SIZE).value == v
    ensures RecordAt(f, b - (v + META_DATA_SIZE), v, loc) == Readable(b - (v + META_DATA_SIZE), v, Head(b, loc))
  {
    TrailingWord(f, b - META_DATA_SIZE);
    hide Pad, ReadMetaData, TrailingLength;
  }

  /** A record of odd length is looked for one byte too late: what is taken for its trailing length
      never is, and the READ ends with a medium error. */
  lemma OddRecordIsNotRead(f: Bytes, objects: seq<Object>, i: nat)
    requires Holds(f, objects) && i < |objects| && IsData(objects[i])
    requires !Even(|objects[i].data|) && |objects[i].data| < 0x100_0000
    ensures RecordAhead(f, HeadAt(objects, i)) == Damaged(|objects[i].data|)
  {
    hide *;
    RecordSight(objects[i]);
    EvenPad(|objects[i].data|);
    RecordAheadOf(f, objects, i);
    ObjectBytes(f, objects, i);
    ObjectOf(f, objects, i);
    OddAt(f, Position(objects, i), Position(objects, i + 1), objects[i].Encoding(), objects[i].Meta(),
          Numbered(objects, i + 1));
  }

  lemma OddAt(f: Bytes, a: nat, b: nat, e: Bytes, m: MetaData, loc: int)
    requires Encodable(m) && !Even(m.value) && m.value < 0x100_0000
    requires b == a + Pad(m.value) + 2 * META_DATA_SIZE && b <= |f| && f[a..b] == e && |e| == b - a
    requires e[|e| - META_DATA_SIZE..] == ToLittleEndian(m)
    ensures RecordAt(f, b - (m.value + META_DATA_SIZE), m.value, loc) == Damaged(m.value)
  {
    EvenPad(m.value);
    hide TrailingLength, Pad, ToLittleEndian, Even;
    if b + 1 <= |f| {
      assert f[b - 4..b] == f[a..b][b - a - 4..];
      ShiftedWord(f, b, m);
    }
  }

  lemma ShiftedWord(f: Bytes, b: nat, m: MetaData)
    requires 4 <= b < |f| && Encodable(m) && f[b - 4..b] == ToLittleEndian(m)
    requires m.value < 0x100_0000 && !Even(m.value)
    ensures TrailingLength(f, b - 3) != m.value
  {
    var w := f[b - 3..b + 1];
    var word := f[b - 4..b];
    assert w[0] == word[1] && w[1] == word[2] && w[2] == word[3];
    NotShifted(m, word[0] as int, word[1] as int, word[2] as int, word[3] as int, w[3] as int);
    assert FromLittleEndian(w).value == Low(word[1] as int, word[2] as int, word[3] as int, w[3] as int);
  }

  function Low(b0: nat, b1: nat, b2: nat, b3: nat): nat {
    (b3 * 0x100_0000 + b2 * 0x1_0000 + b1 * 0x100 + b0) % 0x1000_0000
  }

  lemma NotShifted(m: MetaData, b0: nat, b1: nat, b2: nat, b3: nat, x: nat)
    requires b0 < 0x100 && b1 < 0x100 && b2 < 0x100 && b3 < 0x100 && x < 0x100
    requires m.value == b2 * 0x1_0000 + b1 * 0x100 + b0 && b3 == m.cls * 0x10 && !Even(m.value)
    ensures Low(b1, b2, b3, x) != m.value
  {
    hide Even, Low;
    LowDigits(b1, b2, b3, x);
    Doubled(m.cls * 0x8_0808);
    SameDigits(x % 0x10, b3, b2, b1, b0);
  }

  lemma Doubled(n: nat)
    ensures Even(2 * n)
  {
  }

  lemma SameDigits(h: nat, b3: nat, b2: nat, b1: nat, b0: nat)
    requires b0 < 0x100 && b1 < 0x100 && b2 < 0x100 && b3 < 0x100
    ensures h * 0x100_0000 + b3 * 0x1_0000 + b2 * 0x100 + b1 == b2 * 0x1_0000 + b1 * 0x100 + b0 ==>
              b3 == b2 == b1 == b0
  {
  }

  lemma LowDigits(b0: nat, b1: nat, b2: nat, b3: nat)
    requires b0 < 0x100 && b1 < 0x100 && b2 < 0x100 && b3 < 0x100
    ensures Low(b0, b1, b2, b3) == b3 % 0x10 * 0x100_0000 + b2 * 0x1_0000 + b1 * 0x100 + b0
  {
  }

  // Writing

  /** The end-of-data marker as an object. */
  function EndMarker(): (o: Object)
    ensures o.Valid() && o.Encoding() == ToLittleEndian(END_OF_DATA_MARKER)
  {
    Marker(END_OF_DATA_MARKER)
  }

  lemma EncodeNothing()
    ensures Encode([]) == []
  {
  }

  lemma {:induction false} EncodeConcat(a: seq<Object>, b: seq<Object>)
    requires AllValid(a) && AllValid(b)
    ensures AllValid(a + b) && Encode(a + b) == Encode(a) + Encode(b)
  {
    hide Object.Encoding, Object.Length, Object.Valid, Encode;
    if b == [] {
      assert a + b == a;
      EncodeNothing();
    } else {
      var n := |b| - 1;
      EncodeConcat(a, b[..n]);
      EncodeAppend(a + b[..n], b[n]);
      EncodeAppend(b[..n], b[n]);
      assert a + b == a + b[..n] + [b[n]] && b == b[..n] + [b[n]];
    }
  }

  lemma {:induction false} PositionInPrefix(a: seq<Object>, b: seq<Object>, i: nat)
    requires i <= |a|
    ensures Position(a + b, i) == Position(a, i) && Numbered(a + b, i) == Numbered(a, i)
  {
    hide Object.Length, Number, Object.Meta;
    if i > 0 {
      PositionInPrefix(a, b, i - 1);
    }
  }

  lemma {:induction false} PrefixPosition(objects: seq<Object>, i: nat, j: nat)
    requires j <= i <= |objects|
    ensures Position(objects[..i], j) == Position(objects, j) && Numbered(objects[..i], j) == Numbered(objects, j)
  {
    assert objects[..i] + objects[i..] == objects;
    PositionInPrefix(objects[..i], objects[i..], j);
  }

  /** The number of objects with a number of their own. */
  function NumberedIn(objects: seq<Object>): nat {
    Numbered(objects, |objects|)
  }

  lemma {:induction false} NumberedConcat(a: seq<Object>, b: seq<Object>)
    ensures NumberedIn(a + b) == NumberedIn(a) + NumberedIn(b)
  {
    hide Number, Object.Meta;
    if b == [] {
      assert a + b == a;
    } else {
      var n := |b| - 1;
      NumberedConcat(a, b[..n]);
      assert (a + b)[..|a| + n] == a + b[..n];
      PrefixPosition(a + b, |a| + n, |a| + n);
      PrefixPosition(b, n, n);
    }
  }

  lemma EncodedLength(objects: seq<Object>)
    requires AllValid(objects)
    ensures |Encode(objects)| == Position(objects, |objects|)
  {
    assert objects[..|objects|] == objects;
    PrefixLength(objects, |objects|);
  }

  /** What WRITE and WRITE FILEMARKS leave of the file: objects and an end-of-data marker. */
  function WriteObjects(f: Bytes, pos: nat, objects: seq<Object>): Bytes
    requires (forall i :: 0 <= i < |objects| ==> objects[i].Valid()) && pos + |Encode(objects)| + META_DATA_SIZE <= |f|
  {
    Splice(f, pos, Encode(objects) + ToLittleEndian(END_OF_DATA_MARKER))
  }

  /** The objects on the tape after new ones were written in front of object i. */
  function Rewritten(objects: seq<Object>, i: nat, more: seq<Object>): seq<Object>
    requires i <= |objects|
  {
    objects[..i] + more + [EndMarker()]
  }

  lemma SpliceHolds(f: Bytes, a: Bytes, b: Bytes)
    requires a <= f && |a| + |b| <= |f|
    ensures a + b <= Splice(f, |a|, b)
  {
    assert f[..|a|] == a;
  }

  /** Writing in front of object i keeps the objects before it and drops those behind it. */
  lemma WriteHolds(f: Bytes, objects: seq<Object>, i: nat, more: seq<Object>)
    requires Holds(f, objects) && i <= |objects| && AllValid(more)
    requires Position(objects, i) + |Encode(more)| + META_DATA_SIZE <= |f|
    ensures Holds(WriteObjects(f, Position(objects, i), more), Rewritten(objects, i, more))
  {
    hide *;
    PrefixHeld(f, objects, i);
    HeldIsValid(f, objects);
    HeldIsValid(f, objects[..i]);
    PrefixLength(objects, i);
    EncodeAppend(more, EndMarker());
    EncodeConcat(objects[..i], more + [EndMarker()]);
    RewrittenIs(objects, i, more);
    SplicedHolds(f, objects[..i], more, Rewritten(objects, i, more));
  }

  lemma HeldIsValid(f: Bytes, objects: seq<Object>)
    requires Holds(f, objects)
    ensures AllValid(objects) && Encode(objects) <= f
  {
  }

  lemma RewrittenIs(objects: seq<Object>, i: nat, more: seq<Object>)
    requires i <= |objects|
    ensures objects[..i] + (more + [EndMarker()]) == Rewritten(objects, i, more)
  {
  }

  lemma SplicedHolds(f: Bytes, kept: seq<Object>, more: seq<Object>, all: seq<Object>)
    requires AllValid(kept) && AllValid(more) && AllValid(all) && Encode(kept) <= f
    requires |Encode(kept)| + |Encode(more)| + META_DATA_SIZE <= |f|
    requires Encode(all) == Encode(kept) + (Encode(more) + EndMarker().Encoding())
    ensures Holds(WriteObjects(f, |Encode(kept)|, more), all)
  {
    hide Encode, Object.Valid, Object.Encoding, Splice, ToLittleEndian;
    SpliceHolds(f, Encode(kept), Encode(more) + ToLittleEndian(END_OF_DATA_MARKER));
  }

  /** The head behind what was written. */
  lemma WrittenHead(objects: seq<Object>, i: nat, more: seq<Object>)
    requires i <= |objects| && AllValid(objects) && AllValid(more)
    ensures HeadAt(Rewritten(objects, i, more), i + |more|)
         == Head(Position(objects, i) + |Encode(more)|, Numbered(objects, i) + NumberedIn(more))
  {
    hide Object.Valid, Object.Encoding, Object.Length, ToLittleEndian, Encode, Position, Numbered;
    var kept, all := objects[..i], Rewritten(objects, i, more);
    assert all == (kept + more) + [EndMarker()];
    PositionInPrefix(kept + more, [EndMarker()], i + |more|);
    EncodeConcat(kept, more);
    EncodedLength(kept + more);
    EncodedLength(kept);
    NumberedConcat(kept, more);
    PrefixPosition(objects, i, i);
  }

  lemma NumberedOne(o: Object)
    ensures NumberedIn([o]) == Number(o.Meta())
  {
    assert Numbered([o], 0) == 0;
  }

  lemma {:induction false} BlocksAreNumbered(data: Bytes, size: nat, n: nat)
    requires |data| == Offset(n, size) && 0 < size < 0x1000_0000
    ensures AllValid(Blocks(data, size, n)) && NumberedIn(Blocks(data, size, n)) == n
  {
    BlocksValid(data, size, n);
    if n > 0 {
      var last := Record(GOOD_DATA, data[|data| - size..]);
      BlocksAreNumbered(data[..|data| - size], size, n - 1);
      NumberedConcat(Blocks(data[..|data| - size], size, n - 1), [last]);
      NumberedOne(last);
    }
  }

  /** Every record of a WRITE has a number. */
  lemma RecordsAreNumbered(fixed: bool, data: Bytes, size: nat, n: nat)
    requires 0 < size < 0x1000_0000
    requires if fixed then |data| == Offset(n, size) else |data| < 0x1000_0000
    ensures NumberedIn(Records(fixed, data, size, n)) == |Records(fixed, data, size, n)|
  {
    if fixed {
      BlocksAreNumbered(data, size, n);
    } else if data != [] {
      NumberedOne(Record(GOOD_DATA, data));
    }
  }

  /** A WRITE in front of object i leaves the drive behind its records, with the right object number. */
  lemma WriteKeepsNumbers(f: Bytes, objects: seq<Object>, i: nat, fixed: bool, data: Bytes, size: nat, n: nat)
    requires Holds(f, objects) && i <= |objects| && 0 < size < 0x1000_0000
    requires if fixed then |data| == Offset(n, size) else |data| < 0x1000_0000
    requires Position(objects, i) + |Encode(Records(fixed, data, size, n))| + META_DATA_SIZE <= |f|
    ensures var more := Records(fixed, data, size, n);
            && Holds(WriteObjects(f, Position(objects, i), more), Rewritten(objects, i, more))
            && Head(Position(objects, i) + |Encode(more)|, Numbered(objects, i) + |more|)
            == HeadAt(Rewritten(objects, i, more), i + |more|)
  {
    hide Records, Encode, Position, Numbered, HeadAt, WriteObjects, Rewritten, Offset, Object.Valid, NumberedIn;
    var more := Records(fixed, data, size, n);
    RecordsAreNumbered(fixed, data, size, n);
    WriteHolds(f, objects, i, more);
    WrittenHead(objects, i, more);
  }

  lemma {:induction false} FilemarksAreNumbered(count: nat)
    ensures NumberedIn(Filemarks(count)) == count
  {
    if count > 0 {
      FilemarksAreNumbered(count - 1);
      NumberedConcat(Filemarks(count - 1), [Marker(MetaData(GOOD_DATA, 0))]);
      NumberedOne(Marker(MetaData(GOOD_DATA, 0)));
    }
  }

  /** WRITE FILEMARKS does not count its filemarks: the object number is right only if there are none. */
  lemma FilemarksAreNotCounted(f: Bytes, objects: seq<Object>, i: nat, count: nat)
    requires Holds(f, objects) && i <= |objects|
    requires Position(objects, i) + |Encode(Filemarks(count))| + META_DATA_SIZE <= |f|
    ensures var more := Filemarks(count);
            && Holds(WriteObjects(f, Position(objects, i), more), Rewritten(objects, i, more))
            && (count == 0 <==>
                  Head(Position(objects, i) + |Encode(more)|, Numbered(objects, i))
                  == HeadAt(Rewritten(objects, i, more), i + count))
  {
    hide Filemarks, Encode, Position, Numbered, HeadAt, WriteObjects, Rewritten, Object.Valid, NumberedIn;
    FilemarksAreNumbered(count);
    WriteHolds(f, objects, i, Filemarks(count));
    WrittenHead(objects, i, Filemarks(count));
  }

  // Everything that was written is read back.

  /** A WRITE of some data. In fixed mode n is the number of blocks. */
  datatype Request = Request(fixed: bool, n: nat, data: Bytes) {
    /** The data have the length that the command gives, and records have an even length. */
    predicate Acceptable(size: nat) {
      if fixed then n < 0x100_0000 && |data| == Offset(n, size) < 0x8000_0000
      else 0 < |data| < 0x100_0000 && Even(|data|)
    }

    /** The length in the command. */
    function Length(): nat {
      if fixed then n else |data|
    }

    function Objects(size: nat): (r: seq<Object>)
      requires Acceptable(size) && IsSize(size)
      ensures forall i :: 0 <= i < |r| ==> r[i].Valid()
    {
      Records(fixed, data, size, Length())
    }
  }

  predicate IsSize(size: nat) {
    0 < size < 0x100_0000 && Even(size)
  }

  predicate AllAcceptable(requests: seq<Request>, size: nat) {
    IsSize(size) && forall i :: 0 <= i < |requests| ==> requests[i].Acceptable(size)
  }

  /** All records of a sequence of WRITEs. */
  function AllRecords(requests: seq<Request>, size: nat): (r: seq<Object>)
    requires AllAcceptable(requests, size)
    ensures forall i :: 0 <= i < |r| ==> r[i].Valid()
  {
    if requests == [] then [] else
    AllRecords(requests[..|requests| - 1], size) + requests[|requests| - 1].Objects(size)
  }

  function EncodedSize(requests: seq<Request>, size: nat): nat
    requires AllAcceptable(requests, size)
  {
    |Encode(AllRecords(requests, size))|
  }

  /** The file and the head of a drive, or the overflow of the volume. */
  datatype Image = Image(file: Bytes, head: Head) | Overflow

  /** One more WRITE, as the drive performs it. */
  function WriteMoreObjects(t: Image, more: seq<Object>): Image
    requires t.Image? && forall i :: 0 <= i < |more| ==> more[i].Valid()
  {
    if more == [] then t
    else if t.head.pos >= 0 && Room(|t.file|, t.head.pos + |Encode(more)|) then
      Image(WriteObjects(t.file, t.head.pos, more), Head(t.head.pos + |Encode(more)|, t.head.loc + |more|))
    else Overflow
  }

  /** The tape after a sequence of WRITEs from its beginning. */
  function WriteAll(f: Bytes, requests: seq<Request>, size: nat): Image
    requires AllAcceptable(requests, size)
  {
    if requests == [] then Image(f, Head(0, 0)) else
    var t := WriteAll(f, requests[..|requests| - 1], size);
    if t.Overflow? then Overflow else WriteMoreObjects(t, requests[|requests| - 1].Objects(size))
  }

  /** What should be on the tape: all records and an end-of-data marker. */
  function TapeObjects(requests: seq<Request>, size: nat): (r: seq<Object>)
    requires AllAcceptable(requests, size)
    ensures forall i :: 0 <= i < |r| ==> r[i].Valid()
  {
    var all := AllRecords(requests, size);
    if all == [] then [] else all + [EndMarker()]
  }

  lemma AllRecordsStep(requests: seq<Request>, size: nat)
    requires AllAcceptable(requests, size) && requests != []
    ensures AllAcceptable(requests[..|requests| - 1], size) && requests[|requests| - 1].Acceptable(size)
    ensures var before, more := AllRecords(requests[..|requests| - 1], size), requests[|requests| - 1].Objects(size);
            && AllRecords(requests, size) == before + more
            && Encode(AllRecords(requests, size)) == Encode(before) + Encode(more)
  {
    var before, more := AllRecords(requests[..|requests| - 1], size), requests[|requests| - 1].Objects(size);
    hide Encode, Object.Valid, Request.Objects;
    EncodeConcat(before, more);
  }

  /** The tape holds all records of the WRITEs, the drive is behind them, and what was further behind
      on the file is still there. */
  ghost predicate IsWritten(f: Bytes, t: Image, requests: seq<Request>, size: nat)
    requires AllAcceptable(requests, size)
  {
    var end, all := EncodedSize(requests, size), TapeObjects(requests, size);
    && t.Image? && Holds(t.file, all) && |AllRecords(requests, size)| <= |all|
    && t.head == HeadAt(all, |AllRecords(requests, size)|)
    && t.head.pos == end && |t.file| == |f|
    && (forall x :: end + META_DATA_SIZE <= x < |f| ==> t.file[x] == f[x])
  }

  lemma NothingIsWritten(f: Bytes, size: nat)
    requires IsSize(size)
    ensures IsWritten(f, WriteAll(f, [], size), [], size)
  {
  }

  lemma RewrittenObjects(requests: seq<Request>, size: nat)
    requires AllAcceptable(requests, size) && requests != []
    requires AllAcceptable(requests[..|requests| - 1], size) && requests[|requests| - 1].Acceptable(size)
    ensures var init, more := requests[..|requests| - 1], requests[|requests| - 1].Objects(size);
            var n := |AllRecords(init, size)|;
            && n <= |TapeObjects(init, size)| && |AllRecords(requests, size)| == n + |more|
            && (more != [] ==> Rewritten(TapeObjects(init, size), n, more) == TapeObjects(requests, size))
            && (more == [] ==> TapeObjects(init, size) == TapeObjects(requests, size))
            && (more == [] ==> AllRecords(requests, size) == AllRecords(init, size))
  {
    AllRecordsStep(requests, size);
    var init := requests[..|requests| - 1];
    hide AllRecords, Request.Objects, Request.Acceptable, Object.Valid, AllAcceptable;
    assert AllRecords(init, size) != [] ==>
             TapeObjects(init, size)[..|AllRecords(init, size)|] == AllRecords(init, size);
  }

  lemma WriteBehind(f: Bytes, t: Image, end: nat, more: seq<Object>)
    requires t.Image? && AllValid(more) && t.head.pos == end && |t.file| == |f| && more != []
    requires Room(|f|, end + |Encode(more)|)
    requires forall x :: end + META_DATA_SIZE <= x < |f| ==> t.file[x] == f[x]
    ensures var g := WriteMoreObjects(t, more);
            && g.Image? && g.file == WriteObjects(t.file, end, more)
            && g.head == Head(end + |Encode(more)|, t.head.loc + |more|)
            && |g.file| == |f|
            && forall x :: end + |Encode(more)| + META_DATA_SIZE <= x < |f| ==> g.file[x] == f[x]
  {
    hide Encode, Object.Valid, ToLittleEndian;
  }

  lemma RoomIsSpace(fileSize: nat, pos: int)
    requires pos >= 0 && Room(fileSize, pos)
    ensures pos + META_DATA_SIZE <= fileSize
  {
  }

  lemma RequestIs(r: Request, size: nat)
    requires IsSize(size) && r.Acceptable(size)
    ensures 0 < size < 0x1000_0000
    ensures if r.fixed then |r.data| == Offset(r.Length(), size) else |r.data| < 0x1000_0000
    ensures r.Objects(size) == Records(r.fixed, r.data, size, r.Length()) && AllValid(r.Objects(size))
  {
    hide Records, Object.Valid;
  }

  lemma HeadIs(objects: seq<Object>, i: nat)
    requires i <= |objects|
    ensures HeadAt(objects, i) == Head(Position(objects, i), Numbered(objects, i))
  {
  }

  lemma RewrittenLength(objects: seq<Object>, i: nat, more: seq<Object>)
    requires i <= |objects|
    ensures |Rewritten(objects, i, more)| == i + |more| + 1
  {
  }

  lemma WriteStepObjects(f: Bytes, t: Image, all: seq<Object>, n: nat, r: Request, size: nat)
    requires t.Image? && Holds(t.file, all) && n <= |all| && t.head == HeadAt(all, n) && IsSize(size)
             && r.Acceptable(size)
    requires r.Objects(size) != [] && Room(|f|, t.head.pos + |Encode(r.Objects(size))|) && |t.file| == |f|
    requires forall x :: t.head.pos + META_DATA_SIZE <= x < |f| ==> t.file[x] == f[x]
    ensures var more := r.Objects(size);
            var g, end := WriteMoreObjects(t, more), t.head.pos + |Encode(more)|;
            && g.Image? && Holds(g.file, Rewritten(all, n, more)) && n + |more| <= |Rewritten(all, n, more)|
            && g.head == HeadAt(Rewritten(all, n, more), n + |more|)
            && g.head.pos == end && |g.file| == |f|
            && forall x :: end + META_DATA_SIZE <= x < |f| ==> g.file[x] == f[x]
  {
    hide *;
    RequestIs(r, size);
    HeadIs(all, n);
    RewrittenLength(all, n, r.Objects(size));
    RoomIsSpace(|f|, t.head.pos + |Encode(r.Objects(size))|);
    WriteBehind(f, t, t.head.pos, r.Objects(size));
    WriteKeepsNumbers(t.file, all, n, r.fixed, r.data, size, r.Length());
  }

  lemma WriteStep(f: Bytes, t: Image, requests: seq<Request>, size: nat)
    requires AllAcceptable(requests, size) && requests != []
    requires AllAcceptable(requests[..|requests| - 1], size) && IsWritten(f, t, requests[..|requests| - 1], size)
    requires Room(|f|, EncodedSize(requests, size))
    ensures requests[|requests| - 1].Acceptable(size)
    ensures IsWritten(f, WriteMoreObjects(t, requests[|requests| - 1].Objects(size)), requests, size)
  {
    hide AllRecords, TapeObjects, Request.Objects, Request.Acceptable, Object.Valid, WriteMoreObjects, WriteObjects,
         Encode,
      Position, Numbered, HeadAt, Rewritten, Holds, Records, Offset, Even, IsSize, ToLittleEndian, AllValid, Splice;
    AllRecordsStep(requests, size);
    RewrittenObjects(requests, size);
    EncodeNothing();
    NothingMore(t);
    var init, r := requests[..|requests| - 1], requests[|requests| - 1];
    if r.Objects(size) != [] {
      WriteStepObjects(f, t, TapeObjects(init, size), |AllRecords(init, size)|, r, size);
    }
  }

  lemma NothingMore(t: Image)
    requires t.Image?
    ensures WriteMoreObjects(t, []) == t
  {
  }

  lemma Overflows(f: Bytes, t: Image, requests: seq<Request>, size: nat)
    requires AllAcceptable(requests, size) && requests != [] && |f| >= META_DATA_SIZE
    requires AllAcceptable(requests[..|requests| - 1], size) && IsWritten(f, t, requests[..|requests| - 1], size)
    requires Room(|f|, EncodedSize(requests[..|requests| - 1], size)) && !Room(|f|, EncodedSize(requests, size))
    ensures requests[|requests| - 1].Acceptable(size)
    ensures WriteMoreObjects(t, requests[|requests| - 1].Objects(size)) == Overflow
  {
    hide AllRecords, TapeObjects, Request.Objects, Request.Acceptable, Object.Valid, WriteObjects, Encode,
      Position, Numbered, HeadAt, Rewritten, Holds, Records, Offset, Even, IsSize, ToLittleEndian, AllValid, Splice;
    AllRecordsStep(requests, size);
    EncodeNothing();
  }

  lemma SizeGrows(requests: seq<Request>, size: nat)
    requires AllAcceptable(requests, size) && requests != []
    ensures AllAcceptable(requests[..|requests| - 1], size)
    ensures EncodedSize(requests[..|requests| - 1], size) <= EncodedSize(requests, size)
  {
    hide AllRecords, Request.Objects, Request.Acceptable, Encode;
    AllRecordsStep(requests, size);
  }

  lemma NoRecords(size: nat)
    requires IsSize(size)
    ensures EncodedSize([], size) == 0
  {
    EncodeNothing();
  }

  /** The WRITEs succeed exactly if there is room for a meta data word behind all records. */
  lemma {:induction false} WriteAllHolds(f: Bytes, requests: seq<Request>, size: nat)
    requires AllAcceptable(requests, size) && |f| >= META_DATA_SIZE
    ensures if Room(|f|, EncodedSize(requests, size)) then IsWritten(f, WriteAll(f, requests, size), requests, size)
            else WriteAll(f, requests, size) == Overflow
  {
    hide IsWritten, AllRecords, Request.Objects, Request.Acceptable, Encode, WriteMoreObjects, EncodedSize;
    if requests == [] {
      NoRecords(size);
      NothingIsWritten(f, size);
    } else {
      var init := requests[..|requests| - 1];
      AllRecordsStep(requests, size);
      SizeGrows(requests, size);
      WriteAllHolds(f, init, size);
      var t := WriteAll(f, init, size);
      WrittenIsImage(f, init, size, t);
      if Room(|f|, EncodedSize(requests, size)) {
        WriteStep(f, t, requests, size);
      } else if Room(|f|, EncodedSize(init, size)) {
        Overflows(f, t, requests, size);
      }
    }
  }

  lemma WrittenIsImage(f: Bytes, requests: seq<Request>, size: nat, t: Image)
    requires AllAcceptable(requests, size)
    ensures IsWritten(f, t, requests, size) ==> t.Image?
  {
  }

  datatype Received = Received(data: seq<Bytes>, head: Head) | NotReceived

  /** A READ in either mode. It needs the mode and the length of the command only. */
  function ReadOne(f: Bytes, h: Head, fixed: bool, length: nat, size: nat): Received {
    if fixed then
      match FixedRead(f, h, size, length)
      case AllRead(data, g) => Received([data], g)
      case Ended(_, _) => NotReceived
      case OtherLength => NotReceived
    else
      match RecordAhead(f, h)
      case Readable(start, v, g) => Received([RecordData(f, start, Min(v, length))], g)
      case NotFound(_) => NotReceived
      case Damaged(_) => NotReceived
  }

  /** READs that match a sequence of WRITEs, after a REWIND. */
  function ReadAll(f: Bytes, requests: seq<Request>, size: nat): Received {
    if requests == [] then Received([], Head(0, 0)) else
    match ReadAll(f, requests[..|requests| - 1], size)
    case NotReceived => NotReceived
    case Received(before, h) =>
      var r := requests[|requests| - 1];
      match ReadOne(f, h, r.fixed, r.Length(), size)
      case NotReceived => NotReceived
      case Received(one, g) => Received(before + one, g)
  }

  function Data(requests: seq<Request>): (r: seq<Bytes>)
    ensures |r| == |requests|
  {
    seq(|requests|, i requires 0 <= i < |requests| => requests[i].data)
  }

  lemma {:induction false} BlockIs(data: Bytes, size: nat, n: nat, j: nat)
    requires |data| == Offset(n, size) && j < n
    ensures Offset(j, size) + size == Offset(j + 1, size) <= |data|
    ensures Blocks(data, size, n)[j] == Record(GOOD_DATA, data[Offset(j, size)..Offset(j, size) + size])
    decreases n
  {
    OffsetAscends(j + 1, n, size);
    if j < n - 1 {
      BlockIs(data[..|data| - size], size, n - 1, j);
    }
  }

  lemma NoBlocks(f: Bytes, h: Head, size: nat, n: nat, data: Bytes)
    requires |data| == Offset(n, size)
    ensures FixedRead(f, h, size, 0) == AllRead(data[Offset(n, size)..], h)
  {
  }

  lemma NextBlockIsRead(f: Bytes, h: Head, g: Head, start: nat, size: nat, n: nat, data: Bytes, k: nat)
    requires n > 0 && k + size <= |data| && RecordAhead(f, h) == Readable(start, size, g)
    requires RecordData(f, start, size) == data[k..k + size] && FixedRead(f, g, size, n - 1).AllRead?
    requires FixedRead(f, g, size, n - 1).data == data[k + size..]
    ensures FixedRead(f, h, size, n) == AllRead(data[k..], FixedRead(f, g, size, n - 1).head)
  {
    hide RecordAhead, RecordData;
    assert data[k..k + size] + data[k + size..] == data[k..];
  }

  /** READ in fixed mode takes the blocks as they were written. */
  lemma {:induction false} BlocksAreRead(f: Bytes, all: seq<Object>, i: nat, data: Bytes, size: nat, n: nat, j: nat)
    requires Holds(f, all) && j <= n && i + n <= |all| && |data| == Offset(n, size) && IsSize(size)
    requires all[i..i + n] == Blocks(data, size, n)
    ensures Offset(j, size) <= |data|
    ensures FixedRead(f, HeadAt(all, i + j), size, n - j) == AllRead(data[Offset(j, size)..], HeadAt(all, i + n))
    decreases n - j
  {
    hide *;
    OffsetAscends(j, n, size);
    if j == n {
      NoBlocks(f, HeadAt(all, i + n), size, n, data);
    } else {
      var k := Offset(j, size);
      BlockIs(data, size, n, j);
      BlocksAreRead(f, all, i, data, size, n, j + 1);
      assert all[i + j] == all[i..i + n][j];
      SizeIs(size);
      BlockIsData(all[i + j], data[k..k + size]);
      EvenRecordIsRead(f, all, i + j);
      NextBlockIsRead(f, HeadAt(all, i + j), HeadAt(all, i + j + 1), Position(all, i + j) + META_DATA_SIZE, size, n - j,
                      data, k);
    }
  }

  lemma SizeIs(size: nat)
    requires IsSize(size)
    ensures 0 < size < 0x1000_0000 && Even(size)
  {
  }

  lemma BlockIsData(o: Object, data: Bytes)
    requires o == Record(GOOD_DATA, data) && 0 < |data| < 0x1000_0000
    ensures IsData(o)
  {
  }

  lemma RequestIsRead(f: Bytes, all: seq<Object>, i: nat, r: Request, size: nat)
    requires Holds(f, all) && IsSize(size) && r.Acceptable(size) && i + |r.Objects(size)| <= |all|
    requires all[i..i + |r.Objects(size)|] == r.Objects(size)
    ensures ReadOne(f, HeadAt(all, i), r.fixed, r.Length(), size)
         == Received([r.data], HeadAt(all, i + |r.Objects(size)|))
  {
    hide Holds, Position, Numbered, HeadAt, RecordAhead, FixedRead, RecordData, Offset, Even, Blocks, Object.Valid,
         IsData;
    if r.fixed {
      BlocksAreRead(f, all, i, r.data, size, r.n, 0);
      NoOffset(size);
    } else {
      assert all[i] == all[i..i + 1][0];
      BlockIsData(all[i], r.data);
      EvenRecordIsRead(f, all, i);
    }
  }

  lemma NoOffset(size: nat)
    ensures Offset(0, size) == 0
  {
  }

  lemma ReadAllStep(f: Bytes, requests: seq<Request>, size: nat, h: Head, g: Head)
    requires requests != []
    requires var init, r := requests[..|requests| - 1], requests[|requests| - 1];
             && ReadAll(f, init, size) == Received(Data(init), h)
             && ReadOne(f, h, r.fixed, r.Length(), size) == Received([r.data], g)
    ensures ReadAll(f, requests, size) == Received(Data(requests), g)
  {
    hide ReadOne;
    assert Data(requests) == Data(requests[..|requests| - 1]) + [requests[|requests| - 1].data];
  }

  lemma ReadNothing(f: Bytes, all: seq<Object>, size: nat)
    requires IsSize(size)
    ensures ReadAll(f, [], size) == Received(Data([]), HeadAt(all, |AllRecords([], size)|))
  {
    assert Data([]) == [];
  }

  lemma LastRecords(all: seq<Object>, before: seq<Object>, more: seq<Object>)
    requires before + more <= all
    ensures before <= all && |before| + |more| <= |all| && all[|before|..|before| + |more|] == more
  {
    assert all[..|before| + |more|] == before + more;
  }

  lemma {:induction false} RequestsAreRead(f: Bytes, all: seq<Object>, requests: seq<Request>, size: nat)
    requires Holds(f, all) && AllAcceptable(requests, size) && AllRecords(requests, size) <= all
    ensures ReadAll(f, requests, size) == Received(Data(requests), HeadAt(all, |AllRecords(requests, size)|))
  {
    hide *;
    AcceptableSize(requests, size);
    if requests == [] {
      ReadNothing(f, all, size);
    } else {
      var init, r := requests[..|requests| - 1], requests[|requests| - 1];
      AllRecordsStep(requests, size);
      LastRecords(all, AllRecords(init, size), r.Objects(size));
      RequestsAreRead(f, all, init, size);
      var n := |AllRecords(init, size)|;
      RequestIsRead(f, all, n, r, size);
      ReadAllStep(f, requests, size, HeadAt(all, n), HeadAt(all, n + |r.Objects(size)|));
    }
  }

  lemma AcceptableSize(requests: seq<Request>, size: nat)
    requires AllAcceptable(requests, size)
    ensures IsSize(size)
  {
  }

  /** A sequence of WRITEs in either mode succeeds exactly if there is room, and then the matching READs
      after a REWIND return its data, and the file is the encoding of the records and of an end-of-data
      marker. */
  lemma WrittenIsRead(f: Bytes, requests: seq<Request>, size: nat)
    requires AllAcceptable(requests, size) && |f| >= META_DATA_SIZE
    ensures var t := WriteAll(f, requests, size);
            if Room(|f|, EncodedSize(requests, size)) then
              IsWritten(f, t, requests, size) && ReadAll(t.file, requests, size) == Received(Data(requests), t.head)
            else t == Overflow
  {
    hide Holds, Position, Numbered, HeadAt, AllRecords, ReadAll, WriteAll, AllAcceptable, Encode, Data, Object.Valid;
    WriteAllHolds(f, requests, size);
    if Room(|f|, EncodedSize(requests, size)) {
      RequestsAreRead(WriteAll(f, requests, size).file, TapeObjects(requests, size), requests, size);
    }
  }
}
