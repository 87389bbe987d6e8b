/** Drives that are on an object boundary of a gap-free tape, with the number of the objects in front of
    them: the commands that complete keep them there. */
module TapeBoundaries {
  import opened ImageFiles
  import opened Simh
  import opened TapeWalk
  import opened TapeSpacing
  import opened TapeRecords
  import opened TapeReading
  import opened TapeRuns

  /** Good and bad records, records that could not be read, and filemarks. */
  predicate IsBody(o: Object) {
    && o.Valid()
    && match o
       case Record(cls, data) => cls in {GOOD_DATA, BAD_DATA} && |data| < 0x100_0000
       case Marker(m) => m.cls in {GOOD_DATA, BAD_DATA} && m.value == 0
  }

  /** A tape without gaps and with one end-of-data marker, behind everything else. */
  ghost predicate Proper(objects: seq<Object>) {
    && objects != [] && objects[|objects| - 1] == EndMarker()
    && forall k :: 0 <= k < |objects| - 1 ==> IsBody(objects[k])
  }

  /** The drive is in front of object i, and its object number is the number of the objects before it. */
  ghost predicate AtObject(f: Bytes, h: Head, objects: seq<Object>, i: nat) {
    Holds(f, objects) && Proper(objects) && i < |objects| && h == HeadAt(objects, i)
  }

  /** These are all records of the classes 0 and 8 and two markers. */
  lemma BodiesAre(o: Object)
    ensures IsBody(o) <==>
              if o.Record? then o.cls in {0, 8} && 0 < |o.data| < 0x100_0000
              else o in {Marker(MetaData(0, 0)), Marker(MetaData(8, 0))}
  {
  }

  lemma BodyFacts(o: Object)
    requires IsBody(o)
    ensures See(o.Meta()).Visible? && See(o.Meta()).kind in {Block, Filemark} && Number(o.Meta()) == 1
    ensures IsPlain(o) && !EndsLocate(o) && !IsForeign(o)
  {
  }

  lemma EndFacts()
    ensures See(EndMarker().Meta()) == Visible(EndOfData, 0) && Number(EndMarker().Meta()) == 0
    ensures EndMarker().Length() == META_DATA_SIZE && EndsLocate(EndMarker())
  {
    hide See, Number, IsScsi2PiMarker, ToLittleEndian, Object.Encoding, Object.Valid, Encodable;
    EndSight(END_OF_DATA_MARKER);
    assert EndMarker().Meta() == END_OF_DATA_MARKER;
  }

  lemma EndSight(m: MetaData)
    requires m == END_OF_DATA_MARKER
    ensures See(m) == Visible(EndOfData, 0) && Number(m) == 0 && IsScsi2PiMarker(m)
  {
  }

  lemma SightIs(objects: seq<Object>, k: nat)
    requires Proper(objects) && k < |objects|
    ensures SightOf(objects, k).Visible?
    ensures if k == |objects| - 1 then SightOf(objects, k).kind == EndOfData
            else SightOf(objects, k).kind in {Block, Filemark}
  {
    if k == |objects| - 1 {
      EndFacts();
    } else {
      BodyFacts(objects[k]);
    }
    hide See, IsBody, Object.Meta;
  }

  /** The kinds of the objects of such a tape, and the last one as its bytes. */
  lemma KindsOf(objects: seq<Object>, i: nat)
    requires Proper(objects) && i < |objects|
    ensures IsAt(objects, i, Block) <==> objects[i].Record? || objects[i] == Marker(MetaData(8, 0))
    ensures IsAt(objects, i, Filemark) <==> objects[i] == Marker(MetaData(0, 0))
    ensures IsAt(objects, i, EndOfData) <==> i == |objects| - 1
    ensures objects[i].Record? ==> objects[i].cls in {0, 8}
    ensures EndMarker().Encoding() == [0x50, 0x32, 0x53, 0x73]
  {
    hide *;
    MarkerBytes();
    EndFacts();
    SeenAt(objects, i);
    if i < |objects| - 1 {
      KindOfBody(objects[i]);
    }
  }

  lemma SeenAt(objects: seq<Object>, i: nat)
    requires Proper(objects) && i < |objects|
    ensures if i == |objects| - 1 then objects[i] == EndMarker() else IsBody(objects[i])
    ensures forall k :: IsAt(objects, i, k) <==> See(objects[i].Meta()).Visible? && See(objects[i].Meta()).kind == k
  {
    hide See, IsBody, Object.Meta;
  }

  lemma MarkerBytes()
    ensures EndMarker().Encoding() == [0x50, 0x32, 0x53, 0x73]
    ensures EndMarker().Marker? && EndMarker().meta.cls == 7
  {
    hide *;
    EndMarkerIs();
    WordOf(END_OF_DATA_MARKER);
  }

  lemma EndMarkerIs()
    ensures EndMarker() == Marker(END_OF_DATA_MARKER) && EndMarker().Valid() && Encodable(END_OF_DATA_MARKER)
    ensures EndMarker().Encoding() == ToLittleEndian(END_OF_DATA_MARKER) && END_OF_DATA_MARKER.cls == 7
  {
    hide ToLittleEndian;
  }

  lemma WordOf(m: MetaData)
    requires m == END_OF_DATA_MARKER
    ensures Encodable(m) && ToLittleEndian(m) == [0x50, 0x32, 0x53, 0x73]
  {
  }

  lemma KindOfBody(o: Object)
    requires IsBody(o)
    ensures var s := See(o.Meta());
            && s.Visible? && (s.kind == Block <==> o.Record? || o == Marker(MetaData(8, 0)))
            && (s.kind == Filemark <==> o == Marker(MetaData(0, 0))) && s.kind != EndOfData
    ensures o.Record? ==> o.cls in {0, 8}
  {
  }

  // SPACE

  /** Spacing over blocks or filemarks stays in front of or on the end-of-data marker. */
  lemma {:induction false} ForwardStays(objects: seq<Object>, i: nat, wanted: Kind, count: int)
    requires Proper(objects) && i < |objects| && wanted in {Block, Filemark}
    ensures var l := ListForward(objects, i, wanted, count); !l.LeftList? && l.index < |objects|
    decreases |objects| - i
  {
    hide Proper, SightOf;
    SightIs(objects, i);
    if SightOf(objects, i).kind != EndOfData {
      ForwardStays(objects, i + 1, wanted, Left(SightOf(objects, i).kind, wanted, count));
    }
  }

  /** A search for the end of the data ends behind the marker. */
  lemma {:induction false} EndIsFound(objects: seq<Object>, i: nat, count: int)
    requires Proper(objects) && i < |objects|
    ensures ListForward(objects, i, EndOfData, count) == DoneAt(|objects|)
    decreases |objects| - i
  {
    hide Proper, SightOf;
    SightIs(objects, i);
    if SightOf(objects, i).kind != EndOfData {
      EndIsFound(objects, i + 1, count);
    }
  }

  /** In reverse the marker is never met. */
  lemma {:induction false} ReverseStays(objects: seq<Object>, i: nat, wanted: Kind, count: int)
    requires Proper(objects) && i < |objects|
    ensures var l := ListReverse(objects, i, wanted, count);
            !l.LeftList? && l.index < |objects| && (l.StoppedAt? ==> !l.stop.AtEndOfData?)
    decreases i
  {
    hide Proper, SightOf;
    if i > 0 {
      SightIs(objects, i - 1);
      ReverseStays(objects, i - 1, wanted, Left(SightOf(objects, i - 1).kind, wanted, count));
    }
  }

  lemma SpaceKeeps(f: Bytes, h: Head, objects: seq<Object>, i: nat, wanted: Kind, count: int) returns (j: nat)
    requires AtObject(f, h, objects, i) && wanted in {Block, Filemark}
    ensures AtObject(f, (if count < 0 then FindReverse(f, h, wanted, -count, false)
                         else FindForward(f, h, wanted, count, false)).head, objects, j)
  {
    if count < 0 {
      ReverseStays(objects, i, wanted, -count);
      ReverseRefines(f, objects, i, wanted, -count);
      j := ListReverse(objects, i, wanted, -count).index;
    } else {
      ForwardStays(objects, i, wanted, count);
      ForwardRefines(f, objects, i, wanted, count);
      j := ListForward(objects, i, wanted, count).index;
    }
    hide Holds, Proper, HeadAt, FindForward, FindReverse, ListForward, ListReverse;
  }

  /** SPACE to the end of the data steps back over the marker. */
  lemma EndKeeps(f: Bytes, h: Head, objects: seq<Object>, i: nat)
    requires AtObject(f, h, objects, i)
    ensures objects != []
    ensures var w := FindForward(f, h, EndOfData, 0, false);
            w.Done? && AtObject(f, w.head.(pos := w.head.pos - META_DATA_SIZE), objects, |objects| - 1)
  {
    EndIsFound(objects, i, 0);
    ForwardRefines(f, objects, i, EndOfData, 0);
    EndFacts();
    hide Holds, FindForward, ListForward, IsBody, Object.Meta, Object.Length;
  }

  // LOCATE

  lemma NothingEnds(objects: seq<Object>, i: nat)
    requires Proper(objects) && i < |objects|
    ensures NoEnd(objects, 0, i) && NoForeign(objects, i) && (i > 0 ==> IsPlain(objects[i - 1]))
  {
    forall k | 0 <= k < i
      ensures !EndsLocate(objects[k]) && !IsForeign(objects[k]) && IsPlain(objects[k])
    {
      BodyFacts(objects[k]);
    }
    hide IsPlain, EndsLocate, IsForeign, IsBody;
  }

  lemma {:induction false} NumberedIsIndex(objects: seq<Object>, i: nat)
    requires Proper(objects) && i < |objects|
    ensures Numbered(objects, i) == i == PlainIn(objects, 0, i)
  {
    if i > 0 {
      NumberedIsIndex(objects, i - 1);
      BodyFacts(objects[i - 1]);
      PlainLast(objects, 0, i);
    }
    hide IsPlain, Number, IsBody, Object.Meta;
  }

  /** LOCATE to any number of objects in front of the end of the data ends there. */
  lemma LocateKeeps(f: Bytes, objects: seq<Object>, id: nat)
    requires Holds(f, objects) && Proper(objects) && id < |objects| && id < 0x1_0000_0000
    ensures Locate(f, id) == LocatedAt(HeadAt(objects, id))
  {
    NothingEnds(objects, id);
    NumberedIsIndex(objects, id);
    LocateReturns(f, objects, id);
    hide *;
  }

  /** LOCATE to any other number fails. */
  lemma {:induction false} BeyondIsNotLocated(f: Bytes, objects: seq<Object>, i: nat, id: nat)
    requires Holds(f, objects) && Proper(objects) && i < |objects|
    requires |objects| - i <= id < 0x1_0000_0000
    ensures !FindObject(f, HeadAt(objects, i), id).LocatedAt?
    decreases |objects| - i
  {
    FindObjectAt(f, objects, i, id);
    if i == |objects| - 1 {
      EndFacts();
    } else {
      BodyFacts(objects[i]);
      BeyondIsNotLocated(f, objects, i + 1, id - 1);
    }
    hide Holds, FindObject, HeadAt, IsPlain, EndsLocate, IsBody, Object.Meta;
  }

  /** It ends behind the end-of-data object. */
  lemma {:induction false} SearchEndsBehind(f: Bytes, objects: seq<Object>, i: nat, id: nat)
    requires Holds(f, objects) && Proper(objects) && i < |objects|
    requires |objects| - i <= id < 0x1_0000_0000
    ensures FindObject(f, HeadAt(objects, i), id) == NotLocated(HeadAt(objects, |objects|))
    decreases |objects| - i
  {
    if i == |objects| - 1 {
      EndFacts();
      EndSight(END_OF_DATA_MARKER);
      HeadStep(f, objects, i);
      FindObjectStep(f, HeadAt(objects, i), objects[i].Meta(), HeadAt(objects, i + 1), id);
    } else {
      FindObjectAt(f, objects, i, id);
      BodyFacts(objects[i]);
      SearchEndsBehind(f, objects, i + 1, id - 1);
    }
    hide Holds, FindObject, HeadAt, IsPlain, EndsLocate, IsBody, Object.Meta;
  }

  lemma MissingEndsBehind(f: Bytes, objects: seq<Object>, id: nat)
    requires Holds(f, objects) && Proper(objects) && |objects| <= id < 0x1_0000_0000
    ensures Locate(f, id) == NotLocated(HeadAt(objects, |objects|))
  {
    LocateSmall(f, id);
    BeginningHead(objects);
    SearchEndsBehind(f, objects, 0, id);
    hide Holds, Locate, FindObject, HeadAt;
  }

  /** From behind the end-of-data object a search backwards ends at once. */
  lemma BackFromBehind(f: Bytes, objects: seq<Object>, wanted: Kind, count: int)
    requires Holds(f, objects) && Proper(objects) && wanted in {Block, Filemark}
    ensures |objects| > 0
    ensures FindReverse(f, HeadAt(objects, |objects|), wanted, count, false)
         == Stopped(AtEndOfData(count), Misplaced(HeadAt(objects, |objects| - 1)))
  {
    SightIs(objects, |objects| - 1);
    ReverseRefines(f, objects, |objects|, wanted, count);
    hide Holds, Proper, FindReverse, HeadAt, Misplaced, SightOf;
  }

  lemma LocatedKeeps(f: Bytes, objects: seq<Object>, id: nat)
    requires Holds(f, objects) && Proper(objects) && id < 0x1_0000_0000
    ensures if id < |objects| then AtObject(f, Locate(f, id).head, objects, id) && Locate(f, id).LocatedAt?
            else !Locate(f, id).LocatedAt?
  {
    if id < |objects| {
      LocateKeeps(f, objects, id);
    } else {
      LocateSmall(f, id);
      BeginningHead(objects);
      BeyondIsNotLocated(f, objects, 0, id);
    }
    hide Holds, Proper, Locate, FindObject, HeadAt;
  }

  /** LOCATE to the number that READ POSITION reports returns to the same position. */
  lemma PositionIsLocated(f: Bytes, h: Head, objects: seq<Object>, i: nat)
    requires AtObject(f, h, objects, i) && h.loc < 0x1_0000_0000
    ensures h.loc == i && Locate(f, h.loc) == LocatedAt(h)
  {
    NumberedIsIndex(objects, i);
    LocateKeeps(f, objects, i);
    hide Holds, Proper, Position, Numbered, Locate;
  }

  lemma RewindKeeps(f: Bytes, h: Head, objects: seq<Object>, i: nat)
    requires AtObject(f, h, objects, i)
    ensures AtObject(f, Head(0, 0), objects, 0)
  {
    hide Holds, IsBody;
  }

  // READ

  lemma FilemarkFacts(o: Object)
    requires IsBody(o) && o.Marker?
    ensures o.Meta().value == 0
    ensures See(o.Meta()) == Visible(if o.Meta().cls == GOOD_DATA then Filemark else Block, 0)
  {
  }

  lemma NothingAt(f: Bytes, start: int, loc: int)
    ensures RecordAt(f, start, 0, loc) == Damaged(0)
  {
  }

  /** A READ that meets something else than a record. */
  lemma MarkerAhead(f: Bytes, objects: seq<Object>, i: nat)
    requires Holds(f, objects) && Proper(objects) && i < |objects| && objects[i].Marker?
    ensures RecordAhead(f, HeadAt(objects, i)) ==
              if i == |objects| - 1 then NotFound(Stopped(AtEndOfData(0), HeadAt(objects, i)))
              else if objects[i].meta.cls == GOOD_DATA then NotFound(Stopped(AtFilemark(0), HeadAt(objects, i + 1)))
              else Damaged(0)
  {
    AheadOf(f, objects, i);
    if i == |objects| - 1 {
      EndFacts();
    } else {
      FilemarkFacts(objects[i]);
      NothingAt(f, HeadAt(objects, i).pos + META_DATA_SIZE - META_DATA_SIZE, Numbered(objects, i + 1));
    }
    hide Holds, RecordAhead, RecordAt, See, IsBody, Position, Numbered;
  }

  lemma RecordIsData(o: Object)
    requires IsBody(o) && o.Record?
    ensures IsData(o) && |o.data| < 0x100_0000
  {
  }

  lemma RecordAheadKeeps(f: Bytes, objects: seq<Object>, i: nat)
    requires Holds(f, objects) && Proper(objects) && i < |objects|
    ensures var r := RecordAhead(f, HeadAt(objects, i));
            && (r.Readable? ==> i + 1 < |objects| && r.after == HeadAt(objects, i + 1))
            && (r.NotFound? ==>
                  r.walk.head == HeadAt(objects, i) || (i + 1 < |objects| && r.walk.head == HeadAt(objects, i + 1)))
  {
    if objects[i].Marker? {
      MarkerAhead(f, objects, i);
    } else {
      RecordIsData(objects[i]);
      if Even(|objects[i].data|) {
        EvenRecordIsRead(f, objects, i);
      } else {
        OddRecordIsNotRead(f, objects, i);
      }
    }
    hide Holds, RecordAhead, RecordData, HeadAt, IsData, IsBody, Even, Position;
  }

  /** A READ of a single record that completes, or that finds no record, keeps the drive on a boundary. */
  lemma ReadKeeps(f: Bytes, h: Head, objects: seq<Object>, i: nat) returns (j: nat)
    requires AtObject(f, h, objects, i)
    ensures var r := RecordAhead(f, h);
            && (r.Readable? ==> AtObject(f, r.after, objects, j))
            && (r.NotFound? ==> AtObject(f, r.walk.head, objects, j))
  {
    RecordAheadKeeps(f, objects, i);
    hide Holds, Proper, RecordAhead, HeadAt;
    var r := RecordAhead(f, h);
    j := if r.Readable? || (r.NotFound? && r.walk.head != HeadAt(objects, i)) then i + 1 else i;
  }

  /** The same for a READ of blocks. */
  lemma {:induction false} ReadBlocksKeeps(f: Bytes, h: Head, objects: seq<Object>, i: nat, size: nat, n: nat)
    returns (j: nat)
    requires AtObject(f, h, objects, i)
    ensures var r := FixedRead(f, h, size, n);
            && (r.AllRead? ==> AtObject(f, r.head, objects, j))
            && (r.Ended? && r.why.NotFound? ==> AtObject(f, r.why.walk.head, objects, j))
    decreases n
  {
    j := i;
    if n > 0 {
      j := ReadKeeps(f, h, objects, i);
      var r := RecordAhead(f, h);
      if r.Readable? && r.length == size {
        j := ReadBlocksKeeps(f, r.after, objects, j, size, n - 1);
      }
    }
    hide AtObject, RecordAhead;
  }

  // WRITE

  lemma RecordIsBody(data: Bytes)
    requires 0 < |data| < 0x100_0000
    ensures IsBody(Record(GOOD_DATA, data))
  {
  }

  lemma RecordsAreBody(fixed: bool, data: Bytes, size: nat, n: nat, k: nat)
    requires 0 < size < 0x100_0000
    requires if fixed then |data| == Offset(n, size) else |data| < 0x100_0000
    requires k < |Records(fixed, data, size, n)|
    ensures IsBody(Records(fixed, data, size, n)[k])
  {
    hide IsBody, Offset;
    if fixed {
      BlockIs(data, size, n, k);
      RecordIsBody(data[Offset(k, size)..Offset(k, size) + size]);
    } else {
      RecordIsBody(data);
    }
  }

  lemma RewrittenIsProper(objects: seq<Object>, i: nat, more: seq<Object>)
    requires Proper(objects) && i < |objects| && forall k :: 0 <= k < |more| ==> IsBody(more[k])
    ensures Proper(Rewritten(objects, i, more)) && i + |more| < |Rewritten(objects, i, more)|
  {
    hide IsBody;
  }

  /** A WRITE that succeeds keeps the drive on a boundary, of the tape that it has changed. */
  lemma WriteKeeps(f: Bytes, h: Head, objects: seq<Object>, i: nat, fixed: bool, data: Bytes, size: nat, n: nat)
    requires AtObject(f, h, objects, i) && 0 < size < 0x100_0000
    requires if fixed then |data| == Offset(n, size) else |data| < 0x100_0000
    requires h.pos >= 0 && h.pos + |Encode(Records(fixed, data, size, n))| + META_DATA_SIZE <= |f|
    ensures i < |objects|
    ensures var more := Records(fixed, data, size, n);
            AtObject(WriteObjects(f, h.pos, more), Head(h.pos + |Encode(more)|, h.loc + |more|),
                     Rewritten(objects, i, more), i + |more|)
  {
    hide Holds, Position, Numbered, Records, Encode, IsBody, Proper, WriteObjects, Offset, Rewritten, Object.Valid;
    var more := Records(fixed, data, size, n);
    WriteKeepsNumbers(f, objects, i, fixed, data, size, n);
    forall k | 0 <= k < |more|
      ensures IsBody(more[k])
    {
      RecordsAreBody(fixed, data, size, n, k);
    }
    RewrittenIsProper(objects, i, more);
  }

  lemma EvenLength(o: Object)
    ensures Even(o.Length())
  {
  }

  lemma EvenSum(a: nat, b: nat)
    requires Even(a) && Even(b)
    ensures Even(a + b)
  {
  }

  /** Objects begin at even positions. */
  lemma {:induction false} EvenPosition(objects: seq<Object>, i: nat)
    requires i <= |objects|
    ensures Even(Position(objects, i))
  {
    if i > 0 {
      EvenPosition(objects, i - 1);
      EvenLength(objects[i - 1]);
      EvenSum(Position(objects, i - 1), objects[i - 1].Length());
    }
    hide Object.Length;
  }

  // On any image, even one that holds no list of objects

  /** A word and the record behind it, or in front of it, take an even number of bytes. */
  lemma EvenStep(p: int, m: MetaData)
    requires Even(p)
    ensures Even(p + META_DATA_SIZE) && Even(p + META_DATA_SIZE + Rest(m))
    ensures Even(p + Rest(m)) && Even(p + Rest(m) - META_DATA_SIZE)
    ensures Even(p - META_DATA_SIZE) && Even(p - META_DATA_SIZE - Rest(m))
  {
    assert Even(Rest(m));
    hide Rest;
  }

  lemma NegativeIsUnreadable(f: Bytes, h: Head)
    ensures h.pos < 0 ==> NextForward(f, h) == Unreadable(h)
    ensures h.pos < META_DATA_SIZE ==> NextReverse(f, h) == BeginningReached
  {
  }

  lemma {:induction false} EvenForward(f: Bytes, h: Head)
    requires Even(h.pos)
    ensures var s := NextForward(f, h);
            s.BeginningReached? || Even(s.head.pos)
    decreases |f| - h.pos
  {
    hide *;
    if h.pos < 0 {
      NegativeIsUnreadable(f, h);
    } else {
      var m := ReadMetaData(f, h.pos);
      var next := Head(h.pos + META_DATA_SIZE + Rest(m), h.loc + Number(m));
      EvenStep(h.pos, m);
      NextForwardStep(f, h, m, next);
      if See(m).Skipped? {
        NextForwardSkips(f, h, m, next);
        SkippedIsInside(f, h.pos);
        EvenForward(f, next);
      }
    }
  }

  lemma SkippedIsInside(f: Bytes, pos: nat)
    ensures See(ReadMetaData(f, pos)).Skipped? ==> pos + META_DATA_SIZE <= |f| && META_DATA_SIZE > 0
  {
  }

  lemma NextReverseStep(f: Bytes, h: Head, m: MetaData, g: Head)
    requires h.pos >= META_DATA_SIZE && m == ReadMetaData(f, h.pos - META_DATA_SIZE)
    requires g == Head(h.pos - META_DATA_SIZE - Rest(m), h.loc - Number(m))
    ensures See(m).Visible? ==> NextReverse(f, h) == Found(See(m).kind, See(m).length, m, g)
    ensures See(m).MediumEnd? ==> NextReverse(f, h) == EndReached(g)
    ensures g.pos < h.pos
  {
    hide ReadMetaData, See, Rest, Number;
  }

  lemma NextReverseSkips(f: Bytes, h: Head, m: MetaData, g: Head)
    requires h.pos >= META_DATA_SIZE && m == ReadMetaData(f, h.pos - META_DATA_SIZE) && See(m).Skipped?
    requires g == Head(h.pos - META_DATA_SIZE - Rest(m), h.loc - Number(m))
    ensures NextReverse(f, h) == NextReverse(f, g)
  {
    hide ReadMetaData, See, Rest, Number;
  }

  lemma {:induction false} EvenReverse(f: Bytes, h: Head)
    requires Even(h.pos)
    ensures var s := NextReverse(f, h);
            s.BeginningReached? || Even(s.head.pos)
    decreases h.pos
  {
    NegativeIsUnreadable(f, h);
    if h.pos >= META_DATA_SIZE {
      hide *;
      var m := ReadMetaData(f, h.pos - META_DATA_SIZE);
      var g := Head(h.pos - META_DATA_SIZE - Rest(m), h.loc - Number(m));
      EvenStep(h.pos, m);
      NextReverseStep(f, h, m, g);
      if See(m).Skipped? {
        NextReverseSkips(f, h, m, g);
        EvenReverse(f, g);
      }
    }
  }

  /** A step of a search ends it near the word that was found, or continues behind the object. */
  lemma FindForwardNext(f: Bytes, h: Head, wanted: Kind, count: int, read: bool) returns (more: bool, left: int)
    ensures var s, w := NextForward(f, h), FindForward(f, h, wanted, count, read);
            && (s.BeginningReached? ==> w.head == Head(0, 0))
            && (s.EndReached? || s.Unreadable? ==> w.head == s.head)
            && (s.Found? ==>
                  var g := s.head.(pos := s.head.pos + Rest(s.meta));
                  && (more ==> w == FindForward(f, g, wanted, left, read) && h.pos < g.pos && h.pos < |f|)
                  && (!more ==> w.head in {s.head, g, g.(pos := g.pos - META_DATA_SIZE)}))
  {
    NextForwardAdvances(f, h);
    hide NextForward, Rest;
    more, left := false, count;
    match NextForward(f, h) {
      case Found(kind, length, m, _) =>
        more := !(read && kind == Block && length == 0) && kind != EndOfData && !(kind == Filemark && wanted == Block)
                && !(wanted != EndOfData && kind == wanted && count <= 1);
        left := if wanted != EndOfData && kind == wanted then count - 1 else count;
      case _ =>
    }
  }

  lemma FindReverseNext(f: Bytes, h: Head, wanted: Kind, count: int, read: bool) returns (more: bool, left: int)
    ensures var s, w := NextReverse(f, h), FindReverse(f, h, wanted, count, read);
            && (s.BeginningReached? ==> w.head == Head(0, 0))
            && (s.EndReached? || s.Unreadable? ==> w.head == s.head)
            && (s.Found? ==>
                  && (more ==> w == FindReverse(f, s.head, wanted, left, read) && s.head.pos < h.pos && 0 < h.pos)
                  && (!more ==> w.head in {s.head, s.head.(pos := s.head.pos - META_DATA_SIZE)}))
  {
    NextReverseAdvances(f, h);
    hide NextReverse;
    more, left := false, count;
    match NextReverse(f, h) {
      case Found(kind, length, m, _) =>
        more := !(read && kind == Block && length == 0) && kind != EndOfData && !(kind == Filemark && wanted == Block)
                && !(wanted != EndOfData && kind == wanted && count <= 1);
        left := if wanted != EndOfData && kind == wanted then count - 1 else count;
      case _ =>
    }
  }

  lemma ZeroIsEven()
    ensures Even(0)
  {
  }

  /** A search from an even position ends at an even position, whatever the image holds: the drive never leaves
      the raster of its words and padded records. */
  lemma {:induction false} SearchForwardIsEven(f: Bytes, h: Head, wanted: Kind, count: int, read: bool)
    requires Even(h.pos)
    ensures Even(FindForward(f, h, wanted, count, read).head.pos)
    decreases |f| - h.pos
  {
    hide *;
    ZeroIsEven();
    EvenForward(f, h);
    var more, left := FindForwardNext(f, h, wanted, count, read);
    var s := NextForward(f, h);
    if s.Found? {
      EvenStep(s.head.pos, s.meta);
      if more {
        SearchForwardIsEven(f, s.head.(pos := s.head.pos + Rest(s.meta)), wanted, left, read);
      }
    }
  }

  lemma {:induction false} SearchReverseIsEven(f: Bytes, h: Head, wanted: Kind, count: int, read: bool)
    requires Even(h.pos)
    ensures Even(FindReverse(f, h, wanted, count, read).head.pos)
    decreases h.pos
  {
    hide *;
    ZeroIsEven();
    EvenReverse(f, h);
    var more, left := FindReverseNext(f, h, wanted, count, read);
    var s := NextReverse(f, h);
    if s.Found? {
      EvenStep(s.head.pos, s.meta);
      if more {
        SearchReverseIsEven(f, s.head, wanted, left, read);
      }
    }
  }

  /** The search of LOCATE, too, ends at an even position on any image. */
  lemma {:induction false} FindObjectIsEven(f: Bytes, h: Head, id: nat)
    requires Even(h.pos)
    ensures Even(FindObject(f, h, id).head.pos)
    decreases |f| - h.pos
  {
    hide *;
    ZeroIsEven();
    EvenForward(f, h);
    var more, left := FindObjectContinues(f, h, id);
    var s := NextForward(f, h);
    if s.Found? {
      EvenStep(s.head.pos, s.meta);
      if more {
        FindObjectIsEven(f, s.head.(pos := s.head.pos + if IsNumbered(s.meta) then Rest(s.meta) else 0), left);
      }
    }
  }

  lemma FindObjectContinues(f: Bytes, h: Head, id: nat) returns (more: bool, left: nat)
    ensures var s, l := NextForward(f, h), FindObject(f, h, id);
            && (s.BeginningReached? ==> l.head == Head(0, 0))
            && (s.EndReached? || s.Unreadable? ==> l.head == s.head)
            && (s.Found? ==>
                  var g := s.head.(pos := s.head.pos + if IsNumbered(s.meta) then Rest(s.meta) else 0);
                  && (more ==> l == FindObject(f, g, left) && h.pos < g.pos && h.pos < |f|)
                  && (!more ==> l.head in {s.head, g}))
  {
    NextForwardAdvances(f, h);
    hide NextForward, Rest, IsNumbered, IsScsi2PiMarker, Decrement;
    more, left := false, id;
    match NextForward(f, h) {
      case Found(_, _, m, _) =>
        more := !IsScsi2PiMarker(m) && !(IsNumbered(m) && Decrement(id) == 0);
        left := if IsNumbered(m) then Decrement(id) else id;
      case _ =>
    }
  }

  lemma LocateIsEven(f: Bytes, id: nat)
    ensures Even(Locate(f, id).head.pos)
  {
    if id != 0 {
      FindObjectIsEven(f, Head(0, 0), id % 0x1_0000_0000);
    }
    hide FindObject;
  }
}
