/** Walking over a tape image, word by word as the drive does it, and over the list of objects the
    image encodes. The two walks agree wherever the drive keeps to object boundaries. */
module TapeWalk {
  import opened ImageFiles
  import opened Simh

  datatype Kind = Block | Filemark | EndOfData | OtherKind

  /** What a meta data word means to a search: an object, the end of the medium, or nothing. */
  datatype Sight = Visible(kind: Kind, length: nat) | MediumEnd | Skipped

  function ObjectType(nibble: nat): Kind {
    if nibble == 0 then Block else if nibble == 1 then Filemark else if nibble == 3 then EndOfData else OtherKind
  }

  function See(m: MetaData): Sight {
    if m.cls == GOOD_DATA then Visible(if m.value != 0 then Block else Filemark, m.value)
    else if m.cls == BAD_DATA then Visible(Block, m.value)
    else if m.cls == RESERVED_MARKER then (if m.value == END_OF_MEDIUM then MediumEnd else Skipped)
    else if m.cls == PRIVATE_MARKER && m.value % 0x100_0000 == PRIVATE_MARKER_MAGIC then
      Visible(ObjectType(m.value / 0x100_0000 % 0x10), 0)
    else Skipped
  }

  /** The words that a search sees. */
  lemma SightsAre(m: MetaData)
    ensures See(m).MediumEnd? <==> m == MetaData(15, 0xfff_ffff)
    ensures See(m).Visible? <==> m.cls in {0, 8} || (m.cls == 7 && m.value % 0x100_0000 == 0x53_3250)
    ensures m.cls in {0, 8} ==> See(m) == Visible(if m == MetaData(0, 0) then Filemark else Block, m.value)
    ensures m.cls == 7 && See(m).Visible? ==>
              var code := m.value / 0x100_0000 % 0x10;
              See(m)
              == Visible(if code == 0 then Block else if code == 1 then Filemark
                         else if code == 3 then EndOfData else OtherKind, 0)
  {
  }

  /** Objects that have a number: records of any class, unreadable records and filemarks. */
  predicate IsNumbered(m: MetaData) {
    IsRecord(m) || (m.cls == BAD_DATA && m.value == 0) || (m.cls == GOOD_DATA && m.value == 0)
  }

  /** The byte position and the object number of the drive. */
  datatype Head = Head(pos: int, loc: int)

  datatype Search =
    | Found(kind: Kind, length: nat, meta: MetaData, head: Head)
    | BeginningReached
    | EndReached(head: Head)
    | Unreadable(head: Head)

  /** The bytes of a record behind the meta data word that was read. */
  function Rest(m: MetaData): nat {
    if IsRecord(m) then Pad(m.value) + META_DATA_SIZE else 0
  }

  function Number(m: MetaData): int {
    if IsNumbered(m) then 1 else 0
  }

  /** ReadSimhMetaData, forward: the head ends behind the word that was found. */
  function NextForward(f: Bytes, h: Head): Search
    decreases |f| - h.pos
  {
    if h.pos < 0 then Unreadable(h) else
    var m := ReadMetaData(f, h.pos);
    var g := Head(h.pos + META_DATA_SIZE, h.loc + Number(m));
    match See(m)
    case Visible(kind, length) => Found(kind, length, m, g)
    case MediumEnd => EndReached(g)
    case Skipped => NextForward(f, g.(pos := g.pos + Rest(m)))
  }

  /** ReadSimhMetaData, reverse: the head ends in front of the object that was found. */
  function NextReverse(f: Bytes, h: Head): Search
    decreases h.pos
  {
    if h.pos < META_DATA_SIZE then BeginningReached else
    var m := ReadMetaData(f, h.pos - META_DATA_SIZE);
    var g := Head(h.pos - META_DATA_SIZE - Rest(m), h.loc - Number(m));
    match See(m)
    case Visible(kind, length) => Found(kind, length, m, g)
    case MediumEnd => EndReached(g)
    case Skipped => NextReverse(f, g)
  }

  /** The reasons for which a search is given up. Counts are what is left of the requested count. */
  datatype Stop =
    | AtBeginning(count: int)
    | AtEndOfMedium(count: int)
    | AtEndOfData(count: int)
    | AtFilemark(count: int)
    | MediumError

  datatype Walk = Done(meta: MetaData, head: Head) | Stopped(stop: Stop, head: Head)

  /** FindNextObject for a count that is not negative. */
  function FindForward(f: Bytes, h: Head, wanted: Kind, count: int, read: bool): Walk
    decreases |f| - h.pos
  {
    match NextForward(f, h)
    case BeginningReached => Stopped(AtBeginning(count), Head(0, 0))
    case EndReached(g) => Stopped(AtEndOfMedium(count), g)
    case Unreadable(g) => Stopped(MediumError, g)
    case Found(kind, length, m, g0) =>
      if read && kind == Block && length == 0 then Done(m, g0) else
      var g := g0.(pos := g0.pos + Rest(m));
      if kind == EndOfData then
        if wanted == EndOfData then Done(m, g) else Stopped(AtEndOfData(count), g.(pos := g.pos - META_DATA_SIZE))
      else if kind == Filemark && wanted == Block then Stopped(AtFilemark(count), g)
      else if wanted != EndOfData && kind == wanted && count <= 1 then Done(m, g)
      else
        NextForwardAdvances(f, h);
        FindForward(f, g, wanted, if wanted != EndOfData && kind == wanted then count - 1 else count, read)
  }

  lemma NextForwardAdvances(f: Bytes, h: Head)
    ensures NextForward(f, h).Found? ==> h.pos + META_DATA_SIZE <= NextForward(f, h).head.pos <= |f|
    decreases |f| - h.pos
  {
    if h.pos >= 0 {
      var m := ReadMetaData(f, h.pos);
      if See(m).Skipped? {
        NextForwardAdvances(f, Head(h.pos + META_DATA_SIZE + Rest(m), h.loc + Number(m)));
      }
    }
  }

  /** FindNextObject for a negative count, which is negated first. */
  function FindReverse(f: Bytes, h: Head, wanted: Kind, count: int, read: bool): Walk
    decreases h.pos
  {
    match NextReverse(f, h)
    case BeginningReached => Stopped(AtBeginning(count), Head(0, 0))
    case EndReached(g) => Stopped(AtEndOfMedium(count), g)
    case Unreadable(g) => Stopped(MediumError, g)
    case Found(kind, length, m, g) =>
      if read && kind == Block && length == 0 then Done(m, g)
      else if kind == EndOfData then
        if wanted == EndOfData then Done(m, g) else Stopped(AtEndOfData(count), g.(pos := g.pos - META_DATA_SIZE))
      else if kind == Filemark && wanted == Block then Stopped(AtFilemark(count), g)
      else if wanted != EndOfData && kind == wanted && count <= 1 then Done(m, g)
      else
        NextReverseAdvances(f, h);
        FindReverse(f, g, wanted, if wanted != EndOfData && kind == wanted then count - 1 else count, read)
  }

  lemma NextReverseAdvances(f: Bytes, h: Head)
    ensures NextReverse(f, h).Found? ==> h.pos >= META_DATA_SIZE && NextReverse(f, h).head.pos <= h.pos - META_DATA_SIZE
    ensures !NextReverse(f, h).Unreadable?
    decreases h.pos
  {
    if h.pos >= META_DATA_SIZE {
      var m := ReadMetaData(f, h.pos - META_DATA_SIZE);
      if See(m).Skipped? {
        NextReverseAdvances(f, Head(h.pos - META_DATA_SIZE - Rest(m), h.loc - Number(m)));
      }
    }
  }

  // The same walks on the list of objects.

  datatype ListWalk =
    | DoneAt(index: nat)
    | StoppedAt(stop: Stop, index: nat)
    | LeftList

  function SightOf(objects: seq<Object>, i: nat): Sight
    requires i < |objects|
  {
    See(objects[i].Meta())
  }

  function ListForward(objects: seq<Object>, i: nat, wanted: Kind, count: int): (r: ListWalk)
    requires i <= |objects|
    ensures r.LeftList? || r.index <= |objects|
    decreases |objects| - i
  {
    if i == |objects| then LeftList else
    match SightOf(objects, i)
    case MediumEnd => StoppedAt(AtEndOfMedium(count), i + 1)
    case Skipped => ListForward(objects, i + 1, wanted, count)
    case Visible(kind, _) =>
      if kind == EndOfData then
        if wanted == EndOfData then DoneAt(i + 1) else StoppedAt(AtEndOfData(count), i)
      else if kind == Filemark && wanted == Block then StoppedAt(AtFilemark(count), i + 1)
      else if wanted != EndOfData && kind == wanted then
        if count <= 1 then DoneAt(i + 1) else ListForward(objects, i + 1, wanted, count - 1)
      else ListForward(objects, i + 1, wanted, count)
  }

  function ListReverse(objects: seq<Object>, i: nat, wanted: Kind, count: int): (r: ListWalk)
    requires i <= |objects|
    ensures r.LeftList? || r.index <= |objects|
    decreases i
  {
    if i == 0 then StoppedAt(AtBeginning(count), 0) else
    match SightOf(objects, i - 1)
    case MediumEnd => StoppedAt(AtEndOfMedium(count), i - 1)
    case Skipped => ListReverse(objects, i - 1, wanted, count)
    case Visible(kind, _) =>
      if kind == EndOfData then
        if wanted == EndOfData then DoneAt(i - 1) else StoppedAt(AtEndOfData(count), i - 1)
      else if kind == Filemark && wanted == Block then StoppedAt(AtFilemark(count), i - 1)
      else if wanted != EndOfData && kind == wanted then
        if count <= 1 then DoneAt(i - 1) else ListReverse(objects, i - 1, wanted, count - 1)
      else ListReverse(objects, i - 1, wanted, count)
  }

  /** The number of numbered objects in front of index i, the object number a drive should report. */
  function Numbered(objects: seq<Object>, i: nat): nat
    requires i <= |objects|
  {
    if i == 0 then 0 else Numbered(objects, i - 1) + Number(objects[i - 1].Meta())
  }

  /** The head of a drive that is in front of object i. */
  function HeadAt(objects: seq<Object>, i: nat): Head
    requires i <= |objects|
  {
    Head(Position(objects, i), Numbered(objects, i))
  }

  lemma RestOfObject(o: Object)
    requires o.Valid()
    ensures META_DATA_SIZE + Rest(o.Meta()) == o.Length()
  {
  }

  lemma ForwardStep(f: Bytes, objects: seq<Object>, i: nat)
    requires Holds(f, objects) && i < |objects|
    ensures ReadMetaData(f, Position(objects, i)) == objects[i].Meta()
    ensures Position(objects, i) + META_DATA_SIZE + Rest(objects[i].Meta()) == Position(objects, i + 1)
    ensures Numbered(objects, i) + Number(objects[i].Meta()) == Numbered(objects, i + 1)
  {
    hide Encode, ReadMetaData, Pad, Object.Length;
    MetaDataAtBothEnds(f, objects, i);
    RestOfObject(objects[i]);
  }

  lemma ReverseStep(f: Bytes, objects: seq<Object>, i: nat)
    requires Holds(f, objects) && 0 < i <= |objects|
    ensures Position(objects, i) >= META_DATA_SIZE
    ensures ReadMetaData(f, Position(objects, i) - META_DATA_SIZE) == objects[i - 1].Meta()
    ensures Position(objects, i) - META_DATA_SIZE - Rest(objects[i - 1].Meta()) == Position(objects, i - 1)
    ensures Numbered(objects, i) - Number(objects[i - 1].Meta()) == Numbered(objects, i - 1)
  {
    hide Encode, ReadMetaData, Pad, Object.Length;
    MetaDataAtBothEnds(f, objects, i - 1);
    RestOfObject(objects[i - 1]);
  }

  /** The head and the outcome of a walk against the walk on the list. */
  ghost predicate Agrees(objects: seq<Object>, w: Walk, l: ListWalk)
    requires l.LeftList? || l.index <= |objects|
  {
    match l
    case DoneAt(j) => w.Done? && w.head == HeadAt(objects, j)
    case StoppedAt(stop, j) => w == Stopped(stop, HeadAt(objects, j))
    case LeftList => true
  }

  /** The count that is left once an object of some kind was passed. */
  function Left(kind: Kind, wanted: Kind, count: int): int {
    if wanted != EndOfData && kind == wanted then count - 1 else count
  }

  /** What a forward search makes of the word at its head: a result, or the search from behind it. */
  function OneForward(f: Bytes, m: MetaData, h: Head, next: Head, wanted: Kind, count: int): Walk {
    match See(m)
    case MediumEnd => Stopped(AtEndOfMedium(count), next)
    case Skipped => FindForward(f, next, wanted, count, false)
    case Visible(kind, _) =>
      if kind == EndOfData then if wanted == EndOfData then Done(m, next) else Stopped(AtEndOfData(count), h)
      else if kind == Filemark && wanted == Block then Stopped(AtFilemark(count), next)
      else if wanted != EndOfData && kind == wanted && count <= 1 then Done(m, next)
      else FindForward(f, next, wanted, Left(kind, wanted, count), false)
  }

  lemma FindForwardStep(f: Bytes, h: Head, m: MetaData, next: Head, wanted: Kind, count: int)
    requires h.pos >= 0 && m == ReadMetaData(f, h.pos)
    requires next == Head(h.pos + META_DATA_SIZE + Rest(m), h.loc + Number(m))
    ensures FindForward(f, h, wanted, count, false) == OneForward(f, m, h, next, wanted, count)
  {
    MarkersAreShort(m);
    hide ReadMetaData, See, Rest, Number;
    if See(m).Skipped? {
      assert NextForward(f, h) == NextForward(f, next);
    }
  }

  /** The end of the medium and end-of-data are markers without a number. */
  lemma MarkersAreShort(m: MetaData)
    ensures See(m).MediumEnd? ==> Rest(m) == 0 && Number(m) == 0
    ensures See(m).Visible? && See(m).kind == EndOfData ==> Rest(m) == 0 && Number(m) == 0
  {
  }

  lemma FindForwardAt(f: Bytes, objects: seq<Object>, i: nat, wanted: Kind, count: int)
    requires Holds(f, objects) && i < |objects|
    ensures FindForward(f, HeadAt(objects, i), wanted, count, false)
         == OneForward(f, objects[i].Meta(), HeadAt(objects, i), HeadAt(objects, i + 1), wanted, count)
  {
    hide FindForward, OneForward, Holds, Position, Numbered, Rest, Number;
    ForwardStep(f, objects, i);
    FindForwardStep(f, HeadAt(objects, i), objects[i].Meta(), HeadAt(objects, i + 1), wanted, count);
  }

  /** Spacing forward refines the walk over the list of objects. */
  lemma {:induction false} ForwardRefines(f: Bytes, objects: seq<Object>, i: nat, wanted: Kind, count: int)
    requires Holds(f, objects) && i <= |objects|
    ensures Agrees(objects, FindForward(f, HeadAt(objects, i), wanted, count, false),
                   ListForward(objects, i, wanted, count))
    decreases |objects| - i
  {
    hide FindForward, Holds, Position, Numbered, HeadAt, See, Object.Meta;
    if i < |objects| {
      FindForwardAt(f, objects, i, wanted, count);
      var seen := SightOf(objects, i);
      if seen.Skipped? {
        ForwardRefines(f, objects, i + 1, wanted, count);
      } else if seen.Visible? {
        ForwardRefines(f, objects, i + 1, wanted, Left(seen.kind, wanted, count));
      }
    }
  }

  /** Where the drive ends up when it meets an end-of-data marker in reverse. */
  function Misplaced(h: Head): Head {
    Head(h.pos - META_DATA_SIZE, h.loc)
  }

  function OneReverse(f: Bytes, m: MetaData, next: Head, wanted: Kind, count: int): Walk {
    match See(m)
    case MediumEnd => Stopped(AtEndOfMedium(count), next)
    case Skipped => FindReverse(f, next, wanted, count, false)
    case Visible(kind, _) =>
      if kind == EndOfData then
        if wanted == EndOfData then Done(m, next)
        else Stopped(AtEndOfData(count), Misplaced(next))
      else if kind == Filemark && wanted == Block then Stopped(AtFilemark(count), next)
      else if wanted != EndOfData && kind == wanted && count <= 1 then Done(m, next)
      else FindReverse(f, next, wanted, Left(kind, wanted, count), false)
  }

  lemma FindReverseStep(f: Bytes, h: Head, m: MetaData, next: Head, wanted: Kind, count: int)
    requires h.pos >= META_DATA_SIZE && m == ReadMetaData(f, h.pos - META_DATA_SIZE)
    requires next == Head(h.pos - META_DATA_SIZE - Rest(m), h.loc - Number(m))
    ensures FindReverse(f, h, wanted, count, false) == OneReverse(f, m, next, wanted, count)
  {
    hide ReadMetaData, See, Rest, Number;
    if See(m).Skipped? {
      assert NextReverse(f, h) == NextReverse(f, next);
    }
  }

  lemma FindReverseAt(f: Bytes, objects: seq<Object>, i: nat, wanted: Kind, count: int)
    requires Holds(f, objects) && 0 < i <= |objects|
    ensures FindReverse(f, HeadAt(objects, i), wanted, count, false)
         == OneReverse(f, objects[i - 1].Meta(), HeadAt(objects, i - 1), wanted, count)
  {
    hide FindReverse, OneReverse, Holds, Position, Numbered, Rest, Number;
    ReverseStep(f, objects, i);
    FindReverseStep(f, HeadAt(objects, i), objects[i - 1].Meta(), HeadAt(objects, i - 1), wanted, count);
  }

  lemma BeginningAt(f: Bytes, objects: seq<Object>, wanted: Kind, count: int)
    ensures FindReverse(f, HeadAt(objects, 0), wanted, count, false) == Stopped(AtBeginning(count), HeadAt(objects, 0))
  {
  }

  /** Spacing in reverse refines the walk over the list, but an end-of-data marker that is met on the
      way leaves the head four bytes in front of that marker. */
  lemma {:induction false} ReverseRefines(f: Bytes, objects: seq<Object>, i: nat, wanted: Kind, count: int)
    requires Holds(f, objects) && i <= |objects|
    ensures var l, w := ListReverse(objects, i, wanted, count),
            FindReverse(f, HeadAt(objects, i), wanted, count, false);
            if l.StoppedAt? && l.stop.AtEndOfData? then w == Stopped(l.stop, Misplaced(HeadAt(objects, l.index)))
            else Agrees(objects, w, l)
    decreases i
  {
    hide FindReverse, Holds, Position, Numbered, HeadAt, Misplaced, See, Object.Meta;
    if i == 0 {
      BeginningAt(f, objects, wanted, count);
    } else {
      FindReverseAt(f, objects, i, wanted, count);
      var seen := SightOf(objects, i - 1);
      if seen.Skipped? {
        ReverseRefines(f, objects, i - 1, wanted, count);
      } else if seen.Visible? {
        ReverseRefines(f, objects, i - 1, wanted, Left(seen.kind, wanted, count));
      }
    }
  }
}
