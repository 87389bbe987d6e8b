/** Where SPACE and LOCATE end, in terms of the objects on the tape. */
module TapeSpacing {
  import opened ImageFiles
  import opened Simh
  import opened TapeWalk

  predicate IsAt(objects: seq<Object>, i: nat, kind: Kind)
    requires i < |objects|
  {
    SightOf(objects, i).Visible? && SightOf(objects, i).kind == kind
  }

  /** An object that ends a search for `wanted` objects. */
  predicate Ends(objects: seq<Object>, i: nat, wanted: Kind)
    requires i < |objects|
  {
    SightOf(objects, i).MediumEnd? || IsAt(objects, i, EndOfData) || (wanted == Block && IsAt(objects, i, Filemark))
  }

  ghost predicate Clear(objects: seq<Object>, i: nat, j: nat, wanted: Kind)
    requires j <= |objects|
  {
    forall k :: i <= k < j ==> !Ends(objects, k, wanted)
  }

  function Count(objects: seq<Object>, i: nat, j: nat, kind: Kind): nat
    requires i <= j <= |objects|
    decreases j - i
  {
    if i == j then 0 else (if IsAt(objects, i, kind) then 1 else 0) + Count(objects, i + 1, j, kind)
  }

  lemma {:induction false} CountLast(objects: seq<Object>, i: nat, j: nat, kind: Kind)
    requires i < j <= |objects|
    ensures Count(objects, i, j, kind) == Count(objects, i, j - 1, kind) + if IsAt(objects, j - 1, kind) then 1 else 0
    decreases j - i
  {
    if i + 1 < j {
      CountLast(objects, i + 1, j, kind);
    }
  }

  lemma ClearAndCount(objects: seq<Object>, i: nat, j: nat, wanted: Kind)
    ensures i < j <= |objects| ==>
              && (Clear(objects, i, j, wanted) <==> !Ends(objects, i, wanted) && Clear(objects, i + 1, j, wanted))
              && Count(objects, i, j, wanted)
                 == (if IsAt(objects, i, wanted) then 1 else 0) + Count(objects, i + 1, j, wanted)
    ensures i == j <= |objects| ==> Clear(objects, i, j, wanted) && Count(objects, i, j, wanted) == 0
  {
    hide Ends, IsAt;
  }

  /** Spacing over n objects forward ends behind the n-th of them. */
  ghost predicate PassedForward(objects: seq<Object>, i: nat, wanted: Kind, n: int, j: nat)
    requires i <= |objects|
  {
    && i < j <= |objects| && IsAt(objects, j - 1, wanted)
    && Count(objects, i, j, wanted) == n && Clear(objects, i, j, wanted)
  }

  /** Object k ends the search with `left` of n objects still to go. */
  ghost predicate EndedForward(objects: seq<Object>, i: nat, wanted: Kind, n: int, k: nat, left: int)
    requires i <= |objects|
  {
    && i <= k < |objects| && Ends(objects, k, wanted) && Clear(objects, i, k, wanted)
    && left == n - Count(objects, i, k, wanted) && left > 0
  }

  /** SPACE over blocks or filemarks ends exactly where the standard wants it: behind the last of
      the n objects, or behind the filemark, or in front of the end of the data that was met before,
      with the number of objects that are missing. */
  lemma {:induction false} ForwardEnds(objects: seq<Object>, i: nat, wanted: Kind, n: int, j: nat, left: int)
    requires i <= |objects| && wanted in {Block, Filemark} && n > 0
    ensures ListForward(objects, i, wanted, n) == DoneAt(j) <==> PassedForward(objects, i, wanted, n, j)
    ensures ListForward(objects, i, wanted, n) == StoppedAt(AtFilemark(left), j) <==>
              j > 0 && EndedForward(objects, i, wanted, n, j - 1, left) && IsAt(objects, j - 1, Filemark)
    ensures ListForward(objects, i, wanted, n) == StoppedAt(AtEndOfData(left), j) <==>
              EndedForward(objects, i, wanted, n, j, left) && IsAt(objects, j, EndOfData)
    decreases |objects| - i
  {
    hide SightOf;
    ClearAndCount(objects, i, j, wanted);
    ClearAndCount(objects, i + 1, j, wanted);
    if i < j {
      ClearAndCount(objects, i, j - 1, wanted);
    }
    if i + 1 < j <= |objects| {
      CountLast(objects, i + 1, j, wanted);
    }
    if i < |objects| && !Ends(objects, i, wanted) && !(IsAt(objects, i, wanted) && n == 1) {
      var m := if IsAt(objects, i, wanted) then n - 1 else n;
      ForwardEnds(objects, i + 1, wanted, m, j, left);
    }
  }

  ghost predicate PassedReverse(objects: seq<Object>, i: nat, wanted: Kind, n: int, j: nat)
    requires i <= |objects|
  {
    && j < i && IsAt(objects, j, wanted)
    && Count(objects, j, i, wanted) == n && Clear(objects, j, i, wanted)
  }

  /** Object k ends the search in reverse with `left` of n objects still to go. */
  ghost predicate EndedReverse(objects: seq<Object>, i: nat, wanted: Kind, n: int, k: nat, left: int)
    requires i <= |objects|
  {
    && k < i && Ends(objects, k, wanted) && Clear(objects, k + 1, i, wanted)
    && left == n - Count(objects, k + 1, i, wanted) && left > 0
  }

  lemma {:induction false} ReverseIsDone(objects: seq<Object>, i: nat, wanted: Kind, n: int, j: nat)
    requires i <= |objects| && wanted in {Block, Filemark} && n > 0
    ensures ListReverse(objects, i, wanted, n) == DoneAt(j) <==> PassedReverse(objects, i, wanted, n, j)
    decreases i
  {
    hide SightOf;
    if i > 0 {
      if j < i {
        CountLast(objects, j, i, wanted);
      }
      if !Ends(objects, i - 1, wanted) && !(IsAt(objects, i - 1, wanted) && n == 1) {
        ReverseIsDone(objects, i - 1, wanted, if IsAt(objects, i - 1, wanted) then n - 1 else n, j);
      }
    }
  }

  lemma {:induction false} ReverseStops(objects: seq<Object>, i: nat, wanted: Kind, n: int, j: nat, left: int)
    requires i <= |objects| && wanted in {Block, Filemark} && n > 0
    ensures ListReverse(objects, i, wanted, n) == StoppedAt(AtFilemark(left), j) <==>
              EndedReverse(objects, i, wanted, n, j, left) && IsAt(objects, j, Filemark)
    ensures ListReverse(objects, i, wanted, n) == StoppedAt(AtBeginning(left), j) <==>
              j == 0 && Clear(objects, 0, i, wanted) && left == n - Count(objects, 0, i, wanted) && left > 0
    decreases i
  {
    hide SightOf;
    if i > 0 {
      if j < i {
        CountLast(objects, j, i, wanted);
      }
      if j + 1 < i {
        CountLast(objects, j + 1, i, wanted);
      }
      if !Ends(objects, i - 1, wanted) && !(IsAt(objects, i - 1, wanted) && n == 1) {
        ReverseStops(objects, i - 1, wanted, if IsAt(objects, i - 1, wanted) then n - 1 else n, j, left);
      }
    }
  }

  lemma {:induction false} ReverseMeetsEnd(objects: seq<Object>, i: nat, wanted: Kind, n: int, j: nat, left: int)
    requires i <= |objects| && wanted in {Block, Filemark} && n > 0
    ensures ListReverse(objects, i, wanted, n) == StoppedAt(AtEndOfData(left), j) <==>
              EndedReverse(objects, i, wanted, n, j, left) && IsAt(objects, j, EndOfData)
    decreases i
  {
    hide SightOf;
    if i > 0 {
      if j + 1 < i {
        CountLast(objects, j + 1, i, wanted);
      }
      if !Ends(objects, i - 1, wanted) && !(IsAt(objects, i - 1, wanted) && n == 1) {
        ReverseMeetsEnd(objects, i - 1, wanted, if IsAt(objects, i - 1, wanted) then n - 1 else n, j, left);
      }
    }
  }

  lemma ReverseEnds(objects: seq<Object>, i: nat, wanted: Kind, n: int, j: nat, left: int)
    requires i <= |objects| && wanted in {Block, Filemark} && n > 0
    ensures ListReverse(objects, i, wanted, n) == DoneAt(j) <==> PassedReverse(objects, i, wanted, n, j)
    ensures ListReverse(objects, i, wanted, n) == StoppedAt(AtFilemark(left), j) <==>
              EndedReverse(objects, i, wanted, n, j, left) && IsAt(objects, j, Filemark)
    ensures ListReverse(objects, i, wanted, n) == StoppedAt(AtBeginning(left), j) <==>
              j == 0 && Clear(objects, 0, i, wanted) && left == n - Count(objects, 0, i, wanted) && left > 0
    ensures ListReverse(objects, i, wanted, n) == StoppedAt(AtEndOfData(left), j) <==>
              EndedReverse(objects, i, wanted, n, j, left) && IsAt(objects, j, EndOfData)
  {
    hide *;
    ReverseIsDone(objects, i, wanted, n, j);
    ReverseStops(objects, i, wanted, n, j, left);
    ReverseMeetsEnd(objects, i, wanted, n, j, left);
  }

  /** Spacing n blocks forward and n blocks back returns to the start if there is a block at the
      start, and not otherwise: then the drive ends behind the gaps it has skipped. */
  lemma ForwardThenReverse(objects: seq<Object>, i: nat, n: int, j: nat)
    requires i <= |objects| && n > 0 && ListForward(objects, i, Block, n) == DoneAt(j)
    ensures ListReverse(objects, j, Block, n) == DoneAt(i) <==> i < |objects| && IsAt(objects, i, Block)
  {
    ForwardEnds(objects, i, Block, n, j, 0);
    ReverseEnds(objects, j, Block, n, i, 0);
  }

  lemma ReverseThenForward(objects: seq<Object>, i: nat, n: int, j: nat)
    requires i <= |objects| && n > 0 && ListReverse(objects, i, Block, n) == DoneAt(j)
    ensures ListForward(objects, j, Block, n) == DoneAt(i) <==> i > 0 && IsAt(objects, i - 1, Block)
  {
    ReverseEnds(objects, i, Block, n, j, 0);
    ForwardEnds(objects, j, Block, n, i, 0);
  }

  /** The same on the tape image: byte position and object number are those of the start again. */
  lemma SpacingReturns(f: Bytes, objects: seq<Object>, i: nat, n: int)
    requires Holds(f, objects) && i <= |objects| && n > 0
    requires ListForward(objects, i, Block, n).DoneAt?
    ensures var w := FindForward(f, HeadAt(objects, i), Block, n, false);
            w.Done? &&
            var v := FindReverse(f, w.head, Block, n, false);
            v.Done? && (v.head == HeadAt(objects, i) <==> i < |objects| && IsAt(objects, i, Block))
  {
    var j := ListForward(objects, i, Block, n).index;
    ForwardRefines(f, objects, i, Block, n);
    ForwardEnds(objects, i, Block, n, j, 0);
    BlocksInReverse(objects, i, n, j);
    ReverseRefines(f, objects, j, Block, n);
    ForwardThenReverse(objects, i, n, j);
    var k := ListReverse(objects, j, Block, n).index;
    hide ListForward, ListReverse, FindForward, FindReverse, IsAt, Holds;
    if HeadAt(objects, k) == HeadAt(objects, i) {
      PositionsDiffer(objects, k, i);
    }
  }

  /** Going back over n blocks that are all there succeeds. */
  lemma BlocksInReverse(objects: seq<Object>, i: nat, n: int, j: nat)
    requires i <= j <= |objects| && n > 0 && Clear(objects, i, j, Block) && Count(objects, i, j, Block) == n
    ensures ListReverse(objects, j, Block, n).DoneAt?
    decreases j
  {
    if i < j {
      CountLast(objects, i, j, Block);
      assert !Ends(objects, j - 1, Block);
      if !(IsAt(objects, j - 1, Block) && n == 1) {
        BlocksInReverse(objects, i, if IsAt(objects, j - 1, Block) then n - 1 else n, j - 1);
      }
    }
  }

  /** The other way round: back over n blocks and forward over n blocks. */
  lemma SpacingBackReturns(f: Bytes, objects: seq<Object>, i: nat, n: int)
    requires Holds(f, objects) && i <= |objects| && n > 0
    requires ListReverse(objects, i, Block, n).DoneAt?
    ensures var w := FindReverse(f, HeadAt(objects, i), Block, n, false);
            w.Done? &&
            var v := FindForward(f, w.head, Block, n, false);
            v.Done? && (v.head == HeadAt(objects, i) <==> i > 0 && IsAt(objects, i - 1, Block))
  {
    var j := ListReverse(objects, i, Block, n).index;
    ReverseRefines(f, objects, i, Block, n);
    ReverseEnds(objects, i, Block, n, j, 0);
    BlocksForward(objects, j, n, i);
    ForwardRefines(f, objects, j, Block, n);
    ReverseThenForward(objects, i, n, j);
    var k := ListForward(objects, j, Block, n).index;
    hide ListForward, ListReverse, FindForward, FindReverse, IsAt, Holds;
    if HeadAt(objects, k) == HeadAt(objects, i) {
      PositionsDiffer(objects, k, i);
    }
  }

  lemma BlocksForward(objects: seq<Object>, i: nat, n: int, j: nat)
    requires i <= j <= |objects| && n > 0 && Clear(objects, i, j, Block) && Count(objects, i, j, Block) == n
    ensures ListForward(objects, i, Block, n).DoneAt?
    decreases j - i
  {
    if i < j {
      assert !Ends(objects, i, Block);
      if !(IsAt(objects, i, Block) && n == 1) {
        BlocksForward(objects, i + 1, if IsAt(objects, i, Block) then n - 1 else n, j);
      }
    }
  }

  lemma {:induction false} PositionsAscend(objects: seq<Object>, i: nat, j: nat)
    requires i < j <= |objects|
    ensures Position(objects, i) < Position(objects, j)
    decreases j
  {
    if i < j - 1 {
      PositionsAscend(objects, i, j - 1);
    }
  }

  lemma PositionsDiffer(objects: seq<Object>, i: nat, j: nat)
    requires i <= |objects| && j <= |objects| && Position(objects, i) == Position(objects, j)
    ensures i == j
  {
    if i < j {
      PositionsAscend(objects, i, j);
    } else if j < i {
      PositionsAscend(objects, j, i);
    }
  }

  /** SPACE to end-of-data ends behind the first end-of-data marker, from where the command steps
      back over it. */
  lemma {:induction false} EndOfDataEnds(objects: seq<Object>, i: nat, count: int, j: nat)
    requires i <= |objects|
    ensures ListForward(objects, i, EndOfData, count) == DoneAt(j) <==>
              i < j <= |objects| && IsAt(objects, j - 1, EndOfData) && Clear(objects, i, j - 1, EndOfData)
    decreases |objects| - i
  {
    hide SightOf;
    if i < |objects| && !Ends(objects, i, EndOfData) {
      EndOfDataEnds(objects, i + 1, count, j);
      if i < j {
        ClearAndCount(objects, i, j - 1, EndOfData);
      }
    }
  }

  /** The place where the drive stops when it meets an end-of-data marker in reverse is an object
      boundary only if a four-byte marker lies in front of it. */
  lemma EndOfDataInReverse(objects: seq<Object>, e: nat)
    requires e < |objects|
    ensures (exists k: nat :: k <= |objects| && Position(objects, k) == Misplaced(HeadAt(objects, e)).pos) <==>
              e > 0 && objects[e - 1].Length() == META_DATA_SIZE
  {
    if e > 0 && objects[e - 1].Length() == META_DATA_SIZE {
      assert Position(objects, e - 1) == Misplaced(HeadAt(objects, e)).pos;
    }
    forall k: nat | k <= |objects| && Position(objects, k) == Position(objects, e) - META_DATA_SIZE
      ensures e > 0 && objects[e - 1].Length() == META_DATA_SIZE
    {
      if k >= e {
        if k > e {
          PositionsAscend(objects, e, k);
        }
        assert false;
      } else if k < e - 1 {
        PositionsAscend(objects, k, e - 1);
        LengthAtLeast(objects[e - 1]);
      }
    }
  }

  lemma LengthAtLeast(o: Object)
    ensures o.Length() >= META_DATA_SIZE
  {
  }

  // LOCATE: the drive goes back to the beginning and counts objects.

  datatype Location = LocatedAt(head: Head) | NotLocated(head: Head) | LocateStopped(stop: Stop, head: Head)

  /** The identifier is a 32-bit number that is decremented before it is compared with zero. */
  function Decrement(id: nat): nat {
    if id == 0 then 0xFFFF_FFFF else id - 1
  }

  predicate IsScsi2PiMarker(m: MetaData) {
    m.cls == PRIVATE_MARKER && m.value % 0x100_0000 == PRIVATE_MARKER_MAGIC
  }

  /** FindObject */
  function FindObject(f: Bytes, h: Head, id: nat): Location
    decreases |f| - h.pos
  {
    match NextForward(f, h)
    case BeginningReached => LocateStopped(MediumError, Head(0, 0))
    case EndReached(g) => LocateStopped(AtEndOfMedium(0), g)
    case Unreadable(g) => LocateStopped(MediumError, g)
    case Found(_, _, m, g0) =>
      if IsScsi2PiMarker(m) then NotLocated(g0)
      else
        NextForwardAdvances(f, h);
        if IsNumbered(m) then
          var g := g0.(pos := g0.pos + Rest(m));
          if Decrement(id) == 0 then LocatedAt(g) else FindObject(f, g, Decrement(id))
        else FindObject(f, g0, id)
  }

  /** LOCATE to an object number. */
  function Locate(f: Bytes, id: nat): Location {
    if id == 0 then LocatedAt(Head(0, 0)) else FindObject(f, Head(0, 0), id % 0x1_0000_0000)
  }

  lemma {:induction false} ZeroCountsAll(f: Bytes, h: Head)
    ensures FindObject(f, h, 0) == FindObject(f, h, 0x1_0000_0000)
    decreases |f| - h.pos
  {
    NextForwardAdvances(f, h);
    hide NextForward, Rest;
    var s := NextForward(f, h);
    if s.Found? && !IsScsi2PiMarker(s.meta) && !IsNumbered(s.meta) {
      ZeroCountsAll(f, s.head);
    }
  }

  /** The number has 64 bits, and the count has 32: LOCATE counts the same objects for numbers that differ by
      2^32, and never none of them but for the number 0. */
  lemma LocateWraps(f: Bytes, id: nat)
    ensures id > 0 ==> Locate(f, id) == FindObject(f, Head(0, 0), (id - 1) % 0x1_0000_0000 + 1)
    ensures id == 0 ==> Locate(f, id) == LocatedAt(Head(0, 0))
  {
    ZeroCountsAll(f, Head(0, 0));
    hide FindObject;
  }

  /** Objects that LOCATE counts, ones that end it, and ones that have a number but are not counted. */
  predicate IsPlain(o: Object) {
    See(o.Meta()).Visible? && IsNumbered(o.Meta())
  }

  predicate EndsLocate(o: Object) {
    See(o.Meta()).MediumEnd? || IsScsi2PiMarker(o.Meta())
  }

  predicate IsForeign(o: Object) {
    IsRecord(o.Meta()) && !IsPlain(o)
  }

  function PlainIn(objects: seq<Object>, i: nat, j: nat): nat
    requires i <= j <= |objects|
    decreases j - i
  {
    if i == j then 0 else (if IsPlain(objects[i]) then 1 else 0) + PlainIn(objects, i + 1, j)
  }

  lemma {:induction false} PlainLast(objects: seq<Object>, i: nat, j: nat)
    requires i < j <= |objects|
    ensures PlainIn(objects, i, j) == PlainIn(objects, i, j - 1) + if IsPlain(objects[j - 1]) then 1 else 0
    decreases j - i
  {
    if i + 1 < j {
      PlainLast(objects, i + 1, j);
    }
  }

  /** The object behind which LOCATE stops, if it does. */
  ghost predicate IsTarget(objects: seq<Object>, i: nat, id: nat, j: nat) {
    i < j <= |objects| && IsPlain(objects[j - 1]) && PlainIn(objects, i, j) == id && NoEnd(objects, i, j)
  }

  ghost predicate NoEnd(objects: seq<Object>, i: nat, j: nat)
    requires j <= |objects|
  {
    forall k :: i <= k < j ==> !EndsLocate(objects[k])
  }

  ghost predicate NoForeign(objects: seq<Object>, j: nat)
    requires j <= |objects|
  {
    forall k :: 0 <= k < j ==> !IsForeign(objects[k])
  }

  lemma NextForwardStep(f: Bytes, h: Head, m: MetaData, next: Head)
    requires h.pos >= 0 && m == ReadMetaData(f, h.pos)
    requires next == Head(h.pos + META_DATA_SIZE + Rest(m), h.loc + Number(m))
    ensures See(m).Visible? ==>
              NextForward(f, h) == Found(See(m).kind, See(m).length, m, next.(pos := next.pos - Rest(m)))
    ensures See(m).MediumEnd? ==> NextForward(f, h) == EndReached(next.(pos := next.pos - Rest(m)))
  {
    hide ReadMetaData, See, Rest, Number;
  }

  lemma NextForwardSkips(f: Bytes, h: Head, m: MetaData, next: Head)
    requires h.pos >= 0 && m == ReadMetaData(f, h.pos) && See(m).Skipped?
    requires next == Head(h.pos + META_DATA_SIZE + Rest(m), h.loc + Number(m))
    ensures NextForward(f, h) == NextForward(f, next)
  {
    hide ReadMetaData, See, Rest, Number;
    var g := Head(h.pos + META_DATA_SIZE, h.loc + Number(m));
    assert NextForward(f, h) == NextForward(f, g.(pos := g.pos + Rest(m)));
  }

  lemma FindObjectNext(f: Bytes, h: Head, id: nat)
    ensures NextForward(f, h).EndReached? ==>
              FindObject(f, h, id) == LocateStopped(AtEndOfMedium(0), NextForward(f, h).head)
    ensures var s := NextForward(f, h);
            s.Found? ==>
              && (IsScsi2PiMarker(s.meta) ==> FindObject(f, h, id) == NotLocated(s.head))
              && (!IsScsi2PiMarker(s.meta) && IsNumbered(s.meta) ==>
                    var g := s.head.(pos := s.head.pos + Rest(s.meta));
                    FindObject(f, h, id) == if Decrement(id) == 0 then LocatedAt(g)
                      else FindObject(f, g, Decrement(id)))
  {
    hide NextForward, Rest, IsScsi2PiMarker, IsNumbered, Decrement;
  }

  lemma FindObjectStep(f: Bytes, h: Head, m: MetaData, next: Head, id: nat)
    requires h.pos >= 0 && m == ReadMetaData(f, h.pos)
    requires next == Head(h.pos + META_DATA_SIZE + Rest(m), h.loc + Number(m))
    ensures FindObject(f, h, id) ==
              if See(m).MediumEnd? then LocateStopped(AtEndOfMedium(0), next)
              else if See(m).Skipped? then FindObject(f, next, id)
              else if IsScsi2PiMarker(m) then NotLocated(next)
              else if Decrement(id) == 0 then LocatedAt(next)
              else FindObject(f, next, Decrement(id))
  {
    hide *;
    MarkersAreShort(m);
    SeenIsNumbered(m);
    NextForwardStep(f, h, m, next);
    FindObjectNext(f, h, id);
    if See(m).Skipped? {
      NextForwardSkips(f, h, m, next);
      FindObjectSkips(f, h, next, id);
    }
  }

  lemma FindObjectSkips(f: Bytes, h: Head, next: Head, id: nat)
    requires NextForward(f, h) == NextForward(f, next)
    ensures FindObject(f, h, id) == FindObject(f, next, id)
  {
    hide NextForward, Rest, IsScsi2PiMarker, IsNumbered;
  }

  lemma SeenIsNumbered(m: MetaData)
    ensures See(m).Visible? && !IsScsi2PiMarker(m) ==> IsNumbered(m)
    ensures IsScsi2PiMarker(m) ==> See(m).Visible? && !IsNumbered(m) && Rest(m) == 0
  {
  }

  lemma {:induction false} FindObjectAdvances(f: Bytes, h: Head, id: nat)
    ensures FindObject(f, h, id).LocatedAt? ==> FindObject(f, h, id).head.pos >= h.pos + META_DATA_SIZE
    decreases |f| - h.pos
  {
    var next := NextForward(f, h);
    NextForwardAdvances(f, h);
    hide NextForward;
    if next.Found? && !IsScsi2PiMarker(next.meta) {
      if IsNumbered(next.meta) {
        var g := next.head.(pos := next.head.pos + Rest(next.meta));
        if Decrement(id) != 0 {
          FindObjectAdvances(f, g, Decrement(id));
        }
      } else {
        FindObjectAdvances(f, next.head, id);
      }
    }
  }

  lemma HeadStep(f: Bytes, objects: seq<Object>, i: nat)
    requires Holds(f, objects) && i < |objects|
    ensures var h, m := HeadAt(objects, i), objects[i].Meta();
            && h.pos >= 0 && m == ReadMetaData(f, h.pos)
            && HeadAt(objects, i + 1) == Head(h.pos + META_DATA_SIZE + Rest(m), h.loc + Number(m))
  {
    hide Holds, Position, Numbered, Rest, Number, ReadMetaData;
    ForwardStep(f, objects, i);
  }

  lemma AsSeen(o: Object)
    ensures EndsLocate(o) <==> See(o.Meta()).MediumEnd? || IsScsi2PiMarker(o.Meta())
    ensures IsScsi2PiMarker(o.Meta()) ==> !See(o.Meta()).Skipped?
    ensures !EndsLocate(o) ==> (IsPlain(o) <==> !See(o.Meta()).Skipped?)
  {
    SeenIsNumbered(o.Meta());
  }

  lemma OneLess(id: nat)
    requires 0 < id < 0x1_0000_0000
    ensures Decrement(id) == id - 1
  {
  }

  lemma FindObjectAt(f: Bytes, objects: seq<Object>, i: nat, id: nat)
    requires Holds(f, objects) && i < |objects| && 0 < id < 0x1_0000_0000
    ensures var o, l, h := objects[i], FindObject(f, HeadAt(objects, i), id), HeadAt(objects, i + 1);
            && (EndsLocate(o) ==> !l.LocatedAt?)
            && (IsPlain(o) && !EndsLocate(o) ==> l == if id == 1 then LocatedAt(h) else FindObject(f, h, id - 1))
            && (!IsPlain(o) && !EndsLocate(o) ==> l == FindObject(f, h, id))
  {
    hide *;
    HeadStep(f, objects, i);
    AsSeen(objects[i]);
    OneLess(id);
    FindObjectStep(f, HeadAt(objects, i), objects[i].Meta(), HeadAt(objects, i + 1), id);
  }

  /** IsTarget, one object further on. */
  lemma TargetStep(objects: seq<Object>, i: nat, id: nat, j: nat)
    requires i < j <= |objects| && id > 0
    ensures EndsLocate(objects[i]) ==> !IsTarget(objects, i, id, j)
    ensures !EndsLocate(objects[i]) && !IsPlain(objects[i]) ==>
              (IsTarget(objects, i, id, j) <==> IsTarget(objects, i + 1, id, j))
    ensures !EndsLocate(objects[i]) && IsPlain(objects[i]) && id > 1 ==>
              (IsTarget(objects, i, id, j) <==> IsTarget(objects, i + 1, id - 1, j))
    ensures !EndsLocate(objects[i]) && IsPlain(objects[i]) && id == 1 ==> (IsTarget(objects, i, id, j) <==> j == i + 1)
  {
    hide IsPlain, EndsLocate;
    PlainSplit(objects, i, j);
    if i + 1 < j {
      PlainLast(objects, i + 1, j);
    }
  }

  lemma TargetIsAhead(objects: seq<Object>, i: nat, id: nat, j: nat)
    requires IsTarget(objects, i, id, j)
    ensures i < j
  {
  }

  lemma NeverBehind(f: Bytes, objects: seq<Object>, i: nat, id: nat, j: nat)
    requires j <= i <= |objects|
    ensures FindObject(f, HeadAt(objects, i), id) != LocatedAt(HeadAt(objects, j))
  {
    FindObjectAdvances(f, HeadAt(objects, i), id);
    hide FindObject;
    PositionsMonotone(objects, j, i);
  }

  lemma HeadsDiffer(objects: seq<Object>, i: nat, j: nat)
    requires i <= |objects| && j <= |objects|
    ensures HeadAt(objects, i) == HeadAt(objects, j) <==> i == j
  {
    if HeadAt(objects, i) == HeadAt(objects, j) {
      PositionsDiffer(objects, i, j);
    }
  }

  /** LOCATE stops behind the id-th object it counts, and nowhere else. */
  lemma {:induction false} LocateRefines(f: Bytes, objects: seq<Object>, i: nat, id: nat, j: nat)
    requires Holds(f, objects) && i <= |objects| && j <= |objects| && 0 < id < 0x1_0000_0000
    ensures FindObject(f, HeadAt(objects, i), id) == LocatedAt(HeadAt(objects, j)) <==> IsTarget(objects, i, id, j)
    decreases |objects| - i
  {
    hide *;
    if j <= i {
      if IsTarget(objects, i, id, j) {
        TargetIsAhead(objects, i, id, j);
      }
      NeverBehind(f, objects, i, id, j);
    } else {
      FindObjectAt(f, objects, i, id);
      TargetStep(objects, i, id, j);
      HeadsDiffer(objects, i + 1, j);
    }
    if i < j && !EndsLocate(objects[i]) && !(IsPlain(objects[i]) && id == 1) {
      LocateRefines(f, objects, i + 1, if IsPlain(objects[i]) then id - 1 else id, j);
    }
  }

  lemma PlainSplit(objects: seq<Object>, i: nat, j: nat)
    requires i < j <= |objects|
    ensures PlainIn(objects, i, j) == (if IsPlain(objects[i]) then 1 else 0) + PlainIn(objects, i + 1, j)
    ensures NoEnd(objects, i, j) <==> !EndsLocate(objects[i]) && NoEnd(objects, i + 1, j)
    ensures i + 1 == j ==> PlainIn(objects, i + 1, j) == 0
  {
    hide IsPlain, EndsLocate;
  }

  lemma PositionsMonotone(objects: seq<Object>, i: nat, j: nat)
    requires i <= j <= |objects|
    ensures Position(objects, i) <= Position(objects, j)
  {
    if i < j {
      PositionsAscend(objects, i, j);
    }
  }

  lemma NumberedIsPlainOrForeign(o: Object)
    ensures Number(o.Meta()) == (if IsPlain(o) then 1 else 0) + (if IsForeign(o) then 1 else 0)
  {
  }

  lemma {:induction false} ForeignRecordsShift(objects: seq<Object>, i: nat)
    requires i <= |objects|
    ensures PlainIn(objects, 0, i) <= Numbered(objects, i)
    ensures PlainIn(objects, 0, i) == Numbered(objects, i) <==> NoForeign(objects, i)
  {
    if i > 0 {
      ForeignRecordsShift(objects, i - 1);
      PlainLast(objects, 0, i);
      NumberedIsPlainOrForeign(objects[i - 1]);
    }
    hide IsPlain, IsForeign, Number;
  }

  /** LOCATE to the number that READ POSITION reports returns to the same position exactly if the
      drive is at the beginning, or behind an object that LOCATE counts, with no record of a foreign
      class, no end-of-data marker and no end of the medium before it. */
  lemma LocateReturns(f: Bytes, objects: seq<Object>, i: nat)
    requires Holds(f, objects) && i <= |objects| && Numbered(objects, i) < 0x1_0000_0000
    ensures Locate(f, Numbered(objects, i)) == LocatedAt(HeadAt(objects, i)) <==>
              i == 0 || (IsPlain(objects[i - 1]) && NoEnd(objects, 0, i) && NoForeign(objects, i))
  {
    BeginningHead(objects);
    HeadsDiffer(objects, 0, i);
    ForeignRecordsShift(objects, i);
    LastIsNumbered(objects, i);
    LocateSmall(f, Numbered(objects, i));
    hide Locate, FindObject, Holds, IsPlain, NoEnd, NoForeign, HeadAt, Numbered, Position, PlainIn;
    var id := Numbered(objects, i);
    if id > 0 {
      LocateRefines(f, objects, 0, id, i);
    }
  }

  lemma LocateSmall(f: Bytes, id: nat)
    requires id < 0x1_0000_0000
    ensures Locate(f, id) == if id == 0 then LocatedAt(Head(0, 0)) else FindObject(f, Head(0, 0), id)
  {
    hide FindObject;
  }

  lemma BeginningHead(objects: seq<Object>)
    ensures HeadAt(objects, 0) == Head(0, 0)
  {
  }

  lemma LastIsNumbered(objects: seq<Object>, i: nat)
    requires i <= |objects|
    ensures i == 0 ==> Numbered(objects, i) == 0
    ensures i > 0 && IsPlain(objects[i - 1]) ==> Numbered(objects, i) > 0
  {
    if i > 0 {
      NumberedIsPlainOrForeign(objects[i - 1]);
    }
  }
}
