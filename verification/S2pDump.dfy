/** Dumping a tape of a foreign drive into an image, and restoring it. */
module S2pDumps {
  import opened ImageFiles
  import opened Simh

  // Sense keys
  const MEDIUM_ERROR: nat := 0x03
  const BLANK_CHECK: nat := 0x08

  // Results of ReadWrite that are no length
  const NO_MORE_DATA := -1
  const BAD_BLOCK := -2
  const UNKNOWN_SENSE := 0xff

  const LONGEST_BLOCK: nat := 0xffffff

  datatype Item = Block(data: Bytes) | Unreadable | Mark

  /** Blocks have lengths that fit into the 24 bits of a command. */
  predicate IsItem(i: Item) {
    i.Block? ==> 0 < |i.data| <= 0xff_ffff
  }

  ghost predicate AllItems(items: seq<Item>) {
    forall i :: 0 <= i < |items| ==> IsItem(items[i])
  }

  datatype Sense = Sense(key: nat, filemark: bool, eom: bool, ili: bool, valid: bool, information: int)

  const NO_SENSE := Sense(0, false, false, false, false, 0)

  /** A drive in variable-length mode. Unless it is reliable, a READ of any block may fail. */
  class Drive {
    const items: seq<Item>
    const reliable: bool
    var position: nat
    var readCount: nat
    /** The READs of readable blocks that have failed. */
    ghost var failures: nat

    ghost predicate Valid()
      reads this
    {
      AllItems(items) && position <= |items|
    }

    constructor (content: seq<Item>, isReliable: bool)
      requires AllItems(content)
      ensures Valid() && items == content && reliable == isReliable && position == 0 && readCount == 0
      ensures failures == 0
    {
      items, reliable, position, readCount, failures := content, isReliable, 0, 0, 0;
    }

    method Read(length: nat) returns (good: bool, sense: Sense, data: Bytes)
      requires Valid()
      modifies this
      ensures Valid() && readCount == old(readCount) + 1
      ensures failures == old(failures) +
                if old(position) < |items| && items[old(position)].Block? && !good && sense.key == MEDIUM_ERROR then 1
                else 0
      ensures old(position) == |items| ==> 
                !good && sense == Sense(0x08, false, false, false, false, 0) && position == old(position)
      ensures old(position) < |items| ==>
                var i := items[old(position)];
                && position == old(position) + 1
                && (i.Mark? ==> !good && sense == Sense(0x00, true, false, false, false, 0))
                && (i.Unreadable? ==> !good && sense == Sense(0x03, false, false, false, false, 0))
                && (i.Block? ==>
                      || (!reliable && !good && sense == Sense(0x03, false, false, false, false, 0))
                      || (good && |i.data| == length && data == i.data)
                      || (!good && |i.data| != length
                          && data == i.data[..if |i.data| < length then |i.data| else length]
                          && sense == Sense(0x00, false, false, true, true, length - |i.data|)))
    {
      readCount := readCount + 1;
      good, sense, data := false, NO_SENSE, [];
      if position == |items| {
        sense := sense.(key := BLANK_CHECK);
        return;
      }
      var i := items[position];
      position := position + 1;
      match i {
        case Mark =>
          sense := sense.(filemark := true);
        case Unreadable =>
          sense := sense.(key := MEDIUM_ERROR);
        case Block(d) =>
          var fails := *;
          if fails && !reliable {
            failures := failures + 1;
            sense := sense.(key := MEDIUM_ERROR);
          } else if |d| == length {
            good, data := true, d;
          } else {
            data := d[..if |d| < length then |d| else length];
            sense := sense.(ili := true, valid := true, information := length - |d|);
          }
      }
    }

    method SpaceBack()
      requires Valid() && position > 0
      modifies this`position
      ensures Valid() && position == old(position) - 1
    {
      position := position - 1;
    }
  }

  class Executor {
    const drive: Drive
    var defaultLength: nat

    constructor (d: Drive)
      ensures drive == d && Valid()
    {
      drive, defaultLength := d, LONGEST_BLOCK;
    }

    predicate Valid()
      reads this
    {
      0 < defaultLength <= LONGEST_BLOCK
    }

    /** ReadWrite for a dump: the next item, with a length that follows what the drive reports. */
    method ReadNext() returns (r: int, buf: Bytes)
      requires Valid() && drive.Valid()
      modifies this, drive
      ensures Valid() && drive.Valid()
      ensures old(drive.position) == |drive.items| ==>
                r == NO_MORE_DATA && drive.position == old(drive.position)
                  && drive.readCount == old(drive.readCount) + 1
      ensures old(drive.position) < |drive.items| ==>
                var i, n := drive.items[old(drive.position)], drive.readCount - old(drive.readCount);
                && drive.position == old(drive.position) + 1
                && (i.Mark? ==> r == 0 && n == 1)
                && (i.Unreadable? ==> r == BAD_BLOCK && n == 2)
                && (i.Block? ==>
                      && ((r == |i.data| && buf == i.data) || (!drive.reliable && r == BAD_BLOCK))
                      && n <= (if drive.reliable then 2 else 3))
      ensures drive.failures >= old(drive.failures)
      ensures old(drive.position) < |drive.items| && drive.items[old(drive.position)].Block? && r == BAD_BLOCK ==>
                drive.failures == old(drive.failures) + 2
    {
      var hasError := false;
      ghost var p, before, tuned := drive.position, drive.readCount, false;
      r, buf := 0, [];
      while true
        invariant Valid() && drive.Valid() && drive.position == p
        invariant drive.readCount == before + (if hasError then 1 else 0) + (if tuned then 1 else 0)
        invariant hasError || tuned ==> p < |drive.items|
        invariant drive.failures == old(drive.failures) + if hasError && drive.items[p].Block? then 1 else 0
        invariant hasError ==> drive.items[p].Unreadable? || (drive.items[p].Block? && !drive.reliable)
        invariant tuned ==> drive.items[p].Block? && |drive.items[p].data| == defaultLength
        decreases (if hasError then 0 else 1) + (if tuned then 0 else 1)
      {
        var good, sense;
        good, sense, buf := drive.Read(defaultLength);
        if good {
          return defaultLength, buf;
        }
        if sense.key == BLANK_CHECK || sense.eom {
          return NO_MORE_DATA, buf;
        }
        if sense.key == MEDIUM_ERROR {
          if hasError {
            return BAD_BLOCK, buf;
          }
          hasError := true;
          drive.SpaceBack();
          continue;
        }
        if sense.filemark {
          return 0, buf;
        }
        if sense.valid && sense.ili {
          var length := defaultLength;
          defaultLength := defaultLength - sense.information;
          if defaultLength < length {
            return defaultLength, buf;
          }
          drive.SpaceBack();
          tuned := true;
        } else {
          return UNKNOWN_SENSE, buf;
        }
      }
    }
  }

  /** A length in front of and behind the data, without the padding that SIMH asks for. */
  function PieceBytes(i: Item): Bytes
    requires IsItem(i)
  {
    match i
    case Block(data) =>
      ToLittleEndian(MetaData(GOOD_DATA, |data|)) + data + ToLittleEndian(MetaData(GOOD_DATA, |data|))
    case Unreadable => [0, 0, 0, 0x80]
    case Mark => [0, 0, 0, 0]
  }

  function DumpOf(items: seq<Item>): Bytes
    requires forall i :: 0 <= i < |items| ==> IsItem(items[i])
  {
    if items == [] then [] else PieceBytes(items[0]) + DumpOf(items[1..])
  }

  lemma {:induction false} DumpNext(items: seq<Item>, i: Item)
    requires AllItems(items) && IsItem(i)
    ensures AllItems(items + [i]) && DumpOf(items + [i]) == DumpOf(items) + PieceBytes(i)
  {
    hide PieceBytes, IsItem;
    if items == [] {
      assert [] + [i] == [i] && [i][1..] == [];
    } else {
      DumpNext(items[1..], i);
      assert (items + [i])[1..] == items[1..] + [i];
    }
  }

  /** What the dump shows of an item: a block may turn out to be unreadable. */
  predicate Shows(i: Item, piece: Item, reliable: bool) {
    piece == i || (i.Block? && !reliable && piece == Unreadable)
  }

  lemma ShownIs(i: Item, piece: Item, reliable: bool)
    requires Shows(i, piece, reliable)
    ensures !i.Block? ==> piece == i
  {
  }

  /** A piece of the dump, for the result of ReadNext. */
  method WritePiece(file: Bytes, length: int, buf: Bytes, ghost i: Item, ghost reliable: bool)
    returns (r: Bytes, ghost piece: Item)
    requires IsItem(i) && length != NO_MORE_DATA
    requires i.Mark? ==> length == 0
    requires i.Unreadable? ==> length == BAD_BLOCK
    requires i.Block? ==> (length == |i.data| && buf == i.data) || (!reliable && length == BAD_BLOCK)
    ensures IsItem(piece) && Shows(i, piece, reliable) && r == file + PieceBytes(piece)
    ensures i.Block? && length != BAD_BLOCK ==> piece == i
  {
    hide ToLittleEndian;
    if length == BAD_BLOCK {
      piece := Unreadable;
      r := file + [0, 0, 0, 0x80];
    } else if length != 0 {
      piece := Block(buf[..length]);
      var word := ToLittleEndian(MetaData(GOOD_DATA, length));
      r := file + word + buf[..length] + word;
    } else {
      piece := Mark;
      r := file + [0, 0, 0, 0];
    }
  }

  /** DumpTape: every item once and in order, up to the end of the data. */
  method DumpTape(executor: Executor) returns (file: Bytes, ghost pieces: seq<Item>)
    requires executor.Valid() && executor.drive.Valid()
    modifies executor, executor.drive
    ensures executor.Valid() && executor.drive.Valid() && executor.drive.position == |executor.drive.items|
    ensures AllItems(pieces) && file == DumpOf(pieces)
    ensures |pieces| == |executor.drive.items| - old(executor.drive.position)
    ensures forall k :: 0 <= k < |pieces| ==>
              Shows(executor.drive.items[old(executor.drive.position) + k], pieces[k], executor.drive.reliable)
    ensures executor.drive.failures < old(executor.drive.failures) + 2 ==>
              pieces == executor.drive.items[old(executor.drive.position)..]
    ensures var n := executor.drive.readCount - old(executor.drive.readCount);
            n <= if executor.drive.reliable then 2 * |pieces| + 1 else 3 * |pieces| + 1
  {
    hide PieceBytes, ToLittleEndian, Shows, IsItem;
    var drive := executor.drive;
    ghost var p, before := drive.position, drive.readCount;
    file, pieces := [], [];
    while true
      invariant executor.Valid() && drive.Valid() && drive.position == p + |pieces|
      invariant AllItems(pieces) && file == DumpOf(pieces)
      invariant forall k :: 0 <= k < |pieces| ==> Shows(drive.items[p + k], pieces[k], drive.reliable)
      invariant drive.failures >= old(drive.failures)
      invariant drive.failures < old(drive.failures) + 2 ==> pieces == drive.items[p..p + |pieces|]
      invariant drive.readCount - before <= if drive.reliable then 2 * |pieces| else 3 * |pieces|
      decreases |drive.items| - drive.position
    {
      var length, buf := executor.ReadNext();
      if length == NO_MORE_DATA {
        break;
      }
      ghost var i, piece := drive.items[p + |pieces|], Mark;
      file, piece := WritePiece(file, length, buf, i, drive.reliable);
      DumpNext(pieces, piece);
      ShownIs(i, piece, drive.reliable);
      pieces := pieces + [piece];
    }
  }

  // Restore

  predicate IsStop(m: MetaData) {
    m.cls == RESERVED_MARKER && m.value == END_OF_MEDIUM
  }

  predicate IsTapeMark(m: MetaData) {
    m.cls == GOOD_DATA && m.value == 0
  }

  predicate HasData(m: MetaData) {
    m.cls in {GOOD_DATA, BAD_DATA} && m.value > 0
  }

  /** Every record that RestoreTape comes across has all its data. */
  predicate IsComplete(f: Bytes, pos: nat)
    decreases |f| - pos
  {
    var m := ReadMetaData(f, pos);
    if IsStop(m) || pos >= |f| then true
    else if HasData(m) then pos + META_DATA_SIZE + m.value <= |f| && IsComplete(f, pos + 2 * META_DATA_SIZE + m.value)
    else IsComplete(f, pos + META_DATA_SIZE)
  }

  /** What RestoreTape writes, from a position of the image on. */
  function Restored(f: Bytes, pos: nat): seq<Item>
    decreases |f| - pos
  {
    var m := ReadMetaData(f, pos);
    if IsStop(m) || pos >= |f| then []
    else if IsTapeMark(m) then [Mark] + Restored(f, pos + META_DATA_SIZE)
    else if HasData(m) && pos + META_DATA_SIZE + m.value <= |f| then
      [Block(f[pos + META_DATA_SIZE..pos + META_DATA_SIZE + m.value])] + Restored(f, pos + 2 * META_DATA_SIZE + m.value)
    else Restored(f, pos + META_DATA_SIZE)
  }

  lemma PastEnd(f: Bytes, pos: nat)
    ensures pos + META_DATA_SIZE > |f| ==> IsStop(ReadMetaData(f, pos))
    ensures IsTapeMark(ReadMetaData(f, pos)) ==> !HasData(ReadMetaData(f, pos))
  {
  }

  /** RestoreTape. A record that is cut off at the end of the image is written with whatever the buffer
      still holds, and is the last one. */
  method RestoreTape(f: Bytes) returns (written: seq<Item>)
    ensures IsComplete(f, 0) ==> written == Restored(f, 0)
  {
    hide ReadMetaData, IsStop, HasData, IsTapeMark;
    var pos := 0;
    written := [];
    while true
      invariant IsComplete(f, 0) ==> IsComplete(f, pos) && written + Restored(f, pos) == Restored(f, 0)
      decreases |f| - pos
    {
      PastEnd(f, pos);
      var m := ReadMetaData(f, pos);
      if IsStop(m) {
        break;
      }
      pos := pos + META_DATA_SIZE;
      if IsTapeMark(m) {
        written := written + [Mark];
      } else if HasData(m) {
        if pos + m.value > |f| {
          var stale: Bytes := *;
          written := written + [Block(f[pos..] + stale)];
          break;
        }
        written := written + [Block(f[pos..pos + m.value])];
        pos := pos + m.value + META_DATA_SIZE;
      }
    }
  }

  // The dump and the restored tape

  /** The items that a dump can hold the data of. */
  function Readable(items: seq<Item>): seq<Item> {
    if items == [] then []
    else (if items[0].Unreadable? then [] else [items[0]]) + Readable(items[1..])
  }

  /** The image as the bytes in front of a position and the dump of some items. */
  lemma FirstPiece(f: Bytes, before: Bytes, items: seq<Item>)
    requires AllItems(items) && items != [] && f == before + DumpOf(items)
    ensures AllItems(items[1..]) && f == before + PieceBytes(items[0]) + DumpOf(items[1..])
    ensures |before| + |PieceBytes(items[0])| <= |f|
  {
    hide PieceBytes;
  }

  lemma WordAt(f: Bytes, before: Bytes, m: MetaData, rest: Bytes)
    requires Encodable(m) && f == before + ToLittleEndian(m) + rest
    ensures |before| + META_DATA_SIZE <= |f| && ReadMetaData(f, |before|) == m
  {
    MetaDataRoundTrip(m);
    hide ToLittleEndian, FromLittleEndian;
    assert f[|before|..|before| + META_DATA_SIZE] == ToLittleEndian(m);
  }

  lemma BlockAt(f: Bytes, before: Bytes, data: Bytes, rest: Bytes)
    requires 0 < |data| <= LONGEST_BLOCK && f == before + PieceBytes(Block(data)) + rest
    ensures var p := |before| + META_DATA_SIZE;
            && ReadMetaData(f, |before|) == MetaData(GOOD_DATA, |data|)
            && |PieceBytes(Block(data))| == |data| + 2 * META_DATA_SIZE
            && p + |data| <= |f| && f[p..p + |data|] == data
  {
    hide ToLittleEndian, ReadMetaData;
    var word := ToLittleEndian(MetaData(GOOD_DATA, |data|));
    assert f == before + word + (data + word + rest);
    WordAt(f, before, MetaData(GOOD_DATA, |data|), data + word + rest);
  }

  /** The image from an item on: what is restored for it, and where the rest begins. */
  lemma RestoredStep(f: Bytes, before: Bytes, i: Item, rest: Bytes)
    requires IsItem(i) && f == before + PieceBytes(i) + rest
    ensures var p := |before| + |PieceBytes(i)|;
            && Restored(f, |before|) == (if i.Unreadable? then [] else [i]) + Restored(f, p)
            && IsComplete(f, |before|) == IsComplete(f, p)
  {
    hide ToLittleEndian, ReadMetaData, PieceBytes;
    match i {
      case Block(data) =>
        BlockAt(f, before, data, rest);
      case Mark =>
        MarkerPiece(i);
        WordAt(f, before, MetaData(GOOD_DATA, 0), rest);
      case Unreadable =>
        MarkerPiece(i);
        WordAt(f, before, MetaData(BAD_DATA, 0), rest);
    }
  }

  lemma MarkerPiece(i: Item)
    requires !i.Block?
    ensures PieceBytes(i) == ToLittleEndian(MetaData(if i.Mark? then GOOD_DATA else BAD_DATA, 0))
  {
    hide ToLittleEndian;
    MarkerWords();
  }

  /** Restoring a dump writes the same tape again, but for the blocks that could not be read. */
  lemma {:induction false} RestoredFrom(f: Bytes, before: Bytes, items: seq<Item>)
    requires AllItems(items) && f == before + DumpOf(items)
    ensures IsComplete(f, |before|) && Restored(f, |before|) == Readable(items)
    decreases |items|
  {
    hide Restored, IsComplete, PieceBytes, IsItem;
    if items == [] {
      NothingRestored(f);
    } else {
      FirstPiece(f, before, items);
      RestoredStep(f, before, items[0], DumpOf(items[1..]));
      RestoredFrom(f, before + PieceBytes(items[0]), items[1..]);
    }
  }

  lemma NothingRestored(f: Bytes)
    ensures IsComplete(f, |f|) && Restored(f, |f|) == []
  {
    PastEnd(f, |f|);
  }

  lemma RestoreReturnsDump(items: seq<Item>)
    requires AllItems(items)
    ensures IsComplete(DumpOf(items), 0) && Restored(DumpOf(items), 0) == Readable(items)
  {
    assert [] + DumpOf(items) == DumpOf(items);
    RestoredFrom(DumpOf(items), [], items);
  }

  // The dump as a SIMH image

  function ObjectOf(i: Item): (o: Object)
    requires IsItem(i)
    ensures o.Valid()
  {
    match i
    case Block(data) => Record(GOOD_DATA, data)
    case Unreadable => Marker(MetaData(BAD_DATA, 0))
    case Mark => Marker(MetaData(GOOD_DATA, 0))
  }

  function Objects(items: seq<Item>): (r: seq<Object>)
    requires forall i :: 0 <= i < |items| ==> IsItem(items[i])
    ensures |r| == |items| && forall i :: 0 <= i < |r| ==> r[i].Valid()
  {
    if items == [] then [] else Objects(items[..|items| - 1]) + [ObjectOf(items[|items| - 1])]
  }

  predicate IsOdd(i: Item) {
    i.Block? && |i.data| % 2 == 1
  }

  function OddBlocks(items: seq<Item>): nat {
    if items == [] then 0 else OddBlocks(items[..|items| - 1]) + if IsOdd(items[|items| - 1]) then 1 else 0
  }

  lemma PieceIsObject(i: Item)
    requires IsItem(i)
    ensures |ObjectOf(i).Encoding()| == |PieceBytes(i)| + if IsOdd(i) then 1 else 0
    ensures !IsOdd(i) ==> ObjectOf(i).Encoding() == PieceBytes(i)
  {
    if i.Block? {
      BlockIsObject(i.data);
    } else {
      MarkerIsObject(i);
    }
    hide *;
  }

  lemma MarkerIsObject(i: Item)
    requires !i.Block?
    ensures IsItem(i) && !IsOdd(i) && ObjectOf(i).Encoding() == PieceBytes(i)
  {
    hide ToLittleEndian, Object.Encoding, Object.Valid;
    MarkerWords();
    if i.Mark? {
      assert ObjectOf(i) == Marker(MetaData(GOOD_DATA, 0));
    } else {
      assert ObjectOf(i) == Marker(MetaData(BAD_DATA, 0));
    }
    MarkerEncoding(ObjectOf(i).Meta());
  }

  lemma MarkerEncoding(m: MetaData)
    requires Marker(m).Valid()
    ensures Encodable(m) && Marker(m).Encoding() == ToLittleEndian(m)
  {
    hide ToLittleEndian;
  }

  lemma MarkerWords()
    ensures ToLittleEndian(MetaData(BAD_DATA, 0)) == [0, 0, 0, 0x80]
    ensures ToLittleEndian(MetaData(GOOD_DATA, 0)) == [0, 0, 0, 0]
  {
  }

  lemma BlockIsObject(data: Bytes)
    requires IsItem(Block(data))
    ensures var i := Block(data);
            && |ObjectOf(i).Encoding()| == |PieceBytes(i)| + (if IsOdd(i) then 1 else 0)
            && (!IsOdd(i) ==> ObjectOf(i).Encoding() == PieceBytes(i))
  {
    var word := ToLittleEndian(MetaData(GOOD_DATA, |data|));
    assert ObjectOf(Block(data)).Encoding() == word + data + Padding(|data|) + word;
    assert PieceBytes(Block(data)) == word + data + word;
    hide ToLittleEndian, PieceBytes, ObjectOf, Object.Encoding, Object.Valid;
    if !IsOdd(Block(data)) {
      assert Padding(|data|) == [];
      assert word + data + [] + word == word + data + word;
    }
  }

  lemma NothingDumped()
    ensures Encode(Objects([])) == DumpOf([]) == [] && OddBlocks([]) == 0
  {
  }

  /** What a dump lacks of the SIMH image of the tape are the padding bytes. */
  lemma {:induction false} DumpLacksPadding(items: seq<Item>)
    requires AllItems(items)
    ensures |Encode(Objects(items))| == |DumpOf(items)| + OddBlocks(items)
    ensures OddBlocks(items) == 0 ==> Encode(Objects(items)) == DumpOf(items)
  {
    hide Encode, DumpOf, PieceBytes, ObjectOf, IsItem, IsOdd, Object.Valid, Object.Encoding;
    if items == [] {
      NothingDumped();
    } else {
      var n := |items| - 1;
      DumpLacksPadding(items[..n]);
      PieceIsObject(items[n]);
      DumpNext(items[..n], items[n]);
      assert items == items[..n] + [items[n]];
      EncodeAppend(Objects(items[..n]), ObjectOf(items[n]));
    }
  }

  lemma {:induction false} CountOdd(items: seq<Item>)
    ensures OddBlocks(items) == 0 <==> forall i :: 0 <= i < |items| ==> !IsOdd(items[i])
  {
    if items != [] {
      CountOdd(items[..|items| - 1]);
      assert forall i :: 0 <= i < |items| - 1 ==> items[i] == items[..|items| - 1][i];
    }
  }

  /** A dump is a SIMH image of the tape if and only if no block has an odd length. */
  lemma DumpIsImage(items: seq<Item>)
    requires AllItems(items)
    ensures DumpOf(items) == Encode(Objects(items)) <==> forall i :: 0 <= i < |items| ==> !IsOdd(items[i])
  {
    hide DumpOf, Encode, Objects, IsOdd, OddBlocks;
    DumpLacksPadding(items);
    CountOdd(items);
  }

  // Restoring other SIMH images

  /** Records of good and of bad data whose length is even, and any marker but the end of the medium. */
  predicate IsRestorable(o: Object) {
    o.Valid() && if o.Record? then o.cls in {0, 8} && |o.data| % 2 == 0 else o.meta != MetaData(15, 0xfffffff)
  }

  function ItemsOf(objects: seq<Object>): seq<Item> {
    if objects == [] then []
    else
      var o := objects[0];
      (if o.Record? then [Block(o.data)] else if o.meta == MetaData(0, 0) then [Mark] else []) + ItemsOf(objects[1..])
  }

  lemma RecordIs(o: Object)
    requires o.Record? && IsRestorable(o)
    ensures o.Valid() && o.Meta() == MetaData(o.cls, |o.data|) && Encodable(o.Meta()) && o.cls in {0, 8} && |o.data| > 0
    ensures o.Length() == |o.data| + 8
    ensures o.Encoding() == ToLittleEndian(o.Meta()) + o.data + ToLittleEndian(o.Meta())
  {
    hide ToLittleEndian;
    assert Padding(|o.data|) == [];
    var word := ToLittleEndian(o.Meta());
    assert word + o.data + [] + word == word + o.data + word;
  }

  lemma RecordStep(f: Bytes, p: nat, cls: nat, data: Bytes)
    requires cls in {0, 8} && data != [] && ReadMetaData(f, p) == MetaData(cls, |data|)
    requires p + |data| + 8 <= |f| && f[p + 4..p + 4 + |data|] == data
    ensures Restored(f, p) == [Block(data)] + Restored(f, p + |data| + 8)
    ensures IsComplete(f, p) == IsComplete(f, p + |data| + 8)
  {
    hide ReadMetaData;
  }

  lemma DataInside(f: Bytes, p: nat, word: Bytes, data: Bytes)
    requires |word| == 4 && p + |data| + 8 <= |f| && f[p..p + |data| + 8] == word + data + word
    ensures f[p + 4..p + 4 + |data|] == data
  {
    var e := word + data + word;
    assert e[4..4 + |data|] == data;
    forall k | 0 <= k < |data|
      ensures f[p + 4 + k] == data[k]
    {
      assert f[p..p + |data| + 8][4 + k] == e[4 + k];
    }
  }

  lemma RestoredRecord(f: Bytes, objects: seq<Object>, i: nat)
    requires Holds(f, objects) && i < |objects| && objects[i].Record? && IsRestorable(objects[i])
    ensures var p, q, data := Position(objects, i), Position(objects, i + 1), objects[i].data;
            && Restored(f, p) == [Block(data)] + Restored(f, q) && IsComplete(f, p) == IsComplete(f, q)
  {
    hide *;
    var p, o := Position(objects, i), objects[i];
    MetaDataAtBothEnds(f, objects, i);
    ObjectBytes(f, objects, i);
    RecordIs(o);
    DataInside(f, p, ToLittleEndian(o.Meta()), o.data);
    RecordStep(f, p, o.cls, o.data);
  }

  lemma MarkerIs(o: Object)
    requires o.Marker? && IsRestorable(o)
    ensures o.Valid() && o.Meta() == o.meta && !IsRecord(o.meta) && o.meta != MetaData(15, 0xfffffff)
    ensures o.Length() == META_DATA_SIZE
  {
  }

  lemma RestoredMarker(f: Bytes, objects: seq<Object>, i: nat)
    requires Holds(f, objects) && i < |objects| && objects[i].Marker? && IsRestorable(objects[i])
    ensures var p, q := Position(objects, i), Position(objects, i + 1);
            && Restored(f, p) == (if objects[i].meta == MetaData(0, 0) then [Mark] else []) + Restored(f, q)
            && IsComplete(f, p) == IsComplete(f, q)
  {
    hide *;
    MetaDataAtBothEnds(f, objects, i);
    ObjectBytes(f, objects, i);
    MarkerIs(objects[i]);
    MarkerStep(f, Position(objects, i), objects[i].meta);
  }

  lemma MarkerStep(f: Bytes, p: nat, m: MetaData)
    requires p + META_DATA_SIZE <= |f| && ReadMetaData(f, p) == m && !IsRecord(m) && m != MetaData(15, 0xfffffff)
    ensures Restored(f, p) == (if m == MetaData(0, 0) then [Mark] else []) + Restored(f, p + META_DATA_SIZE)
    ensures IsComplete(f, p) == IsComplete(f, p + META_DATA_SIZE)
  {
    hide ReadMetaData;
  }

  /** Any SIMH image of such objects, and not only a dump, is restored with all its blocks and filemarks. */
  lemma RestoresImage(objects: seq<Object>)
    requires forall i :: 0 <= i < |objects| ==> IsRestorable(objects[i])
    ensures AllValid(objects) && IsComplete(Encode(objects), 0)
    ensures Restored(Encode(objects), 0) == ItemsOf(objects)
  {
    RestoresFrom(Encode(objects), objects, 0);
    assert objects[0..] == objects;
    hide Restored, IsComplete, ItemsOf;
  }

  lemma {:induction false} RestoresFrom(f: Bytes, objects: seq<Object>, i: nat)
    requires AllValid(objects) && f == Encode(objects) && i <= |objects|
    requires forall k :: 0 <= k < |objects| ==> IsRestorable(objects[k])
    ensures Restored(f, Position(objects, i)) == ItemsOf(objects[i..]) && IsComplete(f, Position(objects, i))
    decreases |objects| - i
  {
    hide *;
    NextItem(objects, i);
    if i == |objects| {
      PrefixLength(objects, i);
      assert objects[..i] == objects;
      NothingRestored(f);
    } else {
      RestoresFrom(f, objects, i + 1);
      HeldWhole(f, objects);
      if objects[i].Record? {
        RestoredRecord(f, objects, i);
      } else {
        RestoredMarker(f, objects, i);
      }
    }
  }

  lemma HeldWhole(f: Bytes, objects: seq<Object>)
    requires AllValid(objects) && f == Encode(objects)
    ensures Holds(f, objects)
  {
    hide Encode;
  }

  lemma NextItem(objects: seq<Object>, i: nat)
    requires i <= |objects|
    ensures i == |objects| ==> ItemsOf(objects[i..]) == []
    ensures i < |objects| && objects[i].Record? ==>
              ItemsOf(objects[i..]) == [Block(objects[i].data)] + ItemsOf(objects[i + 1..])
    ensures i < |objects| && objects[i].Marker? ==>
              ItemsOf(objects[i..])
              == (if objects[i].meta == MetaData(0, 0) then [Mark] else []) + ItemsOf(objects[i + 1..])
  {
    if i < |objects| {
      assert objects[i..][1..] == objects[i + 1..];
    }
  }
}
