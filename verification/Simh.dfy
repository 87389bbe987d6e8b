/** The SIMH tape format: meta data words, the objects on a tape and their encoding. */
module Simh {
  import opened ImageFiles

  const META_DATA_SIZE: nat := 4

  // Object classes
  const GOOD_DATA: nat := 0
  const PRIVATE_MARKER: nat := 7
  const BAD_DATA: nat := 8
  const RESERVED_MARKER: nat := 15

  const END_OF_MEDIUM: nat := 0xFFF_FFFF
  const PRIVATE_MARKER_MAGIC: nat := 0x53_3250

  datatype MetaData = MetaData(cls: nat, value: nat)

  predicate Encodable(m: MetaData) {
    m.cls < 16 && m.value < 0x1000_0000
  }

  function ToLittleEndian(m: MetaData): (r: Bytes)
    requires Encodable(m)
    ensures |r| == 4
  {
    [(m.value % 0x100) as byte, (m.value / 0x100 % 0x100) as byte, (m.value / 0x1_0000 % 0x100) as byte,
     (m.value / 0x100_0000 + m.cls * 0x10) as byte]
  }

  function FromLittleEndian(b: Bytes): (m: MetaData)
    requires |b| == 4
    ensures Encodable(m)
  {
    var data := b[3] as int * 0x100_0000 + b[2] as int * 0x1_0000 + b[1] as int * 0x100 + b[0] as int;
    MetaData(data / 0x1000_0000, data % 0x1000_0000)
  }

  lemma MetaDataRoundTrip(m: MetaData)
    requires Encodable(m)
    ensures FromLittleEndian(ToLittleEndian(m)) == m
  {
    var v := m.value;
    assert v / 0x1_0000 == v / 0x100 / 0x100 && v / 0x100_0000 == v / 0x100 / 0x100 / 0x100;
    assert v == v / 0x100_0000 * 0x100_0000 + v / 0x1_0000 % 0x100 * 0x1_0000 + v / 0x100 % 0x100 * 0x100 + v % 0x100;
  }

  /** The class is in the four highest bits of the word, and the lowest byte comes first. */
  lemma WordIs(m: MetaData)
    requires Encodable(m)
    ensures var b := ToLittleEndian(m);
            b[3] as nat * 0x100_0000 + b[2] as nat * 0x1_0000 + b[1] as nat * 0x100 + b[0] as nat
            == m.cls * 0x1000_0000 + m.value
  {
    MetaDataRoundTrip(m);
    hide ToLittleEndian;
  }

  lemma Digits(v: nat, d0: nat, d1: nat, d2: nat, d3: nat)
    requires v == d3 * 0x100_0000 + d2 * 0x1_0000 + d1 * 0x100 + d0 && d0 < 0x100 && d1 < 0x100 && d2 < 0x100
    ensures v % 0x100 == d0 && v / 0x100 % 0x100 == d1 && v / 0x1_0000 % 0x100 == d2 && v / 0x100_0000 == d3
  {
    assert v / 0x100 == d3 * 0x1_0000 + d2 * 0x100 + d1;
    assert v / 0x1_0000 == d3 * 0x100 + d2;
  }

  /** Any four bytes are the meta data of exactly one class and value. */
  lemma BytesRoundTrip(b: Bytes)
    requires |b| == 4
    ensures ToLittleEndian(FromLittleEndian(b)) == b
  {
    var m := FromLittleEndian(b);
    var b0, b1, b2, b3 := b[0] as int, b[1] as int, b[2] as int, b[3] as int;
    assert m.cls == b3 / 0x10;
    assert m.value == b3 % 0x10 * 0x100_0000 + b2 * 0x1_0000 + b1 * 0x100 + b0;
    Digits(m.value, b0, b1, b2, b3 % 0x10);
    hide FromLittleEndian;
  }

  predicate IsRecord(m: MetaData) {
    if m.cls == GOOD_DATA then m.value != 0
    else if m.cls == BAD_DATA && m.value == 0 then false
    else m.cls != PRIVATE_MARKER && m.cls != RESERVED_MARKER
  }

  lemma RecordsAre(m: MetaData)
    requires Encodable(m)
    ensures IsRecord(m) <==> m.cls in {1, 2, 3, 4, 5, 6, 9, 10, 11, 12, 13, 14} || (m.cls in {0, 8} && m.value > 0)
  {
  }

  function Pad(length: nat): nat {
    length + length % 2
  }

  /** Reading meta data never fails inside the file; past its end it yields the end of the medium. */
  function ReadMetaData(f: Bytes, pos: nat): (m: MetaData)
    ensures Encodable(m)
  {
    if pos + META_DATA_SIZE <= |f| then FromLittleEndian(f[pos..pos + META_DATA_SIZE])
    else MetaData(RESERVED_MARKER, END_OF_MEDIUM)
  }

  // Tapes as lists of objects.

  /** A marker is a single meta data word. A record has its length in front of and behind its data. */
  datatype Object = Marker(meta: MetaData) | Record(cls: nat, data: Bytes) {
    function Meta(): MetaData {
      if Marker? then meta else MetaData(cls, |data|)
    }

    predicate Valid() {
      Encodable(Meta()) && (Record? <==> IsRecord(Meta()))
    }

    function Encoding(): (r: Bytes)
      requires Valid()
      ensures |r| == Length() >= 4
      ensures r[..4] == r[|r| - 4..] == ToLittleEndian(Meta())
    {
      var m := ToLittleEndian(Meta());
      if Marker? then
        assert m[..4] == m;
        m
      else
        var r := m + data + Padding(|data|) + m;
        assert |r| == 8 + Pad(|data|);
        r
    }

    function Length(): nat {
      if Marker? then META_DATA_SIZE else Pad(|data|) + 2 * META_DATA_SIZE
    }
  }

  function Padding(length: nat): (r: Bytes)
    ensures |r| == length % 2
  {
    if length % 2 == 0 then [] else [0]
  }

  lemma EncodingIs(o: Object)
    requires o.Valid()
    ensures o.Marker? ==> o.Encoding() == ToLittleEndian(o.meta)
    ensures o.Record? && |o.data| % 2 == 0 ==>
              o.Encoding() == ToLittleEndian(o.Meta()) + o.data + ToLittleEndian(o.Meta())
    ensures o.Record? && |o.data| % 2 == 1 ==>
              o.Encoding() == ToLittleEndian(o.Meta()) + o.data + [0x00] + ToLittleEndian(o.Meta())
  {
    hide ToLittleEndian;
    if o.Record? && |o.data| % 2 == 0 {
      var word := ToLittleEndian(o.Meta());
      assert word + o.data + [] + word == word + o.data + word;
    }
  }

  ghost predicate AllValid(objects: seq<Object>) {
    forall i :: 0 <= i < |objects| ==> objects[i].Valid()
  }

  function Encode(objects: seq<Object>): Bytes
    requires forall i :: 0 <= i < |objects| ==> objects[i].Valid()
  {
    if objects == [] then [] else Encode(objects[..|objects| - 1]) + objects[|objects| - 1].Encoding()
  }

  /** The file starts with the encoding of the objects. What follows is arbitrary. */
  ghost predicate Holds(f: Bytes, objects: seq<Object>) {
    AllValid(objects) && Encode(objects) <= f
  }

  /** The position of object i. */
  function Position(objects: seq<Object>, i: nat): nat
    requires i <= |objects|
  {
    if i == 0 then 0 else Position(objects, i - 1) + objects[i - 1].Length()
  }

  lemma {:induction false} PrefixLength(objects: seq<Object>, i: nat)
    requires AllValid(objects) && i <= |objects|
    ensures |Encode(objects[..i])| == Position(objects, i)
  {
    hide Pad, Object.Encoding, Object.Length, Object.Valid;
    if i > 0 {
      PrefixLength(objects, i - 1);
      assert objects[..i][..i - 1] == objects[..i - 1];
    }
  }

  lemma {:induction false} PrefixHeld(f: Bytes, objects: seq<Object>, i: nat)
    requires Holds(f, objects) && i <= |objects|
    ensures Holds(f, objects[..i])
    decreases |objects| - i
  {
    hide Pad, Object.Encoding, Object.Length, Object.Valid;
    if i == |objects| {
      assert objects[..i] == objects;
    } else {
      PrefixHeld(f, objects, i + 1);
      assert objects[..i + 1][..i] == objects[..i];
    }
  }

  lemma EncodeStep(objects: seq<Object>, i: nat)
    requires AllValid(objects) && i < |objects|
    ensures Encode(objects[..i + 1]) == Encode(objects[..i]) + objects[i].Encoding()
  {
    hide Pad, Object.Encoding, Object.Length;
    assert objects[..i + 1][..i] == objects[..i];
  }

  lemma EncodeAppend(objects: seq<Object>, o: Object)
    requires AllValid(objects) && o.Valid()
    ensures AllValid(objects + [o]) && Encode(objects + [o]) == Encode(objects) + o.Encoding()
  {
    assert (objects + [o])[..|objects|] == objects;
  }

  lemma Prefix(f: Bytes, objects: seq<Object>, i: nat) returns (p: Bytes, e: Bytes)
    requires Holds(f, objects) && i < |objects|
    ensures p + e <= f && |p| == Position(objects, i) && objects[i].Valid() && e == objects[i].Encoding()
  {
    hide Pad, Object.Encoding, Object.Length, Encode;
    PrefixHeld(f, objects, i + 1);
    PrefixLength(objects, i);
    EncodeStep(objects, i);
    return Encode(objects[..i]), objects[i].Encoding();
  }

  lemma SliceAfter(f: Bytes, p: Bytes, e: Bytes)
    requires p + e <= f
    ensures f[|p|..|p| + |e|] == e
  {
    assert f[..|p| + |e|] == p + e;
  }

  /** Object i as the bytes of the file. */
  lemma ObjectBytes(f: Bytes, objects: seq<Object>, i: nat)
    requires Holds(f, objects) && i < |objects|
    ensures Position(objects, i) + objects[i].Length() == Position(objects, i + 1) <= |f|
    ensures f[Position(objects, i)..Position(objects, i + 1)] == objects[i].Encoding()
  {
    hide Pad, Object.Encoding, Object.Length, Object.Valid, Encode;
    var p, e := Prefix(f, objects, i);
    SliceAfter(f, p, e);
  }

  /** The meta data of object i can be read at both of its ends. */
  lemma MetaDataAtBothEnds(f: Bytes, objects: seq<Object>, i: nat)
    requires Holds(f, objects) && i < |objects|
    ensures Position(objects, i) + META_DATA_SIZE <= Position(objects, i + 1) <= |f|
    ensures ReadMetaData(f, Position(objects, i)) == objects[i].Meta()
    ensures ReadMetaData(f, Position(objects, i + 1) - META_DATA_SIZE) == objects[i].Meta()
  {
    hide *;
    ObjectBytes(f, objects, i);
    ObjectOf(f, objects, i);
    BothEnds(f, Position(objects, i), Position(objects, i + 1), objects[i].Encoding(), objects[i].Meta());
  }

  lemma ObjectOf(f: Bytes, objects: seq<Object>, i: nat)
    requires Holds(f, objects) && i < |objects|
    ensures var o := objects[i];
            && o.Valid() && Encodable(o.Meta()) && |o.Encoding()| == o.Length() >= META_DATA_SIZE
            && o.Encoding()[..META_DATA_SIZE] == o.Encoding()[o.Length() - META_DATA_SIZE..] == ToLittleEndian(o.Meta())
  {
    hide ToLittleEndian, Object.Encoding, Object.Length, Encodable, Encode;
  }

  lemma BothEnds(f: Bytes, a: nat, b: nat, e: Bytes, m: MetaData)
    requires Encodable(m) && a + META_DATA_SIZE <= b <= |f| && f[a..b] == e
    requires e[..META_DATA_SIZE] == e[|e| - META_DATA_SIZE..] == ToLittleEndian(m)
    ensures ReadMetaData(f, a) == ReadMetaData(f, b - META_DATA_SIZE) == m
  {
    MetaDataRoundTrip(m);
    hide ToLittleEndian, FromLittleEndian;
    assert f[a..a + 4] == e[..4] && f[b - 4..b] == e[|e| - 4..];
  }
}
