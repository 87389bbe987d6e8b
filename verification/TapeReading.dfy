/** What a READ takes from a tape image, record by record. */
module TapeReading {
  import opened ImageFiles
  import opened Simh
  import opened TapeWalk
  import opened TapeRecords
  import opened Transfers

  /** The next record: the position of its data as the drive computes it and the head behind it, or
      the reason for which there is none. */
  datatype NextRecord =
    | Readable(start: nat, length: nat, after: Head)
    | NotFound(walk: Walk)
    | Damaged(length: nat)

  function TrailingLength(f: Bytes, pos: nat): nat
    requires pos + META_DATA_SIZE <= |f|
  {
    FromLittleEndian(f[pos..pos + META_DATA_SIZE]).value
  }

  /** The record of length v whose data are taken to start at a position. */
  function RecordAt(f: Bytes, start: int, v: nat, loc: int): NextRecord {
    var trail := start + Pad(v);
    if v > 0 && start >= 0 && trail + META_DATA_SIZE <= |f| && TrailingLength(f, trail) == v then
      Readable(start, v, Head(trail + META_DATA_SIZE, loc))
    else Damaged(v)
  }

  /** From the end of the record the drive goes back by the unpadded length. */
  function RecordAhead(f: Bytes, h: Head): NextRecord {
    match FindForward(f, h, Block, 0, true)
    case Stopped(stop, g) => NotFound(Stopped(stop, g))
    case Done(m, g) => RecordAt(f, g.pos - (m.value + META_DATA_SIZE), m.value, g.loc)
  }

  /** The only block without a length is the bad record that was not recovered. */
  lemma {:induction false} EmptyIsBad(f: Bytes, h: Head, count: int)
    ensures var w := FindForward(f, h, Block, count, true); w.Done? && w.meta.value == 0 ==> w.meta.cls == BAD_DATA
    decreases |f| - h.pos
  {
    NextForwardAdvances(f, h);
    NextForwardSees(f, h);
    var found := NextForward(f, h);
    if found.Found? {
      EmptySight(found.meta);
    }
    hide NextForward, Rest, See;
    if found.Found? {
      var g := found.head.(pos := found.head.pos + Rest(found.meta));
      EmptyIsBad(f, g, if found.kind == Block then count - 1 else count);
    }
  }

  lemma {:induction false} FindForwardAdvances(f: Bytes, h: Head, count: int)
    ensures var w := FindForward(f, h, Block, count, true); w.Done? ==> w.head.pos >= h.pos + META_DATA_SIZE
    decreases |f| - h.pos
  {
    NextForwardAdvances(f, h);
    hide NextForward, Rest;
    var found := NextForward(f, h);
    if found.Found? {
      var g := found.head.(pos := found.head.pos + Rest(found.meta));
      FindForwardAdvances(f, g, if found.kind == Block then count - 1 else count);
    }
  }

  lemma EmptySight(m: MetaData)
    ensures m.value == 0 && See(m).Visible? && See(m).kind == Block ==> m.cls == BAD_DATA
  {
  }

  lemma {:induction false} NextForwardSees(f: Bytes, h: Head)
    ensures var s := NextForward(f, h); s.Found? ==> See(s.meta) == Visible(s.kind, s.length)
    decreases |f| - h.pos
  {
    if h.pos >= 0 {
      var m := ReadMetaData(f, h.pos);
      hide ReadMetaData, See, Rest, Number;
      if See(m).Skipped? {
        NextForwardSees(f, Head(h.pos + META_DATA_SIZE + Rest(m), h.loc + Number(m)));
      }
    }
  }

  /** The outcome of a READ in fixed mode: all blocks, the blocks in front of whatever ended it, or a
      record whose length is not the block size. */
  datatype BlocksRead =
    | AllRead(data: Bytes, head: Head)
    | Ended(data: Bytes, why: NextRecord)
    | OtherLength

  function Prepend(data: Bytes, r: BlocksRead): BlocksRead {
    match r
    case AllRead(more, h) => AllRead(data + more, h)
    case Ended(more, why) => Ended(data + more, why)
    case OtherLength => OtherLength
  }

  function FixedRead(f: Bytes, h: Head, size: nat, n: nat): BlocksRead
    decreases n
  {
    if n == 0 then AllRead([], h) else
    match RecordAhead(f, h)
    case NotFound(w) => Ended([], NotFound(w))
    case Damaged(v) => if v == size || v == 0 then Ended([], Damaged(v)) else OtherLength
    case Readable(start, v, after) =>
      if v != size then OtherLength
      else Prepend(RecordData(f, start, v), FixedRead(f, after, size, n - 1))
  }

  function RecordData(f: Bytes, start: int, length: nat): Bytes {
    if 0 <= start && start + length <= |f| then f[start..start + length] else []
  }

  lemma FixedReadStarts(f: Bytes, h: Head, size: nat, n: nat)
    ensures FixedRead(f, h, size, n) == Prepend([], FixedRead(f, h, size, n))
  {
    var r := FixedRead(f, h, size, n);
    if r.AllRead? {
      assert [] + r.data == r.data;
    } else if r.Ended? {
      assert [] + r.data == r.data;
    }
  }

  lemma FixedReadEnds(f: Bytes, h: Head, size: nat, data: Bytes)
    ensures Prepend(data, FixedRead(f, h, size, 0)) == AllRead(data, h)
  {
    assert data + [] == data;
  }

  /** The next block of a READ, after `data` were read. */
  lemma FixedReadStep(f: Bytes, h: Head, size: nat, n: nat, data: Bytes)
    requires n > 0
    ensures var r, b := RecordAhead(f, h), Prepend(data, FixedRead(f, h, size, n));
            && (r.NotFound? ==> b == Ended(data, r))
            && (r.Damaged? ==> b == if r.length == size || r.length == 0 then Ended(data, r) else OtherLength)
            && (r.Readable? && r.length != size ==> b == OtherLength)
            && (r.Readable? && r.length == size ==>
                  b == Prepend(data + RecordData(f, r.start, size), FixedRead(f, r.after, size, n - 1)))
  {
    assert data + [] == data;
    var r := RecordAhead(f, h);
    if r.Readable? && r.length == size {
      var part, rest := RecordData(f, r.start, size), FixedRead(f, r.after, size, n - 1);
      PrependTwice(data, part, rest);
    }
  }

  lemma PrependTwice(a: Bytes, b: Bytes, r: BlocksRead)
    ensures Prepend(a, Prepend(b, r)) == Prepend(a + b, r)
  {
    if !r.OtherLength? {
      assert a + (b + r.data) == a + b + r.data;
    }
  }
}
