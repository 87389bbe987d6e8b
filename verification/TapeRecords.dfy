/** Records on a tape image: what a WRITE leaves on it and what a READ takes from it. */
module TapeRecords {
  import opened ImageFiles
  import opened Simh
  import opened TapeWalk

  const END_OF_DATA_MARKER := MetaData(PRIVATE_MARKER, 3 * 0x100_0000 + PRIVATE_MARKER_MAGIC)

  /** The data of a fixed-length WRITE, one record for each block. */
  function Blocks(data: Bytes, size: nat, n: nat): (r: seq<Object>)
    requires |data| == Offset(n, size)
    ensures |r| == n
    decreases n
  {
    if n == 0 then []
    else Blocks(data[..|data| - size], size, n - 1) + [Record(GOOD_DATA, data[|data| - size..])]
  }

  /** There is room for a meta data word at a position. The check counts the position twice. */
  predicate Room(fileSize: nat, pos: int) {
    2 * pos + META_DATA_SIZE <= fileSize
  }

  predicate Even(n: int) {
    n % 2 == 0
  }

  predicate Recordable(data: Bytes) {
    0 < |data| < 0x1000_0000
  }

  lemma RecordableIsValid(data: Bytes)
    requires Recordable(data)
    ensures Record(GOOD_DATA, data).Valid()
  {
  }

  lemma {:induction false} BlocksValid(data: Bytes, size: nat, n: nat)
    requires |data| == Offset(n, size) && 0 < size < 0x1000_0000
    ensures AllValid(Blocks(data, size, n))
  {
    if n > 0 {
      BlocksValid(data[..|data| - size], size, n - 1);
      RecordableIsValid(data[|data| - size..]);
    }
  }

  /** The file after `written` was put on it from position p on. The four bytes behind may have been
      overwritten by an end-of-data marker. Nothing can be written behind the end of the file. */
  ghost predicate Written(f0: Bytes, f: Bytes, p: nat, written: Bytes) {
    if p + |written| > |f| then f == f0 && written == []
    else
      && |f| == |f0| && f[..p + |written|] == f0[..p] + written
      && forall x :: p + |written| + META_DATA_SIZE <= x < |f| ==> f[x] == f0[x]
  }

  lemma NothingWritten(f: Bytes, p: nat)
    ensures Written(f, f, p, [])
  {
    if p <= |f| {
      assert f[..p] + [] == f[..p];
    }
  }

  lemma WriteMore(f0: Bytes, f: Bytes, p: nat, written: Bytes, data: Bytes)
    requires Written(f0, f, p, written) && p + |written| + |data| <= |f|
    ensures Written(f0, Splice(f, p + |written|, data), p, written + data)
  {
    var g := Splice(f, p + |written|, data);
    assert g[..p + |written| + |data|] == f[..p + |written|] + data;
    assert g[..p + |written| + |data|] == f0[..p] + (written + data);
    forall x | p + |written| + |data| + META_DATA_SIZE <= x < |f|
      ensures g[x] == f0[x]
    {
      SpliceAt(f, p + |written|, data, x);
    }
  }

  lemma WriteMarker(f0: Bytes, f: Bytes, p: nat, written: Bytes, marker: Bytes)
    requires Written(f0, f, p, written) && |marker| == META_DATA_SIZE && p + |written| + |marker| <= |f|
    ensures Written(f0, Splice(f, p + |written|, marker), p, written)
    ensures Splice(f, p + |written|, marker) == Splice(f0, p, written + marker)
  {
    var q := p + |written|;
    var g := Splice(f, q, marker);
    assert g[..q] == f[..q];
    forall x | q + META_DATA_SIZE <= x < |f|
      ensures g[x] == f0[x]
    {
      SpliceAt(f, q, marker, x);
    }
    assert g[q + META_DATA_SIZE..] == f0[q + META_DATA_SIZE..];
    assert g == g[..q] + marker + g[q + META_DATA_SIZE..];
    assert Splice(f0, p, written + marker) == f0[..p] + (written + marker) + f0[q + META_DATA_SIZE..];
  }

  /** What a WRITE has put on the tape after k bytes of its data. A variable-length WRITE is one
      record that is written in several pieces. */
  function Stream(fixed: bool, data: Bytes, size: nat, k: nat, m: nat): Bytes
    requires k <= |data| && 0 < size < 0x1000_0000
    requires if fixed then k == Offset(m, size) else |data| < 0x1000_0000
  {
    if fixed then
      BlocksValid(data[..k], size, m);
      Encode(Blocks(data[..k], size, m))
    else if k == 0 then []
    else if k < |data| then ToLittleEndian(MetaData(GOOD_DATA, |data|)) + data[..k]
    else Record(GOOD_DATA, data).Encoding()
  }

  function LengthWord(length: nat): (r: Bytes)
    requires length < 0x1000_0000
    ensures |r| == META_DATA_SIZE
  {
    ToLittleEndian(MetaData(GOOD_DATA, length))
  }

  lemma EvenRecord(data: Bytes)
    requires Recordable(data) && Even(|data|)
    ensures Record(GOOD_DATA, data).Valid()
    ensures Record(GOOD_DATA, data).Encoding() == LengthWord(|data|) + data + LengthWord(|data|)
  {
    assert Padding(|data|) == [];
    hide ToLittleEndian;
  }

  lemma BlocksStep(data: Bytes, size: nat, m: nat)
    requires Offset(m + 1, size) <= |data|
    ensures Offset(m + 1, size) == Offset(m, size) + size
    ensures Blocks(data[..Offset(m + 1, size)], size, m + 1)
         == Blocks(data[..Offset(m, size)], size, m) + [Record(GOOD_DATA, data[Offset(m, size)..Offset(m + 1, size)])]
  {
    var k, l := Offset(m, size), Offset(m + 1, size);
    assert data[..l][..k] == data[..k] && data[..l][k..] == data[k..l];
  }

  /** The next block of a fixed-length WRITE is one more complete record. */
  lemma NextBlock(data: Bytes, size: nat, m: nat)
    requires 0 < size < 0x1000_0000 && Even(size) && Offset(m + 1, size) <= |data|
    ensures Offset(m + 1, size) == Offset(m, size) + size
    ensures Stream(true, data, size, Offset(m + 1, size), m + 1)
         == Stream(true, data, size, Offset(m, size), m)
            + (LengthWord(size) + data[Offset(m, size)..Offset(m + 1, size)] + LengthWord(size))
  {
    var k, l := Offset(m, size), Offset(m + 1, size);
    BlocksStep(data, size, m);
    BlocksValid(data[..k], size, m);
    EvenRecord(data[k..l]);
    EncodeAppend(Blocks(data[..k], size, m), Record(GOOD_DATA, data[k..l]));
    hide Encode, LengthWord, Blocks, Offset, Object.Encoding, Even;
  }

  lemma StreamBefore(fixed: bool, data: Bytes, size: nat, k: nat, m: nat)
    requires k < |data| && 0 < size < 0x1000_0000
    requires if fixed then k == Offset(m, size) else |data| < 0x1000_0000
    ensures !fixed ==> Stream(fixed, data, size, k, m) == if k == 0 then [] else LengthWord(|data|) + data[..k]
  {
  }

  lemma {:induction false} EvenOffset(m: nat, size: nat)
    requires Even(size)
    ensures Even(Offset(m, size))
  {
    if m > 0 {
      EvenOffset(m - 1, size);
    }
  }

  lemma NextBlockLength(data: Bytes, size: nat, m: nat)
    requires 0 < size < 0x1000_0000 && Even(size) && Offset(m + 1, size) <= |data|
    ensures Offset(m, size) <= |data|
    ensures |Stream(true, data, size, Offset(m + 1, size), m + 1)|
         == |Stream(true, data, size, Offset(m, size), m)| + size + 2 * META_DATA_SIZE
  {
    hide Stream, LengthWord, Even;
    NextBlock(data, size, m);
  }

  lemma StreamStart(data: Bytes, size: nat)
    requires 0 < size < 0x1000_0000
    ensures Stream(true, data, size, 0, 0) == []
  {
    assert Blocks(data[..0], size, 0) == [];
  }

  lemma {:induction false} StreamLength(data: Bytes, size: nat, m: nat, unit: nat)
    requires 0 < size < 0x1000_0000 && Even(size) && Offset(m, size) <= |data| && unit == size + 2 * META_DATA_SIZE
    ensures |Stream(true, data, size, Offset(m, size), m)| == Offset(m, unit)
  {
    hide Stream, Even;
    if m == 0 {
      StreamStart(data, size);
    } else {
      NextBlockLength(data, size, m - 1);
      StreamLength(data, size, m - 1, unit);
    }
  }

  /** The stream of a WRITE never gets shorter. */
  lemma StreamGrows(fixed: bool, data: Bytes, size: nat, k: nat, m: nat, n: nat)
    requires k <= |data| && 0 < size < 0x1000_0000 && Even(size)
    requires if fixed then k == Offset(m, size) && |data| == Offset(n, size) && m <= n else 0 < |data| < 0x1000_0000
    ensures |Stream(fixed, data, size, k, m)| <= |Stream(fixed, data, size, |data|, n)|
  {
    if fixed {
      StreamLength(data, size, m, size + 2 * META_DATA_SIZE);
      StreamLength(data, size, n, size + 2 * META_DATA_SIZE);
      OffsetAscends(m, n, size + 2 * META_DATA_SIZE);
      hide Stream;
    } else {
      VariableStream(data, size, k);
    }
  }

  /** A variable-length record is complete once all of its data are there. */
  lemma VariableStream(data: Bytes, size: nat, k: nat)
    requires k <= |data| && 0 < |data| < 0x1000_0000 && 0 < size < 0x1000_0000
    ensures Stream(false, data, size, |data|, 0) == LengthWord(|data|) + data + Padding(|data|) + LengthWord(|data|)
    ensures |Stream(false, data, size, k, 0)| <= |Stream(false, data, size, |data|, 0)|
  {
    hide ToLittleEndian, Pad;
  }

  /** The records of a WRITE: one for each block in fixed mode, otherwise a single one. */
  function Records(fixed: bool, data: Bytes, size: nat, n: nat): (r: seq<Object>)
    requires 0 < size < 0x1000_0000
    requires if fixed then |data| == Offset(n, size) else |data| < 0x1000_0000
    ensures forall i :: 0 <= i < |r| ==> r[i].Valid()
    ensures |r| == if fixed then n else if data == [] then 0 else 1
  {
    if fixed then
      BlocksValid(data, size, n);
      Blocks(data, size, n)
    else if data == [] then []
    else
      RecordableIsValid(data);
      [Record(GOOD_DATA, data)]
  }

  lemma StreamOfRecords(fixed: bool, data: Bytes, size: nat, n: nat)
    requires 0 < size < 0x1000_0000 && data != []
    requires if fixed then |data| == Offset(n, size) else |data| < 0x1000_0000
    ensures Encode(Records(fixed, data, size, n)) == Stream(fixed, data, size, |data|, if fixed then n else 0)
  {
    if fixed {
      assert data[..|data|] == data;
    } else {
      RecordableIsValid(data);
      EncodeAppend([], Record(GOOD_DATA, data));
      assert [] + [Record(GOOD_DATA, data)] == [Record(GOOD_DATA, data)];
    }
  }

  lemma BlocksAhead(size: nat, m: nat, n: nat)
    requires Offset(m, size) < Offset(n, size)
    ensures m < n && Offset(m, size) + size <= Offset(n, size)
  {
    if n <= m {
      OffsetAscends(n, m, size);
    } else {
      OffsetAscends(m + 1, n, size);
    }
  }

  function Filemarks(count: nat): (r: seq<Object>)
    ensures |r| == count && forall i :: 0 <= i < |r| ==> r[i].Valid()
  {
    if count == 0 then [] else Filemarks(count - 1) + [Marker(MetaData(GOOD_DATA, 0))]
  }

  lemma NoFilemarks()
    ensures Encode(Filemarks(0)) == []
  {
  }

  lemma NextFilemark(count: nat)
    ensures Encode(Filemarks(count + 1)) == Encode(Filemarks(count)) + LengthWord(0)
  {
    EncodeAppend(Filemarks(count), Marker(MetaData(GOOD_DATA, 0)));
  }

  lemma {:induction false} FilemarksGrow(i: nat, j: nat)
    requires i <= j
    ensures |Encode(Filemarks(i))| <= |Encode(Filemarks(j))|
  {
    hide Encode, LengthWord;
    if i < j {
      FilemarksGrow(i, j - 1);
      NextFilemark(j - 1);
    }
  }
}
