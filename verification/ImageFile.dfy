/** Image files and the sector arithmetic shared by the disk engines.
    A file is a byte sequence; every stream operation may fail, and a failing write may have
    stored any prefix of its data. */
module ImageFiles {

  newtype byte = b: int | 0 <= b < 0x100

  type Bytes = seq<byte>

  /** `f` with the bytes from `pos` on replaced by `data`. */
  function Splice(f: Bytes, pos: nat, data: Bytes): (r: Bytes)
    requires pos + |data| <= |f|
    ensures |r| == |f|
  {
    f[..pos] + data + f[pos + |data|..]
  }

  lemma SpliceAt(f: Bytes, pos: nat, data: Bytes, p: nat)
    requires pos + |data| <= |f| && p < |f|
    ensures Splice(f, pos, data)[p] == if pos <= p < pos + |data| then data[p - pos] else f[p]
  {
  }

  lemma SpliceTwice(f: Bytes, pos: nat, a: Bytes, b: Bytes)
    requires pos + |a| + |b| <= |f|
    ensures Splice(f, pos, a + b) == Splice(Splice(f, pos, a), pos + |a|, b)
  {
  }

  class ImageFile {
    /** There is no space for what is written, as for a sparse file on a full medium. */
    const full: bool
    var bytes: Bytes
    /** The calls that have failed although the file has what they ask for. */
    ghost var failures: nat
    /** Nothing was written since the file was flushed. */
    ghost var synced: bool

    constructor (content: Bytes, isFull: bool)
      ensures bytes == content && full == isFull && failures == 0 && synced
    {
      bytes, full, failures, synced := content, isFull, 0, true;
    }

    /** What the operating system answers to a call. */
    method Answer() returns (ok: bool)
      modifies this`failures
      ensures failures == old(failures) + if ok then 0 else 1
    {
      ok := *;
      if !ok {
        failures := failures + 1;
      }
    }

    /** Opening a stream on the file. */
    method Open() returns (ok: bool)
      modifies this`failures
      ensures failures == old(failures) + if ok then 0 else 1
    {
      ok := Answer();
    }

    method Read(pos: nat, length: nat) returns (ok: bool, data: Bytes)
      modifies this`failures
      ensures ok ==> pos + length <= |bytes| && data == bytes[pos..pos + length]
      ensures failures == old(failures) + if ok || pos + length > |bytes| then 0 else 1
    {
      ok, data := false, [];
      if pos + length <= |bytes| {
        ok := Answer();
        if ok {
          data := bytes[pos..pos + length];
        }
      }
    }

    method Write(pos: nat, data: Bytes) returns (ok: bool, ghost stored: nat)
      requires pos + |data| <= |bytes|
      modifies this
      ensures stored <= |data| && (ok ==> stored == |data|)
      ensures bytes == Splice(old(bytes), pos, data[..stored])
      ensures ok ==> bytes == Splice(old(bytes), pos, data)
      ensures full ==> bytes == old(bytes) && (data != [] ==> !ok)
      ensures failures == old(failures) + if ok then 0 else 1
      ensures !synced
    {
      ok := Answer();
      var n: nat :| n <= |data| && (full ==> n == 0) && (ok && !full ==> n == |data|);
      if ok && n < |data| {
        ok := false;
        failures := failures + 1;
      }
      bytes := Splice(bytes, pos, data[..n]);
      synced := false;
      stored := n;
      assert n == |data| ==> data[..n] == data;
    }

    /** Nothing is buffered here, but the operating system may report a failure late. */
    method Flush() returns (ok: bool)
      modifies this`failures, this`synced
      ensures failures == old(failures) + if ok then 0 else 1
      ensures synced == (ok || old(synced))
    {
      ok := Answer();
      synced := ok || synced;
    }
  }

  /** The byte position of sector s on a medium with the given sector size, s << shift_count in the
      program. The recursive form keeps products of two variables out of the proofs. */
  function Offset(s: nat, size: nat): nat {
    if s == 0 then 0 else Offset(s - 1, size) + size
  }

  lemma {:induction false} OffsetIsProduct(s: nat, size: nat)
    ensures Offset(s, size) == s * size
  {
    if s > 0 {
      OffsetIsProduct(s - 1, size);
      assert (s - 1) * size + size == s * size;
    }
  }

  lemma {:induction false} OffsetSum(s: nat, t: nat, size: nat)
    ensures Offset(s + t, size) == Offset(s, size) + Offset(t, size)
  {
    if t > 0 {
      OffsetSum(s, t - 1, size);
    }
  }

  lemma OffsetAscends(s: nat, t: nat, size: nat)
    requires s <= t
    ensures Offset(s, size) <= Offset(t, size)
  {
    OffsetSum(s, t - s, size);
  }

  /** Byte p of a medium belongs to sector s. */
  predicate InSector(p: int, s: nat, size: nat) {
    Offset(s, size) <= p < Offset(s + 1, size)
  }

  lemma SectorsDisjoint(p: int, s: nat, t: nat, size: nat)
    requires InSector(p, s, size) && InSector(p, t, size)
    ensures s == t
  {
    if s < t {
      OffsetAscends(s + 1, t, size);
    } else if t < s {
      OffsetAscends(t + 1, s, size);
    }
  }

  /** Every byte between two sector positions lies in a sector between them. */
  lemma {:induction false} SectorOf(p: nat, m: nat, n: nat, size: nat) returns (s: nat)
    requires m <= n && Offset(m, size) <= p < Offset(n, size)
    ensures m <= s < n && InSector(p, s, size)
  {
    if Offset(n - 1, size) <= p {
      s := n - 1;
      if s < m {
        OffsetAscends(n, m, size);
      }
    } else {
      s := SectorOf(p, m, n - 1, size);
    }
  }

  function SectorAt(f: Bytes, s: nat, size: nat): (r: Bytes)
    requires Offset(s + 1, size) <= |f|
    ensures |r| == size
  {
    f[Offset(s, size)..Offset(s + 1, size)]
  }

  /** Byte k of sector s. */
  lemma SectorBytes(f: Bytes, s: nat, size: nat, k: nat)
    requires Offset(s + 1, size) <= |f| && k < size
    ensures 0 <= s * size + k < |f| && SectorAt(f, s, size)[k] == f[s * size + k]
  {
    OffsetIsProduct(s, size);
    assert Offset(s + 1, size) == Offset(s, size) + size;
    hide Offset;
  }

  /** Some consecutive sectors. */
  function SectorRange(f: Bytes, start: nat, count: nat, size: nat): (r: Bytes)
    requires Offset(start + count, size) <= |f|
    ensures |r| == Offset(count, size)
  {
    OffsetSum(start, count, size);
    f[Offset(start, size)..Offset(start + count, size)]
  }

  lemma RangeBytes(f: Bytes, start: nat, count: nat, size: nat, k: nat)
    requires Offset(start + count, size) <= |f| && k < Offset(count, size)
    ensures 0 <= start * size + k < |f| && SectorRange(f, start, count, size)[k] == f[start * size + k]
  {
    OffsetIsProduct(start, size);
    OffsetSum(start, count, size);
    hide Offset;
  }

  lemma RangeJoins(f: Bytes, start: nat, k: nat, m: nat, size: nat)
    requires Offset(start + k + m, size) <= |f|
    ensures Offset(start + k, size) <= |f|
    ensures SectorRange(f, start, k, size) + SectorRange(f, start + k, m, size) == SectorRange(f, start, k + m, size)
  {
    OffsetAscends(start + k, start + k + m, size);
    OffsetAscends(start, start + k, size);
    hide Offset;
  }

  lemma OneSector(f: Bytes, s: nat, size: nat)
    requires Offset(s + 1, size) <= |f|
    ensures SectorRange(f, s, 1, size) == SectorAt(f, s, size)
    ensures Offset(1, size) == size
  {
    assert Offset(1, size) == Offset(0, size) + size;
  }

  lemma OneOffset(size: nat)
    ensures Offset(1, size) == size
  {
    assert Offset(0, size) == 0;
  }

  /** The first bytes of some data were written at a position, and nothing else was changed. */
  predicate Patched(before: Bytes, after: Bytes, pos: nat, data: Bytes, stored: nat) {
    && stored <= |data| && |after| == |before|
    && if stored == 0 then after == before
       else pos + stored <= |before| && after == Splice(before, pos, data[..stored])
  }

  lemma PatchJoins(a: Bytes, b: Bytes, c: Bytes, pos: nat, data: Bytes, k: nat, buf: Bytes, s: nat)
    requires Patched(a, b, pos, data, k) && Patched(b, c, pos + k, buf, s)
    requires k + |buf| <= |data| && buf == data[k..k + |buf|]
    ensures Patched(a, c, pos, data, k + s)
  {
    if k > 0 && s > 0 {
      assert data[..k] + buf[..s] == data[..k + s];
      SpliceTwice(a, pos, data[..k], buf[..s]);
    } else if s > 0 {
      assert buf[..s] == data[..s];
    }
  }

  lemma OffsetQuotient(m: nat, size: nat)
    requires size > 0
    ensures Offset(m, size) / size == m
  {
    OffsetIsProduct(m, size);
    var d, r := m * size / size, m * size % size;
    assert (m - d) * size == r;
    AtLeast(m - d, size);
  }

  lemma AtLeast(d: int, size: nat)
    ensures d >= 1 ==> d * size >= size
    ensures d <= -1 ==> d * size <= 0 - size
  {
  }

  /** The low 32 bits of a size in bytes, for sectors that divide them. */
  lemma LowBytes(count: nat, size: nat, m: nat)
    requires size * m == 0x1_0000_0000 && size > 0 && m > 0
    ensures Offset(count, size) % 0x1_0000_0000 == Offset(count % m, size)
    ensures count >= m ==> Offset(count, size) >= 0x1_0000_0000
  {
    var a, b := count / m, count % m;
    assert count == a * m + b;
    BytesOf(count, a, b, size, m);
    LowOf(a, Offset(b, size));
  }

  lemma BytesOf(count: nat, a: nat, b: nat, size: nat, m: nat)
    requires size * m == 0x1_0000_0000 && size > 0 && b < m && count == a * m + b
    ensures Offset(count, size) == a * 0x1_0000_0000 + Offset(b, size)
    ensures Offset(b, size) < 0x1_0000_0000
    ensures count >= m ==> a >= 1
  {
    OffsetIsProduct(count, size);
    OffsetIsProduct(b, size);
    Distribute(a, b, size, m);
    AtLeast(m - b, size);
    if a == 0 {
      assert count == b;
    }
  }

  lemma LowOf(a: nat, r: nat)
    requires r < 0x1_0000_0000
    ensures (a * 0x1_0000_0000 + r) % 0x1_0000_0000 == r
    ensures a >= 1 ==> a * 0x1_0000_0000 + r >= 0x1_0000_0000
  {
  }

  lemma Distribute(a: nat, b: nat, size: nat, m: nat)
    requires size * m == 0x1_0000_0000
    ensures (a * m + b) * size == a * 0x1_0000_0000 + b * size
    ensures (m - b) * size == 0x1_0000_0000 - b * size
  {
    assert (a * m) * size == a * (m * size);
  }
}
