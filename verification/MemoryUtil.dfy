/** Big-endian numbers in byte buffers. */
module MemoryUtil {
  import opened ImageFiles

  function GetInt16(b: Bytes, offset: nat): (n: nat)
    requires offset + 2 <= |b|
    ensures n < 0x1_0000
  {
    b[offset] as int * 0x100 + b[offset + 1] as int
  }

  function GetInt24(b: Bytes, offset: nat): (n: nat)
    requires offset + 3 <= |b|
    ensures n < 0x100_0000
  {
    b[offset] as int * 0x1_0000 + GetInt16(b, offset + 1)
  }

  function GetInt32(b: Bytes, offset: nat): (n: nat)
    requires offset + 4 <= |b|
    ensures n < 0x1_0000_0000
  {
    GetInt16(b, offset) * 0x1_0000 + GetInt16(b, offset + 2)
  }

  function GetInt64(b: Bytes, offset: nat): (n: nat)
    requires offset + 8 <= |b|
    ensures n < 0x1_0000_0000_0000_0000
  {
    GetInt32(b, offset) * 0x1_0000_0000 + GetInt32(b, offset + 4)
  }

  /** The number whose bytes are given, the highest one first. */
  function FromBigEndian(b: Bytes): nat {
    if b == [] then 0 else FromBigEndian(b[..|b| - 1]) * 0x100 + b[|b| - 1] as nat
  }

  /** The bytes that an initiator stores for a number. */
  function ToBigEndian(n: nat, size: nat): (b: Bytes)
    ensures |b| == size
  {
    if size == 0 then [] else ToBigEndian(n / 0x100, size - 1) + [(n % 0x100) as byte]
  }

  function Power(size: nat): (p: nat)
    ensures p > 0
  {
    if size == 0 then 1 else Power(size - 1) * 0x100
  }

  lemma {:induction false} BigEndianRoundTrip(n: nat, size: nat)
    requires n < Power(size)
    ensures FromBigEndian(ToBigEndian(n, size)) == n
  {
    if size > 0 {
      BigEndianRoundTrip(n / 0x100, size - 1);
      var b := ToBigEndian(n, size);
      assert b[..size - 1] == ToBigEndian(n / 0x100, size - 1);
    }
  }

  lemma FromBigEndianNext(b: Bytes, i: nat, n: nat)
    requires n > 0 && i + n <= |b|
    ensures FromBigEndian(b[i..i + n]) == FromBigEndian(b[i..i + n - 1]) * 0x100 + b[i + n - 1] as nat
  {
    assert b[i..i + n][..n - 1] == b[i..i + n - 1];
  }

  lemma ByteIsNumber(b: Bytes, i: nat)
    requires i < |b|
    ensures FromBigEndian(b[i..i + 1]) == b[i] as nat
  {
    FromBigEndianNext(b, i, 1);
    assert b[i..i] == [];
  }

  lemma WordIsNumber(b: Bytes, i: nat)
    requires i + 2 <= |b|
    ensures FromBigEndian(b[i..i + 2]) == GetInt16(b, i)
  {
    ByteIsNumber(b, i);
    FromBigEndianNext(b, i, 2);
    hide FromBigEndian;
  }

  lemma LongIsNumber(b: Bytes, i: nat)
    requires i + 4 <= |b|
    ensures FromBigEndian(b[i..i + 4]) == GetInt32(b, i)
  {
    WordIsNumber(b, i);
    FromBigEndianNext(b, i, 3);
    FromBigEndianNext(b, i, 4);
    hide FromBigEndian;
  }

  /** The getters read numbers whose highest byte comes first. */
  lemma FieldIsNumber(b: Bytes, i: nat)
    ensures i + 2 <= |b| ==> GetInt16(b, i) == FromBigEndian(b[i..i + 2])
    ensures i + 3 <= |b| ==> GetInt24(b, i) == FromBigEndian(b[i..i + 3])
    ensures i + 4 <= |b| ==> GetInt32(b, i) == FromBigEndian(b[i..i + 4])
    ensures i + 8 <= |b| ==> GetInt64(b, i) == FromBigEndian(b[i..i + 8])
  {
    if i + 2 <= |b| {
      WordIsNumber(b, i);
    }
    if i + 3 <= |b| {
      TripleIsNumber(b, i);
    }
    if i + 4 <= |b| {
      LongIsNumber(b, i);
    }
    if i + 8 <= |b| {
      QuadIsNumber(b, i);
    }
    hide FromBigEndian, GetInt16, GetInt24, GetInt32, GetInt64;
  }

  lemma TripleIsNumber(b: Bytes, i: nat)
    requires i + 3 <= |b|
    ensures FromBigEndian(b[i..i + 3]) == GetInt24(b, i)
  {
    WordIsNumber(b, i);
    FromBigEndianNext(b, i, 3);
    hide FromBigEndian;
  }

  lemma QuadIsNumber(b: Bytes, i: nat)
    requires i + 8 <= |b|
    ensures FromBigEndian(b[i..i + 8]) == GetInt64(b, i)
  {
    LongIsNumber(b, i);
    FromBigEndianNext(b, i, 5);
    FromBigEndianNext(b, i, 6);
    FromBigEndianNext(b, i, 7);
    FromBigEndianNext(b, i, 8);
    hide FromBigEndian;
  }

  /** Everything but some bytes is what it was. */
  predicate SameOutside(a: Bytes, b: Bytes, offset: nat, size: nat) {
    |a| == |b| && forall k :: 0 <= k < |a| && !(offset <= k < offset + size) ==> a[k] == b[k]
  }

  // The setters store as many low-order bytes of a number as they have room for.

  method SetInt16(buf: array<byte>, offset: nat, value: nat)
    requires offset + 2 <= buf.Length
    modifies buf
    ensures GetInt16(buf[..], offset) == value % 0x1_0000 && SameOutside(buf[..], old(buf[..]), offset, 2)
  {
    Bytes16(value);
    buf[offset] := (value / 0x100 % 0x100) as byte;
    buf[offset + 1] := (value % 0x100) as byte;
  }

  method SetInt24(buf: array<byte>, offset: nat, value: nat)
    requires offset + 3 <= buf.Length
    modifies buf
    ensures GetInt24(buf[..], offset) == value % 0x100_0000 && SameOutside(buf[..], old(buf[..]), offset, 3)
  {
    Bytes24(value);
    buf[offset] := (value / 0x1_0000 % 0x100) as byte;
    SetInt16(buf, offset + 1, value);
  }

  method SetInt32(buf: array<byte>, offset: nat, value: nat)
    requires offset + 4 <= buf.Length
    modifies buf
    ensures GetInt32(buf[..], offset) == value % 0x1_0000_0000 && SameOutside(buf[..], old(buf[..]), offset, 4)
  {
    Bytes32(value);
    SetInt16(buf, offset, value / 0x1_0000);
    SetInt16(buf, offset + 2, value);
  }

  method SetInt64(buf: array<byte>, offset: nat, value: nat)
    requires offset + 8 <= buf.Length
    modifies buf
    ensures GetInt64(buf[..], offset) == value % 0x1_0000_0000_0000_0000
            && SameOutside(buf[..], old(buf[..]), offset, 8)
  {
    Bytes64(value);
    SetInt32(buf, offset, value / 0x1_0000_0000);
    SetInt32(buf, offset + 4, value);
  }

  lemma Bytes16(value: nat)
    ensures value / 0x100 % 0x100 * 0x100 + value % 0x100 == value % 0x1_0000
  {
  }

  lemma Bytes24(value: nat)
    ensures value / 0x1_0000 % 0x100 * 0x1_0000 + value % 0x1_0000 == value % 0x100_0000
  {
  }

  lemma Bytes32(value: nat)
    ensures value / 0x1_0000 % 0x1_0000 * 0x1_0000 + value % 0x1_0000 == value % 0x1_0000_0000
  {
  }

  lemma Bytes64(value: nat)
    ensures value / 0x1_0000_0000 % 0x1_0000_0000 * 0x1_0000_0000 + value % 0x1_0000_0000
         == value % 0x1_0000_0000_0000_0000
  {
  }

  /** A number outside the changed bytes is what it was. */
  lemma Kept(a: Bytes, b: Bytes, offset: nat, size: nat, at: nat)
    requires SameOutside(a, b, offset, size)
    ensures at + 2 <= |a| && (at + 2 <= offset || offset + size <= at) ==> GetInt16(a, at) == GetInt16(b, at)
    ensures at + 3 <= |a| && (at + 3 <= offset || offset + size <= at) ==> GetInt24(a, at) == GetInt24(b, at)
    ensures at + 4 <= |a| && (at + 4 <= offset || offset + size <= at) ==> GetInt32(a, at) == GetInt32(b, at)
    ensures at + 8 <= |a| && (at + 8 <= offset || offset + size <= at) ==> GetInt64(a, at) == GetInt64(b, at)
  {
  }
}
