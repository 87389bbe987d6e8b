/** The transfer accounting that the controller and its devices share. */
module Transfers {

  function Min(a: int, b: int): (r: int)
    ensures a >= 0 && b >= 0 ==> r >= 0
  {
    if a < b then a else b
  }

  /** A 32-bit product as the program stores it in an int. */
  function AsInt(n: nat): (r: int)
    ensures n < 0x8000_0000 ==> r == n
    ensures r <= n
  {
    var low := n % 0x1_0000_0000;
    if low < 0x8000_0000 then low else low - 0x1_0000_0000
  }

  lemma IntIsLow(n: nat)
    ensures -0x8000_0000 <= AsInt(n) < 0x8000_0000 && (n - AsInt(n)) % 0x1_0000_0000 == 0
  {
  }

  class Transfer {
    var offset: int
    var remainingLength: int
    var currentLength: int
    var chunkSize: int
    /** The handshakes of bytes that have failed. */
    ghost var failures: nat
    /** The bytes that went over the bus. */
    ghost var exchanged: nat

    constructor ()
      ensures offset == remainingLength == currentLength == chunkSize == 0
    {
      offset, remainingLength, currentLength, chunkSize, failures, exchanged := 0, 0, 0, 0, 0, 0;
    }

    /** SendHandShake and ReceiveHandShake of the controller: the bytes that were moved, until a handshake
        fails. Nothing is moved for a negative count. */
    method HandShake(count: int) returns (moved: nat)
      modifies this`failures, this`exchanged
      ensures moved <= if count < 0 then 0 else count
      ensures failures == old(failures) + if moved < count then 1 else 0
      ensures exchanged == old(exchanged) + moved
    {
      moved := 0;
      while moved < count
        invariant moved <= if count < 0 then 0 else count
        invariant failures == old(failures) && exchanged == old(exchanged) + moved
      {
        var ack := *;
        if !ack {
          failures := failures + 1;
          break;
        }
        moved, exchanged := moved + 1, exchanged + 1;
      }
    }

    method SetCurrentLength(length: int)
      modifies this`currentLength
      ensures currentLength == length
    {
      currentLength := length;
    }

    /** The total number of bytes of a command, and how many of them are moved at a time. */
    method SetTransferSize(length: int, size: int)
      modifies this`remainingLength, this`chunkSize
      ensures remainingLength == length
      ensures chunkSize == if length < size then length else size
    {
      remainingLength := length;
      chunkSize := if length < size then length else size;
    }

    method UpdateTransferLength(length: int)
      modifies this`remainingLength, this`chunkSize
      ensures remainingLength == if old(remainingLength) < length then 0 else old(remainingLength) - length
      ensures chunkSize == if remainingLength < old(chunkSize) then remainingLength else old(chunkSize)
    {
      remainingLength := remainingLength - length;
      if remainingLength < 0 {
        remainingLength := 0;
      }
      if remainingLength < chunkSize {
        chunkSize := remainingLength;
      }
    }

    method UpdateOffsetAndLength()
      modifies this`offset, this`currentLength
      ensures offset == old(offset) + old(currentLength) && currentLength == 0
    {
      offset := offset + currentLength;
      currentLength := 0;
    }

    /** A chunk has gone to the initiator. */
    method ChunkSent()
      modifies this`offset, this`remainingLength, this`currentLength, this`chunkSize
      ensures remainingLength
           == if old(remainingLength) < old(chunkSize) then 0 else old(remainingLength) - old(chunkSize)
      ensures chunkSize == if remainingLength < old(chunkSize) then remainingLength else old(chunkSize)
    {
      UpdateOffsetAndLength();
      UpdateTransferLength(chunkSize);
    }

    method ResetOffset()
      modifies this`offset
      ensures offset == 0
    {
      offset := 0;
    }
  }
}
