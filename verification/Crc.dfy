/** The Ethernet frame check sequence: CRC-32 computed bit by bit, without a table. */
module Crc {

  type Frame = seq<bv8>

  const RESIDUE: bv32 := 0x2144_DF1C

  function Add(x: bv32, y: bv32): bv32 {
    x ^ y
  }

  /** One bit of the division: the polynomial is added when the bit that leaves the register is set. */
  function Shift(c: bv32): bv32 {
    if Odd(c) then Add(Half(c), 0xEDB8_8320) else Half(c)
  }

  predicate Odd(c: bv32) {
    c & 1 == 1
  }

  function Half(c: bv32): bv32 {
    c >> 1
  }

  function Shifts(c: bv32, n: nat): bv32 {
    if n == 0 then c else Shift(Shifts(c, n - 1))
  }

  function Octet(c: bv32): bv32 {
    Shift(Shift(Shift(Shift(Shift(Shift(Shift(Shift(c))))))))
  }

  /** The register after a frame, starting from c. */
  function Register(c: bv32, frame: Frame): bv32 {
    if frame == [] then c else Octet(Add(Register(c, frame[..|frame| - 1]), frame[|frame| - 1] as bv32))
  }

  function Not(c: bv32): bv32 {
    !c
  }

  function Checksum(frame: Frame): bv32 {
    Not(Register(0xFFFF_FFFF, frame))
  }

  /** The loop body of the program, which selects the polynomial with a mask. */
  function ShiftByMask(c: bv32): (r: bv32)
    ensures r == Shift(c)
  {
    var mask: bv32 := if c & 1 == 1 then 0xFFFF_FFFF else 0;
    (c >> 1) ^ (0xEDB8_8320 & mask)
  }

  method Crc32(data: Frame) returns (r: bv32)
    ensures r == Checksum(data)
  {
    hide Shift, ShiftByMask, Octet, Add, Not;
    var crc: bv32 := 0xFFFF_FFFF;
    for k := 0 to |data|
      invariant crc == Register(0xFFFF_FFFF, data[..k])
    {
      assert data[..k + 1][..k] == data[..k];
      crc := Add(crc, data[k] as bv32);
      ghost var start := crc;
      for i := 0 to 8
        invariant crc == Shifts(start, i)
      {
        crc := ShiftByMask(crc);
      }
      EightShifts(start);
    }
    assert data[..|data|] == data;
    return Not(crc);
  }

  lemma EightShifts(c: bv32)
    ensures Shifts(c, 8) == Octet(c)
  {
    hide Shift;
    calc {
      Shifts(c, 8);
      Shift(Shifts(c, 7));
      Shift(Shift(Shifts(c, 6)));
      Shift(Shift(Shift(Shifts(c, 5))));
      Shift(Shift(Shift(Shift(Shifts(c, 4)))));
      Shift(Shift(Shift(Shift(Shift(Shifts(c, 3))))));
      Shift(Shift(Shift(Shift(Shift(Shift(Shifts(c, 2)))))));
      Shift(Shift(Shift(Shift(Shift(Shift(Shift(Shifts(c, 1))))))));
    }
    assert Shifts(c, 1) == Shift(c);
  }

  // The register is linear, and eight shifts of a word with a clear low octet only move it.

  lemma HalfLinear(x: bv32, y: bv32)
    ensures Odd(Add(x, y)) <==> Odd(x) != Odd(y)
    ensures Half(Add(x, y)) == Add(Half(x), Half(y))
  {
  }

  lemma AddAssociative(a: bv32, b: bv32, p: bv32)
    ensures Add(a, Add(b, p)) == Add(Add(a, b), p)
  {
  }

  lemma AddCommutes(a: bv32, b: bv32)
    ensures Add(a, b) == Add(b, a)
  {
  }

  lemma AddCancels(a: bv32, p: bv32)
    ensures Add(Add(a, p), p) == a
  {
  }

  lemma ShiftLinear(x: bv32, y: bv32)
    ensures Shift(Add(x, y)) == Add(Shift(x), Shift(y))
  {
    hide Add, Half, Odd;
    HalfLinear(x, y);
    var a, b, p: bv32 := Half(x), Half(y), 0xEDB8_8320;
    AddAssociative(a, b, p);
    AddAssociative(b, a, p);
    AddCommutes(a, b);
    AddCommutes(Add(a, p), b);
    AddAssociative(Add(a, p), b, p);
    AddCancels(Add(a, b), p);
  }

  lemma OctetLinear(x: bv32, y: bv32)
    ensures Octet(Add(x, y)) == Add(Octet(x), Octet(y))
  {
    hide Shift, Add;
    var x1, y1 := Shift(x), Shift(y);
    var x2, y2 := Shift(x1), Shift(y1);
    var x3, y3 := Shift(x2), Shift(y2);
    var x4, y4 := Shift(x3), Shift(y3);
    var x5, y5 := Shift(x4), Shift(y4);
    var x6, y6 := Shift(x5), Shift(y5);
    var x7, y7 := Shift(x6), Shift(y6);
    ShiftLinear(x, y);
    ShiftLinear(x1, y1);
    ShiftLinear(x2, y2);
    ShiftLinear(x3, y3);
    ShiftLinear(x4, y4);
    ShiftLinear(x5, y5);
    ShiftLinear(x6, y6);
    ShiftLinear(x7, y7);
  }

  lemma OctetMoves(y: bv32)
    requires y & 0xFF == 0
    ensures Octet(y) == y >> 8
  {
  }

  function Unshift(c: bv32): bv32 {
    if c & 0x8000_0000 != 0 then ((c ^ 0xEDB8_8320) << 1) | 1 else c << 1
  }

  lemma ShiftInvertible(c: bv32)
    ensures Unshift(Shift(c)) == c
  {
  }

  lemma ShiftInjective(x: bv32, y: bv32)
    requires Shift(x) == Shift(y)
    ensures x == y
  {
    hide Shift, Unshift;
    ShiftInvertible(x);
    ShiftInvertible(y);
  }

  lemma OctetInjective(x: bv32, y: bv32)
    requires Octet(x) == Octet(y)
    ensures x == y
  {
    hide Shift;
    var x1, y1 := Shift(x), Shift(y);
    var x2, y2 := Shift(x1), Shift(y1);
    var x3, y3 := Shift(x2), Shift(y2);
    var x4, y4 := Shift(x3), Shift(y3);
    var x5, y5 := Shift(x4), Shift(y4);
    var x6, y6 := Shift(x5), Shift(y5);
    var x7, y7 := Shift(x6), Shift(y6);
    ShiftInjective(x7, y7);
    ShiftInjective(x6, y6);
    ShiftInjective(x5, y5);
    ShiftInjective(x4, y4);
    ShiftInjective(x3, y3);
    ShiftInjective(x2, y2);
    ShiftInjective(x1, y1);
    ShiftInjective(x, y);
  }

  // Four octets act on the register like one word.

  /** An octet moved up by n octets. */
  function Lift(b: bv8, n: nat): bv32
    requires n < 4
  {
    match n
    case 0 => b as bv32
    case 1 => (b as bv32) << 8
    case 2 => (b as bv32) << 16
    case 3 => (b as bv32) << 24
  }

  function Word(t: Frame): bv32
    requires |t| == 4
  {
    Add(Add(Add(Lift(t[0], 0), Lift(t[1], 1)), Lift(t[2], 2)), Lift(t[3], 3))
  }

  function Octets(c: bv32): bv32 {
    Octet(Octet(Octet(Octet(c))))
  }

  lemma MovesDown(b: bv8)
    ensures Octet(Lift(b, 1)) == Lift(b, 0) && Octet(Lift(b, 2)) == Lift(b, 1) && Octet(Lift(b, 3)) == Lift(b, 2)
  {
    hide Octet;
    var c, c8, c16, c24 := Lift(b, 0), Lift(b, 1), Lift(b, 2), Lift(b, 3);
    assert c8 & 0xFF == 0 && c16 & 0xFF == 0 && c24 & 0xFF == 0;
    assert c8 >> 8 == c && c16 >> 8 == c8 && c24 >> 8 == c16;
    OctetMoves(c8);
    OctetMoves(c16);
    OctetMoves(c24);
  }

  /** Adding an octet after one, two or three rounds is adding it, moved up, before them. */
  lemma AddLater(u: bv32, b: bv8)
    ensures Octet(Add(u, Lift(b, 1))) == Add(Octet(u), Lift(b, 0))
    ensures Octet(Octet(Add(u, Lift(b, 2)))) == Add(Octet(Octet(u)), Lift(b, 0))
    ensures Octet(Octet(Octet(Add(u, Lift(b, 3))))) == Add(Octet(Octet(Octet(u))), Lift(b, 0))
  {
    hide Octet, Add, Lift;
    MovesDown(b);
    OctetLinear(u, Lift(b, 1));
    OctetLinear(u, Lift(b, 2));
    OctetLinear(Octet(u), Lift(b, 1));
    OctetLinear(u, Lift(b, 3));
    OctetLinear(Octet(u), Lift(b, 2));
    OctetLinear(Octet(Octet(u)), Lift(b, 1));
  }

  lemma AddWord(s: bv32, a: bv32, b: bv32, c: bv32, d: bv32)
    ensures Add(s, Add(Add(Add(a, b), c), d)) == Add(Add(Add(Add(s, a), b), c), d)
  {
    hide Add;
    AddAssociative(s, Add(Add(a, b), c), d);
    AddAssociative(s, Add(a, b), c);
    AddAssociative(s, a, b);
  }

  lemma RegisterTake(s: bv32, frame: Frame, k: nat)
    requires k < |frame|
    ensures Register(s, frame[..k + 1]) == Octet(Add(Register(s, frame[..k]), Lift(frame[k], 0)))
  {
    hide Octet, Add;
    assert frame[..k + 1][..k] == frame[..k];
  }

  function Feed(c: bv32, t: Frame): bv32
    requires |t| == 4
  {
    Octet(Add(Octet(Add(Octet(Add(Octet(Add(c, Lift(t[0], 0))), Lift(t[1], 0))), Lift(t[2], 0))), Lift(t[3], 0)))
  }

  lemma FeedIs(c: bv32, t: Frame)
    requires |t| == 4
    ensures Feed(c, t)
         == Octet(Add(Octet(Add(Octet(Add(Octet(Add(c, Lift(t[0], 0))), Lift(t[1], 0))), Lift(t[2], 0))),
                      Lift(t[3], 0)))
  {
  }

  lemma RegisterStart(c: bv32, frame: Frame)
    ensures Register(c, frame[..0]) == c
  {
  }

  lemma RegisterFour(s: bv32, t: Frame)
    requires |t| == 4
    ensures Register(s, t) == Feed(s, t)
  {
    hide *;
    RegisterStart(s, t);
    FeedIs(s, t);
    RegisterTake(s, t, 0);
    RegisterTake(s, t, 1);
    RegisterTake(s, t, 2);
    RegisterTake(s, t, 3);
    assert t[..4] == t;
  }

  lemma FeedIsWord(s: bv32, t: Frame)
    requires |t| == 4
    ensures Feed(s, t) == Octets(Add(s, Word(t)))
  {
    hide Octet, Add, Lift;
    var u0 := Add(s, Lift(t[0], 0));
    var u1 := Add(u0, Lift(t[1], 1));
    var u2 := Add(u1, Lift(t[2], 2));
    AddLater(u0, t[1]);
    AddLater(u1, t[2]);
    AddLater(u2, t[3]);
    AddWord(s, Lift(t[0], 0), Lift(t[1], 1), Lift(t[2], 2), Lift(t[3], 3));
  }

  lemma FourOctets(s: bv32, t: Frame)
    requires |t| == 4
    ensures Register(s, t) == Octets(Add(s, Word(t)))
  {
    hide Feed, Octets, Add, Word, Register;
    RegisterFour(s, t);
    FeedIsWord(s, t);
  }

  lemma OctetsInjective(x: bv32, y: bv32)
    requires Octets(x) == Octets(y)
    ensures x == y
  {
    hide Octet;
    OctetInjective(Octet(Octet(Octet(x))), Octet(Octet(Octet(y))));
    OctetInjective(Octet(Octet(x)), Octet(Octet(y)));
    OctetInjective(Octet(x), Octet(y));
    OctetInjective(x, y);
  }

  lemma {:induction false} RegisterConcat(s: bv32, a: Frame, b: Frame)
    ensures Register(s, a + b) == Register(Register(s, a), b)
  {
    hide Octet, Add;
    if b == [] {
      assert a + b == a;
    } else {
      var b' := b[..|b| - 1];
      RegisterConcat(s, a, b');
      assert (a + b)[..|a + b| - 1] == a + b';
      assert (a + b)[|a + b| - 1] == b[|b| - 1];
    }
  }

  /** The four octets of a word, least significant first, as they are appended to a frame. */
  function LittleEndian(c: bv32): (r: Frame)
    ensures |r| == 4
  {
    [(c & 0xFF) as bv8, ((c >> 8) & 0xFF) as bv8, ((c >> 16) & 0xFF) as bv8, ((c >> 24) & 0xFF) as bv8]
  }

  lemma WordOfLittleEndian(c: bv32)
    ensures Word(LittleEndian(c)) == c
  {
  }

  lemma LittleEndianOfWord(t: Frame)
    requires |t| == 4
    ensures LittleEndian(Word(t)) == t
  {
  }

  lemma OnesRegister()
    ensures Octets(0xFFFF_FFFF) == 0xDEBB_20E3
  {
    assert Octet(0xFFFF_FFFF) == 0x2DFD_1072;
    assert Octet(0x2DFD_1072) == 0xBE26_ED00;
    assert Octet(0xBE26_ED00) == 0x00BE_26ED;
    assert Octet(0x00BE_26ED) == 0xDEBB_20E3;
    hide Octet;
  }

  lemma AddComplement(r: bv32)
    ensures Add(r, Not(r)) == 0xFFFF_FFFF
  {
  }

  lemma AddOnes(r: bv32)
    ensures Add(0xFFFF_FFFF, r) == Not(r)
  {
  }

  lemma Complement(r: bv32, w: bv32)
    ensures Add(r, w) == 0xFFFF_FFFF <==> w == Not(r)
  {
    hide Add, Not;
    AddComplement(r);
    AddOnes(r);
    AddCommutes(r, w);
    AddCancels(w, r);
  }

  lemma NotOfResidue(r: bv32)
    ensures Not(r) == RESIDUE <==> r == 0xDEBB_20E3
  {
  }

  lemma NotInjective(x: bv32, y: bv32)
    requires Not(x) == Not(y)
    ensures x == y
  {
    hide Not;
    NotTwice(x);
    NotTwice(y);
  }

  lemma NotTwice(x: bv32)
    ensures Not(Not(x)) == x
  {
  }

  /** A frame followed by four octets has the fixed residue exactly if these octets are its
      checksum, least significant octet first: a receiver that looks for the residue accepts the
      frame with its own check sequence and with no other. */
  lemma ResidueAcceptsOnlyTheChecksum(frame: Frame, t: Frame)
    requires |t| == 4
    ensures Checksum(frame + t) == RESIDUE <==> t == LittleEndian(Checksum(frame))
  {
    hide Octet, Add, Lift, LittleEndian, Register, Word, Not, Octets;
    var r, w := Register(0xFFFF_FFFF, frame), Word(t);
    RegisterConcat(0xFFFF_FFFF, frame, t);
    FourOctets(r, t);
    NotOfResidue(Octets(Add(r, w)));
    OnesRegister();
    if Octets(Add(r, w)) == 0xDEBB_20E3 {
      OctetsInjective(Add(r, w), 0xFFFF_FFFF);
    }
    Complement(r, w);
    LittleEndianOfWord(t);
    WordOfLittleEndian(Checksum(frame));
  }

  /** Different register contents stay different however the frame goes on. */
  lemma {:induction false} RegisterInjective(x: bv32, y: bv32, frame: Frame)
    requires Register(x, frame) == Register(y, frame)
    ensures x == y
  {
    hide Octet, Add;
    if frame != [] {
      var n := |frame| - 1;
      var rx, ry, b := Register(x, frame[..n]), Register(y, frame[..n]), frame[n] as bv32;
      OctetInjective(Add(rx, b), Add(ry, b));
      AddCancels(rx, b);
      AddCancels(ry, b);
      RegisterInjective(x, y, frame[..n]);
    }
  }

  lemma FourOctetsInjective(s: bv32, a: Frame, b: Frame)
    requires |a| == |b| == 4 && Register(s, a) == Register(s, b)
    ensures a == b
  {
    hide Octet, Add, Lift, LittleEndian, Register, Word;
    var v, w := Word(a), Word(b);
    FourOctets(s, a);
    FourOctets(s, b);
    OctetsInjective(Add(s, v), Add(s, w));
    AddCommutes(s, v);
    AddCommutes(s, w);
    AddCancels(v, s);
    AddCancels(w, s);
    LittleEndianOfWord(a);
    LittleEndianOfWord(b);
  }

  lemma ShortInjective(s: bv32, a: Frame, b: Frame)
    requires |a| == |b| <= 4 && Register(s, a) == Register(s, b)
    ensures a == b
  {
    hide Octet, Add, Register;
    var pad: Frame := seq(4 - |a|, _ => 0);
    RegisterConcat(s, a, pad);
    RegisterConcat(s, b, pad);
    FourOctetsInjective(s, a + pad, b + pad);
    assert a == (a + pad)[..|a|] && b == (b + pad)[..|b|];
  }

  /** Every error burst within four consecutive octets changes the checksum. */
  lemma BurstDetected(a: Frame, b: Frame, k: nat)
    requires |a| == |b| && a != b
    requires forall i :: 0 <= i < |a| && !(k <= i < k + 4) ==> a[i] == b[i]
    ensures Checksum(a) != Checksum(b)
  {
    hide Octet, Add, Register, Not;
    var lo := if k < |a| then k else |a|;
    var hi := if k + 4 < |a| then k + 4 else |a|;
    var p, x, y, q := a[..lo], a[lo..hi], b[lo..hi], a[hi..];
    assert b[..lo] == p && b[hi..] == q;
    assert a == p + x + q && b == p + y + q;
    if Checksum(a) == Checksum(b) {
      var s := Register(0xFFFF_FFFF, p);
      RegisterConcat(0xFFFF_FFFF, p + x, q);
      RegisterConcat(0xFFFF_FFFF, p, x);
      RegisterConcat(0xFFFF_FFFF, p + y, q);
      RegisterConcat(0xFFFF_FFFF, p, y);
      NotInjective(Register(0xFFFF_FFFF, a), Register(0xFFFF_FFFF, b));
      RegisterInjective(Register(s, x), Register(s, y), q);
      ShortInjective(s, x, y);
    }
  }

  method StoreFour(buf: array<bv8>, at: nat, bytes: seq<bv8>)
    requires at + 4 <= buf.Length && |bytes| == 4
    modifies buf
    ensures buf[..at] == old(buf[..at]) && buf[at..at + 4] == bytes && buf[at + 4..] == old(buf[at + 4..])
  {
    buf[at], buf[at + 1], buf[at + 2], buf[at + 3] := bytes[0], bytes[1], bytes[2], bytes[3];
  }

  /** Adds the check sequence that the network stack has stripped from a received frame. */
  method AppendCheckSequence(buf: array<bv8>, received: nat) returns (total: nat)
    requires received + 4 <= buf.Length
    modifies buf
    ensures received == 0 ==> total == 0 && buf[..] == old(buf[..])
    ensures received > 0 ==>
              && total == received + 4
              && buf[..total] == old(buf[..received]) + LittleEndian(Checksum(old(buf[..received])))
              && buf[total..] == old(buf[total..])
  {
    total := received;
    if received > 0 {
      hide LittleEndian, Checksum;
      var crc := Crc32(buf[..received]);
      var fcs := LittleEndian(crc);
      StoreFour(buf, received, fcs);
      total := received + 4;
      assert buf[..total] == buf[..received] + buf[received..total];
    }
  }

  // The definition of section 3.2.9 of IEEE 802.3

  function Complemented(t: Frame): (r: Frame)
    ensures |r| == |t|
  {
    seq(|t|, k requires 0 <= k < |t| => !t[k])
  }

  lemma LiftedComplement(b: bv8)
    ensures Lift(!b, 0) == Add(Lift(b, 0), 0xFF) && Lift(!b, 1) == Add(Lift(b, 1), 0xFF00)
    ensures Lift(!b, 2) == Add(Lift(b, 2), 0xFF_0000) && Lift(!b, 3) == Add(Lift(b, 3), 0xFF00_0000)
  {
  }

  lemma AddMasks(a: bv32, b: bv32, c: bv32, d: bv32)
    ensures Add(0xFFFF_FFFF, Add(Add(Add(a, b), c), d))
         == Add(0, Add(Add(Add(Add(a, 0xFF), Add(b, 0xFF00)), Add(c, 0xFF_0000)), Add(d, 0xFF00_0000)))
  {
  }

  lemma ComplementedWord(t: Frame)
    requires |t| == 4
    ensures Add(0xFFFF_FFFF, Word(t)) == Add(0, Word(Complemented(t)))
  {
    hide Lift, Add;
    LiftedComplement(t[0]);
    LiftedComplement(t[1]);
    LiftedComplement(t[2]);
    LiftedComplement(t[3]);
    AddMasks(Lift(t[0], 0), Lift(t[1], 1), Lift(t[2], 2), Lift(t[3], 3));
  }

  /** The first 32 bits of a frame are complemented, the frame is divided from a register that is clear, and the
      remainder is complemented. */
  lemma FirstBitsAreComplemented(a: Frame, b: Frame)
    requires |a| == 4
    ensures Checksum(a + b) == !Register(0, Complemented(a) + b)
  {
    RegisterConcat(0xFFFF_FFFF, a, b);
    RegisterConcat(0, Complemented(a), b);
    FourOctets(0xFFFF_FFFF, a);
    FourOctets(0, Complemented(a));
    ComplementedWord(a);
    hide Register, Octets, Word, Add, Complemented;
  }

  lemma NoOctets()
    ensures Checksum([]) == 0
  {
  }

  /** The check value: the checksum of the characters 1 to 9. */
  lemma CheckValue()
    ensures Checksum([0x31, 0x32, 0x33, 0x34, 0x35, 0x36, 0x37, 0x38, 0x39]) == 0xCBF4_3926
  {
    OctetValues();
    hide Octet, Register;
    var frame: Frame := [0x31, 0x32, 0x33, 0x34, 0x35, 0x36, 0x37, 0x38, 0x39];
    RegisterStart(0xFFFF_FFFF, frame);
    TakeOctet(frame, 0, 0xFFFF_FFFF, 0x7C23_1048);
    TakeOctet(frame, 1, 0x7C23_1048, 0xB0AC_BB32);
    TakeOctet(frame, 2, 0xB0AC_BB32, 0x77B7_9C2D);
    TakeOctet(frame, 3, 0x77B7_9C2D, 0x641C_1F5C);
    TakeOctet(frame, 4, 0x641C_1F5C, 0x340A_C5E3);
    TakeOctet(frame, 5, 0x340A_C5E3, 0xF68D_2C9E);
    TakeOctet(frame, 6, 0xF68D_2C9E, 0xAFFC_9660);
    TakeOctet(frame, 7, 0xAFFC_9660, 0x651F_2550);
    TakeOctet(frame, 8, 0x651F_2550, 0x340B_C6D9);
    assert frame[..9] == frame;
  }

  lemma TakeOctet(frame: Frame, k: nat, r: bv32, next: bv32)
    requires k < |frame| && Register(0xFFFF_FFFF, frame[..k]) == r && Octet(r ^ (frame[k] as bv32)) == next
    ensures Register(0xFFFF_FFFF, frame[..k + 1]) == next
  {
    RegisterTake(0xFFFF_FFFF, frame, k);
    hide Register, Octet;
  }

  lemma OctetValues()
    ensures Octet(0xFFFF_FFCE) == 0x7C23_1048
    ensures Octet(0x7C23_107A) == 0xB0AC_BB32
    ensures Octet(0xB0AC_BB01) == 0x77B7_9C2D
    ensures Octet(0x77B7_9C19) == 0x641C_1F5C
    ensures Octet(0x641C_1F69) == 0x340A_C5E3
    ensures Octet(0x340A_C5D5) == 0xF68D_2C9E
    ensures Octet(0xF68D_2CA9) == 0xAFFC_9660
    ensures Octet(0xAFFC_9658) == 0x651F_2550
    ensures Octet(0x651F_2569) == 0x340B_C6D9
  {
  }
}
