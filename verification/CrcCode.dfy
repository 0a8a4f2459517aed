/** The packet test (main/protocol.c:97-122): a packet passes exactly when it is sealed with its
    own checksum, which is when the checksum over all of it is 0. */
module CrcCode {
  import opened Crc16

  /* ---- The packet test ---- */

  const CRC_INIT: Word := 0xFFFF
  const MIN_PACKET := 4

  function LowByte(crc: Word): Byte {
    (crc & 0xFF) as Byte
  }

  function HighByte(crc: Word): Byte {
    (crc >> 8) as Byte
  }

  // The checksum as sent: low byte first.
  function Trailer(crc: Word): (t: seq<Byte>)
    ensures |t| == 2
  {
    [LowByte(crc), HighByte(crc)]
  }

  function Sealed(packet: seq<Byte>): seq<Byte> {
    packet + Trailer(Crc(packet, CRC_INIT))
  }

  function FromTrailer(lo: Byte, hi: Byte): Word {
    (lo as Word) | ((hi as Word) << 8)
  }

  // 0: too short; 2: checksum mismatch; 1: valid.
  function Verdict(buff: seq<Byte>): nat {
    if |buff| < MIN_PACKET then 0
    else if Crc(buff[..|buff| - 2], CRC_INIT) != FromTrailer(buff[|buff| - 2], buff[|buff| - 1]) then 2
    else 1
  }

  predicate Accepted(buff: seq<Byte>) {
    Verdict(buff) == 1
  }

  method TestPacket(buff: array<Byte>, buffLen: nat) returns (r: nat)
    requires buffLen <= buff.Length
    ensures r == Verdict(buff[..buffLen])
  {
    hide Crc, FromTrailer;
    if buffLen < MIN_PACKET {
      return 0;
    }
    var calculated := ComputeCrc(buff, buffLen - 2, CRC_INIT);
    assert buff[..buffLen][..buffLen - 2] == buff[..buffLen - 2];
    var inBuff := FromTrailer(buff[buffLen - 2], buff[buffLen - 1]);
    if calculated != inBuff {
      return 2;
    }
    return 1;
  }

  /* ---- Residue: a whole accepted packet has checksum 0 ---- */

  lemma {:induction false} ShiftOfZero(n: nat)
    ensures Shift(n, 0) == 0
  {
    if n > 0 {
      ShiftOfZero(n - 1);
    }
  }

  lemma Shift1Injective(r: Word, q: Word)
    requires Shift1(r) == Shift1(q)
    ensures r == q
  {}

  lemma {:induction false} ShiftInjective(n: nat, r: Word, q: Word)
    requires Shift(n, r) == Shift(n, q)
    ensures r == q
  {
    hide Shift1;
    if n > 0 {
      ShiftInjective(n - 1, Shift1(r), Shift1(q));
      Shift1Injective(r, q);
    }
  }

  lemma TrailerIsFromTrailer(crc: Word)
    ensures FromTrailer(LowByte(crc), HighByte(crc)) == crc
  {}

  lemma FromTrailerInjective(lo: Byte, hi: Byte, lo': Byte, hi': Byte)
    requires FromTrailer(lo, hi) == FromTrailer(lo', hi')
    ensures lo == lo' && hi == hi'
  {}

  lemma ShiftTwice(n: nat, r: Word)
    requires Shift(n, Shift(n, r)) == 0
    ensures r == 0
  {
    hide Shift;
    ShiftOfZero(n);
    ShiftInjective(n, Shift(n, r), 0);
    ShiftInjective(n, r, 0);
  }

  // Feeding two bytes is xoring both into the register and shifting it out entirely.
  lemma TwoBytesShift(lo: Byte, hi: Byte, c: Word, low: Word, high: Word, all: Word)
    requires low == c ^ (lo as Word)
    requires high == (hi as Word) << 8
    requires all == low ^ high
    ensures Crc([lo, hi], c) == Shift(8, Shift(8, all))
  {
    hide Crc, Shift, LowBits, Lfsr, Narrow;
    var r := Lfsr(LowBits(lo as Word, 8), c);
    assert [lo, hi] == [lo] + [hi] && [hi] == [hi] + [];
    CrcFirst(lo, [hi], c);
    CrcFirst(hi, [], r);
    CrcOfNothing(Lfsr(LowBits(hi as Word, 8), r));
    EightBits(lo);
    EightBits(hi);
    LfsrLowBits(lo as Word, 8, c, low);
    HighWord(hi, high);
    ShiftLinear(8, low, high, all);
    LfsrLowBits(hi as Word, 8, r, Shift(8, all));
  }

  lemma HighWord(hi: Byte, high: Word)
    requires high == (hi as Word) << 8
    ensures Shift(8, high) == hi as Word
  {}

  lemma AllIsDifference(lo: Byte, hi: Byte, c: Word, low: Word, high: Word, all: Word, sent: Word)
    requires low == c ^ (lo as Word)
    requires high == (hi as Word) << 8
    requires all == low ^ high
    requires sent == FromTrailer(lo, hi)
    ensures all == c ^ sent
  {}

  lemma XorIsZero(r: Word, q: Word, s: Word)
    requires s == r ^ q
    ensures s == 0 <==> r == q
  {}

  lemma TwoBytes(lo: Byte, hi: Byte, c: Word)
    ensures Crc([lo, hi], c) == 0 <==> FromTrailer(lo, hi) == c
  {
    hide Crc, Shift, FromTrailer;
    var low, high := c ^ (lo as Word), (hi as Word) << 8;
    var all := low ^ high;
    TwoBytesShift(lo, hi, c, low, high, all);
    AllIsDifference(lo, hi, c, low, high, all, FromTrailer(lo, hi));
    XorIsZero(c, FromTrailer(lo, hi), all);
    if Crc([lo, hi], c) == 0 {
      ShiftTwice(8, all);
    } else if FromTrailer(lo, hi) == c {
      ShiftOfZero(8);
    }
  }

  // A packet is accepted exactly when the checksum over all of it, trailer included, is 0.
  lemma Residue(buff: seq<Byte>)
    requires |buff| >= MIN_PACKET
    ensures Accepted(buff) <==> Crc(buff, CRC_INIT) == 0
  {
    hide Crc, FromTrailer;
    var n := |buff| - 2;
    assert buff == buff[..n] + [buff[n], buff[n + 1]];
    CrcAppend(buff[..n], [buff[n], buff[n + 1]], CRC_INIT);
    TwoBytes(buff[n], buff[n + 1], Crc(buff[..n], CRC_INIT));
  }

  lemma SamePair(x: Byte, y: Byte, x': Byte, y': Byte)
    ensures [x, y] == [x', y'] <==> x == x' && y == y'
  {
    assert [x, y][0] == x && [x, y][1] == y;
    assert [x', y'][0] == x' && [x', y'][1] == y';
  }

  // The trailer bytes encode the checksum, and no other two bytes do.
  lemma TrailerUnique(lo: Byte, hi: Byte, crc: Word)
    ensures FromTrailer(lo, hi) == crc <==> [lo, hi] == Trailer(crc)
  {
    hide FromTrailer, LowByte, HighByte;
    TrailerIsFromTrailer(crc);
    if FromTrailer(lo, hi) == crc {
      FromTrailerInjective(lo, hi, LowByte(crc), HighByte(crc));
    }
    SamePair(lo, hi, LowByte(crc), HighByte(crc));
  }

  // Sealing is the only way to make a packet that is accepted.
  lemma AcceptedIsSealed(buff: seq<Byte>)
    requires |buff| >= MIN_PACKET
    ensures Accepted(buff) <==> buff == Sealed(buff[..|buff| - 2])
  {
    hide Crc, FromTrailer, Trailer;
    var n := |buff| - 2;
    var crc := Crc(buff[..n], CRC_INIT);
    assert buff == buff[..n] + [buff[n], buff[n + 1]];
    TrailerUnique(buff[n], buff[n + 1], crc);
    SameTail(buff[..n], [buff[n], buff[n + 1]], Trailer(crc));
  }

  // 0 says too short, 2 says not sealed; nothing else is said but 1.
  lemma VerdictMeaning(buff: seq<Byte>)
    ensures Verdict(buff) == 0 <==> |buff| < 4
    ensures Verdict(buff) == 2 <==> |buff| >= 4 && buff != Sealed(buff[..|buff| - 2])
    ensures Verdict(buff) == 1 <==> |buff| >= 4 && buff == Sealed(buff[..|buff| - 2])
  {
    hide Sealed, Crc, FromTrailer;
    if |buff| >= MIN_PACKET {
      AcceptedIsSealed(buff);
    }
  }

  lemma SameTail(p: seq<Byte>, t: seq<Byte>, u: seq<Byte>)
    ensures p + t == p + u <==> t == u
  {
    if p + t == p + u {
      assert t == (p + t)[|p|..] && u == (p + u)[|p|..];
    }
  }

  lemma SealedIsAccepted(packet: seq<Byte>)
    requires |packet| >= 2
    ensures Accepted(Sealed(packet))
  {
    hide Crc;
    assert Sealed(packet)[..|packet|] == packet;
    AcceptedIsSealed(Sealed(packet));
  }
}
