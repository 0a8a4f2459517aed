/** The CRC-16 of the link layer (main/protocol.c:46-94): a table-driven loop, proved equal
    to the bit-serial shift register that defines the checksum. */
module Crc16 {
  type Byte = bv8
  type Word = bv16

  /* ---- Definition: a bit-serial shift register ---- */

  // One shift by the reflected polynomial x^16 + x^15 + x^2 + 1.
  function Shift1(r: Word): Word {
    (r >> 1) ^ (0xA001 * (r & 1))
  }

  function Feed(r: Word, bit: bool): Word {
    Shift1(r ^ (if bit then 1 else 0))
  }

  function Lfsr(bits: seq<bool>, r: Word): Word {
    if bits == [] then r else Lfsr(bits[1..], Feed(r, bits[0]))
  }

  // The low n bits of v, least significant first.
  function LowBits(v: Word, n: nat): (bits: seq<bool>)
    ensures |bits| == n
    decreases n
  {
    if n == 0 then [] else [v & 1 == 1] + LowBits(v >> 1, n - 1)
  }

  function Bits(data: seq<Byte>): (bits: seq<bool>)
    ensures |bits| == 8 * |data|
  {
    if data == [] then [] else LowBits(data[0] as Word, 8) + Bits(data[1..])
  }

  function Crc(data: seq<Byte>, r: Word): Word {
    Lfsr(Bits(data), r)
  }

  /* ---- Shifting is linear over xor ---- */

  function Shift(n: nat, r: Word): Word
    decreases n
  {
    if n == 0 then r else Shift(n - 1, Shift1(r))
  }

  // Sums of registers are named (s == r ^ q), which keeps the solver off bit level.
  lemma Shift1Linear(r: Word, q: Word, s: Word)
    requires s == r ^ q
    ensures Shift1(s) == Shift1(r) ^ Shift1(q)
  {}

  lemma {:induction false} ShiftLinear(n: nat, r: Word, q: Word, s: Word)
    requires s == r ^ q
    ensures Shift(n, s) == Shift(n, r) ^ Shift(n, q)
  {
    if n > 0 {
      Shift1Linear(r, q, s);
      ShiftLinear(n - 1, Shift1(r), Shift1(q), Shift1(s));
    }
  }

  lemma FeedBit(r: Word, v: Word, s: Word)
    requires s == r ^ v
    ensures Shift1(s) == Feed(r, v & 1 == 1) ^ (v >> 1)
  {}

  lemma LfsrStep(first: bool, rest: seq<bool>, r: Word)
    ensures Lfsr([first] + rest, r) == Lfsr(rest, Feed(r, first))
  {
    assert ([first] + rest)[1..] == rest;
  }

  // v has no more than n bits.
  predicate Narrow(v: Word, n: nat)
    decreases n
  {
    if n == 0 then v == 0 else Narrow(v >> 1, n - 1)
  }

  lemma EightBits(b: Byte)
    ensures Narrow(b as Word, 8)
  {}

  // Feeding the n low bits one by one is xoring them in at once and shifting n times.
  lemma {:induction false} LfsrLowBits(v: Word, n: nat, r: Word, s: Word)
    requires Narrow(v, n)
    requires s == r ^ v
    ensures Lfsr(LowBits(v, n), r) == Shift(n, s)
  {
    hide Feed, Shift1;
    if n == 0 {
      XorZero(r, v, s);
    } else {
      var v', r', s' := v >> 1, Feed(r, v & 1 == 1), Shift1(s);
      FeedBit(r, v, s);
      LfsrLowBits(v', n - 1, r', s');
      LfsrStep(v & 1 == 1, LowBits(v', n - 1), r);
    }
  }

  lemma XorZero(r: Word, v: Word, s: Word)
    requires v == 0 && s == r ^ v
    ensures s == r
  {}

  /* ---- The table ---- */

  // The source's 256 entries in its order, 16 to a row.
  const CRC_TABLE: seq<seq<bv16>> := [
    [0x0000, 0xC0C1, 0xC181, 0x0140, 0xC301, 0x03C0, 0x0280, 0xC241,
     0xC601, 0x06C0, 0x0780, 0xC741, 0x0500, 0xC5C1, 0xC481, 0x0440],
    [0xCC01, 0x0CC0, 0x0D80, 0xCD41, 0x0F00, 0xCFC1, 0xCE81, 0x0E40,
     0x0A00, 0xCAC1, 0xCB81, 0x0B40, 0xC901, 0x09C0, 0x0880, 0xC841],
    [0xD801, 0x18C0, 0x1980, 0xD941, 0x1B00, 0xDBC1, 0xDA81, 0x1A40,
     0x1E00, 0xDEC1, 0xDF81, 0x1F40, 0xDD01, 0x1DC0, 0x1C80, 0xDC41],
    [0x1400, 0xD4C1, 0xD581, 0x1540, 0xD701, 0x17C0, 0x1680, 0xD641,
     0xD201, 0x12C0, 0x1380, 0xD341, 0x1100, 0xD1C1, 0xD081, 0x1040],
    [0xF001, 0x30C0, 0x3180, 0xF141, 0x3300, 0xF3C1, 0xF281, 0x3240,
     0x3600, 0xF6C1, 0xF781, 0x3740, 0xF501, 0x35C0, 0x3480, 0xF441],
    [0x3C00, 0xFCC1, 0xFD81, 0x3D40, 0xFF01, 0x3FC0, 0x3E80, 0xFE41,
     0xFA01, 0x3AC0, 0x3B80, 0xFB41, 0x3900, 0xF9C1, 0xF881, 0x3840],
    [0x2800, 0xE8C1, 0xE981, 0x2940, 0xEB01, 0x2BC0, 0x2A80, 0xEA41,
     0xEE01, 0x2EC0, 0x2F80, 0xEF41, 0x2D00, 0xEDC1, 0xEC81, 0x2C40],
    [0xE401, 0x24C0, 0x2580, 0xE541, 0x2700, 0xE7C1, 0xE681, 0x2640,
     0x2200, 0xE2C1, 0xE381, 0x2340, 0xE101, 0x21C0, 0x2080, 0xE041],
    [0xA001, 0x60C0, 0x6180, 0xA141, 0x6300, 0xA3C1, 0xA281, 0x6240,
     0x6600, 0xA6C1, 0xA781, 0x6740, 0xA501, 0x65C0, 0x6480, 0xA441],
    [0x6C00, 0xACC1, 0xAD81, 0x6D40, 0xAF01, 0x6FC0, 0x6E80, 0xAE41,
     0xAA01, 0x6AC0, 0x6B80, 0xAB41, 0x6900, 0xA9C1, 0xA881, 0x6840],
    [0x7800, 0xB8C1, 0xB981, 0x7940, 0xBB01, 0x7BC0, 0x7A80, 0xBA41,
     0xBE01, 0x7EC0, 0x7F80, 0xBF41, 0x7D00, 0xBDC1, 0xBC81, 0x7C40],
    [0xB401, 0x74C0, 0x7580, 0xB541, 0x7700, 0xB7C1, 0xB681, 0x7640,
     0x7200, 0xB2C1, 0xB381, 0x7340, 0xB101, 0x71C0, 0x7080, 0xB041],
    [0x5000, 0x90C1, 0x9181, 0x5140, 0x9301, 0x53C0, 0x5280, 0x9241,
     0x9601, 0x56C0, 0x5780, 0x9741, 0x5500, 0x95C1, 0x9481, 0x5440],
    [0x9C01, 0x5CC0, 0x5D80, 0x9D41, 0x5F00, 0x9FC1, 0x9E81, 0x5E40,
     0x5A00, 0x9AC1, 0x9B81, 0x5B40, 0x9901, 0x59C0, 0x5880, 0x9841],
    [0x8801, 0x48C0, 0x4980, 0x8941, 0x4B00, 0x8BC1, 0x8A81, 0x4A40,
     0x4E00, 0x8EC1, 0x8F81, 0x4F40, 0x8D01, 0x4DC0, 0x4C80, 0x8C41],
    [0x4400, 0x84C1, 0x8581, 0x4540, 0x8701, 0x47C0, 0x4680, 0x8641,
     0x8201, 0x42C0, 0x4380, 0x8341, 0x4100, 0x81C1, 0x8081, 0x4040]
  ]
  function TableEntry(ch: Byte): Word {
    CRC_TABLE[(ch >> 4) as int][(ch & 0xF) as int]
  }

  lemma TableIsShift(ch: Byte)
    ensures TableEntry(ch) == Shift(8, ch as Word)
  {}

  lemma HighByteShiftsDown(r: Word)
    ensures Shift(8, r & 0xFF00) == r >> 8
  {}

  lemma SplitRegister(r: Word, b: Byte, ch: Byte)
    requires ch == b ^ ((r & 0xFF) as Byte)
    ensures r ^ (b as Word) == (r & 0xFF00) ^ (ch as Word)
  {}

  lemma ShiftSplit(n: nat, r: Word, b: Byte, ch: Byte, s: Word)
    requires Narrow(b as Word, n)
    requires ch == b ^ ((r & 0xFF) as Byte)
    requires s == r ^ (b as Word)
    ensures Lfsr(LowBits(b as Word, n), r) == Shift(n, r & 0xFF00) ^ Shift(n, ch as Word)
  {
    hide Shift, Lfsr, LowBits, Narrow;
    LfsrLowBits(b as Word, n, r, s);
    SplitRegister(r, b, ch);
    ShiftLinear(n, r & 0xFF00, ch as Word, s);
  }

  // The table look-up of one loop round feeds the eight bits of b.
  lemma TableStep(r: Word, b: Byte, ch: Byte, next: Word)
    requires ch == b ^ ((r & 0xFF) as Byte)
    requires next == (r >> 8) ^ TableEntry(ch)
    ensures next == Lfsr(LowBits(b as Word, 8), r)
  {
    hide Shift, Lfsr, TableEntry;
    TableIsShift(ch);
    HighByteShiftsDown(r);
    EightBits(b);
    ShiftSplit(8, r, b, ch, r ^ (b as Word));
  }

  lemma {:induction false} LfsrAppend(s: seq<bool>, t: seq<bool>, r: Word)
    ensures Lfsr(s + t, r) == Lfsr(t, Lfsr(s, r))
  {
    hide Feed;
    if s == [] {
      assert s + t == t;
    } else {
      assert (s + t)[1..] == s[1..] + t;
      LfsrAppend(s[1..], t, Feed(r, s[0]));
    }
  }

  lemma {:induction false} BitsAppend(a: seq<Byte>, b: seq<Byte>)
    ensures Bits(a + b) == Bits(a) + Bits(b)
  {
    hide LowBits;
    if a == [] {
      assert a + b == b;
    } else {
      assert (a + b)[1..] == a[1..] + b;
      BitsAppend(a[1..], b);
    }
  }

  // The checksum of a concatenation continues from the checksum of its first part.
  lemma CrcAppend(a: seq<Byte>, b: seq<Byte>, r: Word)
    ensures Crc(a + b, r) == Crc(b, Crc(a, r))
  {
    hide Lfsr, Bits;
    BitsAppend(a, b);
    LfsrAppend(Bits(a), Bits(b), r);
  }

  // One round of the source's loop.
  lemma CrcRound(b: Byte, rest: seq<Byte>, r: Word, ch: Byte, next: Word)
    requires ch == b ^ ((r & 0xFF) as Byte)
    requires next == (r >> 8) ^ TableEntry(ch)
    ensures Crc([b] + rest, r) == Crc(rest, next)
  {
    hide Crc, Lfsr, TableEntry, LowBits;
    TableStep(r, b, ch, next);
    CrcFirst(b, rest, r);
  }

  lemma CrcFirst(b: Byte, rest: seq<Byte>, r: Word)
    ensures Crc([b] + rest, r) == Crc(rest, Lfsr(LowBits(b as Word, 8), r))
  {
    hide Lfsr, LowBits;
    assert ([b] + rest)[1..] == rest;
    LfsrAppend(LowBits(b as Word, 8), Bits(rest), r);
  }

  method ComputeCrc(data: array<Byte>, dataLen: nat, firstVal: Word) returns (retval: Word)
    requires dataLen <= data.Length
    ensures retval == Crc(data[..dataLen], firstVal)
  {
    hide Crc, TableEntry;
    retval := firstVal;
    var i := 0;
    assert data[0..dataLen] == data[..dataLen];
    while i < dataLen
      invariant 0 <= i <= dataLen
      invariant Crc(data[i..dataLen], retval) == Crc(data[..dataLen], firstVal)
    {
      var ch := data[i] ^ ((retval & 0xFF) as Byte);
      CrcRound(data[i], data[i + 1..dataLen], retval, ch, (retval >> 8) ^ TableEntry(ch));
      assert data[i..dataLen] == [data[i]] + data[i + 1..dataLen];
      retval := retval >> 8;
      retval := retval ^ TableEntry(ch);
      i := i + 1;
    }
    CrcOfNothing(retval);
  }

  lemma CrcOfNothing(r: Word)
    ensures Crc([], r) == r
  {}

  // The worked example of section 6.2.2 of "MODBUS over Serial Line" V1.02: 02 07 gives 0x1241.
  lemma WorkedExample()
    ensures Crc([0x02, 0x07], 0xFFFF) == 0x1241
  {
    hide Crc;
    assert [0x02, 0x07] == [0x02 as Byte] + [0x07] && [0x07] == [0x07 as Byte] + [];
    CrcRound(0x02, [0x07], 0xFFFF, 0xFD, 0x813E);
    CrcRound(0x07, [], 0x813E, 0x39, 0x1241);
    CrcOfNothing(0x1241);
  }
}
