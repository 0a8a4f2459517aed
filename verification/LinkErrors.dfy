/** One wrong bit on the line (main/drv_rs485.c:115-163, main/protocol.c:99-165): rejected if it
    leaves the reserved bytes alone, but not in general. */
module LinkErrors {
  import opened Crc16
  import opened CrcCode
  import opened CrcAlgebra
  import opened CrcDistance
  import opened Slip
  import opened Receiver
  import opened Link

  predicate Reserved(b: Byte) {
    IsMarker(b) || b == SLIP_ESC
  }

  predicate SingleBit(e: Byte) {
    e == 0x01 || e == 0x02 || e == 0x04 || e == 0x08 || e == 0x10 || e == 0x20 || e == 0x40 || e == 0x80
  }

  /* ---- What a wrong bit does to one decoded byte ---- */

  // The errors it can cause: one bit, or the two top bits of an escaped byte.
  predicate SmallError(e: Byte) {
    SingleBit(e) || e == 0xC0
  }

  lemma EscapedError(x: Byte, y: Byte)
    requires x <= 2 && SingleBit(x ^ y)
    ensures SmallError((SLIP_ESC + x) ^ (SLIP_ESC + y))
  {}

  function LowBit(v: Word): nat {
    if v & 1 == 1 then 1 else 0
  }

  lemma WeightStep(v: Word, n: nat)
    requires n > 0
    ensures Weight(LowBits(v, n)) == LowBit(v) + Weight(LowBits(v >> 1, n - 1))
  {
    hide LowBits, Weight;
    LowBitsStep(v, n);
    WeightOfCons(v & 1 == 1, LowBits(v >> 1, n - 1));
  }

  lemma EightSteps(v: Word, v1: Word, v2: Word, v3: Word, v4: Word, v5: Word, v6: Word, v7: Word)
    requires v1 == v >> 1 && v2 == v1 >> 1 && v3 == v2 >> 1 && v4 == v3 >> 1
    requires v5 == v4 >> 1 && v6 == v5 >> 1 && v7 == v6 >> 1
    ensures Weight(LowBits(v, 8)) == LowBit(v) + LowBit(v1) + LowBit(v2) + LowBit(v3)
                                     + LowBit(v4) + LowBit(v5) + LowBit(v6) + LowBit(v7)
  {
    hide LowBits, LowBit;
    WeightStep(v, 8);
    WeightStep(v1, 7);
    WeightStep(v2, 6);
    WeightStep(v3, 5);
    WeightStep(v4, 4);
    WeightStep(v5, 3);
    WeightStep(v6, 2);
    WeightStep(v7, 1);
    NoLowBits(v7 >> 1);
  }

  lemma SmallBits(e: Byte, v: Word, v1: Word, v2: Word, v3: Word, v4: Word, v5: Word, v6: Word, v7: Word)
    requires SmallError(e) && v == e as Word
    requires v1 == v >> 1 && v2 == v1 >> 1 && v3 == v2 >> 1 && v4 == v3 >> 1
    requires v5 == v4 >> 1 && v6 == v5 >> 1 && v7 == v6 >> 1
    ensures 1 <= LowBit(v) + LowBit(v1) + LowBit(v2) + LowBit(v3)
                 + LowBit(v4) + LowBit(v5) + LowBit(v6) + LowBit(v7) <= 2
  {}

  lemma ErrorWeight(e: Byte)
    requires SmallError(e)
    ensures 1 <= Weight(LowBits(e as Word, 8)) <= 2
  {
    hide LowBits, Weight, LowBit, SmallError;
    var v := e as Word;
    var v1 := v >> 1;
    var v2 := v1 >> 1;
    var v3 := v2 >> 1;
    var v4 := v3 >> 1;
    var v5 := v4 >> 1;
    var v6 := v5 >> 1;
    var v7 := v6 >> 1;
    EightSteps(v, v1, v2, v3, v4, v5, v6, v7);
    SmallBits(e, v, v1, v2, v3, v4, v5, v6, v7);
  }

  lemma ByteDistance(b: Byte, c: Byte, e: Byte)
    requires e == b ^ c && SmallError(e)
    ensures 1 <= Distance(LowBits(b as Word, 8), LowBits(c as Word, 8)) <= 2
  {
    hide LowBits, Weight, Distance, SmallError, Errors;
    ErrorWeight(e);
    ByteBitsOfXor(b, c, e);
    DistanceIsWeight(LowBits(b as Word, 8), LowBits(c as Word, 8));
  }

  lemma {:induction false} DistanceAppend(s: seq<bool>, t: seq<bool>, s': seq<bool>, t': seq<bool>)
    requires |s| == |t| && |s'| == |t'|
    ensures Distance(s + s', t + t') == Distance(s, t) + Distance(s', t')
  {
    if s == [] {
      assert s + s' == s' && t + t' == t';
    } else {
      assert (s + s')[1..] == s[1..] + s' && (t + t')[1..] == t[1..] + t';
      DistanceAppend(s[1..], t[1..], s', t');
    }
  }

  // One changed byte in a message changes only that byte's bits.
  lemma DistanceAt(pre: seq<Byte>, b: Byte, c: Byte, post: seq<Byte>)
    requires SmallError(b ^ c)
    ensures 1 <= Distance(Bits(pre + [b] + post), Bits(pre + [c] + post)) <= 2
  {
    hide LowBits, Bits, Distance, SmallError;
    ByteDistance(b, c, b ^ c);
    SplitBits(pre, b, post);
    SplitBits(pre, c, post);
    var l, m := LowBits(b as Word, 8), LowBits(c as Word, 8);
    DistanceAppend(Bits(pre), Bits(pre), l + Bits(post), m + Bits(post));
    DistanceAppend(l, m, Bits(post), Bits(post));
    DistanceToSelf(Bits(pre));
    DistanceToSelf(Bits(post));
  }

  lemma SplitBits(pre: seq<Byte>, b: Byte, post: seq<Byte>)
    ensures Bits(pre + [b] + post) == Bits(pre) + (LowBits(b as Word, 8) + Bits(post))
  {
    hide LowBits, Bits;
    assert pre + [b] + post == pre + ([b] + post);
    BitsAppend(pre, [b] + post);
    BitsOfCons(b, post);
  }

  /* ---- A wrong bit that neither makes nor unmakes a reserved byte ---- */

  predicate Harmless(old': Byte, new': Byte) {
    SingleBit(old' ^ new') && !Reserved(old') && !Reserved(new')
  }

  // In the escape of one byte it changes the byte decoded, and nothing else.
  lemma WrongInByte(content: seq<Byte>, b: Byte, j: nat, y: Byte) returns (c: Byte)
    requires |content| < RS485_BUFFER_SIZE
    requires j < |EscapeByte(b)| && Harmless(EscapeByte(b)[j], y)
    ensures SmallError(b ^ c)
    ensures var s := RxState(true, false, content);
            After(s, EscapeByte(b)[j := y]) == RxState(true, false, content + [c])
            && Delivered(s, EscapeByte(b)[j := y]) == []
  {
    var s := RxState(true, false, content);
    if Reserved(b) {
      EscapedByteWrong(content, b, j, y);
      c := SLIP_ESC + y;
    } else {
      c := y;
      assert EscapeByte(b)[j := y] == [y];
      RunOne(s, y);
    }
  }

  lemma ReservedOffset(b: Byte)
    requires Reserved(b)
    ensures EscapeByte(b) == [SLIP_ESC] + [b - SLIP_ESC] && b - SLIP_ESC <= 2
  {}

  lemma OffsetRestored(b: Byte, x: Byte)
    requires x == b - SLIP_ESC
    ensures SLIP_ESC + x == b
  {}

  lemma EscapedArrives(content: seq<Byte>, y: Byte)
    requires |content| < RS485_BUFFER_SIZE && !Reserved(y)
    ensures var s := RxState(true, false, content);
            After(s, [SLIP_ESC] + [y]) == RxState(true, false, content + [SLIP_ESC + y])
            && Delivered(s, [SLIP_ESC] + [y]) == []
  {
    var s := RxState(true, false, content);
    RunAppend(s, [SLIP_ESC], [y]);
    RunOne(s, SLIP_ESC);
    RunOne(Next(s, SLIP_ESC), y);
  }

  lemma EscapedByteWrong(content: seq<Byte>, b: Byte, j: nat, y: Byte)
    requires |content| < RS485_BUFFER_SIZE && Reserved(b)
    requires j < |EscapeByte(b)| && Harmless(EscapeByte(b)[j], y)
    ensures SmallError(b ^ (SLIP_ESC + y))
    ensures var s := RxState(true, false, content);
            After(s, EscapeByte(b)[j := y]) == RxState(true, false, content + [SLIP_ESC + y])
            && Delivered(s, EscapeByte(b)[j := y]) == []
  {
    hide EscapeByte, After, Delivered, SmallError, SingleBit, IsMarker;
    var x := b - SLIP_ESC;
    ReservedOffset(b);
    assert j == 1;
    assert EscapeByte(b)[1] == x && EscapeByte(b)[j := y] == [SLIP_ESC] + [y];
    OffsetRestored(b, x);
    EscapedError(x, y);
    EscapedArrives(content, y);
  }

  // In the escape of a whole message it changes one byte of the message.
  lemma {:induction false} WrongInData(content: seq<Byte>, data: seq<Byte>, j: nat, y: Byte)
    returns (i: nat, c: Byte)
    requires |content| + |data| <= RS485_BUFFER_SIZE
    requires j < |Escape(data)| && Harmless(Escape(data)[j], y)
    ensures i < |data| && SmallError(data[i] ^ c)
    ensures var s := RxState(true, false, content);
            After(s, Escape(data)[j := y]) == RxState(true, false, content + data[i := c])
            && Delivered(s, Escape(data)[j := y]) == []
    decreases data
  {
    hide EscapeByte, Next, Out, After, Delivered, Harmless, SmallError;
    var s := RxState(true, false, content);
    var b, rest := data[0], data[1..];
    var first, tail := EscapeByte(b), Escape(rest);
    if j < |first| {
      assert Escape(data)[j := y] == first[j := y] + tail;
      assert Escape(data)[j] == first[j];
      i := 0;
      c := WrongInByte(content, b, j, y);
      RunAppend(s, first[j := y], tail);
      EscapedData(content + [c], rest);
      assert content + [c] + rest == content + data[0 := c];
    } else {
      assert Escape(data)[j := y] == first + tail[j - |first| := y];
      assert Escape(data)[j] == tail[j - |first|];
      EscapedByte(content, b);
      var i';
      i', c := WrongInData(content + [b], rest, j - |first|, y);
      i := i' + 1;
      RunAppend(s, first, tail[j - |first| := y]);
      assert data[i] == rest[i'];
      assert content + [b] + rest[i' := c] == content + data[i := c];
    }
  }

  // From every reachable state: such a frame delivers one message, which is not accepted.
  lemma OneWrongBitRejected(s: RxState, packet: seq<Byte>, j: nat, y: Byte)
    requires Reachable(s) && |packet| <= MAX_PACKET
    requires j < |Frame(packet)| && Harmless(Frame(packet)[j], y)
    ensures var d := Delivered(s, Frame(packet)[j := y]);
            |d| == 1 && |d[0]| == |packet| + 2 && !Accepted(d[0])
  {
    hide Sealed, Escape, Next, Out, After, Delivered, Harmless, SmallError, Verdict;
    var body := Sealed(packet);
    SealedLength(packet);
    assert 0 < j < |Frame(packet)| - 1 by { MarkersReserved(Frame(packet)[j], y); }
    var k := j - 1;
    assert Escape(body)[k] == Frame(packet)[j];
    assert Frame(packet)[j := y] == [SLIP_START] + Escape(body)[k := y] + [SLIP_END];
    var t := RxState(true, false, []);
    StartSynchronises(s);
    RunOne(s, SLIP_START);
    var i, c := WrongInData([], body, k, y);
    assert [] + body[i := c] == body[i := c];
    EndDelivers(body[i := c]);
    RunOne(RxState(true, false, body[i := c]), SLIP_END);
    RunAppend(s, [SLIP_START] + Escape(body)[k := y], [SLIP_END]);
    RunAppend(s, [SLIP_START], Escape(body)[k := y]);
    WrongByteRejected(packet, i, c);
  }

  lemma MarkersReserved(old': Byte, new': Byte)
    requires Harmless(old', new')
    ensures old' != SLIP_START && old' != SLIP_END
  {}

  lemma WrongByteRejected(packet: seq<Byte>, i: nat, c: Byte)
    requires |packet| <= MAX_PACKET && i < |Sealed(packet)| && SmallError(Sealed(packet)[i] ^ c)
    ensures !Accepted(Sealed(packet)[i := c])
  {
    hide Crc, Bits, Distance, SmallError;
    var body := Sealed(packet);
    var pre, post := body[..i], body[i + 1..];
    assert body == pre + [body[i]] + post && body[i := c] == pre + [c] + post;
    DistanceAt(pre, body[i], c, post);
    if 2 <= |packet| {
      FewErrorsRejected(packet, body[i := c]);
    }
  }

  /* ---- In general one wrong bit is enough ---- */

  lemma PrefixChecksum()
    ensures Crc([0xA9, 0x2B, 0xC0], CRC_INIT) == 0x40BF && Crc([0x00], CRC_INIT) == 0x40BF
  {
    hide Crc;
    assert [0xA9, 0x2B, 0xC0] == [0xA9 as Byte] + ([0x2B] + ([0xC0] + []));
    assert [0x00] == [0x00 as Byte] + [];
    CrcRound(0xA9, [0x2B] + ([0xC0] + []), 0xFFFF, 0x56, 0x3E7F);
    CrcRound(0x2B, [0xC0] + [], 0x3E7F, 0x54, 0xFF3F);
    CrcRound(0xC0, [], 0xFF3F, 0xFF, 0x40BF);
    CrcRound(0x00, [], 0xFFFF, 0xFF, 0x40BF);
    CrcOfNothing(0x40BF);
  }

  lemma SameChecksum(q: seq<Byte>)
    ensures Crc([0xA9, 0x2B, 0xC0] + q, CRC_INIT) == Crc([0x00] + q, CRC_INIT)
  {
    hide Crc;
    PrefixChecksum();
    CrcAppend([0xA9, 0x2B, 0xC0], q, CRC_INIT);
    CrcAppend([0x00], q, CRC_INIT);
  }

  // ESC and START differ in one bit. Where it makes a START of an ESC, the frame of one packet
  // can arrive as the accepted frame of another.
  lemma OneWrongBitAccepted(q: seq<Byte>)
    requires 1 <= |q| && |q| + 3 <= MAX_PACKET
    ensures var f := Frame([0xA9, 0x2B, 0xC0] + q);
            && |f| > 3 && f[3] == SLIP_ESC && SingleBit(f[3] ^ SLIP_START)
            && Delivered(IDLE, f[3 := SLIP_START]) == [Sealed([0x00] + q)]
            && Accepted(Sealed([0x00] + q))
  {
    hide Crc, Next, Out, After, Delivered, Verdict;
    var p, p' := [0xA9, 0x2B, 0xC0] + q, [0x00] + q;
    var rest := q + Trailer(Crc(p, CRC_INIT));
    SameChecksum(q);
    assert Sealed(p) == [0xA9] + ([0x2B] + ([0xC0] + rest)) && Sealed(p') == [0x00] + rest;
    EscapeHead(p, p', rest);
    var f := Frame(p);
    var noise := [SLIP_START, 0xA9, 0x2B];
    assert f[3 := SLIP_START] == noise + Frame(p');
    RunAppend(IDLE, noise, Frame(p'));
    NoiseIgnored();
    FrameDelivers(After(IDLE, noise), p');
    SealedIsAccepted(p');
  }

  lemma EscapeHead(p: seq<Byte>, p': seq<Byte>, rest: seq<Byte>)
    requires Sealed(p) == [0xA9] + ([0x2B] + ([0xC0] + rest)) && Sealed(p') == [0x00] + rest
    ensures Frame(p) == [SLIP_START, 0xA9, 0x2B, SLIP_ESC, 0x00] + Escape(rest) + [SLIP_END]
    ensures Frame(p') == [SLIP_START, 0x00] + Escape(rest) + [SLIP_END]
  {
    hide Sealed, Escape;
    EscapeAppend([0xA9], [0x2B] + ([0xC0] + rest));
    EscapeAppend([0x2B], [0xC0] + rest);
    EscapeAppend([0xC0], rest);
    EscapeAppend([0x00], rest);
    EscapeOne(0xA9);
    EscapeOne(0x2B);
    EscapeOne(0xC0);
    EscapeOne(0x00);
  }

  lemma NoiseIgnored()
    ensures Delivered(IDLE, [SLIP_START, 0xA9, 0x2B]) == []
    ensures Reachable(After(IDLE, [SLIP_START, 0xA9, 0x2B]))
  {
    hide Next, Out;
    var a, b := [SLIP_START], [0xA9, 0x2B];
    assert [SLIP_START, 0xA9, 0x2B] == a + b && b == [0xA9] + [0x2B];
    AfterReachable(IDLE, a + b);
    StartSynchronises(IDLE);
    RunOne(IDLE, SLIP_START);
    RunAppend(IDLE, a, b);
    EscapeAppend([0xA9], [0x2B]);
    EscapeOne(0xA9);
    EscapeOne(0x2B);
    EscapedData([], b);
  }
}
