/** Framing on the RS-485 line (main/drv_rs485.h:17-19, main/protocol.c:125-165) and the
    transmit buffer under it (main/drv_rs485.c:31-90). */
module Slip {
  import opened Crc16
  import opened CrcCode

  const SLIP_START: Byte := 0xC1
  const SLIP_END: Byte := 0xC2
  const SLIP_ESC: Byte := 0xC0

  predicate IsMarker(b: Byte) {
    b == SLIP_START || b == SLIP_END
  }

  function EscapeByte(b: Byte): seq<Byte> {
    if b == SLIP_START then [SLIP_ESC, SLIP_START - SLIP_ESC]
    else if b == SLIP_ESC then [SLIP_ESC, 0]
    else if b == SLIP_END then [SLIP_ESC, SLIP_END - SLIP_ESC]
    else [b]
  }

  function Escape(data: seq<Byte>): seq<Byte> {
    if data == [] then [] else EscapeByte(data[0]) + Escape(data[1..])
  }

  // What one packet looks like on the line.
  function Frame(packet: seq<Byte>): seq<Byte> {
    [SLIP_START] + Escape(Sealed(packet)) + [SLIP_END]
  }

  lemma {:induction false} EscapeAppend(a: seq<Byte>, b: seq<Byte>)
    ensures Escape(a + b) == Escape(a) + Escape(b)
  {
    hide EscapeByte;
    if a == [] {
      assert a + b == b;
    } else {
      assert (a + b)[1..] == a[1..] + b;
      EscapeAppend(a[1..], b);
    }
  }

  lemma EscapeOne(b: Byte)
    ensures Escape([b]) == EscapeByte(b)
  {
    assert [b][1..] == [];
  }

  lemma EscapeNext(p: seq<Byte>, i: nat)
    requires i < |p|
    ensures Escape(p[..i + 1]) == Escape(p[..i]) + EscapeByte(p[i])
  {
    hide EscapeByte;
    assert p[..i + 1] == p[..i] + [p[i]];
    EscapeAppend(p[..i], [p[i]]);
    EscapeOne(p[i]);
  }

  lemma {:induction false} EscapeLength(data: seq<Byte>)
    ensures |data| <= |Escape(data)| <= 2 * |data|
  {
    if data != [] {
      EscapeLength(data[1..]);
    }
  }

  // Inside a frame no marker occurs, so a marker on the line always delimits.
  lemma {:induction false} EscapeHasNoMarker(data: seq<Byte>)
    ensures forall i :: 0 <= i < |Escape(data)| ==> !IsMarker(Escape(data)[i])
  {
    if data != [] {
      EscapeHasNoMarker(data[1..]);
    }
  }

  // The escapes, in numbers.
  lemma ReservedEscapes()
    ensures Escape([0xC0]) == [0xC0, 0x00]
    ensures Escape([0xC1]) == [0xC0, 0x01]
    ensures Escape([0xC2]) == [0xC0, 0x02]
  {
    EscapeOne(0xC0);
    EscapeOne(0xC1);
    EscapeOne(0xC2);
  }

  // In e, 0xC0 stands only for an escape, which is one of three.
  predicate EscapesWhole(e: seq<Byte>) {
    forall i :: 0 <= i < |e| && e[i] == 0xC0 ==> i + 1 < |e| && e[i + 1] <= 0x02
  }

  lemma EscapesJoin(first: seq<Byte>, rest: seq<Byte>)
    requires EscapesWhole(first) && EscapesWhole(rest)
    ensures EscapesWhole(first + rest)
  {
    var e := first + rest;
    forall i | 0 <= i < |e| && e[i] == 0xC0
      ensures i + 1 < |e| && e[i + 1] <= 0x02
    {
      if i < |first| {
        assert first[i] == 0xC0;
      } else {
        assert rest[i - |first|] == 0xC0;
      }
    }
  }

  lemma {:induction false} EscapesOnly(data: seq<Byte>)
    ensures EscapesWhole(Escape(data))
  {
    if data != [] {
      hide EscapeByte, EscapesWhole;
      EscapesOnly(data[1..]);
      EscapeByteWhole(data[0]);
      EscapesJoin(EscapeByte(data[0]), Escape(data[1..]));
    }
  }

  lemma EscapeByteWhole(b: Byte)
    ensures EscapesWhole(EscapeByte(b))
  {}

  // What every packet looks like on the line: 0xC1 and 0xC2 only at its ends, and every 0xC0
  // followed by 0, 1 or 2.
  lemma FrameOnLine(packet: seq<Byte>)
    ensures var f := Frame(packet);
            && |f| >= 4 && f[0] == 0xC1 && f[|f| - 1] == 0xC2
            && forall i :: 0 < i < |f| - 1 ==> f[i] != 0xC1 && f[i] != 0xC2 && (f[i] == 0xC0 ==> f[i + 1] <= 0x02)
  {
    hide Sealed, Escape;
    var body := Escape(Sealed(packet));
    EscapeHasNoMarker(Sealed(packet));
    EscapesOnly(Sealed(packet));
    EscapeLength(Sealed(packet));
    assert |Sealed(packet)| >= 2 by { TrailerSent(packet); }
    var f := Frame(packet);
    assert f == [SLIP_START] + body + [SLIP_END];
    forall i | 0 < i < |f| - 1
      ensures f[i] != 0xC1 && f[i] != 0xC2 && (f[i] == 0xC0 ==> f[i + 1] <= 0x02)
    {
      assert f[i] == body[i - 1] && !IsMarker(body[i - 1]);
      assert i < |body| ==> f[i + 1] == body[i];
    }
  }

  lemma TrailerSent(packet: seq<Byte>)
    ensures |Sealed(packet)| == |packet| + 2
  {}

  // The packet of the MODBUS worked example on the line.
  lemma FrameExample()
    ensures Frame([0x02, 0x07]) == [0xC1, 0x02, 0x07, 0x41, 0x12, 0xC2]
  {
    hide Crc;
    WorkedExample();
    var p: seq<Byte> := [0x02, 0x07];
    TrailerBytes();
    assert Sealed(p) == [0x02] + ([0x07] + ([0x41] + [0x12]));
    EscapeAppend([0x02], [0x07] + ([0x41] + [0x12]));
    EscapeAppend([0x07], [0x41] + [0x12]);
    EscapeAppend([0x41], [0x12]);
    EscapeOne(0x02);
    EscapeOne(0x07);
    EscapeOne(0x41);
    EscapeOne(0x12);
  }

  lemma TrailerBytes()
    ensures LowByte(0x1241) == 0x41 && HighByte(0x1241) == 0x12
  {}

  /* ---- The transmit buffer ---- */

  const SEND_BUFF_SIZE := 500

  // send_buff_index is a uint8_t: after 256 characters it starts over.
  const INDEX_RANGE := 256

  // What is still in the buffer below the index once all of f has been sent into it.
  function Survivors(f: seq<Byte>): seq<Byte> {
    f[|f| - |f| % INDEX_RANGE..]
  }

  // A frame goes out intact exactly when it is shorter than the index range.
  lemma IntactIffShort(f: seq<Byte>)
    ensures Survivors(f) == f <==> |f| < 256
  {
    if |f| >= INDEX_RANGE {
      assert |Survivors(f)| < |f|;
    }
  }

  // Only whole laps are lost, from the front.
  lemma LapsLost(f: seq<Byte>) returns (laps: nat)
    ensures |Survivors(f)| < 256 && 256 * laps + |Survivors(f)| == |f|
    ensures f == f[..256 * laps] + Survivors(f)
  {
    laps := |f| / INDEX_RANGE;
  }

  const MAX_SAFE_PACKET := 124

  lemma ShortPacketsIntact(packet: seq<Byte>)
    requires |packet| <= MAX_SAFE_PACKET
    ensures |Frame(packet)| < INDEX_RANGE
    ensures Survivors(Frame(packet)) == Frame(packet)
  {
    EscapeLength(Sealed(packet));
    IntactIffShort(Frame(packet));
  }

  class Transmitter {
    const sendBuff: array<Byte>
    var index: nat
    // Characters sent since the last transmission, and all bytes given to the UART.
    ghost var queued: seq<Byte>
    ghost var wire: seq<Byte>

    ghost predicate Valid()
      reads this, sendBuff
    {
      && sendBuff.Length == SEND_BUFF_SIZE
      && index == |queued| % INDEX_RANGE
      && forall k :: 0 <= k < |queued| && |queued| - INDEX_RANGE <= k ==> sendBuff[k % INDEX_RANGE] == queued[k]
    }

    constructor ()
      ensures Valid() && fresh(sendBuff) && queued == [] && wire == []
    {
      sendBuff := new Byte[SEND_BUFF_SIZE](_ => 0);
      index := 0;
      queued := [];
      wire := [];
    }

    method SendChar(ch: Byte)
      requires Valid()
      modifies this`index, this`queued, sendBuff
      ensures Valid()
      ensures queued == old(queued) + [ch]
    {
      sendBuff[index] := ch;
      index := (index + 1) % INDEX_RANGE;
      queued := queued + [ch];
    }

    method SendSlipChar(ch: Byte)
      requires Valid()
      modifies this`index, this`queued, sendBuff
      ensures Valid()
      ensures queued == old(queued) + EscapeByte(ch)
    {
      if ch == SLIP_START {
        SendChar(SLIP_ESC);
        SendChar(SLIP_START - SLIP_ESC);
      } else if ch == SLIP_ESC {
        SendChar(SLIP_ESC);
        SendChar(SLIP_ESC - SLIP_ESC);
      } else if ch == SLIP_END {
        SendChar(SLIP_ESC);
        SendChar(SLIP_END - SLIP_ESC);
      } else {
        SendChar(ch);
      }
    }

    method SendData()
      requires Valid()
      modifies this`index, this`queued, this`wire, sendBuff
      ensures Valid() && index == 0 && queued == []
      ensures wire == old(wire) + Survivors(old(queued))
    {
      LastLap();
      wire := wire + sendBuff[..index];
      for i := 0 to 200
        modifies sendBuff
      {
        sendBuff[i] := 0;
      }
      index := 0;
      queued := [];
    }

    // The bytes below the index are the last characters queued.
    lemma LastLap()
      requires Valid()
      ensures sendBuff[..index] == Survivors(queued)
    {
      var n := |queued|;
      var start := n - index;
      forall i | 0 <= i < index
        ensures sendBuff[i] == Survivors(queued)[i]
      {
        assert (start + i) % INDEX_RANGE == i;
        assert sendBuff[(start + i) % INDEX_RANGE] == queued[start + i];
      }
    }

    method SendPacket(packet: array<Byte>, packetLen: nat)
      requires Valid() && packet != sendBuff
      requires packetLen <= packet.Length && packetLen <= 0xFFFF
      modifies this`index, this`queued, this`wire, sendBuff
      ensures Valid() && index == 0 && queued == []
      ensures wire == old(wire) + Survivors(old(queued) + Frame(packet[..packetLen]))
      ensures old(queued) == [] ==> wire == old(wire) + Survivors(Frame(packet[..packetLen]))
    {
      hide EscapeByte, Crc, Frame, Sealed, LowByte, HighByte, Escape, Survivors, Valid;
      ghost var p, base := packet[..packetLen], queued + [SLIP_START];
      EscapeNone();
      SendChar(SLIP_START);
      var i := 0;
      while i < packetLen
        invariant 0 <= i <= packetLen
        invariant Valid()
        invariant queued == base + Escape(p[..i])
        invariant wire == old(wire) && packet[..packetLen] == p
      {
        EscapeNext(p, i);
        SendSlipChar(packet[i]);
        i := i + 1;
      }
      var crc := ComputeCrc(packet, packetLen, CRC_INIT);
      SendSlipChar(LowByte(crc));
      SendSlipChar(HighByte(crc));
      SendChar(SLIP_END);
      FrameParts(old(queued), p, crc, p[..packetLen]);
      assert [] + Frame(p) == Frame(p);
      SendData();
    }
  }

  lemma EscapeNone()
    ensures Escape([]) == []
  {}

  lemma FrameParts(q: seq<Byte>, p: seq<Byte>, crc: Word, body: seq<Byte>)
    requires crc == Crc(p, CRC_INIT) && body == p
    ensures q + [SLIP_START] + Escape(body) + EscapeByte(LowByte(crc)) + EscapeByte(HighByte(crc)) + [SLIP_END]
            == q + Frame(p)
  {
    hide Crc, EscapeByte, Escape, LowByte, HighByte;
    var lo, hi := LowByte(crc), HighByte(crc);
    EscapeAppend(p, [lo, hi]);
    EscapeAppend([lo], [hi]);
    assert [lo, hi] == [lo] + [hi];
    EscapeOne(lo);
    EscapeOne(hi);
  }
}
