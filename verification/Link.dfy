/** End-to-end properties of the link: resynchronisation, round trip, packet streams. */
module Link {
  import opened Crc16
  import opened CrcCode
  import opened Slip
  import opened Receiver
  import Parser

  const MAX_PACKET := 497

  // A start marker synchronises every reachable state: a full buffer swallows it, but
  // is left receiving from position 0 all the same.
  lemma StartSynchronises(s: RxState)
    requires Reachable(s)
    ensures Next(s, SLIP_START) == RxState(true, false, [])
    ensures Out(s, SLIP_START) == []
  {}

  // In numbers: 0xC1 alone starts reception, 0xC2 alone delivers.
  lemma MarkerBytes(s: RxState, c: Byte)
    requires Reachable(s)
    ensures !s.started ==> (Next(s, c).started <==> c == 0xC1)
    ensures s.started && |s.content| < 500 ==> (Out(s, c) == [s.content] <==> c == 0xC2)
    ensures Out(s, c) != [] ==> c == 0xC2 && s.started && |s.content| < 500
  {}

  lemma EscapedByte(content: seq<Byte>, b: Byte)
    requires |content| < RS485_BUFFER_SIZE
    ensures After(RxState(true, false, content), EscapeByte(b)) == RxState(true, false, content + [b])
    ensures Delivered(RxState(true, false, content), EscapeByte(b)) == []
  {
    var s := RxState(true, false, content);
    if IsMarker(b) || b == SLIP_ESC {
      var c := EscapeByte(b)[1];
      assert EscapeByte(b) == [SLIP_ESC] + [c];
      RunAppend(s, [SLIP_ESC], [c]);
      RunOne(s, SLIP_ESC);
      RunOne(Next(s, SLIP_ESC), c);
    } else {
      RunOne(s, b);
    }
  }

  lemma RunNone(s: RxState)
    ensures After(s, []) == s && Delivered(s, []) == []
  {}

  lemma {:induction false} EscapedData(content: seq<Byte>, data: seq<Byte>)
    requires |content| + |data| <= RS485_BUFFER_SIZE
    ensures After(RxState(true, false, content), Escape(data)) == RxState(true, false, content + data)
    ensures Delivered(RxState(true, false, content), Escape(data)) == []
    decreases data
  {
    hide EscapeByte, Next, Out, After, Delivered;
    var s := RxState(true, false, content);
    if data == [] {
      RunNone(s);
      assert content + data == content;
    } else {
      var b, rest := data[0], data[1..];
      assert data == [b] + rest && content + [b] + rest == content + data;
      EscapedByte(content, b);
      RunAppend(s, EscapeByte(b), Escape(rest));
      EscapedData(content + [b], rest);
    }
  }

  // From every reachable state one frame delivers exactly its packet, checksum attached,
  // and leaves the receiver idle.
  lemma FrameDelivers(s: RxState, packet: seq<Byte>)
    requires Reachable(s) && |packet| <= MAX_PACKET
    ensures Delivered(s, Frame(packet)) == [Sealed(packet)]
    ensures After(s, Frame(packet)) == IDLE
  {
    hide Sealed, Escape, Next, Out;
    var body := Sealed(packet);
    assert |body| == |packet| + 2 by { SealedLength(packet); }
    var t := RxState(true, false, []);
    StartSynchronises(s);
    RunOne(s, SLIP_START);
    EscapedData([], body);
    assert [] + body == body;
    var u := RxState(true, false, body);
    EndDelivers(body);
    RunOne(u, SLIP_END);
    RunAppend(s, [SLIP_START] + Escape(body), [SLIP_END]);
    RunAppend(s, [SLIP_START], Escape(body));
  }

  lemma SealedLength(packet: seq<Byte>)
    ensures |Sealed(packet)| == |packet| + 2
  {}

  lemma EndDelivers(body: seq<Byte>)
    requires |body| < RS485_BUFFER_SIZE
    ensures Out(RxState(true, false, body), SLIP_END) == [body]
    ensures Next(RxState(true, false, body), SLIP_END) == IDLE
  {}

  // After any bytes at all, a frame gets through exactly when its packet fits the buffer.
  lemma Resynchronises(garbage: seq<Byte>, packet: seq<Byte>)
    ensures Delivered(IDLE, garbage + Frame(packet)) == Delivered(IDLE, garbage) + [Sealed(packet)]
            <==> |packet| <= MAX_PACKET
  {
    hide Sealed, Frame;
    var s := After(IDLE, garbage);
    AfterReachable(IDLE, garbage);
    RunAppend(IDLE, garbage, Frame(packet));
    if |packet| <= MAX_PACKET {
      FrameDelivers(s, packet);
    } else {
      SealedLength(packet);
      Parser.DeliveredShort(IDLE, garbage + Frame(packet));
      var all := Delivered(IDLE, garbage) + [Sealed(packet)];
      assert |all[|Delivered(IDLE, garbage)|]| >= RS485_BUFFER_SIZE;
    }
  }

  // Round trip: what arrives is accepted, and is the packet sent.
  lemma RoundTrip(garbage: seq<Byte>, packet: seq<Byte>)
    requires 2 <= |packet| <= MAX_PACKET
    ensures var d := Delivered(After(IDLE, garbage), Frame(packet));
            |d| == 1 && Accepted(d[0]) && d[0][..|d[0]| - 2] == packet
  {
    hide Crc, Frame, Verdict;
    AfterReachable(IDLE, garbage);
    FrameDelivers(After(IDLE, garbage), packet);
    SealedIsAccepted(packet);
  }

  /* ---- Where receiver and declarative reading differ ---- */

  lemma {:induction false} EscapeKeepsOpen(s: seq<Byte>, data: seq<Byte>)
    requires Parser.Open(s)
    requires forall i :: 0 <= i < |data| ==> !IsMarker(data[i])
    ensures Parser.Open(s + data) && Parser.Segment(s + data) == Parser.Segment(s) + data
    ensures Parser.Messages(s + data) == Parser.Messages(s)
    decreases |data|
  {
    hide Parser.Open, Parser.Segment, Parser.Messages, Parser.LastMarker;
    if data == [] {
      assert s + data == s && Parser.Segment(s) + data == Parser.Segment(s);
    } else {
      var init, c := data[..|data| - 1], data[|data| - 1];
      assert data == init + [c] && s + data == (s + init) + [c];
      EscapeKeepsOpen(s, init);
      Parser.OpenSnoc(s + init, c);
      Parser.MessagesSnoc(s + init, c);
    }
  }

  // By the declarative reading every frame is one message, its sealed packet.
  lemma FrameIsOneMessage(packet: seq<Byte>)
    ensures Parser.Messages(Frame(packet)) == [Sealed(packet)]
  {
    hide Parser.Messages, Parser.Segment, Parser.Open, Escape, Sealed, Parser.Unescape;
    var body := Escape(Sealed(packet));
    StartOpens();
    EscapeHasNoMarker(Sealed(packet));
    EscapeKeepsOpen([SLIP_START], body);
    assert [] + body == body;
    Parser.MessagesSnoc([SLIP_START] + body, SLIP_END);
    Parser.UnescapeEscape(Sealed(packet));
  }

  lemma StartOpens()
    ensures Parser.Open([SLIP_START]) && Parser.Segment([SLIP_START]) == []
    ensures Parser.Messages([SLIP_START]) == []
  {
    var none: seq<Byte> := [];
    assert none + [SLIP_START] == [SLIP_START];
    Parser.OpenSnoc(none, SLIP_START);
    Parser.MessagesSnoc(none, SLIP_START);
  }

  // So the receiver disagrees with it on exactly the frames of packets above 497 bytes.
  lemma FrameReadAlike(packet: seq<Byte>)
    ensures Delivered(IDLE, Frame(packet)) == Parser.Messages(Frame(packet)) <==> |packet| <= MAX_PACKET
  {
    hide Frame, Sealed, Delivered, Parser.Messages;
    FrameIsOneMessage(packet);
    Parser.ReceiverRefinesParser(Frame(packet));
    SealedLength(packet);
    assert Parser.Messages(Frame(packet))[0] == Sealed(packet);
  }

  /* ---- Clipped frames ---- */

  // Without a START nothing is delivered to an idle receiver, which stays idle.
  lemma {:induction false} NothingWithoutStart(s: RxState, stream: seq<Byte>)
    requires Reachable(s) && !s.started
    requires forall i :: 0 <= i < |stream| ==> stream[i] != SLIP_START
    ensures Delivered(s, stream) == []
    ensures Reachable(After(s, stream)) && !After(s, stream).started
    decreases stream
  {
    if stream != [] {
      var c := stream[0];
      assert c != SLIP_START;
      IdleIgnores(s, c);
      NothingWithoutStart(Next(s, c), stream[1..]);
    }
  }

  lemma IdleIgnores(s: RxState, c: Byte)
    requires Reachable(s) && !s.started && c != SLIP_START
    ensures Reachable(Next(s, c)) && !Next(s, c).started && Out(s, c) == []
  {}

  // What an over-long frame leaves in the buffer has lost its START.
  lemma ClippedHasNoStart(packet: seq<Byte>)
    requires |Frame(packet)| >= INDEX_RANGE
    ensures forall i :: 0 <= i < |Survivors(Frame(packet))| ==> Survivors(Frame(packet))[i] != SLIP_START
  {
    hide Sealed, Escape;
    var body := Escape(Sealed(packet));
    EscapeHasNoMarker(Sealed(packet));
    forall i | 1 <= i < |Frame(packet)|
      ensures Frame(packet)[i] != SLIP_START
    {
      assert i < |Frame(packet)| - 1 ==> Frame(packet)[i] == body[i - 1];
    }
  }

  // Through transmitter and line to an idle receiver: delivered if the frame fits the index
  // of the transmit buffer, lost without a trace otherwise.
  lemma OnePacket(s: RxState, packet: seq<Byte>)
    requires Reachable(s) && !s.started
    ensures Delivered(s, Survivors(Frame(packet))) == if |Frame(packet)| < INDEX_RANGE then [Sealed(packet)] else []
    ensures var t := After(s, Survivors(Frame(packet))); Reachable(t) && !t.started
  {
    hide Frame, Survivors, Sealed;
    if |Frame(packet)| < INDEX_RANGE {
      ShortFrameShortPacket(packet);
      IntactIffShort(Frame(packet));
      FrameDelivers(s, packet);
    } else {
      ClippedHasNoStart(packet);
      NothingWithoutStart(s, Survivors(Frame(packet)));
    }
  }

  lemma ShortFrameShortPacket(packet: seq<Byte>)
    requires |Frame(packet)| < INDEX_RANGE
    ensures |packet| <= MAX_PACKET
  {
    EscapeLength(Sealed(packet));
  }

  // A packet arrives exactly when its frame is shorter than the index range.
  lemma ArrivesIffShort(packet: seq<Byte>)
    ensures Delivered(IDLE, Survivors(Frame(packet))) == [Sealed(packet)] <==> |Frame(packet)| < 256
  {
    hide Frame, Survivors, Sealed;
    OnePacket(IDLE, packet);
  }

  // Two bytes beyond the size that is always safe, escaping alone can clip the frame.
  lemma AllEscapesLost(packet: seq<Byte>)
    requires |packet| == MAX_SAFE_PACKET + 2
    requires forall i :: 0 <= i < |packet| ==> packet[i] == SLIP_ESC
    ensures Delivered(IDLE, Survivors(Frame(packet))) == []
  {
    hide Crc, EscapeByte;
    EscapeAppend(packet, Trailer(Crc(packet, CRC_INIT)));
    EscapeDoubles(packet);
    EscapeLength(Trailer(Crc(packet, CRC_INIT)));
    OnePacket(IDLE, packet);
  }

  lemma {:induction false} EscapeDoubles(data: seq<Byte>)
    requires forall i :: 0 <= i < |data| ==> data[i] == SLIP_ESC
    ensures |Escape(data)| == 2 * |data|
  {
    if data != [] {
      EscapeDoubles(data[1..]);
    }
  }

  /* ---- Streams of packets ---- */

  // Everything the transmitter writes for a list of packets, one after the other.
  function WireOf(packets: seq<seq<Byte>>): seq<Byte> {
    if packets == [] then [] else Survivors(Frame(packets[0])) + WireOf(packets[1..])
  }

  ghost function Contents(packets: seq<array<Byte>>): (r: seq<seq<Byte>>)
    reads packets
    ensures |r| == |packets| && forall i :: 0 <= i < |packets| ==> r[i] == packets[i][..]
  {
    if packets == [] then [] else [packets[0][..]] + Contents(packets[1..])
  }

  lemma {:induction false} WireOfAppend(a: seq<seq<Byte>>, b: seq<seq<Byte>>)
    ensures WireOf(a + b) == WireOf(a) + WireOf(b)
  {
    hide Frame, Survivors;
    if a == [] {
      assert a + b == b;
    } else {
      assert (a + b)[1..] == a[1..] + b;
      WireOfAppend(a[1..], b);
    }
  }

  lemma WireOfNext(packets: seq<seq<Byte>>, i: nat)
    requires i < |packets|
    ensures WireOf(packets[..i + 1]) == WireOf(packets[..i]) + Survivors(Frame(packets[i]))
  {
    hide Frame, Survivors;
    assert packets[..i + 1] == packets[..i] + [packets[i]];
    WireOfAppend(packets[..i], [packets[i]]);
    assert [packets[i]][1..] == [];
  }

  lemma WireOfNone()
    ensures WireOf([]) == []
  {}

  // Packets go out one protocol_send_packet after the other; whole arrays are sent.
  method SendAll(t: Transmitter, packets: seq<array<Byte>>)
    requires t.Valid() && t.queued == []
    requires t.sendBuff !in packets
    requires forall i :: 0 <= i < |packets| ==> packets[i].Length <= 0xFFFF
    modifies t`index, t`queued, t`wire, t.sendBuff
    ensures t.Valid() && t.queued == []
    ensures t.wire == old(t.wire) + WireOf(Contents(packets))
  {
    hide Frame, Survivors, WireOf, Contents, Transmitter.Valid;
    ghost var contents := Contents(packets);
    WireOfNone();
    for i := 0 to |packets|
      invariant t.Valid() && t.queued == []
      invariant Contents(packets) == contents
      invariant t.wire == old(t.wire) + WireOf(contents[..i])
    {
      var p := packets[i];
      ghost var before := t.wire;
      assert p in packets && p != t.sendBuff;
      assert p[..p.Length] == contents[i];
      t.SendPacket(p, p.Length);
      assert t.wire == before + Survivors(Frame(contents[i]));
      WireOfNext(contents, i);
    }
    assert contents[..|packets|] == contents;
  }

  // The sealed packets among those whose frames fit the index, in order.
  function Arriving(packets: seq<seq<Byte>>): seq<seq<Byte>> {
    if packets == [] then []
    else (if |Frame(packets[0])| < INDEX_RANGE then [Sealed(packets[0])] else []) + Arriving(packets[1..])
  }

  // An idle receiver gets exactly the packets whose frames fit, in order, whatever is lost
  // between them.
  lemma {:induction false} StreamArrives(s: RxState, packets: seq<seq<Byte>>)
    requires Reachable(s) && !s.started
    ensures Delivered(s, WireOf(packets)) == Arriving(packets)
    decreases packets
  {
    hide Frame, Sealed, Survivors;
    if packets != [] {
      var p, rest := packets[0], packets[1..];
      var f := Survivors(Frame(p));
      OnePacket(s, p);
      RunAppend(s, f, WireOf(rest));
      StreamArrives(After(s, f), rest);
    }
  }

  function Frames(packets: seq<seq<Byte>>): seq<Byte> {
    if packets == [] then [] else Frame(packets[0]) + Frames(packets[1..])
  }

  function SealedAll(packets: seq<seq<Byte>>): (r: seq<seq<Byte>>)
    ensures |r| == |packets| && forall i :: 0 <= i < |packets| ==> r[i] == Sealed(packets[i])
  {
    if packets == [] then [] else [Sealed(packets[0])] + SealedAll(packets[1..])
  }

  // Packets of two bytes or more whose frames are shorter than the index range: frames leave
  // unclipped, and the receiver recovers every packet, accepted and in order, whatever it was
  // doing before.
  lemma {:induction false} StreamConserved(s: RxState, packets: seq<seq<Byte>>)
    requires Reachable(s)
    requires forall i :: 0 <= i < |packets| ==> 2 <= |packets[i]| && |Frame(packets[i])| < INDEX_RANGE
    ensures WireOf(packets) == Frames(packets)
    ensures Delivered(s, WireOf(packets)) == SealedAll(packets)
    ensures forall i :: 0 <= i < |packets| ==> Accepted(SealedAll(packets)[i])
    ensures packets != [] ==> After(s, WireOf(packets)) == IDLE
    decreases packets
  {
    hide Frame, Sealed, Survivors, Verdict;
    if packets != [] {
      var p, rest := packets[0], packets[1..];
      IntactIffShort(Frame(p));
      ShortFrameShortPacket(p);
      FrameDelivers(s, p);
      SealedIsAccepted(p);
      RunAppend(s, Frame(p), WireOf(rest));
      StreamConserved(IDLE, rest);
    }
  }
}
