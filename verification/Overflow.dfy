/** Messages longer than the receive buffer (main/drv_rs485.c:118-163): the byte that meets a full
    buffer is swallowed, whatever it is, and reception goes on from position 0. */
module Overflow {
  import opened Crc16
  import opened Slip
  import opened Receiver
  import opened Link
  import opened LinkErrors

  // The bytes that fill the buffer and the one it swallows.
  const LAP := 501

  const RECEIVING := RxState(true, false, [])

  // A full buffer swallows any byte, END and ESC included, and delivers nothing.
  lemma FullBufferSwallows(s: RxState, c: Byte)
    requires Reachable(s) && |s.content| == 500
    ensures After(s, [c]) == RECEIVING
    ensures Delivered(s, [c]) == []
  {
    RunOne(s, c);
  }

  predicate Plain(data: seq<Byte>) {
    forall i :: 0 <= i < |data| ==> !Reserved(data[i])
  }

  lemma {:induction false} EscapePlain(data: seq<Byte>)
    requires Plain(data)
    ensures Escape(data) == data
  {
    if data != [] {
      assert Plain(data[1..]);
      EscapePlain(data[1..]);
      assert !Reserved(data[0]);
      assert data == [data[0]] + data[1..];
    }
  }

  // What n plain bytes leave in the buffer.
  function Remainder(data: seq<Byte>): seq<Byte> {
    data[|data| - |data| % LAP..]
  }

  lemma OneLapLess(data: seq<Byte>)
    requires |data| >= LAP
    ensures Remainder(data[LAP..]) == Remainder(data)
  {
    assert (|data| - LAP) % LAP == |data| % LAP;
  }

  // Every 501st byte is lost, with the 500 before it.
  lemma {:induction false} PlainData(data: seq<Byte>)
    requires Plain(data)
    ensures After(RECEIVING, data) == RxState(true, false, Remainder(data))
    ensures Delivered(RECEIVING, data) == []
    decreases |data|
  {
    hide After, Delivered, Escape;
    if |data| < LAP {
      EscapePlain(data);
      EscapedData([], data);
      assert [] + data == data && Remainder(data) == data;
    } else {
      var lap, c, rest := data[..500], data[500], data[LAP..];
      assert data == lap + ([c] + rest);
      EscapePlain(lap);
      EscapedData([], lap);
      assert [] + lap == lap;
      FullBufferSwallows(RxState(true, false, lap), c);
      RunAppend(RECEIVING, lap, [c] + rest);
      RunAppend(RxState(true, false, lap), [c], rest);
      OneLapLess(data);
      PlainData(rest);
    }
  }

  // From every reachable state a message of n plain bytes delivers its last n % 501 bytes;
  // nothing if these fill the buffer, which then swallows the END and leaves reception on.
  lemma LongMessage(s: RxState, data: seq<Byte>)
    requires Reachable(s) && Plain(data)
    ensures var n := |data|;
            && Delivered(s, [SLIP_START] + data + [SLIP_END]) == (if n % 501 == 500 then [] else [data[n - n % 501..]])
            && After(s, [SLIP_START] + data + [SLIP_END]) == if n % 501 == 500 then RECEIVING else IDLE
  {
    hide Next, Out, After, Delivered, Plain;
    var t := RxState(true, false, Remainder(data));
    StartSynchronises(s);
    RunOne(s, SLIP_START);
    PlainData(data);
    RunAppend(s, [SLIP_START] + data, [SLIP_END]);
    RunAppend(s, [SLIP_START], data);
    if |data| % LAP == 500 {
      FullBufferSwallows(t, SLIP_END);
    } else {
      RunOne(t, SLIP_END);
      EndDelivers(Remainder(data));
    }
  }
}
