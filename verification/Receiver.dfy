/** The byte-at-a-time receiver of main/drv_rs485.c:115-163. */
module Receiver {
  import opened Crc16
  import opened Slip

  const RS485_BUFFER_SIZE := 500

  // content is rs485Buffer up to rs485BufferPosition.
  datatype RxState = RxState(started: bool, esc: bool, content: seq<Byte>)

  const IDLE := RxState(false, false, [])

  function Next(s: RxState, c: Byte): RxState {
    if |s.content| < RS485_BUFFER_SIZE then
      if c == SLIP_START then RxState(true, false, [])
      else if c == SLIP_END then
        if s.started then RxState(false, s.esc, []) else s
      else if c == SLIP_ESC then s.(esc := true)
      else if !s.started then s
      else if s.esc then RxState(true, false, s.content + [SLIP_ESC + c])
      else s.(content := s.content + [c])
    else s.(content := [])
  }

  // The messages handed to reciveValidMsg on byte c: none or one.
  function Out(s: RxState, c: Byte): seq<seq<Byte>> {
    if |s.content| < RS485_BUFFER_SIZE && c == SLIP_END && s.started then [s.content] else []
  }

  function After(s: RxState, stream: seq<Byte>): RxState
    decreases stream
  {
    if stream == [] then s else After(Next(s, stream[0]), stream[1..])
  }

  function Delivered(s: RxState, stream: seq<Byte>): seq<seq<Byte>>
    decreases stream
  {
    if stream == [] then [] else Out(s, stream[0]) + Delivered(Next(s, stream[0]), stream[1..])
  }

  // Holds initially and after every byte: a full buffer is receiving and not escaping.
  predicate Reachable(s: RxState) {
    && |s.content| <= RS485_BUFFER_SIZE
    && (|s.content| == RS485_BUFFER_SIZE ==> s.started && !s.esc)
    && (!s.started ==> s.content == [])
  }

  lemma NextReachable(s: RxState, c: Byte)
    requires Reachable(s)
    ensures Reachable(Next(s, c))
  {}

  lemma {:induction false} AfterReachable(s: RxState, stream: seq<Byte>)
    requires Reachable(s)
    ensures Reachable(After(s, stream))
    decreases stream
  {
    hide Next, Reachable;
    if stream != [] {
      NextReachable(s, stream[0]);
      AfterReachable(Next(s, stream[0]), stream[1..]);
    }
  }

  lemma {:induction false} RunAppend(s: RxState, a: seq<Byte>, b: seq<Byte>)
    ensures After(s, a + b) == After(After(s, a), b)
    ensures Delivered(s, a + b) == Delivered(s, a) + Delivered(After(s, a), b)
    decreases a
  {
    hide Next, Out;
    if a == [] {
      assert a + b == b;
    } else {
      assert (a + b)[1..] == a[1..] + b;
      RunAppend(Next(s, a[0]), a[1..], b);
    }
  }

  lemma RunOne(s: RxState, c: Byte)
    ensures After(s, [c]) == Next(s, c)
    ensures Delivered(s, [c]) == Out(s, c)
  {
    hide Next, Out;
    assert [c][1..] == [];
  }

  // An ESC outside a message, or just before an END, leaves the flag set ...
  lemma StaleEscape()
    ensures After(IDLE, [0xC0]) == RxState(false, true, [])
    ensures After(IDLE, [0xC1, 0xC0, 0xC2]) == RxState(false, true, [])
  {
    var t := RxState(true, false, []);
    assert [0xC1, 0xC0, 0xC2] == [0xC1 as Byte] + ([0xC0] + [0xC2]);
    RunOne(IDLE, 0xC0);
    RunOne(IDLE, 0xC1);
    RunOne(t, 0xC0);
    RunOne(RxState(true, true, []), 0xC2);
    RunAppend(IDLE, [0xC1], [0xC0] + [0xC2]);
    RunAppend(t, [0xC0], [0xC2]);
  }

  // ... which no stream can tell from a clear one.
  lemma {:induction false} StaleEscapeHarmless(esc: bool, stream: seq<Byte>)
    ensures Delivered(RxState(false, esc, []), stream) == Delivered(IDLE, stream)
    decreases stream
  {
    if stream != [] {
      var c, rest := stream[0], stream[1..];
      if c != SLIP_START {
        StaleEscapeHarmless(Next(RxState(false, esc, []), c).esc, rest);
        StaleEscapeHarmless(Next(IDLE, c).esc, rest);
      }
    }
  }

  class Driver {
    const buffer: array<Byte>
    var position: nat
    var rxEsc: bool
    var startReceived: bool
    // Every message passed to reciveValidMsg so far.
    ghost var log: seq<seq<Byte>>

    ghost predicate Valid()
      reads this, buffer
    {
      buffer.Length == RS485_BUFFER_SIZE && position <= RS485_BUFFER_SIZE
    }

    ghost function State(): RxState
      requires Valid()
      reads this, buffer
    {
      RxState(startReceived, rxEsc, buffer[..position])
    }

    constructor ()
      ensures Valid() && fresh(buffer) && State() == IDLE && log == []
    {
      buffer := new Byte[RS485_BUFFER_SIZE](_ => 0);
      position, rxEsc, startReceived, log := 0, false, false, [];
    }

    method SerialEvent(c: Byte)
      requires Valid()
      modifies this, buffer
      ensures Valid()
      ensures State() == Next(old(State()), c)
      ensures log == old(log) + Out(old(State()), c)
    {
      if position < RS485_BUFFER_SIZE {
        if c == SLIP_START {
          startReceived := true;
          position := 0;
          rxEsc := false;
        } else if c == SLIP_END {
          if startReceived {
            startReceived := false;
            log := log + [buffer[..position]];
            position := 0;
          }
        } else if c == SLIP_ESC {
          rxEsc := true;
        } else if startReceived {
          if rxEsc {
            buffer[position] := SLIP_ESC + c;
            rxEsc := false;
          } else {
            buffer[position] := c;
          }
          position := position + 1;
        }
      } else {
        position := 0;
      }
    }

    // uart_event_task: every byte read from the UART goes through SerialEvent.
    method Receive(bytes: array<Byte>, len: nat)
      requires Valid() && bytes != buffer && len <= bytes.Length
      modifies this, buffer
      ensures Valid()
      ensures State() == After(old(State()), bytes[..len])
      ensures log == old(log) + Delivered(old(State()), bytes[..len])
    {
      hide Next, Out;
      ghost var all := bytes[..len];
      var i := 0;
      while i < len
        invariant 0 <= i <= len && Valid() && bytes[..len] == all
        invariant State() == After(old(State()), all[..i])
        invariant log == old(log) + Delivered(old(State()), all[..i])
      {
        RunAppend(old(State()), all[..i], [all[i]]);
        RunOne(State(), all[i]);
        assert all[..i + 1] == all[..i] + [all[i]];
        SerialEvent(bytes[i]);
        i := i + 1;
      }
      assert all[..len] == all;
    }
  }
}
