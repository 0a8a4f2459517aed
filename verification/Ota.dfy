/** The over-the-air update receiver: ReciveOTA (main/protocol.c:477-637) on top of
    starting_ota, ota_task and OTA_End (main/OTA.c:54-209). */
module Ota {
  import opened Crc16

  const U32 := 0x1_0000_0000
  const I32_LIMIT := 0x8000_0000
  const MAX_CHUNK := 400

  // esp_image_header_t, esp_image_segment_header_t and esp_app_desc_t of ESP-IDF.
  const IMAGE_HEADERS := 24 + 8 + 256

  datatype Message = Message(position: nat, data: seq<Byte>, programLength: nat) {
    predicate Valid() {
      position < U32 && |data| <= MAX_CHUNK && programLength < U32
    }
  }

  // How the flash calls made while one message is handled turn out.
  datatype Flash = Flash(beginOk: bool, writeOk: bool, endOk: bool, bootOk: bool)

  const SUCCESS := Flash(true, true, true, true)

  // The outside effects: flash calls, replies and the restart into the new image.
  datatype Event =
    | Start
    | Begin(ok: bool)
    | Write(data: seq<Byte>, ok: bool)
    | End(ok: bool)
    | SetBoot(ok: bool)
    | Restart
    | Reply(status: nat, position: nat)

  // The globals, and the effects so far.
  datatype State = State(
    headerChecked: bool,
    fileLength: int,
    lastPosition: nat,
    lastLength: nat,
    trace: seq<Event>)
  {
    function Emit(e: Event): State {
      this.(trace := trace + [e])
    }
  }

  const BOOT := State(false, 0, 0, 0, [])

  // binary_file_length is a 32-bit int.
  function AddInt32(x: int, y: nat): int {
    (x + y + I32_LIMIT) % U32 - I32_LIMIT
  }

  function Started(s: State): State {
    s.Emit(Start).(headerChecked := false, fileLength := 0)
  }

  function Written(s: State, data: seq<Byte>, flash: Flash): (State, nat) {
    var t := s.Emit(Write(data, flash.writeOk));
    if !flash.writeOk then (t, 5)
    else (t.(fileLength := AddInt32(t.fileLength, |data|)), 0)
  }

  // ota_task: checks the headers and begins on the first chunk, then writes.
  function Task(s: State, data: seq<Byte>, flash: Flash): (State, nat) {
    if |data| == 0 then (s, 0)
    else if s.headerChecked then Written(s, data, flash)
    else if |data| > IMAGE_HEADERS then
      var t := s.(headerChecked := true).Emit(Begin(flash.beginOk));
      if !flash.beginOk then (t, 3) else Written(t, data, flash)
    else (s, 4)
  }

  // OTA_End: on success the device reboots, which zeroes the globals.
  function Ended(s: State, flash: Flash): (State, nat) {
    var t := s.Emit(End(flash.endOk));
    if !flash.endOk then (t, 1)
    else
      var u := t.Emit(SetBoot(flash.bootOk));
      if !flash.bootOk then (u, 2)
      else (BOOT.(trace := u.trace).Emit(Restart), 0)
  }

  function Acknowledged(s: State, m: Message, status: nat): State {
    s.(lastPosition := m.position, lastLength := |m.data|).Emit(Reply(status, m.position))
  }

  function Store(s: State, m: Message, flash: Flash): State {
    var (t, err) := Task(s, m.data, flash);
    if err != 0 then t.Emit(Reply(4, m.position)) else Acknowledged(t, m, 1)
  }

  function StoreLast(s: State, m: Message, flash: Flash): State {
    var (t, err) := Task(s, m.data, flash);
    if err != 0 then t.Emit(Reply(4, m.position))
    else
      var (u, endErr) := Ended(Acknowledged(t, m, 6), flash);
      if endErr != 0 then u.Emit(Reply(4, m.position)) else u
  }

  // The branch that would answer 6 here when the last position is 0 cannot be reached: a
  // non-zero position is never at or below it.
  function Receive(s: State, m: Message, flash: Flash): State {
    if |m.data| == 0 then s
    else if m.position <= s.lastPosition && m.position != 0 then
      s.Emit(Reply(1, m.position))
    else if m.position != (s.lastPosition + s.lastLength) % U32 && m.position != 0 then
      s.Emit(Reply(5, s.lastPosition))
    else if m.position == 0 then
      Store(Started(s).(lastPosition := 0, lastLength := 0), m, flash)
    else if (m.position + |m.data|) % U32 >= m.programLength then
      StoreLast(s, m, flash)
    else
      Store(s, m, flash)
  }

  datatype Arrival = Arrival(message: Message, flash: Flash)

  function Run(s: State, arrivals: seq<Arrival>): State
    decreases arrivals
  {
    if arrivals == [] then s
    else Run(Receive(s, arrivals[0].message, arrivals[0].flash), arrivals[1..])
  }

  /* ---- What a trace says about the current session ---- */

  function SessionStep(bytes: seq<Byte>, e: Event): seq<Byte> {
    if e.Start? || e.Restart? then []
    else if e.Write? && e.ok then bytes + e.data
    else bytes
  }

  // Bytes written since the latest starting_ota or reboot.
  function SessionBytes(trace: seq<Event>): seq<Byte> {
    if trace == [] then [] else SessionStep(SessionBytes(trace[..|trace| - 1]), trace[|trace| - 1])
  }

  predicate BegunStep(begun: bool, e: Event) {
    if e.Start? || e.Restart? then false
    else begun || (e.Begin? && e.ok)
  }

  // esp_ota_begin has succeeded since the latest starting_ota or reboot.
  predicate Begun(trace: seq<Event>) {
    trace != [] && BegunStep(Begun(trace[..|trace| - 1]), trace[|trace| - 1])
  }

  lemma TraceSnoc(trace: seq<Event>, e: Event)
    ensures SessionBytes(trace + [e]) == SessionStep(SessionBytes(trace), e)
    ensures Begun(trace + [e]) == BegunStep(Begun(trace), e)
  {
    assert (trace + [e])[..|trace|] == trace;
  }

  // Every event of the trace meets the rule, given the events before it.
  ghost predicate Always(rule: (seq<Event>, Event) -> bool, trace: seq<Event>) {
    forall i :: 0 <= i < |trace| ==> rule(trace[..i], trace[i])
  }

  lemma AlwaysSnoc(rule: (seq<Event>, Event) -> bool, trace: seq<Event>, e: Event)
    ensures Always(rule, trace + [e]) <==> Always(rule, trace) && rule(trace, e)
  {
    var all := trace + [e];
    assert all[..|trace|] == trace && all[|trace|] == e;
    assert forall i :: 0 <= i < |trace| ==> all[..i] == trace[..i] && all[i] == trace[i];
    if Always(rule, all) {
      assert rule(all[..|trace|], all[|trace|]);
      forall i | 0 <= i < |trace|
        ensures rule(trace[..i], trace[i])
      {
        assert rule(all[..i], all[i]);
      }
    }
  }

  /* ---- The firmware ---- */

  class Device {
    var imageHeaderWasChecked: bool
    var binaryFileLength: int
    var lastPositionIndex: nat
    var lastOtaLength: nat
    ghost var trace: seq<Event>

    ghost function Abstract(): State
      reads this
    {
      State(imageHeaderWasChecked, binaryFileLength, lastPositionIndex, lastOtaLength, trace)
    }

    constructor ()
      ensures Abstract() == BOOT
    {
      imageHeaderWasChecked, binaryFileLength := false, 0;
      lastPositionIndex, lastOtaLength, trace := 0, 0, [];
    }

    method StartingOta() returns (err: nat)
      modifies this
      ensures err == 0 && Abstract() == Started(old(Abstract()))
    {
      trace := trace + [Start];
      imageHeaderWasChecked := false;
      binaryFileLength := 0;
      return 0;
    }

    method OtaTask(data: seq<Byte>, flash: Flash) returns (err: nat)
      modifies this
      ensures (Abstract(), err) == Task(old(Abstract()), data, flash)
    {
      if |data| > 0 {
        if !imageHeaderWasChecked {
          if |data| > IMAGE_HEADERS {
            imageHeaderWasChecked := true;
            trace := trace + [Begin(flash.beginOk)];
            if !flash.beginOk {
              return 3;
            }
          } else {
            return 4;
          }
        }
        trace := trace + [Write(data, flash.writeOk)];
        if !flash.writeOk {
          return 5;
        }
        binaryFileLength := AddInt32(binaryFileLength, |data|);
      }
      return 0;
    }

    method OtaEnd(flash: Flash) returns (err: nat)
      modifies this
      ensures (Abstract(), err) == Ended(old(Abstract()), flash)
    {
      trace := trace + [End(flash.endOk)];
      if !flash.endOk {
        return 1;
      }
      trace := trace + [SetBoot(flash.bootOk)];
      if !flash.bootOk {
        return 2;
      }
      trace := trace + [Restart];
      imageHeaderWasChecked, binaryFileLength, lastPositionIndex, lastOtaLength := false, 0, 0, 0;
      return 0;
    }

    method SendResponse(status: nat, position: nat)
      modifies this`trace
      ensures trace == old(trace) + [Reply(status, position)]
    {
      trace := trace + [Reply(status, position)];
    }

    method ReciveOta(m: Message, flash: Flash)
      requires m.Valid()
      modifies this
      ensures Abstract() == Receive(old(Abstract()), m, flash)
    {
      hide Task, Ended, AddInt32, Written;
      if |m.data| == 0 {
        return;
      }
      if m.position <= lastPositionIndex && m.position != 0 {
        assert lastPositionIndex != 0;
        SendResponse(1, m.position);
        return;
      }
      if m.position != (lastPositionIndex + lastOtaLength) % U32 && m.position != 0 {
        SendResponse(5, lastPositionIndex);
        return;
      }
      if m.position == 0 {
        var ret := StartingOta();
        assert ret == 0;
        lastPositionIndex := 0;
        lastOtaLength := 0;
      } else if (m.position + |m.data|) % U32 >= m.programLength {
        var ret := OtaTask(m.data, flash);
        if ret != 0 {
          SendResponse(4, m.position);
          return;
        }
        lastPositionIndex := m.position;
        lastOtaLength := |m.data|;
        SendResponse(6, m.position);
        ret := OtaEnd(flash);
        if ret != 0 {
          SendResponse(4, m.position);
          return;
        }
        return;
      }
      var ret := OtaTask(m.data, flash);
      if ret != 0 {
        SendResponse(4, m.position);
        return;
      }
      lastPositionIndex := m.position;
      lastOtaLength := |m.data|;
      SendResponse(1, m.position);
    }
  }
}
