/** What each kind of message does, event by event (main/protocol.c:483-637, main/OTA.c:54-209). */
module OtaAnswers {
  import opened Crc16
  import opened Ota
  import opened OtaSafety

  /* ---- Results of the flash layer ---- */

  // binary_file_length wraps as a 32-bit int does.
  lemma Int32Wraps(x: int, y: nat)
    ensures -0x8000_0000 <= AddInt32(x, y) < 0x8000_0000
    ensures (AddInt32(x, y) - (x + y)) % 0x1_0000_0000 == 0
  {
    var z := x + y + I32_LIMIT;
    assert AddInt32(x, y) - (x + y) == U32 * -(z / U32);
    MultipleOfU32(-(z / U32));
  }

  lemma MultipleOfU32(k: int)
    ensures (U32 * k) % U32 == 0
  {}

  // ota_task returns 4 for a first chunk within the headers and does nothing; otherwise 3
  // exactly if a begin failed, 5 exactly if the write failed, 0 exactly if it was done.
  lemma TaskResult(s: State, data: seq<Byte>, flash: Flash)
    requires data != []
    ensures var (t, err) := Task(s, data, flash);
            && s.trace <= t.trace
            && var added := t.trace[|s.trace|..];
               && (err == 4 <==> added == [])
               && (err == 4 <==> !s.headerChecked && |data| <= 288)
               && (err == 3 <==> added == [Begin(false)])
               && (err == 5 <==> Write(data, false) in added)
               && (err == 0 <==> Write(data, true) in added)
  {
    hide AddInt32;
    var w := Write(data, flash.writeOk);
    var b := Begin(flash.beginOk);
    AddedEvents(s.trace, [], s.trace);
    AddedEvents(s.trace, [w], s.trace + [w]);
    AddedEvents(s.trace, [b], s.trace + [b]);
    AddedEvents(s.trace, [b, w], s.trace + [b] + [w]);
    assert w in [b, w] && w in [w];
  }

  lemma AddedEvents(before: seq<Event>, events: seq<Event>, after: seq<Event>)
    requires after == before + events
    ensures after[|before|..] == events
  {}

  // OTA_End returns 1 exactly if the end failed, 2 exactly if setting the boot partition did;
  // otherwise the device restarts.
  lemma EndResult(s: State, flash: Flash)
    ensures var (t, err) := Ended(s, flash);
            && s.trace <= t.trace
            && var added := t.trace[|s.trace|..];
               && (err == 1 <==> added == [End(false)])
               && (err == 2 <==> added == [End(true), SetBoot(false)])
               && (err == 0 <==> added == [End(true), SetBoot(true), Restart])
               && (err != 0 ==> t.(trace := s.trace) == s)
               && (err == 0 ==> t.(trace := []) == BOOT)
  {}

  /* ---- Position 0 ---- */

  // A message at position 0 always starts a session first. Too short for the headers it leaves
  // nothing but that; otherwise the chunk is begun and written as far as the flash calls go.
  function RestartEvents(data: seq<Byte>, flash: Flash): seq<Event> {
    if |data| <= 288 then [Start, Reply(4, 0)]
    else if !flash.beginOk then [Start, Begin(false), Reply(4, 0)]
    else if !flash.writeOk then [Start, Begin(true), Write(data, false), Reply(4, 0)]
    else [Start, Begin(true), Write(data, true), Reply(1, 0)]
  }

  lemma RestartAnswer(s: State, m: Message, flash: Flash)
    requires m.Valid() && m.position == 0 && m.data != []
    ensures var t := Receive(s, m, flash);
            && t.trace == s.trace + RestartEvents(m.data, flash)
            && t.lastPosition == 0
            && t.headerChecked == (|m.data| > 288)
            && var stored := t.headerChecked && flash.beginOk && flash.writeOk;
               t.fileLength == t.lastLength == if stored then |m.data| else 0
  {}

  // From every state a first chunk that is too short leaves the device as after a reboot.
  lemma TooShortResets(s: State, m: Message, flash: Flash)
    requires m.Valid() && m.position == 0 && 0 < |m.data| <= IMAGE_HEADERS
    ensures Receive(s, m, flash) == BOOT.(trace := s.trace + [Start, Reply(4, 0)])
  {
    RestartAnswer(s, m, flash);
  }

  // ... so that any run without position 0 is then answered with holes only.
  lemma TooShortThenHoles(s: State, m: Message, flash: Flash, arrivals: seq<Arrival>)
    requires m.Valid() && m.position == 0 && 0 < |m.data| <= IMAGE_HEADERS
    requires forall i :: 0 <= i < |arrivals| ==> arrivals[i].message.Valid() && arrivals[i].message.position != 0
    ensures Run(s, [Arrival(m, flash)] + arrivals)
            == BOOT.(trace := s.trace + [Start, Reply(4, 0)] + Holes(arrivals))
  {
    hide Receive, Holes, Message.Valid;
    var all := [Arrival(m, flash)] + arrivals;
    assert all[1..] == arrivals;
    TooShortResets(s, m, flash);
    AfterRebootOnlyHoles(Receive(s, m, flash), arrivals);
  }

  /* ---- Other positions ---- */

  // A 32-bit sum of two numbers below 2^32.
  function Sum32(x: nat, y: nat): nat {
    if x + y < 0x1_0000_0000 then x + y else x + y - 0x1_0000_0000
  }

  // Where the device expects the next chunk.
  function Expects(s: State): nat {
    Sum32(s.lastPosition, s.lastLength)
  }

  predicate InRange(s: State) {
    s.lastPosition < U32 && s.lastLength <= MAX_CHUNK
  }

  lemma InRangeKept(s: State, m: Message, flash: Flash)
    requires InRange(s) && m.Valid()
    ensures InRange(Receive(s, m, flash))
  {
    hide AddInt32;
  }

  // Every run from boot stays in the states the answers below are stated for.
  lemma {:induction false} RunInRange(s: State, arrivals: seq<Arrival>)
    requires InRange(s) && DisciplineInv(s)
    requires forall i :: 0 <= i < |arrivals| ==> arrivals[i].message.Valid()
    ensures InRange(Run(s, arrivals)) && SessionKept(Run(s, arrivals))
    decreases arrivals
  {
    hide Receive, InRange, SessionKept, Disciplined;
    if arrivals != [] {
      InRangeKept(s, arrivals[0].message, arrivals[0].flash);
      ReceiveDisciplined(s, arrivals[0].message, arrivals[0].flash);
      RunInRange(Receive(s, arrivals[0].message, arrivals[0].flash), arrivals[1..]);
    }
  }

  lemma BootInRange()
    ensures InRange(BOOT) && DisciplineInv(BOOT)
  {}

  // At or below the last position: acknowledged, nothing done.
  lemma RepeatAnswer(s: State, m: Message, flash: Flash)
    requires m.Valid() && InRange(s) && m.data != [] && 0 < m.position <= s.lastPosition
    ensures Receive(s, m, flash) == s.(trace := s.trace + [Reply(1, m.position)])
  {}

  // Above it, but not where the next chunk is expected: a hole, naming the last position.
  lemma HoleAnswer(s: State, m: Message, flash: Flash)
    requires m.Valid() && InRange(s) && m.data != [] && m.position > s.lastPosition && m.position != Expects(s)
    ensures Receive(s, m, flash) == s.(trace := s.trace + [Reply(5, s.lastPosition)])
  {}

  // Where the next chunk is expected, short of the program length by 32-bit arithmetic.
  function MiddleEvents(m: Message, flash: Flash): seq<Event> {
    if flash.writeOk then [Write(m.data, true), Reply(1, m.position)]
    else [Write(m.data, false), Reply(4, m.position)]
  }

  lemma MiddleAnswer(s: State, m: Message, flash: Flash)
    requires m.Valid() && InRange(s) && SessionKept(s)
    requires m.data != [] && m.position > s.lastPosition && m.position == Expects(s)
    requires Sum32(m.position, |m.data|) < m.programLength
    ensures var r := s.(trace := s.trace + MiddleEvents(m, flash));
            Receive(s, m, flash)
            == if flash.writeOk then
                 r.(lastPosition := m.position, lastLength := |m.data|, fileLength := AddInt32(s.fileLength, |m.data|))
               else r
  {
    hide AddInt32;
    assert s.lastPosition + s.lastLength != 0;
  }

  // Where the next chunk is expected, reaching the program length: written, reported as done,
  // then ended; on success the device reboots.
  function LastEvents(m: Message, flash: Flash): seq<Event> {
    if !flash.writeOk then [Write(m.data, false), Reply(4, m.position)]
    else
      [Write(m.data, true), Reply(6, m.position)] +
      if !flash.endOk then [End(false), Reply(4, m.position)]
      else if !flash.bootOk then [End(true), SetBoot(false), Reply(4, m.position)]
      else [End(true), SetBoot(true), Restart]
  }

  lemma LastAnswer(s: State, m: Message, flash: Flash)
    requires m.Valid() && InRange(s) && SessionKept(s)
    requires m.data != [] && m.position > s.lastPosition && m.position == Expects(s)
    requires Sum32(m.position, |m.data|) >= m.programLength
    ensures var r := s.(trace := s.trace + LastEvents(m, flash));
            Receive(s, m, flash)
            == if !flash.writeOk then r
               else if flash.endOk && flash.bootOk then BOOT.(trace := r.trace)
               else
                 r.(lastPosition := m.position, lastLength := |m.data|, fileLength := AddInt32(s.fileLength, |m.data|))
  {
    hide AddInt32;
    assert s.lastPosition + s.lastLength != 0;
  }

  // These are all the cases: an empty message does nothing at all.
  lemma EmptyAnswer(s: State, m: Message, flash: Flash)
    requires m.data == []
    ensures Receive(s, m, flash) == s
  {}
}
