/** Safety of the update over whole runs (main/protocol.c:483-637, main/OTA.c:54-209). */
module OtaSafety {
  import opened Crc16
  import opened Ota

  /* ---- Session discipline: no write and no end without a begun session ---- */

  predicate UsesSession(e: Event) {
    e.Write? || e.End?
  }

  predicate CallInSession(before: seq<Event>, e: Event) {
    UsesSession(e) ==> Begun(before)
  }

  // Every write and every end comes after a successful begin in the same session.
  ghost predicate Disciplined(trace: seq<Event>) {
    Always(CallInSession, trace)
  }

  lemma DisciplinedSnoc(trace: seq<Event>, e: Event)
    ensures Disciplined(trace + [e]) <==> Disciplined(trace) && (UsesSession(e) ==> Begun(trace))
  {
    AlwaysSnoc(CallInSession, trace, e);
  }

  // The device acknowledges a position only inside a begun session.
  predicate SessionKept(s: State) {
    s.lastPosition + s.lastLength != 0 ==> s.headerChecked && Begun(s.trace)
  }

  ghost predicate DisciplineInv(s: State) {
    Disciplined(s.trace) && SessionKept(s)
  }

  lemma EmitDisciplined(s: State, e: Event)
    requires Disciplined(s.trace) && (UsesSession(e) ==> Begun(s.trace))
    ensures Disciplined(s.Emit(e).trace)
    ensures Begun(s.Emit(e).trace) == BegunStep(Begun(s.trace), e)
  {
    hide Disciplined;
    DisciplinedSnoc(s.trace, e);
    TraceSnoc(s.trace, e);
  }

  lemma WrittenDisciplined(s: State, data: seq<Byte>, flash: Flash)
    requires Disciplined(s.trace) && Begun(s.trace)
    ensures var (t, err) := Written(s, data, flash);
            Disciplined(t.trace) && Begun(t.trace) && t.headerChecked == s.headerChecked
            && t.lastPosition == s.lastPosition && t.lastLength == s.lastLength
  {
    hide Disciplined, Begun, AddInt32;
    EmitDisciplined(s, Write(data, flash.writeOk));
  }

  // A task that reports success leaves a begun session; one that fails keeps what it found.
  lemma TaskDisciplined(s: State, data: seq<Byte>, flash: Flash)
    requires Disciplined(s.trace) && data != [] && (s.headerChecked ==> Begun(s.trace))
    ensures var (t, err) := Task(s, data, flash);
            && Disciplined(t.trace)
            && t.lastPosition == s.lastPosition && t.lastLength == s.lastLength
            && (err == 0 || s.headerChecked ==> t.headerChecked && Begun(t.trace))
  {
    hide Disciplined, Begun, Written;
    if s.headerChecked {
      WrittenDisciplined(s, data, flash);
    } else if |data| > IMAGE_HEADERS {
      var t := s.(headerChecked := true);
      EmitDisciplined(t, Begin(flash.beginOk));
      if flash.beginOk {
        WrittenDisciplined(t.Emit(Begin(true)), data, flash);
      }
    }
  }

  lemma EndedDisciplined(s: State, flash: Flash)
    requires DisciplineInv(s) && s.headerChecked && Begun(s.trace)
    ensures DisciplineInv(Ended(s, flash).0)
  {
    hide Disciplined, Begun;
    var t := s.Emit(End(flash.endOk));
    EmitDisciplined(s, End(flash.endOk));
    EmitDisciplined(t, SetBoot(flash.bootOk));
    EmitDisciplined(t.Emit(SetBoot(flash.bootOk)), Restart);
  }

  lemma StoreDisciplined(s: State, m: Message, flash: Flash)
    requires Disciplined(s.trace) && m.data != [] && (s.headerChecked ==> Begun(s.trace)) && SessionKept(s)
    ensures DisciplineInv(Store(s, m, flash))
  {
    hide Disciplined, Begun, Task;
    var (t, err) := Task(s, m.data, flash);
    TaskDisciplined(s, m.data, flash);
    EmitDisciplined(t, Reply(4, m.position));
    EmitDisciplined(t, Reply(1, m.position));
  }

  lemma StoreLastDisciplined(s: State, m: Message, flash: Flash)
    requires DisciplineInv(s) && m.data != [] && s.headerChecked && Begun(s.trace)
    ensures DisciplineInv(StoreLast(s, m, flash))
  {
    hide Disciplined, Begun, Task, Ended;
    var (t, err) := Task(s, m.data, flash);
    TaskDisciplined(s, m.data, flash);
    EmitDisciplined(t, Reply(4, m.position));
    EmitDisciplined(t, Reply(6, m.position));
    if err == 0 {
      var a := Acknowledged(t, m, 6);
      EndedDisciplined(a, flash);
      EmitDisciplined(Ended(a, flash).0, Reply(4, m.position));
    }
  }

  lemma ReceiveDisciplined(s: State, m: Message, flash: Flash)
    requires DisciplineInv(s) && m.Valid()
    ensures DisciplineInv(Receive(s, m, flash))
  {
    hide Disciplined, Begun, Store, StoreLast;
    EmitDisciplined(s, Reply(1, m.position));
    EmitDisciplined(s, Reply(5, s.lastPosition));
    if m.data == [] || (m.position <= s.lastPosition && m.position != 0)
       || (m.position != (s.lastPosition + s.lastLength) % U32 && m.position != 0) {
    } else if m.position == 0 {
      EmitDisciplined(s, Start);
      StoreDisciplined(Started(s).(lastPosition := 0, lastLength := 0), m, flash);
    } else if (m.position + |m.data|) % U32 >= m.programLength {
      StoreLastDisciplined(s, m, flash);
    } else {
      StoreDisciplined(s, m, flash);
    }
  }

  // Whatever arrives and however the flash calls turn out, no byte is ever written and no
  // session ended without one having begun.
  lemma {:induction false} NoCallBeforeBegin(s: State, arrivals: seq<Arrival>)
    requires DisciplineInv(s)
    requires forall i :: 0 <= i < |arrivals| ==> arrivals[i].message.Valid()
    ensures DisciplineInv(Run(s, arrivals))
    decreases arrivals
  {
    hide DisciplineInv, Receive;
    if arrivals != [] {
      ReceiveDisciplined(s, arrivals[0].message, arrivals[0].flash);
      NoCallBeforeBegin(Receive(s, arrivals[0].message, arrivals[0].flash), arrivals[1..]);
    }
  }

  /* ---- The bytes written are a prefix of the image; the update ends only when complete ---- */

  // m carries the slice of the image at its position (or nothing).
  predicate SliceOf(m: Message, image: seq<Byte>) {
    && m.Valid()
    && m.programLength == |image|
    && m.position + |m.data| <= |image|
    && m.data == image[m.position..m.position + |m.data|]
  }

  // The session is ended, or reported done.
  predicate IsFinal(e: Event) {
    e.End? || (e.Reply? && e.status == 6)
  }

  function EndRule(image: seq<Byte>): (seq<Event>, Event) -> bool {
    (before: seq<Event>, e: Event) => IsFinal(e) ==> SessionBytes(before) == image
  }

  // esp_ota_end is called, and 6 answered, only when the session holds the whole image.
  ghost predicate EndsComplete(trace: seq<Event>, image: seq<Byte>) {
    Always(EndRule(image), trace)
  }

  lemma EndsCompleteSnoc(trace: seq<Event>, e: Event, image: seq<Byte>)
    ensures EndsComplete(trace + [e], image) <==>
            EndsComplete(trace, image) && (IsFinal(e) ==> SessionBytes(trace) == image)
  {
    AlwaysSnoc(EndRule(image), trace, e);
  }

  // The session holds the first fileLength bytes of the image and nothing else.
  ghost predicate HoldsPrefix(s: State, image: seq<Byte>) {
    0 <= s.fileLength <= |image| && SessionBytes(s.trace) == image[..s.fileLength]
  }

  // ... and these are the bytes the device has accounted for.
  ghost predicate Accounted(s: State, image: seq<Byte>) {
    HoldsPrefix(s, image) && s.fileLength == s.lastPosition + s.lastLength
  }

  ghost predicate ImageInv(s: State, image: seq<Byte>) {
    Accounted(s, image) && EndsComplete(s.trace, image)
  }

  lemma EmitHolds(s: State, e: Event, image: seq<Byte>)
    requires HoldsPrefix(s, image)
    requires !e.Start? && !e.Restart? && !(e.Write? && e.ok)
    ensures HoldsPrefix(s.Emit(e), image)
  {
    hide SessionBytes;
    TraceSnoc(s.trace, e);
  }

  lemma ResetHolds(s: State, e: Event, image: seq<Byte>)
    requires e.Start? || e.Restart?
    ensures HoldsPrefix(s.Emit(e).(fileLength := 0), image)
  {
    hide SessionBytes;
    TraceSnoc(s.trace, e);
  }

  lemma NoOverflow(x: int, y: nat)
    requires 0 <= x && x + y < I32_LIMIT
    ensures AddInt32(x, y) == x + y
  {}

  lemma SliceAppend(image: seq<Byte>, n: nat, data: seq<Byte>)
    requires n + |data| <= |image| && data == image[n..n + |data|]
    ensures image[..n] + data == image[..n + |data|]
  {}

  lemma StoredHolds(s: State, data: seq<Byte>, length: int, image: seq<Byte>)
    requires HoldsPrefix(s, image)
    requires length == s.fileLength + |data| <= |image| && data == image[s.fileLength..length]
    ensures HoldsPrefix(s.Emit(Write(data, true)).(fileLength := length), image)
  {
    hide SessionBytes;
    TraceSnoc(s.trace, Write(data, true));
    SliceAppend(image, s.fileLength, data);
  }

  lemma WrittenHolds(s: State, data: seq<Byte>, flash: Flash, image: seq<Byte>)
    requires HoldsPrefix(s, image) && |image| < I32_LIMIT
    requires s.fileLength + |data| <= |image|
    requires data == image[s.fileLength..s.fileLength + |data|]
    ensures var (t, err) := Written(s, data, flash);
            && HoldsPrefix(t, image)
            && t.fileLength == (if err == 0 then s.fileLength + |data| else s.fileLength)
            && t.lastPosition == s.lastPosition && t.lastLength == s.lastLength
  {
    hide HoldsPrefix, AddInt32;
    Bounds(s, image);
    if flash.writeOk {
      NoOverflow(s.fileLength, |data|);
      StoredHolds(s, data, s.fileLength + |data|, image);
    } else {
      EmitHolds(s, Write(data, false), image);
    }
  }

  lemma TaskHolds(s: State, data: seq<Byte>, flash: Flash, image: seq<Byte>)
    requires HoldsPrefix(s, image) && |image| < I32_LIMIT && data != []
    requires s.fileLength + |data| <= |image| && data == image[s.fileLength..s.fileLength + |data|]
    ensures var (t, err) := Task(s, data, flash);
            && HoldsPrefix(t, image)
            && t.fileLength == (if err == 0 then s.fileLength + |data| else s.fileLength)
            && t.lastPosition == s.lastPosition && t.lastLength == s.lastLength
  {
    hide HoldsPrefix, Written;
    Bounds(s, image);
    if s.headerChecked {
      WrittenHolds(s, data, flash, image);
    } else if |data| > IMAGE_HEADERS {
      var t := s.(headerChecked := true);
      assert HoldsPrefix(t, image) by { SameHolds(s, t, image); }
      EmitHolds(t, Begin(flash.beginOk), image);
      if flash.beginOk {
        WrittenHolds(t.Emit(Begin(true)), data, flash, image);
      }
    }
  }

  lemma SameHolds(s: State, t: State, image: seq<Byte>)
    requires HoldsPrefix(s, image) && t.trace == s.trace && t.fileLength == s.fileLength
    ensures HoldsPrefix(t, image)
  {}

  lemma EmitEnds(s: State, e: Event, image: seq<Byte>)
    requires EndsComplete(s.trace, image) && (IsFinal(e) ==> SessionBytes(s.trace) == image)
    ensures EndsComplete(s.Emit(e).trace, image)
  {
    hide EndsComplete, SessionBytes;
    EndsCompleteSnoc(s.trace, e, image);
  }

  lemma TaskEnds(s: State, data: seq<Byte>, flash: Flash, image: seq<Byte>)
    requires EndsComplete(s.trace, image)
    ensures EndsComplete(Task(s, data, flash).0.trace, image)
  {
    hide EndsComplete, SessionBytes, AddInt32;
    var t := s.(headerChecked := true);
    EmitEnds(s, Write(data, flash.writeOk), image);
    EmitEnds(t, Begin(flash.beginOk), image);
    EmitEnds(t.Emit(Begin(flash.beginOk)), Write(data, flash.writeOk), image);
  }

  lemma EndedHolds(s: State, flash: Flash, image: seq<Byte>)
    requires ImageInv(s, image) && s.fileLength == |image|
    ensures ImageInv(Ended(s, flash).0, image)
  {
    hide EndsComplete, HoldsPrefix;
    var t := s.Emit(End(flash.endOk));
    var u := t.Emit(SetBoot(flash.bootOk));
    WholeImage(s, image);
    EmitHolds(s, End(flash.endOk), image);
    EmitEnds(s, End(flash.endOk), image);
    EmitHolds(t, SetBoot(flash.bootOk), image);
    EmitEnds(t, SetBoot(flash.bootOk), image);
    ResetHolds(u, Restart, image);
    SameHolds(u.Emit(Restart).(fileLength := 0), BOOT.(trace := u.trace).Emit(Restart), image);
    EmitEnds(u, Restart, image);
  }

  lemma WholeImage(s: State, image: seq<Byte>)
    requires HoldsPrefix(s, image) && s.fileLength == |image|
    ensures SessionBytes(s.trace) == image
  {
    assert image[..|image|] == image;
  }

  lemma AcknowledgedHolds(s: State, m: Message, status: nat, image: seq<Byte>)
    requires HoldsPrefix(s, image) && s.fileLength == m.position + |m.data|
    ensures Accounted(Acknowledged(s, m, status), image)
  {
    hide HoldsPrefix;
    var t := s.(lastPosition := m.position, lastLength := |m.data|);
    SameHolds(s, t, image);
    EmitHolds(t, Reply(status, m.position), image);
  }

  lemma ReplyHolds(s: State, e: Event, image: seq<Byte>)
    requires ImageInv(s, image) && e.Reply? && e.status != 6
    ensures ImageInv(s.Emit(e), image)
  {
    hide HoldsPrefix, EndsComplete;
    EmitHolds(s, e, image);
    EmitEnds(s, e, image);
  }

  lemma StoreHolds(s: State, m: Message, flash: Flash, image: seq<Byte>)
    requires ImageInv(s, image) && SliceOf(m, image) && |image| < I32_LIMIT
    requires m.data != [] && s.fileLength == m.position
    ensures ImageInv(Store(s, m, flash), image)
  {
    hide HoldsPrefix, EndsComplete, Task;
    var (t, err) := Task(s, m.data, flash);
    TaskHolds(s, m.data, flash, image);
    TaskEnds(s, m.data, flash, image);
    EmitEnds(t, Reply(4, m.position), image);
    EmitEnds(t, Reply(1, m.position), image);
    if err != 0 {
      EmitHolds(t, Reply(4, m.position), image);
    } else {
      AcknowledgedHolds(t, m, 1, image);
    }
  }

  lemma StoreLastHolds(s: State, m: Message, flash: Flash, image: seq<Byte>)
    requires ImageInv(s, image) && SliceOf(m, image) && |image| < I32_LIMIT
    requires m.data != [] && s.fileLength == m.position && m.position + |m.data| == |image|
    ensures ImageInv(StoreLast(s, m, flash), image)
  {
    hide HoldsPrefix, EndsComplete, Task, Ended;
    var (t, err) := Task(s, m.data, flash);
    TaskHolds(s, m.data, flash, image);
    TaskEnds(s, m.data, flash, image);
    EmitEnds(t, Reply(4, m.position), image);
    if err != 0 {
      EmitHolds(t, Reply(4, m.position), image);
    } else {
      WholeImage(t, image);
      EmitEnds(t, Reply(6, m.position), image);
      AcknowledgedHolds(t, m, 6, image);
      var a := Acknowledged(t, m, 6);
      EndedHolds(a, flash, image);
      ReplyHolds(Ended(a, flash).0, Reply(4, m.position), image);
    }
  }

  lemma ReceiveHolds(s: State, m: Message, flash: Flash, image: seq<Byte>)
    requires ImageInv(s, image) && SliceOf(m, image) && |image| < I32_LIMIT
    ensures ImageInv(Receive(s, m, flash), image)
  {
    hide HoldsPrefix, EndsComplete, Store, StoreLast;
    ReplyHolds(s, Reply(1, m.position), image);
    ReplyHolds(s, Reply(5, s.lastPosition), image);
    Bounds(s, image);
    if m.data == [] || (m.position <= s.lastPosition && m.position != 0)
       || (m.position != (s.lastPosition + s.lastLength) % U32 && m.position != 0) {
    } else if m.position == 0 {
      RestartHolds(s, image);
      StoreHolds(Started(s).(lastPosition := 0, lastLength := 0), m, flash, image);
    } else if (m.position + |m.data|) % U32 >= m.programLength {
      StoreLastHolds(s, m, flash, image);
    } else {
      StoreHolds(s, m, flash, image);
    }
  }

  lemma RestartHolds(s: State, image: seq<Byte>)
    ensures Accounted(Started(s).(lastPosition := 0, lastLength := 0), image)
    ensures EndsComplete(s.trace, image) ==> EndsComplete(Started(s).trace, image)
  {
    hide HoldsPrefix, EndsComplete;
    var t := Started(s).(lastPosition := 0, lastLength := 0);
    ResetHolds(s, Start, image);
    SameHolds(s.Emit(Start).(fileLength := 0), t, image);
    if EndsComplete(s.trace, image) {
      EmitEnds(s, Start, image);
    }
  }

  lemma Bounds(s: State, image: seq<Byte>)
    requires HoldsPrefix(s, image)
    ensures 0 <= s.fileLength <= |image|
  {}

  // Lost, duplicated and reordered slices of one image, with flash calls failing at will:
  // the session always holds exactly the prefix the device accounts for, and the update is
  // ended, and answered 6, only when that is the whole image.
  lemma {:induction false} UpdateSafe(s: State, arrivals: seq<Arrival>, image: seq<Byte>)
    requires ImageInv(s, image) && |image| < I32_LIMIT
    requires forall i :: 0 <= i < |arrivals| ==> SliceOf(arrivals[i].message, image)
    ensures ImageInv(Run(s, arrivals), image)
    decreases arrivals
  {
    hide ImageInv, Receive, SliceOf;
    if arrivals != [] {
      assert SliceOf(arrivals[0].message, image);
      ReceiveHolds(s, arrivals[0].message, arrivals[0].flash, image);
      UpdateSafe(Receive(s, arrivals[0].message, arrivals[0].flash), arrivals[1..], image);
    }
  }

  lemma BootSafe(image: seq<Byte>)
    ensures ImageInv(BOOT, image) && DisciplineInv(BOOT)
  {}

  // A message only adds to the trace.
  lemma ReceiveExtends(s: State, m: Message, flash: Flash)
    ensures s.trace <= Receive(s, m, flash).trace
  {
    hide Task, Ended;
    var r := if m.position == 0 then Started(s).(lastPosition := 0, lastLength := 0) else s;
    var t := Task(r, m.data, flash).0;
    TaskExtends(r, m.data, flash);
    EndedExtends(Acknowledged(t, m, 6), flash);
  }

  lemma TaskExtends(s: State, data: seq<Byte>, flash: Flash)
    ensures s.trace <= Task(s, data, flash).0.trace
  {}

  lemma EndedExtends(s: State, flash: Flash)
    ensures s.trace <= Ended(s, flash).0.trace
  {}

  lemma {:induction false} RunExtends(s: State, arrivals: seq<Arrival>)
    ensures s.trace <= Run(s, arrivals).trace
    decreases arrivals
  {
    hide Receive;
    if arrivals != [] {
      ReceiveExtends(s, arrivals[0].message, arrivals[0].flash);
      RunExtends(Receive(s, arrivals[0].message, arrivals[0].flash), arrivals[1..]);
    }
  }

  // After a reboot, data from the middle of an image is answered as a hole (5), not as done
  // (6): the branch meant for that case is never taken. Nothing else happens until position 0
  // comes again.
  lemma {:induction false} AfterRebootOnlyHoles(s: State, arrivals: seq<Arrival>)
    requires s.lastPosition == 0 && s.lastLength == 0
    requires forall i :: 0 <= i < |arrivals| ==> arrivals[i].message.Valid() && arrivals[i].message.position != 0
    ensures Run(s, arrivals) == s.(trace := s.trace + Holes(arrivals))
    decreases arrivals
  {
    hide Receive, Holes, Message.Valid;
    if arrivals == [] {
      NoHoles(s.trace, arrivals);
    } else {
      var m, flash, rest := arrivals[0].message, arrivals[0].flash, arrivals[1..];
      HoleAfterReboot(s, m, flash);
      HolesFirst(s.trace, arrivals);
      AfterRebootOnlyHoles(Receive(s, m, flash), rest);
    }
  }

  lemma NoHoles(trace: seq<Event>, arrivals: seq<Arrival>)
    requires arrivals == []
    ensures trace + Holes(arrivals) == trace
  {}

  lemma HolesFirst(trace: seq<Event>, arrivals: seq<Arrival>)
    requires arrivals != []
    ensures trace + Holes(arrivals)
            == (if arrivals[0].message.data == [] then trace else trace + [Reply(5, 0)]) + Holes(arrivals[1..])
  {}

  lemma HoleAfterReboot(s: State, m: Message, flash: Flash)
    requires s.lastPosition == 0 && s.lastLength == 0 && m.Valid() && m.position != 0
    ensures Receive(s, m, flash) == s.(trace := if m.data == [] then s.trace else s.trace + [Reply(5, 0)])
  {}

  // One reply of 5 for each message that carries data.
  function Holes(arrivals: seq<Arrival>): seq<Event> {
    if arrivals == [] then []
    else (if arrivals[0].message.data == [] then [] else [Reply(5, 0)]) + Holes(arrivals[1..])
  }
}
