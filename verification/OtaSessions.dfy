/** Calls on ended sessions: esp_ota_end gives up the handle whether or not it succeeds
    (main/OTA.c:148-191, main/protocol.c:566-604). */
module OtaSessions {
  import opened Crc16
  import opened Ota
  import opened OtaSafety
  import opened OtaAcks

  predicate LiveStep(live: bool, e: Event) {
    if e.Start? || e.Restart? || e.End? then false
    else live || (e.Begin? && e.ok)
  }

  // A session has begun and has not been ended since.
  predicate Live(trace: seq<Event>) {
    trace != [] && LiveStep(Live(trace[..|trace| - 1]), trace[|trace| - 1])
  }

  predicate CallOnLive(before: seq<Event>, e: Event) {
    UsesSession(e) ==> Live(before)
  }

  // Every write and every end is made on a session not ended yet.
  ghost predicate Orderly(trace: seq<Event>) {
    Always(CallOnLive, trace)
  }

  lemma EmitOrderly(s: State, e: Event)
    ensures Live(s.Emit(e).trace) == LiveStep(Live(s.trace), e)
    ensures Orderly(s.Emit(e).trace) <==> Orderly(s.trace) && (UsesSession(e) ==> Live(s.trace))
  {
    assert (s.trace + [e])[..|s.trace|] == s.trace;
    AlwaysSnoc(CallOnLive, s.trace, e);
  }

  lemma AlwaysPrefix(rule: (seq<Event>, Event) -> bool, a: seq<Event>, b: seq<Event>)
    requires a <= b && Always(rule, b)
    ensures Always(rule, a)
  {
    forall i | 0 <= i < |a|
      ensures rule(a[..i], a[i])
    {
      assert a[..i] == b[..i] && a[i] == b[i];
    }
  }

  lemma TaskOrderly(s: State, data: seq<Byte>, flash: Flash)
    requires Orderly(s.trace) && data != [] && (s.headerChecked ==> Live(s.trace))
    ensures var (t, err) := Task(s, data, flash);
            && Orderly(t.trace)
            && (err == 0 || s.headerChecked ==> Live(t.trace))
  {
    hide Orderly, Live, AddInt32;
    var b := s.(headerChecked := true);
    var w := Write(data, flash.writeOk);
    EmitOrderly(s, w);
    EmitOrderly(b, Begin(flash.beginOk));
    EmitOrderly(b.Emit(Begin(flash.beginOk)), w);
  }

  lemma EndedOrderly(s: State, flash: Flash)
    requires Orderly(s.trace) && Live(s.trace)
    ensures Orderly(Ended(s, flash).0.trace)
  {
    hide Orderly, Live;
    var t := s.Emit(End(flash.endOk));
    var u := t.Emit(SetBoot(flash.bootOk));
    EmitOrderly(s, End(flash.endOk));
    EmitOrderly(t, SetBoot(flash.bootOk));
    EmitOrderly(u, Restart);
  }

  lemma StoreOrderly(s: State, m: Message, flash: Flash)
    requires Orderly(s.trace) && m.data != [] && (s.headerChecked ==> Live(s.trace))
    ensures var (t, err) := Task(s, m.data, flash);
            && Orderly(Store(s, m, flash).trace)
            && (err == 0 || s.headerChecked ==> Live(Store(s, m, flash).trace))
  {
    hide Orderly, Live, Task;
    var (t, err) := Task(s, m.data, flash);
    TaskOrderly(s, m.data, flash);
    EmitOrderly(t, Reply(4, m.position));
    EmitOrderly(t, Reply(1, m.position));
  }

  lemma StoreLastOrderly(s: State, m: Message, flash: Flash)
    requires Orderly(s.trace) && m.data != [] && (s.headerChecked ==> Live(s.trace))
    ensures Orderly(StoreLast(s, m, flash).trace)
    ensures Task(s, m.data, flash).1 != 0 && s.headerChecked ==> Live(StoreLast(s, m, flash).trace)
  {
    hide Orderly, Live, Task, Ended;
    var (t, err) := Task(s, m.data, flash);
    TaskOrderly(s, m.data, flash);
    EmitOrderly(t, Reply(4, m.position));
    EmitOrderly(t, Reply(6, m.position));
    if err == 0 {
      var a := Acknowledged(t, m, 6);
      EndedOrderly(a, flash);
      EmitOrderly(Ended(a, flash).0, Reply(4, m.position));
    }
  }

  /* ---- Any messages: exactly when a call goes to an ended session ---- */

  // The message continues where the device stands although the session has been ended.
  predicate ExtendsEnded(s: State, m: Message) {
    && m.data != []
    && m.position > s.lastPosition
    && m.position == (s.lastPosition + s.lastLength) % U32
    && !Live(s.trace)
  }

  lemma ExtendingWrites(s: State, m: Message, flash: Flash)
    requires m.Valid() && SessionKept(s) && ExtendsEnded(s, m)
    ensures s.trace + [Write(m.data, flash.writeOk)] <= Receive(s, m, flash).trace
  {}

  lemma ReceiveOrderly(s: State, m: Message, flash: Flash)
    requires m.Valid() && SessionKept(s) && Orderly(s.trace)
    ensures Orderly(Receive(s, m, flash).trace) <==> !ExtendsEnded(s, m)
  {
    hide Orderly, Live, Store, StoreLast;
    if ExtendsEnded(s, m) {
      ExtendingBreaks(s, m, flash);
    } else if m.data == [] {
    } else if m.position != 0 && (m.position <= s.lastPosition || m.position != (s.lastPosition + s.lastLength) % U32) {
      EmitOrderly(s, Reply(1, m.position));
      EmitOrderly(s, Reply(5, s.lastPosition));
    } else if m.position == 0 {
      EmitOrderly(s, Start);
      StoreOrderly(Started(s).(lastPosition := 0, lastLength := 0), m, flash);
    } else if (m.position + |m.data|) % U32 >= m.programLength {
      StoreLastOrderly(s, m, flash);
    } else {
      StoreOrderly(s, m, flash);
    }
  }

  lemma ExtendingBreaks(s: State, m: Message, flash: Flash)
    requires m.Valid() && SessionKept(s) && ExtendsEnded(s, m)
    ensures !Orderly(Receive(s, m, flash).trace)
  {
    hide Live, Receive;
    var w := Write(m.data, flash.writeOk);
    ExtendingWrites(s, m, flash);
    EmitOrderly(s, w);
    if Orderly(Receive(s, m, flash).trace) {
      AlwaysPrefix(CallOnLive, s.trace + [w], Receive(s, m, flash).trace);
    }
  }

  predicate NeverExtendsEnded(s: State, arrivals: seq<Arrival>)
    decreases arrivals
  {
    arrivals == []
    || (!ExtendsEnded(s, arrivals[0].message)
        && NeverExtendsEnded(Receive(s, arrivals[0].message, arrivals[0].flash), arrivals[1..]))
  }

  // Over any run at all, calls stay on sessions not ended exactly if no message extends an
  // ended one.
  lemma {:induction false} OrderlyIff(s: State, arrivals: seq<Arrival>)
    requires DisciplineInv(s) && Orderly(s.trace)
    requires forall i :: 0 <= i < |arrivals| ==> arrivals[i].message.Valid()
    ensures Orderly(Run(s, arrivals).trace) <==> NeverExtendsEnded(s, arrivals)
    decreases arrivals
  {
    hide Receive, ExtendsEnded, Disciplined, Orderly;
    if arrivals != [] {
      var m, flash, rest := arrivals[0].message, arrivals[0].flash, arrivals[1..];
      var t := Receive(s, m, flash);
      ReceiveOrderly(s, m, flash);
      ReceiveDisciplined(s, m, flash);
      if ExtendsEnded(s, m) {
        RunExtends(t, rest);
        if Orderly(Run(t, rest).trace) {
          OrderlyPrefix(t.trace, Run(t, rest).trace);
        }
      } else {
        OrderlyIff(t, rest);
      }
    }
  }

  lemma OrderlyPrefix(a: seq<Event>, b: seq<Event>)
    requires a <= b && Orderly(b)
    ensures Orderly(a)
  {
    AlwaysPrefix(CallOnLive, a, b);
  }

  /* ---- Slices of one image never do ---- */

  // While the image is incomplete, a session with bytes in it is live.
  ghost predicate LiveWhileIncomplete(s: State, image: seq<Byte>) {
    s.fileLength < |image| && s.lastPosition + s.lastLength != 0 ==> Live(s.trace)
  }

  lemma SliceExtendsLive(s: State, m: Message, image: seq<Byte>)
    requires ImageInv(s, image) && SliceOf(m, image) && |image| < I32_LIMIT && LiveWhileIncomplete(s, image)
    ensures !ExtendsEnded(s, m)
  {
    hide HoldsPrefix, EndsComplete, Live;
    Bounds(s, image);
  }

  lemma StoreLive(s: State, m: Message, flash: Flash, image: seq<Byte>)
    requires ImageInv(s, image) && SliceOf(m, image) && |image| < I32_LIMIT && m.data != []
    requires Orderly(s.trace) && s.fileLength == m.position
    requires if s.lastPosition + s.lastLength == 0 then !s.headerChecked else s.headerChecked && Live(s.trace)
    ensures LiveWhileIncomplete(Store(s, m, flash), image)
  {
    hide Live, Orderly, Task, HoldsPrefix, EndsComplete;
    StoreOrderly(s, m, flash);
    TaskHolds(s, m.data, flash, image);
  }

  lemma StoreLastLive(s: State, m: Message, flash: Flash, image: seq<Byte>)
    requires ImageInv(s, image) && SliceOf(m, image) && |image| < I32_LIMIT && m.data != []
    requires Orderly(s.trace) && s.fileLength == m.position && s.headerChecked && Live(s.trace)
    requires m.position + |m.data| == |image|
    ensures LiveWhileIncomplete(StoreLast(s, m, flash), image)
  {
    hide Live, Orderly, Task, Ended, HoldsPrefix, EndsComplete;
    var (t, err) := Task(s, m.data, flash);
    TaskHolds(s, m.data, flash, image);
    if err != 0 {
      StoreLastOrderly(s, m, flash);
    } else {
      EndedLength(Acknowledged(t, m, 6), flash);
    }
  }

  // An end leaves the globals as they are or reboots.
  lemma EndedLength(s: State, flash: Flash)
    ensures var t := Ended(s, flash).0;
            (t.fileLength == s.fileLength) || t.lastPosition + t.lastLength == 0
  {}

  lemma ReceiveLive(s: State, m: Message, flash: Flash, image: seq<Byte>)
    requires ImageInv(s, image) && SliceOf(m, image) && |image| < I32_LIMIT
    requires LiveWhileIncomplete(s, image) && SessionKept(s) && Orderly(s.trace)
    ensures LiveWhileIncomplete(Receive(s, m, flash), image)
  {
    hide Live, Orderly, Store, StoreLast, HoldsPrefix, EndsComplete;
    Bounds(s, image);
    if m.data == [] {
    } else if m.position != 0 && (m.position <= s.lastPosition || m.position != (s.lastPosition + s.lastLength) % U32) {
      EmitOrderly(s, Reply(1, m.position));
      EmitOrderly(s, Reply(5, s.lastPosition));
    } else if m.position == 0 {
      var t := Started(s).(lastPosition := 0, lastLength := 0);
      EmitOrderly(s, Start);
      RestartHolds(s, image);
      StoreLive(t, m, flash, image);
    } else if (m.position + |m.data|) % U32 >= m.programLength {
      StoreLastLive(s, m, flash, image);
    } else {
      StoreLive(s, m, flash, image);
    }
  }

  // In every run on slices of one image each write and each end is made on a session that has
  // begun and not been ended since.
  lemma {:induction false} NoCallOnEndedSession(s: State, arrivals: seq<Arrival>, image: seq<Byte>)
    requires ImageInv(s, image) && |image| < I32_LIMIT
    requires DisciplineInv(s) && Orderly(s.trace) && LiveWhileIncomplete(s, image)
    requires forall i :: 0 <= i < |arrivals| ==> SliceOf(arrivals[i].message, image)
    ensures Orderly(Run(s, arrivals).trace)
    decreases arrivals
  {
    hide Receive, ExtendsEnded, Disciplined, Orderly, ImageInv, LiveWhileIncomplete;
    if arrivals != [] {
      var m, flash := arrivals[0].message, arrivals[0].flash;
      assert SliceOf(m, image);
      SliceExtendsLive(s, m, image);
      ReceiveOrderly(s, m, flash);
      ReceiveDisciplined(s, m, flash);
      ReceiveHolds(s, m, flash, image);
      ReceiveLive(s, m, flash, image);
      NoCallOnEndedSession(Receive(s, m, flash), arrivals[1..], image);
    }
  }

  lemma BootOrderly(arrivals: seq<Arrival>, image: seq<Byte>)
    requires |image| < I32_LIMIT
    requires forall i :: 0 <= i < |arrivals| ==> SliceOf(arrivals[i].message, image)
    ensures Orderly(Run(BOOT, arrivals).trace)
  {
    hide Run;
    BootSafe(image);
    NoCallOnEndedSession(BOOT, arrivals, image);
  }

  // A message beyond the image does extend an ended session: after a failed end it is written
  // and the session ended a second time.
  lemma SecondEnd(image: seq<Byte>, b: Byte) returns (s: State)
    requires |image| == 600
    ensures s.fileLength == 600 && ExtendsEnded(s, Message(600, [b], 600))
    ensures Receive(s, Message(600, [b], 600), SUCCESS).trace
            == s.trace + [Write([b], true), Reply(6, 600), End(true), SetBoot(true), Restart]
  {
    hide Live;
    s := FailedEndReached(image);
    NotLiveAfterEnd(s.trace);
  }

  lemma NotLiveAfterEnd(trace: seq<Event>)
    requires |trace| >= 2 && trace[|trace| - 2..] == [End(false), Reply(4, 300)]
    ensures !Live(trace)
  {
    var before := trace[..|trace| - 1];
    assert trace[|trace| - 2..][0] == End(false) && trace[|trace| - 2..][1] == Reply(4, 300);
    assert before[|before| - 1] == End(false);
    assert !Live(before);
  }
}
