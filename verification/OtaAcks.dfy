/** When an acknowledgement is true for any sender of slices of one image, and what a failed
    end of the update leaves behind (main/protocol.c:509-636). */
module OtaAcks {
  import opened Crc16
  import opened Ota
  import opened OtaSafety
  import opened OtaDelivery

  /* ---- One message ---- */

  // The guard of the duplicate branch, for a slice that reaches past the accounted bytes.
  predicate LongDuplicate(s: State, m: Message) {
    && m.data != []
    && 0 < m.position <= s.lastPosition
    && m.position + |m.data| > s.lastPosition + s.lastLength
  }

  // A duplicate is always acknowledged, and the acknowledgement is true exactly when the slice
  // does not reach past what is accounted for.
  lemma DuplicateAnswer(s: State, m: Message, flash: Flash, image: seq<Byte>)
    requires ImageInv(s, image) && SliceOf(m, image)
    requires m.data != [] && 0 < m.position <= s.lastPosition
    ensures Receive(s, m, flash) == s.Emit(Reply(1, m.position))
    ensures StoredUpTo(s.trace, m.position + |m.data|, image) <==> !LongDuplicate(s, m)
  {
    hide SessionBytes, EndsComplete;
    var n := m.position + |m.data|;
    if n <= s.fileLength {
      assert image[..s.fileLength][..n] == image[..n];
    }
  }

  // Every acknowledgement from event number start on names m's position and bytes held then.
  ghost function TruthRule(m: Message, image: seq<Byte>, start: nat): (seq<Event>, Event) -> bool {
    (before: seq<Event>, e: Event) =>
      |before| >= start && IsAck(e) ==>
        e.position == m.position && StoredUpTo(before, m.position + |m.data|, image)
  }

  ghost predicate TrueSince(trace: seq<Event>, m: Message, image: seq<Byte>, start: nat) {
    Always(TruthRule(m, image, start), trace)
  }

  // The acknowledgements sent for this one message are true.
  ghost predicate AcksTrueFor(s: State, m: Message, flash: Flash, image: seq<Byte>) {
    TrueSince(Receive(s, m, flash).trace, m, image, |s.trace|)
  }

  lemma NoneYet(trace: seq<Event>, m: Message, image: seq<Byte>)
    ensures TrueSince(trace, m, image, |trace|)
  {}

  lemma EmitTrue(s: State, e: Event, m: Message, image: seq<Byte>, start: nat)
    requires start <= |s.trace|
    ensures TrueSince(s.Emit(e).trace, m, image, start) <==>
            TrueSince(s.trace, m, image, start)
            && (IsAck(e) ==> e.position == m.position && StoredUpTo(s.trace, m.position + |m.data|, image))
  {
    hide Always, StoredUpTo;
    AlwaysSnoc(TruthRule(m, image, start), s.trace, e);
  }

  lemma TaskTrue(s: State, data: seq<Byte>, flash: Flash, m: Message, image: seq<Byte>, start: nat)
    requires start <= |s.trace| && TrueSince(s.trace, m, image, start)
    ensures var t := Task(s, data, flash).0; TrueSince(t.trace, m, image, start) && start <= |t.trace|
  {
    hide TrueSince, StoredUpTo, AddInt32;
    var t := s.(headerChecked := true);
    EmitTrue(s, Write(data, flash.writeOk), m, image, start);
    EmitTrue(t, Begin(flash.beginOk), m, image, start);
    EmitTrue(t.Emit(Begin(flash.beginOk)), Write(data, flash.writeOk), m, image, start);
  }

  lemma EndedTrue(s: State, flash: Flash, m: Message, image: seq<Byte>, start: nat)
    requires start <= |s.trace| && TrueSince(s.trace, m, image, start)
    ensures var t := Ended(s, flash).0; TrueSince(t.trace, m, image, start) && start <= |t.trace|
  {
    hide TrueSince, StoredUpTo;
    var t := s.Emit(End(flash.endOk));
    var u := t.Emit(SetBoot(flash.bootOk));
    EmitTrue(s, End(flash.endOk), m, image, start);
    EmitTrue(t, SetBoot(flash.bootOk), m, image, start);
    EmitTrue(u, Restart, m, image, start);
  }

  lemma HeldUpTo(s: State, n: nat, image: seq<Byte>)
    requires HoldsPrefix(s, image) && n == s.fileLength
    ensures StoredUpTo(s.trace, n, image)
  {}

  // After a successful write the slice is held, so the reply that follows is true.
  lemma WrittenTrue(s: State, m: Message, flash: Flash, status: nat, image: seq<Byte>, start: nat)
    requires HoldsPrefix(s, image) && SliceOf(m, image) && |image| < I32_LIMIT
    requires m.data != [] && s.fileLength == m.position
    requires start <= |s.trace| && TrueSince(s.trace, m, image, start)
    requires Task(s, m.data, flash).1 == 0
    ensures var a := Acknowledged(Task(s, m.data, flash).0, m, status);
            TrueSince(a.trace, m, image, start) && start <= |a.trace|
  {
    hide HoldsPrefix, TrueSince, StoredUpTo, Task;
    var t := Task(s, m.data, flash).0;
    TaskHolds(s, m.data, flash, image);
    TaskTrue(s, m.data, flash, m, image, start);
    HeldUpTo(t, m.position + |m.data|, image);
    EmitTrue(t, Reply(status, m.position), m, image, start);
  }

  lemma StoreTrue(s: State, m: Message, flash: Flash, image: seq<Byte>, start: nat)
    requires HoldsPrefix(s, image) && SliceOf(m, image) && |image| < I32_LIMIT
    requires m.data != [] && s.fileLength == m.position
    requires start <= |s.trace| && TrueSince(s.trace, m, image, start)
    ensures TrueSince(Store(s, m, flash).trace, m, image, start)
  {
    hide HoldsPrefix, TrueSince, StoredUpTo, Task, SliceOf;
    var (t, err) := Task(s, m.data, flash);
    if err == 0 {
      WrittenTrue(s, m, flash, 1, image, start);
    } else {
      TaskTrue(s, m.data, flash, m, image, start);
      EmitTrue(t, Reply(4, m.position), m, image, start);
    }
  }

  lemma StoreLastTrue(s: State, m: Message, flash: Flash, image: seq<Byte>, start: nat)
    requires HoldsPrefix(s, image) && SliceOf(m, image) && |image| < I32_LIMIT
    requires m.data != [] && s.fileLength == m.position
    requires start <= |s.trace| && TrueSince(s.trace, m, image, start)
    ensures TrueSince(StoreLast(s, m, flash).trace, m, image, start)
  {
    hide HoldsPrefix, TrueSince, StoredUpTo, Task, Ended, SliceOf;
    var (t, err) := Task(s, m.data, flash);
    if err == 0 {
      var a := Acknowledged(t, m, 6);
      WrittenTrue(s, m, flash, 6, image, start);
      EndedTrue(a, flash, m, image, start);
      EmitTrue(Ended(a, flash).0, Reply(4, m.position), m, image, start);
    } else {
      TaskTrue(s, m.data, flash, m, image, start);
      EmitTrue(t, Reply(4, m.position), m, image, start);
    }
  }

  // Whatever slice arrives, its acknowledgement is false exactly when it answers a duplicate
  // that reaches past the accounted bytes.
  lemma AckTruth(s: State, m: Message, flash: Flash, image: seq<Byte>)
    requires ImageInv(s, image) && SliceOf(m, image) && |image| < I32_LIMIT
    ensures AcksTrueFor(s, m, flash, image) <==> !LongDuplicate(s, m)
  {
    hide HoldsPrefix, EndsComplete, TrueSince, StoredUpTo, Store, StoreLast;
    var start := |s.trace|;
    NoneYet(s.trace, m, image);
    Bounds(s, image);
    if m.data == [] {
    } else if m.position <= s.lastPosition && m.position != 0 {
      DuplicateAnswer(s, m, flash, image);
      EmitTrue(s, Reply(1, m.position), m, image, start);
    } else if m.position != (s.lastPosition + s.lastLength) % U32 && m.position != 0 {
      EmitTrue(s, Reply(5, s.lastPosition), m, image, start);
    } else if m.position == 0 {
      var t := Started(s).(lastPosition := 0, lastLength := 0);
      RestartHolds(s, image);
      EmitTrue(s, Start, m, image, start);
      StoreTrue(t, m, flash, image, start);
    } else if (m.position + |m.data|) % U32 >= m.programLength {
      StoreLastTrue(s, m, flash, image, start);
    } else {
      StoreTrue(s, m, flash, image, start);
    }
  }

  /* ---- Whole runs ---- */

  // Every acknowledgement in the run is true when sent.
  ghost predicate RunTruthful(s: State, arrivals: seq<Arrival>, image: seq<Byte>)
    decreases arrivals
  {
    arrivals == []
    || var m, flash := arrivals[0].message, arrivals[0].flash;
       AcksTrueFor(s, m, flash, image) && RunTruthful(Receive(s, m, flash), arrivals[1..], image)
  }

  // No slice repeats a stored position and reaches past the accounted bytes.
  predicate NeverLongDuplicate(s: State, arrivals: seq<Arrival>)
    decreases arrivals
  {
    arrivals == []
    || (!LongDuplicate(s, arrivals[0].message)
        && NeverLongDuplicate(Receive(s, arrivals[0].message, arrivals[0].flash), arrivals[1..]))
  }

  // Over every run on slices of one image, with no common partition assumed and flash calls
  // failing at will: all acknowledgements are true exactly if there is no such duplicate.
  lemma {:induction false} TruthfulIff(s: State, arrivals: seq<Arrival>, image: seq<Byte>)
    requires ImageInv(s, image) && |image| < I32_LIMIT
    requires forall i :: 0 <= i < |arrivals| ==> SliceOf(arrivals[i].message, image)
    ensures RunTruthful(s, arrivals, image) <==> NeverLongDuplicate(s, arrivals)
    decreases arrivals
  {
    hide ImageInv, Receive, SliceOf, LongDuplicate, AcksTrueFor;
    if arrivals != [] {
      var m, flash := arrivals[0].message, arrivals[0].flash;
      assert SliceOf(m, image);
      AckTruth(s, m, flash, image);
      ReceiveHolds(s, m, flash, image);
      TruthfulIff(Receive(s, m, flash), arrivals[1..], image);
    }
  }

  lemma RunThree(s: State, m1: Message, m2: Message, m3: Message)
    ensures Run(s, [Arrival(m1, SUCCESS), Arrival(m2, SUCCESS), Arrival(m3, SUCCESS)])
            == Receive(Receive(Receive(s, m1, SUCCESS), m2, SUCCESS), m3, SUCCESS)
  {
    hide Receive;
    var a1, a2, a3 := Arrival(m1, SUCCESS), Arrival(m2, SUCCESS), Arrival(m3, SUCCESS);
    assert [a1, a2, a3][1..] == [a2, a3] && [a2, a3][1..] == [a3] && [a3][1..] == [];
    var s1 := Receive(s, m1, SUCCESS);
    var s2 := Receive(s1, m2, SUCCESS);
    assert Run(s, [a1, a2, a3]) == Run(s1, [a2, a3]);
    assert Run(s1, [a2, a3]) == Run(s2, [a3]);
  }

  // Such duplicates occur: a sender that cuts the image anew is acknowledged although the
  // longer slice it sent was never stored.
  lemma RecutDuplicateIsNotStored(image: seq<Byte>)
    requires |image| == 600
    ensures var first := Arrival(Message(0, image[..300], 600), SUCCESS);
            var second := Arrival(Message(300, image[300..400], 600), SUCCESS);
            var recut := Arrival(Message(300, image[300..500], 600), SUCCESS);
            && SliceOf(first.message, image) && SliceOf(second.message, image) && SliceOf(recut.message, image)
            && LongDuplicate(Run(BOOT, [first, second]), recut.message)
            && var s := Run(BOOT, [first, second, recut]);
               s.trace != [] && s.trace[|s.trace| - 1] == Reply(1, 300) && |SessionBytes(s.trace)| == 400
  {
    hide SessionBytes;
    var m1, m2 := Message(0, image[..300], 600), Message(300, image[300..400], 600);
    var m3 := Message(300, image[300..500], 600);
    var s1 := Receive(BOOT, m1, SUCCESS);
    var s2 := Receive(s1, m2, SUCCESS);
    var s3 := Receive(s2, m3, SUCCESS);
    RunTwo(BOOT, Arrival(m1, SUCCESS), Arrival(m2, SUCCESS));
    RunThree(BOOT, m1, m2, m3);
    BootSafe(image);
    ReceiveHolds(BOOT, m1, SUCCESS, image);
    ReceiveHolds(s1, m2, SUCCESS, image);
    ReceiveHolds(s2, m3, SUCCESS, image);
  }

  /* ---- After a failed end ---- */

  // One message to a device that holds the whole image already.
  lemma WholeImageAnswer(s: State, m: Message, flash: Flash, image: seq<Byte>)
    requires ImageInv(s, image) && SliceOf(m, image) && |image| < I32_LIMIT
    requires s.fileLength == |image| && m.position != 0 && m.data != []
    ensures Receive(s, m, flash)
            == s.Emit(if m.position <= s.lastPosition then Reply(1, m.position) else Reply(5, s.lastPosition))
  {
    hide HoldsPrefix, EndsComplete;
  }

  // t is s, apart from replies 1 and 5 sent since.
  predicate OnlyAnswered(s: State, t: State) {
    && t.(trace := s.trace) == s
    && s.trace <= t.trace
    && forall i :: |s.trace| <= i < |t.trace| ==>
         t.trace[i].Reply? && (t.trace[i].status == 1 || t.trace[i].status == 5)
  }

  lemma OnlyAnsweredThen(s: State, t: State, u: State)
    requires OnlyAnswered(s, t) && t.trace <= u.trace
    ensures OnlyAnswered(s, u) <==> OnlyAnswered(t, u)
  {}

  predicate Restarts(m: Message) {
    m.position == 0 && m.data != []
  }

  // A restart leaves a Start in the trace for good.
  lemma StartStays(s: State, m: Message, flash: Flash, u: State)
    requires Restarts(m) && Receive(s, m, flash).trace <= u.trace
    ensures !OnlyAnswered(s, u)
  {
    hide Task;
    var r := Started(s).(lastPosition := 0, lastLength := 0);
    TaskExtends(r, m.data, flash);
    assert r.trace <= Receive(s, m, flash).trace;
    assert u.trace[|s.trace|] == Start;
  }

  predicate NeverRestarts(arrivals: seq<Arrival>) {
    forall i :: 0 <= i < |arrivals| ==> !Restarts(arrivals[i].message)
  }

  // If esp_ota_end failed, the update is not ended by resending: once the whole image is held,
  // a run of slices does nothing but answer 1 and 5 exactly if none of them restarts the
  // session from position 0.
  lemma {:induction false} FailedEndIsNotRetried(s: State, arrivals: seq<Arrival>, image: seq<Byte>)
    requires ImageInv(s, image) && |image| < I32_LIMIT && s.fileLength == |image|
    requires forall i :: 0 <= i < |arrivals| ==> SliceOf(arrivals[i].message, image)
    ensures OnlyAnswered(s, Run(s, arrivals)) <==> NeverRestarts(arrivals)
    decreases arrivals
  {
    hide ImageInv, Receive, SliceOf;
    if arrivals != [] {
      var m, flash, rest := arrivals[0].message, arrivals[0].flash, arrivals[1..];
      var t := Receive(s, m, flash);
      assert SliceOf(m, image);
      RunExtends(t, rest);
      if Restarts(m) {
        StartStays(s, m, flash, Run(t, rest));
      } else {
        if m.data != [] {
          WholeImageAnswer(s, m, flash, image);
        } else {
          EmptyIgnored(s, m, flash);
        }
        ReceiveHolds(s, m, flash, image);
        FailedEndIsNotRetried(t, rest, image);
        OnlyAnsweredThen(s, t, Run(t, rest));
        assert NeverRestarts(arrivals) <==> NeverRestarts(rest) by { FirstDoesNot(arrivals); }
      }
    }
  }

  lemma FirstDoesNot(arrivals: seq<Arrival>)
    requires arrivals != [] && !Restarts(arrivals[0].message)
    ensures NeverRestarts(arrivals) <==> NeverRestarts(arrivals[1..])
  {
    hide Restarts;
    if NeverRestarts(arrivals[1..]) {
      forall i | 0 < i < |arrivals|
        ensures !Restarts(arrivals[i].message)
      {
        assert arrivals[i] == arrivals[1..][i - 1];
      }
    }
  }

  lemma EmptyIgnored(s: State, m: Message, flash: Flash)
    requires m.data == []
    ensures Receive(s, m, flash) == s
  {}

  const END_FAILS := Flash(true, true, false, true)

  // Such a state is reached from boot: two chunks, the end of the second failing, leave all
  // 600 bytes held and a final reply of 4; the resent chunk is then merely acknowledged.
  lemma FailedEndReached(image: seq<Byte>) returns (s: State)
    requires |image| == 600
    ensures var first := Arrival(Message(0, image[..300], 600), SUCCESS);
            var last := Arrival(Message(300, image[300..], 600), END_FAILS);
            && SliceOf(first.message, image) && SliceOf(last.message, image)
            && s == Run(BOOT, [first, last])
            && ImageInv(s, image) && s.fileLength == |image|
            && s.headerChecked && s.lastPosition == 300 && s.lastLength == 300
            && |s.trace| >= 2 && s.trace[|s.trace| - 2..] == [End(false), Reply(4, 300)]
            && Receive(s, last.message, SUCCESS) == s.Emit(Reply(1, 300))
  {
    hide SessionBytes;
    var m1, m2 := Message(0, image[..300], 600), Message(300, image[300..], 600);
    var s1 := Receive(BOOT, m1, SUCCESS);
    s := Receive(s1, m2, END_FAILS);
    RunTwo(BOOT, Arrival(m1, SUCCESS), Arrival(m2, END_FAILS));
    BootSafe(image);
    ReceiveHolds(BOOT, m1, SUCCESS, image);
    ReceiveHolds(s1, m2, END_FAILS, image);
  }

  lemma RunTwo(s: State, a: Arrival, b: Arrival)
    ensures Run(s, [a, b]) == Receive(Receive(s, a.message, a.flash), b.message, b.flash)
  {
    hide Receive;
    assert [a, b][1..] == [b] && [b][1..] == [];
    assert Run(s, [a, b]) == Run(Receive(s, a.message, a.flash), [b]);
  }
}
