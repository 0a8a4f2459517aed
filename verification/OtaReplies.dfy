/** What a reply of 4 means (main/protocol.c:548-603, main/OTA.c:85-209). */
module OtaReplies {
  import opened Crc16
  import opened Ota
  import opened OtaSafety

  predicate FailedCall(e: Event) {
    (e.Begin? || e.Write? || e.End? || e.SetBoot?) && !e.ok
  }

  predicate IsError(e: Event) {
    e.Reply? && e.status == 4
  }

  ghost predicate Some(rule: Event -> bool, events: seq<Event>) {
    exists i :: 0 <= i < |events| && rule(events[i])
  }

  lemma SomeAppend(rule: Event -> bool, a: seq<Event>, b: seq<Event>)
    ensures Some(rule, a + b) <==> Some(rule, a) || Some(rule, b)
  {
    if Some(rule, a) {
      var i :| 0 <= i < |a| && rule(a[i]);
      assert rule((a + b)[i]);
    }
    if Some(rule, b) {
      var i :| 0 <= i < |b| && rule(b[i]);
      assert rule((a + b)[|a| + i]);
    }
  }

  lemma SomeOne(rule: Event -> bool, e: Event)
    ensures Some(rule, [e]) <==> rule(e)
    ensures !Some(rule, [])
  {
    if rule(e) {
      assert rule([e][0]);
    }
  }

  // The events one call appends, and whether they include a failed flash call or an error reply.
  ghost predicate Appends(s: State, t: State, failed: bool, error: bool) {
    && s.trace <= t.trace
    && (Some(FailedCall, t.trace[|s.trace|..]) <==> failed)
    && (Some(IsError, t.trace[|s.trace|..]) <==> error)
  }

  lemma AppendsNothing(s: State, t: State)
    requires t.trace == s.trace
    ensures Appends(s, t, false, false)
  {
    assert t.trace[|s.trace|..] == [];
  }

  lemma AppendsOne(s: State, t: State, u: State, failed: bool, error: bool, e: Event)
    requires Appends(s, t, failed, error) && u.trace == t.trace + [e]
    ensures Appends(s, u, failed || FailedCall(e), error || IsError(e))
  {
    hide Some, FailedCall, IsError;
    var added := t.trace[|s.trace|..];
    assert u.trace[|s.trace|..] == added + [e];
    SomeAppend(FailedCall, added, [e]);
    SomeAppend(IsError, added, [e]);
    SomeOne(FailedCall, e);
    SomeOne(IsError, e);
  }

  predicate TooShort(s: State, data: seq<Byte>) {
    !s.headerChecked && |data| <= IMAGE_HEADERS
  }

  lemma TaskAppends(s: State, r: State, data: seq<Byte>, flash: Flash)
    requires data != [] && Appends(r, s, false, false)
    ensures var (t, err) := Task(s, data, flash);
            Appends(r, t, err != 0 && !TooShort(s, data), false) && (TooShort(s, data) ==> err != 0)
  {
    hide Appends, AddInt32;
    var (t, err) := Task(s, data, flash);
    var w := Write(data, flash.writeOk);
    if s.headerChecked {
      AppendsOne(r, s, t, false, false, w);
    } else if !TooShort(s, data) {
      var b := s.(headerChecked := true).Emit(Begin(flash.beginOk));
      AppendsOne(r, s, b, false, false, Begin(flash.beginOk));
      if flash.beginOk {
        AppendsOne(r, b, t, false, false, w);
      }
    }
  }

  lemma EndedAppends(s: State, r: State, flash: Flash)
    requires Appends(r, s, false, false)
    ensures var (t, err) := Ended(s, flash); Appends(r, t, err != 0, false)
  {
    hide Appends;
    var t := s.Emit(End(flash.endOk));
    var u := t.Emit(SetBoot(flash.bootOk));
    AppendsOne(r, s, t, false, false, End(flash.endOk));
    AppendsOne(r, t, u, !flash.endOk, false, SetBoot(flash.bootOk));
    AppendsOne(r, u, BOOT.(trace := u.trace).Emit(Restart), false || !flash.endOk || !flash.bootOk, false, Restart);
  }

  lemma StoreAppends(s: State, r: State, m: Message, flash: Flash) returns (failed: bool)
    requires m.data != [] && Appends(r, s, false, false)
    ensures Appends(r, Store(s, m, flash), failed, failed || TooShort(s, m.data))
  {
    hide Appends, Task, TooShort;
    var (t, err) := Task(s, m.data, flash);
    failed := err != 0 && !TooShort(s, m.data);
    TaskAppends(s, r, m.data, flash);
    AppendsOne(r, t, t.Emit(Reply(4, m.position)), failed, false, Reply(4, m.position));
    AppendsOne(r, t, Acknowledged(t, m, 1), failed, false, Reply(1, m.position));
  }

  lemma StoreLastAppends(s: State, r: State, m: Message, flash: Flash) returns (failed: bool)
    requires m.data != [] && Appends(r, s, false, false)
    ensures Appends(r, StoreLast(s, m, flash), failed, failed || TooShort(s, m.data))
  {
    hide Appends, Task, TooShort, Ended;
    var (t, err) := Task(s, m.data, flash);
    failed := err != 0 && !TooShort(s, m.data);
    TaskAppends(s, r, m.data, flash);
    AppendsOne(r, t, t.Emit(Reply(4, m.position)), failed, false, Reply(4, m.position));
    if err == 0 {
      var a := Acknowledged(t, m, 6);
      var (u, endErr) := Ended(a, flash);
      AppendsOne(r, t, a, false, false, Reply(6, m.position));
      EndedAppends(a, r, flash);
      failed := endErr != 0;
      AppendsOne(r, u, u.Emit(Reply(4, m.position)), failed, false, Reply(4, m.position));
    }
  }

  // A message is answered 4 exactly when a flash call made for it failed, or it is a first
  // chunk that does not reach past the image headers.
  lemma ErrorMeansFailure(s: State, m: Message, flash: Flash)
    requires m.Valid() && m.data != [] && SessionKept(s)
    ensures var t := Receive(s, m, flash);
            && s.trace <= t.trace
            && var added := t.trace[|s.trace|..];
               Some(IsError, added) <==> Some(FailedCall, added) || (m.position == 0 && |m.data| <= IMAGE_HEADERS)
  {
    hide Some, Store, StoreLast, IsError, FailedCall;
    AppendsNothing(s, s);
    if m.position != 0 && (m.position <= s.lastPosition || m.position != (s.lastPosition + s.lastLength) % U32) {
      ReplyAppends(s, Reply(1, m.position));
      ReplyAppends(s, Reply(5, s.lastPosition));
    } else if m.position == 0 {
      var t := Started(s).(lastPosition := 0, lastLength := 0);
      StartAppends(s, t);
      var failed := StoreAppends(t, s, m, flash);
    } else if (m.position + |m.data|) % U32 >= m.programLength {
      var failed := StoreLastAppends(s, s, m, flash);
    } else {
      var failed := StoreAppends(s, s, m, flash);
    }
  }

  lemma ReplyAppends(s: State, e: Event)
    requires e.Reply? && e.status != 4
    ensures Appends(s, s.Emit(e), false, false)
  {
    hide Appends;
    AppendsNothing(s, s);
    AppendsOne(s, s, s.Emit(e), false, false, e);
  }

  lemma StartAppends(s: State, t: State)
    requires t.trace == s.trace + [Start]
    ensures Appends(s, t, false, false)
  {
    hide Appends;
    AppendsNothing(s, s);
    AppendsOne(s, s, t, false, false, Start);
  }
}
