/** The update completes as soon as its chunks have come through in order, whatever the device
    was doing before, in whatever order copies arrive besides, and although flash calls fail in
    between (main/protocol.c:495-636, main/OTA.c:96-163). */
module OtaProgress {
  import opened Crc16
  import opened Ota
  import opened OtaSafety
  import opened OtaDelivery

  // Where the device stands: at a chunk stored last, at none after a restart that failed, or
  // anywhere at all.
  const RESET := -1
  const UNKNOWN := -2

  predicate Succeeds(flash: Flash) {
    flash.endOk && flash.bootOk
  }

  // Where it stands after one item. Chunk 0 always restarts the session; the chunk after the
  // last stored one is stored if the write succeeds; all others change nothing.
  function Stands(cur: int, item: Item, flash: Flash): int {
    match item
    case Idle(_) => cur
    case Chunk(k) =>
      if k == 0 then if flash.beginOk && flash.writeOk then 0 else RESET
      else if k == cur + 1 && flash.writeOk then k
      else cur
  }

  // This copy of the last chunk is stored and the update ends.
  predicate Completes(cur: int, send: Send, last: nat) {
    send.item == Chunk(last) && cur == last - 1 && send.flash.writeOk && Succeeds(send.flash)
  }

  // Any copies in any order, with any flash calls failing, up to the one that completes. As
  // long as the state of the device is unknown only chunk 0 and zero-length messages are sent.
  predicate Completing(sends: seq<Send>, cur: int, last: nat)
    decreases sends
  {
    sends != [] &&
    var item, flash := sends[0].item, sends[0].flash;
    (item.Idle? ==> item.position < U32) &&
    (item.Chunk? ==> item.k <= last && (cur == UNKNOWN ==> item.k == 0)) &&
    if Completes(cur, sends[0], last) then |sends| == 1
    else Completing(sends[1..], Stands(cur, item, flash), last)
  }

  lemma {:induction false} CompletingSendable(sends: seq<Send>, cur: int, cuts: seq<nat>)
    requires |cuts| >= 3 && Completing(sends, cur, |cuts| - 2)
    ensures forall i :: 0 <= i < |sends| ==> Sendable(sends[i].item, cuts)
    decreases sends
  {
    if !Completes(cur, sends[0], |cuts| - 2) {
      CompletingSendable(sends[1..], Stands(cur, sends[0].item, sends[0].flash), cuts);
    }
  }

  // The replies in a trace, in order.
  function Replies(trace: seq<Event>): seq<Event> {
    if trace == [] then []
    else Replies(trace[..|trace| - 1]) + if trace[|trace| - 1].Reply? then [trace[|trace| - 1]] else []
  }

  lemma RepliesSnoc(trace: seq<Event>, e: Event)
    ensures Replies(trace + [e]) == Replies(trace) + if e.Reply? then [e] else []
  {
    assert (trace + [e])[..|trace|] == trace;
  }

  // What a copy is answered. Chunk 0: 1 or 4 as its flash calls go. An earlier chunk or the
  // one stored last: 1. The next one: 4 if not written, otherwise 1, or 6 if it is the last,
  // followed by 4 if the end fails. One further on: 5, naming the chunk stored last.
  ghost function ReplyTo(cur: int, send: Send, cuts: seq<nat>): seq<Event>
    requires Sendable(send.item, cuts) && cur < |cuts|
  {
    match send.item
    case Idle(_) => []
    case Chunk(k) =>
      if k == 0 then [Reply(if send.flash.beginOk && send.flash.writeOk then 1 else 4, cuts[0])]
      else if k <= cur then [Reply(1, cuts[k])]
      else if k > cur + 1 then [Reply(5, if cur < 0 then 0 else cuts[cur])]
      else if !send.flash.writeOk then [Reply(4, cuts[k])]
      else if k != |cuts| - 2 then [Reply(1, cuts[k])]
      else if Succeeds(send.flash) then [Reply(6, cuts[k])]
      else [Reply(6, cuts[k]), Reply(4, cuts[k])]
  }

  lemma StandsBounded(cur: int, send: Send, cuts: seq<nat>)
    requires |cuts| >= 3 && Sendable(send.item, cuts) && UNKNOWN <= cur < |cuts| - 1
    ensures UNKNOWN <= Stands(cur, send.item, send.flash) < |cuts| - 1
  {}

  ghost function Expected(sends: seq<Send>, cur: int, cuts: seq<nat>): seq<Event>
    requires |cuts| >= 3 && UNKNOWN <= cur < |cuts| - 1
    requires forall i :: 0 <= i < |sends| ==> Sendable(sends[i].item, cuts)
    decreases sends
  {
    if sends == [] then []
    else
      StandsBounded(cur, sends[0], cuts);
      ReplyTo(cur, sends[0], cuts) + Expected(sends[1..], Stands(cur, sends[0].item, sends[0].flash), cuts)
  }

  lemma ExpectedFirst(sends: seq<Send>, cur: int, cuts: seq<nat>, replies: seq<Event>)
    requires |cuts| >= 3 && UNKNOWN <= cur < |cuts| - 1
    requires forall i :: 0 <= i < |sends| ==> Sendable(sends[i].item, cuts)
    requires sends != []
    ensures UNKNOWN <= Stands(cur, sends[0].item, sends[0].flash) < |cuts| - 1
    ensures var rest := Expected(sends[1..], Stands(cur, sends[0].item, sends[0].flash), cuts);
            && replies + Expected(sends, cur, cuts) == (replies + ReplyTo(cur, sends[0], cuts)) + rest
            && (sends[1..] == [] ==> rest == [])
  {
    hide ReplyTo, Stands;
    StandsBounded(cur, sends[0], cuts);
  }

  // The device has stored the chunks up to and including cur, or has just been reset.
  ghost predicate StandsAt(s: State, cur: int, cuts: seq<nat>, image: seq<Byte>) {
    cur <= UNKNOWN
    || (cur == RESET && s.lastPosition == 0 && s.lastLength == 0)
    || (&& 0 <= cur < |cuts| - 1
        && Accounted(s, image) && s.headerChecked
        && s.lastPosition == cuts[cur] && s.lastPosition + s.lastLength == cuts[cur + 1])
  }

  // Writing chunk k at its place: stored if the flash calls succeed, otherwise nothing lost.
  lemma ChunkTask(s: State, k: nat, flash: Flash, cuts: seq<nat>, image: seq<Byte>)
    requires Partition(cuts, image) && k < |cuts| - 1 && |image| < I32_LIMIT
    requires HoldsPrefix(s, image) && s.fileLength == cuts[k]
    requires s.headerChecked || cuts[k + 1] - cuts[k] > IMAGE_HEADERS
    ensures var (t, err) := Task(s, MessageOf(Chunk(k), cuts, image).data, flash);
            && (err == 0 <==> flash.writeOk && (s.headerChecked || flash.beginOk))
            && t.headerChecked && HoldsPrefix(t, image)
            && t.fileLength == (if err == 0 then cuts[k + 1] else cuts[k])
            && t.lastPosition == s.lastPosition && t.lastLength == s.lastLength
            && Replies(t.trace) == Replies(s.trace)
  {
    hide HoldsPrefix, SliceOf, MessageOf, Replies, AddInt32;
    var m := MessageOf(Chunk(k), cuts, image);
    ChunkFacts(k, cuts, image);
    SliceData(m, image);
    TaskHolds(s, m.data, flash, image);
    var b, w := Begin(flash.beginOk), Write(m.data, flash.writeOk);
    RepliesSnoc(s.trace, b);
    RepliesSnoc(s.trace, w);
    RepliesSnoc(s.trace + [b], w);
  }

  lemma ChunkStored(s: State, k: nat, flash: Flash, cuts: seq<nat>, image: seq<Byte>)
    requires Partition(cuts, image) && k < |cuts| - 1 && |image| < I32_LIMIT
    requires HoldsPrefix(s, image) && s.fileLength == cuts[k]
    requires s.headerChecked || cuts[k + 1] - cuts[k] > IMAGE_HEADERS
    requires flash.writeOk && (s.headerChecked || flash.beginOk)
    ensures var t := Store(s, MessageOf(Chunk(k), cuts, image), flash);
            StandsAt(t, k, cuts, image) && Replies(t.trace) == Replies(s.trace) + [Reply(1, cuts[k])]
  {
    hide HoldsPrefix, SliceOf, MessageOf, Replies, Task;
    var m := MessageOf(Chunk(k), cuts, image);
    var (t, err) := Task(s, m.data, flash);
    ChunkFacts(k, cuts, image);
    ChunkTask(s, k, flash, cuts, image);
    RepliesSnoc(t.trace, Reply(1, m.position));
    AcknowledgedHolds(t, m, 1, image);
  }

  // A failing write of a new chunk is answered 4 and leaves the device where it stood.
  lemma ChunkFails(s: State, cur: nat, flash: Flash, cuts: seq<nat>, image: seq<Byte>)
    requires Partition(cuts, image) && cur + 1 < |cuts| - 1 && |image| < I32_LIMIT
    requires StandsAt(s, cur, cuts, image) && !flash.writeOk
    ensures var m := MessageOf(Chunk(cur + 1), cuts, image);
            var t := Task(s, m.data, flash).0.Emit(Reply(4, m.position));
            && Task(s, m.data, flash).1 != 0
            && StandsAt(t, cur, cuts, image)
            && Replies(t.trace) == Replies(s.trace) + [Reply(4, cuts[cur + 1])]
  {
    hide HoldsPrefix, SliceOf, MessageOf, Replies, Task;
    var m := MessageOf(Chunk(cur + 1), cuts, image);
    var t := Task(s, m.data, flash).0;
    ChunkFacts(cur + 1, cuts, image);
    ChunkTask(s, cur + 1, flash, cuts, image);
    RepliesSnoc(t.trace, Reply(4, m.position));
    EmitHolds(t, Reply(4, m.position), image);
  }

  // Chunk 0 restarts the session from any state.
  lemma FirstChunk(s: State, flash: Flash, cuts: seq<nat>, image: seq<Byte>)
    requires Partition(cuts, image) && |cuts| >= 3 && |image| < I32_LIMIT && cuts[1] > IMAGE_HEADERS
    ensures var t := Receive(s, MessageOf(Chunk(0), cuts, image), flash);
            var ok := flash.beginOk && flash.writeOk;
            && StandsAt(t, if ok then 0 else RESET, cuts, image)
            && Replies(t.trace) == Replies(s.trace) + [Reply(if ok then 1 else 4, cuts[0])]
  {
    hide HoldsPrefix, SliceOf, MessageOf, Replies, Task;
    var m := MessageOf(Chunk(0), cuts, image);
    var r := Started(s).(lastPosition := 0, lastLength := 0);
    ChunkFacts(0, cuts, image);
    RepliesSnoc(s.trace, Start);
    RestartHolds(s, image);
    if flash.beginOk && flash.writeOk {
      ChunkStored(r, 0, flash, cuts, image);
    } else {
      ChunkTask(r, 0, flash, cuts, image);
      RepliesSnoc(Task(r, m.data, flash).0.trace, Reply(4, m.position));
    }
  }

  lemma ReplyStands(s: State, cur: int, e: Event, cuts: seq<nat>, image: seq<Byte>)
    requires StandsAt(s, cur, cuts, image) && e.Reply?
    ensures StandsAt(s.Emit(e), cur, cuts, image)
    ensures Replies(s.Emit(e).trace) == Replies(s.trace) + [e]
  {
    hide HoldsPrefix, Replies;
    RepliesSnoc(s.trace, e);
    if cur >= 0 {
      EmitHolds(s, e, image);
    }
  }

  // A chunk stored before is acknowledged without touching the flash.
  lemma EarlierChunk(s: State, cur: int, k: nat, flash: Flash, cuts: seq<nat>, image: seq<Byte>)
    requires Partition(cuts, image) && 0 < k <= cur < |cuts| - 1 && |image| < I32_LIMIT
    requires StandsAt(s, cur, cuts, image)
    ensures Receive(s, MessageOf(Chunk(k), cuts, image), flash) == s.Emit(Reply(1, cuts[k]))
  {
    hide HoldsPrefix, SliceOf, MessageOf;
    ChunkFacts(k, cuts, image);
    assert k < cur ==> cuts[k] < cuts[cur];
  }

  // A chunk that comes too early is answered as a hole.
  lemma LaterChunk(s: State, cur: int, k: nat, flash: Flash, cuts: seq<nat>, image: seq<Byte>)
    requires Partition(cuts, image) && |image| < I32_LIMIT && k < |cuts| - 1
    requires RESET <= cur && cur + 1 < k && StandsAt(s, cur, cuts, image)
    ensures Receive(s, MessageOf(Chunk(k), cuts, image), flash)
            == s.Emit(Reply(5, if cur < 0 then 0 else cuts[cur]))
  {
    hide HoldsPrefix, SliceOf, MessageOf;
    ChunkFacts(k, cuts, image);
    if cur >= 0 {
      assert cuts[cur] < cuts[cur + 1] < cuts[k] <= |image| by { CutsOrdered(cur, k, cuts, image); }
    }
  }

  lemma CutsOrdered(cur: nat, k: nat, cuts: seq<nat>, image: seq<Byte>)
    requires Partition(cuts, image) && cur + 1 < k < |cuts| - 1
    ensures cuts[cur] < cuts[cur + 1] < cuts[k] <= |image|
  {
    assert cuts[k] < cuts[|cuts| - 1];
  }

  // The last chunk is stored but the end fails: both are reported, nothing is lost.
  lemma EndFails(s: State, flash: Flash, cuts: seq<nat>, image: seq<Byte>)
    requires Partition(cuts, image) && |cuts| >= 3 && |image| < I32_LIMIT
    requires StandsAt(s, |cuts| - 3, cuts, image) && flash.writeOk && !Succeeds(flash)
    ensures var k := |cuts| - 2;
            var t := Receive(s, MessageOf(Chunk(k), cuts, image), flash);
            && StandsAt(t, k, cuts, image)
            && Replies(t.trace) == Replies(s.trace) + [Reply(6, cuts[k]), Reply(4, cuts[k])]
  {
    hide HoldsPrefix, SliceOf, MessageOf, Replies, Task, Receive;
    var k := |cuts| - 2;
    var m := MessageOf(Chunk(k), cuts, image);
    var t := Task(s, m.data, flash).0;
    var a := Acknowledged(t, m, 6);
    var (u, err) := Ended(a, flash);
    ChunkFacts(k, cuts, image);
    NewChunkPath(s, k - 1, flash, cuts, image);
    ChunkTask(s, k, flash, cuts, image);
    RepliesSnoc(t.trace, Reply(6, m.position));
    AcknowledgedHolds(t, m, 6, image);
    FailedEndKeeps(a, k, flash, cuts, image);
    ReplyStands(u, k, Reply(4, m.position), cuts, image);
    assert Replies(t.trace) + [Reply(6, cuts[k])] + [Reply(4, cuts[k])]
           == Replies(t.trace) + [Reply(6, cuts[k]), Reply(4, cuts[k])];
  }

  lemma FailedEndKeeps(a: State, k: nat, flash: Flash, cuts: seq<nat>, image: seq<Byte>)
    requires StandsAt(a, k, cuts, image) && !Succeeds(flash)
    ensures var (u, err) := Ended(a, flash);
            err != 0 && StandsAt(u, k, cuts, image) && Replies(u.trace) == Replies(a.trace)
  {
    hide HoldsPrefix, Replies;
    var t := a.Emit(End(flash.endOk));
    RepliesSnoc(a.trace, End(flash.endOk));
    RepliesSnoc(t.trace, SetBoot(flash.bootOk));
    EmitHolds(a, End(flash.endOk), image);
    EmitHolds(t, SetBoot(flash.bootOk), image);
  }

  // Where a new chunk is handled: not as a duplicate, a hole or a restart.
  lemma NewChunkPath(s: State, cur: nat, flash: Flash, cuts: seq<nat>, image: seq<Byte>)
    requires Partition(cuts, image) && cur + 1 < |cuts| - 1 && |image| < I32_LIMIT
    requires StandsAt(s, cur, cuts, image)
    ensures var m := MessageOf(Chunk(cur + 1), cuts, image);
            Receive(s, m, flash) == if cur + 1 == |cuts| - 2 then StoreLast(s, m, flash) else Store(s, m, flash)
  {
    hide HoldsPrefix, SliceOf, MessageOf, Store, StoreLast;
    var m := MessageOf(Chunk(cur + 1), cuts, image);
    ChunkFacts(cur + 1, cuts, image);
    SliceData(m, image);
    assert cuts[cur] < cuts[cur + 1];
  }

  lemma NewChunk(s: State, cur: nat, flash: Flash, cuts: seq<nat>, image: seq<Byte>)
    requires Partition(cuts, image) && cur + 1 < |cuts| - 1 && |image| < I32_LIMIT
    requires StandsAt(s, cur, cuts, image)
    requires flash.writeOk ==> cur + 1 < |cuts| - 2
    ensures var t := Receive(s, MessageOf(Chunk(cur + 1), cuts, image), flash);
            && StandsAt(t, if flash.writeOk then cur + 1 else cur, cuts, image)
            && Replies(t.trace) == Replies(s.trace) + [Reply(if flash.writeOk then 1 else 4, cuts[cur + 1])]
  {
    hide HoldsPrefix, MessageOf, Replies, Task, Receive;
    NewChunkPath(s, cur, flash, cuts, image);
    if flash.writeOk {
      ChunkStored(s, cur + 1, flash, cuts, image);
    } else {
      ChunkFails(s, cur, flash, cuts, image);
    }
  }

  // Any copy of a chunk that does not complete the update.
  lemma CopyHandled(s: State, cur: int, k: nat, flash: Flash, cuts: seq<nat>, image: seq<Byte>)
    requires Partition(cuts, image) && |cuts| >= 3 && |image| < I32_LIMIT && cuts[1] > IMAGE_HEADERS
    requires UNKNOWN <= cur < |cuts| - 1 && k < |cuts| - 1 && (cur == UNKNOWN ==> k == 0)
    requires !Completes(cur, Send(Chunk(k), flash), |cuts| - 2)
    requires StandsAt(s, cur, cuts, image)
    ensures var t := Receive(s, MessageOf(Chunk(k), cuts, image), flash);
            && StandsAt(t, Stands(cur, Chunk(k), flash), cuts, image)
            && Replies(t.trace) == Replies(s.trace) + ReplyTo(cur, Send(Chunk(k), flash), cuts)
  {
    hide StandsAt, MessageOf, Replies, Receive, Succeeds;
    if k == 0 {
      FirstChunk(s, flash, cuts, image);
    } else if k <= cur {
      EarlierChunk(s, cur, k, flash, cuts, image);
      ReplyStands(s, cur, Reply(1, cuts[k]), cuts, image);
    } else if k > cur + 1 {
      LaterChunk(s, cur, k, flash, cuts, image);
      ReplyStands(s, cur, Reply(5, if cur < 0 then 0 else cuts[cur]), cuts, image);
    } else if k == |cuts| - 2 && flash.writeOk {
      EndFails(s, flash, cuts, image);
    } else {
      NewChunk(s, cur, flash, cuts, image);
    }
  }

  // How the trace ends when the update is done: the last reply, then the end of the session.
  ghost predicate Completed(s: State, before: seq<Event>, position: nat) {
    s == BOOT.(trace := before + [Reply(6, position), End(true), SetBoot(true), Restart])
  }

  lemma LastSucceeds(s: State, flash: Flash, cuts: seq<nat>, image: seq<Byte>) returns (before: seq<Event>)
    requires Partition(cuts, image) && |cuts| >= 3 && |image| < I32_LIMIT
    requires flash.writeOk && Succeeds(flash)
    requires StandsAt(s, |cuts| - 3, cuts, image)
    ensures var k := |cuts| - 2;
            var t := Receive(s, MessageOf(Chunk(k), cuts, image), flash);
            && Completed(t, before, cuts[k]) && SessionBytes(before) == image
            && Replies(t.trace) == Replies(s.trace) + [Reply(6, cuts[k])]
  {
    hide HoldsPrefix, SliceOf, MessageOf, Replies, Task, SessionBytes, Receive;
    var k := |cuts| - 2;
    var m := MessageOf(Chunk(k), cuts, image);
    var t := Task(s, m.data, flash).0;
    before := t.trace;
    ChunkFacts(k, cuts, image);
    NewChunkPath(s, k - 1, flash, cuts, image);
    ChunkTask(s, k, flash, cuts, image);
    WholeImage(t, image);
    EndingTrace(before, cuts[k]);
    EndReplies(before, cuts[k]);
  }

  lemma EndingTrace(before: seq<Event>, p: nat)
    ensures before + [Reply(6, p)] + [End(true)] + [SetBoot(true)] + [Restart]
            == before + [Reply(6, p), End(true), SetBoot(true), Restart]
  {}

  lemma EndReplies(before: seq<Event>, p: nat)
    ensures Replies(before + [Reply(6, p)] + [End(true)] + [SetBoot(true)] + [Restart])
            == Replies(before) + [Reply(6, p)]
  {
    hide Replies;
    var a := before + [Reply(6, p)];
    RepliesSnoc(before, Reply(6, p));
    RepliesSnoc(a, End(true));
    RepliesSnoc(a + [End(true)], SetBoot(true));
    RepliesSnoc(a + [End(true)] + [SetBoot(true)], Restart);
  }

  lemma {:induction false} KeepsGoing(s: State, sends: seq<Send>, cur: int, cuts: seq<nat>, image: seq<Byte>)
    returns (before: seq<Event>)
    requires Partition(cuts, image) && |cuts| >= 3 && |image| < I32_LIMIT && cuts[1] > IMAGE_HEADERS
    requires UNKNOWN <= cur < |cuts| - 1 && Completing(sends, cur, |cuts| - 2)
    requires forall i :: 0 <= i < |sends| ==> Sendable(sends[i].item, cuts)
    requires StandsAt(s, cur, cuts, image)
    ensures var t := Serve(s, sends, cuts, image);
            && Completed(t, before, cuts[|cuts| - 2]) && SessionBytes(before) == image
            && Replies(t.trace) == Replies(s.trace) + Expected(sends, cur, cuts)
    decreases sends
  {
    hide StandsAt, Completed, Replies, SessionBytes, Partition, Receive, MessageOf, Serve, Expected;
    var item, flash, rest := sends[0].item, sends[0].flash, sends[1..];
    var t := Receive(s, MessageOf(item, cuts, image), flash);
    ServeFirst(s, sends, cuts, image);
    ExpectedFirst(sends, cur, cuts, Replies(s.trace));
    if item.Idle? {
      IdleIgnored(s, item.position, flash, cuts, image);
      before := KeepsGoing(s, rest, cur, cuts, image);
    } else if Completes(cur, sends[0], |cuts| - 2) {
      before := LastSucceeds(s, flash, cuts, image);
      ServeNone(t, rest, cuts, image);
    } else {
      CopyHandled(s, cur, item.k, flash, cuts, image);
      before := KeepsGoing(t, rest, Stands(cur, item, flash), cuts, image);
    }
  }

  lemma ServeFirst(s: State, sends: seq<Send>, cuts: seq<nat>, image: seq<Byte>)
    requires Partition(cuts, image) && sends != []
    requires forall i :: 0 <= i < |sends| ==> Sendable(sends[i].item, cuts)
    ensures Serve(s, sends, cuts, image)
            == Serve(Receive(s, MessageOf(sends[0].item, cuts, image), sends[0].flash), sends[1..], cuts, image)
  {
    hide Receive, MessageOf, Partition;
  }

  lemma ServeNone(s: State, sends: seq<Send>, cuts: seq<nat>, image: seq<Byte>)
    requires Partition(cuts, image) && sends == []
    ensures Serve(s, sends, cuts, image) == s
  {}

  lemma IdleIgnored(s: State, p: nat, flash: Flash, cuts: seq<nat>, image: seq<Byte>)
    requires Partition(cuts, image) && p < U32
    ensures Receive(s, MessageOf(Idle(p), cuts, image), flash) == s
  {}

  // From any state whatever.
  lemma UpdateCompletes(s: State, sends: seq<Send>, cuts: seq<nat>, image: seq<Byte>) returns (before: seq<Event>)
    requires Partition(cuts, image) && |cuts| >= 3 && |image| < I32_LIMIT && cuts[1] > IMAGE_HEADERS
    requires Completing(sends, UNKNOWN, |cuts| - 2)
    ensures forall i :: 0 <= i < |sends| ==> Sendable(sends[i].item, cuts)
    ensures var t := Serve(s, sends, cuts, image);
            && Completed(t, before, cuts[|cuts| - 2]) && SessionBytes(before) == image
            && Replies(t.trace) == Replies(s.trace) + Expected(sends, UNKNOWN, cuts)
  {
    CompletingSendable(sends, UNKNOWN, cuts);
    before := KeepsGoing(s, sends, UNKNOWN, cuts, image);
  }
}
