/** What an acknowledgement means to a sender that keeps to one partition of the image
    (main/protocol.c:495-636, main/OTA.c:96-163). */
module OtaDelivery {
  import opened Crc16
  import opened Ota
  import opened OtaSafety

  /* ---- A fixed partition of the image into chunks ---- */

  // Chunk k is image[cuts[k]..cuts[k + 1]].
  ghost predicate Partition(cuts: seq<nat>, image: seq<Byte>) {
    && |cuts| >= 2 && cuts[0] == 0 && cuts[|cuts| - 1] == |image|
    && (forall i, j :: 0 <= i < j < |cuts| ==> cuts[i] < cuts[j])
    && (forall i :: 0 <= i < |cuts| - 1 ==> cuts[i + 1] <= cuts[i] + MAX_CHUNK)
  }

  // What the sender transmits: a zero-length message or one of the chunks.
  datatype Item = Idle(position: nat) | Chunk(k: nat)

  datatype Send = Send(item: Item, flash: Flash)

  ghost predicate Sendable(item: Item, cuts: seq<nat>) {
    if item.Chunk? then item.k < |cuts| - 1 else item.position < U32
  }

  ghost function MessageOf(item: Item, cuts: seq<nat>, image: seq<Byte>): Message
    requires Partition(cuts, image) && Sendable(item, cuts)
  {
    match item
    case Idle(p) => Message(p, [], |image|)
    case Chunk(k) =>
      assert cuts[k] < cuts[k + 1] && (k + 1 < |cuts| - 1 ==> cuts[k + 1] < cuts[|cuts| - 1]);
      Message(cuts[k], image[cuts[k]..cuts[k + 1]], |image|)
  }

  ghost function Serve(s: State, sends: seq<Send>, cuts: seq<nat>, image: seq<Byte>): State
    requires Partition(cuts, image)
    requires forall i :: 0 <= i < |sends| ==> Sendable(sends[i].item, cuts)
    decreases sends
  {
    if sends == [] then s
    else Serve(Receive(s, MessageOf(sends[0].item, cuts, image), sends[0].flash), sends[1..], cuts, image)
  }

  // Facts about chunk k that the proofs use.
  lemma ChunkFacts(k: nat, cuts: seq<nat>, image: seq<Byte>)
    requires Partition(cuts, image) && k < |cuts| - 1 && |image| < I32_LIMIT
    ensures var m := MessageOf(Chunk(k), cuts, image);
            && SliceOf(m, image) && m.data != [] && m.position == cuts[k]
            && m.position + |m.data| == cuts[k + 1]
            && (m.position == 0 <==> k == 0)
            && (cuts[k + 1] == |image| <==> k == |cuts| - 2)
  {
    assert k > 0 ==> cuts[0] < cuts[k];
  }

  /* ---- An acknowledgement means the chunk is stored ---- */

  ghost predicate Stored(trace: seq<Event>, position: nat, cuts: seq<nat>, image: seq<Byte>)
    requires Partition(cuts, image)
  {
    exists k :: 0 <= k < |cuts| - 1 && cuts[k] == position && StoredUpTo(trace, cuts[k + 1], image)
  }

  ghost predicate StoredUpTo(trace: seq<Event>, n: nat, image: seq<Byte>) {
    n <= |image| && image[..n] <= SessionBytes(trace)
  }

  predicate IsAck(e: Event) {
    e.Reply? && (e.status == 1 || e.status == 6)
  }

  ghost function AckRule(cuts: seq<nat>, image: seq<Byte>): (seq<Event>, Event) -> bool
    requires Partition(cuts, image)
  {
    (before: seq<Event>, e: Event) => IsAck(e) ==> Stored(before, e.position, cuts, image)
  }

  ghost predicate AcksTrue(trace: seq<Event>, cuts: seq<nat>, image: seq<Byte>)
    requires Partition(cuts, image)
  {
    Always(AckRule(cuts, image), trace)
  }

  // The device stands between two chunks of the partition.
  ghost predicate AtCut(s: State, cuts: seq<nat>) {
    s.lastPosition + s.lastLength == 0
    || exists j :: 0 <= j < |cuts| - 1 && s.lastPosition == cuts[j] && s.lastPosition + s.lastLength == cuts[j + 1]
  }

  ghost predicate AckInv(s: State, cuts: seq<nat>, image: seq<Byte>)
    requires Partition(cuts, image)
  {
    ImageInv(s, image) && AcksTrue(s.trace, cuts, image) && AtCut(s, cuts)
  }

  lemma EmitAck(s: State, e: Event, cuts: seq<nat>, image: seq<Byte>)
    requires Partition(cuts, image) && AcksTrue(s.trace, cuts, image)
    requires IsAck(e) ==> Stored(s.trace, e.position, cuts, image)
    ensures AcksTrue(s.Emit(e).trace, cuts, image)
  {
    hide Always;
    AlwaysSnoc(AckRule(cuts, image), s.trace, e);
  }

  lemma TaskAck(s: State, data: seq<Byte>, flash: Flash, cuts: seq<nat>, image: seq<Byte>)
    requires Partition(cuts, image) && AcksTrue(s.trace, cuts, image)
    ensures AcksTrue(Task(s, data, flash).0.trace, cuts, image)
  {
    hide AcksTrue, AddInt32;
    var t := s.(headerChecked := true);
    EmitAck(s, Write(data, flash.writeOk), cuts, image);
    EmitAck(t, Begin(flash.beginOk), cuts, image);
    EmitAck(t.Emit(Begin(flash.beginOk)), Write(data, flash.writeOk), cuts, image);
  }

  lemma EndedAck(s: State, flash: Flash, cuts: seq<nat>, image: seq<Byte>)
    requires Partition(cuts, image) && AcksTrue(s.trace, cuts, image) && AtCut(s, cuts)
    ensures AcksTrue(Ended(s, flash).0.trace, cuts, image) && AtCut(Ended(s, flash).0, cuts)
  {
    hide AcksTrue;
    var t := s.Emit(End(flash.endOk));
    var u := t.Emit(SetBoot(flash.bootOk));
    EmitAck(s, End(flash.endOk), cuts, image);
    EmitAck(t, SetBoot(flash.bootOk), cuts, image);
    EmitAck(u, Restart, cuts, image);
  }

  lemma HoldsStored(s: State, k: nat, cuts: seq<nat>, image: seq<Byte>)
    requires Partition(cuts, image) && HoldsPrefix(s, image)
    requires k < |cuts| - 1 && cuts[k + 1] <= s.fileLength
    ensures Stored(s.trace, cuts[k], cuts, image)
  {
    hide SessionBytes;
    assert image[..s.fileLength][..cuts[k + 1]] == image[..cuts[k + 1]];
    assert StoredUpTo(s.trace, cuts[k + 1], image);
  }

  // The reply that follows a successful write is true.
  lemma AcknowledgedAck(s: State, k: nat, flash: Flash, status: nat, cuts: seq<nat>, image: seq<Byte>)
    requires Partition(cuts, image) && k < |cuts| - 1 && |image| < I32_LIMIT
    requires HoldsPrefix(s, image) && s.fileLength == cuts[k] && AcksTrue(s.trace, cuts, image)
    requires Task(s, MessageOf(Chunk(k), cuts, image).data, flash).1 == 0
    ensures var m := MessageOf(Chunk(k), cuts, image);
            var a := Acknowledged(Task(s, m.data, flash).0, m, status);
            AcksTrue(a.trace, cuts, image) && AtCut(a, cuts)
  {
    hide HoldsPrefix, AcksTrue, Stored, Task, MessageOf, SliceOf;
    var m := MessageOf(Chunk(k), cuts, image);
    var t := Task(s, m.data, flash).0;
    ChunkFacts(k, cuts, image);
    SliceData(m, image);
    TaskHolds(s, m.data, flash, image);
    TaskAck(s, m.data, flash, cuts, image);
    HoldsStored(t, k, cuts, image);
    EmitAck(t, Reply(status, m.position), cuts, image);
  }

  lemma SliceData(m: Message, image: seq<Byte>)
    requires SliceOf(m, image)
    ensures m.position + |m.data| <= |image| && m.data == image[m.position..m.position + |m.data|]
    ensures m.programLength == |image|
  {}

  lemma StoreAck(s: State, k: nat, flash: Flash, cuts: seq<nat>, image: seq<Byte>)
    requires Partition(cuts, image) && k < |cuts| - 1 && |image| < I32_LIMIT
    requires HoldsPrefix(s, image) && s.fileLength == cuts[k]
    requires AcksTrue(s.trace, cuts, image) && AtCut(s, cuts)
    ensures var t := Store(s, MessageOf(Chunk(k), cuts, image), flash);
            AcksTrue(t.trace, cuts, image) && AtCut(t, cuts)
  {
    hide HoldsPrefix, AcksTrue, Task, MessageOf, AtCut;
    var m := MessageOf(Chunk(k), cuts, image);
    var (t, err) := Task(s, m.data, flash);
    if err == 0 {
      AcknowledgedAck(s, k, flash, 1, cuts, image);
    } else {
      TaskAck(s, m.data, flash, cuts, image);
      EmitAck(t, Reply(4, m.position), cuts, image);
      TaskKeepsPosition(s, m.data, flash);
      SameCut(s, t.Emit(Reply(4, m.position)), cuts);
    }
  }

  lemma StoreLastAck(s: State, k: nat, flash: Flash, cuts: seq<nat>, image: seq<Byte>)
    requires Partition(cuts, image) && k == |cuts| - 2 && |image| < I32_LIMIT
    requires HoldsPrefix(s, image) && s.fileLength == cuts[k]
    requires AcksTrue(s.trace, cuts, image) && AtCut(s, cuts)
    ensures var t := StoreLast(s, MessageOf(Chunk(k), cuts, image), flash);
            AcksTrue(t.trace, cuts, image) && AtCut(t, cuts)
  {
    hide HoldsPrefix, AcksTrue, Task, MessageOf, Ended, AtCut;
    var m := MessageOf(Chunk(k), cuts, image);
    var (t, err) := Task(s, m.data, flash);
    if err == 0 {
      var a := Acknowledged(t, m, 6);
      AcknowledgedAck(s, k, flash, 6, cuts, image);
      EndedAck(a, flash, cuts, image);
      var u := Ended(a, flash).0;
      EmitAck(u, Reply(4, m.position), cuts, image);
      SameCut(u, u.Emit(Reply(4, m.position)), cuts);
    } else {
      TaskAck(s, m.data, flash, cuts, image);
      EmitAck(t, Reply(4, m.position), cuts, image);
      TaskKeepsPosition(s, m.data, flash);
      SameCut(s, t.Emit(Reply(4, m.position)), cuts);
    }
  }

  lemma TaskKeepsPosition(s: State, data: seq<Byte>, flash: Flash)
    ensures var t := Task(s, data, flash).0; t.lastPosition == s.lastPosition && t.lastLength == s.lastLength
  {}

  lemma SameCut(s: State, t: State, cuts: seq<nat>)
    requires AtCut(s, cuts) && t.lastPosition == s.lastPosition && t.lastLength == s.lastLength
    ensures AtCut(t, cuts)
  {}

  // A repeated position lies at or below the chunk last stored, so it was stored before.
  lemma DuplicateStored(s: State, k: nat, cuts: seq<nat>, image: seq<Byte>)
    requires Partition(cuts, image) && k < |cuts| - 1
    requires Accounted(s, image) && AtCut(s, cuts) && 0 < cuts[k] <= s.lastPosition
    ensures Stored(s.trace, cuts[k], cuts, image)
  {
    hide HoldsPrefix, Stored;
    var j :| 0 <= j < |cuts| - 1 && s.lastPosition == cuts[j] && s.lastPosition + s.lastLength == cuts[j + 1];
    assert k <= j;
    HoldsStored(s, k, cuts, image);
  }

  lemma ReplyAck(s: State, e: Event, cuts: seq<nat>, image: seq<Byte>)
    requires Partition(cuts, image) && AcksTrue(s.trace, cuts, image) && AtCut(s, cuts)
    requires IsAck(e) ==> Stored(s.trace, e.position, cuts, image)
    ensures AcksTrue(s.Emit(e).trace, cuts, image) && AtCut(s.Emit(e), cuts)
  {
    hide AcksTrue, Stored, AtCut;
    EmitAck(s, e, cuts, image);
    SameCut(s, s.Emit(e), cuts);
  }

  lemma ReceiveChunkAck(s: State, k: nat, flash: Flash, cuts: seq<nat>, image: seq<Byte>)
    requires Partition(cuts, image) && k < |cuts| - 1 && |image| < I32_LIMIT
    requires AckInv(s, cuts, image)
    ensures var t := Receive(s, MessageOf(Chunk(k), cuts, image), flash);
            AcksTrue(t.trace, cuts, image) && AtCut(t, cuts)
  {
    hide HoldsPrefix, AcksTrue, Stored, MessageOf, SliceOf, Store, StoreLast, AtCut, EndsComplete, Partition;
    var m := MessageOf(Chunk(k), cuts, image);
    ChunkFacts(k, cuts, image);
    SliceData(m, image);
    Bounds(s, image);
    if m.position <= s.lastPosition && m.position != 0 {
      DuplicateStored(s, k, cuts, image);
      ReplyAck(s, Reply(1, m.position), cuts, image);
    } else if m.position != (s.lastPosition + s.lastLength) % U32 && m.position != 0 {
      ReplyAck(s, Reply(5, s.lastPosition), cuts, image);
    } else if m.position == 0 {
      RestartAck(s, cuts, image);
      RestartHolds(s, image);
      StoreAck(Started(s).(lastPosition := 0, lastLength := 0), k, flash, cuts, image);
    } else if (m.position + |m.data|) % U32 >= m.programLength {
      StoreLastAck(s, k, flash, cuts, image);
    } else {
      StoreAck(s, k, flash, cuts, image);
    }
  }

  lemma RestartAck(s: State, cuts: seq<nat>, image: seq<Byte>)
    requires Partition(cuts, image) && AcksTrue(s.trace, cuts, image)
    ensures AcksTrue(Started(s).trace, cuts, image)
    ensures AtCut(Started(s).(lastPosition := 0, lastLength := 0), cuts)
  {
    hide AcksTrue;
    EmitAck(s, Start, cuts, image);
  }

  lemma ReceiveAck(s: State, item: Item, flash: Flash, cuts: seq<nat>, image: seq<Byte>)
    requires Partition(cuts, image) && Sendable(item, cuts) && |image| < I32_LIMIT
    requires AckInv(s, cuts, image)
    ensures AckInv(Receive(s, MessageOf(item, cuts, image), flash), cuts, image)
  {
    if item.Chunk? {
      hide ImageInv, AcksTrue, AtCut, MessageOf, Receive, SliceOf;
      ChunkFacts(item.k, cuts, image);
      ReceiveHolds(s, MessageOf(item, cuts, image), flash, image);
      ReceiveChunkAck(s, item.k, flash, cuts, image);
    }
  }

  // With one partition for all messages, every reply 1 or 6 ever sent names a chunk whose
  // bytes the session held at that moment, whatever is lost, repeated, reordered or fails.
  lemma {:induction false} AcknowledgedMeansStored(s: State, sends: seq<Send>, cuts: seq<nat>, image: seq<Byte>)
    requires Partition(cuts, image) && |image| < I32_LIMIT
    requires forall i :: 0 <= i < |sends| ==> Sendable(sends[i].item, cuts)
    requires AckInv(s, cuts, image)
    ensures AckInv(Serve(s, sends, cuts, image), cuts, image)
    decreases sends
  {
    hide AckInv, Receive, MessageOf, Partition;
    if sends != [] {
      assert Sendable(sends[0].item, cuts);
      ReceiveAck(s, sends[0].item, sends[0].flash, cuts, image);
      var t := Receive(s, MessageOf(sends[0].item, cuts, image), sends[0].flash);
      AcknowledgedMeansStored(t, sends[1..], cuts, image);
    }
  }

  lemma BootAck(cuts: seq<nat>, image: seq<Byte>)
    requires Partition(cuts, image)
    ensures AckInv(BOOT, cuts, image)
  {}

  lemma AcknowledgedFromBoot(sends: seq<Send>, cuts: seq<nat>, image: seq<Byte>)
    requires Partition(cuts, image) && |image| < I32_LIMIT
    requires forall i :: 0 <= i < |sends| ==> Sendable(sends[i].item, cuts)
    ensures AcksTrue(Serve(BOOT, sends, cuts, image).trace, cuts, image)
  {
    hide Serve, Partition;
    BootAck(cuts, image);
    AcknowledgedMeansStored(BOOT, sends, cuts, image);
  }
}
