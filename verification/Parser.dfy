/** A declarative reading of the line, independent of the receiver automaton: a message is
    what lies between an END and the START before it with no marker in between, unescaped. */
module Parser {
  import opened Crc16
  import opened Slip
  import opened Receiver

  // Runs of ESC collapse, an escaped byte x stands for ESC + x (mod 256), a trailing ESC drops.
  function Unescape(seg: seq<Byte>): seq<Byte>
    decreases |seg|
  {
    if seg == [] then []
    else if seg[0] != SLIP_ESC then [seg[0]] + Unescape(seg[1..])
    else if |seg| == 1 then []
    else if seg[1] == SLIP_ESC then Unescape(seg[1..])
    else [SLIP_ESC + seg[1]] + Unescape(seg[2..])
  }

  // Position of the last marker, or -1.
  function LastMarker(s: seq<Byte>): (m: int)
    ensures -1 <= m < |s|
    ensures m >= 0 ==> IsMarker(s[m])
    ensures forall i :: m < i < |s| ==> !IsMarker(s[i])
  {
    if s == [] then -1
    else if IsMarker(s[|s| - 1]) then |s| - 1
    else LastMarker(s[..|s| - 1])
  }

  // The segment being received at the end of s, if the last marker is a START.
  predicate Open(s: seq<Byte>) {
    LastMarker(s) >= 0 && s[LastMarker(s)] == SLIP_START
  }

  function Segment(s: seq<Byte>): seq<Byte>
    requires Open(s)
  {
    s[LastMarker(s) + 1..]
  }

  function Messages(s: seq<Byte>): seq<seq<Byte>> {
    if s == [] then []
    else
      var init := s[..|s| - 1];
      Messages(init) + (if s[|s| - 1] == SLIP_END && Open(init) then [Unescape(Segment(init))] else [])
  }

  lemma {:induction false} UnescapeEscape(data: seq<Byte>)
    ensures Unescape(Escape(data)) == data
  {
    if data != [] {
      UnescapeEscape(data[1..]);
      UnescapeFirst(data[0], Escape(data[1..]));
      assert data == [data[0]] + data[1..];
    }
  }

  lemma UnescapeFirst(b: Byte, rest: seq<Byte>)
    ensures Unescape(EscapeByte(b) + rest) == [b] + Unescape(rest)
  {
    var seg := EscapeByte(b) + rest;
    if IsMarker(b) || b == SLIP_ESC {
      assert seg[2..] == rest;
    } else {
      assert seg[1..] == rest;
    }
  }

  predicate Pending(seg: seq<Byte>) {
    seg != [] && seg[|seg| - 1] == SLIP_ESC
  }

  lemma UnescapePlain(b: Byte, rest: seq<Byte>)
    requires b != SLIP_ESC
    ensures Unescape([b] + rest) == [b] + Unescape(rest)
  {
    assert ([b] + rest)[1..] == rest;
  }

  lemma UnescapeRun(rest: seq<Byte>)
    requires rest != [] && rest[0] == SLIP_ESC
    ensures Unescape([SLIP_ESC] + rest) == Unescape(rest)
  {
    assert ([SLIP_ESC] + rest)[1..] == rest;
  }

  lemma UnescapePair(x: Byte, rest: seq<Byte>)
    requires x != SLIP_ESC
    ensures Unescape([SLIP_ESC, x] + rest) == [SLIP_ESC + x] + Unescape(rest)
  {
    assert ([SLIP_ESC, x] + rest)[2..] == rest;
  }

  lemma UnescapeEnds(c: Byte)
    ensures Unescape([]) == [] && Unescape([SLIP_ESC]) == []
    ensures Unescape([c]) == if c == SLIP_ESC then [] else [c]
    ensures Unescape([SLIP_ESC, c]) == if c == SLIP_ESC then [] else [SLIP_ESC + c]
  {
    assert [SLIP_ESC, c][1..] == [c] && [SLIP_ESC, c][2..] == [] && [c][1..] == [];
  }

  // What one more byte c adds to a decoded segment.
  function Added(seg: seq<Byte>, c: Byte): seq<Byte> {
    if c == SLIP_ESC then [] else if Pending(seg) then [SLIP_ESC + c] else [c]
  }

  lemma AddedToRest(first: seq<Byte>, rest: seq<Byte>, c: Byte)
    requires rest != [] || (first != [] && first[|first| - 1] != SLIP_ESC)
    ensures Added(first + rest, c) == Added(rest, c)
  {}

  lemma AddedToEnds(c: Byte)
    ensures Unescape([c]) == Added([], c)
    ensures Unescape([SLIP_ESC, c]) == Added([SLIP_ESC], c)
  {
    UnescapeEnds(c);
  }

  lemma {:induction false} UnescapeSnoc(seg: seq<Byte>, c: Byte)
    ensures Unescape(seg + [c]) == Unescape(seg) + Added(seg, c)
    decreases |seg|
  {
    hide Unescape, Added;
    UnescapeEnds(c);
    AddedToEnds(c);
    if seg == [] {
      assert seg + [c] == [c];
    } else if seg == [SLIP_ESC] {
      assert seg + [c] == [SLIP_ESC, c];
    } else if seg[0] != SLIP_ESC || seg[1] == SLIP_ESC {
      UnescapeSnoc(seg[1..], c);
      SnocAfterOne(seg, seg[0], seg[1..], c);
    } else {
      UnescapeSnoc(seg[2..], c);
      SnocAfterPair(seg, seg[1], seg[2..], c);
    }
  }

  lemma SnocAfterOne(seg: seq<Byte>, b: Byte, rest: seq<Byte>, c: Byte)
    requires seg == [b] + rest && Unescape(rest + [c]) == Unescape(rest) + Added(rest, c)
    requires b != SLIP_ESC || (rest != [] && rest[0] == SLIP_ESC)
    ensures Unescape(seg + [c]) == Unescape(seg) + Added(seg, c)
  {
    hide Unescape, Added;
    assert seg + [c] == [b] + (rest + [c]);
    AddedToRest([b], rest, c);
    if b != SLIP_ESC {
      UnescapePlain(b, rest);
      UnescapePlain(b, rest + [c]);
    } else {
      UnescapeRun(rest);
      UnescapeRun(rest + [c]);
    }
  }

  lemma SnocAfterPair(seg: seq<Byte>, x: Byte, rest: seq<Byte>, c: Byte)
    requires seg == [SLIP_ESC, x] + rest && Unescape(rest + [c]) == Unescape(rest) + Added(rest, c)
    requires x != SLIP_ESC
    ensures Unescape(seg + [c]) == Unescape(seg) + Added(seg, c)
  {
    hide Unescape, Added;
    assert seg + [c] == [SLIP_ESC, x] + (rest + [c]);
    AddedToRest([SLIP_ESC, x], rest, c);
    UnescapePair(x, rest);
    UnescapePair(x, rest + [c]);
  }

  predicate AllShort(messages: seq<seq<Byte>>) {
    forall i :: 0 <= i < |messages| ==> |messages[i]| < RS485_BUFFER_SIZE
  }

  // How the receiver's state reflects the bytes s read so far. Once a segment has decoded
  // to a full buffer only the fact that reception is on remains known.
  predicate Tracks(s: seq<Byte>, st: RxState) {
    && Reachable(st)
    && (if Open(s) then
          var u := Unescape(Segment(s));
          st.started && (|u| < RS485_BUFFER_SIZE ==> st.content == u && st.esc == Pending(Segment(s)))
        else !st.started)
  }

  lemma OpenSnoc(s: seq<Byte>, c: Byte)
    ensures c == SLIP_START ==> Open(s + [c]) && Segment(s + [c]) == []
    ensures c == SLIP_END ==> !Open(s + [c])
    ensures !IsMarker(c) ==> Open(s + [c]) == Open(s) && (Open(s) ==> Segment(s + [c]) == Segment(s) + [c])
  {
    assert (s + [c])[..|s|] == s;
  }

  lemma TracksNext(s: seq<Byte>, st: RxState, c: Byte)
    requires Tracks(s, st)
    requires c == SLIP_END && Open(s) ==> |Unescape(Segment(s))| < RS485_BUFFER_SIZE
    ensures Tracks(s + [c], Next(st, c))
    ensures Out(st, c) == if c == SLIP_END && Open(s) then [Unescape(Segment(s))] else []
  {
    hide Unescape, LastMarker, Segment, Open;
    OpenSnoc(s, c);
    NextReachable(st, c);
    if c == SLIP_START {
      UnescapeNone();
    } else if !IsMarker(c) && Open(s) {
      UnescapeSnoc(Segment(s), c);
    }
  }

  lemma UnescapeNone()
    ensures Unescape([]) == []
  {}

  lemma MessagesSnoc(s: seq<Byte>, c: Byte)
    ensures Messages(s + [c]) == Messages(s) + if c == SLIP_END && Open(s) then [Unescape(Segment(s))] else []
  {
    assert (s + [c])[..|s|] == s;
  }

  lemma {:induction false} ReceiverTracks(s: seq<Byte>)
    requires AllShort(Messages(s))
    ensures Tracks(s, After(IDLE, s))
    ensures Delivered(IDLE, s) == Messages(s)
    decreases |s|
  {
    hide Messages, Tracks, Next, Out, Unescape, Open, Segment, After, Delivered;
    if s == [] {
      NothingRead();
    } else {
      var init, c := s[..|s| - 1], s[|s| - 1];
      assert s == init + [c];
      MessagesSnoc(init, c);
      assert AllShort(Messages(init)) by { Prefix(Messages(init), Messages(s)); }
      ReceiverTracks(init);
      if c == SLIP_END && Open(init) {
        assert Messages(s)[|Messages(init)|] == Unescape(Segment(init));
      }
      TracksNext(init, After(IDLE, init), c);
      RunAppend(IDLE, init, [c]);
      RunOne(After(IDLE, init), c);
    }
  }

  lemma NothingRead()
    ensures Tracks([], After(IDLE, []))
    ensures Delivered(IDLE, []) == Messages([])
  {}

  lemma Prefix(a: seq<seq<Byte>>, b: seq<seq<Byte>>)
    requires a <= b && AllShort(b)
    ensures AllShort(a)
  {}

  // No message longer than 499 bytes is ever delivered.
  lemma {:induction false} DeliveredShort(s: RxState, stream: seq<Byte>)
    ensures AllShort(Delivered(s, stream))
    decreases stream
  {
    hide Next;
    if stream != [] {
      DeliveredShort(Next(s, stream[0]), stream[1..]);
    }
  }

  // The receiver delivers exactly the declared messages, on every stream whose declared
  // messages fit the buffer, and on no other.
  lemma ReceiverRefinesParser(s: seq<Byte>)
    ensures Delivered(IDLE, s) == Messages(s) <==> AllShort(Messages(s))
  {
    hide Messages, Delivered;
    if AllShort(Messages(s)) {
      ReceiverTracks(s);
    }
    DeliveredShort(IDLE, s);
  }
}
