/** How a TCP connection loses bytes of the peer's stream: an end of the stream that comes early, and
    bytes that are in the buffer when the connection ends. */
module TcpEnding {
  import opened Collections
  import opened Words
  import opened TcpFrame
  import opened TcpRules

  /** The segment acknowledges the end of what the program sends, which drops the connection. */
  predicate SettlesEnd(c: Conn, s: Segment) {
    && c.pending.Some? && c.pending.value.fin
    && s.acknowledge >= Plus(c.pending.value.start, c.pending.value.Length())
  }

  /** The segment is for this connection. */
  predicate FromPeer(c: Conn, s: Segment) {
    && c.remoteAddress == s.source != 0 && c.remotePort == s.sourcePort
    && s.destination == LOCAL_ADDRESS && s.destinationPort == LOCAL_PORT
  }

  /** The segment gets as far as its payload and the mark of the end. */
  predicate Heard(c: Conn, s: Segment) {
    c.open && FromPeer(c, s) && !(IsSynAck(s) && s.sequence == c.sequence) && !SettlesEnd(c, s)
  }

  lemma HeardArrives(c: Conn, s: Segment)
    requires Heard(c, s)
    ensures var r, a, ends := Arrive(c, s), Accept(c, s), s.flags % 2 == 1;
      && r.open && r.data == a.data && r.acknowledged == (if ends then Plus(a.acknowledged, 1) else a.acknowledged)
      && r.remoteClosed == (c.remoteClosed || ends)
      && r.remoteAddress == c.remoteAddress && r.remotePort == c.remotePort && r.sequence == c.sequence
      && (r.pending == c.pending || r.pending.None?)
  {
    hide Plus;
    HeardData(c, s);
    var after := AckArrives(c, s.acknowledge);
    hide AckArrives;
    hide Arrive;
    hide Heard;
    DataFacts(after, s);
    hide DataArrives;
    assert Accept(after, s).data == Accept(c, s).data && Accept(after, s).acknowledged == Accept(c, s).acknowledged;
  }

  lemma DataFacts(c: Conn, s: Segment)
    ensures var r, a, ends := DataArrives(c, s), Accept(c, s), s.flags % 2 == 1;
      && r.data == a.data && r.acknowledged == (if ends then Plus(a.acknowledged, 1) else a.acknowledged)
      && r.remoteClosed == (c.remoteClosed || ends) && r.open == c.open && r.pending == c.pending
      && r.remoteAddress == c.remoteAddress && r.remotePort == c.remotePort && r.sequence == c.sequence
  {
    hide Plus;
  }

  lemma HeardData(c: Conn, s: Segment)
    requires Heard(c, s)
    ensures var after := AckArrives(c, s.acknowledge);
      && Arrive(c, s) == DataArrives(after, s) && (after.pending == c.pending || after.pending.None?)
      && after == c.(pending := after.pending) && c.open
  {
    hide Plus;
    hide IsSynAck;
    hide DataArrives;
  }

  /** It leaves all others heard. */
  lemma HeardStays(c: Conn, s: Segment, q: Segment)
    requires Heard(c, s) && Heard(c, q)
    ensures Heard(Arrive(c, s), q)
  {
    hide Plus;
    hide IsSynAck;
    hide Arrive;
    HeardArrives(c, s);
  }

  // ----- An end of the stream that comes early -----

  /** A segment of the peer that brings in the byte at `at`: like `p`, with the payload and the number
      of a piece of the stream. */
  ghost predicate BringsIn(c: Conn, p: Segment, stream: seq<byte>, first: nat, place: nat, at: nat, offset: nat,
      payload: seq<byte>) {
    var q := p.(sequence := Plus(first, offset), payload := payload);
    && PieceOf(stream, first, q, offset, place) && Stores(c, q)
    && offset <= at < offset + |Arrive(c, q).data|
  }

  ghost predicate CanTakeIn(c: Conn, p: Segment, stream: seq<byte>, first: nat, place: nat, at: nat) {
    exists offset: nat, payload :: BringsIn(c, p, stream, first, place, at, offset, payload)
  }

  ghost predicate CanTakeInSome(c: Conn, p: Segment, stream: seq<byte>, first: nat, place: nat) {
    exists at: nat :: CanTakeIn(c, p, stream, first, place, at)
  }

  /** With an empty buffer and `place` acknowledged, what can be taken in are the bytes from there on,
      as many as the buffer holds. */
  lemma TakesInFromPlace(c: Conn, p: Segment, stream: seq<byte>, first: nat, place: nat, at: nat)
    requires Heard(c, p) && !IsSynAck(p) && c.data == [] && c.acknowledged == Plus(first, place)
    ensures CanTakeIn(c, p, stream, first, place, at) <==> place <= at < |stream| && at < place + 1024
  {
    hide Plus;
    hide Arrive;
    if place <= at < |stream| && at < place + 1024 {
      var payload := stream[place..at + 1];
      var q := p.(sequence := Plus(first, place), payload := payload);
      assert Heard(c, q);
      HeardArrives(c, q);
      assert BringsIn(c, p, stream, first, place, at, place, payload);
    }
    forall offset: nat, payload | BringsIn(c, p, stream, first, place, at, offset, payload)
      ensures place <= at < |stream| && at < place + 1024
    {
      var q := p.(sequence := Plus(first, offset), payload := payload);
      assert Heard(c, q);
      HeardArrives(c, q);
      SameNumberSameOffset(first, offset, place);
    }
  }

  /** An end of the stream that brings in no byte, when `total` bytes are acknowledged and the buffer is
      empty: the byte at `total` could be taken in before and cannot any more exactly when there is one,
      and a later byte can be taken in without it exactly when there is a second one. */
  lemma EarlyEnd(c: Conn, end: Segment, p: Segment, stream: seq<byte>, first: nat, total: nat)
    requires Heard(c, end) && end.flags % 2 == 1 && !Stores(c, end)
    requires Heard(c, p) && !IsSynAck(p)
    requires c.data == [] && c.acknowledged == Plus(first, total)
    ensures var n := Arrive(c, end);
      && n.remoteClosed && n.acknowledged == Plus(first, total + 1)
      && (CanTakeIn(c, p, stream, first, total, total) && !CanTakeIn(n, p, stream, first, total + 1, total)
        <==> total < |stream|)
      && (CanTakeInSome(n, p, stream, first, total + 1) <==> total + 1 < |stream|)
  {
    hide Arrive;
    hide CanTakeIn;
    var n := Arrive(c, end);
    HeardArrives(c, end);
    HeardStays(c, end, p);
    PlusTwice(first, total, 1);
    TakesInFromPlace(c, p, stream, first, total, total);
    TakesInFromPlace(n, p, stream, first, total + 1, total);
    TakesInSome(n, p, stream, first, total + 1);
  }

  lemma TakesInSome(c: Conn, p: Segment, stream: seq<byte>, first: nat, place: nat)
    requires Heard(c, p) && !IsSynAck(p) && c.data == [] && c.acknowledged == Plus(first, place)
    ensures CanTakeInSome(c, p, stream, first, place) <==> place < |stream|
  {
    hide CanTakeIn;
    TakesInFromPlace(c, p, stream, first, place, place);
    forall at: nat | CanTakeIn(c, p, stream, first, place, at) ensures place < |stream| {
      TakesInFromPlace(c, p, stream, first, place, at);
    }
  }

  lemma OneKeepsBuffer(c: Conn, s: Segment)
    requires c.data != []
    ensures Arrive(c, s).data == c.data
  {
    hide Plus;
    hide IsSynAck;
    assert AckArrives(c, s.acknowledge).data == c.data;
  }

  lemma {:induction false} BufferStays(c: Conn, arrivals: seq<Arrival>)
    requires c.data != []
    ensures ArriveAll(c, arrivals).data == c.data
    decreases |arrivals|
  {
    hide Plus;
    hide Arrive;
    if arrivals != [] {
      OneKeepsBuffer(c, arrivals[0].segment);
      BufferStays(Arrive(c, arrivals[0].segment), arrivals[1..]);
    }
  }

  /** Pieces without an end of the stream, which come to an empty buffer. */
  ghost predicate PiecesFor(c: Conn, arrivals: seq<Arrival>, stream: seq<byte>, first: nat, place: nat) {
    forall a :: a in arrivals ==>
      Heard(c, a.segment) && a.segment.flags % 2 == 0 && PieceOf(stream, first, a.segment, a.offset, place)
  }

  ghost predicate SomeAt(arrivals: seq<Arrival>, place: nat) {
    exists a :: a in arrivals && a.offset == place && a.segment.payload != []
  }

  lemma PiecesStay(c: Conn, s: Segment, arrivals: seq<Arrival>, stream: seq<byte>, first: nat, place: nat)
    requires Heard(c, s) && PiecesFor(c, arrivals, stream, first, place)
    ensures PiecesFor(Arrive(c, s), arrivals, stream, first, place)
  {
    hide Heard;
    hide Arrive;
    hide PieceOf;
    forall a | a in arrivals ensures Heard(Arrive(c, s), a.segment) {
      HeardStays(c, s, a.segment);
    }
  }

  lemma StoredPiece(c: Conn, s: Segment, stream: seq<byte>, first: nat, place: nat)
    requires c.data == [] && s.payload != [] && s.sequence == c.acknowledged
    requires PieceOf(stream, first, s, place, place)
    ensures var d := Accept(c, s).data;
      d != [] && place + |d| <= |stream| && d == stream[place..place + |d|]
  {
    hide Plus;
  }

  lemma SomeAtRest(a: Arrival, rest: seq<Arrival>, place: nat)
    requires a.segment.payload == [] || a.offset != place
    ensures SomeAt([a] + rest, place) <==> SomeAt(rest, place)
  {
    if SomeAt(rest, place) {
      var b :| b in rest && b.offset == place && b.segment.payload != [];
      assert b in [a] + rest;
    }
  }

  /** The first of them that stands at the number acknowledged is stored. */
  lemma {:induction false} FirstThatFits(c: Conn, arrivals: seq<Arrival>, stream: seq<byte>, first: nat, place: nat)
    requires c.data == [] && c.acknowledged == Plus(first, place) && PiecesFor(c, arrivals, stream, first, place)
    ensures var d := ArriveAll(c, arrivals).data;
      && (d != [] <==> SomeAt(arrivals, place))
      && (d != [] ==> place + |d| <= |stream| && d == stream[place..place + |d|])
    decreases |arrivals|
  {
    hide Plus;
    hide Arrive;
    hide Heard;
    if arrivals != [] {
      var a, rest := arrivals[0], arrivals[1..];
      assert arrivals == [a] + rest;
      HeardArrives(c, a.segment);
      var n := Arrive(c, a.segment);
      PiecesStay(c, a.segment, rest, stream, first, place);
      if a.segment.payload != [] && a.segment.sequence == c.acknowledged {
        SameNumberSameOffset(first, a.offset, place);
        StoredPiece(c, a.segment, stream, first, place);
        hide Accept;
        BufferStays(n, rest);
        assert a in arrivals;
      } else {
        assert n.data == [] && n.acknowledged == c.acknowledged;
        assert a.segment.payload == [] || a.offset != place;
        SomeAtRest(a, rest, place);
        FirstThatFits(n, rest, stream, first, place);
        hide SomeAt;
      }
    }
  }

  /** A receive call that takes in an early end of the stream delivers bytes exactly when a later
      segment of the same poll stands one place behind the byte that is due; and then it delivers the
      bytes from that place on. */
  lemma GapDelivered(c: Conn, capacity: nat, now: nat, end: Arrival, later: seq<Arrival>, stream: seq<byte>,
      first: nat, total: nat)
    requires capacity > 0 && c.open && !c.remoteClosed && c.data == [] && c.acknowledged == Plus(first, total)
    requires Heard(Poll(c, now), end.segment) && end.segment.flags % 2 == 1 && !Stores(Poll(c, now), end.segment)
    requires PiecesFor(Poll(c, now), later, stream, first, total + 1)
    ensures var got := Received(c, capacity, now, [end] + later);
      && (got != [] <==> SomeAt(later, total + 1))
      && (got != [] ==> total + 1 + |got| <= |stream| && got == stream[total + 1..total + 1 + |got|])
  {
    hide Arrive;
    hide Plus;
    hide Heard;
    hide SomeAt;
    var p := Poll(c, now);
    assert p.data == [] && p.acknowledged == c.acknowledged;
    hide Poll;
    HeardArrives(p, end.segment);
    var n := Arrive(p, end.segment);
    PlusTwice(first, total, 1);
    assert ([end] + later)[1..] == later;
    PiecesStay(p, end.segment, later, stream, first, total + 1);
    FirstThatFits(n, later, stream, first, total + 1);
    var d := ArriveAll(n, later).data;
    assert PollAll(c, now, [end] + later).data == d;
    assert Front(d, capacity) == d[..|Front(d, capacity)|];
  }

  /** The end of the stream [1, 2, 3] comes before its bytes, and is counted where it does not stand:
      then the second byte fits, and is delivered without the first. */
  lemma EarlyEndSkips(c: Conn, s: Segment)
    requires c.open && c.pending.None? && c.data == [] && !c.remoteClosed && c.acknowledged == 100
    requires c.remoteAddress == s.source != 0 && c.remotePort == s.sourcePort
    requires s.destination == LOCAL_ADDRESS && s.destinationPort == LOCAL_PORT
    ensures var end := Arrival(s.(sequence := 103, flags := 0x11, payload := []), 3);
      var second := Arrival(s.(sequence := 101, flags := 0x10, payload := [2]), 1);
      && PieceOf([1, 2, 3], 100, end.segment, 3, 0) && PieceOf([1, 2, 3], 100, second.segment, 1, 0)
      && Received(c, 10, 0, [end, second]) == [2]
  {
    var stream: seq<byte> := [1, 2, 3];
    assert stream[3..3] == [] && stream[1..2] == [2];
    var end := Arrival(s.(sequence := 103, flags := 0x11, payload := []), 3);
    var second := Arrival(s.(sequence := 101, flags := 0x10, payload := [2]), 1);
    var c1 := Arrive(c, end.segment);
    assert c1.acknowledged == 101 && c1.data == [] && c1.open && c1.pending.None?;
    var c2 := Arrive(c1, second.segment);
    assert c2.data == [2];
    assert [end, second][1..] == [second];
    assert ArriveAll(c2, [second][1..]) == c2;
    assert ArriveAll(c, [end, second]) == c2;
  }

  // ----- Bytes in the buffer when the connection ends -----

  lemma {:induction false} EndStays(c: Conn, arrivals: seq<Arrival>)
    requires c.remoteClosed
    ensures ArriveAll(c, arrivals).remoteClosed
    decreases |arrivals|
  {
    if arrivals != [] {
      EndStays(Arrive(c, arrivals[0].segment), arrivals[1..]);
    }
  }

  /** Once the peer has ended the stream, no receive call hands over anything: what is still in the
      buffer then is lost. */
  lemma {:induction false} NothingAfterClose(c: Conn, events: seq<Event>)
    requires c.remoteClosed
    ensures Delivered(c, events) == []
    decreases |events|
  {
    if events != [] {
      if events[0].Polled? {
        EndStays(Poll(c, events[0].now), events[0].arrivals);
      }
      NothingAfterClose(Step(c, events[0]), events[1..]);
    }
  }

  /** Bytes in the buffer when a receive call begins are handed over by it exactly when the connection
      is open and the peer has not ended the stream; nothing that comes in meanwhile changes that. */
  lemma BufferHandedOver(c: Conn, capacity: nat, now: nat, arrivals: seq<Arrival>)
    requires c.data != [] && capacity > 0
    ensures Received(c, capacity, now, arrivals) == Front(c.data, capacity) <==> c.open && !c.remoteClosed
  {
    BufferStays(Poll(c, now), arrivals);
  }

  predicate Over(c: Conn) {
    !c.open && c.remoteAddress == 0
  }

  lemma {:induction false} OverStays(c: Conn, arrivals: seq<Arrival>)
    requires Over(c)
    ensures ArriveAll(c, arrivals) == c
    decreases |arrivals|
  {
    if arrivals != [] {
      OverStays(c, arrivals[1..]);
    }
  }

  lemma {:induction false} NothingAfterDrop(c: Conn, events: seq<Event>)
    requires Over(c)
    ensures Delivered(c, events) == []
    decreases |events|
  {
    if events != [] {
      if events[0].Polled? {
        OverStays(c, events[0].arrivals);
      }
      NothingAfterDrop(Step(c, events[0]), events[1..]);
    }
  }

  /** Bytes in the buffer are lost, in every run, exactly when the connection is over or the peer has
      ended the stream. */
  lemma BufferLost(c: Conn)
    requires c.data != [] && (!c.open ==> c.remoteAddress == 0)
    ensures (forall events :: Delivered(c, events) == []) <==> !c.open || c.remoteClosed
  {
    if c.open && !c.remoteClosed {
      BufferHandedOver(c, 1, 0, []);
      var call := ReceiveCalled(1, 0, []);
      assert Delivered(c, [call]) == Got(c, call) + Delivered(Step(c, call), []);
      assert Delivered(c, [call]) != [];
    } else {
      forall events ensures Delivered(c, events) == [] {
        if c.remoteClosed {
          NothingAfterClose(c, events);
        } else {
          NothingAfterDrop(c, events);
        }
      }
    }
  }

  /** The timer loses what is in the buffer exactly when it gives up a segment. */
  lemma TimerLosesBuffer(c: Conn, now: nat)
    requires c.data != [] && c.open && !c.remoteClosed
    ensures (forall events :: Delivered(Poll(c, now), events) == []) <==>
      c.pending.Some? && now >= c.pending.value.tick + c.pending.value.timeout && c.pending.value.retries >= 3
  {
    hide Delivered;
    BufferLost(Poll(c, now));
  }

  /** An arriving segment loses it exactly when it acknowledges the end of what the program sends, or
      ends the peer's stream. */
  lemma ArrivalLosesBuffer(c: Conn, s: Segment)
    requires c.data != [] && c.open && !c.remoteClosed && FromPeer(c, s) && !(IsSynAck(s) && s.sequence == c.sequence)
    ensures (forall events :: Delivered(Arrive(c, s), events) == []) <==> SettlesEnd(c, s) || s.flags % 2 == 1
  {
    hide Delivered;
    hide Plus;
    hide IsSynAck;
    if !SettlesEnd(c, s) {
      HeardArrives(c, s);
    }
    BufferLost(Arrive(c, s));
  }

  /** A segment with the last byte and the end of the stream, taken in by a poll of the program: the
      byte is acknowledged and in the buffer, and no run delivers it. */
  lemma LastByteLost(c: Conn, s: Segment, events: seq<Event>)
    requires c.open && c.pending.None? && c.data == [] && s.sequence == c.acknowledged
    requires c.remoteAddress == s.source != 0 && c.remotePort == s.sourcePort
    requires s.destination == LOCAL_ADDRESS && s.destinationPort == LOCAL_PORT && s.flags == 0x11 && |s.payload| == 1
    ensures var polled := Step(c, Polled(0, [Arrival(s, 0)]));
      && polled.data == s.payload && polled.acknowledged == Plus(s.sequence, 2)
      && Delivered(polled, events) == []
  {
    assert [Arrival(s, 0)][1..] == [];
    var polled := Arrive(c, s);
    assert ArriveAll(polled, []) == polled;
    assert Step(c, Polled(0, [Arrival(s, 0)])) == polled;
    PlusTwice(s.sequence, 1, 1);
    NothingAfterClose(polled, events);
  }
}
