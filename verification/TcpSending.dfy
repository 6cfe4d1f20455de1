/** The sending side of a TCP connection: one segment at a time, sent again until it is acknowledged. */
module TcpSending {
  import opened Collections
  import opened Words
  import opened TcpFrame
  import opened TcpRules

  /** The bytes the send calls of a run take, one after the other. */
  function Written(c: Conn, events: seq<Event>): seq<byte>
    decreases |events|
  {
    if events == [] then [] else TakenBy(c, events[0]) + Written(Step(c, events[0]), events[1..])
  }

  function TakenBy(c: Conn, e: Event): seq<byte> {
    if e.SendCalled? && Accepts(c, e.bytes, e.passed) then e.bytes else []
  }

  /** The segment a step sends for the first time: the bytes of a send call, or the end of the stream. */
  function NewSegment(c: Conn, e: Event): seq<Sent> {
    if e.SendCalled? && Accepts(c, e.bytes, e.passed) then [Sent(c.sequence, c.acknowledged, 0x18, e.bytes)]
    else if e.CloseCalled? && c.open && e.passed then [Sent(c.sequence, c.acknowledged, 0x11, [])]
    else []
  }

  function NewSegments(c: Conn, events: seq<Event>): seq<Sent>
    decreases |events|
  {
    if events == [] then [] else NewSegment(c, events[0]) + NewSegments(Step(c, events[0]), events[1..])
  }

  predicate IsAck(w: Sent) {
    w.flags == 0x10 && w.payload == []
  }

  /** What was sent, without the bare acknowledgements. */
  function Counted(wire: seq<Sent>): seq<Sent> {
    if wire == [] then []
    else Counted(wire[..|wire| - 1]) + if IsAck(wire[|wire| - 1]) then [] else [wire[|wire| - 1]]
  }

  /** Each segment as often as `tries` says, one segment after the other. */
  function Repeated(segments: seq<Sent>, tries: seq<nat>): seq<Sent>
    requires |segments| == |tries|
  {
    if segments == [] then []
    else
      var last := |segments| - 1;
      Repeated(segments[..last], tries[..last]) + seq(tries[last], _ => segments[last])
  }

  /** The sequence numbers the segments take up: one for each byte, and one for the end of the stream. */
  function Room(segments: seq<Sent>): nat {
    if segments == [] then 0
    else Room(segments[..|segments| - 1]) + RoomOf(segments[|segments| - 1])
  }

  function RoomOf(s: Sent): nat {
    if s.payload == [] then 1 else |s.payload|
  }

  function Payloads(segments: seq<Sent>): seq<byte> {
    if segments == [] then []
    else Payloads(segments[..|segments| - 1]) + segments[|segments| - 1].payload
  }

  // ----- What every run keeps: how often each segment is sent -----

  function TimeoutAfter(retries: nat): nat {
    if retries == 0 then 30 else if retries == 1 then 60 else 120
  }

  /** The pending segment as it goes out again. */
  function Again(p: Pending): Sent {
    Sent(p.start, p.acknowledge, if p.fin then 0x11 else 0x18, if p.fin then [] else p.bytes)
  }

  /** One to four tries for each segment, and the pending segment is the last one. */
  ghost predicate Tried(c: Conn, segments: seq<Sent>, tries: seq<nat>) {
    && |tries| == |segments| && (forall i :: 0 <= i < |tries| ==> 1 <= tries[i] <= 4)
    && Counted(c.wire) == Repeated(segments, tries)
    && (c.pending.Some? ==>
      && segments != [] && Again(c.pending.value) == segments[|segments| - 1]
      && c.pending.value.retries <= 3 && tries[|tries| - 1] == c.pending.value.retries + 1)
  }

  lemma AckTried(c: Conn, segments: seq<Sent>, tries: seq<nat>)
    requires Tried(c, segments, tries)
    ensures Tried(SendAck(c), segments, tries)
  {
    assert SendAck(c).wire[..|c.wire|] == c.wire;
  }

  /** Only the wire and the pending segment matter. */
  lemma SameTried(c: Conn, d: Conn, segments: seq<Sent>, tries: seq<nat>)
    requires Tried(c, segments, tries) && d.wire == c.wire && (d.pending == c.pending || d.pending.None?)
    ensures Tried(d, segments, tries)
  {
  }

  lemma NewTried(c: Conn, d: Conn, s: Sent, segments: seq<Sent>, tries: seq<nat>)
    requires Tried(c, segments, tries) && !IsAck(s)
    requires d.wire == c.wire + [s] && d.pending.Some? && d.pending.value.retries == 0 && Again(d.pending.value) == s
    ensures Tried(d, segments + [s], tries + [1])
  {
    assert d.wire[..|c.wire|] == c.wire;
    assert (segments + [s])[..|segments|] == segments && (tries + [1])[..|segments|] == tries;
    assert seq(1, _ => s) == [s];
  }

  lemma OneMoreTry(segments: seq<Sent>, tries: seq<nat>, more: seq<nat>)
    requires |segments| == |tries| > 0
    requires more == tries[..|tries| - 1] + [tries[|tries| - 1] + 1]
    ensures Repeated(segments, more) == Repeated(segments, tries) + [segments[|segments| - 1]]
  {
    var last := |segments| - 1;
    assert more[..last] == tries[..last];
    assert seq(tries[last] + 1, _ => segments[last]) == seq(tries[last], _ => segments[last]) + [segments[last]];
  }

  lemma PollTried(c: Conn, now: nat, segments: seq<Sent>, tries: seq<nat>) returns (more: seq<nat>)
    requires Tried(c, segments, tries)
    ensures Tried(Poll(c, now), segments, more)
  {
    hide Repeated;
    more := tries;
    if c.open && c.pending.Some? {
      var p := c.pending.value;
      if now >= p.tick + p.timeout && p.retries < 3 {
        var last := |segments| - 1;
        more := tries[..last] + [tries[last] + 1];
        OneMoreTry(segments, tries, more);
        assert Poll(c, now).wire == c.wire + [Again(p)];
        assert Poll(c, now).wire[..|c.wire|] == c.wire;
      }
    }
  }

  lemma DataTried(c: Conn, s: Segment, segments: seq<Sent>, tries: seq<nat>)
    requires Tried(c, segments, tries)
    ensures Tried(DataArrives(c, s), segments, tries)
  {
    hide Tried;
    hide Plus;
    var accepted := Accept(c, s);
    SameTried(c, accepted, segments, tries);
    AckTried(accepted, segments, tries);
    var answered := if s.payload != [] && s.sequence < accepted.acknowledged then SendAck(accepted) else accepted;
    var finned := answered.(acknowledged := Plus(answered.acknowledged, 1));
    SameTried(answered, finned, segments, tries);
    AckTried(finned, segments, tries);
    SameTried(SendAck(finned), SendAck(finned).(remoteClosed := true), segments, tries);
  }

  lemma ArriveTried(c: Conn, s: Segment, segments: seq<Sent>, tries: seq<nat>)
    requires Tried(c, segments, tries)
    ensures Tried(Arrive(c, s), segments, tries)
  {
    hide Tried;
    var after := AckArrives(c, s.acknowledge);
    SameTried(c, after, segments, tries);
    DataTried(after, s, segments, tries);
    SameTried(after, after.(acknowledged := Plus(s.sequence, 1), open := true), segments, tries);
  }

  lemma {:induction false} ArriveAllTried(c: Conn, arrivals: seq<Arrival>, segments: seq<Sent>, tries: seq<nat>)
    requires Tried(c, segments, tries)
    ensures Tried(ArriveAll(c, arrivals), segments, tries)
    decreases |arrivals|
  {
    hide Tried;
    hide Arrive;
    if arrivals != [] {
      ArriveTried(c, arrivals[0].segment, segments, tries);
      ArriveAllTried(Arrive(c, arrivals[0].segment), arrivals[1..], segments, tries);
    }
  }

  lemma HandOverTried(c: Conn, capacity: nat, segments: seq<Sent>, tries: seq<nat>)
    requires Tried(c, segments, tries)
    ensures Tried(HandOver(c, capacity), segments, tries)
  {
    hide Tried;
    AckTried(c, segments, tries);
    SameTried(SendAck(c), SendAck(c).(data := c.data[|Front(c.data, capacity)|..]), segments, tries);
  }

  /** Every step keeps this, with the segment it sends for the first time added at the end. */
  lemma StepTried(c: Conn, e: Event, segments: seq<Sent>, tries: seq<nat>) returns (more: seq<nat>)
    requires Tried(c, segments, tries)
    ensures Tried(Step(c, e), segments + NewSegment(c, e), more)
  {
    hide Tried;
    more := tries;
    assert segments + [] == segments;
    if e.SendCalled? || e.CloseCalled? {
      if NewSegment(c, e) != [] {
        NewTried(c, Step(c, e), NewSegment(c, e)[0], segments, tries);
        more := tries + [1];
      }
    } else if Polls(c, e) {
      more := PollTried(c, e.now, segments, tries);
      ArriveAllTried(Poll(c, e.now), e.arrivals, segments, more);
      if e.ReceiveCalled? {
        HandOverTried(PollAll(c, e.now, e.arrivals), e.capacity, segments, more);
      }
    }
  }

  lemma {:induction false} RunTried(c: Conn, events: seq<Event>, segments: seq<Sent>, tries: seq<nat>)
      returns (more: seq<nat>)
    requires Tried(c, segments, tries)
    ensures Tried(Run(c, events), segments + NewSegments(c, events), more)
    decreases |events|
  {
    hide Tried;
    hide Step;
    hide NewSegment;
    if events == [] {
      more := tries;
      assert segments + [] == segments;
    } else {
      var sent := NewSegment(c, events[0]);
      more := StepTried(c, events[0], segments, tries);
      more := RunTried(Step(c, events[0]), events[1..], segments + sent, more);
      assert segments + (sent + NewSegments(Step(c, events[0]), events[1..]))
          == segments + sent + NewSegments(Step(c, events[0]), events[1..]);
    }
  }

  // ----- What every run keeps: where each segment stands in the stream -----

  /** After the end of the stream there are no more bytes. */
  ghost predicate EndIsLast(segments: seq<Sent>) {
    forall i, j :: 0 <= i < j < |segments| && segments[j].payload != [] ==> segments[i].payload != []
  }

  /** Each segment begins where the ones before it end, in 32-bit numbers. */
  ghost predicate Adjoin(segments: seq<Sent>, first: nat) {
    forall i {:trigger segments[i]} :: 0 <= i < |segments| ==> segments[i].sequence == Plus(first, Room(segments[..i]))
  }

  ghost predicate Placed(c: Conn, segments: seq<Sent>, first: nat) {
    && c.sequence == Plus(first, Room(segments)) && Adjoin(segments, first) && EndIsLast(segments)
    && (c.open && !c.closing ==> forall i :: 0 <= i < |segments| ==> segments[i].payload != [])
    && (c.open && c.closing ==> c.pending.Some? && c.pending.value.fin)
    && (!c.open ==> c.remoteAddress == 0)
  }

  lemma NewPlaced(c: Conn, d: Conn, s: Sent, segments: seq<Sent>, first: nat)
    requires Placed(c, segments, first) && c.open && d.open && s.sequence == c.sequence
    requires d.sequence == Plus(c.sequence, RoomOf(s))
    requires if s.payload == [] then d.closing && d.pending.Some? && d.pending.value.fin else !c.closing && !d.closing
    ensures Placed(d, segments + [s], first)
  {
    hide Plus;
    hide Adjoin;
    hide RoomOf;
    hide Room;
    OneMoreAdjoins(segments, s, first);
    assert EndIsLast(segments + [s]);
    hide EndIsLast;
  }

  lemma OneMoreAdjoins(segments: seq<Sent>, s: Sent, first: nat)
    requires Adjoin(segments, first) && s.sequence == Plus(first, Room(segments))
    ensures Adjoin(segments + [s], first) && Plus(first, Room(segments + [s])) == Plus(s.sequence, RoomOf(s))
  {
    hide Plus;
    hide RoomOf;
    var all := segments + [s];
    assert all[..|segments|] == segments;
    PlusTwice(first, Room(segments), RoomOf(s));
    forall i {:trigger all[i]} | 0 <= i < |all| ensures all[i].sequence == Plus(first, Room(all[..i])) {
      if i < |segments| {
        assert all[..i] == segments[..i];
        assert segments[i].sequence == Plus(first, Room(segments[..i]));
      }
    }
  }

  lemma {:induction false} ArriveAllPlaced(c: Conn, arrivals: seq<Arrival>, segments: seq<Sent>, first: nat)
    requires Placed(c, segments, first)
    ensures Placed(ArriveAll(c, arrivals), segments, first)
    decreases |arrivals|
  {
    if arrivals != [] {
      ArrivePlaced(c, arrivals[0].segment, segments, first);
      hide Placed;
      hide Arrive;
      ArriveAllPlaced(Arrive(c, arrivals[0].segment), arrivals[1..], segments, first);
    }
  }

  lemma ArrivePlaced(c: Conn, s: Segment, segments: seq<Sent>, first: nat)
    requires Placed(c, segments, first)
    ensures Placed(Arrive(c, s), segments, first)
  {
    hide Plus;
    hide Adjoin;
    hide EndIsLast;
    hide Room;
  }

  lemma StepPlaced(c: Conn, e: Event, segments: seq<Sent>, first: nat)
    requires Placed(c, segments, first)
    ensures Placed(Step(c, e), segments + NewSegment(c, e), first)
  {
    assert segments + [] == segments;
    if e.SendCalled? || e.CloseCalled? {
      if NewSegment(c, e) != [] {
        NewPlaced(c, Step(c, e), NewSegment(c, e)[0], segments, first);
        hide Placed;
      }
    } else if Polls(c, e) {
      assert Placed(Poll(c, e.now), segments, first);
      ArriveAllPlaced(Poll(c, e.now), e.arrivals, segments, first);
      hide ArriveAll;
    }
  }

  lemma {:induction false} RunPlaced(c: Conn, events: seq<Event>, segments: seq<Sent>, first: nat)
    requires Placed(c, segments, first)
    ensures Placed(Run(c, events), segments + NewSegments(c, events), first)
    decreases |events|
  {
    hide Placed;
    hide Step;
    hide NewSegment;
    if events == [] {
      assert segments + [] == segments;
    } else {
      var sent := NewSegment(c, events[0]);
      StepPlaced(c, events[0], segments, first);
      RunPlaced(Step(c, events[0]), events[1..], segments + sent, first);
      assert segments + (sent + NewSegments(Step(c, events[0]), events[1..]))
          == segments + sent + NewSegments(Step(c, events[0]), events[1..]);
    }
  }

  lemma {:induction false} PayloadsAppend(a: seq<Sent>, b: seq<Sent>)
    ensures Payloads(a + b) == Payloads(a) + Payloads(b)
    decreases |b|
  {
    if b == [] {
      assert a + b == a;
    } else {
      assert (a + b)[..|a + b| - 1] == a + b[..|b| - 1];
      PayloadsAppend(a, b[..|b| - 1]);
    }
  }

  /** The segments carry the bytes written, in order. */
  lemma {:induction false} PayloadsWritten(c: Conn, events: seq<Event>)
    ensures Payloads(NewSegments(c, events)) == Written(c, events)
    decreases |events|
  {
    hide Step;
    if events != [] {
      var sent := NewSegment(c, events[0]);
      assert Payloads(sent) == TakenBy(c, events[0]);
      PayloadsAppend(sent, NewSegments(Step(c, events[0]), events[1..]));
      PayloadsWritten(Step(c, events[0]), events[1..]);
    }
  }

  // ----- Every run -----

  /** A connection as it stands when the handshake is over. */
  predicate JustOpened(c: Conn) {
    c.open && !c.closing && c.pending.None? && c.wire == [] && c.data == [] && c.sequence < UINT
  }

  /** In every run, whatever the network does: what is sent is one segment for each call that took
      bytes or closed the stream, in the order of the calls, and each is sent one to four times, the
      same each time, before the next one. Together they carry the bytes written, and each begins at
      the 32-bit number where the one before it ends. */
  lemma EverySegment(c: Conn, events: seq<Event>) returns (tries: seq<nat>)
    requires JustOpened(c)
    ensures |tries| == |NewSegments(c, events)| && forall i :: 0 <= i < |tries| ==> 1 <= tries[i] <= 4
    ensures Counted(Run(c, events).wire) == Repeated(NewSegments(c, events), tries)
    ensures Payloads(NewSegments(c, events)) == Written(c, events)
    ensures Adjoin(NewSegments(c, events), c.sequence) && EndIsLast(NewSegments(c, events))
  {
    hide Run;
    hide NewSegments;
    hide Written;
    hide Payloads;
    assert [] + NewSegments(c, events) == NewSegments(c, events);
    assert Tried(c, [], []) && Placed(c, [], c.sequence);
    hide JustOpened;
    hide Repeated;
    hide Counted;
    hide Adjoin;
    hide EndIsLast;
    hide Room;
    tries := RunTried(c, events, [], []);
    RunPlaced(c, events, [], c.sequence);
    PayloadsWritten(c, events);
  }

  /** The segment carries the bytes of the stream that its sequence number names. */
  ghost predicate InPlace(w: Sent, stream: seq<byte>, first: nat) {
    exists at: nat :: Carries(w, stream, first, at)
  }

  predicate Carries(w: Sent, stream: seq<byte>, first: nat, at: nat) {
    && at + |w.payload| <= |stream| && w.sequence == Plus(first, at)
    && w.payload == stream[at..at + |w.payload|]
  }

  lemma {:induction false} RepeatedHolds(segments: seq<Sent>, tries: seq<nat>, w: Sent)
    requires |segments| == |tries| && w in Repeated(segments, tries)
    ensures w in segments
    decreases |segments|
  {
    if segments != [] {
      var last := |segments| - 1;
      if w != segments[last] {
        assert w !in seq(tries[last], _ => segments[last]);
        RepeatedHolds(segments[..last], tries[..last], w);
      }
    }
  }

  lemma {:induction false} CountedHolds(wire: seq<Sent>, w: Sent)
    requires w in wire && !IsAck(w)
    ensures w in Counted(wire)
    decreases |wire|
  {
    if w != wire[|wire| - 1] {
      CountedHolds(wire[..|wire| - 1], w);
    }
  }

  /** Bytes have no end of the stream before them, so their place is what the segments before take up. */
  lemma {:induction false} PlaceOfBytes(segments: seq<Sent>, i: nat)
    requires i < |segments| && EndIsLast(segments) && segments[i].payload != []
    ensures Room(segments[..i]) + |segments[i].payload| <= |Payloads(segments)|
    ensures Payloads(segments)[Room(segments[..i])..Room(segments[..i]) + |segments[i].payload|] == segments[i].payload
    decreases |segments|
  {
    var last := |segments| - 1;
    if i < last {
      PlaceOfBytes(segments[..last], i);
      assert segments[..last][..i] == segments[..i];
    } else {
      RoomIsLength(segments[..i]);
    }
  }

  lemma {:induction false} RoomIsLength(segments: seq<Sent>)
    requires forall i :: 0 <= i < |segments| ==> segments[i].payload != []
    ensures Room(segments) == |Payloads(segments)|
    decreases |segments|
  {
    if segments != [] {
      RoomIsLength(segments[..|segments| - 1]);
    }
  }

  /** Bytes are never sent under a number that is not theirs, however often the numbers wrap. */
  lemma EveryByte(c: Conn, events: seq<Event>, w: Sent)
    requires JustOpened(c) && w in Run(c, events).wire && w.payload != []
    ensures InPlace(w, Written(c, events), c.sequence)
  {
    hide Run;
    hide NewSegments;
    hide Written;
    hide Counted;
    hide Repeated;
    hide Plus;
    hide Room;
    hide Payloads;
    var segments := NewSegments(c, events);
    var tries := EverySegment(c, events);
    CountedHolds(Run(c, events).wire, w);
    RepeatedHolds(segments, tries, w);
    hide JustOpened;
    var i :| 0 <= i < |segments| && segments[i] == w;
    PlaceOfBytes(segments, i);
    hide EndIsLast;
    assert Carries(w, Written(c, events), c.sequence, Room(segments[..i]));
  }

  /** Two bytes sent under one number are the same, unless four gigabytes lie between them. */
  lemma SameByte(c: Conn, events: seq<Event>, v: Sent, i: nat, w: Sent, j: nat)
    requires JustOpened(c) && v in Run(c, events).wire && w in Run(c, events).wire
    requires i < |v.payload| && j < |w.payload|
    requires |Written(c, events)| <= UINT
    requires Plus(v.sequence, i) == Plus(w.sequence, j)
    ensures v.payload[i] == w.payload[j]
  {
    hide Run;
    hide Written;
    hide Carries;
    hide Plus;
    EveryByte(c, events, v);
    EveryByte(c, events, w);
    var stream := Written(c, events);
    var a: nat :| Carries(v, stream, c.sequence, a);
    var b: nat :| Carries(w, stream, c.sequence, b);
    ByteAt(v, stream, c.sequence, a, i);
    ByteAt(w, stream, c.sequence, b, j);
    SameNumberSameOffset(c.sequence, a + i, b + j);
  }

  lemma ByteAt(w: Sent, stream: seq<byte>, first: nat, at: nat, i: nat)
    requires Carries(w, stream, first, at) && i < |w.payload|
    ensures at + i < |stream| && w.payload[i] == stream[at + i] && Plus(w.sequence, i) == Plus(first, at + i)
  {
    PlusTwice(first, at, i);
  }

  // ----- Acknowledgements -----

  /** The last byte of the pending segment is before place `end` of the numbering. An acknowledgement
      up to `end` settles the segment. One up to an earlier place should not, and does exactly when the
      32-bit numbers wrap between the two. */
  lemma OldAckSettles(c: Conn, a: nat, end: nat)
    requires c.open && c.pending.Some? && Plus(c.pending.value.start, c.pending.value.Length()) == Plus(0, end)
    requires a <= end < a + UINT
    ensures AckArrives(c, Plus(0, a)).pending.None? <==> a == end || a / UINT < end / UINT
  {
  }

  /** Twenty bytes that begin ten below 2^32: an acknowledgement of the bytes before them settles them. */
  lemma OldAckExample(c: Conn, bytes: seq<byte>, now: nat)
    requires c.open && c.pending.None? && c.sequence == UINT - 10 && |bytes| == 20
    ensures var sent := Send(c, bytes, now, true);
      sent.pending.Some? && AckArrives(sent, UINT - 10).pending.None?
  {
  }

  // ----- Closing with a segment pending -----

  /** Nothing with bytes is sent from `c` on, other than what is already on the wire. */
  ghost predicate NoMoreBytes(c: Conn, wire: nat, events: seq<Event>) {
    var r := Run(c, events).wire;
    |r| >= wire && forall w :: w in r[wire..] ==> w.payload == []
  }

  /** The connection is closing, or over, and what it would send again is no bytes. */
  ghost predicate Ending(c: Conn, wire: nat) {
    && (c.open ==> c.pending.Some? && c.pending.value.fin) && (!c.open ==> c.remoteAddress == 0)
    && |c.wire| >= wire && forall w :: w in c.wire[wire..] ==> w.payload == []
  }

  lemma AckEnding(c: Conn, wire: nat)
    requires Ending(c, wire)
    ensures Ending(SendAck(c), wire)
  {
    assert SendAck(c).wire[wire..] == c.wire[wire..] + [Sent(c.sequence, c.acknowledged, 0x10, [])];
  }

  lemma SameEnding(c: Conn, d: Conn, wire: nat)
    requires Ending(c, wire) && d.wire == c.wire && d.pending == c.pending && d.open == c.open
    requires d.remoteAddress == c.remoteAddress
    ensures Ending(d, wire)
  {
  }

  lemma DataEnding(c: Conn, s: Segment, wire: nat)
    requires Ending(c, wire)
    ensures Ending(DataArrives(c, s), wire)
  {
    hide Ending;
    hide Plus;
    var accepted := Accept(c, s);
    SameEnding(c, accepted, wire);
    AckEnding(accepted, wire);
    var answered := if s.payload != [] && s.sequence < accepted.acknowledged then SendAck(accepted) else accepted;
    var finned := answered.(acknowledged := Plus(answered.acknowledged, 1));
    SameEnding(answered, finned, wire);
    AckEnding(finned, wire);
    SameEnding(SendAck(finned), SendAck(finned).(remoteClosed := true), wire);
  }

  lemma ArriveEnding(c: Conn, s: Segment, wire: nat)
    requires Ending(c, wire)
    ensures Ending(Arrive(c, s), wire)
  {
    var after := AckArrives(c, s.acknowledge);
    assert Ending(after, wire);
    assert c.remoteAddress != 0 ==> c.open;
    assert after.remoteAddress != 0 ==> after.open;
    hide Ending;
    DataEnding(after, s, wire);
    SameEnding(after, after.(acknowledged := Plus(s.sequence, 1)), wire);
  }

  lemma {:induction false} ArriveAllEnding(c: Conn, arrivals: seq<Arrival>, wire: nat)
    requires Ending(c, wire)
    ensures Ending(ArriveAll(c, arrivals), wire)
    decreases |arrivals|
  {
    hide Ending;
    hide Arrive;
    if arrivals != [] {
      ArriveEnding(c, arrivals[0].segment, wire);
      ArriveAllEnding(Arrive(c, arrivals[0].segment), arrivals[1..], wire);
    }
  }

  lemma PollEnding(c: Conn, now: nat, wire: nat)
    requires Ending(c, wire)
    ensures Ending(Poll(c, now), wire)
  {
    if Poll(c, now).wire != c.wire {
      var w := Again(c.pending.value);
      assert Poll(c, now).wire[wire..] == c.wire[wire..] + [w];
    }
  }

  lemma CloseEnding(c: Conn, now: nat, passed: bool, wire: nat)
    requires Ending(c, wire)
    ensures Ending(Close(c, now, passed), wire)
  {
    if Close(c, now, passed) != c {
      assert Close(c, now, passed).wire[wire..] == c.wire[wire..] + [Sent(c.sequence, c.acknowledged, 0x11, [])];
    }
  }

  lemma StepEnding(c: Conn, e: Event, wire: nat)
    requires Ending(c, wire)
    ensures Ending(Step(c, e), wire)
  {
    if Polls(c, e) {
      PollEnding(c, e.now, wire);
      ArriveAllEnding(Poll(c, e.now), e.arrivals, wire);
      if e.ReceiveCalled? {
        var p := PollAll(c, e.now, e.arrivals);
        hide Ending;
        hide PollAll;
        AckEnding(p, wire);
        SameEnding(SendAck(p), SendAck(p).(data := p.data[|Front(p.data, e.capacity)|..]), wire);
      }
    } else if e.CloseCalled? {
      CloseEnding(c, e.now, e.passed, wire);
    }
  }

  lemma {:induction false} RunEnding(c: Conn, events: seq<Event>, wire: nat)
    requires Ending(c, wire)
    ensures NoMoreBytes(c, wire, events)
    decreases |events|
  {
    hide Step;
    if events != [] {
      StepEnding(c, events[0], wire);
      RunEnding(Step(c, events[0]), events[1..], wire);
    }
  }

  /** A segment with bytes waits for its acknowledgement and may still be sent again. Closing the
      connection then means that no run sends these or any bytes again, exactly when the driver takes
      the segment that ends the stream; otherwise the timer does. */
  lemma CloseDropsPending(c: Conn, now: nat, passed: bool)
    requires c.open && c.pending.Some? && !c.pending.value.fin
    requires c.pending.value.bytes != [] && c.pending.value.retries < 3
    ensures (forall events :: NoMoreBytes(Close(c, now, passed), |c.wire|, events)) <==> passed
  {
    var d := Close(c, now, passed);
    if passed {
      assert d.wire[|c.wire|..] == [Sent(c.sequence, c.acknowledged, 0x11, [])];
      forall events ensures NoMoreBytes(d, |c.wire|, events) {
        RunEnding(d, events, |c.wire|);
      }
    } else {
      var p := c.pending.value;
      var late := Polled(p.tick + p.timeout, []);
      var sent := Poll(c, late.now);
      assert sent.wire[|c.wire|..] == [Again(p)];
      assert ArriveAll(sent, []) == sent && Step(c, late) == sent;
      assert Run(c, [late]) == Run(sent, []) == sent;
      assert Again(p) in sent.wire[|c.wire|..];
      assert !NoMoreBytes(c, |c.wire|, [late]);
    }
  }

  // ----- Time -----

  /** How long after the first transmission the last one is, when the timer is polled every tick. */
  function SentAfter(retries: nat): nat {
    if retries == 0 then 0 else if retries == 1 then 30 else if retries == 2 then 90 else 210
  }

  /** The pending segment was first sent at `start` and is not overdue at `now`. */
  ghost predicate OnTime(c: Conn, start: nat, now: nat) {
    c.open && c.pending.Some? ==>
      var p := c.pending.value;
      && p.retries <= 3 && p.timeout == TimeoutAfter(p.retries) && p.tick == start + SentAfter(p.retries)
      && p.tick <= now < p.tick + p.timeout
  }

  /** No call to send or to close is taken, and from `now` on every tick has a poll, or several. */
  ghost predicate EveryTick(c: Conn, events: seq<Event>, now: nat)
    decreases |events|
  {
    events != [] ==>
      var e := events[0];
      && NewSegment(c, e) == []
      && (Polls(c, e) ==> now <= e.now <= now + 1)
      && EveryTick(Step(c, e), events[1..], if Polls(c, e) then e.now else now)
  }

  /** The tick of the last poll. */
  function LastTick(c: Conn, events: seq<Event>, now: nat): nat
    decreases |events|
  {
    if events == [] then now
      else LastTick(Step(c, events[0]), events[1..], if Polls(c, events[0]) then events[0].now else now)
  }

  /** A connection that is over has nothing pending. */
  predicate OverIsQuiet(c: Conn) {
    !c.open ==> c.pending.None? && c.remoteAddress == 0
  }

  lemma ArriveOnTime(c: Conn, s: Segment, start: nat, now: nat)
    requires OnTime(c, start, now) && OverIsQuiet(c)
    ensures OnTime(Arrive(c, s), start, now) && OverIsQuiet(Arrive(c, s))
  {
    ArriveTimer(c, s);
    hide Arrive;
    hide Plus;
  }

  lemma {:induction false} ArriveAllOnTime(c: Conn, arrivals: seq<Arrival>, start: nat, now: nat)
    requires OnTime(c, start, now) && OverIsQuiet(c)
    ensures OnTime(ArriveAll(c, arrivals), start, now) && OverIsQuiet(ArriveAll(c, arrivals))
    decreases |arrivals|
  {
    hide OnTime;
    hide OverIsQuiet;
    hide Arrive;
    if arrivals != [] {
      ArriveOnTime(c, arrivals[0].segment, start, now);
      ArriveAllOnTime(Arrive(c, arrivals[0].segment), arrivals[1..], start, now);
    }
  }

  lemma PollOnTime(c: Conn, start: nat, now: nat, tick: nat)
    requires OnTime(c, start, now) && OverIsQuiet(c) && now <= tick <= now + 1
    ensures OnTime(Poll(c, tick), start, tick) && OverIsQuiet(Poll(c, tick))
  {
  }

  lemma StepOnTime(c: Conn, e: Event, start: nat, now: nat)
    requires OnTime(c, start, now) && OverIsQuiet(c) && NewSegment(c, e) == []
    requires Polls(c, e) ==> now <= e.now <= now + 1
    ensures OnTime(Step(c, e), start, if Polls(c, e) then e.now else now) && OverIsQuiet(Step(c, e))
  {
    if Polls(c, e) {
      PollOnTime(c, start, now, e.now);
      ArriveAllOnTime(Poll(c, e.now), e.arrivals, start, e.now);
      hide PollAll;
      assert PollAll(c, e.now, e.arrivals) == ArriveAll(Poll(c, e.now), e.arrivals) by {
        AllOfPoll(c, e.now, e.arrivals);
      }
    }
  }

  lemma AllOfPoll(c: Conn, now: nat, arrivals: seq<Arrival>)
    ensures PollAll(c, now, arrivals) == ArriveAll(Poll(c, now), arrivals)
  {
  }

  /** An arrival leaves the timer alone or acknowledges the pending segment. */
  lemma ArriveTimer(c: Conn, s: Segment)
    requires !c.open ==> c.remoteAddress == 0
    ensures var n, a := Arrive(c, s), AckArrives(c, s.acknowledge);
      || (n.open == c.open && n.pending == c.pending && n.remoteAddress == c.remoteAddress)
      || (n.open == a.open && n.pending == a.pending && n.remoteAddress == a.remoteAddress)
  {
    hide Plus;
  }

  lemma {:induction false} RunOnTime(c: Conn, events: seq<Event>, start: nat, now: nat)
    requires OnTime(c, start, now) && OverIsQuiet(c) && EveryTick(c, events, now)
    ensures OnTime(Run(c, events), start, LastTick(c, events, now)) && OverIsQuiet(Run(c, events))
    decreases |events|
  {
    hide OnTime;
    hide OverIsQuiet;
    hide Step;
    hide Polls;
    if events != [] {
      var e := events[0];
      StepOnTime(c, e, start, now);
      RunOnTime(Step(c, e), events[1..], start, if Polls(c, e) then e.now else now);
    }
  }

  /** A segment is acknowledged or given up within 330 ticks, when every tick has a poll. */
  lemma SettledIn330(c: Conn, bytes: seq<byte>, now: nat, events: seq<Event>)
    requires Accepts(c, bytes, true)
    requires var sent := Send(c, bytes, now, true);
      EveryTick(sent, events, now) && LastTick(sent, events, now) >= now + 330
    ensures Run(Send(c, bytes, now, true), events).pending.None?
  {
    RunOnTime(Send(c, bytes, now, true), events, now, now);
  }

  lemma {:induction false} StaysPending(c: Conn, events: seq<Event>, start: nat, now: nat)
    requires OnTime(c, start, now) && c.open && c.pending.Some? && EveryTick(c, events, now)
    requires forall e :: e in events ==> e.Polled? && e.arrivals == []
    requires LastTick(c, events, now) < start + 330 && now < start + 330
    ensures Run(c, events).pending.Some?
    decreases |events|
  {
    if events != [] {
      var e := events[0];
      assert e in events && forall d :: d in events[1..] ==> d in events;
      assert ArriveAll(Poll(c, e.now), e.arrivals) == Poll(c, e.now);
      TicksGrow(Step(c, e), events[1..], e.now);
      PollWaits(c, start, now, e.now);
      hide Poll;
      StaysPending(Step(c, e), events[1..], start, e.now);
    }
  }

  lemma PollWaits(c: Conn, start: nat, now: nat, tick: nat)
    requires OnTime(c, start, now) && c.open && c.pending.Some? && now <= tick <= now + 1 && tick < start + 330
    ensures Poll(c, tick).open && Poll(c, tick).pending.Some? && OnTime(Poll(c, tick), start, tick)
  {
  }

  lemma {:induction false} TicksGrow(c: Conn, events: seq<Event>, now: nat)
    requires EveryTick(c, events, now)
    ensures LastTick(c, events, now) >= now
    decreases |events|
  {
    hide Step;
    if events != [] {
      TicksGrow(Step(c, events[0]), events[1..], if Polls(c, events[0]) then events[0].now else now);
    }
  }

  /** The bound is exact: while nothing arrives, the segment is not given up before. */
  lemma PendingUntil330(c: Conn, bytes: seq<byte>, now: nat, events: seq<Event>)
    requires Accepts(c, bytes, true) && forall e :: e in events ==> e.Polled? && e.arrivals == []
    requires var sent := Send(c, bytes, now, true);
      EveryTick(sent, events, now) && LastTick(sent, events, now) < now + 330
    ensures Run(Send(c, bytes, now, true), events).pending.Some?
  {
    StaysPending(Send(c, bytes, now, true), events, now, now);
  }
}
