/** One TCP connection of network.c as steps: what arrives, what is sent, what the timer does. */
module TcpRules {
  import opened Collections
  import opened Words
  import opened TcpFrame

  const LOCAL_ADDRESS := 0x0A00020F
  const LOCAL_PORT := 49153

  /** The one segment that waits for its acknowledgement. */
  datatype Pending = Pending(start: nat, acknowledge: nat, bytes: seq<byte>, fin: bool,
    tick: nat, timeout: nat, retries: nat) {
    function Length(): nat {
      if fin then 1 else |bytes|
    }
  }

  /** A segment handed to the network driver. */
  datatype Sent = Sent(sequence: nat, acknowledge: nat, flags: nat, payload: seq<byte>)

  datatype Conn = Conn(sequence: nat, acknowledged: nat, remoteAddress: nat, remotePort: nat, open: bool,
    data: seq<byte>, pending: Option<Pending>, closing: bool, remoteClosed: bool, wire: seq<Sent>)

  /** 32-bit addition. */
  function Plus(a: nat, b: nat): (c: nat)
    ensures c < UINT
  {
    (a + b) % UINT
  }

  // ----- Arrivals -----

  function SendAck(c: Conn): Conn {
    c.(wire := c.wire + [Sent(c.sequence, c.acknowledged, 0x10, [])])
  }

  function Drop(c: Conn): Conn {
    c.(pending := None, open := false, remoteAddress := 0, remotePort := 0)
  }

  function AckArrives(c: Conn, acknowledge: nat): Conn {
    if !c.open || c.pending.None? || acknowledge < Plus(c.pending.value.start, c.pending.value.Length()) then c
    else if c.pending.value.fin then Drop(c)
    else c.(pending := None)
  }

  /** At most 1024 bytes of a segment that continues the stream, and only into an empty buffer. */
  function Accept(c: Conn, s: Segment): Conn {
    if s.payload == [] || c.data != [] || s.sequence != c.acknowledged then c
    else
      var taken := if |s.payload| > 1024 then s.payload[..1024] else s.payload;
      c.(data := taken, acknowledged := Plus(c.acknowledged, |taken|))
  }

  function DataArrives(c: Conn, s: Segment): Conn {
    var accepted := Accept(c, s);
    var answered := if s.payload != [] && s.sequence < accepted.acknowledged then SendAck(accepted) else accepted;
    if s.flags % 2 == 0 then answered
    else SendAck(answered.(acknowledged := Plus(answered.acknowledged, 1))).(remoteClosed := true)
  }

  predicate IsSynAck(s: Segment) {
    s.flags / 2 % 2 == 1 && s.flags / 16 % 2 == 1
  }

  function Arrive(c: Conn, s: Segment): Conn {
    if c.remoteAddress == 0 || s.source != c.remoteAddress || s.sourcePort != c.remotePort ||
      s.destinationPort != LOCAL_PORT then c
    else
      var after := AckArrives(c, s.acknowledge);
      if s.source != after.remoteAddress || s.destination != LOCAL_ADDRESS ||
        s.sourcePort != after.remotePort then after
      else if IsSynAck(s) && s.sequence == after.sequence then after.(acknowledged := Plus(s.sequence, 1), open := true)
      else if after.open then DataArrives(after, s)
      else after
  }

  // ----- Calls of the program -----

  /** What leaves the front of the buffer, and the buffer after it. */
  function Front(data: seq<byte>, capacity: nat): seq<byte> {
    if |data| < capacity then data else data[..capacity]
  }

  function HandOver(c: Conn, capacity: nat): Conn {
    if Front(c.data, capacity) == [] then c
    else SendAck(c).(data := c.data[|Front(c.data, capacity)|..])
  }

  /** Whether a send call takes the bytes; `passed` says whether the driver took the frame. */
  predicate Accepts(c: Conn, bytes: seq<byte>, passed: bool) {
    1 <= |bytes| <= 1024 && c.open && c.pending.None? && passed
  }

  function Send(c: Conn, bytes: seq<byte>, now: nat, passed: bool): Conn {
    if !Accepts(c, bytes, passed) then c
    else
      c.(sequence := Plus(c.sequence, |bytes|),
         pending := Some(Pending(c.sequence, c.acknowledged, bytes, false, now, 30, 0)),
         wire := c.wire + [Sent(c.sequence, c.acknowledged, 0x18, bytes)])
  }

  function Close(c: Conn, now: nat, passed: bool): Conn {
    if !c.open || !passed then c
    else
      c.(sequence := Plus(c.sequence, 1), data := [], closing := true,
         pending := Some(Pending(c.sequence, c.acknowledged, [], true, now, 30, 0)),
         wire := c.wire + [Sent(c.sequence, c.acknowledged, 0x11, [])])
  }

  /** The timer: a late acknowledgement means sending again, three times, and then giving up. */
  function Poll(c: Conn, now: nat): Conn {
    if !c.open || c.pending.None? then c
    else
      var p := c.pending.value;
      if now < p.tick + p.timeout then c
      else if p.retries >= 3 then Drop(c)
      else
        c.(wire := c.wire + [Sent(p.start, p.acknowledge, if p.fin then 0x11 else 0x18, if p.fin then [] else p.bytes)],
           pending := Some(p.(tick := now, retries := p.retries + 1,
             timeout := if p.timeout < 120 then p.timeout * 2 else p.timeout)))
  }

  /** A segment that comes in; `offset` is its place in the peer's stream, for use in proofs. */
  datatype Arrival = Arrival(segment: Segment, offset: nat)

  function ArriveAll(c: Conn, arrivals: seq<Arrival>): Conn
    decreases |arrivals|
  {
    if arrivals == [] then c else ArriveAll(Arrive(c, arrivals[0].segment), arrivals[1..])
  }

  /** `network_poll`: the timer, then everything that has come in. */
  function PollAll(c: Conn, now: nat, arrivals: seq<Arrival>): Conn {
    ArriveAll(Poll(c, now), arrivals)
  }

  /** A receive call looks at the connection when it begins, then polls, and then hands over what is
      in the buffer, whatever the poll has done to the connection. */
  predicate Refuses(c: Conn, capacity: nat) {
    capacity == 0 || !c.open || c.remoteClosed
  }

  function Receive(c: Conn, capacity: nat, now: nat, arrivals: seq<Arrival>): Conn {
    if Refuses(c, capacity) then c else HandOver(PollAll(c, now, arrivals), capacity)
  }

  function Received(c: Conn, capacity: nat, now: nat, arrivals: seq<Arrival>): seq<byte> {
    if Refuses(c, capacity) then [] else Front(PollAll(c, now, arrivals).data, capacity)
  }

  datatype Event =
    | Polled(now: nat, arrivals: seq<Arrival>)
    | ReceiveCalled(capacity: nat, now: nat, arrivals: seq<Arrival>)
    | SendCalled(bytes: seq<byte>, now: nat, passed: bool)
    | CloseCalled(now: nat, passed: bool)

  function Step(c: Conn, e: Event): Conn {
    match e
    case Polled(now, arrivals) => PollAll(c, now, arrivals)
    case ReceiveCalled(capacity, now, arrivals) => Receive(c, capacity, now, arrivals)
    case SendCalled(bytes, now, passed) => Send(c, bytes, now, passed)
    case CloseCalled(now, passed) => Close(c, now, passed)
  }

  function Run(c: Conn, events: seq<Event>): Conn
    decreases |events|
  {
    if events == [] then c else Run(Step(c, events[0]), events[1..])
  }

  /** Whether a step polls: a receive call that is refused does not. */
  predicate Polls(c: Conn, e: Event) {
    e.Polled? || (e.ReceiveCalled? && !Refuses(c, e.capacity))
  }

  // ----- Receiving: what is delivered is the peer's stream -----

  /** The bytes a step hands to the program. */
  function Got(c: Conn, e: Event): seq<byte> {
    if e.ReceiveCalled? then Received(c, e.capacity, e.now, e.arrivals) else []
  }

  /** The bytes all receive calls of a run return, one after the other. */
  function Delivered(c: Conn, events: seq<Event>): seq<byte>
    decreases |events|
  {
    if events == [] then [] else Got(c, events[0]) + Delivered(Step(c, events[0]), events[1..])
  }

  /** The segment puts bytes in the buffer. */
  predicate Stores(c: Conn, s: Segment) {
    Arrive(c, s).data != c.data
  }

  /** `segment` is a piece of the peer's stream from `offset` on, and not four gigabytes old or early
      when `total` bytes have been acknowledged. */
  ghost predicate PieceOf(stream: seq<byte>, first: nat, s: Segment, offset: nat, total: nat) {
    && offset + |s.payload| <= |stream| && s.payload == stream[offset..offset + |s.payload|]
    && s.sequence == Plus(first, offset)
    && offset < total + UINT && total < offset + UINT
  }

  /** How many bytes of the stream a segment adds to the buffer. */
  ghost function Progress(c: Conn, s: Segment): nat {
    var n := |Arrive(c, s).data|;
    if n > |c.data| then n - |c.data| else 0
  }

  ghost function ProgressAll(c: Conn, arrivals: seq<Arrival>): nat
    decreases |arrivals|
  {
    if arrivals == [] then 0
    else Progress(c, arrivals[0].segment) + ProgressAll(Arrive(c, arrivals[0].segment), arrivals[1..])
  }

  /** Anything may arrive that is not stored. What is stored is a piece of the stream and comes before
      any end of the stream; and there is no second answer to the handshake. */
  ghost predicate Honest(c: Conn, a: Arrival, stream: seq<byte>, first: nat, total: nat) {
    && !(IsSynAck(a.segment) && a.segment.sequence == c.sequence)
    && (Stores(c, a.segment) ==> !c.remoteClosed && PieceOf(stream, first, a.segment, a.offset, total))
  }

  /** Pieces may arrive however often and in whatever order. */
  ghost predicate Pieces(c: Conn, arrivals: seq<Arrival>, stream: seq<byte>, first: nat, total: nat)
    decreases |arrivals|
  {
    arrivals != [] ==>
      var a := arrivals[0];
      && Honest(c, a, stream, first, total)
      && Pieces(Arrive(c, a.segment), arrivals[1..], stream, first, total + Progress(c, a.segment))
  }

  /** What a step adds to the buffer, before it hands anything over. */
  ghost function Added(c: Conn, e: Event): nat {
    if Polls(c, e) then ProgressAll(Poll(c, e.now), e.arrivals) else 0
  }

  ghost predicate Genuine(c: Conn, e: Event, stream: seq<byte>, first: nat, total: nat) {
    (e.CloseCalled? ==> c.data == []) && (Polls(c, e) ==> Pieces(Poll(c, e.now), e.arrivals, stream, first, total))
  }

  /** All that is stored is from the stream, and the program closes the connection only when the buffer
      is empty. */
  ghost predicate FromStream(c: Conn, events: seq<Event>, stream: seq<byte>, first: nat, total: nat)
    decreases |events|
  {
    events != [] ==>
      && Genuine(c, events[0], stream, first, total)
      && FromStream(Step(c, events[0]), events[1..], stream, first, total + Added(c, events[0]))
  }

  /** `total` bytes of the stream have come in, the last of them are in the buffer, and they are
      acknowledged; after an end of the stream the number acknowledged is another one. */
  ghost predicate Receiving(data: seq<byte>, acknowledged: nat, ended: bool, stream: seq<byte>, first: nat,
      total: nat) {
    && total <= |stream| && |data| <= total && |data| <= 1024
    && data == stream[total - |data|..total]
    && (!ended ==> acknowledged == Plus(first, total))
  }

  lemma SameNumberSameOffset(first: nat, a: nat, b: nat)
    requires Plus(first, a) == Plus(first, b) && a < b + UINT && b < a + UINT
    ensures a == b
  {
  }

  lemma PlusTwice(a: nat, b: nat, n: nat)
    ensures Plus(Plus(a, b), n) == Plus(a, b + n)
  {
  }

  lemma AcceptReceives(c: Conn, s: Segment, stream: seq<byte>, first: nat, offset: nat, total: nat)
    requires Receiving(c.data, c.acknowledged, false, stream, first, total) && PieceOf(stream, first, s, offset, total)
    ensures var a := Accept(c, s);
      |a.data| >= |c.data| && Receiving(a.data, a.acknowledged, false, stream, first, total + |a.data| - |c.data|)
    ensures Accept(c, s).data != c.data ==> c.data == []
  {
    if s.payload != [] && c.data == [] && s.sequence == c.acknowledged {
      SameNumberSameOffset(first, offset, total);
      var n := |Accept(c, s).data|;
      assert stream[offset..offset + |s.payload|][..n] == stream[total..total + n];
      PlusTwice(first, total, n);
    }
  }

  /** Padding that `Parse` took for payload gets into the buffer exactly when the segment stands where
      the stream does, the buffer is empty, and the segment's own bytes do not fill it. */
  lemma PaddingStored(c: Conn, s: Segment, padding: seq<byte>)
    requires padding != []
    ensures var padded := Accept(c, s.(payload := s.payload + padding));
      && (padded.data != Accept(c, s).data <==> c.data == [] && s.sequence == c.acknowledged && |s.payload| < 1024)
      && (padded.data != Accept(c, s).data ==>
        padded.data == Front(s.payload + padding, 1024) && |padded.data| > |s.payload|)
  {
    var all := s.payload + padding;
    if |all| > 1024 && |s.payload| >= 1024 {
      assert all[..1024] == s.payload[..1024];
    }
  }

  /** A bare acknowledgement of 54 bytes, padded to the 60 of the shortest Ethernet frame, adds six
      bytes to the stream. */
  lemma BareAckStored(to: seq<byte>, from: seq<byte>, s: Segment, c: Conn)
    requires |to| == |from| == 6 && s.Fits() && s.payload == [] && s.sequence == c.acknowledged && c.data == []
    ensures var zeros: seq<byte> := [0, 0, 0, 0, 0, 0];
      && Parse(FrameOf(to, from, s) + zeros) == Some(s.(payload := zeros))
      && Accept(c, s.(payload := zeros)).data == zeros
  {
    var zeros: seq<byte> := [0, 0, 0, 0, 0, 0];
    ParseBuilt(to, from, s);
    ParsePadded(FrameOf(to, from, s), zeros);
    hide Parse;
    assert [] + zeros == zeros;
    PaddingStored(c, s, zeros);
  }

  /** A segment does to the buffer what `Accept` does, or nothing, and the same to the number
      acknowledged unless it ends the stream. */
  lemma ArriveAccepts(c: Conn, s: Segment)
    requires !(IsSynAck(s) && s.sequence == c.sequence)
    ensures var r, a := Arrive(c, s), Accept(c, s);
      && (c.remoteClosed ==> r.remoteClosed)
      && (r.data == c.data || r.data == a.data)
      && (r.remoteClosed || r.acknowledged == if r.data == c.data then c.acknowledged else a.acknowledged)
  {
    hide IsSynAck;
    hide Plus;
    var after := AckArrives(c, s.acknowledge);
    assert after.data == c.data && after.acknowledged == c.acknowledged && after.sequence == c.sequence;
    assert Accept(after, s).data == Accept(c, s).data && Accept(after, s).acknowledged == Accept(c, s).acknowledged;
  }

  lemma ArriveReceives(c: Conn, a: Arrival, stream: seq<byte>, first: nat, total: nat)
    requires Receiving(c.data, c.acknowledged, c.remoteClosed, stream, first, total)
    requires Honest(c, a, stream, first, total)
    ensures var r := Arrive(c, a.segment);
      && |r.data| >= |c.data|
      && Receiving(r.data, r.acknowledged, r.remoteClosed, stream, first, total + |r.data| - |c.data|)
  {
    hide Arrive;
    hide Accept;
    hide IsSynAck;
    ArriveAccepts(c, a.segment);
    if Stores(c, a.segment) {
      AcceptReceives(c, a.segment, stream, first, a.offset, total);
    }
  }

  lemma {:induction false} AllReceive(c: Conn, arrivals: seq<Arrival>, stream: seq<byte>, first: nat, total: nat)
    requires Receiving(c.data, c.acknowledged, c.remoteClosed, stream, first, total)
    requires Pieces(c, arrivals, stream, first, total)
    ensures var r := ArriveAll(c, arrivals);
      && |r.data| == |c.data| + ProgressAll(c, arrivals)
      && Receiving(r.data, r.acknowledged, r.remoteClosed, stream, first, total + ProgressAll(c, arrivals))
    decreases |arrivals|
  {
    hide Arrive;
    hide Receiving;
    hide Honest;
    if arrivals != [] {
      var a := arrivals[0];
      var next := Arrive(c, a.segment);
      ArriveReceives(c, a, stream, first, total);
      AllReceive(next, arrivals[1..], stream, first, total + Progress(c, a.segment));
    }
  }

  lemma HandOverReceives(c: Conn, capacity: nat, stream: seq<byte>, first: nat, total: nat)
    requires Receiving(c.data, c.acknowledged, c.remoteClosed, stream, first, total)
    ensures var r := HandOver(c, capacity);
      && Receiving(r.data, r.acknowledged, r.remoteClosed, stream, first, total) && |r.data| <= |c.data| <= total
      && Front(c.data, capacity) == stream[total - |c.data|..total - |r.data|]
  {
    hide Plus;
    var k := |Front(c.data, capacity)|;
    assert Front(c.data, capacity) == c.data[..k] && HandOver(c, capacity).data == c.data[k..];
    CutStream(stream, total - |c.data|, k, total);
  }

  lemma CutStream(stream: seq<byte>, from: nat, k: nat, to: nat)
    requires from + k <= to <= |stream|
    ensures stream[from..to][..k] == stream[from..from + k] && stream[from..to][k..] == stream[from + k..to]
  {
  }

  /** One step: what is handed out is what leaves the buffer at the front. */
  lemma StepReceives(c: Conn, e: Event, stream: seq<byte>, first: nat, total: nat)
    requires Receiving(c.data, c.acknowledged, c.remoteClosed, stream, first, total)
    requires Genuine(c, e, stream, first, total)
    ensures var n, after := Step(c, e), total + Added(c, e);
      && Receiving(n.data, n.acknowledged, n.remoteClosed, stream, first, after)
      && |c.data| <= total && |n.data| <= after <= |stream| && total - |c.data| <= after - |n.data|
      && Got(c, e) == stream[total - |c.data|..after - |n.data|]
  {
    hide Receiving;
    hide HandOver;
    hide Front;
    hide ArriveAll;
    hide ProgressAll;
    hide Pieces;
    Bounds(c, stream, first, total);
    if Polls(c, e) {
      var p := Poll(c, e.now);
      assert p.data == c.data && p.acknowledged == c.acknowledged && p.remoteClosed == c.remoteClosed;
      hide Poll;
      AllReceive(p, e.arrivals, stream, first, total);
      var after := PollAll(c, e.now, e.arrivals);
      Bounds(after, stream, first, total + Added(c, e));
      if e.ReceiveCalled? {
        HandOverReceives(after, e.capacity, stream, first, total + Added(c, e));
        Bounds(HandOver(after, e.capacity), stream, first, total + Added(c, e));
      }
    }
  }

  lemma Bounds(c: Conn, stream: seq<byte>, first: nat, total: nat)
    requires Receiving(c.data, c.acknowledged, c.remoteClosed, stream, first, total)
    ensures |c.data| <= total <= |stream|
  {
  }

  lemma {:induction false} DeliversStream(c: Conn, events: seq<Event>, stream: seq<byte>, first: nat, total: nat)
    returns (now: nat)
    requires Receiving(c.data, c.acknowledged, c.remoteClosed, stream, first, total)
    requires FromStream(c, events, stream, first, total)
    ensures var r := Run(c, events);
      && Receiving(r.data, r.acknowledged, r.remoteClosed, stream, first, now) && |c.data| <= total <= now <= |stream|
      && Delivered(c, events) + r.data == stream[total - |c.data|..now]
    decreases |events|
  {
    hide Step;
    hide Got;
    hide Genuine;
    hide Receiving;
    now := total;
    Bounds(c, stream, first, total);
    if events == [] {
      BufferIs(c, stream, first, total);
    } else {
      var e := events[0];
      var next, after := Step(c, e), total + Added(c, e);
      StepReceives(c, e, stream, first, total);
      hide Added;
      now := DeliversStream(next, events[1..], stream, first, after);
      var later, data := Delivered(next, events[1..]), Run(next, events[1..]).data;
      Stitch(stream, total - |c.data|, after - |next.data|, now, Got(c, e), later, data);
      hide Run;
      hide Delivered;
    }
  }

  lemma BufferIs(c: Conn, stream: seq<byte>, first: nat, total: nat)
    requires Receiving(c.data, c.acknowledged, c.remoteClosed, stream, first, total)
    ensures |c.data| <= total <= |stream| && [] + c.data == stream[total - |c.data|..total]
  {
  }

  lemma Stitch(stream: seq<byte>, from: nat, middle: nat, to: nat, a: seq<byte>, b: seq<byte>, c: seq<byte>)
    requires from <= middle <= to <= |stream|
    requires a == stream[from..middle] && b + c == stream[middle..to]
    ensures a + b + c == stream[from..to]
  {
    assert a + b + c == a + (b + c);
  }

  /** Whatever is lost, repeated or reordered on the way: the bytes delivered and then the bytes in
      the buffer are the peer's stream up to the number acknowledged. */
  lemma DeliveredIsPrefix(c: Conn, events: seq<Event>, stream: seq<byte>, first: nat)
    requires c.data == [] && c.acknowledged == Plus(first, 0) && FromStream(c, events, stream, first, 0)
    ensures var got := Delivered(c, events) + Run(c, events).data;
      got <= stream && (!Run(c, events).remoteClosed ==> Run(c, events).acknowledged == Plus(first, |got|))
    ensures |Run(c, events).data| <= 1024
  {
    var now := DeliversStream(c, events, stream, first, 0);
    assert stream[0..now] == stream[..now];
  }
}
