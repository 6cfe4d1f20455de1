/** The connection record of network.c and the functions that update it. */
module TcpConnection {
  import opened Collections
  import opened Words
  import opened TcpFrame
  import opened TcpRules

  /** The pending segment a record describes; a length of zero means there is none. */
  ghost function PendingOf(start: nat, acknowledge: nat, bytes: seq<byte>, length: nat, fin: bool,
    tick: nat, timeout: nat, retries: nat): Option<Pending>
    requires length <= |bytes|
  {
    if length == 0 then None
    else Some(Pending(start, acknowledge, if fin then [] else bytes[..length], fin, tick, timeout, retries))
  }

  lemma PlusMinus(a: nat, n: nat)
    requires a < UINT
    ensures (Plus(a, n) - n) % UINT == a
  {
  }

  class Connection {
    var sequence: nat
    var acknowledged: nat
    var remoteAddress: nat
    var remotePort: nat
    var synackReady: bool
    const data: array<byte>
    var dataLength: nat
    const pendingData: array<byte>
    var pendingSequence: nat
    var pendingAcknowledged: nat
    var pendingLength: nat
    var pendingTick: nat
    var pendingTimeout: nat
    var pendingRetries: nat
    var pendingFin: bool
    var closing: bool
    var remoteClosed: bool
    ghost var wire: seq<Sent>

    ghost predicate Valid()
      reads this
    {
      && data.Length == pendingData.Length == 1024 && data != pendingData
      && sequence < UINT && dataLength <= 1024 && pendingLength <= 1024 && (pendingFin ==> pendingLength <= 1)
    }

    ghost function ViewOf(): Conn
      requires Valid()
      reads this, data, pendingData
    {
      Conn(sequence, acknowledged, remoteAddress, remotePort, synackReady, data[..dataLength],
        PendingOf(pendingSequence, pendingAcknowledged, pendingData[..], pendingLength, pendingFin,
          pendingTick, pendingTimeout, pendingRetries),
        closing, remoteClosed, wire)
    }

    /** `send_tcp` with the flags of a bare acknowledgement. */
    method Acknowledge()
      requires Valid()
      modifies this`wire
      ensures Valid() && ViewOf() == SendAck(old(ViewOf()))
    {
      wire := wire + [Sent(sequence, acknowledged, 0x10, [])];
    }

    /** Forgets the peer: the connection is over. */
    method Forget()
      requires Valid()
      modifies this`pendingLength, this`pendingFin, this`synackReady, this`remoteAddress, this`remotePort
      ensures Valid() && ViewOf() == Drop(old(ViewOf()))
    {
      pendingLength := 0;
      pendingFin := false;
      synackReady := false;
      remoteAddress := 0;
      remotePort := 0;
    }

    method TakeAck(acknowledge: nat)
      requires Valid()
      modifies this`pendingLength, this`pendingFin, this`pendingRetries, this`synackReady, this`remoteAddress,
        this`remotePort
      ensures Valid() && ViewOf() == AckArrives(old(ViewOf()), acknowledge)
    {
      if synackReady && pendingLength != 0 && acknowledge >= Plus(pendingSequence, pendingLength) {
        pendingLength := 0;
        pendingRetries := 0;
        if pendingFin {
          Forget();
        }
      }
    }

    /** Stores the payload of a segment in order, when the buffer is empty. */
    method Store(s: Segment)
      requires Valid()
      modifies this`dataLength, this`acknowledged, data
      ensures Valid() && ViewOf() == Accept(old(ViewOf()), s)
    {
      hide Plus;
      hide PendingOf;
      if |s.payload| > 0 && dataLength == 0 && s.sequence == acknowledged {
        dataLength := |s.payload|;
        if dataLength > 1024 {
          dataLength := 1024;
        }
        acknowledged := Plus(acknowledged, dataLength);
        CopyBytes(data, 0, s.payload[..dataLength]);
        assert data[..dataLength] == s.payload[..dataLength];
        assert |s.payload| <= 1024 ==> s.payload[..dataLength] == s.payload;
      }
    }

    method TakeData(s: Segment)
      requires Valid()
      modifies this`dataLength, this`acknowledged, this`remoteClosed, this`wire, data
      ensures Valid() && ViewOf() == DataArrives(old(ViewOf()), s)
    {
      hide Accept;
      hide Plus;
      hide PendingOf;
      Store(s);
      if |s.payload| > 0 && s.sequence < acknowledged {
        Acknowledge();
      }
      if s.flags % 2 != 0 {
        TakeFin();
      }
    }

    /** The peer closes: its FIN counts as one byte, wherever it comes in. */
    method TakeFin()
      requires Valid()
      modifies this`acknowledged, this`remoteClosed, this`wire
      ensures Valid()
      ensures var c := old(ViewOf());
        ViewOf() == SendAck(c.(acknowledged := Plus(c.acknowledged, 1))).(remoteClosed := true)
    {
      hide Plus;
      hide PendingOf;
      acknowledged := Plus(acknowledged, 1);
      Acknowledge();
      remoteClosed := true;
    }

    /** The TCP part of `receive_ipv4` on the segment of a packet. */
    method Receive(s: Segment)
      requires Valid()
      modifies this, data
      ensures Valid() && ViewOf() == Arrive(old(ViewOf()), s)
    {
      hide PendingOf;
      hide Plus;
      hide DataArrives;
      hide AckArrives;
      hide IsSynAck;
      if remoteAddress == 0 || s.source != remoteAddress || s.sourcePort != remotePort ||
        s.destinationPort != LOCAL_PORT
      {
        return;
      }
      TakeAck(s.acknowledge);
      if s.source == remoteAddress && s.destination == LOCAL_ADDRESS && s.sourcePort == remotePort {
        if IsSynAck(s) && s.sequence == sequence {
          acknowledged := Plus(s.sequence, 1);
          synackReady := true;
        } else if synackReady {
          TakeData(s);
        }
      }
    }

    /** What `network_retransmit` does for one connection. */
    method Retransmit(now: nat)
      requires Valid()
      modifies this
      ensures Valid() && ViewOf() == TcpRules.Poll(old(ViewOf()), now)
    {
      hide Drop;
      if !synackReady || pendingLength == 0 || now < pendingTick + pendingTimeout {
        return;
      }
      if pendingRetries >= 3 {
        Forget();
        return;
      }
      if pendingFin {
        wire := wire + [Sent(pendingSequence, pendingAcknowledged, 0x11, [])];
      } else {
        wire := wire + [Sent(pendingSequence, pendingAcknowledged, 0x18, pendingData[..pendingLength])];
      }
      StartTimer(now, if pendingTimeout < 30 * 4 then pendingTimeout * 2 else pendingTimeout, pendingRetries + 1);
    }

    /** Puts the segment just sent in the place of the pending one. */
    method Await(start: nat, length: nat, fin: bool, now: nat)
      requires Valid() && 1 <= length <= 1024 && (fin ==> length == 1)
      modifies this`pendingSequence, this`pendingAcknowledged, this`pendingLength, this`pendingTick,
        this`pendingTimeout, this`pendingRetries, this`pendingFin
      ensures Valid()
      ensures ViewOf() == old(ViewOf()).(pending :=
        Some(Pending(start, acknowledged, if fin then [] else pendingData[..length], fin, now, 30, 0)))
    {
      Record(start, length, fin);
      StartTimer(now, 30, 0);
    }

    method Record(start: nat, length: nat, fin: bool)
      requires Valid() && 1 <= length <= 1024 && (fin ==> length == 1)
      modifies this`pendingSequence, this`pendingAcknowledged, this`pendingLength, this`pendingFin
      ensures Valid()
      ensures ViewOf() == old(ViewOf()).(pending :=
        Some(Pending(start, acknowledged, if fin then [] else pendingData[..length], fin,
          pendingTick, pendingTimeout, pendingRetries)))
    {
      pendingSequence := start;
      pendingAcknowledged := acknowledged;
      pendingLength := length;
      pendingFin := fin;
    }

    method StartTimer(now: nat, timeout: nat, retries: nat)
      requires Valid() && pendingLength > 0
      modifies this`pendingTick, this`pendingTimeout, this`pendingRetries
      ensures Valid() && ViewOf().pending.Some? && old(ViewOf()).pending.Some?
      ensures ViewOf() == old(ViewOf()).(pending :=
        Some(old(ViewOf()).pending.value.(tick := now, timeout := timeout, retries := retries)))
    {
      pendingTick := now;
      pendingTimeout := timeout;
      pendingRetries := retries;
    }

    /** `network_tcp_send`; `passed` says whether the driver takes the frame. */
    method Send(bytes: seq<byte>, now: nat, passed: bool) returns (result: int)
      requires Valid()
      modifies this, pendingData
      ensures Valid() && ViewOf() == TcpRules.Send(old(ViewOf()), bytes, now, passed)
      ensures result == if Accepts(old(ViewOf()), bytes, passed) then |bytes| else -1
    {
      assert ViewOf().pending.None? <==> pendingLength == 0;
      hide Plus;
      hide PendingOf;
      if |bytes| == 0 || |bytes| > 1024 || !synackReady || pendingLength != 0 || !passed {
        return -1;
      }
      wire := wire + [Sent(sequence, acknowledged, 0x18, bytes)];
      sequence := Plus(sequence, |bytes|);
      PlusMinus(old(sequence), |bytes|);
      CopyBytes(pendingData, 0, bytes);
      assert pendingData[..|bytes|] == bytes;
      Await((sequence - |bytes|) % UINT, |bytes|, false, now);
      return |bytes|;
    }

    /** What `network_poll` does to this connection: its turn of the timer loop, then what comes in. */
    method Poll(now: nat, arrivals: seq<Arrival>)
      requires Valid()
      modifies this, data
      ensures Valid() && ViewOf() == PollAll(old(ViewOf()), now, arrivals)
    {
      hide PendingOf;
      hide Arrive;
      Retransmit(now);
      ghost var polled := ViewOf();
      assert arrivals[0..] == arrivals;
      for i: nat := 0 to |arrivals|
        invariant Valid() && ArriveAll(ViewOf(), arrivals[i..]) == ArriveAll(polled, arrivals)
      {
        assert arrivals[i..][1..] == arrivals[i + 1..];
        Receive(arrivals[i].segment);
      }
    }

    /** `network_tcp_receive`: the connection is looked at before the poll and not after it. */
    method ReceiveBytes(capacity: nat, now: nat, arrivals: seq<Arrival>) returns (result: int, taken: seq<byte>)
      requires Valid()
      modifies this, data
      ensures Valid() && ViewOf() == TcpRules.Receive(old(ViewOf()), capacity, now, arrivals)
      ensures taken == Received(old(ViewOf()), capacity, now, arrivals)
      ensures result == if capacity == 0 || !old(synackReady) then -1 else |taken|
    {
      hide PendingOf;
      hide PollAll;
      hide HandOver;
      hide Front;
      if capacity == 0 || !synackReady {
        return -1, [];
      }
      if remoteClosed {
        return 0, [];
      }
      Poll(now, arrivals);
      result, taken := TakeBytes(capacity);
    }

    /** The rest of the call: the front of the buffer is copied out. */
    method TakeBytes(capacity: nat) returns (result: int, taken: seq<byte>)
      requires Valid() && capacity > 0
      modifies this`dataLength, this`wire, data
      ensures Valid() && ViewOf() == HandOver(old(ViewOf()), capacity)
      ensures taken == Front(old(ViewOf()).data, capacity) && result == |taken|
    {
      hide PendingOf;
      if dataLength == 0 {
        return 0, [];
      }
      var length := if dataLength < capacity then dataLength else capacity;
      taken := data[..length];
      ShiftData(length);
      Acknowledge();
      dataLength := dataLength - length;
      return length, taken;
    }

    /** Moves the bytes behind the first `length` to the front of the buffer. */
    method ShiftData(length: nat)
      requires Valid() && 0 < length <= dataLength
      modifies data
      ensures data[..dataLength - length] == old(data[length..dataLength])
    {
      var index := length;
      while index < dataLength
        invariant length <= index <= dataLength
        invariant data[..index - length] == old(data[length..index])
        invariant data[index..] == old(data[index..])
      {
        assert data[index] == data[index..][0] == old(data[index]);
        data[index - length] := data[index];
        index := index + 1;
      }
    }

    method Close(now: nat, passed: bool) returns (result: int)
      requires Valid()
      modifies this
      ensures Valid() && ViewOf() == TcpRules.Close(old(ViewOf()), now, passed)
      ensures result == if old(synackReady) && passed then 0 else -1
    {
      hide Plus;
      hide PendingOf;
      if !synackReady || !passed {
        return -1;
      }
      wire := wire + [Sent(sequence, acknowledged, 0x11, [])];
      Await(sequence, 1, true, now);
      closing := true;
      sequence := Plus(sequence, 1);
      dataLength := 0;
      return 0;
    }
  }
}
