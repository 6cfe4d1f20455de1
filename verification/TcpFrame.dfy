/** The TCP frames of network.c: how send_tcp and send_tcp_data build them and receive_ipv4 reads them. */
module TcpFrame {
  import opened Collections
  import opened Words
  import opened Checksum

  // ----- Big-endian fields -----

  function Big16(value: nat): (b: seq<byte>)
    requires value < 0x1_0000
    ensures |b| == 2
  {
    [value / 256, value % 256]
  }

  function Big32(value: nat): (b: seq<byte>)
    requires value < UINT
    ensures |b| == 4
  {
    Big16(value / 65536) + Big16(value % 65536)
  }

  function Read16(data: seq<byte>, at: nat): (value: nat)
    requires at + 2 <= |data|
    ensures value < 0x1_0000
  {
    Word(data[at], data[at + 1])
  }

  function Read32(data: seq<byte>, at: nat): (value: nat)
    requires at + 4 <= |data|
    ensures value < UINT
  {
    65536 * Read16(data, at) + Read16(data, at + 2)
  }

  lemma ReadsBack16(data: seq<byte>, at: nat, value: nat)
    requires at + 2 <= |data| && value < 0x1_0000 && data[at..at + 2] == Big16(value)
    ensures Read16(data, at) == value
  {
    assert data[at..at + 2][0] == data[at] && data[at..at + 2][1] == data[at + 1];
  }

  lemma ReadsBack32(data: seq<byte>, at: nat, value: nat)
    requires at + 4 <= |data| && value < UINT && data[at..at + 4] == Big32(value)
    ensures Read32(data, at) == value
  {
    assert data[at..at + 2] == data[at..at + 4][..2] == Big16(value / 65536);
    assert data[at + 2..at + 4] == data[at..at + 4][2..] == Big16(value % 65536);
    ReadsBack16(data, at, value / 65536);
    ReadsBack16(data, at + 2, value % 65536);
  }

  // ----- What a frame holds -----

  /** A TCP segment and the addresses and ports it travels between. */
  datatype Segment = Segment(source: nat, destination: nat, sourcePort: nat, destinationPort: nat,
    sequence: nat, acknowledge: nat, flags: nat, payload: seq<byte>) {
    predicate Fits() {
      && source < UINT && destination < UINT
      && sourcePort < 0x1_0000 && destinationPort < 0x1_0000
      && sequence < UINT && acknowledge < UINT && flags < 256
      && |payload| <= 1460
    }
  }

  /** The 20 bytes of the IPv4 header before its checksum is filled in. */
  function BlankIp(s: Segment): (h: seq<byte>)
    requires s.Fits()
    ensures |h| == 20
  {
    [0x45, 0] + Big16(40 + |s.payload|) + [0, 0, 0x40, 0, 64, 6, 0, 0] + Big32(s.source) + Big32(s.destination)
  }

  function IpHeader(s: Segment): (h: seq<byte>)
    requires s.Fits()
    ensures |h| == 20
  {
    Put16(BlankIp(s), 10, ChecksumFrom(0, BlankIp(s)))
  }

  function BlankTcp(s: Segment): (h: seq<byte>)
    requires s.Fits()
    ensures |h| == 20
  {
    Big16(s.sourcePort) + Big16(s.destinationPort) + Big32(s.sequence) + Big32(s.acknowledge) +
      [0x50, s.flags, 16, 0, 0, 0, 0, 0]
  }

  /** The segment with its checksum over the pseudo header, the header and the payload. */
  function TcpBytes(s: Segment): (t: seq<byte>)
    requires s.Fits()
    ensures |t| == 20 + |s.payload|
  {
    var blank := BlankTcp(s) + s.payload;
    Put16(blank, 16, ChecksumFrom(PseudoHeader(s.source, s.destination, 6, |blank|), blank))
  }

  function FrameOf(to: seq<byte>, from: seq<byte>, s: Segment): (f: seq<byte>)
    requires |to| == |from| == 6 && s.Fits()
    ensures |f| == 54 + |s.payload|
  {
    to + from + [8, 0] + IpHeader(s) + TcpBytes(s)
  }

  // ----- What a receiver computes -----

  /** Summing the finished IPv4 header, checksum included, gives zero. */
  lemma HeaderVerifies(s: Segment)
    requires s.Fits()
    ensures ChecksumFrom(0, IpHeader(s)) == 0
  {
    assert BlankIp(s)[10] == BlankIp(s)[11] == 0;
    SelfVerifies(0, BlankIp(s), 10);
  }

  /** Summing the pseudo header and the finished segment gives zero, for any payload length. */
  lemma SegmentVerifies(s: Segment)
    requires s.Fits()
    ensures ChecksumFrom(PseudoHeader(s.source, s.destination, 6, |TcpBytes(s)|), TcpBytes(s)) == 0
  {
    var blank := BlankTcp(s) + s.payload;
    assert BlankTcp(s)[16] == BlankTcp(s)[17] == 0;
    SelfVerifies(PseudoHeader(s.source, s.destination, 6, |blank|), blank, 16);
  }

  /** The segment `receive_ipv4` finds in a packet, if the packet passes its length checks. */
  function Parse(packet: seq<byte>): Option<Segment> {
    if |packet| < 34 || Read16(packet, 12) != 0x0800 then None
    else
      var headerLength := packet[14] % 16 * 4;
      if headerLength < 20 || |packet| < 14 + headerLength || packet[23] != 6 ||
        |packet| < 14 + headerLength + 20 then None
      else
        var tcp := 14 + headerLength;
        var tcpHeaderLength := packet[tcp + 12] / 16 * 4;
        if tcpHeaderLength < 20 || tcp + tcpHeaderLength > |packet| then None
        else
          Some(Segment(Read32(packet, 26), Read32(packet, 30), Read16(packet, tcp), Read16(packet, tcp + 2),
            Read32(packet, tcp + 4), Read32(packet, tcp + 8), Read16(packet, tcp + 12) % 512,
            packet[tcp + tcpHeaderLength..]))
  }

  lemma IpFields(s: Segment)
    requires s.Fits()
    ensures IpHeader(s)[0] == 0x45 && IpHeader(s)[9] == 6
    ensures IpHeader(s)[12..16] == Big32(s.source) && IpHeader(s)[16..20] == Big32(s.destination)
  {
    hide ChecksumFrom;
    assert BlankIp(s)[12..16] == Big32(s.source) && BlankIp(s)[16..20] == Big32(s.destination);
    assert IpHeader(s)[12..] == BlankIp(s)[12..];
    assert IpHeader(s)[12..16] == BlankIp(s)[12..16] && IpHeader(s)[16..20] == BlankIp(s)[16..20];
  }

  lemma TcpFields(s: Segment)
    requires s.Fits()
    ensures TcpBytes(s)[..2] == Big16(s.sourcePort) && TcpBytes(s)[2..4] == Big16(s.destinationPort)
    ensures TcpBytes(s)[4..8] == Big32(s.sequence) && TcpBytes(s)[8..12] == Big32(s.acknowledge)
    ensures TcpBytes(s)[12] == 0x50 && TcpBytes(s)[13] == s.flags && TcpBytes(s)[20..] == s.payload
  {
    hide ChecksumFrom;
    hide Big16;
    hide Big32;
    var blank := BlankTcp(s) + s.payload;
    assert TcpBytes(s)[..16] == BlankTcp(s)[..16];
    assert BlankTcp(s)[..2] == Big16(s.sourcePort) && BlankTcp(s)[2..4] == Big16(s.destinationPort);
    assert BlankTcp(s)[4..8] == Big32(s.sequence) && BlankTcp(s)[8..12] == Big32(s.acknowledge);
    assert TcpBytes(s)[20..] == blank[20..] == s.payload;
  }

  /** The receiver reads from a built frame exactly the segment the sender put into it. */
  lemma ParseBuilt(to: seq<byte>, from: seq<byte>, s: Segment)
    requires |to| == |from| == 6 && s.Fits()
    ensures Parse(FrameOf(to, from, s)) == Some(s)
  {
    hide IpHeader;
    hide TcpBytes;
    hide Big16;
    hide Big32;
    var f := FrameOf(to, from, s);
    FrameParts(to, from, s);
    hide FrameOf;
    hide Read32;
    IpPart(f, s);
    TcpPart(f, s);
    SmallFields(f, s);
  }

  lemma FrameParts(to: seq<byte>, from: seq<byte>, s: Segment)
    requires |to| == |from| == 6 && s.Fits()
    ensures var f := FrameOf(to, from, s);
      f[12] == 8 && f[13] == 0 && f[14..34] == IpHeader(s) && f[34..] == TcpBytes(s)
  {
    hide IpHeader;
    hide TcpBytes;
  }

  lemma SliceOfSlice(f: seq<byte>, a: nat, b: nat, i: nat, j: nat)
    requires a <= b <= |f| && i <= j <= b - a
    ensures f[a..b][i..j] == f[a + i..a + j]
  {
    var l, r := f[a..b][i..j], f[a + i..a + j];
    forall k | 0 <= k < |l| ensures l[k] == r[k] {
      assert l[k] == f[a..b][i + k] == f[a + (i + k)];
      assert r[k] == f[(a + i) + k];
    }
  }

  lemma IpPart(f: seq<byte>, s: Segment)
    requires s.Fits() && |f| == 54 + |s.payload| && f[14..34] == IpHeader(s)
    ensures Read32(f, 26) == s.source && Read32(f, 30) == s.destination && f[14] == 0x45 && f[23] == 6
  {
    IpFields(s);
    hide IpHeader;
    hide Big32;
    hide Read32;
    SliceOfSlice(f, 14, 34, 12, 16);
    SliceOfSlice(f, 14, 34, 16, 20);
    ReadsBack32(f, 26, s.source);
    ReadsBack32(f, 30, s.destination);
    assert f[14] == f[14..34][0] && f[23] == f[14..34][9];
  }

  lemma TcpPart(f: seq<byte>, s: Segment)
    requires s.Fits() && |f| == 54 + |s.payload| && f[34..] == TcpBytes(s)
    ensures Read16(f, 34) == s.sourcePort && Read16(f, 36) == s.destinationPort
    ensures Read32(f, 38) == s.sequence && Read32(f, 42) == s.acknowledge
    ensures f[46] == 0x50 && f[47] == s.flags && f[54..] == s.payload
  {
    TcpFields(s);
    hide TcpBytes;
    hide Big16;
    hide Big32;
    hide Read16;
    hide Read32;
    assert f[34..36] == f[34..][..2] && f[36..38] == f[34..][2..4];
    ReadsBack16(f, 34, s.sourcePort);
    ReadsBack16(f, 36, s.destinationPort);
    assert f[38..42] == f[34..][4..8] && f[42..46] == f[34..][8..12];
    ReadsBack32(f, 38, s.sequence);
    ReadsBack32(f, 42, s.acknowledge);
    assert f[46] == f[34..][12] && f[47] == f[34..][13] && f[54..] == f[34..][20..];
  }

  lemma SmallFields(f: seq<byte>, s: Segment)
    requires s.Fits() && |f| >= 54 && f[12] == 8 && f[13] == 0 && f[46] == 0x50 && f[47] == s.flags
    ensures Read16(f, 12) == 0x0800 && Read16(f, 46) % 512 == s.flags
  {
  }

  /** Bytes behind a packet, such as the padding of a short Ethernet frame, are taken for payload: the
      length in the IPv4 header is not looked at. */
  lemma ParsePadded(packet: seq<byte>, padding: seq<byte>)
    requires Parse(packet).Some?
    ensures var s := Parse(packet).value; Parse(packet + padding) == Some(s.(payload := s.payload + padding))
  {
    var longer := packet + padding;
    var tcp := 14 + packet[14] % 16 * 4;
    var at := tcp + packet[tcp + 12] / 16 * 4;
    ReadsSame(packet, padding, 12);
    ReadsSame(packet, padding, 26);
    ReadsSame(packet, padding, 30);
    ReadsSame(packet, padding, tcp);
    ReadsSame(packet, padding, tcp + 4);
    ReadsSame(packet, padding, tcp + 8);
    ReadsSame(packet, padding, tcp + 12);
    assert Read16(longer, tcp + 2) == Read16(packet, tcp + 2);
    hide Read16;
    hide Read32;
    assert longer[at..] == packet[at..] + padding;
  }

  lemma ReadsSame(packet: seq<byte>, padding: seq<byte>, at: nat)
    requires at + 4 <= |packet|
    ensures Read16(packet + padding, at) == Read16(packet, at) && Read32(packet + padding, at) == Read32(packet, at)
  {
    assert (packet + padding)[..at + 4] == packet[..at + 4];
  }

  // ----- Building a frame in the buffer -----

  /** Writes bytes at an offset; what is before and behind them stays. */
  method CopyBytes(frame: array<byte>, at: nat, source: seq<byte>)
    requires at + |source| <= frame.Length
    modifies frame
    ensures frame[..at + |source|] == old(frame[..at]) + source
    ensures frame[at + |source|..] == old(frame[at + |source|..])
  {
    for index := 0 to |source|
      invariant frame[..at] == old(frame[..at])
      invariant frame[at..at + index] == source[..index]
      invariant frame[at + index..] == old(frame[at + index..])
    {
      frame[at + index] := source[index];
    }
  }

  method Write16(frame: array<byte>, at: nat, value: nat)
    requires at + 2 <= frame.Length && value < 0x1_0000
    modifies frame
    ensures frame[..at + 2] == old(frame[..at]) + Big16(value)
    ensures frame[at + 2..] == old(frame[at + 2..])
  {
    frame[at] := value / 256;
    frame[at + 1] := value % 256;
  }

  method Write32(frame: array<byte>, at: nat, value: nat)
    requires at + 4 <= frame.Length && value < UINT
    modifies frame
    ensures frame[..at + 4] == old(frame[..at]) + Big32(value)
    ensures frame[at + 4..] == old(frame[at + 4..])
  {
    frame[at] := value / 65536 / 256;
    frame[at + 1] := value / 65536 % 256;
    frame[at + 2] := value % 65536 / 256;
    frame[at + 3] := value % 65536 % 256;
  }

  /** The Ethernet and IPv4 headers, as `send_tcp` and `send_tcp_data` both write them. */
  method WriteHeaders(frame: array<byte>, to: seq<byte>, from: seq<byte>, s: Segment)
    requires frame.Length == 1514 && |to| == |from| == 6 && s.Fits()
    modifies frame
    ensures frame[..34] == to + from + [8, 0] + IpHeader(s)
  {
    hide Big16;
    hide Big32;
    CopyBytes(frame, 0, to);
    CopyBytes(frame, 6, from);
    frame[12], frame[13] := 8, 0;
    assert frame[..14] == to + from + [8, 0];
    ghost var ethernet := frame[..14];
    WriteIp(frame, s);
    assert frame[14..34] == frame[..34][14..] == BlankIp(s) && frame[..14] == ethernet;
    var c := ChecksumOf(frame[14..34]);
    frame[24] := c / 256;
    frame[25] := c % 256;
    assert frame[14..34] == IpHeader(s);
    assert frame[..34] == frame[..14] + frame[14..34];
  }

  /** The IPv4 header with a checksum of zero. */
  method WriteIp(frame: array<byte>, s: Segment)
    requires frame.Length == 1514 && s.Fits()
    modifies frame
    ensures frame[..34] == old(frame[..14]) + BlankIp(s)
  {
    hide Big16;
    hide Big32;
    ghost var h0 := frame[..14];
    frame[14], frame[15] := 0x45, 0;
    assert frame[..16] == h0 + [0x45, 0];
    Write16(frame, 16, 40 + |s.payload|);
    ghost var h1 := frame[..18];
    WriteIpMiddle(frame);
    assert frame[..26] == h1 + [0, 0, 0x40, 0, 64, 6, 0, 0];
    Write32(frame, 26, s.source);
    Write32(frame, 30, s.destination);
    assert frame[..34] == h0 + BlankIp(s);
  }

  /** Identification, the flag against fragments, time to live, protocol and a checksum of zero. */
  method WriteIpMiddle(frame: array<byte>)
    requires frame.Length == 1514
    modifies frame
    ensures frame[..26] == old(frame[..18]) + [0, 0, 0x40, 0, 64, 6, 0, 0]
  {
    FourBytes(frame, 18, 0, 0, 0x40, 0);
    ghost var h := frame[..22];
    FourBytes(frame, 22, 64, 6, 0, 0);
    assert frame[..26] == h + [64, 6, 0, 0];
  }

  method FourBytes(frame: array<byte>, at: nat, a: byte, b: byte, c: byte, d: byte)
    requires at + 4 <= frame.Length
    modifies frame
    ensures frame[..at + 4] == old(frame[..at]) + [a, b, c, d]
  {
    frame[at], frame[at + 1], frame[at + 2], frame[at + 3] := a, b, c, d;
  }

  /** The TCP header with a checksum of zero, and the payload. */
  method WriteTcp(frame: array<byte>, s: Segment)
    requires frame.Length == 1514 && s.Fits()
    modifies frame
    ensures frame[..54 + |s.payload|] == old(frame[..34]) + (BlankTcp(s) + s.payload)
  {
    hide Big16;
    hide Big32;
    ghost var h0 := frame[..34];
    Write16(frame, 34, s.sourcePort);
    Write16(frame, 36, s.destinationPort);
    Write32(frame, 38, s.sequence);
    Write32(frame, 42, s.acknowledge);
    ghost var h1 := frame[..46];
    assert h1 == h0 + Big16(s.sourcePort) + Big16(s.destinationPort) + Big32(s.sequence) + Big32(s.acknowledge);
    WriteTcpEnd(frame, s.flags);
    assert frame[..54] == h0 + BlankTcp(s);
    CopyBytes(frame, 54, s.payload);
    assert frame[..54 + |s.payload|] == h0 + (BlankTcp(s) + s.payload);
  }

  /** Header length, flags, window, and a checksum and urgent pointer of zero. */
  method WriteTcpEnd(frame: array<byte>, flags: byte)
    requires frame.Length == 1514
    modifies frame
    ensures frame[..54] == old(frame[..46]) + [0x50, flags, 16, 0, 0, 0, 0, 0]
  {
    FourBytes(frame, 46, 0x50, flags, 16, 0);
    ghost var h := frame[..50];
    FourBytes(frame, 50, 0, 0, 0, 0);
    assert frame[..54] == h + [0, 0, 0, 0];
  }

  /** `send_tcp_data`, and with an empty payload `send_tcp`: fills the buffer with the frame to send. */
  method BuildFrame(frame: array<byte>, to: seq<byte>, from: seq<byte>, s: Segment) returns (length: nat)
    requires frame.Length == 1514 && |to| == |from| == 6 && s.Fits()
    modifies frame
    ensures length == 54 + |s.payload| && frame[..length] == FrameOf(to, from, s)
  {
    WriteHeaders(frame, to, from, s);
    ghost var head := frame[..34];
    WriteTcp(frame, s);
    length := 54 + |s.payload|;
    ghost var blank := BlankTcp(s) + s.payload;
    assert frame[34..length] == frame[..length][34..] == blank;
    assert frame[..34] == frame[..length][..34] == head;
    var c := TransportChecksum(frame[34..length], s.source, s.destination, 6);
    frame[50] := c / 256;
    frame[51] := c % 256;
    assert frame[34..length] == Put16(blank, 16, c);
    assert frame[..length] == frame[..34] + frame[34..length];
  }
}
