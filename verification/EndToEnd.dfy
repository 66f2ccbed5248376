/** The way of a disco message: sealed, framed, filtered, split off and decoded. */
module EndToEnd {
  import opened Options
  import opened ByteData
  import Bpf
  import Codec
  import Splitter

  // ----- frames

  /** What an IP header carries besides the fields that matter here. */
  datatype IpHeader =
    | V6(before: seq<Byte>, after: seq<Byte>)
    | V4(words: nat, service: seq<Byte>, flags: nat, ttl: Byte, after: seq<Byte>)
  {
    /** IPv6 has the next header in byte 6 of 40 (section 3 of RFC 8200). IPv4 has its length in
        32-bit words in the low half of byte 0, three flag bits and the fragment offset in bytes 6
        and 7, and the protocol in byte 9 (section 3.1 of RFC 791). */
    predicate Valid() {
      match this
      case V6(before, after) => |before| == 6 && |after| == 33
      case V4(words, service, flags, ttl, after) =>
        5 <= words <= 15 && |service| == 5 && flags < 8 && |after| == 4 * words - 10
    }

    function Length(): nat
      requires Valid()
    {
      if V6? then 40 else 4 * words
    }

    /** The header of an unfragmented UDP packet, with its EtherType in front. */
    function Encoded(): (h: seq<Byte>)
      requires Valid()
      ensures |h| == 2 + Length()
    {
      match this
      case V6(before, after) => [0x86, 0xdd] + before + [17] + after
      case V4(words, service, flags, ttl, after) =>
        [0x08, 0x00] + [4 * 16 + words] + service + [flags * 32, 0] + [ttl, 17] + after
    }
  }

  function Put16(n: nat): (s: seq<Byte>)
    requires n < 0x1_0000
    ensures |s| == 2
  {
    [n / 256, n % 256]
  }

  /** An Ethernet frame with two 6-byte addresses, the IP header and a UDP datagram. */
  function Frame(addresses: seq<Byte>, ip: IpHeader, srcPort: nat, dstPort: nat, lengthAndSum: seq<Byte>,
                 payload: seq<Byte>, padding: seq<Byte>): seq<Byte>
    requires |addresses| == 12 && ip.Valid() && srcPort < 0x1_0000 && dstPort < 0x1_0000 && |lengthAndSum| == 4
  {
    addresses + ip.Encoded() + (Put16(srcPort) + Put16(dstPort) + lengthAndSum + payload + padding)
  }

  lemma TwoBytes(pkt: seq<Byte>, off: nat)
    requires Bpf.InRange(pkt, off, 2)
    ensures Bpf.Field(pkt, off, 2) == 256 * (pkt[off] as int) + pkt[off + 1]
  {
    var s := pkt[off..off + 2];
    assert s[..1][..0] == [];
    assert Number(s[..1]) == 256 * Number([]) + s[0];
  }

  /** The frame is recognised as UDP and its UDP header is found, whatever the other fields are. */
  lemma FrameIsUdp(addresses: seq<Byte>, ip: IpHeader, rest: seq<Byte>)
    requires |addresses| == 12 && ip.Valid()
    ensures var pkt := addresses + ip.Encoded() + rest;
      && (Bpf.IsUdp6(pkt) || Bpf.IsUdp4(pkt))
      && Bpf.UdpStart(pkt) == 14 + ip.Length()
  {
    var pkt := addresses + ip.Encoded() + rest;
    TwoBytes(pkt, 12);
    if ip.V6? {
      assert pkt[12] == 0x86 && pkt[13] == 0xdd && pkt[20] == 17;
      Bpf.OneByte(pkt, 20);
    } else {
      var h := ip.Encoded();
      assert h[0] == 8 && h[1] == 0 && h[2] == 64 + ip.words && h[8] == ip.flags * 32 && h[9] == 0 && h[11] == 17;
      assert pkt[12] == h[0] && pkt[13] == h[1] && pkt[14] == h[2];
      assert pkt[20] == h[8] && pkt[21] == h[9] && pkt[23] == h[11];
      Bpf.OneByte(pkt, 23);
      TwoBytes(pkt, 20);
      assert Bpf.Field(pkt, 20, 2) == ip.flags * 0x2000;
    }
  }

  /** The filter for `port` takes a frame whose payload has its first bit set exactly when the frame
      is addressed to that port. */
  lemma FrameAccepted(addresses: seq<Byte>, ip: IpHeader, srcPort: nat, dstPort: nat, lengthAndSum: seq<Byte>,
                      payload: seq<Byte>, padding: seq<Byte>, port: nat)
    requires |addresses| == 12 && ip.Valid() && srcPort < 0x1_0000 && dstPort < 0x1_0000 && |lengthAndSum| == 4
    requires port < 0x1_0000 && |payload| > 0 && payload[0] >= 128
    ensures var pkt := Frame(addresses, ip, srcPort, dstPort, lengthAndSum, payload, padding);
      Bpf.Run(Bpf.Program(port), pkt, 0, 0, 0) == Bpf.Returned(if dstPort == port then Bpf.ACCEPT else 0)
  {
    var udp := Put16(srcPort) + Put16(dstPort) + lengthAndSum + payload + padding;
    var head := addresses + ip.Encoded();
    var pkt := head + udp;
    var u := |head|;
    FrameIsUdp(addresses, ip, udp);
    assert udp[2] == dstPort / 256 && udp[3] == dstPort % 256 && udp[8] == payload[0];
    assert pkt[u + 2] == udp[2] && pkt[u + 3] == udp[3] && pkt[u + 8] == udp[8];
    TwoBytes(pkt, u + 2);
    assert Bpf.Accepts(pkt, port) <==> dstPort == port;
    Bpf.ProgramDecides(pkt, port);
  }

  // ----- taking the payload out

  /** Longer frames are skipped by the receiver. */
  const RECEIVE_BUFFER := 2048

  /** The length in the UDP header covers the header and lies within the frame. */
  predicate UdpFits(pkt: seq<Byte>) {
    && (Bpf.IsUdp6(pkt) || Bpf.IsUdp4(pkt))
    && Bpf.InRange(pkt, Bpf.UdpStart(pkt) + 4, 2)
    && 8 <= Bpf.Field(pkt, Bpf.UdpStart(pkt) + 4, 2) <= |pkt| - Bpf.UdpStart(pkt)
  }

  /** The payload that the receiver hands on: what the UDP length says, without padding. */
  function UdpPayload(pkt: seq<Byte>): seq<Byte>
    requires UdpFits(pkt)
  {
    var u := Bpf.UdpStart(pkt);
    pkt[u + 8..u + Bpf.Field(pkt, u + 4, 2)]
  }

  /** Out of a frame comes the payload that was put in, whatever follows it. */
  lemma PayloadOfFrame(addresses: seq<Byte>, ip: IpHeader, srcPort: nat, dstPort: nat, sum: seq<Byte>,
                       payload: seq<Byte>, padding: seq<Byte>)
    requires |addresses| == 12 && ip.Valid() && srcPort < 0x1_0000 && dstPort < 0x1_0000
    requires |sum| == 2 && 8 + |payload| < 0x1_0000
    ensures var pkt := Frame(addresses, ip, srcPort, dstPort, Put16(8 + |payload|) + sum, payload, padding);
      UdpFits(pkt) && UdpPayload(pkt) == payload
  {
    var lengthAndSum := Put16(8 + |payload|) + sum;
    var udp := Put16(srcPort) + Put16(dstPort) + lengthAndSum + payload + padding;
    var pkt := addresses + ip.Encoded() + udp;
    var u := 14 + ip.Length();
    FrameIsUdp(addresses, ip, udp);
    assert udp[4] == (8 + |payload|) / 256 && udp[5] == (8 + |payload|) % 256;
    assert pkt[u + 4] == udp[4] && pkt[u + 5] == udp[5];
    TwoBytes(pkt, u + 4);
    assert pkt[u + 8..u + 8 + |payload|] == udp[8..8 + |payload|] == payload;
  }

  // ----- the children of the tetra engine

  /** The first child is for disco, the second for everything else. */
  function Filters(): seq<Splitter.Filter> {
    [
      (p: Splitter.Packet) => |p.data| != 0 && And(p.data[0], 0x80) != 0,
      (p: Splitter.Packet) => true
    ]
  }

  const DISCO := 0

  lemma DiscoChild(p: Splitter.Packet)
    ensures Splitter.FirstMatch(Filters(), p) == DISCO <==> p.data != [] && p.data[0] >= 128
    ensures Splitter.FirstMatch(Filters(), p) < 2
  {
    if p.data != [] {
      AndTop(p.data[0]);
    }
    var fs := Filters();
    assert fs[1..][0](p);
    assert Splitter.FirstMatch(fs, p) == if fs[0](p) then 0 else 1 + Splitter.FirstMatch(fs[1..], p);
  }

  /** Every ping and pong that is sealed, put on the wire and carried to the port in an unfragmented
      UDP frame that fits the receive buffer passes the filter; the payload of the frame goes to the
      disco child and is decoded to what was sent. It is queued there behind the earlier packets unless
      the queue is full, and nowhere else. */
  lemma MessageArrives(cipher: Codec.Cipher, key: seq<Byte>, nonce: seq<Byte>, m: Codec.Message,
                       addresses: seq<Byte>, ip: IpHeader, srcPort: nat, port: nat, sum: seq<Byte>,
                       padding: seq<Byte>, from: int, queues: seq<seq<Splitter.Packet>>)
    requires |queues| == 2
    requires Codec.Sound(cipher) && (m.header == Codec.PING || m.header == Codec.PONG)
    requires |addresses| == 12 && ip.Valid() && srcPort < 0x1_0000 && port < 0x1_0000 && |sum| == 2
    requires 14 + ip.Length() + 8 + |Codec.Wire(Codec.Seal(cipher, key, nonce, m))| + |padding| <= RECEIVE_BUFFER
    ensures var wire := Codec.Wire(Codec.Seal(cipher, key, nonce, m));
      var frame := Frame(addresses, ip, srcPort, port, Put16(8 + |wire|) + sum, wire, padding);
      && |frame| <= RECEIVE_BUFFER
      && Bpf.Run(Bpf.Program(port), frame, 0, 0, 0) == Bpf.Returned(Bpf.ACCEPT)
      && UdpFits(frame)
      && var payload := UdpPayload(frame);
      && var p := Splitter.Packet(payload, from);
      && Splitter.FirstMatch(Filters(), p) == DISCO
      && Splitter.Dispatched(Filters(), queues, p)
         == (if |queues[DISCO]| < Splitter.QUEUE_LENGTH then [queues[DISCO] + [p], queues[1]] else queues)
      && Codec.Parse(payload).Some?
      && Codec.Open(cipher, key, Codec.Parse(payload).value) == Some(m)
  {
    var wire := Codec.Wire(Codec.Seal(cipher, key, nonce, m));
    FrameAccepted(addresses, ip, srcPort, port, Put16(8 + |wire|) + sum, wire, padding, port);
    PayloadOfFrame(addresses, ip, srcPort, port, sum, wire, padding);
    DiscoChild(Splitter.Packet(wire, from));
    Codec.RoundTrip(cipher, key, nonce, m);
  }
}
