/**
 sFlow version 5 datagrams as the collector keeps them, and the decoding of the packet header
 that a flow record carries (Ethernet, 802.1Q, IPv4, ICMP, TCP, UDP).
 */
module SFlow {
  import opened Bytes
  import opened Options

  type U16 = n: nat | n < 0x1_0000
  type U32 = n: nat | n < 0x1_0000_0000

  // SFlowSampleType, SFlowFlowRecordType, SFlowFlowHeaderProtocol, SFlowIpaddressType
  const FLOW_SAMPLE: U32 := 1
  const FLOW_SAMPLE_EXPANDED: U32 := 3
  const FLOW_HEADER: U32 := 1
  const HEADER_ETHERNET: U32 := 1
  const HEADER_IPV4: U32 := 11
  const IPADDR_V4: U32 := 1
  const IPADDR_V6: U32 := 2

  // Sizes of the platform's header structures.
  const ETHER_HEADER: nat := 14
  const VLAN_TAG: nat := 4
  const IP_HEADER: nat := 20
  const ICMP_HEADER: nat := 28
  const TCP_HEADER: nat := 20
  const UDP_HEADER: nat := 8

  const ETHERTYPE_IP: U16 := 0x0800
  const ETHERTYPE_VLAN: U16 := 0x8100
  const PROTO_ICMP: Byte := 1
  const PROTO_TCP: Byte := 6
  const PROTO_UDP: Byte := 17
  const ICMP_ECHOREPLY: Byte := 0
  const ICMP_ECHO: Byte := 8

  /** An address as big-endian words: one for IPv4, four for IPv6. */
  datatype IpAddress = IpAddress(words: seq<U32>)

  datatype Header = Header(version: U32, agent: IpAddress, subid: U32, seqno: U32, uptime: U32, nsamples: U32)

  datatype EthernetData = EthernetData(srcMac: seq<Byte>, dstMac: seq<Byte>, vlanId: nat, etherType: U16)

  datatype IpData = IpData(length: U32, protocol: U32, srcIp: U32, dstIp: U32, srcPort: U32, dstPort: U32, tos: U32)

  const NO_MAC: seq<Byte> := [0, 0, 0, 0, 0, 0]
  const NO_ETHERNET := EthernetData(NO_MAC, NO_MAC, 0, 0)
  const NO_IP := IpData(0, 0, 0, 0, 0, 0, 0)

  /** What the packet header of a flow record was decoded to. */
  datatype Packet = Packet(isEthernet: bool, isIp: bool, eth: EthernetData, ip: IpData)

  datatype FlowHeader = FlowHeader(length: U32, protocol: U32, frameLength: U32, stripped: U32, headerLength: U32,
                                   header: seq<Byte>, packet: Packet)

  datatype FlowSample = FlowSample(kind: U32, length: U32, seqno: U32, sourceType: U32, sourceIndex: U32,
                                   rate: U32, pool: U32, drops: U32,
                                   inputFormat: U32, inputPort: U32, outputFormat: U32, outputPort: U32,
                                   nrecords: U32, records: seq<FlowHeader>)

  datatype Data = Data(header: Header, samples: seq<FlowSample>)

  // ---- big-endian fields

  function Word16(b: seq<Byte>, at: nat): U16
    requires at + 2 <= |b|
  {
    0x100 * (b[at] as nat) + b[at + 1]
  }

  function Word32(b: seq<Byte>, at: nat): U32
    requires at + 4 <= |b|
  {
    0x1_0000 * (Word16(b, at) as nat) + Word16(b, at + 2)
  }

  /** `ntohs` of a single byte on a little-endian host: the byte moves up. */
  function Swapped(b: Byte): (w: U16)
    ensures w / 0x100 == b && w % 0x100 == 0
  {
    0x100 * (b as nat)
  }

  // ---- packet headers

  datatype Decoded<T> = Decoded(data: T, size: int)

  /** Fills the Ethernet fields; the size is -1 when the header is too short. */
  function DecodeEthernet(h: seq<Byte>): Decoded<EthernetData> {
    if |h| < ETHER_HEADER then Decoded(NO_ETHERNET, -1)
    else
      var eth := EthernetData(h[6..12], h[0..6], 0, Word16(h, 12));
      if eth.etherType == ETHERTYPE_VLAN then
        if |h| < ETHER_HEADER + VLAN_TAG then Decoded(eth, -1)
        else Decoded(eth.(vlanId := Word16(h, 14) % 0x1000, etherType := Word16(h, 16)), ETHER_HEADER + VLAN_TAG)
      else Decoded(eth, ETHER_HEADER)
  }

  /** Fills the IPv4 fields; the size is what the header itself says. */
  function DecodeIpv4(h: seq<Byte>, offset: nat): Decoded<IpData> {
    if |h| < offset + IP_HEADER then Decoded(NO_IP, -1)
    else
      Decoded(IpData(Word16(h, offset + 2), h[offset + 9], Word32(h, offset + 12), Word32(h, offset + 16),
                     0, 0, Swapped(h[offset + 1])),
              4 * (h[offset] % 16))
  }

  /** Adds the ports; the size is -1 when the header is too short. */
  function DecodeLayer4(h: seq<Byte>, offset: nat, ip: IpData): Decoded<IpData> {
    if ip.protocol == PROTO_ICMP then
      if |h| < offset + ICMP_HEADER then Decoded(ip, -1)
      else if h[offset] == ICMP_ECHO || h[offset] == ICMP_ECHOREPLY then
        Decoded(ip.(srcPort := Word16(h, offset + 4), dstPort := ICMP_ECHOREPLY), ICMP_HEADER)
      else Decoded(ip.(srcPort := 0, dstPort := Swapped(h[offset])), ICMP_HEADER)
    else if ip.protocol == PROTO_TCP then
      if |h| < offset + TCP_HEADER then Decoded(ip, -1)
      else Decoded(ip.(srcPort := Word16(h, offset), dstPort := Word16(h, offset + 2)), TCP_HEADER)
    else if ip.protocol == PROTO_UDP then
      if |h| < offset + UDP_HEADER then Decoded(ip, -1)
      else Decoded(ip.(srcPort := Word16(h, offset), dstPort := Word16(h, offset + 2)), UDP_HEADER)
    else Decoded(ip, 0)
  }

  function DecodeIp(h: seq<Byte>, offset: nat, p: Packet): Packet {
    var ip := DecodeIpv4(h, offset);
    if ip.size < 0 then p.(ip := ip.data)
    else
      var l4 := DecodeLayer4(h, offset + ip.size, ip.data);
      if l4.size < 0 then p.(ip := l4.data) else p.(ip := l4.data, isIp := true)
  }

  /** The packet header of a flow record, by its declared protocol. */
  function DecodePacket(protocol: U32, h: seq<Byte>): Packet {
    var none := Packet(false, false, NO_ETHERNET, NO_IP);
    if protocol == HEADER_ETHERNET then
      var eth := DecodeEthernet(h);
      if eth.size < 0 then none.(eth := eth.data)
      else
        var p := none.(eth := eth.data, isEthernet := true);
        if eth.data.etherType == ETHERTYPE_IP then DecodeIp(h, eth.size, p) else p
    else if protocol == HEADER_IPV4 then DecodeIp(h, 0, none)
    else none
  }

  // ---- packets as they are built, section 3.1 of RFC 791

  function Bytes16(n: U16): seq<Byte> {
    [n / 0x100, n % 0x100]
  }

  function Bytes32(n: U32): seq<Byte> {
    Bytes16(n / 0x1_0000) + Bytes16(n % 0x1_0000)
  }

  /** A datagram with its options; `fragment` stands for identification, flags, offset, time to live. */
  datatype Ipv4 = Ipv4(tos: Byte, length: U16, fragment: seq<Byte>, protocol: Byte, checksum: U16,
                       src: U32, dst: U32, options: seq<Byte>, payload: seq<Byte>)
  {
    predicate Valid() {
      |fragment| == 5 && |options| <= 40 && |options| % 4 == 0
    }
  }

  /** Every transport payload, by what the sampled bytes show of it. */
  datatype Transport =
    | Tcp(sport: U16, dport: U16, rest: seq<Byte>)
    | Udp(sport: U16, dport: U16, rest: seq<Byte>)
    | Icmp(kind: Byte, code: Byte, checksum: U16, id: U16, rest: seq<Byte>)
    | Truncated(number: Byte, bytes: seq<Byte>)
    | Unknown(number: Byte, bytes: seq<Byte>)
  {
    predicate Valid() {
      match this
      case Tcp(_, _, rest) => |rest| >= TCP_HEADER - 4
      case Udp(_, _, rest) => |rest| >= UDP_HEADER - 4
      case Icmp(_, _, _, _, rest) => |rest| >= ICMP_HEADER - 6
      case Truncated(number, bytes) => |bytes| < HeaderSize(number)
      case Unknown(number, _) => HeaderSize(number) == 0
    }

    function Protocol(): Byte {
      match this
      case Tcp(_, _, _) => PROTO_TCP
      case Udp(_, _, _) => PROTO_UDP
      case Icmp(_, _, _, _, _) => PROTO_ICMP
      case _ => number
    }

    function Payload(): seq<Byte> {
      match this
      case Tcp(sport, dport, rest) => Bytes16(sport) + Bytes16(dport) + rest
      case Udp(sport, dport, rest) => Bytes16(sport) + Bytes16(dport) + rest
      case Icmp(kind, code, checksum, id, rest) => [kind, code] + Bytes16(checksum) + Bytes16(id) + rest
      case _ => bytes
    }

    predicate IsEcho() {
      Icmp? && (kind == ICMP_ECHO || kind == ICMP_ECHOREPLY)
    }

    /** The source port, or the identifier of an echo. */
    function Src(): U16 {
      if Tcp? || Udp? then sport else if IsEcho() then id else 0
    }

    /** The destination port, or the type of an ICMP message that is not an echo. */
    function Dst(): U16 {
      if Tcp? || Udp? then dport else if Icmp? && !IsEcho() then Swapped(kind) else 0
    }
  }

  /** The bytes of transport header that a protocol needs, 0 when its ports are not looked for. */
  function HeaderSize(protocol: Byte): nat {
    if protocol == PROTO_TCP then TCP_HEADER
    else if protocol == PROTO_UDP then UDP_HEADER
    else if protocol == PROTO_ICMP then ICMP_HEADER
    else 0
  }

  function EncodeIpv4(d: Ipv4): (h: seq<Byte>)
    requires d.Valid()
    ensures |h| == IP_HEADER + |d.options| + |d.payload|
  {
    [0x40 + (IP_HEADER + |d.options|) / 4, d.tos] + Bytes16(d.length) + d.fragment + [d.protocol] + Bytes16(d.checksum)
    + Bytes32(d.src) + Bytes32(d.dst) + d.options + d.payload
  }

  datatype Tag = Untagged | Tagged(priority: nat, vlan: nat)
  {
    predicate Valid() {
      Tagged? ==> priority < 16 && vlan < 0x1000
    }
  }

  /** An Ethernet frame whose payload is `body`, with or without an 802.1Q tag. */
  function EncodeEthernet(dst: seq<Byte>, src: seq<Byte>, tag: Tag, etherType: U16, body: seq<Byte>): (h: seq<Byte>)
    requires tag.Valid()
    ensures |h| == |dst| + |src| + (if tag.Tagged? then 6 else 2) + |body|
  {
    dst + src +
    (if tag.Tagged? then Bytes16(ETHERTYPE_VLAN) + Bytes16(0x1000 * tag.priority + tag.vlan) else []) +
    Bytes16(etherType) + body
  }

  lemma Word16OfBytes(b: seq<Byte>, at: nat, n: U16)
    requires at + 2 <= |b| && b[at..at + 2] == Bytes16(n)
    ensures Word16(b, at) == n
  {
    assert b[at] == b[at..at + 2][0] && b[at + 1] == b[at..at + 2][1];
  }

  lemma Word32OfBytes(b: seq<Byte>, at: nat, n: U32)
    requires at + 4 <= |b| && b[at..at + 4] == Bytes32(n)
    ensures Word32(b, at) == n
  {
    assert b[at..at + 2] == b[at..at + 4][..2] && b[at + 2..at + 4] == b[at..at + 4][2..];
    Word16OfBytes(b, at, n / 0x1_0000);
    Word16OfBytes(b, at + 2, n % 0x1_0000);
  }

  /** The IPv4 fields come back from any datagram, wherever it starts and whatever its options. */
  lemma DecodeEncodedIpv4(lead: seq<Byte>, d: Ipv4)
    requires d.Valid()
    ensures DecodeIpv4(lead + EncodeIpv4(d), |lead|) ==
            Decoded(IpData(d.length, d.protocol, d.src, d.dst, 0, 0, Swapped(d.tos)), IP_HEADER + |d.options|)
    ensures (lead + EncodeIpv4(d))[|lead| + IP_HEADER + |d.options|..] == d.payload
  {
    var h := lead + EncodeIpv4(d);
    var o := |lead|;
    assert h[o..] == EncodeIpv4(d);
    Word16OfBytes(h, o + 2, d.length);
    Word32OfBytes(h, o + 12, d.src);
    Word32OfBytes(h, o + 16, d.dst);
  }

  /** The Ethernet fields come back from any frame, tagged or not. */
  lemma DecodeEncodedEthernet(dst: seq<Byte>, src: seq<Byte>, tag: Tag, etherType: U16, body: seq<Byte>)
    requires tag.Valid() && |dst| == 6 && |src| == 6 && (tag.Untagged? ==> etherType != ETHERTYPE_VLAN)
    ensures var h := EncodeEthernet(dst, src, tag, etherType, body);
            var eth := DecodeEthernet(h);
            && eth == Decoded(EthernetData(src, dst, if tag.Tagged? then tag.vlan else 0, etherType),
                              if tag.Tagged? then ETHER_HEADER + VLAN_TAG else ETHER_HEADER)
            && h[..eth.size] + body == h
  {
    var h := EncodeEthernet(dst, src, tag, etherType, body);
    assert h[0..6] == dst && h[6..12] == src;
    if tag.Tagged? {
      var info := 0x1000 * tag.priority + tag.vlan;
      TaggedFrame(dst + src, info, etherType, body);
      assert h == (dst + src) + Bytes16(ETHERTYPE_VLAN) + Bytes16(info) + Bytes16(etherType) + body;
    } else {
      Field16(dst + src, etherType, body);
      assert h == (dst + src) + Bytes16(etherType) + body;
    }
  }

  lemma Field16(lead: seq<Byte>, n: U16, rest: seq<Byte>)
    ensures Word16(lead + Bytes16(n) + rest, |lead|) == n
  {
    var b := lead + Bytes16(n) + rest;
    assert b[|lead|..|lead| + 2] == Bytes16(n);
    Word16OfBytes(b, |lead|, n);
  }

  lemma TaggedFrame(macs: seq<Byte>, info: U16, etherType: U16, body: seq<Byte>)
    requires |macs| == 12
    ensures var h := macs + Bytes16(ETHERTYPE_VLAN) + Bytes16(info) + Bytes16(etherType) + body;
            Word16(h, 12) == ETHERTYPE_VLAN && Word16(h, 14) == info && Word16(h, 16) == etherType
  {
    var h := macs + Bytes16(ETHERTYPE_VLAN) + Bytes16(info) + Bytes16(etherType) + body;
    Field16(macs, ETHERTYPE_VLAN, Bytes16(info) + Bytes16(etherType) + body);
    Field16(macs + Bytes16(ETHERTYPE_VLAN), info, Bytes16(etherType) + body);
    Field16(macs + Bytes16(ETHERTYPE_VLAN) + Bytes16(info), etherType, body);
    assert h == macs + Bytes16(ETHERTYPE_VLAN) + (Bytes16(info) + Bytes16(etherType) + body);
    assert h == macs + Bytes16(ETHERTYPE_VLAN) + Bytes16(info) + (Bytes16(etherType) + body);
  }

  /** Every payload of every protocol is one of the transports. */
  lemma TransportOf(protocol: Byte, payload: seq<Byte>) returns (t: Transport)
    ensures t.Valid() && t.Protocol() == protocol && t.Payload() == payload
  {
    if HeaderSize(protocol) == 0 {
      t := Unknown(protocol, payload);
    } else if |payload| < HeaderSize(protocol) {
      t := Truncated(protocol, payload);
    } else {
      var first, second, third := Word16(payload, 0), Word16(payload, 2), Word16(payload, 4);
      BytesOfWord16(payload, 0); BytesOfWord16(payload, 2); BytesOfWord16(payload, 4);
      if protocol == PROTO_ICMP {
        t := Icmp(payload[0], payload[1], second, third, payload[6..]);
      } else if protocol == PROTO_TCP {
        t := Tcp(first, second, payload[4..]);
      } else {
        t := Udp(first, second, payload[4..]);
      }
    }
  }

  lemma BytesOfWord16(b: seq<Byte>, at: nat)
    requires at + 2 <= |b|
    ensures Bytes16(Word16(b, at)) == [b[at], b[at + 1]]
  {
  }

  function IpOf(d: Ipv4, t: Transport): IpData {
    IpData(d.length, d.protocol, d.src, d.dst, t.Src(), t.Dst(), Swapped(d.tos))
  }

  /** Ports, identifiers and types come back at any offset; only a header cut short is not an IP packet. */
  lemma DecodeEncodedPorts(h: seq<Byte>, offset: nat, ip: IpData, t: Transport)
    requires t.Valid() && offset <= |h| && h[offset..] == t.Payload()
    requires ip.protocol == t.Protocol() && ip.srcPort == ip.dstPort == 0
    ensures var l4 := DecodeLayer4(h, offset, ip);
            l4.data == ip.(srcPort := t.Src(), dstPort := t.Dst()) && (l4.size < 0 <==> t.Truncated?)
  {
    if t.Tcp? || t.Udp? {
      PayloadWord(h, offset, t.Payload(), 0); PayloadWord(h, offset, t.Payload(), 2);
      Word16OfBytes(t.Payload(), 0, t.sport); Word16OfBytes(t.Payload(), 2, t.dport);
    } else if t.Icmp? {
      assert h[offset] == h[offset..][0] == t.kind;
      PayloadWord(h, offset, t.Payload(), 4);
      Word16OfBytes(t.Payload(), 4, t.id);
    }
  }

  lemma PayloadWord(h: seq<Byte>, offset: nat, payload: seq<Byte>, at: nat)
    requires offset <= |h| && h[offset..] == payload && at + 2 <= |payload|
    ensures Word16(h, offset + at) == Word16(payload, at)
  {
    assert h[offset + at] == payload[at] && h[offset + at + 1] == payload[at + 1];
  }

  lemma DecodeEncodedIp(lead: seq<Byte>, d: Ipv4, t: Transport, p: Packet)
    requires d.Valid() && t.Valid() && d.protocol == t.Protocol() && d.payload == t.Payload()
    ensures DecodeIp(lead + EncodeIpv4(d), |lead|, p) == p.(ip := IpOf(d, t), isIp := p.isIp || !t.Truncated?)
  {
    hide EncodeIpv4, DecodeLayer4, DecodeIpv4;
    DecodeEncodedIpv4(lead, d);
    var ip := DecodeIpv4(lead + EncodeIpv4(d), |lead|);
    DecodeEncodedPorts(lead + EncodeIpv4(d), |lead| + ip.size, ip.data, t);
  }

  function VlanOf(tag: Tag): nat {
    if tag.Tagged? then tag.vlan else 0
  }

  /** A whole packet comes back, through tag, options and any transport, as a frame and on its own. */
  lemma DecodeEncodedPacket(dst: seq<Byte>, src: seq<Byte>, tag: Tag, d: Ipv4, t: Transport)
    requires tag.Valid() && |dst| == 6 && |src| == 6
    requires d.Valid() && t.Valid() && d.protocol == t.Protocol() && d.payload == t.Payload()
    ensures DecodePacket(HEADER_ETHERNET, EncodeEthernet(dst, src, tag, ETHERTYPE_IP, EncodeIpv4(d))) ==
            Packet(true, !t.Truncated?, EthernetData(src, dst, VlanOf(tag), ETHERTYPE_IP), IpOf(d, t))
    ensures DecodePacket(HEADER_IPV4, EncodeIpv4(d)) == Packet(false, !t.Truncated?, NO_ETHERNET, IpOf(d, t))
  {
    hide EncodeIpv4, EncodeEthernet, DecodeIp, DecodeEthernet;
    var body := EncodeIpv4(d);
    var h := EncodeEthernet(dst, src, tag, ETHERTYPE_IP, body);
    DecodeEncodedEthernet(dst, src, tag, ETHERTYPE_IP, body);
    var eth := DecodeEthernet(h);
    DecodeEncodedIp(h[..eth.size], d, t, Packet(true, false, eth.data, NO_IP));
    DecodeEncodedIp([], d, t, Packet(false, false, NO_ETHERNET, NO_IP));
    assert [] + body == body;
  }

  /** A frame that carries no IPv4 header, or one cut short, gives its Ethernet fields only. */
  lemma DecodeOtherFrame(dst: seq<Byte>, src: seq<Byte>, tag: Tag, etherType: U16, body: seq<Byte>)
    requires tag.Valid() && |dst| == 6 && |src| == 6 && (tag.Untagged? ==> etherType != ETHERTYPE_VLAN)
    requires etherType != ETHERTYPE_IP || |body| < IP_HEADER
    ensures DecodePacket(HEADER_ETHERNET, EncodeEthernet(dst, src, tag, etherType, body)) ==
            Packet(true, false, EthernetData(src, dst, VlanOf(tag), etherType), NO_IP)
  {
    hide EncodeEthernet, DecodeEthernet;
    DecodeEncodedEthernet(dst, src, tag, etherType, body);
  }

  /** The numbers assigned to header protocols, frame types, protocols and ICMP types, and the header sizes. */
  lemma AssignedNumbers()
    ensures HEADER_ETHERNET == 1 && HEADER_IPV4 == 11
    ensures Bytes16(ETHERTYPE_IP) == [0x08, 0x00] && Bytes16(ETHERTYPE_VLAN) == [0x81, 0x00]
    ensures HeaderSize(1) == 28 && HeaderSize(6) == 20 && HeaderSize(17) == 8
    ensures forall p: Byte | p != 1 && p != 6 && p != 17 :: HeaderSize(p) == 0
    ensures forall k: Byte, c: Byte, s: U16, id: U16, rest: seq<Byte> ::
              Icmp(k, c, s, id, rest).IsEcho() <==> k == 8 || k == 0
    ensures ETHER_HEADER == 14 && VLAN_TAG == 4 && IP_HEADER == 20
  {
  }

  // ---- any sampled bytes at all

  /** The IPv4 header is there, and after the length it gives itself, the transport header its protocol needs. */
  predicate CarriesIp(h: seq<Byte>, offset: nat) {
    && |h| >= offset + IP_HEADER
    && var needed := HeaderSize(h[offset + 9]);
       needed == 0 || |h| >= offset + 4 * (h[offset] % 16) + needed
  }

  /** Where the payload of an IPv4 frame starts, when the Ethernet header and its tag are there. */
  function FrameIp(h: seq<Byte>): Option<nat> {
    if |h| >= ETHER_HEADER && Word16(h, 12) == ETHERTYPE_IP then Some(ETHER_HEADER)
    else if |h| >= ETHER_HEADER + VLAN_TAG && Word16(h, 12) == ETHERTYPE_VLAN && Word16(h, 16) == ETHERTYPE_IP
    then Some(ETHER_HEADER + VLAN_TAG)
    else None
  }

  /** Which bytes count as an IP packet, however they are cut and whatever lengths they claim. */
  lemma IsIpExactly(protocol: U32, h: seq<Byte>)
    ensures DecodePacket(protocol, h).isIp <==>
            || (protocol == HEADER_IPV4 && CarriesIp(h, 0))
            || (protocol == HEADER_ETHERNET && FrameIp(h).Some? && CarriesIp(h, FrameIp(h).value))
    ensures DecodePacket(protocol, h).isEthernet <==>
            && protocol == HEADER_ETHERNET && |h| >= ETHER_HEADER
            && (Word16(h, 12) == ETHERTYPE_VLAN ==> |h| >= ETHER_HEADER + VLAN_TAG)
  {
    hide CarriesIp, DecodeIp;
    forall offset: nat, p: Packet
      ensures DecodeIp(h, offset, p).isIp <==> p.isIp || CarriesIp(h, offset)
      ensures DecodeIp(h, offset, p).isEthernet == p.isEthernet
    {
      DecodedIsIp(h, offset, p);
    }
  }

  lemma DecodedIsIp(h: seq<Byte>, offset: nat, p: Packet)
    ensures DecodeIp(h, offset, p).isIp <==> p.isIp || CarriesIp(h, offset)
    ensures DecodeIp(h, offset, p).isEthernet == p.isEthernet
  {
  }
}
