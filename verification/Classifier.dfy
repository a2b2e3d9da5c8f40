/**
 * The kernel-side classifier: progressive header checks over a frame, then a copy of at most
 * 512 payload octets into a ring-buffer event whose memory is not cleared.
 */
module Classifier {
  import opened Bytes
  import opened Common
  import opened Answers
  import opened Parser

  const DNS_PORT: U16 := 53
  const IPV4_MIN_HDR_LEN: nat := 20
  const IPV4_MAX_HDR_LEN: nat := 60
  const ETH_LEN: nat := 14
  const IPV6_LEN: nat := 40
  const UDP_LEN: nat := 8
  const ETHERTYPE_IPV4: U16 := 0x0800
  const ETHERTYPE_IPV6: U16 := 0x86DD
  const IPPROTO_UDP: Byte := 17

  // ------------------------------------------------------ what the code decides

  datatype Capture = Capture(srcIp: RawIpAddr, dstIp: RawIpAddr, srcPort: U16, dstPort: U16, payloadOffset: nat)

  predicate PtrAt(f: Octets, offset: nat, size: nat) {
    offset + size <= |f|
  }

  /** IHL counts 32-bit words in the low four bits of the first octet. */
  function HeaderLen(vihl: Byte): nat {
    vihl % 16 * 4
  }

  function ClassifyUdp(f: Octets, offset: nat, srcIp: RawIpAddr, dstIp: RawIpAddr): Option<Capture> {
    if !PtrAt(f, offset, UDP_LEN) then None
    else
      var u := f[offset..];
      if Read16(u, 0) != DNS_PORT || offset + UDP_LEN >= |f| then None
      else Some(Capture(srcIp, dstIp, Read16(u, 0), Read16(u, 2), offset + UDP_LEN))
  }

  function Classify(f: Octets): Option<Capture> {
    if !PtrAt(f, 0, ETH_LEN) then None
    else if Read16(f, 12) == ETHERTYPE_IPV4 then
      if !PtrAt(f, ETH_LEN, IPV4_MIN_HDR_LEN) then None
      else
        var h := f[ETH_LEN..];
        var len := HeaderLen(h[0]);
        if len < IPV4_MIN_HDR_LEN || len > IPV4_MAX_HDR_LEN || h[9] != IPPROTO_UDP then None
        else ClassifyUdp(f, ETH_LEN + len, FromIpv4(h[12..16]), FromIpv4(h[16..20]))
    else if Read16(f, 12) == ETHERTYPE_IPV6 then
      if !PtrAt(f, ETH_LEN, IPV6_LEN) then None
      else
        var h := f[ETH_LEN..];
        if h[6] != IPPROTO_UDP then None
        else ClassifyUdp(f, ETH_LEN + IPV6_LEN, FromIpv6(h[8..24]), FromIpv6(h[24..40]))
    else None
  }

  /** The submitted event: the frame's payload prefix in front, untouched old memory behind it. */
  function Captured(f: Octets, c: Capture, ts: nat, stale: Payload): RawDnsEvent
    requires c.payloadOffset < |f|
  {
    var n := Min(MAX_DNS_PAYLOAD_SIZE, |f| - c.payloadOffset);
    RawDnsEvent(c.srcIp, c.dstIp, c.srcPort, c.dstPort, n, ts, f[c.payloadOffset..c.payloadOffset + n] + stale[n..])
  }

  lemma ClassifyInFrame(f: Octets)
    requires Classify(f).Some?
    ensures Classify(f).value.payloadOffset < |f|
    ensures Classify(f).value.srcIp.family in {AF_INET, AF_INET6}
    ensures Classify(f).value.dstIp.family == Classify(f).value.srcIp.family
  {
  }

  // --------------------------------------------------------- the code as it runs

  /** One reserved ring-buffer entry; its memory holds whatever was there before. */
  class EventBuffer {
    var srcIp: RawIpAddr
    var dstIp: RawIpAddr
    var srcPort: U16
    var dstPort: U16
    var payloadLen: U16
    var timestampNs: nat
    const payload: array<Byte>

    ghost predicate Valid() {
      payload.Length == MAX_DNS_PAYLOAD_SIZE
    }

    function Event(): RawDnsEvent
      requires Valid()
      reads this, payload
    {
      RawDnsEvent(srcIp, dstIp, srcPort, dstPort, payloadLen, timestampNs, payload[..])
    }

    constructor (memory: array<Byte>, ip: RawIpAddr)
      requires memory.Length == MAX_DNS_PAYLOAD_SIZE
      ensures Valid() && payload == memory
    {
      payload := memory;
      srcIp, dstIp, srcPort, dstPort, payloadLen, timestampNs := ip, ip, 0, 0, 0, 0;
    }

    /** The bounded copy loop. */
    method CopyPayload(f: Octets, payloadOffset: nat) returns (copied: U16)
      requires Valid()
      modifies payload
      ensures copied == Min(MAX_DNS_PAYLOAD_SIZE, if payloadOffset <= |f| then |f| - payloadOffset else 0)
      ensures forall k :: 0 <= k < copied ==> payload[k] == f[payloadOffset + k]
      ensures forall k :: copied <= k < MAX_DNS_PAYLOAD_SIZE ==> payload[k] == old(payload[k])
    {
      copied := 0;
      for i := 0 to MAX_DNS_PAYLOAD_SIZE
        invariant copied == i
        invariant payloadOffset + i <= |f| || i == 0
        invariant forall k :: 0 <= k < i ==> payload[k] == f[payloadOffset + k]
        invariant forall k :: i <= k < MAX_DNS_PAYLOAD_SIZE ==> payload[k] == old(payload[k])
      {
        var cur := payloadOffset + i;
        if cur + 1 > |f| {
          break;
        }
        payload[i] := f[cur];
        copied := copied + 1;
      }
    }
  }

  /** The ring buffer's answer to `reserve`: an entry, or nothing when there is no room. */
  method ParseUdp(f: Octets, offset: nat, srcIp: RawIpAddr, dstIp: RawIpAddr, ring: EventBuffer?, endTs: nat)
    returns (submitted: bool)
    requires ring != null ==> ring.Valid()
    modifies if ring != null then {ring, ring.payload} else {}
    ensures submitted <==> ring != null && ClassifyUdp(f, offset, srcIp, dstIp).Some?
    ensures submitted ==> ring.Event() ==
                            Captured(f, ClassifyUdp(f, offset, srcIp, dstIp).value, endTs, old(ring.payload[..]))
    ensures ring != null && !submitted ==> ring.Event() == old(ring.Event())
  {
    if !PtrAt(f, offset, UDP_LEN) {
      return false;
    }
    var u := f[offset..];
    var srcPort := Read16(u, 0);
    var dstPort := Read16(u, 2);
    if srcPort != DNS_PORT {
      return false;
    }
    var payloadOffset := offset + UDP_LEN;
    var available := |f| - payloadOffset;
    if available == 0 {
      return false;
    }
    if ring == null {
      return false;
    }
    ghost var stale := ring.payload[..];
    ring.srcIp := srcIp;
    ring.dstIp := dstIp;
    ring.srcPort := srcPort;
    ring.dstPort := dstPort;
    var copied := ring.CopyPayload(f, payloadOffset);
    ring.payloadLen := copied;
    ring.timestampNs := endTs;
    assert ring.payload[..] == f[payloadOffset..payloadOffset + copied] + stale[copied..];
    return true;
  }

  /** `try_dns_tc`: an event is submitted exactly when the frame is admitted and the ring has room. */
  method TryDnsTc(f: Octets, ring: EventBuffer?, endTs: nat) returns (submitted: bool)
    requires ring != null ==> ring.Valid()
    modifies if ring != null then {ring, ring.payload} else {}
    ensures submitted <==> ring != null && Classify(f).Some?
    ensures submitted ==> ring.Event() == Captured(f, Classify(f).value, endTs, old(ring.payload[..]))
    ensures ring != null && !submitted ==> ring.Event() == old(ring.Event())
  {
    if !PtrAt(f, 0, ETH_LEN) {
      return false;
    }
    var etherType := Read16(f, 12);
    if etherType == ETHERTYPE_IPV4 {
      submitted := TryIpv4(f, ring, endTs);
    } else if etherType == ETHERTYPE_IPV6 {
      submitted := TryIpv6(f, ring, endTs);
    } else {
      submitted := false;
    }
  }

  /** The arm for IPv4. */
  method TryIpv4(f: Octets, ring: EventBuffer?, endTs: nat) returns (submitted: bool)
    requires ring != null ==> ring.Valid()
    requires |f| >= 14 && Read16(f, 12) == ETHERTYPE_IPV4
    modifies if ring != null then {ring, ring.payload} else {}
    ensures submitted <==> ring != null && Classify(f).Some?
    ensures submitted ==> ring.Event() == Captured(f, Classify(f).value, endTs, old(ring.payload[..]))
    ensures ring != null && !submitted ==> ring.Event() == old(ring.Event())
  {
    if !PtrAt(f, ETH_LEN, IPV4_MIN_HDR_LEN) {
      return false;
    }
    var h := f[ETH_LEN..];
    var hdrLen := HeaderLen(h[0]);
    if hdrLen < IPV4_MIN_HDR_LEN || hdrLen > IPV4_MAX_HDR_LEN {
      return false;
    }
    if h[9] != IPPROTO_UDP {
      return false;
    }
    submitted := ParseUdp(f, ETH_LEN + hdrLen, FromIpv4(h[12..16]), FromIpv4(h[16..20]), ring, endTs);
  }

  /** The arm for IPv6. */
  method TryIpv6(f: Octets, ring: EventBuffer?, endTs: nat) returns (submitted: bool)
    requires ring != null ==> ring.Valid()
    requires |f| >= 14 && Read16(f, 12) == ETHERTYPE_IPV6
    modifies if ring != null then {ring, ring.payload} else {}
    ensures submitted <==> ring != null && Classify(f).Some?
    ensures submitted ==> ring.Event() == Captured(f, Classify(f).value, endTs, old(ring.payload[..]))
    ensures ring != null && !submitted ==> ring.Event() == old(ring.Event())
  {
    if !PtrAt(f, ETH_LEN, IPV6_LEN) {
      return false;
    }
    var h := f[ETH_LEN..];
    if h[6] != IPPROTO_UDP {
      return false;
    }
    submitted := ParseUdp(f, ETH_LEN + IPV6_LEN, FromIpv6(h[8..24]), FromIpv6(h[24..40]), ring, endTs);
  }

  // ------------------------------------------------------ admission, octet by octet

  /** Where the UDP header of an IPv4 frame starts. */
  function UdpStart(f: Octets): nat
    requires |f| > 14
  {
    14 + f[14] % 16 * 4
  }

  /** A port in network byte order. */
  function PortAt(f: Octets, o: nat): U16
    requires o + 2 <= |f|
  {
    f[o] as int * 256 + f[o + 1] as int
  }

  /** EtherType 0x0800, at least five header words, protocol 17, source port 53, at least one payload octet. */
  predicate Ipv4Dns(f: Octets) {
    && |f| > 34 && f[12] == 8 && f[13] == 0 && f[14] % 16 >= 5 && f[23] == 17
    && |f| >= UdpStart(f) + 9 && f[UdpStart(f)] == 0 && f[UdpStart(f) + 1] == 53
  }

  /** EtherType 0x86DD, next header 17, source port 53, at least one payload octet. */
  predicate Ipv6Dns(f: Octets) {
    |f| > 62 && f[12] == 0x86 && f[13] == 0xDD && f[20] == 17 && f[54] == 0 && f[55] == 53
  }

  lemma EtherTypes(f: Octets)
    requires |f| >= 14
    ensures Read16(f, 12) == ETHERTYPE_IPV4 <==> f[12] == 8 && f[13] == 0
    ensures Read16(f, 12) == ETHERTYPE_IPV6 <==> f[12] == 0x86 && f[13] == 0xDD
  {
  }

  lemma UdpOctets(f: Octets, o: nat, s: RawIpAddr, d: RawIpAddr)
    ensures ClassifyUdp(f, o, s, d) ==
              if |f| >= o + 9 && f[o] == 0 && f[o + 1] == 53
              then Some(Capture(s, d, 53, PortAt(f, o + 2), o + 8)) else None
  {
    if |f| >= o + 8 {
      var u := f[o..];
      assert u[0] == f[o] && u[1] == f[o + 1] && u[2] == f[o + 2] && u[3] == f[o + 3];
    }
  }

  lemma Ipv4Octets(f: Octets)
    requires |f| >= 14 && f[12] == 8 && f[13] == 0
    ensures Classify(f) ==
              if Ipv4Dns(f)
              then Some(Capture(FromIpv4(f[26..30]), FromIpv4(f[30..34]), 53, PortAt(f, UdpStart(f) + 2), UdpStart(f) + 8))
              else None
  {
    EtherTypes(f);
    if |f| >= 34 {
      var h := f[14..];
      assert h[0] == f[14] && h[9] == f[23];
      assert h[12..16] == f[26..30] && h[16..20] == f[30..34];
      UdpOctets(f, UdpStart(f), FromIpv4(f[26..30]), FromIpv4(f[30..34]));
    }
  }

  lemma Ipv6Octets(f: Octets)
    requires |f| >= 14 && f[12] == 0x86 && f[13] == 0xDD
    ensures Classify(f) ==
              if Ipv6Dns(f) then Some(Capture(FromIpv6(f[22..38]), FromIpv6(f[38..54]), 53, PortAt(f, 56), 62))
              else None
  {
    EtherTypes(f);
    if |f| >= 54 {
      var h := f[14..];
      assert h[6] == f[20];
      assert h[8..24] == f[22..38] && h[24..40] == f[38..54];
      UdpOctets(f, 54, FromIpv6(f[22..38]), FromIpv6(f[38..54]));
    }
  }

  /** Which frames are admitted and what is taken from them, in octets and with the numbers of the standards. */
  lemma ClassifyOctets(f: Octets)
    ensures Classify(f) ==
              if Ipv4Dns(f) then
                Some(Capture(FromIpv4(f[26..30]), FromIpv4(f[30..34]), 53, PortAt(f, UdpStart(f) + 2), UdpStart(f) + 8))
              else if Ipv6Dns(f) then
                Some(Capture(FromIpv6(f[22..38]), FromIpv6(f[38..54]), 53, PortAt(f, 56), 62))
              else None
  {
    if |f| >= 14 {
      EtherTypes(f);
      if f[12] == 8 && f[13] == 0 {
        Ipv4Octets(f);
      } else if f[12] == 0x86 && f[13] == 0xDD {
        Ipv6Octets(f);
      }
    }
  }

  // -------------------------------------------------- frames, independently defined

  /** Network and transport headers of a frame the classifier is meant to pick up (RFC 791, RFC 8200, RFC 768). */
  datatype IpHeader =
    | V4(version: nat, words: nat, head: Octets, checksum: Octets, src4: Ipv4, dst4: Ipv4, options: Octets)
    | V6(head6: Octets, hopLimit: Byte, src6: Ipv6, dst6: Ipv6)

  datatype Frame = Frame(macs: Octets, ip: IpHeader, srcPort: U16, dstPort: U16, udpRest: Octets, payload: Octets)

  predicate ValidIp(h: IpHeader) {
    match h
    case V4(version, words, head, checksum, _, _, options) =>
      version < 16 && 5 <= words <= 15 && |head| == 8 && |checksum| == 2 && |options| == words * 4 - 20
    case V6(head, _, _, _) => |head| == 6
  }

  predicate ValidFrame(x: Frame) {
    |x.macs| == 12 && ValidIp(x.ip) && |x.udpRest| == 4 && x.srcPort == DNS_PORT && x.payload != []
  }

  function EtherTypeOf(h: IpHeader): U16 {
    if h.V4? then ETHERTYPE_IPV4 else ETHERTYPE_IPV6
  }

  function EncodeV4(vihl: Byte, head: Octets, proto: Byte, checksum: Octets, src: Octets, dst: Octets, rest: Octets): Octets {
    [vihl] + (head + ([proto] + (checksum + (src + (dst + rest)))))
  }

  function EncodeV6(head: Octets, next: Byte, hop: Byte, src: Octets, dst: Octets, rest: Octets): Octets {
    head + ([next, hop] + (src + (dst + rest)))
  }

  /** Everything behind the Ethernet header. */
  function EncodeIp(h: IpHeader, rest: Octets): Octets
    requires ValidIp(h)
  {
    match h
    case V4(version, words, head, checksum, src, dst, options) =>
      EncodeV4(version * 16 + words, head, IPPROTO_UDP, checksum, src, dst, options + rest)
    case V6(head, hop, src, dst) => EncodeV6(head, IPPROTO_UDP, hop, src, dst, rest)
  }

  function EncodeUdp(x: Frame): Octets {
    Be16(x.srcPort) + (Be16(x.dstPort) + (x.udpRest + x.payload))
  }

  function EncodeFrame(x: Frame): Octets
    requires ValidFrame(x)
  {
    x.macs + (Be16(EtherTypeOf(x.ip)) + EncodeIp(x.ip, EncodeUdp(x)))
  }

  function IpLen(h: IpHeader): nat
    requires ValidIp(h)
  {
    if h.V4? then h.words * 4 else 40
  }

  function SrcOf(h: IpHeader): RawIpAddr {
    if h.V4? then FromIpv4(h.src4) else FromIpv6(h.src6)
  }

  function DstOf(h: IpHeader): RawIpAddr {
    if h.V4? then FromIpv4(h.dst4) else FromIpv6(h.dst6)
  }

  function CaptureOf(x: Frame): Capture
    requires ValidFrame(x)
  {
    Capture(SrcOf(x.ip), DstOf(x.ip), x.srcPort, x.dstPort, ETH_LEN + IpLen(x.ip) + UDP_LEN)
  }

  // ---------------------------------------------------------------- completeness

  lemma V4Fields(vihl: Byte, head: Octets, proto: Byte, checksum: Octets, src: Octets, dst: Octets, rest: Octets)
    requires |head| == 8 && |checksum| == 2 && |src| == 4 && |dst| == 4
    ensures var h := EncodeV4(vihl, head, proto, checksum, src, dst, rest);
            |h| >= 20 && h[0] == vihl && h[9] == proto && h[12..16] == src && h[16..20] == dst && h[20..] == rest
  {
    var h := EncodeV4(vihl, head, proto, checksum, src, dst, rest);
    assert h[1..] == head + ([proto] + (checksum + (src + (dst + rest))));
    assert h[1..][8..] == [proto] + (checksum + (src + (dst + rest)));
    assert h[9..] == [proto] + (checksum + (src + (dst + rest)));
    assert h[9..][3..] == src + (dst + rest);
    assert h[12..] == src + (dst + rest);
    assert h[12..][4..] == dst + rest;
    assert h[12..16] == h[12..][..4] && h[16..20] == h[16..][..4];
  }

  lemma V6Fields(head: Octets, next: Byte, hop: Byte, src: Octets, dst: Octets, rest: Octets)
    requires |head| == 6 && |src| == 16 && |dst| == 16
    ensures var h := EncodeV6(head, next, hop, src, dst, rest);
            |h| >= 40 && h[6] == next && h[8..24] == src && h[24..40] == dst && h[40..] == rest
  {
    var h := EncodeV6(head, next, hop, src, dst, rest);
    assert h[6..] == [next, hop] + (src + (dst + rest));
    assert h[6..][2..] == src + (dst + rest);
    assert h[8..] == src + (dst + rest);
    assert h[8..][16..] == dst + rest;
    assert h[24..] == dst + rest;
    assert h[8..24] == h[8..][..16] && h[24..40] == h[24..][..16];
  }

  lemma UdpFields(f: Octets, offset: nat, x: Frame, s: RawIpAddr, d: RawIpAddr)
    requires ValidFrame(x) && offset <= |f| && f[offset..] == EncodeUdp(x)
    ensures ClassifyUdp(f, offset, s, d) == Some(Capture(s, d, x.srcPort, x.dstPort, offset + UDP_LEN))
    ensures f[offset + UDP_LEN..] == x.payload
  {
    var u := f[offset..];
    var more := Be16(x.dstPort) + (x.udpRest + x.payload);
    Read16Be16(x.srcPort, more);
    assert u[2..] == more;
    Read16Be16(x.dstPort, x.udpRest + x.payload);
    assert Read16(u, 2) == Read16(u[2..], 0);
    assert u[2..][2..] == x.udpRest + x.payload;
    assert u[4..] == x.udpRest + x.payload;
    assert u[4..][4..] == x.payload;
  }

  lemma EthernetFields(x: Frame)
    requires ValidFrame(x)
    ensures var f := EncodeFrame(x);
            |f| >= 14 && Read16(f, 12) == EtherTypeOf(x.ip) && f[14..] == EncodeIp(x.ip, EncodeUdp(x))
  {
    var f, ip := EncodeFrame(x), EncodeIp(x.ip, EncodeUdp(x));
    Read16Be16(EtherTypeOf(x.ip), ip);
    assert f[12..] == Be16(EtherTypeOf(x.ip)) + ip;
    assert Read16(f, 12) == Read16(f[12..], 0);
    assert f[12..][2..] == ip;
  }

  /** The header fields the classifier looks at, and what stands behind the header. */
  lemma IpFields(ip: IpHeader, u: Octets)
    requires ValidIp(ip)
    ensures var h := EncodeIp(ip, u);
            && |h| >= IpLen(ip) && h[IpLen(ip)..] == u
            && (ip.V4? ==> HeaderLen(h[0]) == IpLen(ip) && h[9] == IPPROTO_UDP && h[12..16] == ip.src4 && h[16..20] == ip.dst4)
            && (ip.V6? ==> h[6] == IPPROTO_UDP && h[8..24] == ip.src6 && h[24..40] == ip.dst6)
  {
    match ip
    case V4(version, words, head, checksum, src, dst, options) =>
      V4Fields(version * 16 + words, head, IPPROTO_UDP, checksum, src, dst, options + u);
      assert (version * 16 + words) % 16 == words;
      var h := EncodeIp(ip, u);
      assert h[20..][|options|..] == u;
      assert h[words * 4..] == h[20..][|options|..];
    case V6(head, hop, src, dst) =>
      V6Fields(head, IPPROTO_UDP, hop, src, dst, u);
  }

  /** A frame built from its headers is admitted, with its own addresses, ports and payload. */
  lemma ClassifyComplete(x: Frame)
    requires ValidFrame(x)
    ensures Classify(EncodeFrame(x)) == Some(CaptureOf(x))
    ensures var offset := CaptureOf(x).payloadOffset;
            offset < |EncodeFrame(x)| && EncodeFrame(x)[offset..] == x.payload
  {
    EthernetFields(x);
    var f := EncodeFrame(x);
    IpFields(x.ip, EncodeUdp(x));
    assert f[14 + IpLen(x.ip)..] == f[14..][IpLen(x.ip)..];
    UdpFields(f, 14 + IpLen(x.ip), x, SrcOf(x.ip), DstOf(x.ip));
    assert Classify(f) == ClassifyUdp(f, 14 + IpLen(x.ip), SrcOf(x.ip), DstOf(x.ip));
  }

  // ------------------------------------------------------------------- soundness

  lemma UdpSound(f: Octets, offset: nat, s: RawIpAddr, d: RawIpAddr) returns (u: Octets, rest: Octets)
    requires ClassifyUdp(f, offset, s, d).Some?
    ensures |u| == 4 && rest != [] && rest == f[offset + 8..]
    ensures f[offset..] == Be16(DNS_PORT) + (Be16(Read16(f[offset..], 2)) + (u + rest))
  {
    var w := f[offset..];
    u, rest := w[4..8], w[8..];
    Be16Read16(w, 0);
    Be16Read16(w, 2);
    Adjacent(w, 4, 8, |w|);
    Adjacent(w, 2, 4, |w|);
    Adjacent(w, 0, 2, |w|);
  }

  lemma V4Split(h: Octets)
    requires |h| >= 20
    ensures h == EncodeV4(h[0], h[1..9], h[9], h[10..12], h[12..16], h[16..20], h[20..])
  {
    Adjacent(h, 16, 20, |h|);
    Adjacent(h, 12, 16, |h|);
    Adjacent(h, 10, 12, |h|);
    assert [h[9]] == h[9..10] && [h[0]] == h[0..1];
    Adjacent(h, 9, 10, |h|);
    Adjacent(h, 1, 9, |h|);
    Adjacent(h, 0, 1, |h|);
  }

  lemma V6Split(h: Octets)
    requires |h| >= 40
    ensures h == EncodeV6(h[0..6], h[6], h[7], h[8..24], h[24..40], h[40..])
  {
    Adjacent(h, 24, 40, |h|);
    Adjacent(h, 8, 24, |h|);
    assert [h[6], h[7]] == h[6..8];
    Adjacent(h, 6, 8, |h|);
    Adjacent(h, 0, 6, |h|);
  }

  lemma EthernetSplit(f: Octets)
    requires |f| >= 14
    ensures f == f[0..12] + (Be16(Read16(f, 12)) + f[14..])
  {
    Be16Read16(f, 12);
    Adjacent(f, 12, 14, |f|);
    Adjacent(f, 0, 12, |f|);
  }

  lemma HeaderV4(h: Octets) returns (ip: IpHeader)
    requires |h| >= 20 && 20 <= HeaderLen(h[0]) <= |h| && h[9] == IPPROTO_UDP
    ensures ip.V4? && ValidIp(ip) && h == EncodeIp(ip, h[HeaderLen(h[0])..])
  {
    var len := HeaderLen(h[0]);
    V4Split(h);
    Adjacent(h, 20, len, |h|);
    ip := V4(h[0] / 16, h[0] % 16, h[1..9], h[10..12], h[12..16], h[16..20], h[20..len]);
    assert h[0] / 16 * 16 + h[0] % 16 == h[0];
  }

  lemma AssembleFrame(f: Octets, ip: IpHeader, w: Octets, dport: U16, udp: Octets, payload: Octets) returns (x: Frame)
    requires ValidIp(ip) && |f| >= 14 && Read16(f, 12) == EtherTypeOf(ip) && f[14..] == EncodeIp(ip, w)
    requires |udp| == 4 && payload != [] && w == Be16(DNS_PORT) + (Be16(dport) + (udp + payload))
    ensures ValidFrame(x) && EncodeFrame(x) == f
  {
    EthernetSplit(f);
    x := Frame(f[0..12], ip, DNS_PORT, dport, udp, payload);
    assert EncodeUdp(x) == w;
  }

  /** What admission of an IPv4 frame means for its header `h` and the octets behind that. */
  lemma AdmittedV4(f: Octets, h: Octets)
    requires Classify(f).Some? && Read16(f, 12) == ETHERTYPE_IPV4 && |f| >= 14 && h == f[14..]
    ensures |h| >= 20 && 20 <= HeaderLen(h[0]) <= |h| && h[9] == IPPROTO_UDP
    ensures ClassifyUdp(f, 14 + HeaderLen(h[0]), FromIpv4(h[12..16]), FromIpv4(h[16..20])).Some?
  {
  }

  lemma SoundV4(f: Octets) returns (x: Frame)
    requires Classify(f).Some? && Read16(f, 12) == ETHERTYPE_IPV4
    ensures ValidFrame(x) && EncodeFrame(x) == f
  {
    var h := f[14..];
    AdmittedV4(f, h);
    x := SoundBehind(f, h);
  }

  lemma SoundBehind(f: Octets, h: Octets) returns (x: Frame)
    requires |f| >= 14 && Read16(f, 12) == ETHERTYPE_IPV4 && h == f[14..]
    requires |h| >= 20 && 20 <= HeaderLen(h[0]) <= |h| && h[9] == IPPROTO_UDP
    requires ClassifyUdp(f, 14 + HeaderLen(h[0]), FromIpv4(h[12..16]), FromIpv4(h[16..20])).Some?
    ensures ValidFrame(x) && EncodeFrame(x) == f
  {
    var len := HeaderLen(h[0]);
    var w := f[14 + len..];
    assert h[len..] == w;
    var udp, payload := UdpSound(f, 14 + len, FromIpv4(h[12..16]), FromIpv4(h[16..20]));
    var ip := HeaderV4(h);
    x := AssembleFrame(f, ip, w, Read16(w, 2), udp, payload);
  }

  lemma SoundV6(f: Octets) returns (x: Frame)
    requires Classify(f).Some? && Read16(f, 12) == ETHERTYPE_IPV6
    ensures ValidFrame(x) && EncodeFrame(x) == f
  {
    var h, w := f[14..], f[54..];
    assert h[40..] == w;
    var udp, payload := UdpSound(f, 54, FromIpv6(h[8..24]), FromIpv6(h[24..40]));
    V6Split(h);
    x := AssembleFrame(f, V6(h[0..6], h[7], h[8..24], h[24..40]), w, Read16(w, 2), udp, payload);
  }

  /** The classifier admits exactly the well-formed UDP frames from port 53 with at least one payload octet. */
  lemma ClassifierExact(f: Octets)
    ensures Classify(f).Some? <==> exists x :: ValidFrame(x) && EncodeFrame(x) == f
    ensures forall x | ValidFrame(x) && EncodeFrame(x) == f :: Classify(f) == Some(CaptureOf(x))
  {
    forall x | ValidFrame(x) && EncodeFrame(x) == f
      ensures Classify(f) == Some(CaptureOf(x))
    {
      ClassifyComplete(x);
    }
    if Classify(f).Some? {
      if Read16(f, 12) == ETHERTYPE_IPV4 {
        var x := SoundV4(f);
      } else {
        var x := SoundV6(f);
      }
    }
  }

  // ------------------------------------------------------- across the kernel boundary

  /** What user space gets from a frame: a pure function, without the event's old memory. */
  function ParseCapture(fmt: Formatter, cursor: Cursor, f: Octets, c: Capture, ts: nat): Outcome
    requires c.payloadOffset < |f|
  {
    ParseEvent(fmt, cursor, Captured(f, c, ts, seq(MAX_DNS_PAYLOAD_SIZE, _ => 0)))
  }

  /** Every submitted event is within the parser's bounds, and old memory never reaches the parse. */
  lemma CaptureParses(fmt: Formatter, cursor: Cursor, f: Octets, c: Capture, ts: nat, stale: Payload)
    requires c.payloadOffset < |f|
    ensures 1 <= Captured(f, c, ts, stale).payloadLen <= MAX_DNS_PAYLOAD_SIZE
    ensures ParseEvent(fmt, cursor, Captured(f, c, ts, stale)) == ParseCapture(fmt, cursor, f, c, ts)
  {
    var a := Captured(f, c, ts, stale);
    var b := Captured(f, c, ts, seq(MAX_DNS_PAYLOAD_SIZE, _ => 0));
    var n := a.payloadLen;
    var front := f[c.payloadOffset..c.payloadOffset + n];
    assert a.payload[..n] == front && b.payload[..n] == front;
    StaleBytesIgnored(fmt, cursor, a, b);
  }

  /** Events built from one frame in buffers with different old contents parse alike. */
  lemma StaleMemoryInvisible(fmt: Formatter, cursor: Cursor, f: Octets, c: Capture, ts: nat, a: Payload, b: Payload)
    requires c.payloadOffset < |f|
    ensures ParseEvent(fmt, cursor, Captured(f, c, ts, a)) == ParseEvent(fmt, cursor, Captured(f, c, ts, b))
  {
    CaptureParses(fmt, cursor, f, c, ts, a);
    CaptureParses(fmt, cursor, f, c, ts, b);
  }
}
