/** Shared constants and structures of the kernel and user-space sides, and the parser's error type. */
module Common {
  import opened Bytes

  const AF_INET: nat := 2
  const AF_INET6: nat := 10
  const MAX_DNS_PAYLOAD_SIZE: nat := 512

  /** size_of::<RawDnsEvent>(): two 24-byte addresses, four u16, one u64, 512 payload bytes. */
  const RAW_EVENT_SIZE: nat := 576

  type Ipv4 = s: Octets | |s| == 4 witness [0, 0, 0, 0]
  type Ipv6 = s: Octets | |s| == 16 witness [0, 0, 0, 0, 0, 0, 0, 0, 0, 0, 0, 0, 0, 0, 0, 0]
  type Payload = s: Octets | |s| == MAX_DNS_PAYLOAD_SIZE witness seq(MAX_DNS_PAYLOAD_SIZE, _ => 0)

  datatype RawIpAddr = RawIpAddr(bytes: Ipv6, family: U32)

  function FromIpv4(addr: Ipv4): RawIpAddr {
    RawIpAddr(addr + [0, 0, 0, 0, 0, 0, 0, 0, 0, 0, 0, 0], AF_INET)
  }

  function FromIpv6(addr: Ipv6): RawIpAddr {
    RawIpAddr(addr, AF_INET6)
  }

  datatype RawDnsEvent = RawDnsEvent(
    srcIp: RawIpAddr, dstIp: RawIpAddr, srcPort: U16, dstPort: U16,
    payloadLen: U16, timestampNs: nat, payload: Payload)

  /** The protobuf message of proto/network_event.proto. */
  datatype DnsResponse = DnsResponse(
    srcIp: Text, dstIp: Text, srcPort: nat, dstPort: nat, timestampNs: nat,
    domainName: Text, resolvedIp: Text, resolvedIpRaw: Octets, ipFamily: nat)

  const EMPTY_RESPONSE := DnsResponse([], [], 0, 0, 0, [], [], [], 0)

  /** `Display` of Ipv4Addr and Ipv6Addr, left uninterpreted. */
  datatype Formatter = Formatter(ipv4: Octets -> Text, ipv6: Octets -> Text)

  datatype ParseError =
    | UnexpectedEndOfPayload
    | InvalidLabelLength(len: nat)
    | LabelExceedsMaxLen
    | NonAsciiDomainName
    | UnsupportedAddressFamily(family: nat)

  datatype Result<+T> = Ok(value: T) | Err(error: ParseError)

  /** A verdict that more input may still change: the parser ran off the end. */
  predicate Truncated<T>(r: Result<T>) {
    r.Err? && r.error == UnexpectedEndOfPayload
  }

  /** The octets of a key: an IPv4 address is padded with twelve zeros, and the family tells the two kinds apart. */
  lemma KeyOctets(a: Ipv4, b: Ipv6)
    ensures FromIpv4(a).family == 2 && FromIpv6(b).family == 10
    ensures forall i :: 0 <= i < 16 ==> FromIpv4(a).bytes[i] == if i < 4 then a[i] else 0
    ensures forall i :: 0 <= i < 16 ==> FromIpv6(b).bytes[i] == b[i]
  {
    assert FromIpv4(a).bytes == [a[0], a[1], a[2], a[3], 0, 0, 0, 0, 0, 0, 0, 0, 0, 0, 0, 0];
  }

  /** The event structure: two addresses of 24 bytes, three 16-bit fields and their padding, a 64-bit time, the payload. */
  lemma EventSize()
    ensures RAW_EVENT_SIZE == 2 * (16 + 4 + 4) + 3 * 2 + 2 + 8 + 512 == 576
  {
  }

  /** Keys are injective, and no IPv4 key is an IPv6 key (the family field keeps them apart). */
  lemma KeysDistinct(a: Ipv4, b: Ipv4, c: Ipv6, d: Ipv6)
    ensures FromIpv4(a) == FromIpv4(b) <==> a == b
    ensures FromIpv6(c) == FromIpv6(d) <==> c == d
    ensures FromIpv4(a) != FromIpv6(c)
  {
    assert FromIpv4(a).bytes[..4] == a && FromIpv4(b).bytes[..4] == b;
  }
}
