/** The parser as it runs: loops over offsets that write into one reused, mutable response slot. */
module ParserSlot {
  import opened Bytes
  import opened Wire
  import opened Common
  import opened Names
  import opened Answers
  import opened Parser

  class DnsSlot {
    var srcIp: Text
    var dstIp: Text
    var srcPort: nat
    var dstPort: nat
    var timestampNs: nat
    var domainName: Text
    var resolvedIp: Text
    var resolvedIpRaw: Octets
    var ipFamily: nat

    function Value(): DnsResponse
      reads this
    {
      DnsResponse(srcIp, dstIp, srcPort, dstPort, timestampNs, domainName, resolvedIp, resolvedIpRaw, ipFamily)
    }

    constructor ()
      ensures Value() == EMPTY_RESPONSE
    {
      srcIp, dstIp, domainName, resolvedIp, resolvedIpRaw := [], [], [], [], [];
      srcPort, dstPort, timestampNs, ipFamily := 0, 0, 0, 0;
    }

    method Reset()
      modifies this
      ensures Value() == EMPTY_RESPONSE
    {
      srcIp, dstIp, domainName, resolvedIp, resolvedIpRaw := [], [], [], [], [];
      srcPort, dstPort, ipFamily, timestampNs := 0, 0, 0, 0;
    }

    /** `std::mem::swap` with another slot's contents. */
    method Swap(other: DnsResponse) returns (previous: DnsResponse)
      modifies this
      ensures previous == old(Value()) && Value() == other
    {
      previous := Value();
      srcIp, dstIp, srcPort, dstPort := other.srcIp, other.dstIp, other.srcPort, other.dstPort;
      timestampNs, domainName, resolvedIp := other.timestampNs, other.domainName, other.resolvedIp;
      resolvedIpRaw, ipFamily := other.resolvedIpRaw, other.ipFamily;
    }

    /** `parse_qname`, appending to the slot's domain name; on failure the labels read so far stay there. */
    method ParseQNameInto(payload: Octets) returns (r: Result<nat>)
      modifies this`domainName
      ensures QName(r, domainName) == ParseQName(payload, old(domainName))
    {
      if payload == [] {
        return Err(UnexpectedEndOfPayload);
      }
      ghost var whole := ParseQName(payload, domainName);
      assert payload[0..] == payload;
      var offset: nat, total: nat := 0, 0;
      while offset < |payload|
        invariant 0 <= offset <= |payload|
        invariant QNameRest(payload, offset, total, domainName) == whole
      {
        QNameRestStep(payload, offset, total, domainName);
        var read := NextLabel(payload, offset, total);
        match read {
          case AtRoot => return Ok(offset + 1);
          case Bad(e) => return Err(e);
          case Got(labelBytes, labelEnd) =>
            total := total + |labelBytes| + 1;
            if domainName != [] {
              domainName := domainName + [DOT];
            }
            domainName := domainName + labelBytes;
            offset := labelEnd;
        }
      }
      return Err(UnexpectedEndOfPayload);
    }

    /** The second half of the loop body of `parse_rdata`: the match on the record type. */
    method StoreRecord(fmt: Formatter, v: RecordView) returns (r: Result<()>)
      modifies this`resolvedIp, this`resolvedIpRaw, this`ipFamily
      ensures Outcome(r, Value()) == Store(fmt, old(Value()), v.rtype, v.rdata)
    {
      match RecordTypeOf(v.rtype) {
        case A =>
          if |v.rdata| != 4 {
            return Err(UnexpectedEndOfPayload);
          }
          resolvedIp := resolvedIp + fmt.ipv4(v.rdata);
          resolvedIpRaw := resolvedIpRaw + v.rdata;
          ipFamily := AF_INET;
        case AAAA =>
          if |v.rdata| != 16 {
            return Err(UnexpectedEndOfPayload);
          }
          resolvedIp := resolvedIp + fmt.ipv6(v.rdata);
          resolvedIpRaw := resolvedIpRaw + v.rdata;
          ipFamily := AF_INET6;
        case CNAME =>
        case UNSUPPORTED(_) =>
      }
      return Ok(());
    }

    /** `parse_rdata` with the cursor as it is written. */
    method ParseRdataInto(fmt: Formatter, payload: Octets, anscount: U16) returns (r: Result<()>)
      modifies this`resolvedIp, this`resolvedIpRaw, this`ipFamily
      ensures Outcome(r, Value()) == ParseRdata(fmt, AsWritten, payload, anscount, old(Value()))
    {
      if payload == [] {
        return Err(UnexpectedEndOfPayload);
      }
      ghost var whole := ParseRdata(fmt, AsWritten, payload, anscount, Value());
      var offset: nat := 0;
      for i := 0 to anscount
        invariant AnswersFrom(fmt, AsWritten, payload, offset, anscount - i, Value()) == whole
      {
        var next := TakeRecord(fmt, payload, offset);
        if next.Err? {
          return Err(next.error);
        }
        offset := next.value;
      }
      return Ok(());
    }

    /** One iteration of `parse_rdata`: read a record, store it, and say where the next one starts. */
    method TakeRecord(fmt: Formatter, payload: Octets, offset: nat) returns (r: Result<nat>)
      modifies this`resolvedIp, this`resolvedIpRaw, this`ipFamily
      ensures match ReadRecord(AsWritten, payload, offset)
              case Err(e) => r == Err(e) && Value() == old(Value())
              case Ok(v) =>
                var stored := Store(fmt, old(Value()), v.rtype, v.rdata);
                Value() == stored.slot && r == if stored.result.Err? then Err(stored.result.error) else Ok(v.next)
    {
      var v := NextRecord(payload, offset);
      if v.Err? {
        return Err(v.error);
      }
      var stored := StoreRecord(fmt, v.value);
      if stored.Err? {
        return Err(stored.error);
      }
      return Ok(v.value.next);
    }

    /** `parse_dns_into` from the payload on. */
    method ParsePayloadInto(fmt: Formatter, dnsPayload: Octets) returns (r: Result<()>)
      modifies this
      ensures Outcome(r, Value()) == ParsePayload(fmt, AsWritten, dnsPayload, old(Value()))
    {
      if |dnsPayload| < DNS_HDR_LEN {
        return Err(UnexpectedEndOfPayload);
      }
      var qnameLen := ParseQNameInto(dnsPayload[DNS_HDR_LEN..]);
      if qnameLen.Err? {
        return Err(qnameLen.error);
      }
      var anscount := ReadHeader(dnsPayload).value.answerRrs;
      var rdataOffset := DNS_HDR_LEN + qnameLen.value + 4;
      if rdataOffset > |dnsPayload| {
        return Err(UnexpectedEndOfPayload);
      }
      r := ParseRdataInto(fmt, dnsPayload[rdataOffset..], anscount);
    }

    /**
     * `parse_dns_into`. The result and every field of the slot, on success and on failure, are a
     * function of the event: nothing of the previous contents shows through.
     */
    method ParseDnsInto(fmt: Formatter, ev: RawDnsEvent) returns (r: Result<()>)
      requires EventInBounds(ev)
      modifies this
      ensures Outcome(r, Value()) == ParseEvent(fmt, AsWritten, ev)
    {
      Reset();
      var src := ParseIp(fmt, ev.srcIp, srcIp);
      srcIp := src.out;
      assert IpText(fmt, ev.srcIp).Ok? ==> srcIp == IpText(fmt, ev.srcIp).value;
      if src.result.Err? {
        return Err(src.result.error);
      }
      var dst := ParseIp(fmt, ev.dstIp, dstIp);
      dstIp := dst.out;
      assert IpText(fmt, ev.dstIp).Ok? ==> dstIp == IpText(fmt, ev.dstIp).value;
      if dst.result.Err? {
        return Err(dst.result.error);
      }
      srcPort, dstPort, timestampNs := ev.srcPort, ev.dstPort, ev.timestampNs;
      assert Value() == Addressed(srcIp, dstIp, ev);

      r := ParsePayloadInto(fmt, ev.payload[..ev.payloadLen]);
    }
  }

  /** The first half of the loop body of `parse_qname`: read one label and check it. */
  method NextLabel(payload: Octets, offset: nat, total: nat) returns (r: LabelRead)
    requires offset < |payload|
    ensures r == ReadLabel(payload, offset, total)
  {
    var labelLen := payload[offset];
    if labelLen == 0 {
      return AtRoot;
    }
    if labelLen > 63 {
      return Bad(InvalidLabelLength(labelLen));
    }
    var labelStart := offset + 1;
    var labelEnd := labelStart + labelLen;
    if labelEnd > |payload| {
      return Bad(UnexpectedEndOfPayload);
    }
    var totalDomainLen := total + labelLen + 1;
    if totalDomainLen > 255 {
      return Bad(LabelExceedsMaxLen);
    }
    var labelBytes := payload[labelStart..labelEnd];
    if !Ascii(labelBytes) {
      return Bad(NonAsciiDomainName);
    }
    return Got(labelBytes, labelEnd);
  }

  /** The first half of the loop body of `parse_rdata`: find the record and its data, or fail. */
  method NextRecord(payload: Octets, start: nat) returns (r: Result<RecordView>)
    ensures r == ReadRecord(AsWritten, payload, start)
  {
    var offset: nat := start;
    if offset >= |payload| {
      return Err(UnexpectedEndOfPayload);
    }
    var skipped := ComputeSkipName(payload[offset..]);
    if skipped.Err? {
      return Err(skipped.error);
    }
    offset := skipped.value;
    if offset + RR_FIXED_HDR_LEN > |payload| {
      return Err(UnexpectedEndOfPayload);
    }
    var rtype := Read16(payload, offset);
    var rdlength := Read16(payload, offset + 8);
    assert Read16(payload[offset..], 0) == rtype && Read16(payload[offset..], 8) == rdlength;
    offset := offset + RR_FIXED_HDR_LEN;
    if offset + rdlength > |payload| {
      return Err(UnexpectedEndOfPayload);
    }
    assert payload[skipped.value..][10..10 + rdlength] == payload[offset..offset + rdlength];
    return Ok(RecordView(rtype, payload[offset..offset + rdlength], offset + rdlength));
  }

  /** Verdict of `parse_ip` and the string it appended to. */
  datatype IpOutcome = IpOutcome(result: Result<()>, out: Text)

  method ParseIp(fmt: Formatter, ip: RawIpAddr, out: Text) returns (r: IpOutcome)
    ensures match IpText(fmt, ip)
            case Ok(text) => r == IpOutcome(Ok(()), out + text)
            case Err(e) => r == IpOutcome(Err(e), out)
  {
    if ip.family == AF_INET {
      var octets := [ip.bytes[0], ip.bytes[1], ip.bytes[2], ip.bytes[3]];
      assert octets == ip.bytes[..4];
      return IpOutcome(Ok(()), out + fmt.ipv4(octets));
    } else if ip.family == AF_INET6 {
      return IpOutcome(Ok(()), out + fmt.ipv6(ip.bytes));
    } else {
      return IpOutcome(Err(UnsupportedAddressFamily(ip.family)), out);
    }
  }
}
