/** From the network frame to the response, the log and the policy map: the stages composed. */
module EndToEnd {
  import opened Bytes
  import opened Wire
  import opened Common
  import opened Answers
  import opened Sightings
  import opened Parser
  import opened Classifier
  import opened Policy
  import opened Topology
  import opened TopologyInvariants
  import opened Guarantees

  function SrcText(fmt: Formatter, h: IpHeader): Text {
    if h.V4? then fmt.ipv4(h.src4) else fmt.ipv6(h.src6)
  }

  function DstText(fmt: Formatter, h: IpHeader): Text {
    if h.V4? then fmt.ipv4(h.dst4) else fmt.ipv6(h.dst6)
  }

  /** The slot an event of this frame fills before its payload is looked at. */
  function FrameSlot(fmt: Formatter, x: Frame, ts: nat): DnsResponse {
    DnsResponse(SrcText(fmt, x.ip), DstText(fmt, x.ip), x.srcPort, x.dstPort, ts, [], [], [], 0)
  }

  /** What a frame carrying the message `m` ought to yield: its own headers, and the message's names and addresses. */
  function Expected(fmt: Formatter, x: Frame, m: Message, ts: nat): DnsResponse {
    WithMessage(fmt, FrameSlot(fmt, x, ts), m)
  }

  lemma AddressTexts(fmt: Formatter, x: Frame)
    requires ValidFrame(x)
    ensures IpText(fmt, CaptureOf(x).srcIp) == Ok(SrcText(fmt, x.ip))
    ensures IpText(fmt, CaptureOf(x).dstIp) == Ok(DstText(fmt, x.ip))
  {
    if x.ip.V4? {
      assert FromIpv4(x.ip.src4).bytes[..4] == x.ip.src4;
      assert FromIpv4(x.ip.dst4).bytes[..4] == x.ip.dst4;
    }
  }

  /** What is captured of a payload: at most 512 octets. */
  function CutOf(payload: Octets): Octets {
    payload[..Min(512, |payload|)]
  }

  /** The event of a frame, over cleared memory. */
  function EventOf(x: Frame, ts: nat): RawDnsEvent
    requires ValidFrame(x) && CaptureOf(x).payloadOffset < |EncodeFrame(x)|
  {
    Captured(EncodeFrame(x), CaptureOf(x), ts, seq(MAX_DNS_PAYLOAD_SIZE, _ => 0))
  }

  lemma EventPayload(x: Frame, ts: nat)
    requires ValidFrame(x)
    ensures CaptureOf(x).payloadOffset < |EncodeFrame(x)|
    ensures var ev := EventOf(x, ts); ev.payloadLen <= 512 && ev.payload[..ev.payloadLen] == CutOf(x.payload)
  {
    ClassifyComplete(x);
    FrontOfCapture(EncodeFrame(x), CaptureOf(x), ts, seq(MAX_DNS_PAYLOAD_SIZE, _ => 0));
  }

  lemma FrontOfCapture(f: Octets, c: Capture, ts: nat, stale: Payload)
    requires c.payloadOffset < |f|
    ensures var ev := Captured(f, c, ts, stale);
            ev.payloadLen <= 512 && ev.payload[..ev.payloadLen] == CutOf(f[c.payloadOffset..])
  {
    var o, n := c.payloadOffset, Min(512, |f| - c.payloadOffset);
    assert f[o..o + n] == f[o..][..n];
    assert (f[o..o + n] + stale[n..])[..n] == f[o..o + n];
  }

  /** User space parses the first 512 octets of the frame's payload, in a slot with the frame's own headers. */
  lemma CaptureIsPayloadPrefix(fmt: Formatter, cursor: Cursor, x: Frame, ts: nat)
    requires ValidFrame(x)
    ensures CaptureOf(x).payloadOffset < |EncodeFrame(x)|
    ensures ParseCapture(fmt, cursor, EncodeFrame(x), CaptureOf(x), ts) ==
              ParsePayload(fmt, cursor, CutOf(x.payload), FrameSlot(fmt, x, ts))
  {
    AddressTexts(fmt, x);
    EventPayload(x, ts);
  }

  /** The 512-octet cut in the kernel can turn an answer into "unexpected end", never into another answer. */
  lemma KernelCutNeverLies(fmt: Formatter, cursor: Cursor, x: Frame, ts: nat)
    requires ValidFrame(x)
    ensures CaptureOf(x).payloadOffset < |EncodeFrame(x)|
    ensures var got := ParseCapture(fmt, cursor, EncodeFrame(x), CaptureOf(x), ts);
            got == ParsePayload(fmt, cursor, x.payload, FrameSlot(fmt, x, ts)) || Truncated(got.result)
  {
    CaptureIsPayloadPrefix(fmt, cursor, x, ts);
    CutNeverLies(fmt, cursor, x.payload, Min(512, |x.payload|), FrameSlot(fmt, x, ts));
  }

  lemma CutMessage(e: Octets, tail: Octets)
    requires |e| <= 512
    ensures CutOf(e + tail) == e + tail[..Min(512, |e + tail|) - |e|]
  {
  }

  /** What is captured of the octets behind the message. */
  function CutTail(m: Message, tail: Octets): Octets
    requires ValidMessage(m) && |EncodeMessage(m)| <= 512
  {
    tail[..Min(512, |EncodeMessage(m) + tail|) - |EncodeMessage(m)|]
  }

  /** The frame carries the message, whole, with an answer or something captured behind it. */
  predicate Carries(x: Frame, m: Message, tail: Octets) {
    && ValidFrame(x) && ValidMessage(m) && x.payload == EncodeMessage(m) + tail && |EncodeMessage(m)| <= 512
    && (m.answers != [] || CutTail(m, tail) != [])
  }

  lemma CarriedPayload(fmt: Formatter, cursor: Cursor, x: Frame, m: Message, tail: Octets, ts: nat)
    requires Carries(x, m, tail)
    ensures CaptureOf(x).payloadOffset < |EncodeFrame(x)|
    ensures ParseCapture(fmt, cursor, EncodeFrame(x), CaptureOf(x), ts) ==
              ParsePayload(fmt, cursor, EncodeMessage(m) + CutTail(m, tail), FrameSlot(fmt, x, ts))
  {
    CaptureIsPayloadPrefix(fmt, cursor, x, ts);
    CutMessage(EncodeMessage(m), tail);
  }

  /**
   * End to end: a UDP frame from port 53 that carries an encoded response of at most 512 octets
   * yields the header's own addresses and ports and the message's own name and addresses: as
   * written for up to one answer, with the intended cursor for any number.
   */
  lemma FrameToResponse(fmt: Formatter, cursor: Cursor, x: Frame, m: Message, tail: Octets, ts: nat)
    requires Carries(x, m, tail) && (cursor.Intended? || |m.answers| <= 1)
    ensures CaptureOf(x).payloadOffset < |EncodeFrame(x)|
    ensures ParseCapture(fmt, cursor, EncodeFrame(x), CaptureOf(x), ts) == Outcome(Ok(()), Expected(fmt, x, m, ts))
  {
    CarriedPayload(fmt, cursor, x, m, tail, ts);
    if cursor.Intended? {
      IntendedRoundTrip(fmt, m, CutTail(m, tail), FrameSlot(fmt, x, ts));
    } else {
      AsWrittenRoundTrip(fmt, m, CutTail(m, tail), FrameSlot(fmt, x, ts));
    }
  }

  /** As written, for any number of answers and any names: the message reported is the one whose answers were seen. */
  lemma FrameAsWritten(fmt: Formatter, x: Frame, m: Message, tail: Octets, ts: nat)
    requires Carries(x, m, tail)
    ensures CaptureOf(x).payloadOffset < |EncodeFrame(x)|
    ensures var seen := SeenAnswers(m, CutTail(m, tail));
            ParseCapture(fmt, AsWritten, EncodeFrame(x), CaptureOf(x), ts) ==
              Outcome(Verdict(seen.failure), Expected(fmt, x, m.(answers := seen.records), ts))
  {
    CarriedPayload(fmt, AsWritten, x, m, tail, ts);
    AsWrittenManyAnswers(fmt, m, CutTail(m, tail), FrameSlot(fmt, x, ts));
  }

  /**
   * In terms of the running pipeline: the response such a frame stands for. It is the message itself
   * for up to one answer, and the first answer repeated while the code stays on it.
   */
  lemma FrameStandsForMessage(cfg: Config, x: Frame, m: Message, tail: Octets, ts: nat)
    requires Carries(x, m, tail)
    ensures var seen := SeenAnswers(m, CutTail(m, tail));
            var response := FrameResponse(cfg, Arrival(EncodeFrame(x), ts));
            && response == (if seen.failure.None? then Some(Expected(cfg.fmt, x, m.(answers := seen.records), ts)) else None)
            && (|m.answers| <= 1 ==> response == Some(Expected(cfg.fmt, x, m, ts)))
            && (m.answers != [] && StaysOnFirst(m.answers) ==>
                  response == Some(Expected(cfg.fmt, x, m.(answers := Repeat(m.answers[0], |m.answers|)), ts)))
  {
    ClassifyComplete(x);
    FrameAsWritten(cfg.fmt, x, m, tail, ts);
    var slot, cut := FrameSlot(cfg.fmt, x, ts), CutTail(m, tail);
    AsWrittenManyAnswers(cfg.fmt, m, cut, slot);
    if |m.answers| <= 1 {
      AsWrittenRoundTrip(cfg.fmt, m, cut, slot);
    }
    if m.answers != [] && StaysOnFirst(m.answers) {
      MessageRepeatsFirst(cfg.fmt, m, cut, slot);
    }
  }

  /** The address is in the allowed map, or the map has no room left. */
  predicate Allowed(addr: RawIpAddr, s: State) {
    addr in s.parser.ips || |s.parser.ips| == MAP_CAPACITY
  }

  /** The response is in queue two or in the log. */
  predicate Delivered(m: DnsResponse, s: State) {
    m in s.q2 || m in s.writer.written
  }

  /** The frame's response has got that far. */
  predicate Reached(cfg: Config, a: Arrival, s: State) {
    FrameResponse(cfg, a).Some? && Delivered(FrameResponse(cfg, a).value, s)
  }

  /** What is delivered has its key in the map. */
  lemma DeliveredKeyIsAllowed(cfg: Config, start: State, run: seq<Action>, m: DnsResponse)
    requires Fresh(start) && Delivered(m, After(cfg, start, run))
    requires m.domainName in cfg.domains && ChooseKey(m).Key?
    ensures Allowed(ChooseKey(m).addr, After(cfg, start, run))
  {
    PolicyBeforeLog(cfg, start, run);
    assert Covered(cfg, After(cfg, start, run).parser.ips, m);
  }

  /** The key chosen for the response of such a frame. */
  lemma KeyOfFrame(cfg: Config, x: Frame, m: Message, tail: Octets, ts: nat)
    requires Carries(x, m, tail) && FrameResponse(cfg, Arrival(EncodeFrame(x), ts)).Some?
    ensures var response := FrameResponse(cfg, Arrival(EncodeFrame(x), ts)).value;
            var seen := SeenAnswers(m, CutTail(m, tail)).records;
            && response.domainName == Join(m.qname)
            && ValidRecords(seen) && KeyFits(ChooseKey(response), seen)
            && (m.answers != [] && StaysOnFirst(m.answers) ==>
                  ChooseKey(response) == if IsAddress(m.answers[0]) then Key(AddressOf(m.answers[0])) else NoKnownFamily)
  {
    FrameStandsForMessage(cfg, x, m, tail, ts);
    var slot, cut := FrameSlot(cfg.fmt, x, ts), CutTail(m, tail);
    AsWrittenManyAnswers(cfg.fmt, m, cut, slot);
    KeyAsWritten(cfg.fmt, m, cut, slot);
  }

  /**
   * Policy, end to end, for any number of answers: once the response of such a frame, for an allowed domain,
   * is in queue two or in the log, the first address seen is in the allowed map, or the map is full, provided
   * first and last are of one type. While the code stays on the first answer, that is the first answer sent.
   */
  lemma LoggedAddressIsAllowed(cfg: Config, start: State, run: seq<Action>, x: Frame, m: Message, tail: Octets, ts: nat)
    requires Fresh(start) && Carries(x, m, tail)
    ensures var s, found := After(cfg, start, run), Addresses(SeenAnswers(m, CutTail(m, tail)).records);
            && AllValid(found)
            && (Reached(cfg, Arrival(EncodeFrame(x), ts), s) && Join(m.qname) in cfg.domains ==>
                  && (found != [] && found[0].rtype == found[|found| - 1].rtype ==> Allowed(AddressOf(found[0]), s))
                  && (m.answers != [] && StaysOnFirst(m.answers) && IsAddress(m.answers[0]) ==>
                        Allowed(AddressOf(m.answers[0]), s)))
  {
    var s, a := After(cfg, start, run), Arrival(EncodeFrame(x), ts);
    SeenValid(AsWritten, EncodeRecords(m.answers) + CutTail(m, tail), 0, |m.answers|);
    AddressesValid(SeenAnswers(m, CutTail(m, tail)).records);
    if Reached(cfg, a, s) && Join(m.qname) in cfg.domains {
      KeyOfFrame(cfg, x, m, tail, ts);
      var response := FrameResponse(cfg, a).value;
      if ChooseKey(response).Key? {
        DeliveredKeyIsAllowed(cfg, start, run, response);
      }
    }
  }

  lemma NoKeys(keys: set<RawIpAddr>)
    requires KeysOf(keys, [])
    ensures keys == {}
  {
  }

  /** The documented keys and the engine's key for a record seen again and again. */
  lemma KeysOfRepetition(fmt: Formatter, slot: DnsResponse, r: Record, n: nat)
    requires ValidRecord(r) && n > 0 && slot.resolvedIpRaw == [] && slot.ipFamily == 0
    ensures var out := WithAnswers(fmt, slot, Repeat(r, n));
            if IsAddress(r) then IntendedKeys(out) == {AddressOf(r)} && ChooseKey(out) == Key(AddressOf(r))
            else IntendedKeys(out) == {} && ChooseKey(out) == NoKnownFamily
  {
    RepeatFacts(r, n);
    KeyOfAnswers(fmt, slot, Repeat(r, n));
    if IsAddress(r) {
      FirstChunkOnly(fmt, slot, Repeat(r, n), r.rtype);
    } else {
      IntendedKeysExact(fmt, slot, Repeat(r, n), TYPE_A);
      NoKeys(IntendedKeys(WithAnswers(fmt, slot, Repeat(r, n))));
    }
  }

  /**
   * Two shortcuts compound: for answers whose addresses are of one type the documented policy would allow every
   * address. As written it is those of the answers seen; while the code stays on the first answer, that one alone
   * or none, both for the documented policy and for the engine as it is.
   */
  lemma OnlyFirstAddressReachesPolicy(fmt: Formatter, m: Message, tail: Octets, slot: DnsResponse, rtype: U16)
    requires ValidMessage(m) && Blank(slot) && m.answers != []
    requires (rtype == TYPE_A || rtype == TYPE_AAAA) && OneType(Addresses(m.answers), rtype)
    ensures AllValid(Addresses(m.answers)) && AllValid(Addresses(SeenAnswers(m, tail).records))
    ensures KeysOf(IntendedKeys(ParsePayload(fmt, Intended, EncodeMessage(m) + tail, slot).slot), Addresses(m.answers))
    ensures var out, found := ParsePayload(fmt, AsWritten, EncodeMessage(m) + tail, slot).slot, Addresses(SeenAnswers(m, tail).records);
            && (OneType(found, rtype) ==> KeysOf(IntendedKeys(out), found))
            && (StaysOnFirst(m.answers) ==>
                  if IsAddress(m.answers[0])
                  then IntendedKeys(out) == {AddressOf(m.answers[0])} && ChooseKey(out) == Key(AddressOf(m.answers[0]))
                  else IntendedKeys(out) == {} && ChooseKey(out) == NoKnownFamily)
  {
    var named, seen := slot.(domainName := Join(m.qname)), SeenAnswers(m, tail).records;
    IntendedRoundTrip(fmt, m, tail, slot);
    IntendedKeysExact(fmt, named, m.answers, rtype);
    SeenValid(AsWritten, EncodeRecords(m.answers) + tail, 0, |m.answers|);
    AddressesValid(seen);
    AsWrittenManyAnswers(fmt, m, tail, slot);
    if OneType(Addresses(seen), rtype) {
      IntendedKeysExact(fmt, named, seen, rtype);
    }
    if StaysOnFirst(m.answers) {
      MessageRepeatsFirst(fmt, m, tail, slot);
      KeysOfRepetition(fmt, named, m.answers[0], |m.answers|);
    }
  }
}
