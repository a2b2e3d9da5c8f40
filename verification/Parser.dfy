/**
 * `parse_dns_into` as a function of the event alone: verdict and final slot contents, on
 * success and on failure. Previous slot contents are not an argument, so equality with this
 * function (module ParserSlot) is independence of whatever the reused slot held before.
 */
module Parser {
  import opened Bytes
  import opened Wire
  import opened Common
  import opened Names
  import opened Answers
  import opened Sightings

  const DNS_HDR_LEN: nat := 12

  datatype DnsHdr = DnsHdr(
    transactionId: U16, flags: U16, questions: U16, answerRrs: U16, authorityRrs: U16, additionalRrs: U16)

  function ReadHeader(p: Octets): Result<DnsHdr> {
    if |p| < DNS_HDR_LEN then Err(UnexpectedEndOfPayload)
    else Ok(DnsHdr(Read16(p, 0), Read16(p, 2), Read16(p, 4), Read16(p, 6), Read16(p, 8), Read16(p, 10)))
  }

  /** Everything behind the addresses and ports: header, question, answers. */
  function ParsePayload(fmt: Formatter, cursor: Cursor, d: Octets, slot: DnsResponse): Outcome {
    if |d| < DNS_HDR_LEN then Outcome(Err(UnexpectedEndOfPayload), slot)
    else
      var q := ParseQName(d[12..], slot.domainName);
      BehindName(fmt, cursor, d, q.result, slot.(domainName := q.out))
  }

  /** What follows the name of the question, given how that went. */
  function BehindName(fmt: Formatter, cursor: Cursor, d: Octets, name: Result<nat>, named: DnsResponse): Outcome
    requires |d| >= DNS_HDR_LEN
  {
    match name
    case Err(e) => Outcome(Err(e), named)
    case Ok(n) =>
      var ancount := ReadHeader(d).value.answerRrs;
      var start := DNS_HDR_LEN + n + 4;
      if start > |d| then Outcome(Err(UnexpectedEndOfPayload), named)
      else ParseRdata(fmt, cursor, d[start..], ancount, named)
  }

  function IpText(fmt: Formatter, ip: RawIpAddr): Result<Text> {
    if ip.family == AF_INET then Ok(fmt.ipv4(ip.bytes[..4]))
    else if ip.family == AF_INET6 then Ok(fmt.ipv6(ip.bytes))
    else Err(UnsupportedAddressFamily(ip.family))
  }

  predicate KnownFamily(ip: RawIpAddr) {
    ip.family == AF_INET || ip.family == AF_INET6
  }

  /** The payload is sliced only once both addresses are known; then its length has to fit the buffer. */
  predicate EventInBounds(ev: RawDnsEvent) {
    KnownFamily(ev.srcIp) && KnownFamily(ev.dstIp) ==> ev.payloadLen <= MAX_DNS_PAYLOAD_SIZE
  }

  /** The slot once addresses, ports and time have been copied. */
  function Addressed(src: Text, dst: Text, ev: RawDnsEvent): DnsResponse {
    DnsResponse(src, dst, ev.srcPort, ev.dstPort, ev.timestampNs, [], [], [], 0)
  }

  function ParseEvent(fmt: Formatter, cursor: Cursor, ev: RawDnsEvent): Outcome
    requires EventInBounds(ev)
  {
    match IpText(fmt, ev.srcIp)
    case Err(e) => Outcome(Err(e), EMPTY_RESPONSE)
    case Ok(src) =>
      match IpText(fmt, ev.dstIp)
      case Err(e) => Outcome(Err(e), EMPTY_RESPONSE.(srcIp := src))
      case Ok(dst) => ParsePayload(fmt, cursor, ev.payload[..ev.payloadLen], Addressed(src, dst, ev))
  }

  // ----------------------------------------------------------------- messages

  /** What a message adds to a slot that holds no name yet. */
  function WithMessage(fmt: Formatter, slot: DnsResponse, m: Message): DnsResponse {
    WithAnswers(fmt, slot.(domainName := Join(m.qname)), m.answers)
  }

  lemma HeaderLayout(m: Message, rest: Octets)
    requires |m.answers| < 0x1_0000
    ensures var d := EncodeHeader(m) + rest;
            |EncodeHeader(m)| == 12 && d[12..] == rest && |d| >= 12 && Read16(d, 6) == |m.answers|
  {
    var h := EncodeHeader(m);
    assert h[6] == |m.answers| / 0x100 && h[7] == |m.answers| % 0x100;
  }

  lemma BehindQuestion(d: Octets, q: Octets, mid: Octets, ans: Octets)
    requires |d| >= 12 && d[12..] == q + (mid + ans)
    ensures 12 + |q| + |mid| <= |d| && d[12 + |q| + |mid|..] == ans
  {
    assert d[12..][|q|..] == mid + ans;
    assert d[12..][|q| + |mid|..] == ans;
  }

  /** The three parts of a payload, in terms of which `ParsePayload` is computed. */
  lemma PayloadParts(fmt: Formatter, cursor: Cursor, d: Octets, slot: DnsResponse, ls: seq<Label>, mid: Octets, ans: Octets)
    requires |d| >= 12 && ValidQName(ls) && |mid| == 4 && slot.domainName == []
    requires d[12..] == EncodeQName(ls) + (mid + ans)
    ensures ParsePayload(fmt, cursor, d, slot) == ParseRdata(fmt, cursor, ans, Read16(d, 6), slot.(domainName := Join(ls)))
  {
    QNameRoundTrip(ls, mid + ans, []);
    BehindQuestion(d, EncodeQName(ls), mid, ans);
  }

  lemma MessageLayout(m: Message, tail: Octets)
    requires ValidMessage(m)
    ensures var d := EncodeMessage(m) + tail;
            && |d| >= 12 && Read16(d, 6) == |m.answers|
            && d[12..] == EncodeQName(m.qname) + ((Be16(m.qtype) + Be16(m.qclass)) + (EncodeRecords(m.answers) + tail))
  {
    var q, mid, ans := EncodeQName(m.qname), Be16(m.qtype) + Be16(m.qclass), EncodeRecords(m.answers);
    Assoc(EncodeHeader(m), EncodeQuestion(m) + ans, tail);
    HeaderLayout(m, (EncodeQuestion(m) + ans) + tail);
    Assoc(EncodeQuestion(m), ans, tail);
    Assoc(q, mid, ans + tail);
  }

  /** How an encoded message reaches the answer walk, under either cursor. */
  lemma MessageToAnswers(fmt: Formatter, cursor: Cursor, m: Message, tail: Octets, slot: DnsResponse)
    requires ValidMessage(m) && slot.domainName == []
    ensures ParsePayload(fmt, cursor, EncodeMessage(m) + tail, slot) ==
              ParseRdata(fmt, cursor, EncodeRecords(m.answers) + tail, |m.answers|, slot.(domainName := Join(m.qname)))
  {
    MessageLayout(m, tail);
    PayloadParts(fmt, cursor, EncodeMessage(m) + tail, slot, m.qname,
                 Be16(m.qtype) + Be16(m.qclass), EncodeRecords(m.answers) + tail);
  }

  lemma SomethingFollows(rs: seq<Record>, tail: Octets)
    requires ValidRecords(rs)
    ensures EncodeRecords(rs) + tail != [] <==> rs != [] || tail != []
  {
    RecordsSize(rs);
  }

  /**
   * Round trip, intended cursor: any number of answers, any trailing octets. An empty answer
   * section parses only when something follows it.
   */
  lemma IntendedRoundTrip(fmt: Formatter, m: Message, tail: Octets, slot: DnsResponse)
    requires ValidMessage(m) && slot.domainName == []
    ensures var out := ParsePayload(fmt, Intended, EncodeMessage(m) + tail, slot);
            if m.answers != [] || tail != [] then out == Outcome(Ok(()), WithMessage(fmt, slot, m))
            else Truncated(out.result)
  {
    MessageToAnswers(fmt, Intended, m, tail, slot);
    SomethingFollows(m.answers, tail);
    var named, p := slot.(domainName := Join(m.qname)), EncodeRecords(m.answers) + tail;
    IntendedComplete(fmt, [], m.answers, tail, named);
    assert [] + p == p;
  }

  /** Up to one answer the code computes the intended function on every payload, encoded or not. */
  lemma PayloadCursorsAgree(fmt: Formatter, d: Octets, slot: DnsResponse)
    requires |d| >= 12 ==> Read16(d, 6) <= 1
    ensures ParsePayload(fmt, AsWritten, d, slot) == ParsePayload(fmt, Intended, d, slot)
  {
    if |d| >= 12 {
      var q := ParseQName(d[12..], slot.domainName);
      if q.result.Ok? && 12 + q.result.value + 4 <= |d| {
        CursorsAgree(fmt, d[12 + q.result.value + 4..], Read16(d, 6), slot.(domainName := q.out));
      }
    }
  }

  /** Round trip as written: guaranteed for at most one answer. */
  lemma AsWrittenRoundTrip(fmt: Formatter, m: Message, tail: Octets, slot: DnsResponse)
    requires ValidMessage(m) && slot.domainName == [] && |m.answers| <= 1
    ensures var out := ParsePayload(fmt, AsWritten, EncodeMessage(m) + tail, slot);
            if m.answers != [] || tail != [] then out == Outcome(Ok(()), WithMessage(fmt, slot, m))
            else Truncated(out.result)
  {
    MessageLayout(m, tail);
    PayloadCursorsAgree(fmt, EncodeMessage(m) + tail, slot);
    IntendedRoundTrip(fmt, m, tail, slot);
  }

  /** What the code sees of a message's answers, when `tail` follows them. */
  function SeenAnswers(m: Message, tail: Octets): Sighting
    requires ValidMessage(m)
  {
    Seen(AsWritten, EncodeRecords(m.answers) + tail, 0, |m.answers|)
  }

  /** As written, for any number of answers and any names: the message reported is the one whose answers were seen. */
  lemma AsWrittenManyAnswers(fmt: Formatter, m: Message, tail: Octets, slot: DnsResponse)
    requires ValidMessage(m) && slot.domainName == [] && (m.answers != [] || tail != [])
    ensures var seen := SeenAnswers(m, tail);
            ParsePayload(fmt, AsWritten, EncodeMessage(m) + tail, slot) ==
              Outcome(Verdict(seen.failure), WithMessage(fmt, slot, m.(answers := seen.records)))
  {
    MessageToAnswers(fmt, AsWritten, m, tail, slot);
    SomethingFollows(m.answers, tail);
    OutcomeIsSeen(fmt, AsWritten, EncodeRecords(m.answers) + tail, 0, |m.answers|, slot.(domainName := Join(m.qname)));
  }

  /** With equally long first two names that is the first answer, once per answer. */
  lemma MessageRepeatsFirst(fmt: Formatter, m: Message, tail: Octets, slot: DnsResponse)
    requires ValidMessage(m) && slot.domainName == [] && m.answers != [] && StaysOnFirst(m.answers)
    ensures ParsePayload(fmt, AsWritten, EncodeMessage(m) + tail, slot) ==
              Outcome(Ok(()), WithMessage(fmt, slot, m.(answers := Repeat(m.answers[0], |m.answers|))))
  {
    AsWrittenManyAnswers(fmt, m, tail, slot);
    AsWrittenRepeatsFirst(m.answers, tail);
    PlainRepeats(fmt, slot.(domainName := Join(m.qname)), m.answers[0], |m.answers|);
  }

  /** The usual response, with every owner name compressed to a pointer, is always of that kind. */
  lemma PointersRepeatFirst(fmt: Formatter, m: Message, tail: Octets, slot: DnsResponse)
    requires ValidMessage(m) && slot.domainName == [] && m.answers != [] && AllPointers(m.answers)
    ensures ParsePayload(fmt, AsWritten, EncodeMessage(m) + tail, slot) ==
              Outcome(Ok(()), WithMessage(fmt, slot, m.(answers := Repeat(m.answers[0], |m.answers|))))
  {
    PointersStayOnFirst(m.answers);
    MessageRepeatsFirst(fmt, m, tail, slot);
  }

  /**
   * Divergence, exactly, in terms of what was sent: for one answer or equally long first two names, the raw
   * bytes are the intended ones if and only if the address data of the message is the first answer's, repeated.
   */
  lemma MessageRepetitionAgreement(fmt: Formatter, m: Message, tail: Octets, slot: DnsResponse)
    requires ValidMessage(m) && slot.domainName == [] && m.answers != [] && StaysOnFirst(m.answers)
    ensures var code := ParsePayload(fmt, AsWritten, EncodeMessage(m) + tail, slot);
            var spec := ParsePayload(fmt, Intended, EncodeMessage(m) + tail, slot);
            && code.result.Ok? && spec.result.Ok?
            && (code.slot.resolvedIpRaw == spec.slot.resolvedIpRaw <==>
                  RawOf(m.answers) == RawOf(Repeat(m.answers[0], |m.answers|)))
  {
    MessageRepeatsFirst(fmt, m, tail, slot);
    IntendedRoundTrip(fmt, m, tail, slot);
    SameBehind(slot.resolvedIpRaw, RawOf(Repeat(m.answers[0], |m.answers|)), RawOf(m.answers));
  }

  /** For every message, the raw bytes are the intended ones exactly when those of the answers seen are. */
  lemma MessageRawAgreement(fmt: Formatter, m: Message, tail: Octets, slot: DnsResponse)
    requires ValidMessage(m) && slot.domainName == [] && (m.answers != [] || tail != [])
    ensures var code := ParsePayload(fmt, AsWritten, EncodeMessage(m) + tail, slot);
            var spec := ParsePayload(fmt, Intended, EncodeMessage(m) + tail, slot);
            code.slot.resolvedIpRaw == spec.slot.resolvedIpRaw <==>
              RawOf(SeenAnswers(m, tail).records) == RawOf(m.answers)
  {
    MessageToAnswers(fmt, AsWritten, m, tail, slot);
    MessageToAnswers(fmt, Intended, m, tail, slot);
    SomethingFollows(m.answers, tail);
    RawAgreement(fmt, m.answers, tail, slot.(domainName := Join(m.qname)));
  }

  // ---------------------------------------------------------------- soundness

  lemma HeaderSound(d: Octets, m: Message)
    requires |d| >= 12 && |m.answers| == Read16(d, 6)
    requires m.id == Read16(d, 0) && m.flags == Read16(d, 2) && m.qdcount == Read16(d, 4)
    requires m.nscount == Read16(d, 8) && m.arcount == Read16(d, 10)
    ensures EncodeHeader(m) == d[0..12]
  {
    Be16Read16(d, 0);
    Be16Read16(d, 2);
    Be16Read16(d, 4);
    Be16Read16(d, 6);
    Be16Read16(d, 8);
    Be16Read16(d, 10);
    Adjacent(d, 0, 2, 4);
    Adjacent(d, 0, 4, 6);
    Adjacent(d, 0, 6, 8);
    Adjacent(d, 0, 8, 10);
    Adjacent(d, 0, 10, 12);
  }

  lemma FourOctets(s: Octets)
    requires |s| >= 4
    ensures s == (Be16(Read16(s, 0)) + Be16(Read16(s, 2))) + s[4..]
  {
    Be16Read16(s, 0);
    Be16Read16(s, 2);
    Adjacent(s, 0, 2, 4);
    Adjacent(s, 0, 4, |s|);
  }

  lemma AssembleMessage(d: Octets, m: Message, tail: Octets, after: Octets)
    requires |d| >= 12 && ValidMessage(m) && EncodeHeader(m) == d[0..12]
    requires d[12..] == EncodeQName(m.qname) + after
    requires after == (Be16(m.qtype) + Be16(m.qclass)) + (EncodeRecords(m.answers) + tail)
    ensures d == EncodeMessage(m) + tail
  {
    var q, mid, ans := EncodeQName(m.qname), Be16(m.qtype) + Be16(m.qclass), EncodeRecords(m.answers);
    Assoc(q, mid, ans + tail);
    Assoc(EncodeQuestion(m), ans, tail);
    Assoc(EncodeHeader(m), EncodeQuestion(m) + ans, tail);
    Adjacent(d, 0, 12, |d|);
  }

  /** What acceptance means for the parts: a name, four octets, and a non-empty section that is read in full. */
  lemma AcceptedParts(fmt: Formatter, d: Octets, slot: DnsResponse)
    requires slot.domainName == [] && ParsePayload(fmt, Intended, d, slot).result.Ok?
    ensures |d| >= 12 && ParseQName(d[12..], []).result.Ok?
    ensures var q := ParseQName(d[12..], []);
            var start := 12 + q.result.value + 4;
            && start < |d| && Succeeds(fmt, Intended, d[start..], 0, Read16(d, 6), slot.(domainName := q.out))
  {
  }

  /** The same octets, counted from the name and counted from the front. */
  lemma AfterName(d: Octets, q: Octets, after: Octets)
    requires |d| >= 12 && d[12..] == q + after && 12 + |q| + 4 <= |d|
    ensures |after| >= 4 && d[12 + |q| + 4..] == after[4..]
  {
    assert after == d[12..][|q|..];
    assert d[12..][|q|..][4..] == d[12 + |q| + 4..];
  }

  /** Whatever the intended parser accepts is an encoded message, followed by some octets; both are returned. */
  lemma PayloadSound(fmt: Formatter, d: Octets, slot: DnsResponse) returns (m: Message, tail: Octets)
    requires slot.domainName == [] && ParsePayload(fmt, Intended, d, slot).result.Ok?
    ensures ValidMessage(m) && d == EncodeMessage(m) + tail && (m.answers != [] || tail != [])
  {
    AcceptedParts(fmt, d, slot);
    var ls, after := QNameWitness(d[12..]);
    AfterName(d, EncodeQName(ls), after);
    var rs;
    rs, tail := SectionSound(fmt, after[4..], Read16(d, 6), slot.(domainName := Join(ls)));
    m := MessageFrom(d, ls, after, rs, tail);
  }

  lemma SectionSound(fmt: Formatter, p: Octets, k: nat, slot: DnsResponse) returns (rs: seq<Record>, tail: Octets)
    requires p != [] && Succeeds(fmt, Intended, p, 0, k, slot)
    ensures |rs| == k && ValidRecords(rs) && p == EncodeRecords(rs) + tail && (rs != [] || tail != [])
  {
    rs, tail := IntendedSound(fmt, p, 0, k, slot);
    assert p[0..] == p;
    SomethingFollows(rs, tail);
  }

  /** The message those parts are. */
  lemma MessageFrom(d: Octets, ls: seq<Label>, after: Octets, rs: seq<Record>, tail: Octets) returns (m: Message)
    requires |d| >= 12 && ValidQName(ls) && d[12..] == EncodeQName(ls) + after && |after| >= 4
    requires ValidRecords(rs) && |rs| == Read16(d, 6) && after[4..] == EncodeRecords(rs) + tail
    ensures ValidMessage(m) && m.answers == rs && d == EncodeMessage(m) + tail
  {
    m := Message(Read16(d, 0), Read16(d, 2), Read16(d, 4), Read16(d, 8), Read16(d, 10),
                 ls, Read16(after, 0), Read16(after, 2), rs);
    HeaderSound(d, m);
    FourOctets(after);
    AssembleMessage(d, m, tail, after);
  }

  /** The intended parser accepts exactly the encoded messages with an answer or something behind them. */
  lemma IntendedExact(fmt: Formatter, d: Octets, slot: DnsResponse)
    requires slot.domainName == []
    ensures ParsePayload(fmt, Intended, d, slot).result.Ok? <==>
              exists m, tail :: ValidMessage(m) && d == EncodeMessage(m) + tail && (m.answers != [] || tail != [])
    ensures forall m, tail | ValidMessage(m) && d == EncodeMessage(m) + tail && (m.answers != [] || tail != []) ::
              ParsePayload(fmt, Intended, d, slot) == Outcome(Ok(()), WithMessage(fmt, slot, m))
  {
    forall m, tail | ValidMessage(m) && d == EncodeMessage(m) + tail && (m.answers != [] || tail != [])
      ensures ParsePayload(fmt, Intended, d, slot) == Outcome(Ok(()), WithMessage(fmt, slot, m))
    {
      IntendedRoundTrip(fmt, m, tail, slot);
    }
    if ParsePayload(fmt, Intended, d, slot).result.Ok? {
      var m, tail := PayloadSound(fmt, d, slot);
    }
  }

  // ---------------------------------------------------------------------- errors

  /** All six header fields, as section 4.1.1 of RFC 1035 orders them. */
  lemma HeaderRead(m: Message, rest: Octets)
    requires |m.answers| < 0x1_0000
    ensures ReadHeader(EncodeHeader(m) + rest) == Ok(DnsHdr(m.id, m.flags, m.qdcount, |m.answers|, m.nscount, m.arcount))
  {
    var h := EncodeHeader(m);
    assert h == [m.id / 256, m.id % 256, m.flags / 256, m.flags % 256, m.qdcount / 256, m.qdcount % 256,
                 |m.answers| / 256, |m.answers| % 256, m.nscount / 256, m.nscount % 256, m.arcount / 256, m.arcount % 256];
    assert forall i :: 0 <= i < 12 ==> (h + rest)[i] == h[i];
  }

  lemma HeaderThen(h: Octets, x: Octets)
    requires |h| == 12
    ensures |h + x| >= 12 && (h + x)[12..] == x && Read16(h + x, 6) == Read16(h, 6)
  {
  }

  /** Every way to fail in the question, behind any labels: the error of the parse, and the labels that stay in the slot. */
  lemma QuestionErrors(fmt: Formatter, cursor: Cursor, h: Octets, ls: seq<Label>, rest: Octets, slot: DnsResponse)
    requires |h| == 12 && ValidQName(ls) && slot.domainName == []
    ensures var out, named := ParsePayload(fmt, cursor, h + (EncodeLabels(ls) + rest), slot), slot.(domainName := Join(ls));
            && (rest == [] ==> out == Outcome(Err(UnexpectedEndOfPayload), named))
            && (rest != [] && rest[0] > 63 ==> out == Outcome(Err(InvalidLabelLength(rest[0])), named))
            && (rest != [] && 1 <= rest[0] <= 63 ==>
                  if 1 + rest[0] > |rest| then out == Outcome(Err(UnexpectedEndOfPayload), named)
                  else if |EncodeLabels(ls)| + rest[0] + 1 > 255 then out == Outcome(Err(LabelExceedsMaxLen), named)
                  else !Ascii(rest[1..1 + rest[0]]) ==> out == Outcome(Err(NonAsciiDomainName), named))
            && (rest != [] && rest[0] == 0 && |rest| <= 5 ==> out == Outcome(Err(UnexpectedEndOfPayload), named))
  {
    HeaderThen(h, EncodeLabels(ls) + rest);
    QNameErrors(ls, rest, []);
    assert Extend([], ls) == Join(ls);
    if rest != [] && rest[0] == 0 && |rest| <= 5 {
      assert rest == [0] + rest[1..];
      Assoc(EncodeLabels(ls), [0], rest[1..]);
      QNameRoundTrip(ls, rest[1..], []);
    }
  }

  lemma AnswersReached(fmt: Formatter, cursor: Cursor, h: Octets, ls: seq<Label>, mid: Octets, ans: Octets, slot: DnsResponse)
    requires |h| == 12 && ValidQName(ls) && |mid| == 4 && slot.domainName == []
    ensures ParsePayload(fmt, cursor, h + (EncodeQName(ls) + (mid + ans)), slot) ==
              ParseRdata(fmt, cursor, ans, Read16(h, 6), slot.(domainName := Join(ls)))
  {
    HeaderThen(h, EncodeQName(ls) + (mid + ans));
    PayloadParts(fmt, cursor, h + (EncodeQName(ls) + (mid + ans)), slot, ls, mid, ans);
  }

  /** The error for a section whose next owner name cannot be skipped. */
  lemma SectionFails(fmt: Formatter, cursor: Cursor, rs: seq<Record>, bad: Octets, k: U16, slot: DnsResponse)
    requires ValidRecords(rs) && |rs| < k && (cursor.Intended? || |rs| <= 1) && SkipName(bad).Err?
    ensures ParseRdata(fmt, cursor, EncodeRecords(rs) + bad, k, slot) ==
              Outcome(Err(SkipName(bad).error), WithAnswers(fmt, slot, rs))
  {
    SectionErrors(fmt, cursor, rs, bad, k, slot);
    SomethingFollows(rs, bad);
    NothingStored(fmt, slot);
  }

  /**
   * Every way to fail in an owner name, behind any records and any labels: the error of the parse, and the
   * addresses that stay in the slot. As written, with up to one record in front.
   */
  lemma AnswerErrors(fmt: Formatter, cursor: Cursor, h: Octets, ls: seq<Label>, mid: Octets,
                     rs: seq<Record>, ns: seq<Label>, rest: Octets, slot: DnsResponse)
    requires |h| == 12 && ValidQName(ls) && |mid| == 4 && slot.domainName == []
    requires ValidRecords(rs) && |rs| < Read16(h, 6) && (cursor.Intended? || |rs| <= 1) && ValidLabels(ns)
    ensures var section := EncodeRecords(rs) + (EncodeLabels(ns) + rest);
            var out := ParsePayload(fmt, cursor, h + (EncodeQName(ls) + (mid + section)), slot);
            var kept := WithAnswers(fmt, slot.(domainName := Join(ls)), rs);
            && (rest == [] ==> out == Outcome(Err(UnexpectedEndOfPayload), kept))
            && (rest != [] && 64 <= rest[0] < 0xC0 ==> out == Outcome(Err(InvalidLabelLength(rest[0])), kept))
            && (|rest| == 1 && rest[0] >= 0xC0 ==> out == Outcome(Err(UnexpectedEndOfPayload), kept))
            && (rest != [] && 1 <= rest[0] <= 63 && |rest| < 1 + rest[0] ==>
                  out == Outcome(Err(UnexpectedEndOfPayload), kept))
  {
    var bad, named := EncodeLabels(ns) + rest, slot.(domainName := Join(ls));
    AnswersReached(fmt, cursor, h, ls, mid, EncodeRecords(rs) + bad, slot);
    SkipErrors(ns, rest);
    if SkipName(bad).Err? {
      SectionFails(fmt, cursor, rs, bad, Read16(h, 6), named);
    }
  }

  /** How an event fails before its name is looked at: an unknown family by its number, or a payload without a header. */
  lemma EventErrors(fmt: Formatter, cursor: Cursor, ev: RawDnsEvent)
    requires EventInBounds(ev)
    ensures var out := ParseEvent(fmt, cursor, ev);
            var src := if ev.srcIp.family == 2 then fmt.ipv4(ev.srcIp.bytes[..4]) else fmt.ipv6(ev.srcIp.bytes);
            var dst := if ev.dstIp.family == 2 then fmt.ipv4(ev.dstIp.bytes[..4]) else fmt.ipv6(ev.dstIp.bytes);
            if ev.srcIp.family != 2 && ev.srcIp.family != 10 then
              out == Outcome(Err(UnsupportedAddressFamily(ev.srcIp.family)), DnsResponse([], [], 0, 0, 0, [], [], [], 0))
            else if ev.dstIp.family != 2 && ev.dstIp.family != 10 then
              out == Outcome(Err(UnsupportedAddressFamily(ev.dstIp.family)), DnsResponse(src, [], 0, 0, 0, [], [], [], 0))
            else ev.payloadLen < 12 ==>
              out == Outcome(Err(UnexpectedEndOfPayload),
                             DnsResponse(src, dst, ev.srcPort, ev.dstPort, ev.timestampNs, [], [], [], 0))
  {
  }

  // ---------------------------------------------------------- one response in octets

  /** A response for a.b with the one address 10.0.0.1, owner name compressed. */
  function SampleOctets(): Octets {
    [0x12, 0x34, 0x81, 0x80, 0, 1, 0, 1, 0, 0, 0, 0] +
    ([1, 0x61, 1, 0x62, 0, 0, 1, 0, 1] + [0xC0, 12, 0, 1, 0, 1, 0, 0, 0, 60, 0, 4, 10, 0, 0, 1])
  }

  function SampleMessage(): Message {
    Message(0x1234, 0x8180, 1, 0, 0, [[0x61], [0x62]], 1, 1, [PointerRecord(TYPE_A, 60, [10, 0, 0, 1])])
  }

  lemma SampleRecord()
    ensures ValidRecords(SampleMessage().answers)
    ensures EncodeRecords(SampleMessage().answers) == [0xC0, 12, 0, 1, 0, 1, 0, 0, 0, 60, 0, 4, 10, 0, 0, 1]
  {
    var r := PointerRecord(TYPE_A, 60, [10, 0, 0, 1]);
    assert EncodeName(r.name) == [0xC0, 12];
    SampleFixed(r);
    assert EncodeRecord(r) == [0xC0, 12, 0, 1, 0, 1, 0, 0, 0, 60, 0, 4, 10, 0, 0, 1];
    assert [r][1..] == [];
    assert EncodeRecords([r]) == EncodeRecord(r) + [];
  }

  lemma SampleFixed(r: Record)
    requires r.rtype == 1 && r.rclass == 1 && r.ttl == 60 && |r.rdata| == 4
    ensures EncodeFixed(r) == [0, 1, 0, 1, 0, 0, 0, 60, 0, 4]
  {
    assert Be16(1) == [0, 1] && Be16(4) == [0, 4] && Be32(60) == [0, 0, 0, 60];
  }

  lemma SampleName()
    ensures ValidQName(SampleMessage().qname) && EncodeLabels(SampleMessage().qname) == [1, 0x61, 1, 0x62]
    ensures Join(SampleMessage().qname) == [0x61, 0x2E, 0x62]
  {
    var a: Label, b: Label := [0x61], [0x62];
    var ls := SampleMessage().qname;
    assert ls == [a, b] && ls[1..] == [b] && [b][1..] == [];
    assert EncodeLabels([b]) == LabelOctets(b) + [];
    assert LabelOctets(a) == [1, 0x61] && LabelOctets(b) == [1, 0x62];
  }

  /** These octets, as they are, read as that name and that address. */
  lemma SampleParses(fmt: Formatter, slot: DnsResponse)
    requires slot.domainName == [] && slot.resolvedIpRaw == []
    ensures var out := ParsePayload(fmt, AsWritten, SampleOctets(), slot);
            && out.result.Ok? && out.slot.domainName == [0x61, 0x2E, 0x62]
            && out.slot.resolvedIpRaw == [10, 0, 0, 1] && out.slot.ipFamily == 2
            && out.slot.resolvedIp == slot.resolvedIp + fmt.ipv4([10, 0, 0, 1])
  {
    var m := SampleMessage();
    SampleName();
    SampleRecord();
    SampleEncoded();
    AsWrittenRoundTrip(fmt, m, [], slot);
    assert EncodeMessage(m) + [] == EncodeMessage(m);
    OneStored(fmt, slot.(domainName := Join(m.qname)), m.answers[0]);
  }

  lemma SampleEncoded()
    ensures ValidMessage(SampleMessage()) && EncodeMessage(SampleMessage()) == SampleOctets()
  {
    var m := SampleMessage();
    SampleName();
    SampleRecord();
    assert EncodeHeader(m) == [0x12, 0x34, 0x81, 0x80, 0, 1, 0, 1, 0, 0, 0, 0];
    assert EncodeQuestion(m) == [1, 0x61, 1, 0x62, 0, 0, 1, 0, 1];
  }

  // ------------------------------------------------- truncation, chunks, memory

  /**
   * Truncation stability, for either cursor: a verdict other than "unexpected end" survives any
   * extension of the payload, together with every field of the slot.
   */
  lemma PayloadStable(fmt: Formatter, cursor: Cursor, d: Octets, t: Octets, slot: DnsResponse)
    ensures var out := ParsePayload(fmt, cursor, d, slot);
            !Truncated(out.result) ==> ParsePayload(fmt, cursor, d + t, slot) == out
  {
    if |d| >= 12 {
      var q := ParseQName(d[12..], slot.domainName);
      DropAppend(d, t, 12);
      QNameStable(d[12..], t, 0, slot.domainName);
      BehindNameStable(fmt, cursor, d, t, q.result, slot.(domainName := q.out));
    }
  }

  lemma BehindNameStable(fmt: Formatter, cursor: Cursor, d: Octets, t: Octets, name: Result<nat>, named: DnsResponse)
    requires |d| >= 12
    ensures var out := BehindName(fmt, cursor, d, name, named);
            !Truncated(out.result) ==> BehindName(fmt, cursor, d + t, name, named) == out
  {
    if name.Ok? && 12 + name.value + 4 <= |d| {
      var start := 12 + name.value + 4;
      assert Read16(d + t, 6) == Read16(d, 6);
      DropAppend(d, t, start);
      AnswersStable(fmt, cursor, d[start..], t, 0, Read16(d, 6), named);
    }
  }

  /** Cutting a payload anywhere gives the same outcome or "unexpected end", never another answer. */
  lemma CutNeverLies(fmt: Formatter, cursor: Cursor, d: Octets, cut: nat, slot: DnsResponse)
    requires cut <= |d|
    ensures var short := ParsePayload(fmt, cursor, d[..cut], slot);
            short == ParsePayload(fmt, cursor, d, slot) || Truncated(short.result)
  {
    PayloadStable(fmt, cursor, d[..cut], d[cut..], slot);
    assert d == d[..cut] + d[cut..];
  }

  /** As written, every parse leaves family and raw bytes consistent: what the policy engine needs. */
  lemma EventChunkSafe(fmt: Formatter, cursor: Cursor, ev: RawDnsEvent)
    requires EventInBounds(ev)
    ensures ChunkSafe(ParseEvent(fmt, cursor, ev).slot)
  {
    if IpText(fmt, ev.srcIp).Ok? && IpText(fmt, ev.dstIp).Ok? {
      var slot := Addressed(IpText(fmt, ev.srcIp).value, IpText(fmt, ev.dstIp).value, ev);
      PayloadChunkSafe(fmt, cursor, ev.payload[..ev.payloadLen], slot);
    }
  }

  lemma PayloadChunkSafe(fmt: Formatter, cursor: Cursor, d: Octets, slot: DnsResponse)
    requires ChunkSafe(slot)
    ensures ChunkSafe(ParsePayload(fmt, cursor, d, slot).slot)
  {
    if |d| >= 12 {
      var q := ParseQName(d[12..], slot.domainName);
      if q.result.Ok? && 12 + q.result.value + 4 <= |d| {
        AnswersChunkSafe(fmt, cursor, d[12 + q.result.value + 4..], 0, Read16(d, 6), slot.(domainName := q.out));
      }
    }
  }

  /** Two events that differ only behind `payload_len` parse alike: stale buffer bytes are never read. */
  lemma StaleBytesIgnored(fmt: Formatter, cursor: Cursor, a: RawDnsEvent, b: RawDnsEvent)
    requires a.payloadLen <= MAX_DNS_PAYLOAD_SIZE && b == a.(payload := b.payload)
    requires a.payload[..a.payloadLen] == b.payload[..a.payloadLen]
    ensures ParseEvent(fmt, cursor, a) == ParseEvent(fmt, cursor, b)
  {
  }
}
