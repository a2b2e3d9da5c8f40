/** What every step of the topology keeps, and hence what holds after every run. */
module TopologyInvariants {
  import opened Bytes
  import opened Common
  import opened Answers
  import opened Parser
  import opened Classifier
  import opened Policy
  import opened CommitLog
  import opened Subsequences
  import opened Topology

  // ------------------------------------------------------------- bounds and panics

  predicate SafeItems(ring: seq<RingItem>) {
    forall i :: 0 <= i < |ring| && ring[i].len == RAW_EVENT_SIZE ==> EventInBounds(ring[i].event)
  }

  predicate SafeEvents(evs: seq<RawDnsEvent>) {
    forall i :: 0 <= i < |evs| ==> EventInBounds(evs[i])
  }

  predicate SafeParser(p: ParserSide) {
    !p.panicked && (p.task.Holding? ==> EventInBounds(p.task.event))
  }

  /** No task has panicked, every event on its way is in bounds, and tasks stop only from the writer backwards. */
  predicate Safe(s: State) {
    && SafeItems(s.kernel.ring) && SafeEvents(s.q1) && SafeParser(s.parser)
    && (!s.reader.up ==> !s.parser.up) && (!s.parser.up ==> !s.writer.up)
  }

  lemma KernelSafe(k: Kernel, frame: Octets, ts: nat, room: bool, memory: Payload)
    requires SafeItems(k.ring)
    ensures SafeItems(OnArrive(k, frame, ts, room, memory).ring)
  {
    if Classify(frame).Some? && room {
      ClassifyInFrame(frame);
      assert EventInBounds(Captured(frame, Classify(frame).value, ts, memory));
    }
  }

  lemma ParserSafe(cfg: Config, p: ParserSide)
    requires SafeParser(p)
    ensures SafeParser(OnParse(cfg, p)) && OnParse(cfg, p).up == p.up
  {
    if p.up && p.task.Holding? {
      EventChunkSafe(cfg.fmt, AsWritten, p.task.event);
      var out := ParseEvent(cfg.fmt, AsWritten, p.task.event);
      ConcludeSafe(cfg.domains, p, p.task.event, out);
    }
  }

  lemma ConcludeSafe(domains: set<Text>, p: ParserSide, ev: RawDnsEvent, out: Outcome)
    requires SafeParser(p) && ChunkSafe(out.slot)
    ensures var q := Conclude(domains, p, ev, out); SafeParser(q) && q.up == p.up
  {
    ChunkSafeNeverPanics(out.slot);
  }

  lemma ReadSafe(s: State, full: bool)
    requires Safe(s)
    ensures Safe(OnRead(s, full))
  {
  }

  lemma SafeStep(cfg: Config, s: State, a: Action)
    requires Safe(s)
    ensures Safe(Apply(cfg, s, a))
  {
    match a
    case Arrive(frame, ts, room, memory) => KernelSafe(s.kernel, frame, ts, room, memory);
    case Read(full) => ReadSafe(s, full);
    case Parse => ParserSafe(cfg, s.parser);
    case _ =>
  }

  // ------------------------------------------------------- capacity and conservation

  /** Where the items read have gone, up to and including queue one. */
  function Accounted1(r: Reader): nat {
    r.wrongSize + r.dropped + r.closed
  }

  function Accounted2(p: ParserSide): nat {
    HeldByParser(p) + p.errors + p.dropped + p.closed
  }

  function Accounted3(w: WriterSide): nat {
    HeldByWriter(w) + w.encodeErrors + w.writeErrors + |w.written|
  }

  /**
   * Both queues keep their capacity; every item that entered the ring is in it or was read; every
   * item read is accounted for exactly once.
   */
  predicate Counted(s: State) {
    && |s.q1| <= CHANNEL_CAPACITY && |s.q2| <= CHANNEL_CAPACITY
    && s.reader.read + |s.kernel.ring| == |s.kernel.captured| + s.kernel.foreign
    && s.reader.read == Accounted1(s.reader) + |s.q1| + Accounted2(s.parser) + |s.q2| + Accounted3(s.writer)
  }

  lemma ParserCounted(cfg: Config, p: ParserSide)
    ensures Accounted2(OnParse(cfg, p)) == Accounted2(p)
  {
  }

  lemma WriterCounted(cfg: Config, w: WriterSide, k: nat)
    ensures Accounted3(OnWrite(cfg, w)) == Accounted3(w)
    ensures Accounted3(OnFailEncode(w)) == Accounted3(w)
    ensures Accounted3(OnFailWrite(cfg, w, k)) == Accounted3(w)
  {
  }

  lemma ReadCounted(s: State, full: bool)
    requires Counted(s)
    ensures Counted(OnRead(s, full))
  {
  }

  lemma CountedStep(cfg: Config, s: State, a: Action)
    requires Counted(s)
    ensures Counted(Apply(cfg, s, a))
  {
    match a
    case Read(full) => ReadCounted(s, full);
    case Parse => ParserCounted(cfg, s.parser);
    case Write => WriterCounted(cfg, s.writer, 0);
    case FailEncode => WriterCounted(cfg, s.writer, 0);
    case FailWrite(k) => WriterCounted(cfg, s.writer, k);
    case _ =>
  }

  // ------------------------------------------------------------------ refinement

  /** Into the parser: what it has received and will receive is what the reader offered, minus drops. */
  ghost predicate FlowIn(s: State) {
    Sub(Received(s.parser) + s.q1, s.reader.offered)
  }

  /** The reader has offered a front part of what the kernel captured; the rest is in the ring. */
  predicate FlowRing(s: State) {
    s.reader.offered + RingEvents(s.kernel.ring) == s.kernel.captured
  }

  lemma {:induction false} RingPush(ring: seq<RingItem>, item: RingItem)
    ensures RingEvents(ring + [item]) == RingEvents(ring) + (if item.len == RAW_EVENT_SIZE then [item.event] else [])
  {
    if ring == [] {
    } else {
      RingPush(ring[1..], item);
      assert (ring + [item])[1..] == ring[1..] + [item];
    }
  }

  lemma SubmitFlowRing(k: Kernel, offered: seq<RawDnsEvent>, a: Arrival, ev: RawDnsEvent)
    requires offered + RingEvents(k.ring) == k.captured
    ensures offered + RingEvents(Submit(k, a, ev).ring) == Submit(k, a, ev).captured
  {
    RingPush(k.ring, RingItem(RAW_EVENT_SIZE, ev));
    assert offered + (RingEvents(k.ring) + [ev]) == offered + RingEvents(k.ring) + [ev];
  }

  lemma ReadFlowRing(s: State, full: bool)
    requires FlowRing(s)
    ensures FlowRing(OnRead(s, full))
  {
    if s.reader.up && s.kernel.ring != [] && s.kernel.ring[0].len == RAW_EVENT_SIZE {
      var ev, rest := s.kernel.ring[0].event, RingEvents(s.kernel.ring[1..]);
      assert s.reader.offered + ([ev] + rest) == s.reader.offered + [ev] + rest;
    }
  }

  lemma FlowRingStep(cfg: Config, s: State, a: Action)
    requires FlowRing(s)
    ensures FlowRing(Apply(cfg, s, a))
  {
    match a
    case Arrive(frame, ts, room, memory) =>
      if Classify(frame).Some? && room {
        ClassifyInFrame(frame);
        var seen := s.kernel.(arrivals := s.kernel.arrivals + [Arrival(frame, ts)]);
        SubmitFlowRing(seen, s.reader.offered, Arrival(frame, ts), Captured(frame, Classify(frame).value, ts, memory));
      }
    case Intrude(item) => RingPush(s.kernel.ring, item);
    case Read(full) => ReadFlowRing(s, full);
    case _ =>
  }

  lemma OfferFlowIn(s: State, ev: RawDnsEvent, full: bool)
    requires FlowIn(s)
    ensures FlowIn(Offer(s, ev, full))
  {
    var before := Received(s.parser);
    SubPush(before + s.q1, s.reader.offered, ev);
    assert before + (s.q1 + [ev]) == before + s.q1 + [ev];
  }

  lemma ParserKeepsReceived(cfg: Config, p: ParserSide)
    ensures Received(OnParse(cfg, p)) == Received(p)
  {
  }

  lemma FlowInStep(cfg: Config, s: State, a: Action)
    requires FlowIn(s)
    ensures FlowIn(Apply(cfg, s, a))
  {
    match a
    case Read(full) =>
      if s.reader.up && s.kernel.ring != [] && s.kernel.ring[0].len == RAW_EVENT_SIZE {
        OfferFlowIn(s.(kernel := s.kernel.(ring := s.kernel.ring[1..])), s.kernel.ring[0].event, full);
      }
    case Receive =>
      if s.q1 != [] && s.parser.task.Waiting? {
        assert s.parser.parsed + [s.q1[0]] + s.q1[1..] == s.parser.parsed + [] + s.q1;
      }
    case Parse => ParserKeepsReceived(cfg, s.parser);
    case _ =>
  }

  /** At the kernel: admitted frames are frames seen, and their events parse to what the frames stand for. */
  ghost predicate FlowKernel(cfg: Config, k: Kernel) {
    && Sub(k.admitted, k.arrivals)
    && Responses(cfg, k.captured) == FrameResponses(cfg, k.admitted)
  }

  /** The event a frame becomes parses to what the frame stands for, whatever memory it was built in. */
  lemma CapturedResponse(cfg: Config, a: Arrival, memory: Payload)
    requires Classify(a.frame).Some?
    ensures Classify(a.frame).value.payloadOffset < |a.frame|
    ensures Response(cfg, Captured(a.frame, Classify(a.frame).value, a.ts, memory)) == FrameResponse(cfg, a)
  {
    ClassifyInFrame(a.frame);
    CaptureParses(cfg.fmt, AsWritten, a.frame, Classify(a.frame).value, a.ts, memory);
  }

  lemma SubmitFlowKernel(cfg: Config, k: Kernel, a: Arrival, ev: RawDnsEvent)
    requires FlowKernel(cfg, k) && Response(cfg, ev) == FrameResponse(cfg, a)
    ensures FlowKernel(cfg, Submit(k.(arrivals := k.arrivals + [a]), a, ev))
    ensures FlowKernel(cfg, k.(arrivals := k.arrivals + [a]))
  {
    SubPush(k.admitted, k.arrivals, a);
    ResultsPush(ResponseOf(cfg), k.captured, ev);
    ResultsPush(FrameResponseOf(cfg), k.admitted, a);
  }

  lemma ArriveFlowKernel(cfg: Config, k: Kernel, frame: Octets, ts: nat, room: bool, memory: Payload)
    requires FlowKernel(cfg, k)
    ensures FlowKernel(cfg, OnArrive(k, frame, ts, room, memory))
  {
    var a := Arrival(frame, ts);
    if Classify(frame).Some? {
      CapturedResponse(cfg, a, memory);
      SubmitFlowKernel(cfg, k, a, Captured(frame, Classify(frame).value, ts, memory));
    } else {
      SubPush(k.admitted, k.arrivals, a);
    }
  }

  lemma FlowKernelStep(cfg: Config, s: State, a: Action)
    requires FlowKernel(cfg, s.kernel)
    ensures FlowKernel(cfg, Apply(cfg, s, a).kernel)
  {
    if a.Arrive? {
      ArriveFlowKernel(cfg, s.kernel, a.frame, a.ts, a.room, a.memory);
    } else {
      OthersKeepKernel(cfg, s, a);
    }
  }

  lemma OthersKeepKernel(cfg: Config, s: State, a: Action)
    requires !a.Arrive?
    ensures var k := Apply(cfg, s, a).kernel;
            k.admitted == s.kernel.admitted && k.arrivals == s.kernel.arrivals && k.captured == s.kernel.captured
  {
  }

  /** Out of the parser: everything published is an in-order selection of the parse results. */
  ghost predicate FlowOut(cfg: Config, s: State) {
    Sub(Published(s), Responses(cfg, s.parser.parsed))
  }

  /** A parse publishes its response, or nothing when it fails. */
  lemma ParsePublishes(cfg: Config, p: ParserSide)
    requires p.up && p.task.Holding? && EventInBounds(p.task.event)
    ensures AboutToSend(OnParse(cfg, p)) == Listed(Response(cfg, p.task.event))
    ensures OnParse(cfg, p).parsed == p.parsed + [p.task.event]
  {
  }

  lemma ParseFlowOut(cfg: Config, s: State)
    requires FlowOut(cfg, s) && SafeParser(s.parser)
    ensures FlowOut(cfg, s.(parser := OnParse(cfg, s.parser)))
  {
    if s.parser.up && s.parser.task.Holding? {
      var ev := s.parser.task.event;
      ParsePublishes(cfg, s.parser);
      ResultsPush(ResponseOf(cfg), s.parser.parsed, ev);
      var before := OutOfQueue(s.writer) + s.q2;
      assert Published(s) == before;
      SubConcat(before, Responses(cfg, s.parser.parsed), Listed(Response(cfg, ev)));
    }
  }

  lemma SendFlowOut(cfg: Config, s: State, full: bool, stale: DnsResponse)
    requires FlowOut(cfg, s)
    ensures FlowOut(cfg, OnSend(s, full, stale))
  {
    if s.parser.up && s.parser.task.Ready? {
      var front, m := OutOfQueue(s.writer), s.parser.local;
      assert front + (s.q2 + [m]) + [] == front + s.q2 + [m];
      assert front + s.q2 + [] == front + s.q2;
      SubFront(front + s.q2, [m], Responses(cfg, s.parser.parsed));
    }
  }

  lemma LetGo(x: seq<DnsResponse>, m: DnsResponse, q: seq<DnsResponse>, y: seq<DnsResponse>, rs: seq<DnsResponse>)
    requires Sub(x + [m] + q + y, rs)
    ensures Sub(x + [] + q + y, rs) && Sub(x + [m] + [] + q + y, rs)
  {
    assert x + [m] + q + y == x + [m] + (q + y);
    SubWithout(x, m, q + y, rs);
    assert x + [] + q + y == x + (q + y);
    assert x + [m] + [] + q + y == x + [m] + q + y;
  }

  /** The writer lets go of a message: it is written, or it is lost. */
  lemma WriterFlowOut(cfg: Config, s: State, w: WriterSide)
    requires FlowOut(cfg, s) && s.writer.task.Busy? && w.task.Resting?
    requires w.written == s.writer.written || w.written == s.writer.written + [s.writer.task.msg]
    ensures FlowOut(cfg, s.(writer := w))
  {
    LetGo(s.writer.written, s.writer.task.msg, s.q2, AboutToSend(s.parser), Responses(cfg, s.parser.parsed));
  }

  lemma FlowOutStep(cfg: Config, s: State, a: Action)
    requires FlowOut(cfg, s) && SafeParser(s.parser)
    ensures FlowOut(cfg, Apply(cfg, s, a))
  {
    match a
    case Parse => ParseFlowOut(cfg, s);
    case Send(full, stale) => SendFlowOut(cfg, s, full, stale);
    case Take => TakeKeepsPublished(s);
    case Write => if s.writer.task.Busy? { WriterFlowOut(cfg, s, OnWrite(cfg, s.writer)); }
    case FailEncode => if s.writer.task.Busy? { WriterFlowOut(cfg, s, OnFailEncode(s.writer)); }
    case FailWrite(k) => if s.writer.task.Busy? { WriterFlowOut(cfg, s, OnFailWrite(cfg, s.writer, k)); }
    case _ => OthersKeepPublished(cfg, s, a);
  }

  lemma TakeKeepsPublished(s: State)
    ensures Published(OnTake(s)) == Published(s) && OnTake(s).parser == s.parser
  {
    if s.writer.up && s.writer.task.Resting? && s.q2 != [] {
      assert s.writer.written + [s.q2[0]] + s.q2[1..] == s.writer.written + [] + s.q2;
    }
  }

  lemma OthersKeepPublished(cfg: Config, s: State, a: Action)
    requires a.Arrive? || a.Intrude? || a.Read? || a.Receive? || a.WriterStops?
    ensures Published(Apply(cfg, s, a)) == Published(s) && Apply(cfg, s, a).parser.parsed == s.parser.parsed
  {
  }

  /** The flow invariants compose from the network frame to the log. */
  lemma FlowComposes(cfg: Config, s: State)
    requires FlowIn(s) && FlowRing(s) && FlowKernel(cfg, s.kernel) && FlowOut(cfg, s)
    ensures Sub(Published(s), Responses(cfg, s.reader.offered))
    ensures Sub(Published(s), FrameResponses(cfg, s.kernel.arrivals))
  {
    ParsedWasOffered(s);
    var out, offered, captured := Published(s), s.reader.offered, s.kernel.captured;
    ResultsMonotone(ResponseOf(cfg), s.parser.parsed, offered);
    SubTrans(out, Responses(cfg, s.parser.parsed), Responses(cfg, offered));
    ResultsMonotone(ResponseOf(cfg), offered, captured);
    SubTrans(out, Responses(cfg, offered), Responses(cfg, captured));
    ResultsMonotone(FrameResponseOf(cfg), s.kernel.admitted, s.kernel.arrivals);
    SubTrans(out, FrameResponses(cfg, s.kernel.admitted), FrameResponses(cfg, s.kernel.arrivals));
  }

  lemma ParsedWasOffered(s: State)
    requires FlowIn(s) && FlowRing(s)
    ensures Sub(s.parser.parsed, s.reader.offered) && Sub(s.reader.offered, s.kernel.captured)
  {
    var held := if s.parser.task.Holding? then [s.parser.task.event] else [];
    assert s.parser.parsed + held + s.q1 == s.parser.parsed + (held + s.q1);
    SubFront(s.parser.parsed, held + s.q1, s.reader.offered);
    SubRefl(s.reader.offered);
    SubConcat(s.reader.offered, s.reader.offered, RingEvents(s.kernel.ring));
  }

  // --------------------------------------------------------- policy before the log

  predicate NeedsKey(cfg: Config, m: DnsResponse) {
    m.domainName in cfg.domains && ChooseKey(m).Key?
  }

  /** The response's key is in the map, or the map has no room left. */
  predicate Covered(cfg: Config, ips: IpMap, m: DnsResponse) {
    NeedsKey(cfg, m) ==> ChooseKey(m).addr in ips || |ips| == MAP_CAPACITY
  }

  /** The key was chosen for an allowed-domain response among `rs`. */
  ghost predicate Justified(cfg: Config, k: RawIpAddr, rs: seq<DnsResponse>) {
    exists m :: m in rs && NeedsKey(cfg, m) && ChooseKey(m) == Key(k)
  }

  predicate AllCovered(cfg: Config, ips: IpMap, ms: seq<DnsResponse>) {
    forall m | m in ms :: Covered(cfg, ips, m)
  }

  ghost predicate AllJustified(cfg: Config, ips: IpMap, rs: seq<DnsResponse>) {
    forall k | k in ips :: Justified(cfg, k, rs)
  }

  ghost predicate PolicyHolds(cfg: Config, s: State) {
    && |s.parser.ips| <= MAP_CAPACITY
    && AllCovered(cfg, s.parser.ips, Published(s))
    && AllJustified(cfg, s.parser.ips, Responses(cfg, s.parser.parsed))
  }

  /** One observation: old cover and justification survive, and the new response is covered. */
  lemma ObservePolicy(cfg: Config, ips: IpMap, slot: DnsResponse, ms: seq<DnsResponse>, rs: seq<DnsResponse>)
    requires ChunkSafe(slot) && |ips| <= MAP_CAPACITY && !ChooseKey(slot).Panic?
    requires AllCovered(cfg, ips, ms) && AllJustified(cfg, ips, rs)
    ensures var after := UpdateWith(cfg.domains, ips, slot).ips;
            && |after| <= MAP_CAPACITY && AllCovered(cfg, after, ms + [slot]) && AllJustified(cfg, after, rs + [slot])
  {
    UpdateFacts(cfg.domains, ips, slot);
    var after := UpdateWith(cfg.domains, ips, slot).ips;
    forall m | m in ms + [slot] ensures Covered(cfg, after, m) {
      if m in ms { CoveredGrows(cfg, ips, after, m); }
    }
    forall k | k in after ensures Justified(cfg, k, rs + [slot]) {
      if k in ips {
        JustifiedGrows(cfg, k, rs, [slot]);
      } else {
        assert slot in rs + [slot];
      }
    }
  }

  /** What a parse does to the map: the policy engine's update on success, nothing on failure. */
  lemma ParseUpdates(cfg: Config, p: ParserSide)
    requires p.up && p.task.Holding? && EventInBounds(p.task.event)
    ensures match Response(cfg, p.task.event)
            case None => OnParse(cfg, p).ips == p.ips
            case Some(slot) => ChunkSafe(slot) && !ChooseKey(slot).Panic? && OnParse(cfg, p).ips == UpdateWith(cfg.domains, p.ips, slot).ips
  {
    EventChunkSafe(cfg.fmt, AsWritten, p.task.event);
    ChunkSafeNeverPanics(ParseEvent(cfg.fmt, AsWritten, p.task.event).slot);
  }

  lemma ParsePolicy(cfg: Config, s: State)
    requires PolicyHolds(cfg, s) && SafeParser(s.parser)
    ensures PolicyHolds(cfg, s.(parser := OnParse(cfg, s.parser)))
  {
    if s.parser.up && s.parser.task.Holding? {
      var ev, rs := s.parser.task.event, Responses(cfg, s.parser.parsed);
      var before := OutOfQueue(s.writer) + s.q2;
      assert Published(s) == before;
      ParsePublishes(cfg, s.parser);
      ParseUpdates(cfg, s.parser);
      ResultsPush(ResponseOf(cfg), s.parser.parsed, ev);
      match Response(cfg, ev)
      case None => assert before + [] == before && rs + [] == rs;
      case Some(slot) => ObservePolicy(cfg, s.parser.ips, slot, before, rs);
    }
  }

  lemma JustifiedGrows(cfg: Config, k: RawIpAddr, rs: seq<DnsResponse>, more: seq<DnsResponse>)
    requires Justified(cfg, k, rs)
    ensures Justified(cfg, k, rs + more)
  {
    var m :| m in rs && NeedsKey(cfg, m) && ChooseKey(m) == Key(k);
    assert m in rs + more;
  }

  lemma CoveredGrows(cfg: Config, a: IpMap, b: IpMap, m: DnsResponse)
    requires Covered(cfg, a, m) && a.Keys <= b.Keys && |a| <= |b| <= MAP_CAPACITY
    ensures Covered(cfg, b, m)
  {
    if NeedsKey(cfg, m) && ChooseKey(m).addr in a {
      assert ChooseKey(m).addr in b.Keys;
    }
  }

  lemma PolicyStep(cfg: Config, s: State, a: Action)
    requires PolicyHolds(cfg, s) && SafeParser(s.parser)
    ensures PolicyHolds(cfg, Apply(cfg, s, a))
  {
    if a.Parse? {
      ParsePolicy(cfg, s);
    } else {
      OthersKeepPolicy(cfg, s, a);
      var t := Apply(cfg, s, a);
      forall m | m in Published(t) ensures Covered(cfg, t.parser.ips, m) {
        assert m in Published(s);
      }
    }
  }

  /** Only the parse changes the map or publishes anything. */
  lemma OthersKeepPolicy(cfg: Config, s: State, a: Action)
    requires !a.Parse?
    ensures var t := Apply(cfg, s, a);
            && t.parser.ips == s.parser.ips && t.parser.parsed == s.parser.parsed
            && forall m | m in Published(t) :: m in Published(s)
  {
    match a
    case Send(full, stale) => SendPublishesNothing(s, full, stale);
    case Take => TakeKeepsPublished(s);
    case Arrive(_, _, _, _) => OthersKeepPublished(cfg, s, a);
    case Intrude(_) => OthersKeepPublished(cfg, s, a);
    case Read(_) => OthersKeepPublished(cfg, s, a);
    case Receive => OthersKeepPublished(cfg, s, a);
    case _ => WriterPublishesNothing(cfg, s, a);
  }

  lemma WriterPublishesNothing(cfg: Config, s: State, a: Action)
    requires a.Write? || a.FailEncode? || a.FailWrite? || a.WriterStops?
    ensures Apply(cfg, s, a).parser == s.parser
    ensures forall m | m in Published(Apply(cfg, s, a)) :: m in Published(s)
  {
    assert forall m | m in OutOfQueue(Apply(cfg, s, a).writer) :: m in OutOfQueue(s.writer);
  }

  lemma SendPublishesNothing(s: State, full: bool, stale: DnsResponse)
    ensures forall m | m in Published(OnSend(s, full, stale)) :: m in Published(s)
  {
  }

  // ------------------------------------------------------------------ the log itself

  function Encodings(cfg: Config, ms: seq<DnsResponse>): seq<Octets> {
    seq(|ms|, i requires 0 <= i < |ms| => cfg.encode(ms[i]))
  }

  /** The log is what the file held before, then what every attempt left; the completed ones are the messages written. */
  predicate LogHolds(cfg: Config, w: WriterSide) {
    && w.log == w.existing + LeftBy(w.attempts)
    && Completed(w.attempts) == Encodings(cfg, w.written)
    && |w.attempts| == |w.written| + w.writeErrors
  }

  lemma AttemptLog(w: WriterSide, a: Attempt)
    requires w.log == w.existing + LeftBy(w.attempts)
    ensures var t := Attempted(w, a); t.log == t.existing + LeftBy(t.attempts)
  {
    AttemptMade(w.attempts, a);
    Assoc(w.existing, LeftBy(w.attempts), Left(a));
  }

  lemma WriteLog(cfg: Config, w: WriterSide)
    requires LogHolds(cfg, w)
    ensures LogHolds(cfg, OnWrite(cfg, w))
  {
    if w.task.Busy? {
      var ms, m := w.written, w.task.msg;
      AttemptLog(w, Whole(cfg.encode(m)));
      AttemptMade(w.attempts, Whole(cfg.encode(m)));
      assert Encodings(cfg, ms + [m]) == Encodings(cfg, ms) + [cfg.encode(m)];
    }
  }

  lemma FailWriteLog(cfg: Config, w: WriterSide, k: nat)
    requires LogHolds(cfg, w)
    ensures LogHolds(cfg, OnFailWrite(cfg, w, k))
  {
    if w.task.Busy? {
      var frame := FrameOf(cfg.encode(w.task.msg));
      var torn := Torn(frame[..Min(k, |frame| - 1)]);
      AttemptLog(w, torn);
      AttemptMade(w.attempts, torn);
      assert Completed(w.attempts) + [] == Completed(w.attempts);
    }
  }

  lemma LogStep(cfg: Config, s: State, a: Action)
    requires LogHolds(cfg, s.writer)
    ensures LogHolds(cfg, Apply(cfg, s, a).writer)
  {
    match a
    case Write => WriteLog(cfg, s.writer);
    case FailWrite(k) => FailWriteLog(cfg, s.writer, k);
    case _ =>
  }

  // ------------------------------------------------------------ what the drops amount to

  /** The losses behind the parser: each is counted once. */
  function LostBehind(p: ParserSide, w: WriterSide): nat {
    p.dropped + p.closed + w.encodeErrors + w.writeErrors
  }

  /** What is missing from each stage is exactly what was counted as dropped, refused or failed there. */
  predicate Tallied(cfg: Config, s: State) {
    && |s.reader.offered| == |Received(s.parser)| + |s.q1| + s.reader.dropped + s.reader.closed
    && |s.parser.parsed| == |Responses(cfg, s.parser.parsed)| + s.parser.errors
    && |Responses(cfg, s.parser.parsed)| == |Published(s)| + LostBehind(s.parser, s.writer)
  }

  lemma ParseTallied(cfg: Config, s: State)
    requires Tallied(cfg, s) && SafeParser(s.parser)
    ensures Tallied(cfg, s.(parser := OnParse(cfg, s.parser)))
  {
    if s.parser.up && s.parser.task.Holding? {
      var ev := s.parser.task.event;
      ParserKeepsReceived(cfg, s.parser);
      ParsePublishes(cfg, s.parser);
      ResultsPush(ResponseOf(cfg), s.parser.parsed, ev);
      ParseCounts(cfg, s.parser);
    }
  }

  lemma ParseCounts(cfg: Config, p: ParserSide)
    requires p.up && p.task.Holding? && EventInBounds(p.task.event)
    ensures var q := OnParse(cfg, p);
            && q.dropped == p.dropped && q.closed == p.closed
            && q.errors == p.errors + 1 - |Listed(Response(cfg, p.task.event))|
  {
  }

  lemma OfferTallied(cfg: Config, s: State, ev: RawDnsEvent, full: bool)
    requires Tallied(cfg, s)
    ensures Tallied(cfg, Offer(s, ev, full))
  {
  }

  lemma ReadTallied(cfg: Config, s: State, full: bool)
    requires Tallied(cfg, s)
    ensures Tallied(cfg, OnRead(s, full))
  {
    if s.reader.up && s.kernel.ring != [] && s.kernel.ring[0].len == RAW_EVENT_SIZE {
      OfferTallied(cfg, s.(kernel := s.kernel.(ring := s.kernel.ring[1..])), s.kernel.ring[0].event, full);
    }
  }

  /** The actions of the kernel, the reader and the receiving half of the parser. */
  lemma FrontTallied(cfg: Config, s: State, a: Action)
    requires Tallied(cfg, s) && (a.Arrive? || a.Intrude? || a.Read? || a.Receive?)
    ensures Tallied(cfg, Apply(cfg, s, a))
  {
    match a
    case Read(full) => ReadTallied(cfg, s, full);
    case _ =>
  }

  lemma SendTallied(cfg: Config, s: State, full: bool, stale: DnsResponse)
    requires Tallied(cfg, s)
    ensures Tallied(cfg, OnSend(s, full, stale))
  {
    SendCounts(s, full, stale);
  }

  lemma SendCounts(s: State, full: bool, stale: DnsResponse)
    ensures var t := OnSend(s, full, stale);
            && t.reader == s.reader && t.q1 == s.q1 && t.writer == s.writer
            && Received(t.parser) == Received(s.parser)
            && t.parser.parsed == s.parser.parsed && t.parser.errors == s.parser.errors
            && |Published(t)| + LostBehind(t.parser, t.writer) == |Published(s)| + LostBehind(s.parser, s.writer)
  {
  }

  lemma TakeTallied(cfg: Config, s: State)
    requires Tallied(cfg, s)
    ensures Tallied(cfg, OnTake(s))
  {
    TakeKeepsPublished(s);
  }

  /** The writer lets go of a message: it is written, or one more error is counted. */
  lemma WriterTallied(cfg: Config, s: State, w: WriterSide)
    requires Tallied(cfg, s)
    requires |OutOfQueue(w)| + w.encodeErrors + w.writeErrors ==
               |OutOfQueue(s.writer)| + s.writer.encodeErrors + s.writer.writeErrors
    ensures Tallied(cfg, s.(writer := w))
  {
  }

  /** The actions behind the parse. */
  lemma BackTallied(cfg: Config, s: State, a: Action)
    requires Tallied(cfg, s) && !(a.Arrive? || a.Intrude? || a.Read? || a.Receive? || a.Parse?)
    ensures Tallied(cfg, Apply(cfg, s, a))
  {
    match a
    case Send(full, stale) => SendTallied(cfg, s, full, stale);
    case Take => TakeTallied(cfg, s);
    case _ => WriterTallied(cfg, s, Apply(cfg, s, a).writer);
  }

  lemma TalliedStep(cfg: Config, s: State, a: Action)
    requires Tallied(cfg, s) && SafeParser(s.parser)
    ensures Tallied(cfg, Apply(cfg, s, a))
  {
    if a.Parse? {
      ParseTallied(cfg, s);
    } else if a.Arrive? || a.Intrude? || a.Read? || a.Receive? {
      FrontTallied(cfg, s, a);
    } else {
      BackTallied(cfg, s, a);
    }
  }

  // ------------------------------------------------------------------------- all runs

  ghost predicate Invariant(cfg: Config, s: State) {
    && Safe(s) && Counted(s)
    && FlowIn(s) && FlowRing(s) && FlowKernel(cfg, s.kernel) && FlowOut(cfg, s)
    && Tallied(cfg, s) && PolicyHolds(cfg, s) && LogHolds(cfg, s.writer)
  }

  lemma InvariantStep(cfg: Config, s: State, a: Action)
    requires Invariant(cfg, s)
    ensures Invariant(cfg, Apply(cfg, s, a))
  {
    SafeStep(cfg, s, a);
    CountedStep(cfg, s, a);
    FlowInStep(cfg, s, a);
    FlowRingStep(cfg, s, a);
    FlowKernelStep(cfg, s, a);
    FlowOutStep(cfg, s, a);
    TalliedStep(cfg, s, a);
    PolicyStep(cfg, s, a);
    LogStep(cfg, s, a);
  }

  lemma {:induction false} RunKeeps(cfg: Config, s: State, run: seq<Action>)
    requires Invariant(cfg, s)
    ensures Invariant(cfg, After(cfg, s, run))
  {
    if run == [] {
    } else {
      var m := |run| - 1;
      RunKeeps(cfg, s, run[..m]);
      InvariantStep(cfg, After(cfg, s, run[..m]), run[m]);
    }
  }

  /** Every state reachable from a fresh start satisfies the invariant. */
  lemma EveryRun(cfg: Config, start: State, run: seq<Action>)
    requires Fresh(start)
    ensures Invariant(cfg, After(cfg, start, run))
  {
    FreshHolds(cfg, start);
    RunKeeps(cfg, start, run);
  }

  lemma FreshHolds(cfg: Config, s: State)
    requires Fresh(s)
    ensures Invariant(cfg, s)
  {
    assert Published(s) == [];
    assert Received(s.parser) + s.q1 == [];
    assert Encodings(cfg, s.writer.written) == [];
  }
}
