/**
 * Old memory never shows: two runs that differ only in what the event buffers and the queue slots
 * happened to hold before are indistinguishable from the outside, step by step.
 */
module NonInterference {
  import opened Bytes
  import opened Common
  import opened Answers
  import opened Parser
  import opened Classifier
  import opened Topology

  // ---------------------------------------------------------------- what is alike

  /** The events differ at most in payload octets behind the payload length. */
  predicate SameEvent(a: RawDnsEvent, b: RawDnsEvent) {
    || a == b
    || (&& b == a.(payload := b.payload) && a.payloadLen <= MAX_DNS_PAYLOAD_SIZE
        && a.payload[..a.payloadLen] == b.payload[..a.payloadLen])
  }

  predicate SameItems(a: seq<RingItem>, b: seq<RingItem>) {
    |a| == |b| && forall i :: 0 <= i < |a| ==> a[i].len == b[i].len && SameEvent(a[i].event, b[i].event)
  }

  predicate SameEvents(a: seq<RawDnsEvent>, b: seq<RawDnsEvent>) {
    |a| == |b| && forall i :: 0 <= i < |a| ==> SameEvent(a[i], b[i])
  }

  predicate SameTask(a: ParserTask, b: ParserTask) {
    match a
    case Waiting => b == Waiting
    case Ready => b == Ready
    case Holding(ev) => b.Holding? && SameEvent(ev, b.event)
  }

  predicate SameKernel(a: Kernel, b: Kernel) {
    SameItems(a.ring, b.ring) && a.arrivals == b.arrivals && a.admitted == b.admitted && a.foreign == b.foreign
  }

  predicate SameReader(a: Reader, b: Reader) {
    a.up == b.up && a.read == b.read && a.wrongSize == b.wrongSize && a.dropped == b.dropped && a.closed == b.closed
  }

  /** The local response counts only once it has been filled. */
  predicate SameParser(a: ParserSide, b: ParserSide) {
    && a.up == b.up && a.panicked == b.panicked && SameTask(a.task, b.task) && (a.task.Ready? ==> a.local == b.local)
    && a.ips == b.ips && a.errors == b.errors && a.dropped == b.dropped && a.closed == b.closed
  }

  /** The same frames and counters, the same second queue, policy map, written messages and log. */
  predicate Alike(s: State, t: State) {
    && SameKernel(s.kernel, t.kernel) && SameReader(s.reader, t.reader) && SameEvents(s.q1, t.q1)
    && SameParser(s.parser, t.parser) && s.q2 == t.q2 && s.writer == t.writer
  }

  /** The same action, up to the memory an event is built in and the contents swapped out of a queue slot. */
  predicate SameAction(a: Action, b: Action) {
    match a
    case Arrive(frame, ts, room, _) => b.Arrive? && b.frame == frame && b.ts == ts && b.room == room
    case Send(full, _) => b.Send? && b.full == full
    case _ => a == b
  }

  predicate SameRuns(a: seq<Action>, b: seq<Action>) {
    |a| == |b| && forall i :: 0 <= i < |a| ==> SameAction(a[i], b[i])
  }

  // ------------------------------------------------------------------ one step each

  lemma CapturedAlike(f: Octets, c: Capture, ts: nat, a: Payload, b: Payload)
    requires c.payloadOffset < |f|
    ensures SameEvent(Captured(f, c, ts, a), Captured(f, c, ts, b))
  {
    var x, y := Captured(f, c, ts, a), Captured(f, c, ts, b);
    var n := x.payloadLen;
    var front := f[c.payloadOffset..c.payloadOffset + n];
    assert x.payload[..n] == front && y.payload[..n] == front;
  }

  lemma ItemsPush(a: seq<RingItem>, b: seq<RingItem>, x: RingItem, y: RingItem)
    requires SameItems(a, b) && x.len == y.len && SameEvent(x.event, y.event)
    ensures SameItems(a + [x], b + [y])
  {
  }

  lemma ArriveAlike(a: Kernel, b: Kernel, frame: Octets, ts: nat, room: bool, x: Payload, y: Payload)
    requires SameKernel(a, b)
    ensures SameKernel(OnArrive(a, frame, ts, room, x), OnArrive(b, frame, ts, room, y))
  {
    if Classify(frame).Some? && room {
      ClassifyInFrame(frame);
      var c := Classify(frame).value;
      CapturedAlike(frame, c, ts, x, y);
      ItemsPush(a.ring, b.ring, RingItem(RAW_EVENT_SIZE, Captured(frame, c, ts, x)),
                RingItem(RAW_EVENT_SIZE, Captured(frame, c, ts, y)));
    }
  }

  lemma EventsPush(a: seq<RawDnsEvent>, b: seq<RawDnsEvent>, x: RawDnsEvent, y: RawDnsEvent)
    requires SameEvents(a, b) && SameEvent(x, y)
    ensures SameEvents(a + [x], b + [y])
  {
  }

  lemma OfferAlike(s: State, t: State, x: RawDnsEvent, y: RawDnsEvent, full: bool)
    requires Alike(s, t) && SameEvent(x, y)
    ensures Alike(Offer(s, x, full), Offer(t, y, full))
  {
    EventsPush(s.q1, t.q1, x, y);
  }

  lemma ItemsPop(a: seq<RingItem>, b: seq<RingItem>)
    requires SameItems(a, b) && a != []
    ensures b != [] && SameItems(a[1..], b[1..]) && a[0].len == b[0].len && SameEvent(a[0].event, b[0].event)
  {
  }

  lemma ReadAlike(s: State, t: State, full: bool)
    requires Alike(s, t)
    ensures Alike(OnRead(s, full), OnRead(t, full))
  {
    if s.reader.up && s.kernel.ring != [] {
      ItemsPop(s.kernel.ring, t.kernel.ring);
      var s', t' := s.(kernel := s.kernel.(ring := s.kernel.ring[1..])), t.(kernel := t.kernel.(ring := t.kernel.ring[1..]));
      if s.kernel.ring[0].len == RAW_EVENT_SIZE {
        OfferAlike(s', t', s.kernel.ring[0].event, t.kernel.ring[0].event, full);
      }
    }
  }

  lemma ReceiveAlike(s: State, t: State)
    requires Alike(s, t)
    ensures Alike(OnReceive(s), OnReceive(t))
  {
    if s.q1 != [] {
      assert SameEvent(s.q1[0], t.q1[0]) && SameEvents(s.q1[1..], t.q1[1..]);
    }
  }

  /** Events that are alike parse alike, or neither can be parsed. */
  lemma ParsesAlike(fmt: Formatter, a: RawDnsEvent, b: RawDnsEvent)
    requires SameEvent(a, b)
    ensures EventInBounds(a) == EventInBounds(b)
    ensures EventInBounds(a) ==> ParseEvent(fmt, AsWritten, a) == ParseEvent(fmt, AsWritten, b)
  {
    if a != b {
      StaleBytesIgnored(fmt, AsWritten, a, b);
    }
  }

  lemma ConcludeAlike(domains: set<Text>, p: ParserSide, q: ParserSide, x: RawDnsEvent, y: RawDnsEvent, out: Outcome)
    requires SameParser(p, q)
    ensures SameParser(Conclude(domains, p, x, out), Conclude(domains, q, y, out))
  {
  }

  lemma ParseAlike(cfg: Config, p: ParserSide, q: ParserSide)
    requires SameParser(p, q)
    ensures SameParser(OnParse(cfg, p), OnParse(cfg, q))
  {
    if p.up && p.task.Holding? {
      var x, y := p.task.event, q.task.event;
      ParsesAlike(cfg.fmt, x, y);
      if EventInBounds(x) {
        ConcludeAlike(cfg.domains, p, q, x, y, ParseEvent(cfg.fmt, AsWritten, x));
      }
    }
  }

  lemma SendAlike(s: State, t: State, full: bool, x: DnsResponse, y: DnsResponse)
    requires Alike(s, t)
    ensures Alike(OnSend(s, full, x), OnSend(t, full, y))
  {
  }

  lemma StepAlike(cfg: Config, s: State, t: State, a: Action, b: Action)
    requires Alike(s, t) && SameAction(a, b)
    ensures Alike(Apply(cfg, s, a), Apply(cfg, t, b))
  {
    match a
    case Arrive(frame, ts, room, memory) => ArriveAlike(s.kernel, t.kernel, frame, ts, room, memory, b.memory);
    case Intrude(item) => ItemsPush(s.kernel.ring, t.kernel.ring, item, item);
    case Read(full) => ReadAlike(s, t, full);
    case Receive => ReceiveAlike(s, t);
    case Parse => ParseAlike(cfg, s.parser, t.parser);
    case Send(full, stale) => SendAlike(s, t, full, stale, b.stale);
    case _ =>
  }

  // ---------------------------------------------------------------------- all runs

  lemma {:induction false} RunsAlike(cfg: Config, s: State, t: State, a: seq<Action>, b: seq<Action>)
    requires Alike(s, t) && SameRuns(a, b)
    ensures Alike(After(cfg, s, a), After(cfg, t, b))
    decreases |a|
  {
    if a == [] {
      assert After(cfg, s, a) == s && After(cfg, t, b) == t;
    } else {
      var m := |a| - 1;
      RunsAlike(cfg, s, t, a[..m], b[..m]);
      StepAlike(cfg, After(cfg, s, a[..m]), After(cfg, t, b[..m]), a[m], b[m]);
    }
  }

  /**
   * Non-interference over whole runs: whatever memory the event buffers, the queue slots and the local
   * response held, the same frames and the same scheduling end with the same log, messages written, second
   * queue, policy map and counters.
   */
  lemma OldMemoryNeverShows(cfg: Config, s: State, t: State, a: seq<Action>, b: seq<Action>)
    requires Fresh(s) && Fresh(t) && s.writer.existing == t.writer.existing && SameRuns(a, b)
    ensures var x, y := After(cfg, s, a), After(cfg, t, b);
            && x.writer == y.writer && x.q2 == y.q2 && x.parser.ips == y.parser.ips
            && |x.kernel.ring| == |y.kernel.ring| && |x.q1| == |y.q1|
            && SameReader(x.reader, y.reader) && SameParser(x.parser, y.parser)
  {
    RunsAlike(cfg, s, t, a, b);
  }
}
