/**
 * Nothing stays behind: as long as the tasks are up, what is in the ring, in the queues or in hand can be
 * brought to the log, in order and without loss, by letting the tasks run. The schedules use no failing
 * step, so this is what the code does when it is left alone.
 */
module Delivery {
  import opened Bytes
  import opened Wire
  import opened Common
  import opened Parser
  import opened Classifier
  import opened CommitLog
  import opened Subsequences
  import opened Topology
  import opened TopologyInvariants
  import opened Guarantees
  import opened EndToEnd

  /** Some run leads from `s` to `t`. */
  ghost predicate Leads(cfg: Config, s: State, t: State) {
    exists run :: After(cfg, s, run) == t
  }

  lemma LeadsHere(cfg: Config, s: State)
    ensures Leads(cfg, s, s)
  {
    assert After(cfg, s, []) == s;
  }

  lemma LeadsOn(cfg: Config, s: State, t: State, a: Action)
    requires Leads(cfg, s, t)
    ensures Leads(cfg, s, Apply(cfg, t, a))
  {
    var run :| After(cfg, s, run) == t;
    AfterStep(cfg, s, run, a);
  }

  lemma LeadsTrans(cfg: Config, s: State, t: State, u: State)
    requires Leads(cfg, s, t) && Leads(cfg, t, u)
    ensures Leads(cfg, s, u)
  {
    var a :| After(cfg, s, a) == t;
    var b :| After(cfg, t, b) == u;
    AfterConcat(cfg, s, a, b);
  }

  // ------------------------------------------------------------------------ writer

  /** The writer is up and idle, and has written `ms` since `w`, each as one frame, without an error. */
  predicate Wrote(cfg: Config, w: WriterSide, ms: seq<DnsResponse>, w': WriterSide) {
    && w'.up && w'.task == Resting && w'.existing == w.existing
    && w'.written == w.written + ms && w'.log == w.log + LogOf(Encodings(cfg, ms))
    && w'.encodeErrors == w.encodeErrors && w'.writeErrors == w.writeErrors
  }

  lemma WroteNothing(cfg: Config, w: WriterSide)
    requires w.up && w.task == Resting
    ensures Wrote(cfg, w, [], w)
  {
    assert w.written + [] == w.written && Encodings(cfg, []) == [] && w.log + [] == w.log;
  }

  lemma WroteMore(cfg: Config, w: WriterSide, a: seq<DnsResponse>, w1: WriterSide, b: seq<DnsResponse>, w2: WriterSide)
    requires Wrote(cfg, w, a, w1) && Wrote(cfg, w1, b, w2)
    ensures Wrote(cfg, w, a + b, w2)
  {
    assert Encodings(cfg, a + b) == Encodings(cfg, a) + Encodings(cfg, b);
    LogConcat(Encodings(cfg, a), Encodings(cfg, b));
    Assoc(w.log, LogOf(Encodings(cfg, a)), LogOf(Encodings(cfg, b)));
    assert w.written + (a + b) == (w.written + a) + b;
  }

  lemma WroteOne(cfg: Config, w: WriterSide)
    requires w.up && w.task.Busy?
    ensures Wrote(cfg, w, [w.task.msg], OnWrite(cfg, w))
  {
    var e := cfg.encode(w.task.msg);
    assert Encodings(cfg, [w.task.msg]) == [e];
    LogAppend([], e);
    assert [] + [e] == [e] && LogOf([]) + FrameOf(e) == FrameOf(e);
  }

  /** Take and write the front of queue two. */
  lemma WriteNext(cfg: Config, s: State)
    requires s.writer.up && s.writer.task == Resting && s.q2 != []
    ensures var t := Apply(cfg, Apply(cfg, s, Take), Write);
            t == s.(q2 := s.q2[1..], writer := t.writer) && Wrote(cfg, s.writer, [s.q2[0]], t.writer)
  {
    WroteOne(cfg, s.writer.(task := Busy(s.q2[0])));
  }

  lemma QueueTwoStep(cfg: Config, w: WriterSide, q2: seq<DnsResponse>, w1: WriterSide, w2: WriterSide)
    requires q2 != [] && Wrote(cfg, w, [q2[0]], w1) && Wrote(cfg, w1, q2[1..], w2)
    ensures Wrote(cfg, w, q2, w2)
  {
    WroteMore(cfg, w, [q2[0]], w1, q2[1..], w2);
    assert [q2[0]] + q2[1..] == q2;
  }

  /** An idle writer empties queue two. */
  lemma {:induction false} DrainQueueTwo(cfg: Config, s: State) returns (t: State)
    requires s.writer.up && s.writer.task == Resting
    ensures Leads(cfg, s, t) && t == s.(q2 := [], writer := t.writer) && Wrote(cfg, s.writer, s.q2, t.writer)
    decreases |s.q2|
  {
    if s.q2 == [] {
      t := s;
      LeadsHere(cfg, s);
      WroteNothing(cfg, s.writer);
    } else {
      var u := Apply(cfg, Apply(cfg, s, Take), Write);
      WriteNext(cfg, s);
      LeadsHere(cfg, s);
      LeadsOn(cfg, s, s, Take);
      LeadsOn(cfg, s, Apply(cfg, s, Take), Write);
      t := DrainQueueTwo(cfg, u);
      LeadsTrans(cfg, s, u, t);
      QueueTwoStep(cfg, s.writer, s.q2, u.writer, t.writer);
    }
  }

  function InHand(w: WriterSide): seq<DnsResponse> {
    if w.task.Busy? then [w.task.msg] else []
  }

  lemma DrainWriter(cfg: Config, s: State) returns (t: State)
    requires s.writer.up
    ensures Leads(cfg, s, t) && t == s.(q2 := [], writer := t.writer) && Wrote(cfg, s.writer, InHand(s.writer) + s.q2, t.writer)
  {
    var u := Apply(cfg, s, Write);
    LeadsHere(cfg, s);
    LeadsOn(cfg, s, s, Write);
    if s.writer.task.Busy? {
      WroteOne(cfg, s.writer);
    } else {
      WroteNothing(cfg, s.writer);
    }
    t := DrainQueueTwo(cfg, u);
    LeadsTrans(cfg, s, u, t);
    WroteMore(cfg, s.writer, InHand(s.writer), u.writer, s.q2, t.writer);
  }

  // ------------------------------------------------------------------------ parser

  /** The parser is up and idle, and has parsed `evs` since `p`; nothing was dropped or refused. */
  predicate Parsed(p: ParserSide, evs: seq<RawDnsEvent>, p': ParserSide) {
    && p'.up && !p'.panicked && p'.task == Waiting && p'.parsed == p.parsed + evs
    && p'.dropped == p.dropped && p'.closed == p.closed
  }

  lemma ParsedMore(p: ParserSide, a: seq<RawDnsEvent>, p1: ParserSide, b: seq<RawDnsEvent>, p2: ParserSide)
    requires Parsed(p, a, p1) && Parsed(p1, b, p2)
    ensures Parsed(p, a + b, p2)
  {
    assert p.parsed + (a + b) == (p.parsed + a) + b;
  }

  /** Everything behind queue one is idle and empty. */
  predicate Settled(s: State) {
    s.writer.up && s.writer.task == Resting && s.q2 == []
  }

  /** A response in hand is sent into the empty queue and written. */
  lemma SendAndWrite(cfg: Config, s: State, stale: DnsResponse)
    requires Settled(s) && s.parser.up && !s.parser.panicked && s.parser.task == Ready
    ensures var t := Apply(cfg, Apply(cfg, Apply(cfg, s, Send(false, stale)), Take), Write);
            && t == s.(parser := t.parser, writer := t.writer)
            && Parsed(s.parser, [], t.parser) && Wrote(cfg, s.writer, [s.parser.local], t.writer)
  {
    var u := Apply(cfg, s, Send(false, stale));
    assert u == s.(parser := u.parser, q2 := [s.parser.local]);
    WriteNext(cfg, u);
    assert u.q2[1..] == [];
    assert s.parser.parsed + [] == s.parser.parsed;
  }

  lemma DrainReady(cfg: Config, s: State) returns (t: State)
    requires Settled(s) && s.parser.up && !s.parser.panicked && !s.parser.task.Holding?
    ensures Leads(cfg, s, t) && Settled(t) && t == s.(parser := t.parser, writer := t.writer)
    ensures Parsed(s.parser, [], t.parser) && Wrote(cfg, s.writer, AboutToSend(s.parser), t.writer)
  {
    LeadsHere(cfg, s);
    if s.parser.task == Ready {
      var a := Apply(cfg, s, Send(false, EMPTY_RESPONSE));
      LeadsOn(cfg, s, s, Send(false, EMPTY_RESPONSE));
      LeadsOn(cfg, s, a, Take);
      LeadsOn(cfg, s, Apply(cfg, a, Take), Write);
      t := Apply(cfg, Apply(cfg, a, Take), Write);
      SendAndWrite(cfg, s, EMPTY_RESPONSE);
    } else {
      t := s;
      WroteNothing(cfg, s.writer);
      assert s.parser.parsed + [] == s.parser.parsed;
    }
  }

  /** What a parse leaves: the response in hand, or nothing. */
  lemma ParseLeaves(cfg: Config, p: ParserSide)
    requires p.up && SafeParser(p) && p.task.Holding?
    ensures var q := OnParse(cfg, p);
            && q.up && !q.panicked && !q.task.Holding? && q.parsed == p.parsed + [p.task.event]
            && q.dropped == p.dropped && q.closed == p.closed
            && AboutToSend(q) == Listed(Response(cfg, p.task.event))
  {
    ParserSafe(cfg, p);
    ParsePublishes(cfg, p);
    ParseCounts(cfg, p);
  }

  /** An event in hand is parsed, and its response, if there is one, written. */
  lemma DrainHeld(cfg: Config, s: State) returns (t: State)
    requires Settled(s) && s.parser.up && SafeParser(s.parser) && s.parser.task.Holding?
    ensures Leads(cfg, s, t) && Settled(t) && t == s.(parser := t.parser, writer := t.writer)
    ensures Parsed(s.parser, [s.parser.task.event], t.parser)
    ensures Wrote(cfg, s.writer, Listed(Response(cfg, s.parser.task.event)), t.writer)
  {
    var u := Apply(cfg, s, Parse);
    LeadsHere(cfg, s);
    LeadsOn(cfg, s, s, Parse);
    ParseLeaves(cfg, s.parser);
    t := DrainReady(cfg, u);
    LeadsTrans(cfg, s, u, t);
    assert u.parser.parsed + [] == u.parser.parsed;
  }

  lemma OneResponse(cfg: Config, ev: RawDnsEvent)
    ensures Responses(cfg, [ev]) == Listed(Response(cfg, ev))
  {
    ResultsPush(ResponseOf(cfg), [], ev);
    assert [] + [ev] == [ev] && [] + Listed(Response(cfg, ev)) == Listed(Response(cfg, ev));
  }

  /** An idle parser empties queue one. */
  lemma {:induction false} DrainQueueOne(cfg: Config, s: State) returns (t: State)
    requires Settled(s) && s.parser.up && SafeParser(s.parser) && s.parser.task == Waiting && SafeEvents(s.q1)
    ensures Leads(cfg, s, t) && Settled(t) && t == s.(q1 := [], parser := t.parser, writer := t.writer)
    ensures Parsed(s.parser, s.q1, t.parser) && Wrote(cfg, s.writer, Responses(cfg, s.q1), t.writer)
    decreases |s.q1|
  {
    LeadsHere(cfg, s);
    if s.q1 == [] {
      t := s;
      WroteNothing(cfg, s.writer);
      assert s.parser.parsed + [] == s.parser.parsed;
    } else {
      var ev, rest := s.q1[0], s.q1[1..];
      var u := Apply(cfg, s, Receive);
      LeadsOn(cfg, s, s, Receive);
      assert s.q1 == [ev] + rest;
      assert u == s.(q1 := rest, parser := s.parser.(task := Holding(ev)));
      var v := DrainHeld(cfg, u);
      LeadsTrans(cfg, s, u, v);
      SafeTail(s.q1);
      t := DrainQueueOne(cfg, v);
      LeadsTrans(cfg, s, v, t);
      QueueOneStep(cfg, s, u, v, t, ev, rest);
    }
  }

  lemma SafeTail(evs: seq<RawDnsEvent>)
    requires SafeEvents(evs) && evs != []
    ensures EventInBounds(evs[0]) && SafeEvents(evs[1..])
  {
  }

  lemma QueueOneStep(cfg: Config, s: State, u: State, v: State, t: State, ev: RawDnsEvent, rest: seq<RawDnsEvent>)
    requires s.q1 == [ev] + rest && u.parser.parsed == s.parser.parsed && u.writer == s.writer
    requires u.parser.dropped == s.parser.dropped && u.parser.closed == s.parser.closed
    requires Parsed(u.parser, [ev], v.parser) && Wrote(cfg, u.writer, Listed(Response(cfg, ev)), v.writer)
    requires Parsed(v.parser, rest, t.parser) && Wrote(cfg, v.writer, Responses(cfg, rest), t.writer)
    ensures Parsed(s.parser, s.q1, t.parser) && Wrote(cfg, s.writer, Responses(cfg, s.q1), t.writer)
  {
    ParsedMore(u.parser, [ev], v.parser, rest, t.parser);
    WroteMore(cfg, u.writer, Listed(Response(cfg, ev)), v.writer, Responses(cfg, rest), t.writer);
    ResultsConcat(ResponseOf(cfg), [ev], rest);
    OneResponse(cfg, ev);
  }

  // ------------------------------------------------------------------- ring and all

  /** The reader is up and has offered `evs` since `r`; nothing was dropped or refused. */
  predicate HasRead(r: Reader, evs: seq<RawDnsEvent>, r': Reader) {
    r'.up && r'.offered == r.offered + evs && r'.dropped == r.dropped && r'.closed == r.closed
  }

  /** The reader takes the front of the ring; an event of the right size goes into the empty queue one. */
  lemma ReadNext(cfg: Config, s: State)
    requires s.reader.up && s.parser.up && s.parser.task == Waiting && s.q1 == [] && s.kernel.ring != []
    ensures var t, item := Apply(cfg, s, Read(false)), s.kernel.ring[0];
            var evs := if item.len == RAW_EVENT_SIZE then [item.event] else [];
            && t == s.(kernel := s.kernel.(ring := s.kernel.ring[1..]), reader := t.reader, q1 := evs)
            && HasRead(s.reader, evs, t.reader)
  {
    assert s.reader.offered + [] == s.reader.offered;
  }

  /** Idle tasks empty the ring. */
  lemma {:induction false} DrainRing(cfg: Config, s: State) returns (t: State)
    requires Settled(s) && s.reader.up && s.parser.up && SafeParser(s.parser) && s.parser.task == Waiting
    requires s.q1 == [] && SafeItems(s.kernel.ring)
    ensures Leads(cfg, s, t) && Settled(t)
    ensures t == s.(kernel := s.kernel.(ring := []), reader := t.reader, parser := t.parser, writer := t.writer)
    ensures HasRead(s.reader, RingEvents(s.kernel.ring), t.reader) && Parsed(s.parser, RingEvents(s.kernel.ring), t.parser)
    ensures Wrote(cfg, s.writer, Responses(cfg, RingEvents(s.kernel.ring)), t.writer)
    decreases |s.kernel.ring|
  {
    LeadsHere(cfg, s);
    if s.kernel.ring == [] {
      t := s;
      WroteNothing(cfg, s.writer);
      assert s.parser.parsed + [] == s.parser.parsed && s.reader.offered + [] == s.reader.offered;
    } else {
      var u := Apply(cfg, s, Read(false));
      LeadsOn(cfg, s, s, Read(false));
      ReadNext(cfg, s);
      var v := DrainQueueOne(cfg, u);
      LeadsTrans(cfg, s, u, v);
      t := DrainRing(cfg, v);
      LeadsTrans(cfg, s, v, t);
      RingFront(s.kernel.ring);
      RingStep(cfg, s, u, v, t, u.q1, RingEvents(s.kernel.ring[1..]));
    }
  }

  lemma RingStep(cfg: Config, s: State, u: State, v: State, t: State, front: seq<RawDnsEvent>, rest: seq<RawDnsEvent>)
    requires u.parser == s.parser && u.writer == s.writer && v.reader == u.reader
    requires HasRead(s.reader, front, u.reader) && HasRead(v.reader, rest, t.reader)
    requires Parsed(u.parser, front, v.parser) && Parsed(v.parser, rest, t.parser)
    requires Wrote(cfg, u.writer, Responses(cfg, front), v.writer) && Wrote(cfg, v.writer, Responses(cfg, rest), t.writer)
    ensures HasRead(s.reader, front + rest, t.reader) && Parsed(s.parser, front + rest, t.parser)
    ensures Wrote(cfg, s.writer, Responses(cfg, front + rest), t.writer)
  {
    ParsedMore(s.parser, front, v.parser, rest, t.parser);
    ResultsConcat(ResponseOf(cfg), front, rest);
    WroteMore(cfg, s.writer, Responses(cfg, front), v.writer, Responses(cfg, rest), t.writer);
    ReadMore(s.reader, front, u.reader, rest, t.reader);
  }

  lemma ReadMore(r: Reader, a: seq<RawDnsEvent>, r1: Reader, b: seq<RawDnsEvent>, r2: Reader)
    requires HasRead(r, a, r1) && HasRead(r1, b, r2)
    ensures HasRead(r, a + b, r2)
  {
    assert r.offered + (a + b) == (r.offered + a) + b;
  }

  lemma RingFront(ring: seq<RingItem>)
    requires ring != []
    ensures RingEvents(ring) == (if ring[0].len == RAW_EVENT_SIZE then [ring[0].event] else []) + RingEvents(ring[1..])
  {
  }

  /** All tasks run. */
  predicate AllUp(s: State) {
    s.reader.up && s.parser.up && s.writer.up
  }

  /** All tasks run and wait, and nothing is on its way. */
  predicate Idle(s: State) {
    AllUp(s) && s.kernel.ring == [] && s.q1 == [] && s.q2 == [] && s.parser.task == Waiting && s.writer.task == Resting
  }

  /** The events still to be parsed, oldest first. */
  function Unparsed(s: State): seq<RawDnsEvent> {
    (if s.parser.task.Holding? then [s.parser.task.event] else []) + s.q1 + RingEvents(s.kernel.ring)
  }

  /** The parser gets rid of what it has in hand. */
  lemma DrainHand(cfg: Config, s: State) returns (t: State)
    requires Settled(s) && s.parser.up && SafeParser(s.parser)
    ensures Leads(cfg, s, t) && Settled(t) && t == s.(parser := t.parser, writer := t.writer)
    ensures var held := if s.parser.task.Holding? then [s.parser.task.event] else [];
            && Parsed(s.parser, held, t.parser)
            && Wrote(cfg, s.writer, AboutToSend(s.parser) + Responses(cfg, held), t.writer)
  {
    if s.parser.task.Holding? {
      t := DrainHeld(cfg, s);
      OneResponse(cfg, s.parser.task.event);
      assert [] + Responses(cfg, [s.parser.task.event]) == Responses(cfg, [s.parser.task.event]);
    } else {
      t := DrainReady(cfg, s);
      assert AboutToSend(s.parser) + [] == AboutToSend(s.parser);
    }
  }

  /**
   * Delivery: from every state in which the tasks are up, a run without any failing step brings everything on its
   * way to the log: in hand of the writer, in queue two, about to be sent, and the parses of every event held,
   * queued or in the ring, in that order; nothing more is dropped.
   */
  lemma EverythingArrives(cfg: Config, s: State) returns (t: State)
    requires AllUp(s) && Safe(s)
    ensures Leads(cfg, s, t) && Idle(t) && t.kernel == s.kernel.(ring := [])
    ensures t.writer.written == Published(s) + Responses(cfg, Unparsed(s))
    ensures t.reader.dropped == s.reader.dropped && t.parser.dropped == s.parser.dropped
    ensures t.reader.closed == s.reader.closed && t.parser.closed == s.parser.closed
    ensures t.writer.encodeErrors == s.writer.encodeErrors && t.writer.writeErrors == s.writer.writeErrors
  {
    var a := DrainWriter(cfg, s);
    var b := DrainHand(cfg, a);
    var c := DrainQueueOne(cfg, b);
    t := DrainRing(cfg, c);
    LeadsTrans(cfg, s, a, b);
    LeadsTrans(cfg, s, b, c);
    LeadsTrans(cfg, s, c, t);
    var held := if s.parser.task.Holding? then [s.parser.task.event] else [];
    WrittenInOrder(cfg, s, held, s.q1, RingEvents(s.kernel.ring));
  }

  lemma Regroup<T>(w: seq<T>, h: seq<T>, q: seq<T>, a: seq<T>, x: seq<T>, y: seq<T>, z: seq<T>)
    ensures w + (h + q) + (a + x) + y + z == (w + h + q + a) + ((x + y) + z)
  {
  }

  lemma WrittenInOrder(cfg: Config, s: State, held: seq<RawDnsEvent>, queued: seq<RawDnsEvent>, ring: seq<RawDnsEvent>)
    ensures s.writer.written + (InHand(s.writer) + s.q2) + (AboutToSend(s.parser) + Responses(cfg, held))
              + Responses(cfg, queued) + Responses(cfg, ring) ==
            Published(s) + Responses(cfg, held + queued + ring)
  {
    ResultsConcat(ResponseOf(cfg), held, queued);
    ResultsConcat(ResponseOf(cfg), held + queued, ring);
    PublishedParts(s);
    Regroup(s.writer.written, InHand(s.writer), s.q2, AboutToSend(s.parser),
            Responses(cfg, held), Responses(cfg, queued), Responses(cfg, ring));
  }

  lemma PublishedParts(s: State)
    ensures Published(s) == s.writer.written + InHand(s.writer) + s.q2 + AboutToSend(s.parser)
  {
  }

  lemma Regroup4<T>(a: seq<T>, b: seq<T>, c: seq<T>, d: seq<T>)
    ensures a + (b + c + d) == ((a + b) + c) + d
  {
  }

  lemma AllEvents(s: State)
    requires FlowRing(s) && Received(s.parser) + s.q1 == s.reader.offered
    ensures s.parser.parsed + Unparsed(s) == s.kernel.captured
  {
    var held := if s.parser.task.Holding? then [s.parser.task.event] else [];
    Regroup4(s.parser.parsed, held, s.q1, RingEvents(s.kernel.ring));
  }

  lemma AllParsed(cfg: Config, s: State)
    requires FlowRing(s) && FlowKernel(cfg, s.kernel) && Received(s.parser) + s.q1 == s.reader.offered
    requires Published(s) == Responses(cfg, s.parser.parsed)
    ensures Published(s) + Responses(cfg, Unparsed(s)) == FrameResponses(cfg, s.kernel.admitted)
  {
    AllEvents(s);
    JoinResponses(cfg, s.parser.parsed, Unparsed(s), s.kernel.captured);
  }

  lemma JoinResponses(cfg: Config, a: seq<RawDnsEvent>, b: seq<RawDnsEvent>, all: seq<RawDnsEvent>)
    requires a + b == all
    ensures Responses(cfg, a) + Responses(cfg, b) == Responses(cfg, all)
  {
    ResultsConcat(ResponseOf(cfg), a, b);
  }

  /**
   * Completeness, network to file: when a run has lost nothing and the tasks are up, it can be continued so that the
   * log holds, behind what the file held before, exactly one entry for every admitted frame that parses, in the
   * order the frames arrived.
   */
  lemma EveryAdmittedFrameIsLogged(cfg: Config, start: State, run: seq<Action>) returns (t: State)
    requires Fresh(start)
    requires var s := After(cfg, start, run);
             AllUp(s) && s.reader.dropped + s.reader.closed == 0 && LostBehind(s.parser, s.writer) == 0
    ensures var s := After(cfg, start, run);
            && Leads(cfg, s, t) && Idle(t) && t.kernel.admitted == s.kernel.admitted
            && t.writer.written == FrameResponses(cfg, s.kernel.admitted)
            && t.writer.log == start.writer.existing + LogOf(Encodings(cfg, FrameResponses(cfg, s.kernel.admitted)))
  {
    var s := After(cfg, start, run);
    EveryRun(cfg, start, run);
    OnlyCountedLosses(cfg, start, run);
    t := EverythingArrives(cfg, s);
    AllParsed(cfg, s);
    var more :| After(cfg, s, more) == t;
    AfterConcat(cfg, start, run, more);
    EveryRun(cfg, start, run + more);
    RunGrows(cfg, start, [], run + more);
    assert [] + (run + more) == run + more;
    ErrorFreeLog(cfg, t);
  }

  /** Without write errors the log is the frames of the messages written. */
  lemma ErrorFreeLog(cfg: Config, s: State)
    requires LogHolds(cfg, s.writer) && s.writer.writeErrors == 0
    ensures s.writer.log == s.writer.existing + LogOf(Encodings(cfg, s.writer.written))
  {
    AllCompleted(s.writer.attempts);
    LeftLength(s.writer.attempts);
  }

  // ------------------------------------------------------------- one frame, seven steps

  /** A frame is received, copied, read, parsed, sent, taken and written. */
  function SevenSteps(frame: Octets, ts: nat, memory: Payload, stale: DnsResponse): seq<Action> {
    [Arrive(frame, ts, true, memory), Read(false), Receive, Parse, Send(false, stale), Take, Write]
  }

  lemma AfterTwo(cfg: Config, s: State, a: Action, b: Action)
    ensures After(cfg, s, [a, b]) == Apply(cfg, Apply(cfg, s, a), b)
  {
    AfterStep(cfg, s, [], a);
    AfterStep(cfg, s, [a], b);
    assert [] + [a] == [a] && [a] + [b] == [a, b];
  }

  lemma AfterThree(cfg: Config, s: State, a: Action, b: Action, c: Action)
    ensures After(cfg, s, [a, b, c]) == Apply(cfg, Apply(cfg, Apply(cfg, s, a), b), c)
  {
    AfterTwo(cfg, s, a, b);
    AfterStep(cfg, s, [a, b], c);
    assert [a, b] + [c] == [a, b, c];
  }

  lemma AfterFour(cfg: Config, s: State, a: Action, b: Action, c: Action, d: Action)
    ensures After(cfg, s, [a, b, c, d]) == Apply(cfg, Apply(cfg, Apply(cfg, Apply(cfg, s, a), b), c), d)
  {
    AfterThree(cfg, s, a, b, c);
    AfterStep(cfg, s, [a, b, c], d);
    assert [a, b, c] + [d] == [a, b, c, d];
  }

  /** The first three steps, then the next four. */
  lemma AfterSeven(cfg: Config, s: State, frame: Octets, ts: nat, memory: Payload, stale: DnsResponse)
    ensures After(cfg, s, SevenSteps(frame, ts, memory, stale)) ==
              After(cfg, After(cfg, s, [Arrive(frame, ts, true, memory), Read(false), Receive]),
                    [Parse, Send(false, stale), Take, Write])
  {
    var front, back := [Arrive(frame, ts, true, memory), Read(false), Receive], [Parse, Send(false, stale), Take, Write];
    AfterConcat(cfg, s, front, back);
    assert front + back == SevenSteps(frame, ts, memory, stale);
  }

  lemma RingAfterArrival(k: Kernel, frame: Octets, ts: nat, memory: Payload)
    requires k.ring == [] && Classify(frame).Some?
    ensures Classify(frame).value.payloadOffset < |frame|
    ensures var ring := OnArrive(k, frame, ts, true, memory).ring;
            |ring| == 1 && ring[0] == RingItem(RAW_EVENT_SIZE, Captured(frame, Classify(frame).value, ts, memory)) && ring[1..] == []
  {
    ClassifyInFrame(frame);
  }

  /** The first three steps bring an admitted frame's event into the parser's hands. */
  lemma FrameToParser(cfg: Config, s: State, frame: Octets, ts: nat, memory: Payload) returns (ev: RawDnsEvent)
    requires Idle(s) && Classify(frame).Some?
    ensures EventInBounds(ev) && Response(cfg, ev) == FrameResponse(cfg, Arrival(frame, ts))
    ensures var t := Apply(cfg, Apply(cfg, Apply(cfg, s, Arrive(frame, ts, true, memory)), Read(false)), Receive);
            && t == s.(kernel := t.kernel, reader := t.reader, parser := s.parser.(task := Holding(ev)))
            && t.kernel.ring == [] && t.reader.up
  {
    ev := EventOfFrame(cfg, frame, ts, memory);
    FrameToQueue(cfg, s, frame, ts, memory, ev);
    ReceiveOne(cfg, Apply(cfg, Apply(cfg, s, Arrive(frame, ts, true, memory)), Read(false)), ev);
  }

  lemma ReceiveOne(cfg: Config, u: State, ev: RawDnsEvent)
    requires u.parser.up && u.parser.task == Waiting && u.q1 == [ev]
    ensures Apply(cfg, u, Receive) == u.(q1 := [], parser := u.parser.(task := Holding(ev)))
  {
    assert [ev][1..] == [];
  }

  lemma EventOfFrame(cfg: Config, frame: Octets, ts: nat, memory: Payload) returns (ev: RawDnsEvent)
    requires Classify(frame).Some?
    ensures Classify(frame).value.payloadOffset < |frame| && ev == Captured(frame, Classify(frame).value, ts, memory)
    ensures EventInBounds(ev) && Response(cfg, ev) == FrameResponse(cfg, Arrival(frame, ts))
  {
    ClassifyInFrame(frame);
    ev := Captured(frame, Classify(frame).value, ts, memory);
    CapturedResponse(cfg, Arrival(frame, ts), memory);
  }

  lemma FrameToQueue(cfg: Config, s: State, frame: Octets, ts: nat, memory: Payload, ev: RawDnsEvent)
    requires Idle(s) && Classify(frame).Some? && Classify(frame).value.payloadOffset < |frame|
    requires ev == Captured(frame, Classify(frame).value, ts, memory)
    ensures var u := Apply(cfg, Apply(cfg, s, Arrive(frame, ts, true, memory)), Read(false));
            u == s.(kernel := u.kernel, reader := u.reader, q1 := [ev]) && u.kernel.ring == [] && u.reader.up
  {
    var a := Apply(cfg, s, Arrive(frame, ts, true, memory));
    RingAfterArrival(s.kernel, frame, ts, memory);
    assert a == s.(kernel := a.kernel);
    ReadNext(cfg, a);
  }

  /** The next four parse it and write the response, if there is one. */
  lemma ParserToLog(cfg: Config, s: State, stale: DnsResponse)
    requires Settled(s) && s.parser.up && SafeParser(s.parser) && s.parser.task.Holding?
    ensures var t := Apply(cfg, Apply(cfg, Apply(cfg, Apply(cfg, s, Parse), Send(false, stale)), Take), Write);
            && t == s.(parser := t.parser, writer := t.writer) && t.parser.up && t.parser.task == Waiting
            && Wrote(cfg, s.writer, Listed(Response(cfg, s.parser.task.event)), t.writer)
  {
    var u := Apply(cfg, s, Parse);
    ParseLeaves(cfg, s.parser);
    if u.parser.task == Ready {
      SendAndWrite(cfg, u, stale);
    } else {
      WroteNothing(cfg, s.writer);
    }
  }

  /** From any idle state, in any memory: the seven steps write exactly what the frame stands for and end idle. */
  lemma OneFrameDelivered(cfg: Config, s: State, frame: Octets, ts: nat, memory: Payload, stale: DnsResponse)
    requires Idle(s) && !s.parser.panicked && Classify(frame).Some?
    ensures var t := After(cfg, s, SevenSteps(frame, ts, memory, stale));
            Idle(t) && Wrote(cfg, s.writer, Listed(FrameResponse(cfg, Arrival(frame, ts))), t.writer)
  {
    var c := After(cfg, s, [Arrive(frame, ts, true, memory), Read(false), Receive]);
    AfterSeven(cfg, s, frame, ts, memory, stale);
    AfterThree(cfg, s, Arrive(frame, ts, true, memory), Read(false), Receive);
    var ev := FrameToParser(cfg, s, frame, ts, memory);
    AfterFour(cfg, c, Parse, Send(false, stale), Take, Write);
    ParserToLog(cfg, c, stale);
  }

  /**
   * The life of one response: on a clean file, the seven steps for a frame that carries a message with up to one
   * answer leave the old messages and the encoding of that message's response, read back by the documented reader.
   */
  lemma OneMessageLogged(cfg: Config, start: State, x: Frame, m: Message, tail: Octets, ts: nat, memory: Payload, stale: DnsResponse)
    requires Fresh(start) && Carries(x, m, tail) && |m.answers| <= 1
    requires Decode(start.writer.existing).rest == [] && |cfg.encode(Expected(cfg.fmt, x, m, ts))| < 0x1_0000_0000
    ensures var t := After(cfg, start, SevenSteps(EncodeFrame(x), ts, memory, stale));
            Decode(t.writer.log) ==
              Decoded(Decode(start.writer.existing).msgs + [cfg.encode(Expected(cfg.fmt, x, m, ts))], [])
  {
    OneMessageResponse(cfg, x, m, tail, ts);
    FrameLogged(cfg, start, EncodeFrame(x), ts, memory, stale, Expected(cfg.fmt, x, m, ts));
  }

  lemma OneMessageResponse(cfg: Config, x: Frame, m: Message, tail: Octets, ts: nat)
    requires Carries(x, m, tail) && |m.answers| <= 1
    ensures Classify(EncodeFrame(x)).Some?
    ensures FrameResponse(cfg, Arrival(EncodeFrame(x), ts)) == Some(Expected(cfg.fmt, x, m, ts))
  {
    FrameStandsForMessage(cfg, x, m, tail, ts);
    ClassifyComplete(x);
  }

  lemma FrameLogged(cfg: Config, start: State, frame: Octets, ts: nat, memory: Payload, stale: DnsResponse, response: DnsResponse)
    requires Fresh(start) && Classify(frame).Some? && FrameResponse(cfg, Arrival(frame, ts)) == Some(response)
    requires Decode(start.writer.existing).rest == [] && |cfg.encode(response)| < 0x1_0000_0000
    ensures var t := After(cfg, start, SevenSteps(frame, ts, memory, stale));
            Decode(t.writer.log) == Decoded(Decode(start.writer.existing).msgs + [cfg.encode(response)], [])
  {
    OneFrameDelivered(cfg, start, frame, ts, memory, stale);
    assert Encodings(cfg, [response]) == [cfg.encode(response)];
    OneMore(start.writer.existing, cfg.encode(response));
  }

  lemma OneMore(existing: Octets, msg: Octets)
    requires Decode(existing).rest == [] && |msg| < 0x1_0000_0000
    ensures Decode(existing + LogOf([msg])) == Decoded(Decode(existing).msgs + [msg], [])
  {
    var before := Decode(existing).msgs;
    DecodeInverse(existing);
    DecodedFit(existing);
    assert LogOf(before) + [] == LogOf(before);
    LogConcat(before, [msg]);
    WholeLog(existing + LogOf([msg]), before + [msg]);
  }
}
