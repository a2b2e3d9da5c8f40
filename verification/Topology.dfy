/**
 * The three-task topology as a step system. The kernel classifier feeds a ring buffer; a reader,
 * a parser and a writer move messages through two bounded queues that drop when full. Each action
 * is one atomic step of one task, an action that is not enabled leaves the state alone, and a run
 * is any sequence of actions: theorems over all runs cover every interleaving.
 */
module Topology {
  import opened Bytes
  import opened Common
  import opened Answers
  import opened Parser
  import opened Classifier
  import opened Policy
  import opened CommitLog
  import opened Subsequences

  const CHANNEL_CAPACITY: nat := 1000

  /** Address formatting, protobuf encoding and the allowed domains; the first two are uninterpreted. */
  datatype Config = Config(fmt: Formatter, encode: DnsResponse -> Octets, domains: set<Text>)

  datatype Arrival = Arrival(frame: Octets, ts: nat)

  datatype RingItem = RingItem(len: nat, event: RawDnsEvent)

  /** The ring buffer, and for the record: all frames seen, those admitted, the events they became. */
  datatype Kernel = Kernel(
    ring: seq<RingItem>, arrivals: seq<Arrival>, admitted: seq<Arrival>, captured: seq<RawDnsEvent>, foreign: nat)

  /** The reader task, the events it has offered to queue one, and what became of the items it read. */
  datatype Reader = Reader(
    up: bool, offered: seq<RawDnsEvent>, read: nat, wrongSize: nat, dropped: nat, closed: nat)

  /** Waiting for an event, holding a received slot, or done with it and about to send. */
  datatype ParserTask = Waiting | Holding(event: RawDnsEvent) | Ready

  /** The parser task with its reused local response and the policy map, and the events parsed so far. */
  datatype ParserSide = ParserSide(
    up: bool, panicked: bool, task: ParserTask, local: DnsResponse, ips: IpMap,
    parsed: seq<RawDnsEvent>, errors: nat, dropped: nat, closed: nat)

  datatype WriterTask = Resting | Busy(msg: DnsResponse)

  /** The writer thread, the log file and what it held at start-up, all attempts to append to it, and the messages written. */
  datatype WriterSide = WriterSide(
    up: bool, task: WriterTask, existing: Octets, log: Octets, attempts: seq<Attempt>, written: seq<DnsResponse>,
    encodeErrors: nat, writeErrors: nat)

  datatype State = State(
    kernel: Kernel, reader: Reader, q1: seq<RawDnsEvent>, parser: ParserSide, q2: seq<DnsResponse>, writer: WriterSide)

  /** Nothing read, nothing queued, nothing written, all tasks up. */
  predicate Fresh(s: State) {
    && s.kernel.ring == [] && s.kernel.arrivals == [] && s.kernel.admitted == [] && s.kernel.captured == []
    && s.kernel.foreign == 0 && s.q1 == [] && s.q2 == []
    && s.reader.up && s.reader.offered == [] && s.reader.read == 0
    && s.reader.wrongSize == 0 && s.reader.dropped == 0 && s.reader.closed == 0
    && s.parser.up && !s.parser.panicked && s.parser.task == Waiting && s.parser.ips == map[] && s.parser.parsed == []
    && s.parser.errors == 0 && s.parser.dropped == 0 && s.parser.closed == 0
    && s.writer.up && s.writer.task == Resting && s.writer.log == s.writer.existing && s.writer.attempts == [] && s.writer.written == []
    && s.writer.encodeErrors == 0 && s.writer.writeErrors == 0
  }

  /**
   * `full` resolves the one freedom of a bounded channel: a slot still held by its receiver may or
   * may not count as occupied. `stale` is what a reused slot happened to hold before.
   */
  datatype Action =
    | Arrive(frame: Octets, ts: nat, room: bool, memory: Payload)
    | Intrude(item: RingItem)
    | Read(full: bool)
    | Receive
    | Parse
    | Send(full: bool, stale: DnsResponse)
    | Take
    | Write
    | FailEncode
    | FailWrite(k: nat)
    | WriterStops

  predicate Dropping(queued: nat, held: nat, full: bool) {
    queued >= CHANNEL_CAPACITY || (full && queued + held >= CHANNEL_CAPACITY)
  }

  function HeldByParser(p: ParserSide): nat {
    if p.task.Waiting? then 0 else 1
  }

  function HeldByWriter(w: WriterSide): nat {
    if w.task.Resting? then 0 else 1
  }

  // ---------------------------------------------------------------------- kernel

  function OnArrive(k: Kernel, frame: Octets, ts: nat, room: bool, memory: Payload): Kernel {
    var seen := k.(arrivals := k.arrivals + [Arrival(frame, ts)]);
    match Classify(frame)
    case None => seen
    case Some(c) =>
      if !room then seen
      else
        ClassifyInFrame(frame);
        Submit(seen, Arrival(frame, ts), Captured(frame, c, ts, memory))
  }

  function Submit(k: Kernel, a: Arrival, ev: RawDnsEvent): Kernel {
    k.(ring := k.ring + [RingItem(RAW_EVENT_SIZE, ev)], admitted := k.admitted + [a], captured := k.captured + [ev])
  }

  /** A ring item of another size; nothing in the repository writes one, but the reader checks. */
  function OnIntrude(k: Kernel, item: RingItem): Kernel {
    if item.len == RAW_EVENT_SIZE then k else k.(ring := k.ring + [item], foreign := k.foreign + 1)
  }

  // ---------------------------------------------------------------------- reader

  function OnRead(s: State, full: bool): State {
    if !s.reader.up || s.kernel.ring == [] then s
    else
      var item := s.kernel.ring[0];
      var popped := s.(kernel := s.kernel.(ring := s.kernel.ring[1..]));
      if item.len != RAW_EVENT_SIZE then
        popped.(reader := s.reader.(read := s.reader.read + 1, wrongSize := s.reader.wrongSize + 1))
      else Offer(popped, item.event, full)
  }

  /** `try_send_ref` on queue one: closed, full, or room for the event. */
  function Offer(s: State, ev: RawDnsEvent, full: bool): State {
    var r := s.reader.(read := s.reader.read + 1, offered := s.reader.offered + [ev]);
    if !s.parser.up then s.(reader := r.(up := false, closed := r.closed + 1))
    else if Dropping(|s.q1|, HeldByParser(s.parser), full) then s.(reader := r.(dropped := r.dropped + 1))
    else s.(reader := r, q1 := s.q1 + [ev])
  }

  // ---------------------------------------------------------------------- parser

  function OnReceive(s: State): State {
    if !s.parser.up || !s.parser.task.Waiting? || s.q1 == [] then s
    else s.(parser := s.parser.(task := Holding(s.q1[0])), q1 := s.q1[1..])
  }

  /** Parse into the reused local response; a payload length beyond the buffer would panic. */
  function OnParse(cfg: Config, p: ParserSide): ParserSide {
    if !p.up || !p.task.Holding? then p
    else if !EventInBounds(p.task.event) then p.(up := false, panicked := true)
    else Conclude(cfg.domains, p, p.task.event, ParseEvent(cfg.fmt, AsWritten, p.task.event))
  }

  /** What follows a parse: an error is counted, a success is shown to the policy engine first. */
  function Conclude(domains: set<Text>, p: ParserSide, ev: RawDnsEvent, out: Outcome): ParserSide {
    var q := p.(local := out.slot, parsed := p.parsed + [ev]);
    if out.result.Err? then q.(task := Waiting, errors := p.errors + 1)
    else if out.slot.domainName in domains && ChooseKey(out.slot).Panic? then
      q.(task := Ready, up := false, panicked := true)
    else q.(task := Ready, ips := UpdateWith(domains, p.ips, out.slot).ips)
  }

  /** Swap the local response into the next slot of queue two, or drop it. */
  function OnSend(s: State, full: bool, stale: DnsResponse): State {
    if !s.parser.up || !s.parser.task.Ready? then s
    else
      var p := s.parser.(task := Waiting);
      if !s.writer.up then s.(parser := p.(up := false, closed := p.closed + 1))
      else if Dropping(|s.q2|, HeldByWriter(s.writer), full) then s.(parser := p.(dropped := p.dropped + 1))
      else s.(parser := p.(local := stale), q2 := s.q2 + [p.local])
  }

  // ---------------------------------------------------------------------- writer

  function OnTake(s: State): State {
    if !s.writer.up || !s.writer.task.Resting? || s.q2 == [] then s
    else s.(writer := s.writer.(task := Busy(s.q2[0])), q2 := s.q2[1..])
  }

  function OnWrite(cfg: Config, w: WriterSide): WriterSide {
    if !w.task.Busy? then w
    else Attempted(w, Whole(cfg.encode(w.task.msg))).(written := w.written + [w.task.msg])
  }

  function Attempted(w: WriterSide, a: Attempt): WriterSide {
    w.(task := Resting, log := w.log + Left(a), attempts := w.attempts + [a])
  }

  function OnFailEncode(w: WriterSide): WriterSide {
    if !w.task.Busy? then w else w.(task := Resting, encodeErrors := w.encodeErrors + 1)
  }

  /** A failed write leaves some proper part of the frame in the log. */
  function OnFailWrite(cfg: Config, w: WriterSide, k: nat): WriterSide {
    if !w.task.Busy? then w
    else
      var frame := FrameOf(cfg.encode(w.task.msg));
      Attempted(w, Torn(frame[..Min(k, |frame| - 1)])).(writeErrors := w.writeErrors + 1)
  }

  function OnWriterStops(w: WriterSide): WriterSide {
    if w.task.Busy? then w else w.(up := false)
  }

  // ------------------------------------------------------------------------ runs

  function Apply(cfg: Config, s: State, a: Action): State {
    match a
    case Arrive(frame, ts, room, memory) => s.(kernel := OnArrive(s.kernel, frame, ts, room, memory))
    case Intrude(item) => s.(kernel := OnIntrude(s.kernel, item))
    case Read(full) => OnRead(s, full)
    case Receive => OnReceive(s)
    case Parse => s.(parser := OnParse(cfg, s.parser))
    case Send(full, stale) => OnSend(s, full, stale)
    case Take => OnTake(s)
    case Write => s.(writer := OnWrite(cfg, s.writer))
    case FailEncode => s.(writer := OnFailEncode(s.writer))
    case FailWrite(k) => s.(writer := OnFailWrite(cfg, s.writer, k))
    case WriterStops => s.(writer := OnWriterStops(s.writer))
  }

  function After(cfg: Config, s: State, run: seq<Action>): State {
    if run == [] then s else Apply(cfg, After(cfg, s, run[..|run| - 1]), run[|run| - 1])
  }

  lemma AfterStep(cfg: Config, s: State, run: seq<Action>, a: Action)
    ensures After(cfg, s, run + [a]) == Apply(cfg, After(cfg, s, run), a)
  {
    assert (run + [a])[..|run|] == run;
  }

  lemma {:induction false} AfterConcat(cfg: Config, s: State, a: seq<Action>, b: seq<Action>)
    ensures After(cfg, s, a + b) == After(cfg, After(cfg, s, a), b)
    decreases |b|
  {
    if b == [] {
      assert a + b == a;
    } else {
      var m := |b| - 1;
      AfterConcat(cfg, s, a, b[..m]);
      assert a + b == (a + b[..m]) + [b[m]];
      AfterStep(cfg, s, a + b[..m], b[m]);
    }
  }

  // ------------------------------------------------------- what the runs mean

  /** The pure parse of an event, if it succeeds. */
  function Response(cfg: Config, ev: RawDnsEvent): Option<DnsResponse> {
    if EventInBounds(ev) && ParseEvent(cfg.fmt, AsWritten, ev).result.Ok?
    then Some(ParseEvent(cfg.fmt, AsWritten, ev).slot) else None
  }

  function ResponseOf(cfg: Config): RawDnsEvent -> Option<DnsResponse> {
    ev => Response(cfg, ev)
  }

  function Responses(cfg: Config, evs: seq<RawDnsEvent>): seq<DnsResponse> {
    Results(ResponseOf(cfg), evs)
  }

  /** The response a frame stands for: classify, capture, parse; no old memory involved. */
  function FrameResponse(cfg: Config, a: Arrival): Option<DnsResponse> {
    match Classify(a.frame)
    case None => None
    case Some(c) =>
      ClassifyInFrame(a.frame);
      var out := ParseCapture(cfg.fmt, AsWritten, a.frame, c, a.ts);
      if out.result.Ok? then Some(out.slot) else None
  }

  function FrameResponseOf(cfg: Config): Arrival -> Option<DnsResponse> {
    a => FrameResponse(cfg, a)
  }

  function FrameResponses(cfg: Config, arrivals: seq<Arrival>): seq<DnsResponse> {
    Results(FrameResponseOf(cfg), arrivals)
  }

  /** Everything past the parser, oldest first: written, being written, queued, about to be sent. */
  function Published(s: State): seq<DnsResponse> {
    OutOfQueue(s.writer) + s.q2 + AboutToSend(s.parser)
  }

  function OutOfQueue(w: WriterSide): seq<DnsResponse> {
    w.written + (if w.task.Busy? then [w.task.msg] else [])
  }

  function AboutToSend(p: ParserSide): seq<DnsResponse> {
    if p.task.Ready? then [p.local] else []
  }

  /** Everything the parser has received. */
  function Received(p: ParserSide): seq<RawDnsEvent> {
    p.parsed + (if p.task.Holding? then [p.task.event] else [])
  }

  function RingEvents(ring: seq<RingItem>): seq<RawDnsEvent> {
    if ring == [] then []
    else (if ring[0].len == RAW_EVENT_SIZE then [ring[0].event] else []) + RingEvents(ring[1..])
  }
}
