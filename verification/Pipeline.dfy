/**
 * The tasks on real buffers: a ring, two queues that are reassigned, one reused local response, the
 * policy engine's map and the log writer. Every action of module Topology is carried out here by code,
 * and `Drive` carries out any run, so the theorems over runs are theorems about these buffers.
 */
module Pipeline {
  import opened Bytes
  import opened Common
  import opened Answers
  import opened Parser
  import opened ParserSlot
  import opened Classifier
  import opened Policy
  import opened CommitLog
  import opened Topology
  import opened TopologyInvariants

  /** The state at start-up, over a log file that holds `existing`. */
  ghost function Started(existing: Octets): (s: State)
    ensures Fresh(s) && s.writer.existing == existing
  {
    State(Kernel([], [], [], [], 0), Reader(true, [], 0, 0, 0, 0), [],
          ParserSide(true, false, Waiting, EMPTY_RESPONSE, map[], [], 0, 0, 0), [],
          WriterSide(true, Resting, existing, existing, [], [], 0, 0))
  }

  class Daemon {
    const cfg: Config
    var ring: seq<RingItem>
    var readerUp: bool
    var q1: seq<RawDnsEvent>
    var parserUp: bool
    var task: ParserTask
    const local: DnsSlot
    const engine: FqdnPolicyEngine
    var q2: seq<DnsResponse>
    var writerUp: bool
    var writing: WriterTask
    const writer: LogWriter

    constructor (cfg: Config, existing: Octets)
      ensures this.cfg == cfg && Shows(Started(existing))
      ensures fresh(local) && fresh(engine) && fresh(writer)
    {
      this.cfg := cfg;
      ring, q1, q2 := [], [], [];
      readerUp, parserUp, writerUp := true, true, true;
      task, writing := Waiting, Resting;
      local := new DnsSlot();
      engine := new FqdnPolicyEngine(cfg.domains);
      writer := new LogWriter(existing);
    }

    /** The buffers are those of the abstract state. */
    ghost predicate Shows(s: State)
      reads this, local, engine, writer
    {
      && ring == s.kernel.ring && readerUp == s.reader.up && q1 == s.q1
      && parserUp == s.parser.up && task == s.parser.task && local.Value() == s.parser.local
      && engine.allowedDomains == cfg.domains && engine.allowedIpMap == s.parser.ips
      && q2 == s.q2 && writerUp == s.writer.up && writing == s.writer.task && writer.log == s.writer.log
    }

    /** A frame: reserve an entry if there is room, classify, copy and submit. */
    method Arrive(frame: Octets, ts: nat, room: bool, memory: Payload, ghost s: State)
      requires Shows(s)
      modifies this`ring
      ensures Shows(Apply(cfg, s, Topology.Arrive(frame, ts, room, memory)))
    {
      ArriveRing(s.kernel, frame, ts, room, memory);
      if !room {
        return;
      }
      var entry := Reserve(memory);
      var submitted := TryDnsTc(frame, entry, ts);
      if submitted {
        ring := ring + [RingItem(RAW_EVENT_SIZE, entry.Event())];
      }
    }

    /** A ring item of another size. */
    method Intrude(item: RingItem, ghost s: State)
      requires Shows(s)
      modifies this`ring
      ensures Shows(Apply(cfg, s, Topology.Intrude(item)))
    {
      if item.len != RAW_EVENT_SIZE {
        ring := ring + [item];
      }
    }

    /** One iteration of the reader: check the item's size, then `try_send_ref` into queue one. */
    method Read(full: bool, ghost s: State)
      requires Shows(s)
      modifies this`ring, this`readerUp, this`q1
      ensures Shows(OnRead(s, full))
    {
      if !readerUp || ring == [] {
        return;
      }
      var item := ring[0];
      ring := ring[1..];
      if item.len != RAW_EVENT_SIZE {
        return;
      }
      if !parserUp {
        readerUp := false;
      } else if !Dropping(|q1|, if task.Waiting? then 0 else 1, full) {
        q1 := q1 + [item.event];
      }
    }

    /** `recv_ref` on queue one. */
    method Receive(ghost s: State)
      requires Shows(s)
      modifies this`task, this`q1
      ensures Shows(OnReceive(s))
    {
      if parserUp && task.Waiting? && q1 != [] {
        task := Holding(q1[0]);
        q1 := q1[1..];
      }
    }

    /** Parse into the reused response; on success show it to the policy engine. */
    method Parse(ghost s: State)
      requires Shows(s) && Safe(s)
      modifies this`task, local, engine
      ensures Shows(Apply(cfg, s, Topology.Parse))
    {
      if !parserUp || !task.Holding? {
        return;
      }
      var ev := task.event;
      EventChunkSafe(cfg.fmt, AsWritten, ev);
      var r := local.ParseDnsInto(cfg.fmt, ev);
      if r.Err? {
        task := Waiting;
        return;
      }
      ChunkSafeNeverPanics(local.Value());
      var _ := engine.Observe(local.Value());
      task := Ready;
    }

    /** `try_send_ref` into queue two, swapping the response with what the slot held. */
    method Send(full: bool, stale: DnsResponse, ghost s: State)
      requires Shows(s)
      modifies this`task, this`parserUp, this`q2, local
      ensures Shows(OnSend(s, full, stale))
    {
      if !parserUp || !task.Ready? {
        return;
      }
      task := Waiting;
      if !writerUp {
        parserUp := false;
      } else if !Dropping(|q2|, if writing.Resting? then 0 else 1, full) {
        var sent := local.Swap(stale);
        q2 := q2 + [sent];
      }
    }

    /** `recv_ref` on queue two. */
    method Take(ghost s: State)
      requires Shows(s)
      modifies this`writing, this`q2
      ensures Shows(OnTake(s))
    {
      if writerUp && writing.Resting? && q2 != [] {
        writing := Busy(q2[0]);
        q2 := q2[1..];
      }
    }

    /** Encode and write the frame; either may fail, and the loop goes on. */
    method WriteOut(fault: Fault, ghost s: State)
      requires Shows(s)
      modifies this`writing, writer
      ensures Shows(Apply(cfg, s, WriteAction(fault)))
    {
      if !writing.Busy? {
        return;
      }
      var msg := writing.msg;
      writing := Resting;
      match fault {
        case EncodeFails =>
        case WriteFails(k) => writer.AppendTorn(cfg.encode(msg), k);
        case NoFault => writer.Append(cfg.encode(msg));
      }
    }

    method StopWriter(ghost s: State)
      requires Shows(s)
      modifies this`writerUp
      ensures Shows(Apply(cfg, s, WriterStops))
    {
      if !writing.Busy? {
        writerUp := false;
      }
    }

    /** One action of one task. */
    method Step(a: Action, ghost s: State)
      requires Shows(s) && Safe(s)
      modifies this, local, engine, writer
      ensures Shows(Apply(cfg, s, a))
    {
      match a {
        case Arrive(frame, ts, room, memory) => Arrive(frame, ts, room, memory, s);
        case Intrude(item) => Intrude(item, s);
        case Read(full) => Read(full, s);
        case Receive => Receive(s);
        case Parse => Parse(s);
        case Send(full, stale) => Send(full, stale, s);
        case Take => Take(s);
        case _ => StepWriter(a, s);
      }
    }

    /** The writer's actions once it holds a message, and its end. */
    method StepWriter(a: Action, ghost s: State)
      requires Shows(s) && (a.Write? || a.FailEncode? || a.FailWrite? || a.WriterStops?)
      modifies this`writing, this`writerUp, writer
      ensures Shows(Apply(cfg, s, a))
    {
      match a {
        case Write => WriteOut(NoFault, s);
        case FailEncode => WriteOut(EncodeFails, s);
        case FailWrite(k) => WriteOut(WriteFails(k), s);
        case WriterStops => StopWriter(s);
      }
    }

    /** Any interleaving of the tasks, on these buffers, ends where the step system ends. */
    method Drive(run: seq<Action>, ghost start: State)
      requires Shows(start) && Fresh(start)
      modifies this, local, engine, writer
      ensures Shows(After(cfg, start, run))
    {
      for i := 0 to |run|
        invariant Shows(After(cfg, start, run[..i]))
      {
        EveryRun(cfg, start, run[..i]);
        Step(run[i], After(cfg, start, run[..i]));
        assert run[..i + 1][..i] == run[..i];
      }
      assert run[..|run|] == run;
    }
  }

  /** All that an arrival does to the ring. */
  lemma ArriveRing(k: Kernel, frame: Octets, ts: nat, room: bool, memory: Payload)
    ensures var after := OnArrive(k, frame, ts, room, memory).ring;
            match Classify(frame)
            case None => after == k.ring
            case Some(c) =>
              && c.payloadOffset < |frame|
              && after == if room then k.ring + [RingItem(RAW_EVENT_SIZE, Captured(frame, c, ts, memory))] else k.ring
  {
    if Classify(frame).Some? {
      ClassifyInFrame(frame);
    }
  }

  /** A ring-buffer entry over memory that was not cleared. */
  method Reserve(memory: Payload) returns (entry: EventBuffer)
    ensures fresh(entry) && fresh(entry.payload) && entry.Valid() && entry.payload[..] == memory
  {
    var octets := new Byte[MAX_DNS_PAYLOAD_SIZE](i requires 0 <= i < MAX_DNS_PAYLOAD_SIZE => memory[i]);
    assert octets[..] == memory;
    entry := new EventBuffer(octets, FromIpv4([0, 0, 0, 0]));
  }

  /** How the environment lets a write go. */
  datatype Fault = NoFault | EncodeFails | WriteFails(k: nat)

  function WriteAction(fault: Fault): Action {
    match fault
    case NoFault => Write
    case EncodeFails => FailEncode
    case WriteFails(k) => FailWrite(k)
  }
}
