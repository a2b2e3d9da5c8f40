/**
 * What may get lost, and when: the conditions under which an item is dropped, refused, failed or ends a
 * task, step by step and over whole runs. Numbers are written out here.
 */
module Losses {
  import opened Bytes
  import opened Common
  import opened Classifier
  import opened CommitLog
  import opened Topology
  import opened TopologyInvariants
  import opened Guarantees

  // ------------------------------------------------------------------ full queues

  /** The reader has an event in hand and the parser still listens. */
  predicate Offering(s: State) {
    s.reader.up && s.parser.up && s.kernel.ring != [] && s.kernel.ring[0].len == 576
  }

  /**
   * Queue one: an event is dropped only when 1000 slots are taken, counting the one the parser may still hold,
   * and always when 1000 events wait. Below that it is appended.
   */
  lemma ReaderDrops(cfg: Config, s: State, a: Action)
    ensures var t := Apply(cfg, s, a);
            && (t.reader.dropped != s.reader.dropped ==>
                  && a.Read? && Offering(s) && t.reader.dropped == s.reader.dropped + 1 && t.q1 == s.q1
                  && |s.q1| + HeldByParser(s.parser) >= 1000 && (!a.full ==> |s.q1| >= 1000))
            && (a.Read? && Offering(s) && |s.q1| >= 1000 ==> t.reader.dropped == s.reader.dropped + 1)
            && (a.Read? && Offering(s) && (|s.q1| + HeldByParser(s.parser) < 1000 || (!a.full && |s.q1| < 1000)) ==>
                  t.q1 == s.q1 + [s.kernel.ring[0].event] && t.reader.dropped == s.reader.dropped)
  {
  }

  /** The parser has a response in hand and the writer still listens. */
  predicate Sending(s: State) {
    s.parser.up && s.parser.task.Ready? && s.writer.up
  }

  /** Queue two, in the same way; a response that is queued leaves the slot's old contents behind. */
  lemma ParserDrops(cfg: Config, s: State, a: Action)
    ensures var t := Apply(cfg, s, a);
            && (t.parser.dropped != s.parser.dropped ==>
                  && a.Send? && Sending(s) && t.parser.dropped == s.parser.dropped + 1 && t.q2 == s.q2
                  && |s.q2| + HeldByWriter(s.writer) >= 1000 && (!a.full ==> |s.q2| >= 1000))
            && (a.Send? && Sending(s) && |s.q2| >= 1000 ==> t.parser.dropped == s.parser.dropped + 1)
            && (a.Send? && Sending(s) && (|s.q2| + HeldByWriter(s.writer) < 1000 || (!a.full && |s.q2| < 1000)) ==>
                  && t.q2 == s.q2 + [s.parser.local] && t.parser.local == a.stale && t.parser.task == Waiting
                  && t.parser.dropped == s.parser.dropped)
  {
  }

  /** Neither queue ever holds 999 items. */
  ghost predicate Quiet(cfg: Config, start: State, run: seq<Action>) {
    forall i :: 0 <= i <= |run| ==>
      |After(cfg, start, run[..i]).q1| < 999 && |After(cfg, start, run[..i]).q2| < 999
  }

  /** Then nothing is dropped. */
  lemma {:induction false} QuietDropsNothing(cfg: Config, start: State, run: seq<Action>)
    requires Fresh(start) && Quiet(cfg, start, run)
    ensures var s := After(cfg, start, run); s.reader.dropped == 0 && s.parser.dropped == 0
  {
    if run == [] {
    } else {
      var m := |run| - 1;
      forall i | 0 <= i <= m
        ensures |After(cfg, start, run[..m][..i]).q1| < 999 && |After(cfg, start, run[..m][..i]).q2| < 999
      {
        assert run[..m][..i] == run[..i];
      }
      QuietDropsNothing(cfg, start, run[..m]);
      ReaderDrops(cfg, After(cfg, start, run[..m]), run[m]);
      ParserDrops(cfg, After(cfg, start, run[..m]), run[m]);
    }
  }

  // -------------------------------------------------------- faults and their causes

  datatype Kind = EncodeFailure | WriteFailure | Intrusion | Stopping

  predicate IsOf(kind: Kind, a: Action) {
    match kind
    case EncodeFailure => a.FailEncode?
    case WriteFailure => a.FailWrite?
    case Intrusion => a.Intrude?
    case Stopping => a.WriterStops?
  }

  /** How many actions of a kind a run holds. */
  function Count(kind: Kind, run: seq<Action>): nat {
    if run == [] then 0 else Count(kind, run[..|run| - 1]) + (if IsOf(kind, run[|run| - 1]) then 1 else 0)
  }

  /** What the run so far is to blame for. */
  predicate Blamed(run: seq<Action>, s: State) {
    && s.writer.encodeErrors <= Count(EncodeFailure, run) && s.writer.writeErrors <= Count(WriteFailure, run)
    && s.kernel.foreign <= Count(Intrusion, run)
    && (Count(Stopping, run) == 0 ==>
          s.reader.up && s.parser.up && s.writer.up && s.reader.closed == 0 && s.parser.closed == 0)
  }

  /** What each step may add to the faults. */
  lemma StepFaults(cfg: Config, s: State, a: Action)
    requires SafeParser(s.parser)
    ensures var t := Apply(cfg, s, a);
            && t.writer.encodeErrors <= s.writer.encodeErrors + (if a.FailEncode? then 1 else 0)
            && t.writer.writeErrors <= s.writer.writeErrors + (if a.FailWrite? then 1 else 0)
            && t.kernel.foreign <= s.kernel.foreign + (if a.Intrude? then 1 else 0)
  {
  }

  /** When a task ends: the writer when it is told to, the others when they find the next one gone. */
  lemma Shutdown(cfg: Config, s: State, a: Action)
    requires SafeParser(s.parser)
    ensures var t := Apply(cfg, s, a);
            && (t.writer.up <==> s.writer.up && !(a.WriterStops? && s.writer.task.Resting?))
            && (t.parser.up <==> s.parser.up && !(a.Send? && s.parser.task.Ready? && !s.writer.up))
            && (t.reader.up <==> s.reader.up && !(a.Read? && s.kernel.ring != [] && s.kernel.ring[0].len == 576 && !s.parser.up))
            && t.parser.closed == s.parser.closed + (if s.parser.up && !t.parser.up then 1 else 0)
            && t.reader.closed == s.reader.closed + (if s.reader.up && !t.reader.up then 1 else 0)
  {
    if a.Parse? {
      ParserSafe(cfg, s.parser);
      ParseKeepsClosed(cfg, s.parser);
    }
  }

  lemma ParseKeepsClosed(cfg: Config, p: ParserSide)
    ensures OnParse(cfg, p).closed == p.closed
  {
  }

  /** Over every run: errors of the writer, items of a wrong size and ends of tasks have their cause in the run. */
  lemma {:induction false} FaultsHaveCauses(cfg: Config, start: State, run: seq<Action>)
    requires Fresh(start)
    ensures Blamed(run, After(cfg, start, run))
  {
    if run == [] {
    } else {
      var before, a := run[..|run| - 1], run[|run| - 1];
      FaultsHaveCauses(cfg, start, before);
      ParserStaysSafe(cfg, start, before);
      BlameStep(cfg, before, After(cfg, start, before), a);
      assert run == before + [a];
    }
  }

  lemma ParserStaysSafe(cfg: Config, start: State, run: seq<Action>)
    requires Fresh(start)
    ensures SafeParser(After(cfg, start, run).parser)
  {
    EveryRun(cfg, start, run);
  }

  lemma BlameStep(cfg: Config, run: seq<Action>, s: State, a: Action)
    requires Blamed(run, s) && SafeParser(s.parser)
    ensures Blamed(run + [a], Apply(cfg, s, a))
  {
    StepFaults(cfg, s, a);
    Shutdown(cfg, s, a);
    assert (run + [a])[..|run|] == run;
  }

  /**
   * A run without failing writes and stops, whose queues never hold 999 items, loses nothing: the messages
   * published are exactly the parses of the events received, these are the events offered in order, and with
   * nothing left on the way in, every event offered has been published if it parses.
   */
  lemma FaultlessLosesNothing(cfg: Config, start: State, run: seq<Action>)
    requires Fresh(start) && Quiet(cfg, start, run)
    requires Count(EncodeFailure, run) == 0 && Count(WriteFailure, run) == 0 && Count(Stopping, run) == 0
    ensures var s := After(cfg, start, run);
            && Received(s.parser) + s.q1 == s.reader.offered
            && Published(s) == Responses(cfg, s.parser.parsed)
            && (s.q1 == [] && !s.parser.task.Holding? ==> Published(s) == Responses(cfg, s.reader.offered))
  {
    QuietDropsNothing(cfg, start, run);
    FaultsHaveCauses(cfg, start, run);
    OnlyCountedLosses(cfg, start, run);
  }

  // ------------------------------------------------------------ the kernel and the file

  /** The four length octets, most significant first. */
  function LengthOctets(n: nat): Octets
    requires n < 0x1_0000_0000
  {
    [n / 65536 / 256, n / 65536 % 256, n % 65536 / 256, n % 65536 % 256]
  }

  lemma FrameOctets(msg: Octets)
    ensures FrameOf(msg) == LengthOctets(|msg| % 0x1_0000_0000) + msg
  {
    BigEndian(0, |msg| % 0x1_0000_0000);
    assert Be32(|msg| % 0x1_0000_0000) == LengthOctets(|msg| % 0x1_0000_0000);
  }

  /** What the writer does with the message it holds: four length octets and the encoding, nothing, or part of them. */
  lemma WriterExact(cfg: Config, s: State, msg: DnsResponse, k: nat)
    requires s.writer.task == Busy(msg)
    ensures var frame := LengthOctets(|cfg.encode(msg)| % 0x1_0000_0000) + cfg.encode(msg);
            var done, unencoded, torn := Apply(cfg, s, Write).writer, Apply(cfg, s, FailEncode).writer, Apply(cfg, s, FailWrite(k)).writer;
            && done.task == unencoded.task == torn.task == Resting
            && done.log == s.writer.log + frame && done.written == s.writer.written + [msg]
            && done.encodeErrors == s.writer.encodeErrors && done.writeErrors == s.writer.writeErrors
            && unencoded.log == s.writer.log && unencoded.written == s.writer.written
            && unencoded.encodeErrors == s.writer.encodeErrors + 1 && unencoded.writeErrors == s.writer.writeErrors
            && torn.log == s.writer.log + frame[..Min(k, |frame| - 1)] && torn.written == s.writer.written
            && torn.encodeErrors == s.writer.encodeErrors && torn.writeErrors == s.writer.writeErrors + 1
  {
    FrameOctets(cfg.encode(msg));
  }

  /** The ring grows by one item of 576 bytes for an admitted frame when there is room, and otherwise not. */
  lemma ArrivalExact(cfg: Config, s: State, frame: Octets, ts: nat, room: bool, memory: Payload)
    ensures var t := Apply(cfg, s, Arrive(frame, ts, room, memory));
            && t.kernel.arrivals == s.kernel.arrivals + [Arrival(frame, ts)] &&
            if room && (Ipv4Dns(frame) || Ipv6Dns(frame)) then
              && |t.kernel.ring| == |s.kernel.ring| + 1 && s.kernel.ring <= t.kernel.ring
              && t.kernel.ring[|s.kernel.ring|].len == 576
              && t.kernel.admitted == s.kernel.admitted + [Arrival(frame, ts)]
            else t.kernel.ring == s.kernel.ring && t.kernel.admitted == s.kernel.admitted
  {
    ClassifyOctets(frame);
  }

  /** An item of another size in the ring is read once, counted, and goes nowhere. */
  lemma WrongSizeIgnored(cfg: Config, s: State, item: RingItem, full: bool)
    requires item.len != 576 && s.kernel.ring == [] && s.reader.up
    ensures var u := Apply(cfg, s, Intrude(item));
            u.kernel.ring == [item] && u.kernel.foreign == s.kernel.foreign + 1 &&
            var t := Apply(cfg, u, Read(full));
            && t.kernel.ring == [] && t.q1 == s.q1 && t.reader.offered == s.reader.offered
            && t.reader.wrongSize == s.reader.wrongSize + 1 && t.reader.read == s.reader.read + 1
  {
    assert [item][1..] == [];
  }
}
