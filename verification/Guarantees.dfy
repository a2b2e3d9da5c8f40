/** The run-level theorems, spelled out: what an operator may rely on after any interleaving of the tasks. */
module Guarantees {
  import opened Bytes
  import opened Common
  import opened Policy
  import opened CommitLog
  import opened Subsequences
  import opened Topology
  import opened TopologyInvariants

  // ---------------------------------------------------------------- refinement

  /**
   * Pipeline refinement, network to log: in every reachable state, what has been written, is being
   * written, is queued or is about to be sent is matched, in order, with distinct frames seen on the
   * network, and each message is exactly the pure parse of its frame. Drops, failed parses, stale
   * buffers and old kernel memory can remove messages; they cannot change, duplicate or reorder them.
   */
  lemma LogRefinesFrames(cfg: Config, start: State, run: seq<Action>) returns (idx: seq<nat>)
    requires Fresh(start)
    ensures var s := After(cfg, start, run); From(FrameResponseOf(cfg), s.kernel.arrivals, Published(s), idx)
  {
    EveryRun(cfg, start, run);
    var s := After(cfg, start, run);
    FlowComposes(cfg, s);
    var o := ResultsFrom(FrameResponseOf(cfg), s.kernel.arrivals);
    idx := FromSub(FrameResponseOf(cfg), s.kernel.arrivals, FrameResponses(cfg, s.kernel.arrivals), o, Published(s));
  }

  /** The same at the ring buffer: published messages are an in-order selection of the parses of the events read. */
  lemma LogRefinesEvents(cfg: Config, start: State, run: seq<Action>)
    requires Fresh(start)
    ensures var s := After(cfg, start, run); Sub(Published(s), Responses(cfg, s.reader.offered))
  {
    EveryRun(cfg, start, run);
    FlowComposes(cfg, After(cfg, start, run));
  }

  /**
   * And nothing else is missing: at each stage exactly as many are left out as were counted as dropped,
   * refused or failed. Where none was, the selection is everything; with nothing left on the way in,
   * the messages are then exactly the parses of all events offered.
   */
  lemma OnlyCountedLosses(cfg: Config, start: State, run: seq<Action>)
    requires Fresh(start)
    ensures var s := After(cfg, start, run);
            var lost1, lost2 := s.reader.dropped + s.reader.closed, LostBehind(s.parser, s.writer);
            && |s.reader.offered| == |Received(s.parser) + s.q1| + lost1
            && |Responses(cfg, s.parser.parsed)| == |s.parser.parsed| - s.parser.errors
            && |Published(s)| == |s.parser.parsed| - s.parser.errors - lost2
            && (lost1 == 0 ==> Received(s.parser) + s.q1 == s.reader.offered)
            && (lost2 == 0 ==> Published(s) == Responses(cfg, s.parser.parsed))
            && (lost1 == 0 && lost2 == 0 && s.q1 == [] && !s.parser.task.Holding? ==>
                  Published(s) == Responses(cfg, s.reader.offered))
  {
    EveryRun(cfg, start, run);
    var s := After(cfg, start, run);
    SubLength(Received(s.parser) + s.q1, s.reader.offered);
    SubLength(Published(s), Responses(cfg, s.parser.parsed));
    if s.q1 == [] && !s.parser.task.Holding? {
      assert Received(s.parser) + s.q1 == s.parser.parsed;
    }
  }

  // ------------------------------------------------------ panics and conservation

  /** No slice or `unwrap` of the parser task ever fails, and a task ends only after the one behind it has. */
  lemma NeverPanics(cfg: Config, start: State, run: seq<Action>)
    requires Fresh(start)
    ensures var s := After(cfg, start, run);
            !s.parser.panicked && (s.writer.up ==> s.parser.up) && (s.parser.up ==> s.reader.up)
  {
    EveryRun(cfg, start, run);
  }

  /** Conservation: every item read from the ring is in exactly one place. */
  lemma NothingVanishes(cfg: Config, start: State, run: seq<Action>)
    requires Fresh(start)
    ensures var s := After(cfg, start, run);
            && |s.q1| <= CHANNEL_CAPACITY && |s.q2| <= CHANNEL_CAPACITY
            && |s.kernel.captured| + s.kernel.foreign == s.reader.read + |s.kernel.ring|
            && s.reader.read ==
                 s.reader.wrongSize + s.reader.dropped + s.reader.closed
                 + |s.q1| + HeldByParser(s.parser) + s.parser.errors + s.parser.dropped + s.parser.closed
                 + |s.q2| + HeldByWriter(s.writer) + s.writer.encodeErrors + s.writer.writeErrors + |s.writer.written|
  {
    EveryRun(cfg, start, run);
  }

  // ------------------------------------------------------------------------ policy

  lemma {:induction false} SubMember<T>(a: seq<T>, b: seq<T>, x: T)
    requires Sub(a, b) && x in a
    ensures x in b
  {
    var idx := SubMeaning(a, b);
    var i :| 0 <= i < |a| && a[i] == x;
    assert b[idx[i]] == x;
  }

  /**
   * Policy before log: a response in queue two or in the log that has an allowed domain and an
   * address has its key in the map, or the map is full. And every key in the map was chosen for an
   * allowed-domain response that some frame seen on the network stands for.
   */
  lemma PolicyBeforeLog(cfg: Config, start: State, run: seq<Action>)
    requires Fresh(start)
    ensures var s := After(cfg, start, run);
            && (forall m | m in s.q2 || m in s.writer.written :: Covered(cfg, s.parser.ips, m))
            && |s.parser.ips| <= MAP_CAPACITY
            && (forall k | k in s.parser.ips :: Justified(cfg, k, FrameResponses(cfg, s.kernel.arrivals)))
  {
    EveryRun(cfg, start, run);
    var s := After(cfg, start, run);
    forall m | m in s.q2 || m in s.writer.written ensures Covered(cfg, s.parser.ips, m) {
      assert m in Published(s);
    }
    ParsedIsSeen(cfg, s);
    forall k | k in s.parser.ips ensures Justified(cfg, k, FrameResponses(cfg, s.kernel.arrivals)) {
      var m :| m in Responses(cfg, s.parser.parsed) && NeedsKey(cfg, m) && ChooseKey(m) == Key(k);
      SubMember(Responses(cfg, s.parser.parsed), FrameResponses(cfg, s.kernel.arrivals), m);
    }
  }

  /** Every key in the map is four octets, twelve zeros and family 2, or sixteen octets and family 10. */
  lemma MapKeysShaped(cfg: Config, start: State, run: seq<Action>)
    requires Fresh(start)
    ensures forall k | k in After(cfg, start, run).parser.ips :: KeyShape(k)
  {
    EveryRun(cfg, start, run);
    var s := After(cfg, start, run);
    forall k | k in s.parser.ips ensures KeyShape(k) {
      var m :| m in Responses(cfg, s.parser.parsed) && NeedsKey(cfg, m) && ChooseKey(m) == Key(k);
      ChosenKeyOctets(m);
    }
  }

  lemma ParsedIsSeen(cfg: Config, s: State)
    requires FlowIn(s) && FlowRing(s) && FlowKernel(cfg, s.kernel)
    ensures Sub(Responses(cfg, s.parser.parsed), FrameResponses(cfg, s.kernel.arrivals))
  {
    ParsedWasOffered(s);
    SubTrans(s.parser.parsed, s.reader.offered, s.kernel.captured);
    ResultsMonotone(ResponseOf(cfg), s.parser.parsed, s.kernel.captured);
    ResultsMonotone(FrameResponseOf(cfg), s.kernel.admitted, s.kernel.arrivals);
    SubTrans(Responses(cfg, s.parser.parsed), FrameResponses(cfg, s.kernel.admitted),
             FrameResponses(cfg, s.kernel.arrivals));
  }

  /** What only ever grows: the keys of the map, the log, and the list of messages written. */
  predicate Grows(s: State, t: State) {
    && s.writer.existing == t.writer.existing
    && s.parser.ips.Keys <= t.parser.ips.Keys && s.writer.log <= t.writer.log && s.writer.written <= t.writer.written
  }

  lemma ParserGrows(cfg: Config, p: ParserSide)
    requires SafeParser(p) && |p.ips| <= MAP_CAPACITY
    ensures p.ips.Keys <= OnParse(cfg, p).ips.Keys
  {
    if p.up && p.task.Holding? {
      ParseUpdates(cfg, p);
      if Response(cfg, p.task.event).Some? {
        UpdateFacts(cfg.domains, p.ips, Response(cfg, p.task.event).value);
      }
    }
  }

  lemma WriterGrows(cfg: Config, s: State, a: Action)
    ensures var w := Apply(cfg, s, a).writer; s.writer.existing == w.existing && s.writer.log <= w.log && s.writer.written <= w.written
  {
  }

  lemma StepGrows(cfg: Config, s: State, a: Action)
    requires SafeParser(s.parser) && |s.parser.ips| <= MAP_CAPACITY
    ensures Grows(s, Apply(cfg, s, a))
  {
    WriterGrows(cfg, s, a);
    if a.Parse? {
      ParserGrows(cfg, s.parser);
    } else {
      OthersKeepPolicy(cfg, s, a);
    }
  }

  lemma {:induction false} GrowsFrom(cfg: Config, s: State, run: seq<Action>)
    requires Invariant(cfg, s)
    ensures Grows(s, After(cfg, s, run))
  {
    if run == [] {
    } else {
      var m := |run| - 1;
      GrowsFrom(cfg, s, run[..m]);
      RunKeeps(cfg, s, run[..m]);
      StepGrows(cfg, After(cfg, s, run[..m]), run[m]);
    }
  }

  /** Monotonicity over runs: the map never shrinks and the log is append-only. */
  lemma RunGrows(cfg: Config, start: State, a: seq<Action>, b: seq<Action>)
    requires Fresh(start)
    ensures Grows(After(cfg, start, a), After(cfg, start, a + b))
  {
    EveryRun(cfg, start, a);
    GrowsFrom(cfg, After(cfg, start, a), b);
    AfterConcat(cfg, start, a, b);
  }

  // ----------------------------------------------------------------------- the log

  /**
   * Recovery: after any run on any file, a reader of the documented format gets back what the file held and
   * exactly the encodings of the messages written, in order, if and only if the file ended with a whole
   * frame at start-up, no failed write left an octet and every encoding fits the length field. From any
   * byte prefix of such a file, as a crash would leave it, it gets back a prefix of them.
   */
  lemma LogRecovers(cfg: Config, start: State, run: seq<Action>, k: nat)
    requires Fresh(start) && k <= |After(cfg, start, run).writer.log|
    ensures var w := After(cfg, start, run).writer;
            var before, msgs := Decode(start.writer.existing), Encodings(cfg, w.written);
            var clean := before.rest == [] && TornOctets(w.attempts) == 0 && Representable(msgs);
            && (Decode(w.log) == Decoded(before.msgs + msgs, []) <==> clean)
            && (clean ==> Decode(w.log[..k]).msgs <= before.msgs + msgs)
  {
    EveryRun(cfg, start, run);
    RunGrows(cfg, start, [], run);
    assert [] + run == run;
    var w := After(cfg, start, run).writer;
    ResumedLog(w.existing, w.attempts, k);
  }

  lemma WrittenIsPublished(s: State)
    ensures Sub(s.writer.written, Published(s))
  {
    var w, busy := s.writer.written, if s.writer.task.Busy? then [s.writer.task.msg] else [];
    SubRefl(Published(s));
    assert Published(s) == w + (busy + s.q2 + AboutToSend(s.parser));
    SubFront(w, busy + s.q2 + AboutToSend(s.parser), Published(s));
  }

  /**
   * From the network to the file: after any run that left the log clean, the documented reader finds the old
   * messages and then, one for one, the encodings of what distinct frames seen on the network stand for, in the
   * order the frames arrived.
   */
  lemma FileRefinesFrames(cfg: Config, start: State, run: seq<Action>) returns (idx: seq<nat>)
    requires Fresh(start)
    ensures var s, before := After(cfg, start, run), Decode(start.writer.existing);
            && Increasing(idx, |s.kernel.arrivals|)
            && (before.rest == [] && TornOctets(s.writer.attempts) == 0 && Representable(Encodings(cfg, s.writer.written)) ==>
                  FileMatches(cfg, s.kernel.arrivals, before.msgs, Decode(s.writer.log), idx))
  {
    var s, before := After(cfg, start, run), Decode(start.writer.existing);
    EveryRun(cfg, start, run);
    idx := WrittenFrom(cfg, s);
    LogRecovers(cfg, start, run, 0);
    if before.rest == [] && TornOctets(s.writer.attempts) == 0 && Representable(Encodings(cfg, s.writer.written)) {
      EntriesOf(cfg, s.kernel.arrivals, before.msgs, s.writer.written, Decode(s.writer.log), idx);
    }
  }

  /** The file holds the old messages and then, for each index, the entry of that frame, and nothing else. */
  ghost predicate FileMatches(cfg: Config, arrivals: seq<Arrival>, before: seq<Octets>, file: Decoded, idx: seq<nat>) {
    && file.rest == [] && |file.msgs| == |before| + |idx| && before <= file.msgs && Increasing(idx, |arrivals|)
    && forall i :: 0 <= i < |idx| ==> FileEntry(cfg, arrivals[idx[i]], file.msgs[|before| + i])
  }

  lemma WrittenFrom(cfg: Config, s: State) returns (idx: seq<nat>)
    requires Invariant(cfg, s)
    ensures From(FrameResponseOf(cfg), s.kernel.arrivals, s.writer.written, idx)
  {
    FlowComposes(cfg, s);
    WrittenIsPublished(s);
    SubTrans(s.writer.written, Published(s), FrameResponses(cfg, s.kernel.arrivals));
    var o := ResultsFrom(FrameResponseOf(cfg), s.kernel.arrivals);
    idx := FromSub(FrameResponseOf(cfg), s.kernel.arrivals, FrameResponses(cfg, s.kernel.arrivals), o, s.writer.written);
  }

  /** The file entry is the encoding of what the frame stands for. */
  predicate FileEntry(cfg: Config, a: Arrival, entry: Octets) {
    FrameResponse(cfg, a).Some? && entry == cfg.encode(FrameResponse(cfg, a).value)
  }

  lemma EntriesOf(cfg: Config, arrivals: seq<Arrival>, before: seq<Octets>, ms: seq<DnsResponse>, file: Decoded, idx: seq<nat>)
    requires From(FrameResponseOf(cfg), arrivals, ms, idx) && file == Decoded(before + Encodings(cfg, ms), [])
    ensures FileMatches(cfg, arrivals, before, file, idx)
  {
    forall i | 0 <= i < |idx| ensures FileEntry(cfg, arrivals[idx[i]], file.msgs[|before| + i]) {
      assert FrameResponseOf(cfg)(arrivals[idx[i]]) == Some(ms[i]);
    }
  }

  /** In particular, nothing is torn when no write has failed. */
  lemma TornByErrors(cfg: Config, start: State, run: seq<Action>)
    requires Fresh(start)
    ensures var w := After(cfg, start, run).writer; w.writeErrors == 0 ==> TornOctets(w.attempts) == 0
  {
    EveryRun(cfg, start, run);
    AllCompleted(After(cfg, start, run).writer.attempts);
  }
}
