/** Length-delimited framing of the commit log, and a reader of the documented format. */
module CommitLog {
  import opened Bytes

  const LEN_LIMIT: nat := 0x1_0000_0000

  /** `proto_buffer.len() as u32`, big-endian, then the bytes; the cast keeps the low 32 bits. */
  function FrameOf(msg: Octets): Octets {
    Be32(|msg| % LEN_LIMIT) + msg
  }

  function LogOf(msgs: seq<Octets>): Octets {
    if msgs == [] then [] else FrameOf(msgs[0]) + LogOf(msgs[1..])
  }

  predicate Representable(msgs: seq<Octets>) {
    forall i :: 0 <= i < |msgs| ==> |msgs[i]| < LEN_LIMIT
  }

  /** Complete messages, and the octets left over. */
  datatype Decoded = Decoded(msgs: seq<Octets>, rest: Octets)

  function Decode(log: Octets): Decoded
    decreases |log|
  {
    if |log| < 4 || 4 + Read32(log, 0) > |log| then Decoded([], log)
    else
      var n := Read32(log, 0);
      var d := Decode(log[4 + n..]);
      Decoded([log[4..4 + n]] + d.msgs, d.rest)
  }

  /** The writer thread's buffers. */
  class LogWriter {
    var protoBuffer: Octets
    var log: Octets

    constructor (existing: Octets)
      ensures log == existing
    {
      protoBuffer, log := [], existing;
    }

    /** Clear, refill, write the length, write the bytes. */
    method Append(encoded: Octets)
      modifies this
      ensures log == old(log) + FrameOf(encoded)
    {
      protoBuffer := [];
      protoBuffer := protoBuffer + encoded;
      var protoLen := |protoBuffer| % LEN_LIMIT;
      log := log + Be32(protoLen);
      log := log + protoBuffer;
      assert protoBuffer == encoded;
      Assoc(old(log), Be32(protoLen), encoded);
    }

    /** A write that fails: some proper part of the frame has reached the log. */
    method AppendTorn(encoded: Octets, k: nat)
      modifies this
      ensures log == old(log) + FrameOf(encoded)[..Min(k, |FrameOf(encoded)| - 1)]
    {
      protoBuffer := [];
      protoBuffer := protoBuffer + encoded;
      var frame := Be32(|protoBuffer| % LEN_LIMIT) + protoBuffer;
      assert protoBuffer == encoded;
      log := log + frame[..Min(k, |frame| - 1)];
    }
  }

  lemma FrameHead(msg: Octets, rest: Octets)
    ensures var s := FrameOf(msg) + rest;
            |s| >= 4 && Read32(s, 0) == |msg| % LEN_LIMIT && s[4..] == msg + rest
  {
    Read32Be32(|msg| % LEN_LIMIT, msg + rest);
    Assoc(Be32(|msg| % LEN_LIMIT), msg, rest);
  }

  lemma DecodeFrame(msg: Octets, rest: Octets)
    requires |msg| < LEN_LIMIT
    ensures Decode(FrameOf(msg) + rest) == Decoded([msg] + Decode(rest).msgs, Decode(rest).rest)
  {
    FrameHead(msg, rest);
    DecodeStep(FrameOf(msg) + rest, msg, rest);
  }

  lemma DecodeStep(s: Octets, msg: Octets, rest: Octets)
    requires |s| >= 4 && Read32(s, 0) == |msg| && s[4..] == msg + rest
    ensures Decode(s) == Decoded([msg] + Decode(rest).msgs, Decode(rest).rest)
  {
    assert s[4..4 + |msg|] == s[4..][..|msg|];
    assert s[4 + |msg|..] == s[4..][|msg|..];
  }

  /** A proper prefix of a frame holds no complete message. */
  lemma DecodeTorn(msg: Octets, k: nat)
    requires |msg| < LEN_LIMIT && k < |FrameOf(msg)|
    ensures Decode(FrameOf(msg)[..k]) == Decoded([], FrameOf(msg)[..k])
  {
    var f := FrameOf(msg);
    if k >= 4 {
      FrameHead(msg, []);
      assert f + [] == f;
      assert Read32(f[..k], 0) == Read32(f, 0);
    }
  }

  /** The decoder recovers exactly the messages written, in order, and stops at whatever torn frame follows. */
  lemma {:induction false} DecodeLog(msgs: seq<Octets>, torn: Octets)
    requires Representable(msgs) && Decode(torn).msgs == []
    ensures Decode(LogOf(msgs) + torn) == Decoded(msgs, torn)
  {
    if msgs == [] {
      assert LogOf(msgs) + torn == torn;
    } else {
      DecodeLog(msgs[1..], torn);
      Assoc(FrameOf(msgs[0]), LogOf(msgs[1..]), torn);
      DecodeFrame(msgs[0], LogOf(msgs[1..]) + torn);
    }
  }

  lemma {:induction false} LogAppend(msgs: seq<Octets>, msg: Octets)
    ensures LogOf(msgs + [msg]) == LogOf(msgs) + FrameOf(msg)
  {
    if msgs == [] {
      assert [msg][1..] == [] && msgs + [msg] == [msg];
    } else {
      LogAppend(msgs[1..], msg);
      assert (msgs + [msg])[1..] == msgs[1..] + [msg];
      Assoc(FrameOf(msgs[0]), LogOf(msgs[1..]), FrameOf(msg));
    }
  }

  /** Where a cut of the log falls: after j whole frames and a proper part of the next. */
  lemma {:induction false} CutPoint(msgs: seq<Octets>, k: nat) returns (j: nat, part: nat)
    requires k <= |LogOf(msgs)|
    ensures j <= |msgs| && (j < |msgs| ==> part < |FrameOf(msgs[j])|) && (j == |msgs| ==> part == 0)
    ensures LogOf(msgs)[..k] == LogOf(msgs[..j]) + (if j < |msgs| then FrameOf(msgs[j])[..part] else [])
  {
    if msgs == [] {
      j, part := 0, 0;
    } else {
      var f, tail := FrameOf(msgs[0]), LogOf(msgs[1..]);
      if k < |f| {
        j, part := 0, k;
        assert (f + tail)[..k] == f[..k];
        assert LogOf(msgs[..0]) + f[..k] == f[..k];
      } else {
        var i, more := CutPoint(msgs[1..], k - |f|);
        j, part := i + 1, more;
        var last := if j < |msgs| then FrameOf(msgs[j])[..part] else [];
        assert (f + tail)[..k] == f + tail[..k - |f|];
        assert msgs[..j][1..] == msgs[1..][..i];
        Assoc(f, LogOf(msgs[1..][..i]), last);
      }
    }
  }

  /** On any byte prefix of the log the decoder recovers a prefix of the messages and stops at the torn frame. */
  lemma TornLog(msgs: seq<Octets>, k: nat)
    requires Representable(msgs) && k <= |LogOf(msgs)|
    ensures var d := Decode(LogOf(msgs)[..k]);
            && d.msgs <= msgs
            && LogOf(d.msgs) + d.rest == LogOf(msgs)[..k]
            && (if |d.msgs| < |msgs| then d.rest < FrameOf(msgs[|d.msgs|]) else d.rest == [])
  {
    var j, part := CutPoint(msgs, k);
    var last := if j < |msgs| then FrameOf(msgs[j])[..part] else [];
    if j < |msgs| {
      DecodeTorn(msgs[j], part);
    }
    DecodeLog(msgs[..j], last);
  }

  lemma ShortFrame(msg: Octets)
    requires |msg| < LEN_LIMIT
    ensures FrameOf(msg) == Be32(|msg|) + msg
  {
    LowBits(|msg|);
  }

  lemma LowBits(n: nat)
    requires n < LEN_LIMIT
    ensures n % LEN_LIMIT == n
  {
  }

  /** The first frame of a log that holds one, and what follows it. */
  lemma FirstFrame(log: Octets, n: nat)
    requires |log| >= 4 && n == Read32(log, 0) && 4 + n <= |log|
    ensures log == FrameOf(log[4..4 + n]) + log[4 + n..]
  {
    Be32Read32(log, 0);
    ShortFrame(log[4..4 + n]);
    Adjacent(log, 0, 4, 4 + n);
    Adjacent(log, 0, 4 + n, |log|);
  }

  /** The partner of decoding: what was decoded, framed again, and the rest are the log, on every input. */
  lemma {:induction false} DecodeInverse(log: Octets)
    ensures LogOf(Decode(log).msgs) + Decode(log).rest == log
    decreases |log|
  {
    if |log| >= 4 && 4 + Read32(log, 0) <= |log| {
      var n: nat := Read32(log, 0);
      var msg, d := log[4..4 + n], Decode(log[4 + n..]);
      DecodeInverse(log[4 + n..]);
      FirstFrame(log, n);
      assert ([msg] + d.msgs)[1..] == d.msgs;
      Assoc(FrameOf(msg), LogOf(d.msgs), d.rest);
    }
  }

  lemma {:induction false} DecodedFit(log: Octets)
    ensures Representable(Decode(log).msgs)
    decreases |log|
  {
    if |log| >= 4 && 4 + Read32(log, 0) <= |log| {
      DecodedFit(log[4 + Read32(log, 0)..]);
    }
  }

  /** A file reads back completely as `msgs` exactly when they fit the format and the file is their log. */
  lemma WholeLog(log: Octets, msgs: seq<Octets>)
    ensures Decode(log) == Decoded(msgs, []) <==> Representable(msgs) && log == LogOf(msgs)
  {
    DecodeInverse(log);
    DecodedFit(log);
    assert LogOf(msgs) + [] == LogOf(msgs);
    if Representable(msgs) {
      DecodeLog(msgs, []);
    }
  }

  lemma {:induction false} LogConcat(a: seq<Octets>, b: seq<Octets>)
    ensures LogOf(a + b) == LogOf(a) + LogOf(b)
  {
    if a == [] {
      assert a + b == b;
    } else {
      LogConcat(a[1..], b);
      assert (a + b)[1..] == a[1..] + b;
      Assoc(FrameOf(a[0]), LogOf(a[1..]), LogOf(b));
    }
  }

  // ------------------------------------------------------- appending, with failures

  /** What an attempt to append leaves in the file: a whole frame, or what a failed write got out of one. */
  datatype Attempt = Whole(msg: Octets) | Torn(part: Octets)

  function Left(a: Attempt): Octets {
    match a
    case Whole(msg) => FrameOf(msg)
    case Torn(part) => part
  }

  function LeftBy(attempts: seq<Attempt>): Octets {
    if attempts == [] then [] else LeftBy(attempts[..|attempts| - 1]) + Left(attempts[|attempts| - 1])
  }

  /** The messages of the attempts that went through. */
  function Completed(attempts: seq<Attempt>): seq<Octets> {
    if attempts == [] then []
    else
      var last := attempts[|attempts| - 1];
      Completed(attempts[..|attempts| - 1]) + (if last.Whole? then [last.msg] else [])
  }

  /** How much the failed ones left behind. */
  function TornOctets(attempts: seq<Attempt>): nat {
    if attempts == [] then 0
    else
      var last := attempts[|attempts| - 1];
      TornOctets(attempts[..|attempts| - 1]) + (if last.Torn? then |last.part| else 0)
  }

  lemma {:induction false} LeftLength(attempts: seq<Attempt>)
    ensures |LeftBy(attempts)| == |LogOf(Completed(attempts))| + TornOctets(attempts)
    ensures TornOctets(attempts) == 0 ==> LeftBy(attempts) == LogOf(Completed(attempts))
  {
    if attempts == [] {
    } else {
      var front, last := attempts[..|attempts| - 1], attempts[|attempts| - 1];
      LeftLength(front);
      match last
      case Whole(msg) => LogAppend(Completed(front), msg);
      case Torn(part) => assert Completed(front) + [] == Completed(front);
    }
  }

  lemma {:induction false} AllCompleted(attempts: seq<Attempt>)
    ensures |Completed(attempts)| <= |attempts|
    ensures |Completed(attempts)| == |attempts| ==> TornOctets(attempts) == 0
  {
    if attempts == [] {
    } else {
      AllCompleted(attempts[..|attempts| - 1]);
    }
  }

  lemma AttemptMade(attempts: seq<Attempt>, a: Attempt)
    ensures LeftBy(attempts + [a]) == LeftBy(attempts) + Left(a)
    ensures Completed(attempts + [a]) == Completed(attempts) + (if a.Whole? then [a.msg] else [])
    ensures TornOctets(attempts + [a]) == TornOctets(attempts) + (if a.Torn? then |a.part| else 0)
  {
    assert (attempts + [a])[..|attempts|] == attempts;
  }

  /** Nothing incomplete in the file before, nothing left by a failed write, no message too long. */
  predicate Clean(existing: Octets, attempts: seq<Attempt>) {
    Decode(existing).rest == [] && TornOctets(attempts) == 0 && Representable(Completed(attempts))
  }

  lemma CleanLog(existing: Octets, attempts: seq<Attempt>)
    requires Clean(existing, attempts)
    ensures var all := Decode(existing).msgs + Completed(attempts);
            Representable(all) && existing + LeftBy(attempts) == LogOf(all)
  {
    DecodedFit(existing);
    DecodeInverse(existing);
    LeftLength(attempts);
    LogConcat(Decode(existing).msgs, Completed(attempts));
    assert LogOf(Decode(existing).msgs) + [] == LogOf(Decode(existing).msgs);
  }

  lemma UncleanLog(existing: Octets, attempts: seq<Attempt>)
    requires !Clean(existing, attempts)
    ensures var all := Decode(existing).msgs + Completed(attempts);
            !(Representable(all) && existing + LeftBy(attempts) == LogOf(all))
  {
    var before, done := Decode(existing).msgs, Completed(attempts);
    DecodeInverse(existing);
    LeftLength(attempts);
    LogConcat(before, done);
    if Representable(before + done) {
      assert forall i :: 0 <= i < |done| ==> done[i] == (before + done)[|before| + i];
      assert |existing + LeftBy(attempts)| > |LogOf(before + done)|;
    }
  }

  /**
   * Appending to any file, with any failures: the old and the new messages are read back completely
   * exactly when the file had no incomplete end, no failed write left anything and no message is too
   * long. Then any byte prefix yields a prefix of them.
   */
  lemma ResumedLog(existing: Octets, attempts: seq<Attempt>, k: nat)
    requires k <= |existing + LeftBy(attempts)|
    ensures var log, all := existing + LeftBy(attempts), Decode(existing).msgs + Completed(attempts);
            && (Decode(log) == Decoded(all, []) <==> Clean(existing, attempts))
            && (Clean(existing, attempts) ==> Decode(log[..k]).msgs <= all)
  {
    var log, all := existing + LeftBy(attempts), Decode(existing).msgs + Completed(attempts);
    WholeLog(log, all);
    if Clean(existing, attempts) {
      CleanLog(existing, attempts);
      TornLog(all, k);
    } else {
      UncleanLog(existing, attempts);
    }
  }

  /** A torn frame swallows what is appended to it: the reader reports a message nobody wrote. */
  lemma TornFrameMisleads()
    ensures Decode(FrameOf([1, 2, 3, 4])[..4] + FrameOf([])) == Decoded([[0, 0, 0, 0]], [])
  {
    var log := FrameOf([1, 2, 3, 4])[..4] + FrameOf([]);
    assert log == [0, 0, 0, 4] + [0, 0, 0, 0];
    assert Read32(log, 0) == 4 && log[4..8] == [0, 0, 0, 0] && log[8..] == [];
  }

  /** The length field is what limits a message: it reads back exactly when it is shorter than 2^32. */
  lemma FrameLimit(msg: Octets)
    ensures Decode(FrameOf(msg)) == Decoded([msg], []) <==> |msg| < LEN_LIMIT
  {
    assert FrameOf(msg) + [] == FrameOf(msg);
    if |msg| < LEN_LIMIT {
      DecodeFrame(msg, []);
    } else {
      FrameHead(msg, []);
      var n := |msg| % LEN_LIMIT;
      assert |FrameOf(msg)[4..4 + n]| == n;
      assert Decode(FrameOf(msg)).msgs[0] == FrameOf(msg)[4..4 + n];
    }
  }
}
