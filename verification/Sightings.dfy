/**
 * The cursor as it is written, against the cursor as it is meant: what the code sees of an answer
 * section, what it therefore reports, and exactly when that is what was sent.
 */
module Sightings {
  import opened Bytes
  import opened Wire
  import opened Common
  import opened Names
  import opened Answers

  /** With at most one answer the two cursors are the same function, on every input. */
  lemma CursorsAgree(fmt: Formatter, p: Octets, k: nat, slot: DnsResponse)
    requires k <= 1
    ensures AnswersFrom(fmt, AsWritten, p, 0, k, slot) == AnswersFrom(fmt, Intended, p, 0, k, slot)
  {
    if k == 1 {
      assert ReadRecord(AsWritten, p, 0) == ReadRecord(Intended, p, 0);
      match ReadRecord(Intended, p, 0)
      case Err(_) =>
      case Ok(v) =>
        var slot' := Store(fmt, slot, v.rtype, v.rdata).slot;
        assert AnswersFrom(fmt, AsWritten, p, v.next, 0, slot') == AnswersFrom(fmt, Intended, p, v.next, 0, slot');
    }
  }

  // ------------------------------------------------------------ what a walk sees

  /** The records a walk finds, and why it ended early, if it did. */
  datatype Sighting = Sighting(records: seq<Record>, failure: Option<ParseError>)

  /** A record as the walk sees it: owner name, class and time to live are not looked at. */
  function Plain(rtype: U16, rdata: Octets): Record {
    Record(Name([], Root), rtype, 0, 0, rdata)
  }

  predicate FitsType(rtype: U16, rdata: Octets) {
    (rtype == TYPE_A ==> |rdata| == 4) && (rtype == TYPE_AAAA ==> |rdata| == 16)
  }

  function SightingOf(r: Record, more: Sighting): Sighting {
    Sighting([r] + more.records, more.failure)
  }

  /** The records found from `offset` on: a function of the octets only, whatever slot they go into. */
  function Seen(cursor: Cursor, p: Octets, offset: nat, k: nat): Sighting
    decreases k
  {
    if k == 0 then Sighting([], None)
    else
      match ReadRecord(cursor, p, offset)
      case Err(e) => Sighting([], Some(e))
      case Ok(v) =>
        if !FitsType(v.rtype, v.rdata) then Sighting([], Some(UnexpectedEndOfPayload))
        else SightingOf(Plain(v.rtype, v.rdata), Seen(cursor, p, v.next, k - 1))
  }

  function Verdict(failure: Option<ParseError>): Result<()> {
    if failure.Some? then Err(failure.value) else Ok(())
  }

  /** The walk ends as its sighting says, with exactly the addresses of the records seen in the slot. */
  predicate Reports(fmt: Formatter, cursor: Cursor, p: Octets, offset: nat, k: nat, slot: DnsResponse, seen: Sighting) {
    AnswersFrom(fmt, cursor, p, offset, k, slot) == Outcome(Verdict(seen.failure), WithAnswers(fmt, slot, seen.records))
  }

  lemma NothingStored(fmt: Formatter, slot: DnsResponse)
    ensures WithAnswers(fmt, slot, []) == slot
  {
  }

  lemma ReportsStep(fmt: Formatter, cursor: Cursor, p: Octets, offset: nat, k: nat, slot: DnsResponse, v: RecordView, more: Sighting)
    requires k > 0 && ReadRecord(cursor, p, offset) == Ok(v) && FitsType(v.rtype, v.rdata) && |v.rdata| < 0x1_0000
    requires Reports(fmt, cursor, p, v.next, k - 1, Store(fmt, slot, v.rtype, v.rdata).slot, more)
    ensures Reports(fmt, cursor, p, offset, k, slot, SightingOf(Plain(v.rtype, v.rdata), more))
  {
    var all := [Plain(v.rtype, v.rdata)] + more.records;
    assert all[1..] == more.records;
    StoreValid(fmt, slot, all);
  }

  /** The walk goes no further, for this reason or because it is done. */
  predicate Ends(cursor: Cursor, p: Octets, offset: nat, k: nat, failure: Option<ParseError>) {
    if k == 0 then failure == None
    else
      match ReadRecord(cursor, p, offset)
      case Err(e) => failure == Some(e)
      case Ok(v) => !FitsType(v.rtype, v.rdata) && failure == Some(UnexpectedEndOfPayload)
  }

  lemma ReportsEnd(fmt: Formatter, cursor: Cursor, p: Octets, offset: nat, k: nat, slot: DnsResponse, failure: Option<ParseError>)
    requires Ends(cursor, p, offset, k, failure)
    ensures Reports(fmt, cursor, p, offset, k, slot, Sighting([], failure))
  {
    NothingStored(fmt, slot);
  }

  /** On every input, under either cursor, on success and on failure: the outcome is what the walk saw. */
  lemma {:induction false} OutcomeIsSeen(fmt: Formatter, cursor: Cursor, p: Octets, offset: nat, k: nat, slot: DnsResponse)
    ensures Reports(fmt, cursor, p, offset, k, slot, Seen(cursor, p, offset, k))
    decreases k
  {
    var v := ReadRecord(cursor, p, offset);
    if k == 0 {
    } else if v.Ok? && FitsType(v.value.rtype, v.value.rdata) {
      ReadShort(cursor, p, offset);
      OutcomeIsSeen(fmt, cursor, p, v.value.next, k - 1, Store(fmt, slot, v.value.rtype, v.value.rdata).slot);
      ReportsStep(fmt, cursor, p, offset, k, slot, v.value, Seen(cursor, p, v.value.next, k - 1));
    } else {
      ReportsEnd(fmt, cursor, p, offset, k, slot, Seen(cursor, p, offset, k).failure);
    }
  }

  /** The walk completes exactly when it sees as many records as it was told to. */
  lemma {:induction false} SeenCount(cursor: Cursor, p: Octets, offset: nat, k: nat)
    ensures var seen := Seen(cursor, p, offset, k);
            |seen.records| <= k && (seen.failure.None? <==> |seen.records| == k)
    decreases k
  {
    if k == 0 {
    } else if ReadRecord(cursor, p, offset).Ok? {
      SeenCount(cursor, p, ReadRecord(cursor, p, offset).value.next, k - 1);
    }
  }

  lemma ReadShort(cursor: Cursor, p: Octets, offset: nat)
    ensures ReadRecord(cursor, p, offset).Ok? ==> |ReadRecord(cursor, p, offset).value.rdata| < 0x1_0000
  {
  }

  lemma {:induction false} SeenValid(cursor: Cursor, p: Octets, offset: nat, k: nat)
    ensures ValidRecords(Seen(cursor, p, offset, k).records)
    decreases k
  {
    if k == 0 {
    } else if ReadRecord(cursor, p, offset).Ok? {
      var v := ReadRecord(cursor, p, offset).value;
      ReadShort(cursor, p, offset);
      SeenValid(cursor, p, v.next, k - 1);
      var more := Seen(cursor, p, v.next, k - 1).records;
      assert ([Plain(v.rtype, v.rdata)] + more)[1..] == more;
    }
  }

  function Repeat(r: Record, n: nat): seq<Record> {
    if n == 0 then [] else [r] + Repeat(r, n - 1)
  }

  lemma {:induction false} RepeatMembers(r: Record, n: nat)
    ensures |Repeat(r, n)| == n
    ensures forall i :: 0 <= i < n ==> Repeat(r, n)[i] == r
    ensures ValidRecord(r) ==> ValidRecords(Repeat(r, n))
  {
    if n == 0 {
    } else {
      RepeatMembers(r, n - 1);
      assert Repeat(r, n)[1..] == Repeat(r, n - 1);
    }
  }

  lemma {:induction false} RepeatAddresses(r: Record, n: nat)
    ensures Addresses(Repeat(r, n)) == if IsAddress(r) then Repeat(r, n) else []
    ensures IsAddress(r) ==> |RawOf(Repeat(r, n))| == |r.rdata| * n
  {
    if n == 0 {
    } else {
      RepeatAddresses(r, n - 1);
      assert Repeat(r, n)[1..] == Repeat(r, n - 1);
    }
  }

  lemma RepeatFacts(r: Record, n: nat)
    ensures |Repeat(r, n)| == n
    ensures forall i :: 0 <= i < n ==> Repeat(r, n)[i] == r
    ensures ValidRecord(r) ==> ValidRecords(Repeat(r, n))
    ensures Addresses(Repeat(r, n)) == if IsAddress(r) then Repeat(r, n) else []
    ensures IsAddress(r) ==> |RawOf(Repeat(r, n))| == |r.rdata| * n
  {
    RepeatMembers(r, n);
    RepeatAddresses(r, n);
  }

  function PlainOf(r: Record): Record {
    Plain(r.rtype, r.rdata)
  }

  /** A repeated record stores the same as its plain form repeated. */
  lemma {:induction false} PlainRepeats(fmt: Formatter, slot: DnsResponse, r: Record, n: nat)
    requires ValidRecord(r)
    ensures WithAnswers(fmt, slot, Repeat(PlainOf(r), n)) == WithAnswers(fmt, slot, Repeat(r, n))
    ensures RawOf(Repeat(PlainOf(r), n)) == RawOf(Repeat(r, n))
    decreases n
  {
    if n == 0 {
    } else {
      assert Repeat(r, n)[1..] == Repeat(r, n - 1) && Repeat(PlainOf(r), n)[1..] == Repeat(PlainOf(r), n - 1);
      PlainRepeats(fmt, Stored(fmt, slot, r), r, n - 1);
      StoreValid(fmt, slot, Repeat(r, n));
      StoreValid(fmt, slot, Repeat(PlainOf(r), n));
    }
  }

  /** From `offset` on, the walk sees exactly these records. */
  predicate Sees(cursor: Cursor, p: Octets, offset: nat, records: seq<Record>) {
    Seen(cursor, p, offset, |records|) == Sighting(records, None)
  }

  lemma SeesNothing(cursor: Cursor, p: Octets, offset: nat)
    ensures Sees(cursor, p, offset, [])
  {
  }

  lemma SeesAgain(cursor: Cursor, p: Octets, offset: nat, next: nat, r: Record, k: nat)
    requires k > 0 && ValidRecord(r) && Reads(cursor, p, offset, r, next)
    requires Sees(cursor, p, next, Repeat(PlainOf(r), k - 1))
    ensures Sees(cursor, p, offset, Repeat(PlainOf(r), k))
  {
    RepeatFacts(PlainOf(r), k);
    RepeatFacts(PlainOf(r), k - 1);
  }

  /**
   * The as-written loop, standing before a name that is as long as the first one, with another such
   * name behind the first record: it reads the first record, and goes on doing so.
   */
  lemma {:induction false} StuckOnFirst(first: Record, y: Octets, offset: nat, k: nat)
    requires ValidRecord(first) && offset < |EncodeRecord(first) + y|
    requires SkipName(y) == Ok(|EncodeName(first.name)|)
    requires SkipName((EncodeRecord(first) + y)[offset..]) == Ok(|EncodeName(first.name)|)
    ensures Sees(AsWritten, EncodeRecord(first) + y, offset, Repeat(PlainOf(first), k))
    decreases k
  {
    var e := EncodeRecord(first);
    if k == 0 {
      SeesNothing(AsWritten, e + y, offset);
    } else {
      ReadAsWritten(first, y, offset);
      assert (e + y)[|e|..] == y;
      StuckOnFirst(first, y, |e|, k - 1);
      SeesAgain(AsWritten, e + y, offset, |e|, first, k);
    }
  }

  lemma ReadFirst(first: Record, y: Octets)
    requires ValidRecord(first)
    ensures Reads(AsWritten, EncodeRecord(first) + y, 0, first, |EncodeRecord(first)|)
  {
    RecordFront(first, y, 0);
    assert (EncodeRecord(first) + y)[0..] == EncodeRecord(first) + y;
    ReadAsWritten(first, y, 0);
  }

  /** The whole as-written loop over a first record and a second name of the same length. */
  lemma StuckFromStart(first: Record, y: Octets, k: nat)
    requires ValidRecord(first) && SkipName(y) == Ok(|EncodeName(first.name)|)
    ensures Sees(AsWritten, EncodeRecord(first) + y, 0, Repeat(PlainOf(first), k))
  {
    RecordFront(first, y, 0);
    assert (EncodeRecord(first) + y)[0..] == EncodeRecord(first) + y;
    StuckOnFirst(first, y, 0, k);
  }

  /** There is one answer, or the first two owner names take the same room on the wire. */
  predicate StaysOnFirst(rs: seq<Record>)
    requires ValidRecords(rs) && rs != []
  {
    |rs| == 1 ||
    (assert ValidRecords(rs[1..]) && rs[1..][0] == rs[1];
     |EncodeName(rs[0].name)| == |EncodeName(rs[1].name)|)
  }

  /** Every owner name is a bare compression pointer. */
  predicate AllPointers(rs: seq<Record>) {
    forall i :: 0 <= i < |rs| ==> rs[i].name.labels == [] && rs[i].name.end.Pointer?
  }

  lemma PointersStayOnFirst(rs: seq<Record>)
    requires ValidRecords(rs) && rs != [] && AllPointers(rs)
    ensures StaysOnFirst(rs)
  {
  }

  /** What follows the first record of two or more: the second owner name, and the rest. */
  lemma SecondName(rs: seq<Record>, tail: Octets) returns (x: Octets)
    requires ValidRecords(rs) && |rs| >= 2
    ensures ValidRecord(rs[0]) && ValidName(rs[1].name)
    ensures EncodeRecords(rs) + tail == EncodeRecord(rs[0]) + (EncodeName(rs[1].name) + x)
  {
    var rest := rs[1..];
    var second, more := rest[0], EncodeRecords(rest[1..]) + tail;
    x := (EncodeFixed(second) + second.rdata) + more;
    Assoc(EncodeRecord(rs[0]), EncodeRecords(rest), tail);
    Assoc(EncodeRecord(second), EncodeRecords(rest[1..]), tail);
    Assoc(EncodeName(second.name), EncodeFixed(second) + second.rdata, more);
  }

  /**
   * Divergence: the code always sees the first answer first, and when the first two names are equally
   * long it sees it once per answer, whatever the others hold.
   */
  lemma AsWrittenRepeatsFirst(rs: seq<Record>, tail: Octets)
    requires ValidRecords(rs) && rs != []
    ensures var seen := Seen(AsWritten, EncodeRecords(rs) + tail, 0, |rs|);
            && seen.records != [] && seen.records[0] == PlainOf(rs[0])
            && (StaysOnFirst(rs) ==> seen == Sighting(Repeat(PlainOf(rs[0]), |rs|), None))
  {
    SeesFirst(rs, tail);
    if StaysOnFirst(rs) {
      SeesRepetition(rs, tail);
      RepeatFacts(PlainOf(rs[0]), |rs|);
    }
  }

  lemma FirstAhead(rs: seq<Record>, tail: Octets)
    requires ValidRecords(rs) && rs != []
    ensures Reads(AsWritten, EncodeRecords(rs) + tail, 0, rs[0], |EncodeRecord(rs[0])|)
  {
    Assoc(EncodeRecord(rs[0]), EncodeRecords(rs[1..]), tail);
    ReadFirst(rs[0], EncodeRecords(rs[1..]) + tail);
  }

  lemma SeesFirst(rs: seq<Record>, tail: Octets)
    requires ValidRecords(rs) && rs != []
    ensures var seen := Seen(AsWritten, EncodeRecords(rs) + tail, 0, |rs|);
            seen.records != [] && seen.records[0] == PlainOf(rs[0])
  {
    FirstAhead(rs, tail);
    SeesAhead(AsWritten, EncodeRecords(rs) + tail, 0, |EncodeRecord(rs[0])|, rs[0], |rs|);
  }

  lemma SeesAhead(cursor: Cursor, p: Octets, offset: nat, next: nat, r: Record, k: nat)
    requires k > 0 && ValidRecord(r) && Reads(cursor, p, offset, r, next)
    ensures Seen(cursor, p, offset, k) == SightingOf(PlainOf(r), Seen(cursor, p, next, k - 1))
  {
  }

  lemma SeesRepetition(rs: seq<Record>, tail: Octets)
    requires ValidRecords(rs) && rs != [] && StaysOnFirst(rs)
    ensures Sees(AsWritten, EncodeRecords(rs) + tail, 0, Repeat(PlainOf(rs[0]), |rs|))
  {
    if |rs| == 1 {
      FirstAhead(rs, tail);
      SeesNothing(AsWritten, EncodeRecords(rs) + tail, |EncodeRecord(rs[0])|);
      SeesAgain(AsWritten, EncodeRecords(rs) + tail, 0, |EncodeRecord(rs[0])|, rs[0], 1);
    } else {
      var x := SecondName(rs, tail);
      SkipComplete(rs[1].name, x);
      StuckFromStart(rs[0], EncodeName(rs[1].name) + x, |rs|);
    }
  }

  // ------------------------------------------------------- when the cursors agree

  /** What the intended walk stores for a well-formed section. */
  lemma IntendedOutcome(fmt: Formatter, rs: seq<Record>, tail: Octets, slot: DnsResponse)
    requires ValidRecords(rs)
    ensures AnswersFrom(fmt, Intended, EncodeRecords(rs) + tail, 0, |rs|, slot) == Outcome(Ok(()), WithAnswers(fmt, slot, rs))
  {
    IntendedComplete(fmt, [], rs, tail, slot);
    assert [] + (EncodeRecords(rs) + tail) == EncodeRecords(rs) + tail;
  }

  lemma SameBehind<T>(front: seq<T>, a: seq<T>, b: seq<T>)
    ensures front + a == front + b <==> a == b
  {
    if front + a == front + b {
      assert a == (front + a)[|front|..];
      assert b == (front + b)[|front|..];
    }
  }

  /** For any well-formed section: the raw bytes are the intended ones exactly when those of the records seen are. */
  lemma RawAgreement(fmt: Formatter, rs: seq<Record>, tail: Octets, slot: DnsResponse)
    requires ValidRecords(rs)
    ensures var p := EncodeRecords(rs) + tail;
            var code := AnswersFrom(fmt, AsWritten, p, 0, |rs|, slot);
            var spec := AnswersFrom(fmt, Intended, p, 0, |rs|, slot);
            var seen := Seen(AsWritten, p, 0, |rs|);
            && code.result == Verdict(seen.failure) && spec.result.Ok?
            && (code.slot.resolvedIpRaw == spec.slot.resolvedIpRaw <==> RawOf(seen.records) == RawOf(rs))
  {
    OutcomeIsSeen(fmt, AsWritten, EncodeRecords(rs) + tail, 0, |rs|, slot);
    IntendedOutcome(fmt, rs, tail, slot);
    SameBehind(slot.resolvedIpRaw, RawOf(Seen(AsWritten, EncodeRecords(rs) + tail, 0, |rs|).records), RawOf(rs));
  }

  /** And the whole outcome is the intended one exactly when the walk did not fail and saw the same bytes, text and family. */
  lemma AgreementExact(fmt: Formatter, rs: seq<Record>, tail: Octets, slot: DnsResponse)
    requires ValidRecords(rs)
    ensures var p := EncodeRecords(rs) + tail;
            var seen := Seen(AsWritten, p, 0, |rs|);
            AnswersFrom(fmt, AsWritten, p, 0, |rs|, slot) == AnswersFrom(fmt, Intended, p, 0, |rs|, slot) <==>
              && seen.failure.None? && RawOf(seen.records) == RawOf(rs) && TextOf(fmt, seen.records) == TextOf(fmt, rs)
              && FamilyOf(seen.records, slot.ipFamily) == FamilyOf(rs, slot.ipFamily)
  {
    var seen := Seen(AsWritten, EncodeRecords(rs) + tail, 0, |rs|);
    OutcomeIsSeen(fmt, AsWritten, EncodeRecords(rs) + tail, 0, |rs|, slot);
    IntendedOutcome(fmt, rs, tail, slot);
    SameBehind(slot.resolvedIpRaw, RawOf(seen.records), RawOf(rs));
    SameBehind(slot.resolvedIp, TextOf(fmt, seen.records), TextOf(fmt, rs));
  }

  predicate OneType(rs: seq<Record>, rtype: U16) {
    forall i :: 0 <= i < |rs| ==> rs[i].rtype == rtype
  }

  /** The data of each record. */
  function Data(rs: seq<Record>): seq<Octets> {
    if rs == [] then [] else [rs[0].rdata] + Data(rs[1..])
  }

  lemma {:induction false} DataAt(rs: seq<Record>)
    ensures |Data(rs)| == |rs| && forall i :: 0 <= i < |rs| ==> Data(rs)[i] == rs[i].rdata
  {
    if rs == [] {
    } else {
      DataAt(rs[1..]);
      assert forall i :: 0 < i < |rs| ==> rs[i] == rs[1..][i - 1];
    }
  }

  lemma RawHead(rs: seq<Record>)
    requires rs != [] && IsAddress(rs[0])
    ensures RawOf(rs) == rs[0].rdata + RawOf(rs[1..])
  {
  }

  lemma SplitFront<T>(x: seq<T>, a: seq<T>, y: seq<T>, b: seq<T>)
    requires |x| == |y|
    ensures x + a == y + b <==> x == y && a == b
  {
    if x + a == y + b {
      assert x == (x + a)[..|x|] && y == (y + b)[..|y|];
      assert a == (x + a)[|x|..] && b == (y + b)[|y|..];
    }
  }

  /** For addresses of one type the raw bytes fix the addresses, one by one. */
  lemma {:induction false} RawFixesData(a: seq<Record>, b: seq<Record>, rtype: U16)
    requires rtype == TYPE_A || rtype == TYPE_AAAA
    requires ValidRecords(a) && ValidRecords(b) && OneType(a, rtype) && OneType(b, rtype)
    ensures RawOf(a) == RawOf(b) <==> Data(a) == Data(b)
  {
    if a == [] || b == [] {
      DataAt(a);
      DataAt(b);
    } else {
      RawFixesData(a[1..], b[1..], rtype);
      RawHead(a);
      RawHead(b);
      SplitFront(a[0].rdata, RawOf(a[1..]), b[0].rdata, RawOf(b[1..]));
      SplitFront([a[0].rdata], Data(a[1..]), [b[0].rdata], Data(b[1..]));
    }
  }

  /** With one address type throughout: exactly when the addresses seen are the addresses sent, one by one. */
  lemma SameTypeAgreement(fmt: Formatter, rs: seq<Record>, tail: Octets, slot: DnsResponse, rtype: U16)
    requires rtype == TYPE_A || rtype == TYPE_AAAA
    requires ValidRecords(rs) && OneType(Addresses(rs), rtype)
    requires OneType(Addresses(Seen(AsWritten, EncodeRecords(rs) + tail, 0, |rs|).records), rtype)
    ensures var p := EncodeRecords(rs) + tail;
            AnswersFrom(fmt, AsWritten, p, 0, |rs|, slot).slot.resolvedIpRaw ==
              AnswersFrom(fmt, Intended, p, 0, |rs|, slot).slot.resolvedIpRaw
            <==> Data(Addresses(Seen(AsWritten, p, 0, |rs|).records)) == Data(Addresses(rs))
  {
    var seen := Seen(AsWritten, EncodeRecords(rs) + tail, 0, |rs|).records;
    SeenValid(AsWritten, EncodeRecords(rs) + tail, 0, |rs|);
    RawAgreement(fmt, rs, tail, slot);
    AddressesDecide(rs, 0);
    AddressesDecide(seen, 0);
    RawFixesData(Addresses(seen), Addresses(rs), rtype);
  }

  lemma {:induction false} AddressCount(rs: seq<Record>)
    ensures |Addresses(rs)| <= |rs|
    ensures |Addresses(rs)| == |rs| ==> Addresses(rs) == rs
    ensures |Addresses(rs)| == |rs| <==> forall i :: 0 <= i < |rs| ==> IsAddress(rs[i])
  {
    if rs == [] {
    } else {
      AddressCount(rs[1..]);
      assert forall i :: 0 < i < |rs| ==> rs[i] == rs[1..][i - 1];
      assert rs == [rs[0]] + rs[1..];
    }
  }

  /**
   * Hence, when the code stays on the first answer, and either that is no address or all addresses are of
   * its type: exactly when every answer is that address, or none is one.
   */
  lemma RepetitionAgreement(fmt: Formatter, rs: seq<Record>, tail: Octets, slot: DnsResponse)
    requires ValidRecords(rs) && rs != [] && StaysOnFirst(rs)
    requires IsAddress(rs[0]) ==> OneType(Addresses(rs), rs[0].rtype)
    ensures var p := EncodeRecords(rs) + tail;
            AnswersFrom(fmt, AsWritten, p, 0, |rs|, slot).slot.resolvedIpRaw ==
              AnswersFrom(fmt, Intended, p, 0, |rs|, slot).slot.resolvedIpRaw
            <==> (if IsAddress(rs[0]) then forall i :: 0 <= i < |rs| ==> IsAddress(rs[i]) && rs[i].rdata == rs[0].rdata
                  else Addresses(rs) == [])
  {
    var first, n := PlainOf(rs[0]), |rs|;
    AsWrittenRepeatsFirst(rs, tail);
    RepeatFacts(first, n);
    RawAgreement(fmt, rs, tail, slot);
    AddressesDecide(rs, 0);
    if IsAddress(rs[0]) {
      RawFixesData(Repeat(first, n), Addresses(rs), rs[0].rtype);
      AllTheSame(rs, first);
    } else {
      NoRawNoAddress(rs);
      AddressesDecide(Repeat(first, n), 0);
    }
  }

  /**
   * With mixed address types the bytes can agree by coincidence: 1.1.1.1, an AAAA address of sixteen ones and
   * three CNAME records carry the same bytes as the first address five times.
   */
  lemma MixedCoincidence() returns (rs: seq<Record>)
    ensures ValidRecords(rs) && |rs| == 5 && AllPointers(rs) && IsAddress(rs[0]) && IsAddress(rs[1]) && rs[0].rtype != rs[1].rtype
    ensures RawOf(rs) == RawOf(Repeat(rs[0], |rs|))
  {
    var a, b := PointerRecord(TYPE_A, 60, seq(4, _ => 1)), PointerRecord(TYPE_AAAA, 60, seq(16, _ => 1));
    var others := Repeat(PointerRecord(5, 60, [0]), 3);
    RepeatFacts(PointerRecord(5, 60, [0]), 3);
    rs := [a] + ([b] + others);
    assert ([b] + others)[1..] == others && rs[1..] == [b] + others;
    MixedRaw(a, b, others);
    RepeatedOnes(a, 5);
    AllOnes(RawOf(rs), RawOf(Repeat(a, 5)));
  }

  lemma MixedRaw(a: Record, b: Record, others: seq<Record>)
    requires IsAddress(a) && IsAddress(b) && (forall i :: 0 <= i < |others| ==> !IsAddress(others[i]))
    requires (forall i :: 0 <= i < |a.rdata| ==> a.rdata[i] == 1) && (forall i :: 0 <= i < |b.rdata| ==> b.rdata[i] == 1)
    ensures var raw := RawOf([a] + ([b] + others));
            |raw| == |a.rdata| + |b.rdata| && forall i :: 0 <= i < |raw| ==> raw[i] == 1
  {
    var rest := [b] + others;
    assert rest[1..] == others && ([a] + rest)[1..] == rest;
    NoFamily(others, 0);
    RawHead(rest);
    RawHead([a] + rest);
  }

  lemma AllOnes(x: Octets, y: Octets)
    requires |x| == |y| && (forall i :: 0 <= i < |x| ==> x[i] == 1) && (forall i :: 0 <= i < |y| ==> y[i] == 1)
    ensures x == y
  {
  }

  lemma {:induction false} RepeatedOnes(a: Record, n: nat)
    requires IsAddress(a) && forall i :: 0 <= i < |a.rdata| ==> a.rdata[i] == 1
    ensures |RawOf(Repeat(a, n))| == |a.rdata| * n && forall i :: 0 <= i < |RawOf(Repeat(a, n))| ==> RawOf(Repeat(a, n))[i] == 1
  {
    if n == 0 {
      assert Repeat(a, n) == [];
    } else {
      RepeatedOnes(a, n - 1);
      assert Repeat(a, n)[1..] == Repeat(a, n - 1);
      RawHead(Repeat(a, n));
    }
  }

  lemma {:induction false} NoRawNoAddress(rs: seq<Record>)
    requires ValidRecords(rs)
    ensures RawOf(rs) == [] <==> Addresses(rs) == []
  {
    if rs == [] {
    } else {
      NoRawNoAddress(rs[1..]);
    }
  }

  lemma AllTheSame(rs: seq<Record>, first: Record)
    ensures Data(Repeat(first, |rs|)) == Data(Addresses(rs)) <==>
              forall i :: 0 <= i < |rs| ==> IsAddress(rs[i]) && rs[i].rdata == first.rdata
  {
    RepeatFacts(first, |rs|);
    DataAt(Repeat(first, |rs|));
    DataAt(Addresses(rs));
    AddressCount(rs);
  }

  /** A record with a pointer as owner name. */
  function PointerRecord(rtype: U16, ttl: U32, rdata: Octets): Record {
    Record(Name([], Pointer(0xC0, 12)), rtype, 1, ttl, rdata)
  }

  /** Two different addresses: the code reports the first one twice. */
  lemma TwoAnswersDiverge(fmt: Formatter, tail: Octets, slot: DnsResponse) returns (rs: seq<Record>)
    ensures ValidRecords(rs) && |rs| == 2
    ensures var p := EncodeRecords(rs) + tail;
            AnswersFrom(fmt, AsWritten, p, 0, 2, slot).slot.resolvedIpRaw !=
              AnswersFrom(fmt, Intended, p, 0, 2, slot).slot.resolvedIpRaw
  {
    var a, b := PointerRecord(TYPE_A, 60, [1, 2, 3, 4]), PointerRecord(TYPE_A, 60, [5, 6, 7, 8]);
    rs := [a, b];
    assert rs[1..] == [b] && [b][1..] == [];
    assert Addresses([b]) == [b] + Addresses([]) && Addresses(rs) == [a] + Addresses([b]);
    assert OneType(Addresses(rs), TYPE_A);
    PointersStayOnFirst(rs);
    RepetitionAgreement(fmt, rs, tail, slot);
    assert rs[1].rdata[0] != rs[0].rdata[0];
  }

  /**
   * For names of any length: the second iteration reads its fixed part as far from the front of the
   * section as the second name is long, wherever that name really stands.
   */
  lemma SecondReadExact(rs: seq<Record>, tail: Octets)
    requires ValidRecords(rs) && |rs| >= 2
    ensures ValidRecord(rs[0]) && ValidName(rs[1].name)
    ensures var p, n := EncodeRecords(rs) + tail, |EncodeName(rs[1].name)|;
            n + 10 <= |p| && ReadRecord(AsWritten, p, |EncodeRecord(rs[0])|) == ReadFixed(p[n..], n)
  {
    var x := SecondName(rs, tail);
    var e, y := EncodeRecord(rs[0]), EncodeName(rs[1].name) + x;
    RecordFront(rs[0], y, 0);
    SkipComplete(rs[1].name, x);
    assert (e + y)[|e|..] == y;
  }

  /**
   * Every read of the as-written loop, at any offset: with a name of length n at the cursor, the record is the
   * one whose fixed part and data stand n octets from the front, and the loop goes on behind it.
   */
  lemma AsWrittenReads(p: Octets, offset: nat, name: Name, x: Octets, r: Record, y: Octets)
    requires ValidName(name) && |r.rdata| < 0x1_0000 && offset <= |p| && p[offset..] == EncodeName(name) + x
    requires |EncodeName(name)| <= |p| && p[|EncodeName(name)|..] == EncodeFixed(r) + (r.rdata + y)
    ensures Reads(AsWritten, p, offset, r, |EncodeName(name)| + 10 + |r.rdata|)
  {
    SkipComplete(name, x);
    FixedComplete(r, y, |EncodeName(name)|);
    assert |EncodeFixed(r)| == 10;
  }

  /** And only so: whatever is read was such a record behind such a name. */
  lemma AsWrittenReadSound(p: Octets, offset: nat) returns (name: Name, x: Octets, r: Record, y: Octets)
    requires ReadRecord(AsWritten, p, offset).Ok?
    ensures ValidName(name) && |r.rdata| < 0x1_0000 && offset <= |p| && p[offset..] == EncodeName(name) + x
    ensures |EncodeName(name)| <= |p| && p[|EncodeName(name)|..] == EncodeFixed(r) + (r.rdata + y)
    ensures Reads(AsWritten, p, offset, r, |EncodeName(name)| + 10 + |r.rdata|)
  {
    var h;
    name, x, h := NameAhead(p, offset);
    r, y := FixedSoundAt(h, |EncodeName(name)|, name);
    Assoc(EncodeFixed(r), r.rdata, y);
  }

  /** The name at the cursor, and the octets that the record was read from. */
  lemma NameAhead(p: Octets, offset: nat) returns (name: Name, x: Octets, h: Octets)
    requires ReadRecord(AsWritten, p, offset).Ok?
    ensures ValidName(name) && offset <= |p| && p[offset..] == EncodeName(name) + x
    ensures |EncodeName(name)| <= |p| && h == p[|EncodeName(name)|..] && |h| >= 10
    ensures ReadRecord(AsWritten, p, offset) == ReadFixed(h, |EncodeName(name)|)
  {
    name, x := SkipSound(p[offset..]);
    AsWrittenParts(p, offset, |EncodeName(name)|);
    h := p[|EncodeName(name)|..];
  }

  lemma AsWrittenParts(p: Octets, offset: nat, n: nat)
    requires ReadRecord(AsWritten, p, offset).Ok? && SkipName(p[offset..]) == Ok(n)
    ensures n + 10 <= |p| && ReadRecord(AsWritten, p, offset) == ReadFixed(p[n..], n)
  {
  }

  /**
   * Two answers, names of any length: the code and the intended walk end alike exactly when the octets
   * found there read as the second answer's type and data, or, if that is no address, as no address.
   */
  lemma TwoAnswersExact(fmt: Formatter, rs: seq<Record>, tail: Octets, slot: DnsResponse)
    requires ValidRecords(rs) && |rs| == 2
    ensures ValidName(rs[1].name)
    ensures var p, n := EncodeRecords(rs) + tail, |EncodeName(rs[1].name)|;
            n + 10 <= |p| &&
            var found := ReadFixed(p[n..], n);
            AnswersFrom(fmt, AsWritten, p, 0, 2, slot) == AnswersFrom(fmt, Intended, p, 0, 2, slot) <==>
              && found.Ok?
              && (if IsAddress(rs[1]) then found.value.rtype == rs[1].rtype && found.value.rdata == rs[1].rdata
                  else found.value.rtype != TYPE_A && found.value.rtype != TYPE_AAAA)
  {
    SecondReadExact(rs, tail);
    IntendedTwo(fmt, rs, tail, slot);
    AsWrittenTwo(fmt, rs, tail, slot);
    var p, n := EncodeRecords(rs) + tail, |EncodeName(rs[1].name)|;
    var found := ReadFixed(p[n..], n);
    if found.Ok? {
      assert rs[1..][0] == rs[1];
      StoresAlike(fmt, Stored(fmt, slot, rs[0]), rs[1], found.value.rtype, found.value.rdata);
    }
  }

  /** When another type and other data are stored like a valid record. */
  lemma StoresAlike(fmt: Formatter, slot: DnsResponse, r: Record, rtype: U16, rdata: Octets)
    requires ValidRecord(r)
    ensures Store(fmt, slot, rtype, rdata) == Outcome(Ok(()), Stored(fmt, slot, r)) <==>
              if IsAddress(r) then rtype == r.rtype && rdata == r.rdata else rtype != TYPE_A && rtype != TYPE_AAAA
  {
    SameBehind(slot.resolvedIpRaw, rdata, r.rdata);
    SameBehind(slot.resolvedIpRaw, rdata, []);
    SameBehind(slot.resolvedIpRaw, [], r.rdata);
    assert slot.resolvedIpRaw + [] == slot.resolvedIpRaw;
  }

  lemma IntendedTwo(fmt: Formatter, rs: seq<Record>, tail: Octets, slot: DnsResponse)
    requires ValidRecords(rs) && |rs| == 2
    ensures AnswersFrom(fmt, Intended, EncodeRecords(rs) + tail, 0, 2, slot) ==
              Outcome(Ok(()), Stored(fmt, Stored(fmt, slot, rs[0]), rs[1]))
  {
    TwoStored(fmt, slot, rs);
    IntendedOutcome(fmt, rs, tail, slot);
  }

  lemma OneStored(fmt: Formatter, slot: DnsResponse, r: Record)
    requires ValidRecord(r)
    ensures WithAnswers(fmt, slot, [r]) == Stored(fmt, slot, r)
  {
    StoreValid(fmt, slot, [r]);
    assert WithAnswers(fmt, Stored(fmt, slot, r), []) == Stored(fmt, slot, r);
  }

  lemma TwoStored(fmt: Formatter, slot: DnsResponse, rs: seq<Record>)
    requires ValidRecords(rs) && |rs| == 2
    ensures WithAnswers(fmt, slot, rs) == Stored(fmt, Stored(fmt, slot, rs[0]), rs[1])
  {
    assert rs[1..] == [rs[1]];
    StoreValid(fmt, slot, rs);
    OneStored(fmt, Stored(fmt, slot, rs[0]), rs[1]);
  }

  lemma AsWrittenTwo(fmt: Formatter, rs: seq<Record>, tail: Octets, slot: DnsResponse)
    requires ValidRecords(rs) && |rs| >= 2
    ensures ValidRecord(rs[0])
    ensures var p := EncodeRecords(rs) + tail;
            AnswersFrom(fmt, AsWritten, p, 0, 2, slot) ==
              match ReadRecord(AsWritten, p, |EncodeRecord(rs[0])|)
              case Err(e) => Outcome(Err(e), Stored(fmt, slot, rs[0]))
              case Ok(v) => Store(fmt, Stored(fmt, slot, rs[0]), v.rtype, v.rdata)
  {
    var x := SecondName(rs, tail);
    ReadFirst(rs[0], EncodeName(rs[1].name) + x);
    TwoIterations(fmt, EncodeRecords(rs) + tail, rs[0], |EncodeRecord(rs[0])|, slot);
  }

  /** The as-written loop for two answers, unrolled. */
  lemma TwoIterations(fmt: Formatter, p: Octets, a: Record, next: nat, slot: DnsResponse)
    requires ValidRecord(a) && Reads(AsWritten, p, 0, a, next)
    ensures AnswersFrom(fmt, AsWritten, p, 0, 2, slot) ==
              match ReadRecord(AsWritten, p, next)
              case Err(e) => Outcome(Err(e), Stored(fmt, slot, a))
              case Ok(v) => Store(fmt, Stored(fmt, slot, a), v.rtype, v.rdata)
  {
    assert Store(fmt, slot, a.rtype, a.rdata).result.Ok?;
    var slot' := Stored(fmt, slot, a);
    if ReadRecord(AsWritten, p, next).Ok? {
      var v := ReadRecord(AsWritten, p, next).value;
      var stored := Store(fmt, slot', v.rtype, v.rdata);
      assert AnswersFrom(fmt, AsWritten, p, v.next, 0, stored.slot) == Outcome(Ok(()), stored.slot);
    }
  }

  /** Unequal name lengths: a well-formed answer section that the code rejects. */
  lemma UnequalNamesRejected(fmt: Formatter, slot: DnsResponse) returns (rs: seq<Record>)
    ensures ValidRecords(rs) && |rs| == 2
    ensures AnswersFrom(fmt, Intended, EncodeRecords(rs), 0, 2, slot).result.Ok?
    ensures AnswersFrom(fmt, AsWritten, EncodeRecords(rs), 0, 2, slot).result.Err?
  {
    var a := PointerRecord(TYPE_A, 255, [1, 2, 3, 4]);
    var b := Record(Name([], Root), TYPE_A, 1, 255, [5, 6, 7, 8]);
    rs := [a] + ([b] + []);
    EncodedRecordCons(b, [], []);
    EncodedRecordCons(a, [b] + [], []);
    IntendedComplete(fmt, [], rs, [], slot);
    var p := EncodeRecords(rs);
    assert [] + (p + []) == p;
    RejectsSecond(fmt, a, b, p, slot);
  }

  lemma RejectsSecond(fmt: Formatter, a: Record, b: Record, p: Octets, slot: DnsResponse)
    requires a == PointerRecord(TYPE_A, 255, [1, 2, 3, 4]) && b == Record(Name([], Root), TYPE_A, 1, 255, [5, 6, 7, 8])
    requires p == EncodeRecord(a) + (EncodeRecord(b) + [])
    ensures AnswersFrom(fmt, AsWritten, p, 0, 2, slot).result.Err?
  {
    var y := EncodeRecord(b) + [];
    RecordFront(a, y, 2);
    RecordFront(b, [], 0);
    ReadFirst(a, y);
    assert EncodeName(b.name) == [0] && y[0] == 0;
    SecondReadFails(p, a, y);
    ErrStep(fmt, p, a, |EncodeRecord(a)|, slot);
  }

  lemma ErrStep(fmt: Formatter, p: Octets, a: Record, next: nat, slot: DnsResponse)
    requires Reads(AsWritten, p, 0, a, next) && ReadRecord(AsWritten, p, next).Err?
    ensures AnswersFrom(fmt, AsWritten, p, 0, 2, slot).result.Err?
  {
  }

  lemma SecondReadFails(p: Octets, a: Record, y: Octets)
    requires a == PointerRecord(TYPE_A, 255, [1, 2, 3, 4]) && p == EncodeRecord(a) + y && |p| < 0xFF00 && |p| >= 20
    requires y != [] && y[0] == 0
    ensures ReadRecord(AsWritten, p, |EncodeRecord(a)|).Err?
  {
    var e := EncodeRecord(a);
    assert p[|e|..] == y;
    assert SkipName(y) == Ok(1);
    assert |EncodeName(a.name)| == 2 && |EncodeFixed(a)| == 10;
    assert EncodeFixed(a)[7] == 255 && EncodeFixed(a)[8] == 0;
    assert e[9] == 255 && e[10] == 0;
    assert Read16(p[1..], 8) == 0xFF00;
  }

  // ------------------------------------------------------------ how a walk fails

  /** The records as a walk sees them. */
  function Plains(rs: seq<Record>): seq<Record> {
    if rs == [] then [] else [PlainOf(rs[0])] + Plains(rs[1..])
  }

  lemma {:induction false} PlainsStore(fmt: Formatter, slot: DnsResponse, rs: seq<Record>)
    requires ValidRecords(rs)
    ensures WithAnswers(fmt, slot, Plains(rs)) == WithAnswers(fmt, slot, rs)
    decreases |rs|
  {
    if rs == [] {
    } else {
      assert Plains(rs)[1..] == Plains(rs[1..]);
      StoreValid(fmt, slot, rs);
      StoreValid(fmt, slot, Plains(rs));
      PlainsStore(fmt, Stored(fmt, slot, rs[0]), rs[1..]);
    }
  }

  lemma NameFails(cursor: Cursor, p: Octets, offset: nat, bad: Octets, k: nat, e: ParseError)
    requires offset <= |p| && p[offset..] == bad && SkipName(bad) == Err(e) && k > 0
    ensures SeesAs(cursor, p, offset, k, Sighting([], Some(e)))
  {
    if offset == |p| {
      assert bad == [];
    }
  }

  lemma DropPrefix(pre: Octets, bad: Octets)
    ensures (pre + bad)[|pre|..] == bad
  {
  }

  /** Where a walk over `j` records ends up. */
  function Stop(cursor: Cursor, p: Octets, offset: nat, j: nat): nat
    decreases j
  {
    if j == 0 then offset
    else
      match ReadRecord(cursor, p, offset)
      case Err(_) => offset
      case Ok(v) => Stop(cursor, p, v.next, j - 1)
  }

  /** The walk sees exactly `rs` and comes to `stop`. */
  predicate Comes(cursor: Cursor, p: Octets, offset: nat, rs: seq<Record>, stop: nat) {
    Seen(cursor, p, offset, |rs|) == Sighting(Plains(rs), None) && Stop(cursor, p, offset, |rs|) == stop
  }

  lemma ComesNowhere(cursor: Cursor, p: Octets, offset: nat)
    ensures Comes(cursor, p, offset, [], offset)
  {
  }

  lemma ComesStep(cursor: Cursor, p: Octets, offset: nat, next: nat, rs: seq<Record>, stop: nat)
    requires rs != [] && ValidRecord(rs[0]) && Reads(cursor, p, offset, rs[0], next) && Comes(cursor, p, next, rs[1..], stop)
    ensures Comes(cursor, p, offset, rs, stop)
  {
    SeesAhead(cursor, p, offset, next, rs[0], |rs|);
  }

  /** With the intended cursor, well-formed records are seen one by one, wherever they stand and whatever follows. */
  lemma {:induction false} IntendedComes(pre: Octets, rs: seq<Record>, bad: Octets)
    requires ValidRecords(rs)
    ensures Comes(Intended, pre + (EncodeRecords(rs) + bad), |pre|, rs, |pre + EncodeRecords(rs)|)
    decreases |rs|
  {
    if rs == [] {
      ComesNowhere(Intended, pre + (EncodeRecords(rs) + bad), |pre|);
    } else {
      var e, y := EncodeRecord(rs[0]), EncodeRecords(rs[1..]) + bad;
      Assoc(e, EncodeRecords(rs[1..]), bad);
      Assoc(pre, e, y);
      Assoc(pre, e, EncodeRecords(rs[1..]));
      ReadIntended(pre, rs[0], y);
      IntendedComes(pre + e, rs[1..], bad);
      ComesStep(Intended, pre + (e + y), |pre|, |pre + e|, rs, |pre + EncodeRecords(rs)|);
    }
  }

  predicate SeesAs(cursor: Cursor, p: Octets, offset: nat, k: nat, seen: Sighting) {
    Seen(cursor, p, offset, k) == seen
  }

  /** A walk over `n` records sees what one over `j` sees, and then fails as it would from where that ends. */
  lemma {:induction false} FailsOnward(
    cursor: Cursor, p: Octets, offset: nat, j: nat, k: nat, n: nat, first: seq<Record>, stop: nat, e: ParseError)
    requires SeesAs(cursor, p, offset, j, Sighting(first, None)) && Stop(cursor, p, offset, j) == stop
    requires SeesAs(cursor, p, stop, k, Sighting([], Some(e))) && n == j + k
    ensures SeesAs(cursor, p, offset, n, Sighting(first, Some(e)))
    decreases j
  {
    if j == 0 {
      NothingSeen(cursor, p, offset, first, stop);
    } else {
      var v, more := OnwardStep(cursor, p, offset, j, first, stop);
      FailsOnward(cursor, p, v.next, j - 1, k, n - 1, more, stop, e);
      OnwardBack(cursor, p, offset, n, v, more, first, e);
    }
  }

  lemma NothingSeen(cursor: Cursor, p: Octets, offset: nat, first: seq<Record>, stop: nat)
    requires SeesAs(cursor, p, offset, 0, Sighting(first, None)) && Stop(cursor, p, offset, 0) == stop
    ensures first == [] && stop == offset
  {
  }

  lemma OnwardStep(cursor: Cursor, p: Octets, offset: nat, j: nat, first: seq<Record>, stop: nat)
    returns (v: RecordView, more: seq<Record>)
    requires j > 0 && SeesAs(cursor, p, offset, j, Sighting(first, None)) && Stop(cursor, p, offset, j) == stop
    ensures ReadRecord(cursor, p, offset) == Ok(v) && FitsType(v.rtype, v.rdata)
    ensures first == [Plain(v.rtype, v.rdata)] + more
    ensures SeesAs(cursor, p, v.next, j - 1, Sighting(more, None)) && Stop(cursor, p, v.next, j - 1) == stop
  {
    v := ReadRecord(cursor, p, offset).value;
    more := Seen(cursor, p, v.next, j - 1).records;
  }

  lemma OnwardBack(cursor: Cursor, p: Octets, offset: nat, n: nat, v: RecordView, more: seq<Record>, first: seq<Record>, e: ParseError)
    requires n > 0 && ReadRecord(cursor, p, offset) == Ok(v) && FitsType(v.rtype, v.rdata)
    requires first == [Plain(v.rtype, v.rdata)] + more && SeesAs(cursor, p, v.next, n - 1, Sighting(more, Some(e)))
    ensures SeesAs(cursor, p, offset, n, Sighting(first, Some(e)))
  {
  }

  lemma ComesTo(cursor: Cursor, rs: seq<Record>, bad: Octets)
    requires ValidRecords(rs) && (cursor.Intended? || |rs| <= 1)
    ensures Comes(cursor, EncodeRecords(rs) + bad, 0, rs, |EncodeRecords(rs)|)
  {
    var p := EncodeRecords(rs) + bad;
    if cursor.Intended? {
      IntendedComes([], rs, bad);
      assert [] + p == p && [] + EncodeRecords(rs) == EncodeRecords(rs);
    } else if rs == [] {
      ComesNowhere(AsWritten, p, 0);
    } else {
      FirstAhead(rs, bad);
      assert rs[1..] == [] && EncodeRecords(rs) == EncodeRecord(rs[0]);
      ComesNowhere(AsWritten, p, |EncodeRecord(rs[0])|);
      ComesStep(AsWritten, p, 0, |EncodeRecord(rs[0])|, rs, |EncodeRecord(rs[0])|);
    }
  }

  /** Records in front are seen, and then the error of the name behind them. */
  lemma SeenThenFails(cursor: Cursor, p: Octets, first: seq<Record>, n: nat, stop: nat, bad: Octets, rest: nat, e: ParseError)
    requires SeesAs(cursor, p, 0, n, Sighting(first, None)) && Stop(cursor, p, 0, n) == stop
    requires stop <= |p| && p[stop..] == bad && SkipName(bad) == Err(e) && rest > 0
    ensures SeesAs(cursor, p, 0, n + rest, Sighting(first, Some(e)))
  {
    NameFails(cursor, p, stop, bad, rest, e);
    FailsOnward(cursor, p, 0, n, rest, n + rest, first, stop, e);
  }

  /** What was seen before the failure is what stays stored. */
  lemma StoredThenFails(fmt: Formatter, cursor: Cursor, p: Octets, rs: seq<Record>, k: nat, slot: DnsResponse, e: ParseError)
    requires ValidRecords(rs) && SeesAs(cursor, p, 0, k, Sighting(Plains(rs), Some(e)))
    ensures AnswersFrom(fmt, cursor, p, 0, k, slot) == Outcome(Err(e), WithAnswers(fmt, slot, rs))
  {
    OutcomeIsSeen(fmt, cursor, p, 0, k, slot);
    PlainsStore(fmt, slot, rs);
  }

  lemma FailsBehind(fmt: Formatter, cursor: Cursor, p: Octets, rs: seq<Record>, stop: nat, bad: Octets, k: nat, slot: DnsResponse, e: ParseError)
    requires ValidRecords(rs) && Comes(cursor, p, 0, rs, stop) && |rs| < k
    requires stop <= |p| && p[stop..] == bad && SkipName(bad) == Err(e)
    ensures AnswersFrom(fmt, cursor, p, 0, k, slot) == Outcome(Err(e), WithAnswers(fmt, slot, rs))
  {
    SeenThenFails(cursor, p, Plains(rs), |rs|, stop, bad, k - |rs|, e);
    StoredThenFails(fmt, cursor, p, rs, k, slot, e);
  }

  /** A record that cannot even be named ends the walk with the name's error; the addresses so far stay stored. */
  lemma SectionErrors(fmt: Formatter, cursor: Cursor, rs: seq<Record>, bad: Octets, k: nat, slot: DnsResponse)
    requires ValidRecords(rs) && |rs| < k && (cursor.Intended? || |rs| <= 1) && SkipName(bad).Err?
    ensures AnswersFrom(fmt, cursor, EncodeRecords(rs) + bad, 0, k, slot) ==
              Outcome(Err(SkipName(bad).error), WithAnswers(fmt, slot, rs))
  {
    var p, stop, e := EncodeRecords(rs) + bad, |EncodeRecords(rs)|, SkipName(bad).error;
    ComesTo(cursor, rs, bad);
    DropPrefix(EncodeRecords(rs), bad);
    FailsBehind(fmt, cursor, p, rs, stop, bad, k, slot, e);
  }

  // ------------------------------------------------------------ resources

  /** Thirty octets: one AAAA answer behind a pointer, and the pointer of a second answer. */
  function ThirtyOctets(): Octets {
    EncodeRecord(PointerRecord(TYPE_AAAA, 60, seq(16, _ => 0))) + [0xC0, 12]
  }

  /** As written that is the only bound: these thirty octets yield sixteen raw bytes for each answer announced. */
  lemma AsWrittenUnbounded(fmt: Formatter, k: nat, slot: DnsResponse)
    ensures |ThirtyOctets()| == 30
    ensures var out := AnswersFrom(fmt, AsWritten, ThirtyOctets(), 0, k, slot);
            out.result.Ok? && |out.slot.resolvedIpRaw| == |slot.resolvedIpRaw| + 16 * k
  {
    var r := PointerRecord(TYPE_AAAA, 60, seq(16, _ => 0));
    assert EncodeName(r.name) == [0xC0, 12];
    StuckFromStart(r, [0xC0, 12], k);
    RepeatFacts(PlainOf(r), k);
    OutcomeIsSeen(fmt, AsWritten, ThirtyOctets(), 0, k, slot);
  }
}
