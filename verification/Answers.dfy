/**
 * `parse_rdata`: the walk over the answer section. The code assigns the length returned by
 * `skip_name` to its cursor where it has to advance by it; both readings are defined here,
 * and the theorems say what each of them computes on every input.
 */
module Answers {
  import opened Bytes
  import opened Wire
  import opened Common
  import opened Names

  const RR_FIXED_HDR_LEN: nat := 10

  /** `AsWritten`: offset = skip_name(..). `Intended`: offset += skip_name(..). */
  datatype Cursor = AsWritten | Intended

  datatype RecordType = A | CNAME | AAAA | UNSUPPORTED(code: U16)

  function RecordTypeOf(v: U16): RecordType {
    if v == 1 then A else if v == 5 then CNAME else if v == 28 then AAAA else UNSUPPORTED(v)
  }

  datatype RecordView = RecordView(rtype: U16, rdata: Octets, next: nat)

  /** Verdict, and the contents of the slot also after a failure. */
  datatype Outcome = Outcome(result: Result<()>, slot: DnsResponse)

  /** Fixed part and data of a record that starts, behind its name, at `at`. */
  function ReadFixed(h: Octets, at: nat): Result<RecordView>
    requires |h| >= RR_FIXED_HDR_LEN
  {
    var rdlength := Read16(h, 8);
    if RR_FIXED_HDR_LEN + rdlength > |h| then Err(UnexpectedEndOfPayload)
    else Ok(RecordView(Read16(h, 0), h[10..10 + rdlength], at + 10 + rdlength))
  }

  function NameStop(cursor: Cursor, offset: nat, n: nat): nat {
    if cursor.AsWritten? then n else offset + n
  }

  function ReadRecord(cursor: Cursor, p: Octets, offset: nat): Result<RecordView> {
    if offset >= |p| then Err(UnexpectedEndOfPayload)
    else
      match SkipName(p[offset..])
      case Err(e) => Err(e)
      case Ok(n) =>
        var at := NameStop(cursor, offset, n);
        if at + RR_FIXED_HDR_LEN > |p| then Err(UnexpectedEndOfPayload) else ReadFixed(p[at..], at)
  }

  function Store(fmt: Formatter, slot: DnsResponse, rtype: U16, rdata: Octets): Outcome {
    match RecordTypeOf(rtype)
    case A =>
      if |rdata| != 4 then Outcome(Err(UnexpectedEndOfPayload), slot)
      else Outcome(Ok(()), slot.(resolvedIp := slot.resolvedIp + fmt.ipv4(rdata),
                                 resolvedIpRaw := slot.resolvedIpRaw + rdata, ipFamily := AF_INET))
    case AAAA =>
      if |rdata| != 16 then Outcome(Err(UnexpectedEndOfPayload), slot)
      else Outcome(Ok(()), slot.(resolvedIp := slot.resolvedIp + fmt.ipv6(rdata),
                                 resolvedIpRaw := slot.resolvedIpRaw + rdata, ipFamily := AF_INET6))
    case CNAME => Outcome(Ok(()), slot)
    case UNSUPPORTED(_) => Outcome(Ok(()), slot)
  }

  function AnswersFrom(fmt: Formatter, cursor: Cursor, p: Octets, offset: nat, k: nat, slot: DnsResponse): Outcome
    decreases k
  {
    if k == 0 then Outcome(Ok(()), slot)
    else
      match ReadRecord(cursor, p, offset)
      case Err(e) => Outcome(Err(e), slot)
      case Ok(v) =>
        var stored := Store(fmt, slot, v.rtype, v.rdata);
        if stored.result.Err? then stored
        else AnswersFrom(fmt, cursor, p, v.next, k - 1, stored.slot)
  }

  function ParseRdata(fmt: Formatter, cursor: Cursor, p: Octets, ancount: U16, slot: DnsResponse): Outcome {
    if p == [] then Outcome(Err(UnexpectedEndOfPayload), slot) else AnswersFrom(fmt, cursor, p, 0, ancount, slot)
  }

  // -------------------------------------------------- what a record list means

  function RecordText(fmt: Formatter, r: Record): Text {
    if r.rtype == TYPE_A then fmt.ipv4(r.rdata) else if r.rtype == TYPE_AAAA then fmt.ipv6(r.rdata) else []
  }

  function TextOf(fmt: Formatter, rs: seq<Record>): Text {
    if rs == [] then [] else RecordText(fmt, rs[0]) + TextOf(fmt, rs[1..])
  }

  /** The slot after every address of `rs`, in order, and the family of the last one. */
  function WithAnswers(fmt: Formatter, slot: DnsResponse, rs: seq<Record>): DnsResponse {
    slot.(resolvedIp := slot.resolvedIp + TextOf(fmt, rs),
          resolvedIpRaw := slot.resolvedIpRaw + RawOf(rs),
          ipFamily := FamilyOf(rs, slot.ipFamily))
  }

  lemma StoreValid(fmt: Formatter, slot: DnsResponse, rs: seq<Record>)
    requires rs != [] && ValidRecord(rs[0])
    ensures var stored := Store(fmt, slot, rs[0].rtype, rs[0].rdata);
            stored.result.Ok? && WithAnswers(fmt, stored.slot, rs[1..]) == WithAnswers(fmt, slot, rs)
  {
    var r, stored := rs[0], Store(fmt, slot, rs[0].rtype, rs[0].rdata).slot;
    var raw := if IsAddress(r) then r.rdata else [];
    assert stored.resolvedIp == slot.resolvedIp + RecordText(fmt, r);
    assert stored.resolvedIpRaw == slot.resolvedIpRaw + raw;
    Assoc(slot.resolvedIp, RecordText(fmt, r), TextOf(fmt, rs[1..]));
    Assoc(slot.resolvedIpRaw, raw, RawOf(rs[1..]));
  }

  /** The record `r` is what the loop reads at `offset`, and `next` is where it goes on. */
  predicate Reads(cursor: Cursor, p: Octets, offset: nat, r: Record, next: nat) {
    ReadRecord(cursor, p, offset) == Ok(RecordView(r.rtype, r.rdata, next))
  }

  /** From `offset` on, |rs| iterations succeed and store exactly the addresses of `rs`. */
  predicate Collects(fmt: Formatter, cursor: Cursor, p: Octets, offset: nat, rs: seq<Record>, slot: DnsResponse) {
    AnswersFrom(fmt, cursor, p, offset, |rs|, slot) == Outcome(Ok(()), WithAnswers(fmt, slot, rs))
  }

  function Stored(fmt: Formatter, slot: DnsResponse, r: Record): DnsResponse {
    Store(fmt, slot, r.rtype, r.rdata).slot
  }

  lemma CollectsNothing(fmt: Formatter, cursor: Cursor, p: Octets, offset: nat, slot: DnsResponse)
    ensures Collects(fmt, cursor, p, offset, [], slot)
  {
    assert WithAnswers(fmt, slot, []) == slot;
  }

  /** One iteration over a valid record. */
  lemma CollectsStep(fmt: Formatter, cursor: Cursor, p: Octets, offset: nat, next: nat, rs: seq<Record>, slot: DnsResponse)
    requires rs != [] && ValidRecord(rs[0]) && Reads(cursor, p, offset, rs[0], next)
    requires Collects(fmt, cursor, p, next, rs[1..], Stored(fmt, slot, rs[0]))
    ensures Collects(fmt, cursor, p, offset, rs, slot)
  {
    StoreValid(fmt, slot, rs);
  }

  // ------------------------------------------------------------- completeness

  lemma FixedComplete(r: Record, y: Octets, at: nat)
    requires |r.rdata| < 0x1_0000
    ensures ReadFixed(EncodeFixed(r) + (r.rdata + y), at) == Ok(RecordView(r.rtype, r.rdata, at + 10 + |r.rdata|))
  {
    var f := EncodeFixed(r);
    var h := f + (r.rdata + y);
    assert f[0] == r.rtype / 0x100 && f[1] == r.rtype % 0x100;
    assert f[8] == |r.rdata| / 0x100 && f[9] == |r.rdata| % 0x100;
    assert h[10..] == r.rdata + y;
    assert h[10..10 + |r.rdata|] == h[10..][..|r.rdata|];
  }

  /** A record at the front of the octets: where its name ends, and what stands behind the name. */
  lemma RecordFront(r: Record, y: Octets, at: nat)
    requires ValidRecord(r)
    ensures var s, n := EncodeRecord(r) + y, |EncodeName(r.name)|;
            && SkipName(s) == Ok(n) && n + 10 <= |s|
            && ReadFixed(s[n..], at) == Ok(RecordView(r.rtype, r.rdata, at + 10 + |r.rdata|))
            && |EncodeRecord(r)| == n + 10 + |r.rdata|
  {
    var name, body := EncodeName(r.name), EncodeFixed(r) + r.rdata;
    Assoc(name, body, y);
    SkipComplete(r.name, body + y);
    Assoc(EncodeFixed(r), r.rdata, y);
    FixedComplete(r, y, at);
    assert (name + (body + y))[|name|..] == body + y;
    assert |EncodeFixed(r)| == 10;
  }

  /** Where the intended cursor looks: behind the name that stands at the cursor. */
  lemma ReadIntended(pre: Octets, r: Record, y: Octets)
    requires ValidRecord(r)
    ensures Reads(Intended, pre + (EncodeRecord(r) + y), |pre|, r, |pre + EncodeRecord(r)|)
  {
    var s, n := EncodeRecord(r) + y, |EncodeName(r.name)|;
    RecordFront(r, y, |pre| + n);
    assert (pre + s)[|pre|..] == s;
    assert (pre + s)[|pre| + n..] == s[n..];
  }

  /** Where the as-written cursor looks: as far from the front as the name at the cursor is long. */
  lemma ReadAsWritten(r: Record, y: Octets, offset: nat)
    requires ValidRecord(r) && offset < |EncodeRecord(r) + y|
    requires SkipName((EncodeRecord(r) + y)[offset..]) == Ok(|EncodeName(r.name)|)
    ensures Reads(AsWritten, EncodeRecord(r) + y, offset, r, |EncodeRecord(r)|)
  {
    RecordFront(r, y, |EncodeName(r.name)|);
  }

  /** With the intended cursor every well-formed answer section is read back, record by record. */
  lemma {:induction false} IntendedComplete(fmt: Formatter, pre: Octets, rs: seq<Record>, tail: Octets, slot: DnsResponse)
    requires ValidRecords(rs)
    ensures Collects(fmt, Intended, pre + (EncodeRecords(rs) + tail), |pre|, rs, slot)
    decreases |rs|
  {
    if rs == [] {
      CollectsNothing(fmt, Intended, pre + (EncodeRecords(rs) + tail), |pre|, slot);
    } else {
      var e, y := EncodeRecord(rs[0]), EncodeRecords(rs[1..]) + tail;
      Assoc(e, EncodeRecords(rs[1..]), tail);
      Assoc(pre, e, y);
      ReadIntended(pre, rs[0], y);
      IntendedComplete(fmt, pre + e, rs[1..], tail, Stored(fmt, slot, rs[0]));
      CollectsStep(fmt, Intended, pre + (e + y), |pre|, |pre + e|, rs, slot);
    }
  }

  // ---------------------------------------------------------------- soundness

  function DecodeFixed(h: Octets, name: Name): Record
    requires |h| >= 10 && 10 + Read16(h, 8) <= |h|
  {
    Record(name, Read16(h, 0), Read16(h, 2), Read32(h, 4), h[10..10 + Read16(h, 8)])
  }

  lemma FixedOctets(h: Octets, name: Name)
    requires |h| >= 10 && 10 + Read16(h, 8) <= |h|
    ensures EncodeFixed(DecodeFixed(h, name)) == h[0..10]
  {
    Be16Read16(h, 0);
    Be16Read16(h, 2);
    Be32Read32(h, 4);
    Be16Read16(h, 8);
    Adjacent(h, 4, 8, 10);
    Adjacent(h, 2, 4, 10);
    Adjacent(h, 0, 2, 10);
  }

  lemma FixedSound(h: Octets, name: Name)
    requires |h| >= 10 && 10 + Read16(h, 8) <= |h|
    ensures var r := DecodeFixed(h, name);
            h == EncodeFixed(r) + (r.rdata + h[10 + |r.rdata|..])
  {
    var r := DecodeFixed(h, name);
    FixedOctets(h, name);
    Adjacent(h, 10, 10 + |r.rdata|, |h|);
    Adjacent(h, 0, 10, |h|);
  }

  lemma FixedSoundAt(h: Octets, at: nat, name: Name) returns (r: Record, rest: Octets)
    requires |h| >= 10 && ReadFixed(h, at).Ok?
    ensures ReadFixed(h, at) == Ok(RecordView(r.rtype, r.rdata, at + 10 + |r.rdata|))
    ensures r.name == name && |r.rdata| < 0x1_0000 && h == (EncodeFixed(r) + r.rdata) + rest
  {
    r := DecodeFixed(h, name);
    rest := h[10 + |r.rdata|..];
    FixedSound(h, name);
    Assoc(EncodeFixed(r), r.rdata, rest);
  }

  /** The octets from `offset` to `next` are the record `r`, up to the size rule for addresses. */
  predicate RecordStands(p: Octets, offset: nat, r: Record, next: nat) {
    && offset < next <= |p| && ValidName(r.name) && |r.rdata| < 0x1_0000
    && p[offset..] == (EncodeName(r.name) + (EncodeFixed(r) + r.rdata)) + p[next..]
  }

  /** The octets from `offset` on are the records `rs`, then `rest`. */
  predicate RecordsStand(p: Octets, offset: nat, rs: seq<Record>, rest: Octets) {
    offset <= |p| && ValidRecords(rs) && p[offset..] == EncodeRecords(rs) + rest
  }

  predicate Succeeds(fmt: Formatter, cursor: Cursor, p: Octets, offset: nat, k: nat, slot: DnsResponse) {
    AnswersFrom(fmt, cursor, p, offset, k, slot).result.Ok?
  }

  /** A record read with the intended cursor is the fixed part behind the name, and nothing else. */
  lemma ReadParts(p: Octets, offset: nat, n: nat)
    requires ReadRecord(Intended, p, offset).Ok? && SkipName(p[offset..]) == Ok(n)
    ensures offset + n + 10 <= |p| && ReadRecord(Intended, p, offset) == ReadFixed(p[offset + n..], offset + n)
  {
  }

  lemma ReadSound(p: Octets, offset: nat) returns (r: Record, next: nat)
    requires ReadRecord(Intended, p, offset).Ok?
    ensures Reads(Intended, p, offset, r, next) && RecordStands(p, offset, r, next)
  {
    var name, behind := NameBehind(p, offset);
    var at := offset + |EncodeName(name)|;
    var rest;
    r, rest := FixedSoundAt(behind, at, name);
    next := at + 10 + |r.rdata|;
    StandsFrom(p, offset, r, behind, rest, next);
  }

  /** The name at `offset`, and the octets behind it that the record was read from. */
  lemma NameBehind(p: Octets, offset: nat) returns (name: Name, behind: Octets)
    requires ReadRecord(Intended, p, offset).Ok?
    ensures offset < |p| && ValidName(name) && p[offset..] == EncodeName(name) + behind && |behind| >= 10
    ensures ReadRecord(Intended, p, offset) == ReadFixed(behind, offset + |EncodeName(name)|)
  {
    name, behind := SkipSound(p[offset..]);
    ReadParts(p, offset, |EncodeName(name)|);
    Behind(p, offset, EncodeName(name), behind);
  }

  /** What follows `x` at `offset`. */
  lemma Behind(p: Octets, offset: nat, x: Octets, rest: Octets)
    requires offset <= |p| && p[offset..] == x + rest
    ensures offset + |x| <= |p| && rest == p[offset + |x|..]
  {
    assert rest == (x + rest)[|x|..];
    assert p[offset..][|x|..] == p[offset + |x|..];
  }

  lemma StandsFrom(p: Octets, offset: nat, r: Record, behind: Octets, rest: Octets, next: nat)
    requires ValidName(r.name) && |r.rdata| < 0x1_0000 && offset <= |p| && p[offset..] == EncodeName(r.name) + behind
    requires behind == (EncodeFixed(r) + r.rdata) + rest && next == offset + |EncodeName(r.name)| + 10 + |r.rdata|
    ensures RecordStands(p, offset, r, next)
  {
    var name, body := EncodeName(r.name), EncodeFixed(r) + r.rdata;
    assert |EncodeFixed(r)| == 10;
    Assoc(name, body, rest);
    Behind(p, offset, name + body, rest);
  }

  /** A successful walk has stored its first record and goes on successfully. */
  lemma OkStep(fmt: Formatter, cursor: Cursor, p: Octets, offset: nat, k: nat, slot: DnsResponse, r: Record, next: nat)
    requires k > 0 && Succeeds(fmt, cursor, p, offset, k, slot) && Reads(cursor, p, offset, r, next)
    ensures (r.rtype == TYPE_A ==> |r.rdata| == 4) && (r.rtype == TYPE_AAAA ==> |r.rdata| == 16)
    ensures Succeeds(fmt, cursor, p, next, k - 1, Stored(fmt, slot, r))
  {
  }

  lemma OkReads(fmt: Formatter, cursor: Cursor, p: Octets, offset: nat, k: nat, slot: DnsResponse)
    requires k > 0 && Succeeds(fmt, cursor, p, offset, k, slot)
    ensures ReadRecord(cursor, p, offset).Ok?
  {
  }

  lemma FirstRecord(fmt: Formatter, p: Octets, offset: nat, k: nat, slot: DnsResponse) returns (r: Record, next: nat)
    requires k > 0 && Succeeds(fmt, Intended, p, offset, k, slot)
    ensures Reads(Intended, p, offset, r, next) && RecordStands(p, offset, r, next) && ValidRecord(r)
    ensures Succeeds(fmt, Intended, p, next, k - 1, Stored(fmt, slot, r))
  {
    OkReads(fmt, Intended, p, offset, k, slot);
    r, next := ReadSound(p, offset);
    OkStep(fmt, Intended, p, offset, k, slot, r, next);
  }

  lemma RecordsStandCons(p: Octets, offset: nat, r: Record, next: nat, more: seq<Record>, rest: Octets)
    requires RecordStands(p, offset, r, next) && ValidRecord(r) && RecordsStand(p, next, more, rest)
    ensures RecordsStand(p, offset, [r] + more, rest)
  {
    EncodedRecordCons(r, more, rest);
  }

  lemma SoundCons(fmt: Formatter, p: Octets, offset: nat, r: Record, next: nat, more: seq<Record>, rest: Octets, slot: DnsResponse)
    requires RecordStands(p, offset, r, next) && ValidRecord(r) && RecordsStand(p, next, more, rest)
    requires Reads(Intended, p, offset, r, next) && Collects(fmt, Intended, p, next, more, Stored(fmt, slot, r))
    ensures RecordsStand(p, offset, [r] + more, rest) && Collects(fmt, Intended, p, offset, [r] + more, slot)
  {
    RecordsStandCons(p, offset, r, next, more, rest);
    assert ([r] + more)[1..] == more;
    CollectsStep(fmt, Intended, p, offset, next, [r] + more, slot);
  }

  /** Success with the intended cursor means the octets were an encoded record list; it is returned. */
  lemma {:induction false} IntendedSound(fmt: Formatter, p: Octets, offset: nat, k: nat, slot: DnsResponse)
    returns (rs: seq<Record>, rest: Octets)
    requires offset <= |p| && Succeeds(fmt, Intended, p, offset, k, slot)
    ensures |rs| == k && RecordsStand(p, offset, rs, rest) && Collects(fmt, Intended, p, offset, rs, slot)
    decreases k
  {
    if k == 0 {
      rs, rest := [], p[offset..];
      CollectsNothing(fmt, Intended, p, offset, slot);
    } else {
      var r, next := FirstRecord(fmt, p, offset, k, slot);
      var more;
      more, rest := IntendedSound(fmt, p, next, k - 1, Stored(fmt, slot, r));
      rs := [r] + more;
      SoundCons(fmt, p, offset, r, next, more, rest, slot);
    }
  }

  // ------------------------------------------------------------------- bounds

  /** What the policy engine relies on when it takes the first chunk of the raw bytes. */
  predicate ChunkSafe(slot: DnsResponse) {
    && slot.ipFamily in {0, AF_INET, AF_INET6}
    && (slot.ipFamily == 0 <==> slot.resolvedIpRaw == [])
    && (slot.ipFamily == AF_INET ==> |slot.resolvedIpRaw| >= 4)
    && (slot.ipFamily == AF_INET6 ==> |slot.resolvedIpRaw| >= 16)
  }

  lemma StoreChunkSafe(fmt: Formatter, slot: DnsResponse, rtype: U16, rdata: Octets)
    requires ChunkSafe(slot)
    ensures ChunkSafe(Store(fmt, slot, rtype, rdata).slot)
  {
  }

  /** Either cursor keeps family and raw bytes consistent, on every input and also when it fails. */
  lemma {:induction false} AnswersChunkSafe(fmt: Formatter, cursor: Cursor, p: Octets, offset: nat, k: nat, slot: DnsResponse)
    requires ChunkSafe(slot)
    ensures ChunkSafe(AnswersFrom(fmt, cursor, p, offset, k, slot).slot)
    decreases k
  {
    if k == 0 {
    } else if ReadRecord(cursor, p, offset).Ok? {
      var v := ReadRecord(cursor, p, offset).value;
      StoreChunkSafe(fmt, slot, v.rtype, v.rdata);
      AnswersChunkSafe(fmt, cursor, p, v.next, k - 1, Store(fmt, slot, v.rtype, v.rdata).slot);
    }
  }

  /** Under either cursor the answer count bounds the raw bytes. */
  lemma {:induction false} AnswersRawBound(fmt: Formatter, cursor: Cursor, p: Octets, offset: nat, k: nat, slot: DnsResponse)
    ensures |AnswersFrom(fmt, cursor, p, offset, k, slot).slot.resolvedIpRaw| <= |slot.resolvedIpRaw| + 16 * k
    decreases k
  {
    if k == 0 {
    } else if ReadRecord(cursor, p, offset).Ok? {
      var v := ReadRecord(cursor, p, offset).value;
      var stored := Store(fmt, slot, v.rtype, v.rdata).slot;
      assert |stored.resolvedIpRaw| <= |slot.resolvedIpRaw| + 16;
      AnswersRawBound(fmt, cursor, p, v.next, k - 1, stored);
    }
  }

  /** The intended cursor pays eleven octets per answer, so the raw bytes are bounded by the input. */
  lemma IntendedResourceBound(fmt: Formatter, p: Octets, k: nat, slot: DnsResponse)
    requires AnswersFrom(fmt, Intended, p, 0, k, slot).result.Ok?
    ensures 11 * k <= |p|
    ensures |AnswersFrom(fmt, Intended, p, 0, k, slot).slot.resolvedIpRaw| <= |slot.resolvedIpRaw| + |p| - 11 * k
  {
    var rs, rest := IntendedSound(fmt, p, 0, k, slot);
    RecordsSize(rs);
  }

  // ---------------------------------------------------- stability on extension

  lemma FixedStable(h: Octets, t: Octets, at: nat)
    requires |h| >= 10
    ensures ReadFixed(h, at).Ok? ==> ReadFixed(h + t, at) == ReadFixed(h, at)
  {
    var n := Read16(h, 8);
    assert Read16(h + t, 8) == n && Read16(h + t, 0) == Read16(h, 0);
    if 10 + n <= |h| {
      assert (h + t)[10..10 + n] == h[10..10 + n];
    }
  }

  lemma ReadStable(cursor: Cursor, p: Octets, t: Octets, offset: nat)
    ensures !Truncated(ReadRecord(cursor, p, offset)) ==> ReadRecord(cursor, p + t, offset) == ReadRecord(cursor, p, offset)
  {
    if offset < |p| {
      DropAppend(p, t, offset);
      SkipStable(p[offset..], t);
      if SkipName(p[offset..]).Ok? {
        var at := NameStop(cursor, offset, SkipName(p[offset..]).value);
        if at + 10 <= |p| {
          DropAppend(p, t, at);
          FixedStable(p[at..], t, at);
        }
      }
    }
  }

  lemma {:induction false} AnswersStable(fmt: Formatter, cursor: Cursor, p: Octets, t: Octets, offset: nat, k: nat, slot: DnsResponse)
    ensures var r := AnswersFrom(fmt, cursor, p, offset, k, slot);
            !Truncated(r.result) ==> AnswersFrom(fmt, cursor, p + t, offset, k, slot) == r
    decreases k
  {
    if k == 0 {
    } else {
      ReadStable(cursor, p, t, offset);
      if ReadRecord(cursor, p, offset).Ok? {
        var v := ReadRecord(cursor, p, offset).value;
        AnswersStable(fmt, cursor, p, t, v.next, k - 1, Store(fmt, slot, v.rtype, v.rdata).slot);
      }
    }
  }
}
