/** The FQDN policy engine: which key an observed response puts into the allowed-address map. */
module Policy {
  import opened Bytes
  import opened Wire
  import opened Common
  import opened Answers
  import opened Sightings
  import opened Parser

  const MAP_CAPACITY: nat := 1024

  type IpMap = map<RawIpAddr, Byte>

  /** `Panic`: `chunks_exact(n).next().unwrap()` on fewer than n bytes. */
  datatype Choice = Key(addr: RawIpAddr) | NoKnownFamily | Panic

  function ChooseKey(resp: DnsResponse): Choice {
    var raw := resp.resolvedIpRaw;
    if resp.ipFamily == AF_INET then
      if |raw| < 4 then Panic else Key(FromIpv4(raw[..4]))
    else if resp.ipFamily == AF_INET6 then
      if |raw| < 16 then Panic else Key(FromIpv6(raw[..16]))
    else NoKnownFamily
  }

  /** `HashMap::insert`: fails only for a new key into a full map. */
  predicate CanInsert(m: IpMap, k: RawIpAddr) {
    k in m || |m| < MAP_CAPACITY
  }

  datatype UpdateResult = Skipped | Inserted | FamilyError | MapFull

  datatype Update = Update(result: UpdateResult, ips: IpMap)

  function UpdateWith(domains: set<Text>, m: IpMap, resp: DnsResponse): Update
    requires resp.domainName in domains ==> !ChooseKey(resp).Panic?
  {
    if resp.domainName !in domains then Update(Skipped, m)
    else
      match ChooseKey(resp)
      case NoKnownFamily => Update(FamilyError, m)
      case Key(k) => if CanInsert(m, k) then Update(Inserted, m[k := 0]) else Update(MapFull, m)
      case Panic => assert false; Update(FamilyError, m)
  }

  class FqdnPolicyEngine {
    var allowedIpMap: IpMap
    const allowedDomains: set<Text>

    constructor (domains: set<Text>)
      ensures allowedIpMap == map[] && allowedDomains == domains
    {
      allowedIpMap, allowedDomains := map[], domains;
    }

    /** The caller's duty is that `unwrap` is safe; module Parser discharges it for every parse. */
    method Observe(resp: DnsResponse) returns (r: UpdateResult)
      requires resp.domainName in allowedDomains ==> !ChooseKey(resp).Panic?
      modifies this
      ensures Update(r, allowedIpMap) == UpdateWith(allowedDomains, old(allowedIpMap), resp)
    {
      if resp.domainName !in allowedDomains {
        return Skipped;
      }
      var key: RawIpAddr;
      if resp.ipFamily == AF_INET {
        key := FromIpv4(resp.resolvedIpRaw[..4]);
      } else if resp.ipFamily == AF_INET6 {
        key := FromIpv6(resp.resolvedIpRaw[..16]);
      } else {
        return FamilyError;
      }
      if !CanInsert(allowedIpMap, key) {
        return MapFull;
      }
      allowedIpMap := allowedIpMap[key := 0];
      return Inserted;
    }
  }

  /** The invariant the parser keeps is what `unwrap` needs; the family error then means: no address at all. */
  lemma ChunkSafeNeverPanics(resp: DnsResponse)
    requires ChunkSafe(resp)
    ensures !ChooseKey(resp).Panic?
    ensures ChooseKey(resp).NoKnownFamily? <==> resp.resolvedIpRaw == []
  {
  }

  /** The family error is reported exactly for allowed domains without any address. */
  lemma FamilyErrorExact(domains: set<Text>, m: IpMap, resp: DnsResponse)
    requires ChunkSafe(resp)
    ensures resp.domainName in domains ==> !ChooseKey(resp).Panic?
    ensures UpdateWith(domains, m, resp).result == FamilyError <==> resp.domainName in domains && resp.resolvedIpRaw == []
  {
    ChunkSafeNeverPanics(resp);
  }

  /** Every result of an update, by what a caller can see before and after. */
  lemma UpdateExact(domains: set<Text>, m: IpMap, resp: DnsResponse)
    requires ChunkSafe(resp) && |m| <= 1024
    ensures resp.domainName in domains ==> !ChooseKey(resp).Panic?
    ensures var u := UpdateWith(domains, m, resp);
            var chosen := resp.domainName in domains && ChooseKey(resp).Key?;
            && (u.result == Skipped <==> resp.domainName !in domains)
            && (u.result == Inserted <==> chosen && ChooseKey(resp).addr in u.ips)
            && (u.result == MapFull <==> chosen && ChooseKey(resp).addr !in u.ips)
            && (u.result == MapFull ==> |u.ips| == 1024) && |u.ips| <= 1024
            && (u.result != Inserted ==> u.ips == m)
            && (u.result == Inserted ==> u.ips == m[ChooseKey(resp).addr := 0])
  {
    ChunkSafeNeverPanics(resp);
    if resp.domainName in domains && ChooseKey(resp).Key? {
      assert m[ChooseKey(resp).addr := 0].Keys == m.Keys + {ChooseKey(resp).addr};
    }
  }

  /** A chosen key is an address of one of the two kinds, octet by octet. */
  predicate KeyShape(k: RawIpAddr) {
    k.family == 10 || (k.family == 2 && forall i :: 4 <= i < 16 ==> k.bytes[i] == 0)
  }

  lemma ChosenKeyOctets(resp: DnsResponse)
    requires ChooseKey(resp).Key?
    ensures var k, raw := ChooseKey(resp).addr, resp.resolvedIpRaw;
            && KeyShape(k) && k.family == resp.ipFamily
            && |raw| >= (if k.family == 2 then 4 else 16)
            && forall i :: 0 <= i < (if k.family == 2 then 4 else 16) ==> k.bytes[i] == raw[i]
  {
    if resp.ipFamily == AF_INET {
      KeyOctets(resp.resolvedIpRaw[..4], seq(16, _ => 0));
    } else {
      KeyOctets([0, 0, 0, 0], resp.resolvedIpRaw[..16]);
    }
  }

  /** What one update may do to the map: nothing is lost, the bound holds, and a chosen key is in or the map is full. */
  lemma UpdateFacts(domains: set<Text>, m: IpMap, resp: DnsResponse)
    requires resp.domainName in domains ==> !ChooseKey(resp).Panic?
    requires |m| <= MAP_CAPACITY
    ensures var m' := UpdateWith(domains, m, resp).ips;
            && m.Keys <= m'.Keys && |m| <= |m'| <= MAP_CAPACITY
            && (forall k | k in m' :: if k in m && m'[k] == m[k] then true
                                      else m'[k] == 0 && resp.domainName in domains && ChooseKey(resp) == Key(k))
            && (resp.domainName in domains && ChooseKey(resp).Key? ==> ChooseKey(resp).addr in m' || |m'| == MAP_CAPACITY)
  {
    if resp.domainName in domains && ChooseKey(resp).Key? {
      var k := ChooseKey(resp).addr;
      var m' := m[k := 0];
      assert m'.Keys == m.Keys + {k};
    }
  }

  // -------------------------------------------------------------- key provenance

  function AddressOf(r: Record): RawIpAddr
    requires ValidRecord(r) && IsAddress(r)
  {
    if r.rtype == TYPE_A then FromIpv4(r.rdata) else FromIpv6(r.rdata)
  }

  lemma {:induction false} ValidAt(rs: seq<Record>, i: nat)
    requires ValidRecords(rs) && i < |rs|
    ensures ValidRecord(rs[i])
  {
    if i == 0 {
    } else {
      ValidAt(rs[1..], i - 1);
    }
  }

  lemma {:induction false} RawHolds(rs: seq<Record>, j: nat)
    requires ValidRecords(rs) && j < |rs| && IsAddress(rs[j])
    ensures |rs[j].rdata| <= |RawOf(rs)|
  {
    if j == 0 {
    } else {
      RawHolds(rs[1..], j - 1);
    }
  }

  /**
   * How a key relates to the records it was chosen for: without an address there is none, its family is
   * that of the last address, and it is the first address exactly when the two are of one type.
   */
  predicate KeyFits(key: Choice, rs: seq<Record>)
    requires ValidRecords(rs)
  {
    AddressesDecide(rs, 0);
    var found := Addresses(rs);
    if found == [] then key.NoKnownFamily?
    else
      && key.Key? && key.addr.family == FamilyOfType(found[|found| - 1].rtype)
      && (key == Key(AddressOf(found[0])) <==> found[0].rtype == found[|found| - 1].rtype)
  }

  /** A slot as `parse_dns_into` hands it to the payload parse: no name, no address yet. */
  predicate Blank(slot: DnsResponse) {
    slot.domainName == [] && slot.resolvedIpRaw == [] && slot.ipFamily == 0
  }

  lemma KeyOfAddresses(resp: DnsResponse, found: seq<Record>)
    requires ValidRecords(found) && found != [] && forall i :: 0 <= i < |found| ==> IsAddress(found[i])
    requires resp.resolvedIpRaw == RawOf(found) && resp.ipFamily == FamilyOf(found, 0)
    ensures var key := ChooseKey(resp);
            && key.Key? && key.addr.family == FamilyOfType(found[|found| - 1].rtype)
            && (key == Key(AddressOf(found[0])) <==> found[0].rtype == found[|found| - 1].rtype)
  {
    var last := |found| - 1;
    ValidAt(found, last);
    RawHead(found);
    RawHolds(found, last);
    FamilyIsLast(found, last, 0);
    assert RawOf(found)[..|found[0].rdata|] == found[0].rdata;
  }

  /** The key chosen for any list of records that has been stored. */
  lemma KeyOfAnswers(fmt: Formatter, slot: DnsResponse, rs: seq<Record>)
    requires ValidRecords(rs) && slot.resolvedIpRaw == [] && slot.ipFamily == 0
    ensures KeyFits(ChooseKey(WithAnswers(fmt, slot, rs)), rs)
  {
    var resp := WithAnswers(fmt, slot, rs);
    assert resp.resolvedIpRaw == RawOf(rs);
    AddressesDecide(rs, 0);
    if Addresses(rs) != [] {
      KeyOfAddresses(resp, Addresses(rs));
    }
  }

  /** With the intended cursor the key fits the answers that were sent. */
  lemma KeyProvenance(fmt: Formatter, m: Message, tail: Octets, slot: DnsResponse)
    requires ValidMessage(m) && Blank(slot) && (m.answers != [] || tail != [])
    ensures KeyFits(ChooseKey(ParsePayload(fmt, Intended, EncodeMessage(m) + tail, slot).slot), m.answers)
  {
    IntendedRoundTrip(fmt, m, tail, slot);
    KeyOfAnswers(fmt, slot.(domainName := Join(m.qname)), m.answers);
  }

  /**
   * As written it fits the answers that were seen. When the code stays on the first answer, the key is
   * that answer's address, or there is none if it is not an address, whatever the others are.
   */
  lemma KeyAsWritten(fmt: Formatter, m: Message, tail: Octets, slot: DnsResponse)
    requires ValidMessage(m) && Blank(slot) && (m.answers != [] || tail != [])
    ensures ValidRecords(SeenAnswers(m, tail).records)
    ensures var key := ChooseKey(ParsePayload(fmt, AsWritten, EncodeMessage(m) + tail, slot).slot);
            && KeyFits(key, SeenAnswers(m, tail).records)
            && (m.answers != [] && StaysOnFirst(m.answers) ==>
                  key == if IsAddress(m.answers[0]) then Key(AddressOf(m.answers[0])) else NoKnownFamily)
  {
    var seen := SeenAnswers(m, tail).records;
    SeenValid(AsWritten, EncodeRecords(m.answers) + tail, 0, |m.answers|);
    AsWrittenManyAnswers(fmt, m, tail, slot);
    KeyOfAnswers(fmt, slot.(domainName := Join(m.qname)), seen);
    if m.answers != [] && StaysOnFirst(m.answers) {
      AsWrittenRepeatsFirst(m.answers, tail);
      RepeatFacts(PlainOf(m.answers[0]), |m.answers|);
    }
  }

  // ------------------------------------------------------------- mixed families

  /** An A record whose time to live and address read, five octets in, as the front of an AAAA record. */
  function MixedFirst(): Record {
    Record(Name([], Root), TYPE_A, 1, 0x001C_0000, [1, 2, 0, 16])
  }

  function MixedSecond(): Record {
    Record(Name([[0x61, 0x62, 0x63]], Root), TYPE_AAAA, 1, 60, [0, 0, 0, 0, 0, 0, 0, 0, 0, 0, 0, 0, 0, 0, 0, 9])
  }

  lemma MixedFirstOctets(y: Octets)
    ensures ValidRecord(MixedFirst())
    ensures EncodeRecord(MixedFirst()) + y == [0, 0, 1, 0, 1] + ([0, 0x1C, 0, 0, 0, 4, 1, 2, 0, 16] + y)
  {
    var a := MixedFirst();
    assert EncodeName(a.name) == [0];
    var head, rest := [0, 0, 1, 0, 1], [0, 0x1C, 0, 0, 0, 4, 1, 2, 0, 16];
    assert Be16(1) == [0, 1] && Be32(0x001C_0000) == [0, 0x1C, 0, 0] && Be16(4) == [0, 4];
    assert EncodeFixed(a) == [0, 1, 0, 1, 0, 0x1C, 0, 0, 0, 4];
    assert EncodeRecord(a) == head + rest;
    Assoc(head, rest, y);
  }

  lemma MixedSecondName()
    ensures ValidRecord(MixedSecond()) && |EncodeName(MixedSecond().name)| == 5
  {
    var abc := [0x61, 0x62, 0x63];
    EncodedCons(abc, [], []);
    assert [abc] + [] == [abc];
  }

  /** Five octets in, the two records read as an AAAA record that nobody sent. */
  lemma MixedSecondRead(p: Octets, y: Octets)
    requires p == [0, 0, 1, 0, 1] + ([0, 0x1C, 0, 0, 0, 4, 1, 2, 0, 16] + y) && |y| >= 16
    ensures ReadFixed(p[5..], 5) == Ok(RecordView(TYPE_AAAA, y[..16], 31))
  {
    var h := p[5..];
    assert h == [0, 0x1C, 0, 0, 0, 4, 1, 2, 0, 16] + y;
    assert Read16(h, 0) == 28 && Read16(h, 8) == 16;
    assert h[10..26] == y[..16];
  }

  lemma SeenTwo(p: Octets, a: Record, next: nat, v: RecordView)
    requires ValidRecord(a) && Reads(AsWritten, p, 0, a, next)
    requires ReadRecord(AsWritten, p, next) == Ok(v) && FitsType(v.rtype, v.rdata)
    ensures Seen(AsWritten, p, 0, 2) == Sighting([PlainOf(a), Plain(v.rtype, v.rdata)], None)
  {
    assert Seen(AsWritten, p, v.next, 0) == Sighting([], None);
    assert Seen(AsWritten, p, next, 1) == Sighting([Plain(v.rtype, v.rdata)], None);
  }

  lemma MixedSeen(tail: Octets) returns (data: Ipv6)
    ensures ValidRecords([MixedFirst(), MixedSecond()])
    ensures Seen(AsWritten, EncodeRecords([MixedFirst(), MixedSecond()]) + tail, 0, 2) ==
              Sighting([PlainOf(MixedFirst()), Plain(TYPE_AAAA, data)], None)
  {
    var a, b := MixedFirst(), MixedSecond();
    MixedSecondName();
    MixedFirstOctets([]);
    var rs := [a, b];
    assert rs[1..] == [b] && [b][1..] == [];
    var p, y := EncodeRecords(rs) + tail, EncodeRecords([b]) + tail;
    RecordsSize([b]);
    assert RawOf([b]) == b.rdata + RawOf([]);
    Assoc(EncodeRecord(a), EncodeRecords([b]), tail);
    MixedFirstOctets(y);
    MixedSecondRead(p, y);
    SecondReadExact(rs, tail);
    ReadFirst(a, y);
    data := y[..16];
    SeenTwo(p, a, |EncodeRecord(a)|, RecordView(TYPE_AAAA, data, 31));
  }

  /**
   * Mixed families in the code as written: an A and an AAAA answer for which the parse succeeds and
   * the key is the address of neither.
   */
  lemma MixedFamiliesKey(fmt: Formatter, m: Message, tail: Octets, slot: DnsResponse) returns (a: Record, b: Record)
    requires ValidMessage(m) && Blank(slot)
    ensures ValidRecord(a) && ValidRecord(b) && a.rtype == TYPE_A && b.rtype == TYPE_AAAA
    ensures ValidMessage(m.(answers := [a, b]))
    ensures var out := ParsePayload(fmt, AsWritten, EncodeMessage(m.(answers := [a, b])) + tail, slot);
            var key := ChooseKey(out.slot);
            out.result.Ok? && key.Key? && key != Key(AddressOf(a)) && key != Key(AddressOf(b))
  {
    a, b := MixedFirst(), MixedSecond();
    var data := MixedSeen(tail);
    var seen := [PlainOf(a), Plain(TYPE_AAAA, data)];
    var sent := m.(answers := [a, b]);
    AsWrittenManyAnswers(fmt, sent, tail, slot);
    MixedKey(fmt, slot.(domainName := Join(m.qname)), a, data);
    assert AddressOf(a).family == AF_INET && AddressOf(b).bytes[0] == 0;
  }

  lemma MixedKey(fmt: Formatter, slot: DnsResponse, a: Record, data: Ipv6)
    requires slot.resolvedIpRaw == [] && ValidRecord(a) && a.rtype == TYPE_A
    ensures var key := ChooseKey(WithAnswers(fmt, slot, [PlainOf(a), Plain(TYPE_AAAA, data)]));
            key.Key? && key.addr.family == AF_INET6 && key.addr.bytes[0] == a.rdata[0]
  {
    var rs, second := [PlainOf(a), Plain(TYPE_AAAA, data)], [Plain(TYPE_AAAA, data)];
    assert rs[1..] == second && second[1..] == [];
    assert RawOf(second) == data + RawOf([]) && RawOf(rs) == a.rdata + RawOf(second);
    FamilyIsLast(rs, 1, slot.ipFamily);
    assert WithAnswers(fmt, slot, rs).resolvedIpRaw == RawOf(rs);
  }

  // ------------------------------------------- every address, or only the first one

  function Chunks(raw: Octets, n: nat): seq<Octets>
    requires n > 0
  {
    if |raw| < n then [] else [raw[..n]] + Chunks(raw[n..], n)
  }

  /** The keys docs/fqdn_policy_plan.md asks for: one per chunk of the raw bytes. */
  function IntendedKeys(resp: DnsResponse): set<RawIpAddr> {
    if resp.ipFamily == AF_INET then
      set c: Octets | c in Chunks(resp.resolvedIpRaw, 4) && |c| == 4 :: FromIpv4(c)
    else if resp.ipFamily == AF_INET6 then
      set c: Octets | c in Chunks(resp.resolvedIpRaw, 16) && |c| == 16 :: FromIpv6(c)
    else {}
  }

  function SizeOf(rtype: U16): nat {
    if rtype == TYPE_A then 4 else 16
  }

  lemma {:induction false} ChunksOfAddresses(found: seq<Record>, rtype: U16)
    requires rtype == TYPE_A || rtype == TYPE_AAAA
    requires ValidRecords(found) && OneType(found, rtype)
    ensures Chunks(RawOf(found), SizeOf(rtype)) == Data(found)
  {
    if found == [] {
    } else {
      var n, rest := SizeOf(rtype), found[1..];
      ChunksOfAddresses(rest, rtype);
      RawHead(found);
      assert RawOf(found)[..n] == found[0].rdata && RawOf(found)[n..] == RawOf(rest);
    }
  }

  /** Chunking undoes the concatenation when the address records are of one type, whatever stands between them. */
  lemma ChunksOfRaw(rs: seq<Record>, rtype: U16)
    requires rtype == TYPE_A || rtype == TYPE_AAAA
    requires ValidRecords(rs) && OneType(Addresses(rs), rtype)
    ensures Chunks(RawOf(rs), SizeOf(rtype)) == Data(Addresses(rs))
  {
    AddressesDecide(rs, 0);
    ChunksOfAddresses(Addresses(rs), rtype);
  }

  predicate AllValid(rs: seq<Record>) {
    forall i :: 0 <= i < |rs| ==> ValidRecord(rs[i])
  }

  /** `keys` is the set of the addresses `found`. */
  predicate KeysOf(keys: set<RawIpAddr>, found: seq<Record>)
    requires AllValid(found) && forall i :: 0 <= i < |found| ==> IsAddress(found[i])
  {
    && (forall i :: 0 <= i < |found| ==> AddressOf(found[i]) in keys)
    && (forall k | k in keys :: exists i :: 0 <= i < |found| && k == AddressOf(found[i]))
  }

  lemma AddressesValid(rs: seq<Record>)
    requires ValidRecords(rs)
    ensures AllValid(Addresses(rs))
  {
    AddressesDecide(rs, 0);
    forall i | 0 <= i < |Addresses(rs)| ensures ValidRecord(Addresses(rs)[i]) {
      ValidAt(Addresses(rs), i);
    }
  }

  /** When the address records are of one type, the documented key set is exactly the set of their addresses. */
  lemma IntendedKeysExact(fmt: Formatter, slot: DnsResponse, rs: seq<Record>, rtype: U16)
    requires rtype == TYPE_A || rtype == TYPE_AAAA
    requires ValidRecords(rs) && OneType(Addresses(rs), rtype) && slot.resolvedIpRaw == [] && slot.ipFamily == 0
    ensures AllValid(Addresses(rs)) && KeysOf(IntendedKeys(WithAnswers(fmt, slot, rs)), Addresses(rs))
  {
    var found, resp := Addresses(rs), WithAnswers(fmt, slot, rs);
    AddressesValid(rs);
    AddressesDecide(rs, 0);
    assert resp.resolvedIpRaw == RawOf(rs);
    if found != [] {
      FamilyIsLast(found, |found| - 1, 0);
      ChunksOfRaw(rs, rtype);
      DataAt(found);
      KeysMatchRecords(resp, found, rtype);
    }
  }

  lemma SingleKey(keys: set<RawIpAddr>, found: seq<Record>, rtype: U16)
    requires rtype == TYPE_A || rtype == TYPE_AAAA
    requires found != [] && AllValid(found) && OneType(found, rtype) && KeysOf(keys, found)
    ensures keys == {AddressOf(found[0])} <==> forall i :: 0 <= i < |found| ==> found[i].rdata == found[0].rdata
  {
    SameKeySameData(found, rtype);
    if forall i :: 0 <= i < |found| ==> found[i].rdata == found[0].rdata {
      forall k | k in keys ensures k == AddressOf(found[0]) {
      }
    }
  }

  /** The engine inserts the first address only: the whole documented set exactly when all addresses agree. */
  lemma FirstChunkOnly(fmt: Formatter, slot: DnsResponse, rs: seq<Record>, rtype: U16)
    requires rtype == TYPE_A || rtype == TYPE_AAAA
    requires ValidRecords(rs) && OneType(Addresses(rs), rtype) && slot.resolvedIpRaw == [] && slot.ipFamily == 0
    requires Addresses(rs) != []
    ensures AllValid(Addresses(rs))
    ensures var resp, found := WithAnswers(fmt, slot, rs), Addresses(rs);
            && ChooseKey(resp) == Key(AddressOf(found[0]))
            && (IntendedKeys(resp) == {AddressOf(found[0])} <==>
                  forall i :: 0 <= i < |found| ==> found[i].rdata == found[0].rdata)
  {
    KeyOfAnswers(fmt, slot, rs);
    IntendedKeysExact(fmt, slot, rs, rtype);
    SingleKey(IntendedKeys(WithAnswers(fmt, slot, rs)), Addresses(rs), rtype);
  }

  lemma KeysMatchRecords(resp: DnsResponse, found: seq<Record>, rtype: U16)
    requires rtype == TYPE_A || rtype == TYPE_AAAA
    requires OneType(found, rtype) && AllValid(found)
    requires resp.ipFamily == FamilyOfType(rtype)
    requires var cs := Chunks(resp.resolvedIpRaw, SizeOf(rtype));
             |cs| == |found| && forall i :: 0 <= i < |found| ==> cs[i] == found[i].rdata
    ensures KeysOf(IntendedKeys(resp), found)
  {
    var cs := Chunks(resp.resolvedIpRaw, SizeOf(rtype));
    forall i | 0 <= i < |found| ensures AddressOf(found[i]) in IntendedKeys(resp) {
      assert cs[i] in cs;
    }
  }

  lemma SameKeySameData(rs: seq<Record>, rtype: U16)
    requires rtype == TYPE_A || rtype == TYPE_AAAA
    requires rs != [] && OneType(rs, rtype) && AllValid(rs)
    ensures forall i :: 0 <= i < |rs| ==> (AddressOf(rs[i]) == AddressOf(rs[0]) <==> rs[i].rdata == rs[0].rdata)
  {
    forall i | 0 <= i < |rs|
      ensures AddressOf(rs[i]) == AddressOf(rs[0]) <==> rs[i].rdata == rs[0].rdata
    {
      if rtype == TYPE_A {
        assert FromIpv4(rs[i].rdata).bytes[..4] == rs[i].rdata && FromIpv4(rs[0].rdata).bytes[..4] == rs[0].rdata;
      }
    }
  }
}
