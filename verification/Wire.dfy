/**
 * The abstract DNS message and its wire encoding: names with compression pointers
 * (sections 3.1 and 4.1.4 of RFC 1035), resource records (section 4.1.3), and a
 * header, one question and an answer section (sections 4.1.1 and 4.1.2).
 * Nothing here looks at the parser; this is the reference it is measured against.
 */
module Wire {
  import opened Bytes
  import opened Common

  const MAX_LABEL: nat := 63
  const TYPE_A: U16 := 1
  const TYPE_AAAA: U16 := 28

  // ---------------------------------------------------------------- names

  type Label = Octets

  predicate ValidLabel(l: Label) {
    1 <= |l| <= MAX_LABEL
  }

  predicate ValidLabels(ls: seq<Label>) {
    ls == [] || (ValidLabel(ls[0]) && ValidLabels(ls[1..]))
  }

  predicate Ascii(l: Octets) {
    forall i :: 0 <= i < |l| ==> l[i] < 0x80
  }

  predicate AsciiLabels(ls: seq<Label>) {
    ls == [] || (Ascii(ls[0]) && AsciiLabels(ls[1..]))
  }

  /** A label on the wire: its length, then its octets. */
  function LabelOctets(l: Label): (r: Octets)
    requires ValidLabel(l)
    ensures |r| == 1 + |l| && r[0] == |l| && r[1..] == l
  {
    [|l|] + l
  }

  function EncodeLabels(ls: seq<Label>): Octets
    requires ValidLabels(ls)
  {
    if ls == [] then [] else LabelOctets(ls[0]) + EncodeLabels(ls[1..])
  }

  /** A name ends in the root octet or in a two-octet pointer. */
  datatype NameEnd = Root | Pointer(hi: Byte, lo: Byte)

  datatype Name = Name(labels: seq<Label>, end: NameEnd)

  predicate ValidName(n: Name) {
    ValidLabels(n.labels) && (n.end.Pointer? ==> n.end.hi >= 0xC0)
  }

  function EncodeEnd(e: NameEnd): Octets {
    match e
    case Root => [0]
    case Pointer(hi, lo) => [hi, lo]
  }

  function EncodeName(n: Name): Octets
    requires ValidName(n)
  {
    EncodeLabels(n.labels) + EncodeEnd(n.end)
  }

  /** Dotted text of a label list. */
  function Join(ls: seq<Label>): Text {
    if ls == [] then []
    else if |ls| == 1 then ls[0]
    else ls[0] + [DOT] + Join(ls[1..])
  }

  // -------------------------------------------------------------- records

  datatype Record = Record(name: Name, rtype: U16, rclass: U16, ttl: U32, rdata: Octets)

  predicate IsAddress(r: Record) {
    r.rtype == TYPE_A || r.rtype == TYPE_AAAA
  }

  /** RDLENGTH is 4 for A (section 3.4.1 of RFC 1035) and 16 for AAAA (section 2.2 of RFC 3596). */
  predicate ValidRecord(r: Record) {
    && ValidName(r.name)
    && |r.rdata| < 0x1_0000
    && (r.rtype == TYPE_A ==> |r.rdata| == 4)
    && (r.rtype == TYPE_AAAA ==> |r.rdata| == 16)
  }

  predicate ValidRecords(rs: seq<Record>) {
    rs == [] || (ValidRecord(rs[0]) && ValidRecords(rs[1..]))
  }

  function EncodeFixed(r: Record): Octets
    requires |r.rdata| < 0x1_0000
  {
    Be16(r.rtype) + (Be16(r.rclass) + (Be32(r.ttl) + Be16(|r.rdata|)))
  }

  function EncodeRecord(r: Record): Octets
    requires ValidRecord(r)
  {
    EncodeName(r.name) + (EncodeFixed(r) + r.rdata)
  }

  function EncodeRecords(rs: seq<Record>): Octets
    requires ValidRecords(rs)
  {
    if rs == [] then [] else EncodeRecord(rs[0]) + EncodeRecords(rs[1..])
  }

  /** In-order concatenation of all A and AAAA data. */
  function RawOf(rs: seq<Record>): Octets {
    if rs == [] then []
    else (if IsAddress(rs[0]) then rs[0].rdata else []) + RawOf(rs[1..])
  }

  /** The address records, in order. */
  function Addresses(rs: seq<Record>): (found: seq<Record>)
    ensures forall i :: 0 <= i < |found| ==> IsAddress(found[i])
  {
    if rs == [] then [] else (if IsAddress(rs[0]) then [rs[0]] else []) + Addresses(rs[1..])
  }

  function FamilyOfType(rtype: U16): nat {
    if rtype == TYPE_A then AF_INET else AF_INET6
  }

  /** Family of the last address record, or `otherwise` when there is none. */
  function FamilyOf(rs: seq<Record>, otherwise: nat): nat {
    if rs == [] then otherwise
    else FamilyOf(rs[1..], if IsAddress(rs[0]) then FamilyOfType(rs[0].rtype) else otherwise)
  }

  // ------------------------------------------------------------- messages

  datatype Message = Message(
    id: U16, flags: U16, qdcount: U16, nscount: U16, arcount: U16,
    qname: seq<Label>, qtype: U16, qclass: U16, answers: seq<Record>)

  /** The name bound is the parser's: label octets plus length octets, root not counted. */
  predicate ValidQName(ls: seq<Label>) {
    ValidLabels(ls) && AsciiLabels(ls) && |EncodeLabels(ls)| <= 255
  }

  predicate ValidMessage(m: Message) {
    ValidQName(m.qname) && ValidRecords(m.answers) && |m.answers| < 0x1_0000
  }

  function EncodeHeader(m: Message): Octets
    requires |m.answers| < 0x1_0000
  {
    Be16(m.id) + Be16(m.flags) + Be16(m.qdcount) + Be16(|m.answers|) + Be16(m.nscount) + Be16(m.arcount)
  }

  function EncodeQuestion(m: Message): Octets
    requires ValidQName(m.qname)
  {
    (EncodeLabels(m.qname) + [0]) + (Be16(m.qtype) + Be16(m.qclass))
  }

  function EncodeMessage(m: Message): Octets
    requires ValidMessage(m)
  {
    EncodeHeader(m) + (EncodeQuestion(m) + EncodeRecords(m.answers))
  }

  // ------------------------------------------------- facts about the encoding

  /** Raw bytes and family are those of the address records alone. */
  lemma {:induction false} AddressesDecide(rs: seq<Record>, otherwise: nat)
    requires ValidRecords(rs)
    ensures ValidRecords(Addresses(rs))
    ensures RawOf(Addresses(rs)) == RawOf(rs) && FamilyOf(Addresses(rs), otherwise) == FamilyOf(rs, otherwise)
    ensures Addresses(rs) == [] ==> RawOf(rs) == [] && FamilyOf(rs, otherwise) == otherwise
  {
    if rs == [] {
    } else {
      AddressesDecide(rs[1..], if IsAddress(rs[0]) then FamilyOfType(rs[0].rtype) else otherwise);
      if IsAddress(rs[0]) {
        assert Addresses(rs)[0] == rs[0] && Addresses(rs)[1..] == Addresses(rs[1..]);
      } else {
        assert Addresses(rs) == Addresses(rs[1..]) && RawOf(rs) == RawOf(rs[1..]);
      }
    }
  }

  /** `FamilyOf` is what its name says: the last address record decides, whatever follows it. */
  lemma {:induction false} FamilyIsLast(rs: seq<Record>, k: nat, otherwise: nat)
    requires k < |rs| && IsAddress(rs[k])
    requires forall i :: k < i < |rs| ==> !IsAddress(rs[i])
    ensures FamilyOf(rs, otherwise) == FamilyOfType(rs[k].rtype)
  {
    var next := if IsAddress(rs[0]) then FamilyOfType(rs[0].rtype) else otherwise;
    if k == 0 {
      NoFamily(rs[1..], next);
    } else {
      FamilyIsLast(rs[1..], k - 1, next);
    }
  }

  lemma {:induction false} NoFamily(rs: seq<Record>, otherwise: nat)
    requires forall i :: 0 <= i < |rs| ==> !IsAddress(rs[i])
    ensures FamilyOf(rs, otherwise) == otherwise && RawOf(rs) == []
  {
    if rs == [] {
    } else {
      NoFamily(rs[1..], otherwise);
    }
  }

  /** Each record takes at least eleven octets besides its data. */
  lemma {:induction false} RecordsSize(rs: seq<Record>)
    requires ValidRecords(rs)
    ensures 11 * |rs| + |RawOf(rs)| <= |EncodeRecords(rs)|
  {
    if rs == [] {
    } else {
      RecordsSize(rs[1..]);
    }
  }

  /** Text and wire lengths of a name: one octet per dot or length octet. */
  lemma {:induction false} JoinLength(ls: seq<Label>)
    requires ValidLabels(ls)
    ensures ls == [] ==> |Join(ls)| == 0
    ensures ls != [] ==> |Join(ls)| + 1 == |EncodeLabels(ls)|
  {
    if |ls| == 1 {
      assert ls[1..] == [];
    } else if ls != [] {
      JoinLength(ls[1..]);
    }
  }

  lemma EncodedRecordCons(r: Record, rs: seq<Record>, tail: Octets)
    requires ValidRecord(r) && ValidRecords(rs)
    ensures ValidRecords([r] + rs)
    ensures EncodeRecords([r] + rs) + tail == EncodeRecord(r) + (EncodeRecords(rs) + tail)
  {
    assert ([r] + rs)[1..] == rs;
    Assoc(EncodeRecord(r), EncodeRecords(rs), tail);
  }

  /** The first label of an encoded list, spelled out; everything behind it is `tail`. */
  lemma EncodedHead(ls: seq<Label>, tail: Octets)
    requires ls != [] && ValidLabels(ls)
    ensures EncodeLabels(ls) + tail == LabelOctets(ls[0]) + (EncodeLabels(ls[1..]) + tail)
  {
    Assoc(LabelOctets(ls[0]), EncodeLabels(ls[1..]), tail);
  }

  /** Encoded labels in front of `rest`, label by label. */
  function LabelsBefore(ls: seq<Label>, rest: Octets): Octets
    requires ValidLabels(ls)
  {
    if ls == [] then rest else LabelOctets(ls[0]) + LabelsBefore(ls[1..], rest)
  }

  lemma {:induction false} LabelsBeforeIs(ls: seq<Label>, rest: Octets)
    requires ValidLabels(ls)
    ensures LabelsBefore(ls, rest) == EncodeLabels(ls) + rest
  {
    if ls == [] {
    } else {
      LabelsBeforeIs(ls[1..], rest);
      EncodedHead(ls, rest);
    }
  }

  lemma EncodedCons(lab: Label, ls: seq<Label>, tail: Octets)
    requires ValidLabel(lab) && ValidLabels(ls)
    ensures ValidLabels([lab] + ls)
    ensures AsciiLabels([lab] + ls) <==> Ascii(lab) && AsciiLabels(ls)
    ensures EncodeLabels([lab] + ls) + tail == LabelOctets(lab) + (EncodeLabels(ls) + tail)
    ensures |EncodeLabels([lab] + ls)| == 1 + |lab| + |EncodeLabels(ls)|
  {
    assert ([lab] + ls)[1..] == ls;
    EncodedHead([lab] + ls, tail);
  }
}
