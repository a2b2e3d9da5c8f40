/**
 * The two name walkers of the parser: `parse_qname`, which collects dotted text, and
 * `skip_name`, which only finds the end of a name. Each is given as a function of the
 * octets still ahead; the theorems say that they accept exactly the names of module Wire.
 */
module Names {
  import opened Bytes
  import opened Wire
  import opened Common

  const COMPRESSION_MASK: bv8 := 0xC0

  /** The top two bits of an octet are set; `MaskIsRange` ties this to the masked comparison. */
  predicate HasPointerBits(b: Byte) {
    b >= 0xC0
  }

  lemma MaskIsRange(b: bv8)
    ensures b & COMPRESSION_MASK == COMPRESSION_MASK <==> HasPointerBits(b as Byte)
  {
    assert b & 0xC0 == 0xC0 <==> b >= 0xC0;
  }

  /** A length measured from `k` octets further on. */
  function Shift(k: nat, r: Result<nat>): Result<nat> {
    if r.Ok? then Ok(k + r.value) else r
  }

  // ------------------------------------------------------------ skip_name

  /** Length of the name at the front of `s`. */
  function SkipName(s: Octets): Result<nat> {
    if s == [] then Err(UnexpectedEndOfPayload)
    else
      var b := s[0];
      if HasPointerBits(b) then
        if |s| < 2 then Err(UnexpectedEndOfPayload) else Ok(2)
      else if b == 0 then Ok(1)
      else if b <= 63 then
        if 1 + b > |s| then Err(UnexpectedEndOfPayload) else Shift(1 + b, SkipName(s[1 + b..]))
      else Err(InvalidLabelLength(b))
  }

  method ComputeSkipName(payload: Octets) returns (r: Result<nat>)
    ensures r == SkipName(payload)
  {
    var offset := 0;
    while offset < |payload|
      invariant 0 <= offset <= |payload|
      invariant SkipName(payload) == Shift(offset, SkipName(payload[offset..]))
    {
      var b := payload[offset];
      if HasPointerBits(b) {
        if offset + 2 > |payload| {
          return Err(UnexpectedEndOfPayload);
        }
        return Ok(offset + 2);
      } else if b == 0 {
        return Ok(offset + 1);
      } else if b <= 63 {
        var next := offset + 1 + b;
        if next > |payload| {
          return Err(UnexpectedEndOfPayload);
        }
        assert payload[offset..][1 + b..] == payload[next..];
        offset := next;
      } else {
        return Err(InvalidLabelLength(b));
      }
    }
    return Err(UnexpectedEndOfPayload);
  }

  /** One iteration over a complete label. */
  lemma SkipStep(lab: Label, tail: Octets)
    requires ValidLabel(lab)
    ensures SkipName(LabelOctets(lab) + tail) == Shift(1 + |lab|, SkipName(tail))
  {
    assert (LabelOctets(lab) + tail)[1 + |lab|..] == tail;
  }

  /** `skip_name` gets past the first `k` octets and then does what `r` says. */
  predicate Skips(s: Octets, k: nat, r: Result<nat>) {
    SkipName(s) == Shift(k, r)
  }

  lemma SkipsStep(lab: Label, tail: Octets, k: nat, r: Result<nat>)
    requires ValidLabel(lab) && Skips(tail, k, r)
    ensures Skips(LabelOctets(lab) + tail, 1 + |lab| + k, r)
  {
    SkipStep(lab, tail);
  }

  lemma {:induction false} SkipsLabels(ls: seq<Label>, rest: Octets, r: Result<nat>)
    requires ValidLabels(ls) && Skips(rest, 0, r)
    ensures Skips(LabelsBefore(ls, rest), |EncodeLabels(ls)|, r)
  {
    if ls == [] {
    } else {
      SkipsLabels(ls[1..], rest, r);
      SkipsStep(ls[0], LabelsBefore(ls[1..], rest), |EncodeLabels(ls[1..])|, r);
    }
  }

  lemma SkipPrefix(ls: seq<Label>, rest: Octets)
    requires ValidLabels(ls)
    ensures Skips(EncodeLabels(ls) + rest, |EncodeLabels(ls)|, SkipName(rest))
  {
    SkipsLabels(ls, rest, SkipName(rest));
    LabelsBeforeIs(ls, rest);
  }

  /** Every way to fail, behind any labels already skipped; the two reserved bit patterns are rejected by value. */
  lemma SkipErrors(ls: seq<Label>, rest: Octets)
    requires ValidLabels(ls)
    ensures var r := SkipName(EncodeLabels(ls) + rest);
            && (rest == [] ==> r == Err(UnexpectedEndOfPayload))
            && (rest != [] && 64 <= rest[0] < 0xC0 ==> r == Err(InvalidLabelLength(rest[0])))
            && (|rest| == 1 && rest[0] >= 0xC0 ==> r == Err(UnexpectedEndOfPayload))
            && (rest != [] && 1 <= rest[0] <= 63 && |rest| < 1 + rest[0] ==> r == Err(UnexpectedEndOfPayload))
  {
    SkipPrefix(ls, rest);
  }

  /** An encoded name is skipped exactly, whatever follows it. */
  lemma SkipComplete(n: Name, rest: Octets)
    requires ValidName(n)
    ensures SkipName(EncodeName(n) + rest) == Ok(|EncodeName(n)|)
  {
    SkipPrefix(n.labels, EncodeEnd(n.end) + rest);
    Assoc(EncodeLabels(n.labels), EncodeEnd(n.end), rest);
  }

  /** Whatever is skipped was an encoded name; the name is the witness returned. */
  lemma {:induction false} SkipSound(s: Octets) returns (n: Name, rest: Octets)
    requires SkipName(s).Ok?
    ensures ValidName(n) && s == EncodeName(n) + rest
    ensures SkipName(s) == Ok(|EncodeName(n)|)
  {
    var b := s[0];
    if b >= 0xC0 {
      n, rest := Name([], Pointer(b, s[1])), s[2..];
      assert EncodeName(n) == [b, s[1]];
    } else if b == 0 {
      n, rest := Name([], Root), s[1..];
      assert EncodeName(n) == [0];
    } else {
      var more;
      more, rest := SkipSound(s[1 + b..]);
      n := SkipSoundCons(s, more, rest);
    }
  }

  lemma SkipSoundCons(s: Octets, more: Name, rest: Octets) returns (n: Name)
    requires ValidName(more) && s != [] && 1 <= s[0] <= 63 && 1 + s[0] <= |s|
    requires s[1 + s[0]..] == EncodeName(more) + rest
    ensures ValidName(n) && |EncodeName(n)| == 1 + s[0] + |EncodeName(more)| && s == EncodeName(n) + rest
  {
    var lab := s[1..1 + s[0]];
    n := Name([lab] + more.labels, more.end);
    EncodedCons(lab, more.labels, EncodeEnd(more.end));
    HeadAndTail(s);
    Assoc(LabelOctets(lab), EncodeName(more), rest);
  }

  /** Octets split at the end of their first label. */
  lemma HeadAndTail(s: Octets)
    requires s != [] && 1 <= s[0] <= 63 && 1 + s[0] <= |s|
    ensures s == LabelOctets(s[1..1 + s[0]]) + s[1 + s[0]..]
  {
    assert LabelOctets(s[1..1 + s[0]]) == s[..1 + s[0]];
  }

  /** `skip_name` accepts exactly the encoded names, and reports their length. */
  lemma SkipNameExact(s: Octets)
    ensures SkipName(s).Ok? <==> exists n, rest :: ValidName(n) && s == EncodeName(n) + rest
    ensures forall n, rest | ValidName(n) && s == EncodeName(n) + rest :: SkipName(s) == Ok(|EncodeName(n)|)
  {
    forall n, rest | ValidName(n) && s == EncodeName(n) + rest
      ensures SkipName(s) == Ok(|EncodeName(n)|)
    {
      SkipComplete(n, rest);
    }
    if SkipName(s).Ok? {
      var n, rest := SkipSound(s);
    }
  }

  /** The answer lies within the input and depends only on the octets that were consumed. */
  lemma SkipLocal(s: Octets, other: Octets)
    requires SkipName(s).Ok?
    ensures 1 <= SkipName(s).value <= |s|
    ensures SkipName(s[..SkipName(s).value] + other) == SkipName(s)
  {
    var n, rest := SkipSound(s);
    assert s[..|EncodeName(n)|] == EncodeName(n);
    SkipComplete(n, other);
  }

  // ---------------------------------------------------------- parse_qname

  /** Verdict, and the contents of the output string also after a failure. */
  datatype QName = QName(result: Result<nat>, out: Text)

  function Separated(out: Text): Text {
    if out != [] then out + [DOT] else out
  }

  function QNameFrom(s: Octets, total: nat, out: Text): QName {
    if s == [] then QName(Err(UnexpectedEndOfPayload), out)
    else
      var len := s[0];
      if len == 0 then QName(Ok(1), out)
      else if len > 63 then QName(Err(InvalidLabelLength(len)), out)
      else if 1 + len > |s| then QName(Err(UnexpectedEndOfPayload), out)
      else if total + len + 1 > 255 then QName(Err(LabelExceedsMaxLen), out)
      else if !Ascii(s[1..1 + len]) then QName(Err(NonAsciiDomainName), out)
      else
        var q := QNameFrom(s[1 + len..], total + len + 1, Separated(out) + s[1..1 + len]);
        QName(Shift(1 + len, q.result), q.out)
  }

  function ParseQName(s: Octets, out: Text): QName {
    QNameFrom(s, 0, out)
  }

  /** The walk from `offset` on, with lengths counted from the front of the payload. */
  function QNameRest(payload: Octets, offset: nat, total: nat, out: Text): QName
    requires offset <= |payload|
  {
    var q := QNameFrom(payload[offset..], total, out);
    QName(Shift(offset, q.result), q.out)
  }

  /** What one iteration finds: the root, a reason to fail, or a label and where the next one starts. */
  datatype LabelRead = AtRoot | Bad(error: ParseError) | Got(octets: Octets, next: nat)

  function ReadLabel(payload: Octets, offset: nat, total: nat): LabelRead
    requires offset < |payload|
  {
    var len := payload[offset];
    var end := offset + 1 + len;
    if len == 0 then AtRoot
    else if len > 63 then Bad(InvalidLabelLength(len))
    else if end > |payload| then Bad(UnexpectedEndOfPayload)
    else if total + len + 1 > 255 then Bad(LabelExceedsMaxLen)
    else if !Ascii(payload[offset + 1..end]) then Bad(NonAsciiDomainName)
    else Got(payload[offset + 1..end], end)
  }

  /** A label at the front of the octets from `offset` on, in terms of the payload. */
  lemma LabelAt(payload: Octets, offset: nat, len: nat)
    requires offset + 1 + len <= |payload|
    ensures payload[offset..][1..1 + len] == payload[offset + 1..offset + 1 + len]
    ensures payload[offset..][1 + len..] == payload[offset + 1 + len..]
  {
  }

  lemma QNameRestStep(payload: Octets, offset: nat, total: nat, out: Text)
    requires offset < |payload|
    ensures QNameRest(payload, offset, total, out) ==
              match ReadLabel(payload, offset, total)
              case AtRoot => QName(Ok(offset + 1), out)
              case Bad(e) => QName(Err(e), out)
              case Got(octets, next) => QNameRest(payload, next, total + |octets| + 1, Separated(out) + octets)
  {
    var len := payload[offset];
    if len <= 63 && offset + 1 + len <= |payload| {
      LabelAt(payload, offset, len);
    }
  }

  /** Dotted text appended to what the string already held. */
  function Extend(out: Text, ls: seq<Label>): Text {
    if ls == [] then out else Separated(out) + Join(ls)
  }

  lemma ExtendStep(out: Text, ls: seq<Label>)
    requires ls != [] && ValidLabels(ls)
    ensures Extend(Separated(out) + ls[0], ls[1..]) == Extend(out, ls)
  {
    if |ls| > 1 {
      assert Separated(out) + ls[0] + [DOT] + Join(ls[1..]) == Separated(out) + (ls[0] + [DOT] + Join(ls[1..]));
    }
  }

  /** One iteration over a complete, acceptable label. */
  lemma QNameStep(lab: Label, tail: Octets, total: nat, out: Text)
    requires ValidLabel(lab) && total + |lab| + 1 <= 255 && Ascii(lab)
    ensures var q := QNameFrom(tail, total + |lab| + 1, Separated(out) + lab);
            QNameFrom(LabelOctets(lab) + tail, total, out) == QName(Shift(1 + |lab|, q.result), q.out)
  {
    var s := LabelOctets(lab) + tail;
    assert s[1..1 + |lab|] == lab && s[1 + |lab|..] == tail;
  }

  /** The walk over `s` gets past its first `k` octets and then does what `q` says. */
  predicate Walks(s: Octets, total: nat, out: Text, k: nat, q: QName) {
    QNameFrom(s, total, out) == QName(Shift(k, q.result), q.out)
  }

  lemma WalksStep(lab: Label, tail: Octets, total: nat, out: Text, k: nat, q: QName)
    requires ValidLabel(lab) && total + |lab| + 1 <= 255 && Ascii(lab)
    requires Walks(tail, total + |lab| + 1, Separated(out) + lab, k, q)
    ensures Walks(LabelOctets(lab) + tail, total, out, 1 + |lab| + k, q)
  {
    QNameStep(lab, tail, total, out);
  }

  /** Reading the labels one by one takes the text from `out` to `final`, and the count from `total` to `after`. */
  predicate Spells(ls: seq<Label>, total: nat, out: Text, after: nat, final: Text) {
    if ls == [] then after == total && final == out
    else
      && ValidLabel(ls[0]) && Ascii(ls[0]) && total + |ls[0]| + 1 <= 255
      && Spells(ls[1..], total + |ls[0]| + 1, Separated(out) + ls[0], after, final)
  }

  lemma {:induction false} LabelsSpell(ls: seq<Label>, total: nat, out: Text)
    requires ValidLabels(ls) && AsciiLabels(ls) && total + |EncodeLabels(ls)| <= 255
    ensures Spells(ls, total, out, total + |EncodeLabels(ls)|, Extend(out, ls))
    decreases |ls|
  {
    if ls == [] {
    } else {
      ExtendStep(out, ls);
      LabelsSpell(ls[1..], total + |ls[0]| + 1, Separated(out) + ls[0]);
    }
  }

  lemma {:induction false} WalksLabels(ls: seq<Label>, rest: Octets, total: nat, out: Text, after: nat, final: Text, q: QName)
    requires ValidLabels(ls) && Spells(ls, total, out, after, final) && Walks(rest, after, final, 0, q)
    ensures after >= total && Walks(LabelsBefore(ls, rest), total, out, after - total, q)
    decreases |ls|
  {
    if ls == [] {
    } else {
      WalksLabels(ls[1..], rest, total + |ls[0]| + 1, Separated(out) + ls[0], after, final, q);
      WalksStep(ls[0], LabelsBefore(ls[1..], rest), total, out, after - (total + |ls[0]| + 1), q);
    }
  }

  lemma WalksEncoded(ls: seq<Label>, rest: Octets, total: nat, out: Text, after: nat, final: Text, q: QName)
    requires ValidLabels(ls) && Spells(ls, total, out, after, final) && Walks(rest, after, final, 0, q)
    ensures after >= total && Walks(EncodeLabels(ls) + rest, total, out, after - total, q)
  {
    LabelsBeforeIs(ls, rest);
    WalksLabels(ls, rest, total, out, after, final, q);
  }

  /** The walk over the labels in front only collects their text; what follows decides. */
  lemma QNamePrefix(ls: seq<Label>, rest: Octets, out: Text, n: nat, final: Text, q: QName)
    requires ValidQName(ls) && n == |EncodeLabels(ls)| && final == Extend(out, ls)
    requires Walks(rest, n, final, 0, q)
    ensures Walks(EncodeLabels(ls) + rest, 0, out, n, q)
  {
    LabelsSpell(ls, 0, out);
    WalksEncoded(ls, rest, 0, out, n, final, q);
  }

  /**
   * Every way to fail, behind any labels already read: the error names the reason, and the string
   * keeps the labels read so far.
   */
  lemma QNameErrors(ls: seq<Label>, rest: Octets, out: Text)
    requires ValidQName(ls)
    ensures var q, n := ParseQName(EncodeLabels(ls) + rest, out), |EncodeLabels(ls)|;
            && (rest == [] ==> q == QName(Err(UnexpectedEndOfPayload), Extend(out, ls)))
            && (rest != [] && rest[0] > 63 ==> q == QName(Err(InvalidLabelLength(rest[0])), Extend(out, ls)))
            && (rest != [] && 1 <= rest[0] <= 63 ==>
                  if 1 + rest[0] > |rest| then q == QName(Err(UnexpectedEndOfPayload), Extend(out, ls))
                  else if n + rest[0] + 1 > 255 then q == QName(Err(LabelExceedsMaxLen), Extend(out, ls))
                  else !Ascii(rest[1..1 + rest[0]]) ==> q == QName(Err(NonAsciiDomainName), Extend(out, ls)))
  {
    var n, final := |EncodeLabels(ls)|, Extend(out, ls);
    QNamePrefix(ls, rest, out, n, final, QNameFrom(rest, n, final));
  }

  predicate QNameOk(s: Octets, total: nat, out: Text) {
    QNameFrom(s, total, out).result.Ok?
  }

  /** The labels, a root octet and `rest` make up `s`. */
  predicate LabelsStand(s: Octets, ls: seq<Label>, rest: Octets) {
    ValidLabels(ls) && AsciiLabels(ls) && s == EncodeLabels(ls) + ([0] + rest)
  }

  lemma QNameOkStep(s: Octets, total: nat, out: Text)
    requires QNameOk(s, total, out) && s[0] != 0
    ensures 1 <= s[0] <= 63 && 1 + s[0] <= |s| && Ascii(s[1..1 + s[0]]) && total + s[0] + 1 <= 255
    ensures QNameOk(s[1 + s[0]..], total + s[0] + 1, Separated(out) + s[1..1 + s[0]])
  {
  }

  lemma {:induction false} QNameSound(s: Octets, total: nat, out: Text) returns (ls: seq<Label>, rest: Octets)
    requires QNameOk(s, total, out)
    ensures LabelsStand(s, ls, rest) && (ls == [] || total + |EncodeLabels(ls)| <= 255)
  {
    if s[0] == 0 {
      ls, rest := [], s[1..];
      RootOnly(s);
    } else {
      QNameOkStep(s, total, out);
      var more;
      more, rest := QNameSound(s[1 + s[0]..], total + s[0] + 1, Separated(out) + s[1..1 + s[0]]);
      ls := QNameSoundCons(s, more, rest);
    }
  }

  lemma RootOnly(s: Octets)
    requires s != [] && s[0] == 0
    ensures LabelsStand(s, [], s[1..])
  {
    assert s == [] + ([0] + s[1..]);
  }

  lemma QNameSoundCons(s: Octets, more: seq<Label>, rest: Octets) returns (ls: seq<Label>)
    requires s != [] && 1 <= s[0] <= 63 && 1 + s[0] <= |s| && Ascii(s[1..1 + s[0]])
    requires LabelsStand(s[1 + s[0]..], more, rest)
    ensures ls != [] && LabelsStand(s, ls, rest) && |EncodeLabels(ls)| == 1 + s[0] + |EncodeLabels(more)|
  {
    var lab := s[1..1 + s[0]];
    ls := [lab] + more;
    EncodedCons(lab, more, [0] + rest);
    HeadAndTail(s);
  }

  /** The octets of a question name: labels, then the root. */
  function EncodeQName(ls: seq<Label>): Octets
    requires ValidLabels(ls)
  {
    EncodeName(Name(ls, Root))
  }

  /** Parsing an encoded name followed by anything consumes exactly the encoding and yields its dotted text. */
  lemma QNameRoundTrip(ls: seq<Label>, suffix: Octets, out: Text)
    requires ValidQName(ls)
    ensures ParseQName(EncodeQName(ls) + suffix, out) == QName(Ok(|EncodeQName(ls)|), Extend(out, ls))
    ensures Extend([], ls) == Join(ls)
  {
    QNamePrefix(ls, [0] + suffix, out, |EncodeLabels(ls)|, Extend(out, ls), QName(Ok(1), Extend(out, ls)));
    Assoc(EncodeLabels(ls), [0], suffix);
  }

  lemma QNameWitness(s: Octets) returns (ls: seq<Label>, rest: Octets)
    requires ParseQName(s, []).result.Ok?
    ensures ValidQName(ls) && s == EncodeQName(ls) + rest
    ensures ParseQName(s, []) == QName(Ok(|EncodeQName(ls)|), Join(ls))
  {
    ls, rest := QNameSound(s, 0, []);
    Assoc(EncodeLabels(ls), [0], rest);
    QNameRoundTrip(ls, rest, []);
  }

  /**
   * `parse_qname` succeeds exactly on encoded names within its limits. Consumed length and
   * text length are tied together, and the bound on wire octets is 256, one more than
   * section 2.3.4 of RFC 1035 allows.
   */
  lemma QNameExact(s: Octets)
    ensures ParseQName(s, []).result.Ok? <==> exists ls, rest :: ValidQName(ls) && s == EncodeQName(ls) + rest
    ensures forall ls, rest | ValidQName(ls) && s == EncodeQName(ls) + rest ::
              ParseQName(s, []) == QName(Ok(|EncodeQName(ls)|), Join(ls))
    ensures var q := ParseQName(s, []);
            q.result.Ok? ==> q.result.value <= 256 && |q.out| <= 254 && (q.out != [] ==> q.result.value == |q.out| + 2)
  {
    forall ls, rest | ValidQName(ls) && s == EncodeQName(ls) + rest
      ensures ParseQName(s, []) == QName(Ok(|EncodeQName(ls)|), Join(ls))
    {
      QNameRoundTrip(ls, rest, []);
    }
    if ParseQName(s, []).result.Ok? {
      var ls, rest := QNameWitness(s);
      JoinLength(ls);
    }
  }

  /** The length bound is one octet looser than the standard: this name takes 256 wire octets and is accepted. */
  lemma LongestNameAccepted() returns (ls: seq<Label>)
    ensures ValidQName(ls) && |EncodeQName(ls)| == 256
    ensures ParseQName(EncodeQName(ls), []).result == Ok(256)
  {
    var l := seq(63, _ => 0x61);
    var last := seq(62, _ => 0x61);
    EncodedCons(last, [], []);
    EncodedCons(l, [last], []);
    EncodedCons(l, [l] + [last], []);
    EncodedCons(l, [l] + ([l] + [last]), []);
    ls := [l] + ([l] + ([l] + [last]));
    assert Ascii(l) && Ascii(last);
    assert ls[1..] == [l] + ([l] + [last]) && ls[1..][1..] == [l] + [last] && ls[1..][1..][1..] == [last];
    assert [last] + [] == [last];
    QNameRoundTrip(ls, [], []);
    assert EncodeQName(ls) + [] == EncodeQName(ls);
  }

  /** The wire fixes the name: what stands at the front of the octets is one name only. */
  lemma {:induction false} NameUnique(a: Name, x: Octets, b: Name, y: Octets)
    requires ValidName(a) && ValidName(b) && EncodeName(a) + x == EncodeName(b) + y
    ensures a == b && x == y
    decreases |a.labels|
  {
    NameHead(a, x);
    NameHead(b, y);
    if a.labels != [] && b.labels != [] {
      var lab := a.labels[0];
      NameUnique(Name(a.labels[1..], a.end), x, Name(b.labels[1..], b.end), y);
      assert a.labels == [lab] + a.labels[1..] && b.labels == [lab] + b.labels[1..];
    }
  }

  lemma NameHead(n: Name, x: Octets)
    requires ValidName(n)
    ensures var s := EncodeName(n) + x;
            if n.labels == [] then
              if n.end.Root? then s[0] == 0 && s[1..] == x
              else |s| >= 2 && s[0] >= 0xC0 && n.end == Pointer(s[0], s[1]) && s[2..] == x
            else
              && 1 <= s[0] <= 63 && 1 + s[0] <= |s| && n.labels[0] == s[1..1 + s[0]]
              && s[1 + s[0]..] == EncodeName(Name(n.labels[1..], n.end)) + x
  {
    var s := EncodeName(n) + x;
    if n.labels != [] {
      var lab, more := n.labels[0], Name(n.labels[1..], n.end);
      EncodedHead(n.labels, EncodeEnd(n.end));
      Assoc(LabelOctets(lab), EncodeName(more), x);
      assert s[1..1 + |lab|] == lab;
    } else {
      assert s == EncodeEnd(n.end) + x;
    }
  }

  /**
   * The walkers agree: success of `parse_qname` is success of `skip_name` at the same octet,
   * and a skipped name parses exactly when it used no pointer and met the ASCII and length limits.
   */
  lemma WalkersAgree(s: Octets)
    ensures ParseQName(s, []).result.Ok? ==> SkipName(s) == ParseQName(s, []).result
    ensures forall n, rest | ValidName(n) && s == EncodeName(n) + rest ::
              (ParseQName(s, []).result.Ok? <==> n.end.Root? && ValidQName(n.labels))
  {
    if ParseQName(s, []).result.Ok? {
      var ls, x := QNameWitness(s);
      SkipComplete(Name(ls, Root), x);
      forall n, rest | ValidName(n) && s == EncodeName(n) + rest
        ensures n.end.Root? && ValidQName(n.labels)
      {
        NameUnique(n, rest, Name(ls, Root), x);
      }
    } else {
      forall n, rest | ValidName(n) && s == EncodeName(n) + rest
        ensures !(n.end.Root? && ValidQName(n.labels))
      {
        if n.end.Root? && ValidQName(n.labels) { QNameRoundTrip(n.labels, rest, []); }
      }
    }
  }

  // ---------------------------------------------------- stability on extension

  lemma {:induction false} SkipStable(s: Octets, t: Octets)
    ensures !Truncated(SkipName(s)) ==> SkipName(s + t) == SkipName(s)
  {
    if s == [] {
    } else {
      var b := s[0];
      assert (s + t)[0] == b;
      if 0 < b <= 63 && 1 + b <= |s| {
        SkipStable(s[1 + b..], t);
        DropAppend(s, t, 1 + b);
      }
    }
  }

  lemma {:induction false} QNameStable(s: Octets, t: Octets, total: nat, out: Text)
    ensures !Truncated(QNameFrom(s, total, out).result) ==> QNameFrom(s + t, total, out) == QNameFrom(s, total, out)
  {
    if s == [] {
    } else {
      var len := s[0];
      assert (s + t)[0] == len;
      if 0 < len <= 63 && 1 + len <= |s| {
        QNameStable(s[1 + len..], t, total + len + 1, Separated(out) + s[1..1 + len]);
        DropAppend(s, t, 1 + len);
        assert (s + t)[1..1 + len] == s[1..1 + len];
      }
    }
  }

  // ------------------------------------------------------------ injectivity

  predicate DotFree(l: Octets) {
    DOT !in l
  }

  predicate DotFreeLabels(ls: seq<Label>) {
    forall i :: 0 <= i < |ls| ==> DotFree(ls[i])
  }

  /** Ordinary splitting at dots; never empty. */
  function Pieces(t: Text): (r: seq<Octets>)
    ensures |r| >= 1
  {
    if t == [] then [[]]
    else
      var rest := Pieces(t[1..]);
      if t[0] == DOT then [[]] + rest else [[t[0]] + rest[0]] + rest[1..]
  }

  function Split(t: Text): seq<Label> {
    if t == [] then [] else Pieces(t)
  }

  lemma {:induction false} PiecesDotFree(t: Text)
    ensures DotFreeLabels(Pieces(t))
  {
    if t == [] {
    } else {
      PiecesDotFree(t[1..]);
    }
  }

  lemma {:induction false} PiecesOfLabel(l: Octets, rest: Text)
    requires DotFree(l)
    ensures Pieces(l) == [l]
    ensures Pieces(l + [DOT] + rest) == [l] + Pieces(rest)
  {
    if l == [] {
      assert l + [DOT] + rest == [DOT] + rest;
      assert ([DOT] + rest)[1..] == rest;
    } else {
      PiecesOfLabel(l[1..], rest);
      assert (l + [DOT] + rest)[1..] == l[1..] + [DOT] + rest;
      assert [l[0]] + l[1..] == l;
    }
  }

  lemma {:induction false} PiecesOfJoin(ls: seq<Label>)
    requires ls != [] && DotFreeLabels(ls)
    ensures Pieces(Join(ls)) == ls
  {
    if |ls| == 1 {
      PiecesOfLabel(ls[0], []);
    } else {
      PiecesOfLabel(ls[0], Join(ls[1..]));
      PiecesOfJoin(ls[1..]);
      assert ls == [ls[0]] + ls[1..];
    }
  }

  /** Splitting the text gives the labels back exactly when no label holds a dot. */
  lemma SplitJoin(ls: seq<Label>)
    requires ValidLabels(ls)
    ensures Split(Join(ls)) == ls <==> DotFreeLabels(ls)
  {
    JoinLength(ls);
    if DotFreeLabels(ls) && ls != [] {
      PiecesOfJoin(ls);
    }
    PiecesDotFree(Join(ls));
  }

  /** Distinct dot-free wire names give distinct domain names. */
  lemma DomainNamesInjective(a: seq<Label>, x: Octets, b: seq<Label>, y: Octets)
    requires ValidQName(a) && DotFreeLabels(a) && ValidQName(b) && DotFreeLabels(b)
    requires ParseQName(EncodeQName(a) + x, []).out == ParseQName(EncodeQName(b) + y, []).out
    ensures a == b
  {
    QNameRoundTrip(a, x, []);
    QNameRoundTrip(b, y, []);
    SplitJoin(a);
    SplitJoin(b);
  }

  /** Without that condition the text is ambiguous: one label "a.b" and two labels "a", "b". */
  lemma DotsCollide()
    ensures ValidQName([[0x61, DOT, 0x62]]) && ValidQName([[0x61], [0x62]])
    ensures Join([[0x61, DOT, 0x62]]) == Join([[0x61], [0x62]])
  {
    EncodedCons([0x62], [], []);
    assert [[0x62]] + [] == [[0x62]];
    EncodedCons([0x61], [[0x62]], []);
    assert [[0x61]] + [[0x62]] == [[0x61], [0x62]];
    EncodedCons([0x61, DOT, 0x62], [], []);
    assert [[0x61, DOT, 0x62]] + [] == [[0x61, DOT, 0x62]];
    assert [[0x61], [0x62]][1..] == [[0x62]];
  }
}
