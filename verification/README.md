# A verified model of the DNS observation pipeline

The program watches DNS responses on a network interface. A classifier in the kernel picks UDP
frames from port 53 and copies up to 512 payload octets of each into a ring-buffer event. In user
space a reader moves events into a first queue, a parser turns each event into a `DnsResponse`,
shows it to the FQDN policy engine and passes it on through a second queue, and a writer appends
it to a length-delimited log. Both queues drop when full.

This project models every stage and proves what holds across them, for every input and for every
interleaving of the tasks.

| module | what it holds |
|---|---|
| `Bytes`, `Common` | octets, big-endian integers, the structures both sides share |
| `Wire` | the abstract message and its encoding (sections 3.1 and 4.1 of RFC 1035, section 2.2 of RFC 3596); it knows nothing of the parser |
| `Names` | `skip_name` and `parse_qname` against the encoding of names |
| `Answers` | the answer walk, with the cursor as it is written and as it is meant |
| `Sightings` | what the code as written sees of an answer section, and exactly when that is what was sent |
| `Parser`, `ParserSlot` | `parse_dns_into` as a function of the event, and as it runs on one reused, mutable slot |
| `Classifier` | the kernel side, against frames built per RFC 791, RFC 8200 and RFC 768 |
| `Policy` | key selection and the bounded map of allowed addresses |
| `CommitLog` | the log's frames and a reader of the documented format |
| `Topology`, `Subsequences` | the three tasks and two queues as a step system |
| `TopologyInvariants`, `Guarantees` | what each step keeps, and what therefore holds after every run |
| `Losses` | when an item is dropped, refused or failed, and why nothing else is lost |
| `Delivery` | what is on its way arrives: schedules that bring everything to the log |
| `NonInterference` | two runs that differ in old memory only |
| `Pipeline` | every action of every task on real buffers, and a driver that carries out any run |
| `EndToEnd` | frame to response to policy, composed |

`dafny verify dfyconfig.toml` checks the whole project.

## Where the code parts from its intent

The model follows the code. Each difference below is a theorem rather than a correction. (A comment in
`cilium-mini-ebpf/src/main.rs` gives the event 568 bytes; the structure in `cilium-mini-common/src/lib.rs`
has 576, which is what the reader compares with and what the model uses.)

- **Answer cursor** (`cilium-mini-rs/src/parser.rs:243`). `skip_name` returns a length counted from
  the slice it was given, and the code assigns it to the cursor instead of adding it. `Cursor` has
  both readings. Three exact conditions can be checked on the message itself. Up to one answer the two
  are the same function (`CursorsAgree`). When the first two owner names are equally long on the wire,
  as compression pointers always are, the code sees the first answer once per answer
  (`AsWrittenRepeatsFirst`, `PointersRepeatFirst`), so its bytes are right if and only if the address data
  of the message is that repetition (`MessageRepetitionAgreement`). For two answers with any names,
  `TwoAnswersExact` reads the condition off the octets. For the remaining case the outcome is decomposed:
  verdict and slot of a walk are those of the records it sees (`OutcomeIsSeen`), and `RawAgreement`,
  `AgreementExact` and `MessageRawAgreement` restate agreement in terms of them.
- **Empty answer section** (`cilium-mini-rs/src/parser.rs:233-235`). A message without answers is
  rejected unless octets follow it; the round-trip lemmas state both cases.
- **Name length** (`cilium-mini-rs/src/parser.rs:198-201`). The root octet is not counted, so names
  of 256 octets pass where section 2.3.4 of RFC 1035 allows 255 (`LongestNameAccepted`).
- **First address only** (`cilium-mini-rs/src/policy.rs:29-30`, `cilium-mini-rs/src/policy.rs:43-44`). The design in
  `docs/fqdn_policy_plan.md` wants every address inserted; `FirstChunkOnly` says exactly when the
  engine's one key is the whole documented set, for any list of records. `OnlyFirstAddressReachesPolicy`
  adds what the cursor does to it: an answer list that starts with a CNAME behind pointers yields no key.
- **Mixed families** (`cilium-mini-rs/src/parser.rs:269`, `cilium-mini-rs/src/parser.rs:280`). The family is
  that of the last address while the bytes accumulate. The key is the first address exactly when first
  and last are of one type: among the answers sent for the intended cursor (`KeyProvenance`), among the
  answers seen for the code (`KeyAsWritten`). Behind pointers the code sees one answer only, so it does
  not mix; `MixedFamiliesKey` gives an A and an AAAA answer with other names for which the code, as
  written, picks the address of neither.
- **Torn frames** (`cilium-mini-rs/src/topology.rs:128-133`). After a failed write, or on a file that a crash
  left incomplete, the writer goes on behind the torn frame. `LogRecovers` says for every run that full
  recovery is then lost, and that nothing else loses it but a message too long for its length field;
  `TornFrameMisleads` gives a message nobody wrote.

## Assumptions

- A queue is a bounded FIFO. A send fails when 1,000 items wait, and succeeds when they and a slot still
  held by the receiver are fewer (`Losses.ReaderDrops`, `Losses.ParserDrops`); whether a held slot counts
  as occupied is left open, and runs cover both. A swapped-in slot may hold anything.
- Inserting into the kernel map fails only for a new key when 1,024 keys are present.
- Reserving a ring-buffer entry may fail at any time, and the entry's memory is arbitrary.
- `ihl()` gives bytes and the port accessors give host-order values, as the code uses them. A
  protocol number that the header library does not know is not UDP and is not admitted.
- Text formatting of addresses and protobuf encoding are arbitrary functions (parameters). Writing
  to a `String` cannot fail, so `FormatError` does not occur.
- Timestamps are parameters.

## Model

| member | source | states |
|---|---|---|
| `Names.MaskIsRange` | cilium-mini-rs/src/parser.rs:297-302 | The masked comparison in `skip_name` is the range test the model uses, for every octet. |
| `Names.ComputeSkipName` | cilium-mini-rs/src/parser.rs:295-322 | The loop over offsets computes the recursive name walk on every input, errors included. |
| `Names.SkipNameExact` | cilium-mini-rs/src/parser.rs:295-322 | Success exactly on octets that begin with an encoded name (labels, then root or pointer), and the result is that name's length. |
| `Names.SkipErrors` | cilium-mini-rs/src/parser.rs:299-321 | Each way to fail behind any labels already skipped, with its error; the reserved bit patterns are reported by value. |
| `Names.SkipLocal` | cilium-mini-rs/src/parser.rs:295-322 | The result lies within the input and depends on the consumed octets only. |
| `Names.SkipStable` | cilium-mini-rs/src/parser.rs:295-322 | Any verdict but "unexpected end" survives extension of the input. |
| `Names.QNameRoundTrip` | cilium-mini-rs/src/parser.rs:174-219 | Parsing an encoded name plus any suffix consumes exactly the encoding and appends its dotted text. |
| `Names.QNameExact` | cilium-mini-rs/src/parser.rs:174-219 | Success exactly on encoded ASCII names within the code's limits; consumed length is text length plus 2, at most 256 and 254. |
| `Names.QNameErrors` | cilium-mini-rs/src/parser.rs:174-219 | Each way to fail behind any labels already read, with its error, in the order the code tests; the string keeps the labels read. |
| `Names.QNameStable` | cilium-mini-rs/src/parser.rs:174-219 | Any verdict but "unexpected end", and the collected text, survive extension of the input. |
| `Names.LongestNameAccepted` | cilium-mini-rs/src/parser.rs:198-201 | A name of 256 wire octets is accepted. |
| `Names.WalkersAgree` | cilium-mini-rs/src/parser.rs:174-322 | Success of `parse_qname` is success of `skip_name` with the same length; a skipped name parses exactly when it has no pointer and meets the ASCII and length limits. |
| `Names.SplitJoin` | cilium-mini-rs/src/parser.rs:208-214 | Splitting the dotted text at dots gives the labels back exactly when no label holds a dot. |
| `Names.DomainNamesInjective` | cilium-mini-rs/src/parser.rs:174-219 | Distinct dot-free wire names give distinct domain names. |
| `Names.DotsCollide` | cilium-mini-rs/src/parser.rs:208-214 | Without that condition two different names give the same text. |
| `Wire.FamilyIsLast` | cilium-mini-rs/src/parser.rs:261-281 | The family of an answer list is that of its last address record. |
| `Wire.AddressesDecide` | cilium-mini-rs/src/parser.rs:261-288 | Raw bytes and family of an answer list are those of its address records alone. |
| `Answers.IntendedComplete` | cilium-mini-rs/src/parser.rs:238-291 | With the intended cursor every well-formed answer list, at any position and before any octets, is read back: all address bytes and texts in order, family of the last. |
| `Answers.IntendedSound` | cilium-mini-rs/src/parser.rs:238-291 | Conversely, success means the octets were such an encoded list, which is returned, and nothing else was stored. |
| `Sightings.CursorsAgree` | cilium-mini-rs/src/parser.rs:236-243 | Up to one answer both cursors give the same outcome and slot on every input. |
| `Sightings.OutcomeIsSeen` | cilium-mini-rs/src/parser.rs:232-293 | On every input, either cursor, success or failure: verdict and slot are those of the records the walk sees, a function of the octets alone. |
| `Sightings.SeenValid` | cilium-mini-rs/src/parser.rs:261-281 | Everything a walk sees is a well-formed record. |
| `Sightings.SeenCount` | cilium-mini-rs/src/parser.rs:238-293 | The walk completes exactly when it sees as many records as announced. |
| `Sightings.StuckOnFirst` | cilium-mini-rs/src/parser.rs:238-291 | Before a name as long as the first one the code reads the first record, and goes on doing so, any number of times. |
| `Sightings.AsWrittenRepeatsFirst` | cilium-mini-rs/src/parser.rs:238-291 | On every well-formed section the code sees the first answer first; with one answer or equally long first two names it sees that answer once per answer and nothing else. |
| `Sightings.RawAgreement` | cilium-mini-rs/src/parser.rs:238-291 | Decomposition, for every well-formed section and any names: the raw bytes are the intended ones exactly when the records seen carry the address data sent; the verdict is that of the sighting. |
| `Sightings.AgreementExact` | cilium-mini-rs/src/parser.rs:238-291 | Decomposition of the whole outcome: the intended one exactly when the walk did not fail and saw the same bytes, text and family. |
| `Sightings.SameTypeAgreement` | cilium-mini-rs/src/parser.rs:238-291 | When the addresses sent and the addresses seen are all of one type, other records allowed: exactly when they are the same addresses, one by one. |
| `Sightings.RepetitionAgreement` | cilium-mini-rs/src/parser.rs:238-291 | While the code stays on the first answer, and that is no address or all addresses are of its type: exactly when every answer is that address, or none is an address. |
| `Sightings.MixedCoincidence` | cilium-mini-rs/src/parser.rs:238-291 | Why the type matters there: five answers behind pointers, an A, an AAAA and three CNAME records, whose bytes agree by coincidence. |
| `Sightings.SecondReadExact` | cilium-mini-rs/src/parser.rs:243-259 | For names of any length, where the second iteration really reads: at the second name's length from the front. |
| `Sightings.AsWrittenReads` | cilium-mini-rs/src/parser.rs:239-259 | At any offset: with a name of length n at the cursor the code reads the record whose fixed part and data stand n octets from the front, and goes on behind it. |
| `Sightings.AsWrittenReadSound` | cilium-mini-rs/src/parser.rs:239-259 | Conversely, whatever the code reads stood there behind such a name. |
| `Sightings.TwoAnswersExact` | cilium-mini-rs/src/parser.rs:238-291 | For any two answers, any names, the code and the intended walk end alike exactly when the octets found there carry the second answer's type and data, or no address type if it is none. |
| `Sightings.TwoAnswersDiverge` | cilium-mini-rs/src/parser.rs:243 | A two-answer section on which the raw bytes differ. |
| `Sightings.UnequalNamesRejected` | cilium-mini-rs/src/parser.rs:243-257 | A well-formed two-answer section that the code rejects. |
| `Answers.AnswersChunkSafe` | cilium-mini-rs/src/parser.rs:261-281 | Either cursor, any input, success or failure: family 0 exactly without raw bytes, `AF_INET` with at least 4, `AF_INET6` with at least 16. |
| `Answers.AnswersRawBound` | cilium-mini-rs/src/parser.rs:238-291 | Either cursor stores at most 16 bytes per answer announced. |
| `Sightings.AsWrittenUnbounded` | cilium-mini-rs/src/parser.rs:238-291 | As written there is no other bound: thirty octets yield 16 bytes for each answer announced, however many. |
| `Answers.IntendedResourceBound` | cilium-mini-rs/src/parser.rs:236-291 | With the intended cursor each answer pays 11 octets, which bounds count and raw bytes by the input. |
| `Answers.AnswersStable` | cilium-mini-rs/src/parser.rs:232-293 | Either cursor: any outcome but "unexpected end" survives extension of the section. |
| `Parser.IntendedRoundTrip` | cilium-mini-rs/src/parser.rs:43-76 | Encoded message plus trailing octets parses to its dotted name, all address bytes in order and the last family, for every number of answers; an empty remainder is rejected. |
| `Parser.AsWrittenRoundTrip` | cilium-mini-rs/src/parser.rs:43-76 | The same of the code as written, for up to one answer. |
| `Parser.PayloadCursorsAgree` | cilium-mini-rs/src/parser.rs:65-74 | On any payload, encoded or not, with an answer count of at most 1 the code computes the intended function. |
| `Parser.AsWrittenManyAnswers` | cilium-mini-rs/src/parser.rs:43-76 | For every message, any number of answers and any names, the code reports the message whose answers it saw, or fails as the sighting did. |
| `Parser.MessageRepeatsFirst` | cilium-mini-rs/src/parser.rs:43-76 | With one answer or equally long first two names: the first answer once per answer. |
| `Parser.PointersRepeatFirst` | cilium-mini-rs/src/parser.rs:221-231 | For messages whose owner names are all compression pointers, always so. |
| `Parser.MessageRepetitionAgreement` | cilium-mini-rs/src/parser.rs:43-76 | For every message with one answer or equally long first two names, mixed types included, both cursors succeed, and the raw bytes are the intended ones if and only if the address data sent is the first answer's, repeated. |
| `Parser.MessageRawAgreement` | cilium-mini-rs/src/parser.rs:43-76 | Decomposition, for every message: raw bytes as intended exactly when the answers seen carry them. |
| `Parser.IntendedExact` | cilium-mini-rs/src/parser.rs:55-75 | The intended parser accepts exactly the encoded messages followed by anything (something, if there is no answer), and its result is the message's. |
| `Parser.HeaderRead` | cilium-mini-rs/src/parser.rs:91-104 | All six header fields are read from their places. |
| `Parser.QuestionErrors` | cilium-mini-rs/src/parser.rs:43-76 | Each way the whole parse fails in the question, behind any labels: its error, and the name left in the slot. |
| `Parser.AnswerErrors` | cilium-mini-rs/src/parser.rs:43-76 | Each way the whole parse fails in an owner name, behind any records and labels (as written, up to one record): its error, and the addresses left in the slot. |
| `Parser.EventErrors` | cilium-mini-rs/src/parser.rs:43-58 | An unknown address family is reported by its number, source before destination; a payload shorter than a header fails; and what the slot holds each time. |
| `Parser.SampleParses` | cilium-mini-rs/src/parser.rs:43-76 | One response given octet by octet parses to its dotted name, address and family. |
| `Parser.PayloadStable` | cilium-mini-rs/src/parser.rs:55-75 | Truncation stability of the whole payload parse, either cursor: a verdict other than "unexpected end" and the whole slot survive extension. |
| `Parser.CutNeverLies` | cilium-mini-rs/src/parser.rs:55-75 | Cutting a payload anywhere gives the same outcome or "unexpected end". |
| `Parser.EventChunkSafe` | cilium-mini-rs/src/parser.rs:43-76 | Every parse of every event leaves family and raw bytes consistent. |
| `ParserSlot.DnsSlot.Reset` | cilium-mini-rs/src/parser.rs:129-139 | Every field is back at its default. |
| `ParserSlot.DnsSlot.Swap` | cilium-mini-rs/src/topology.rs:85 | The slot takes the other contents and hands over its own, whole. |
| `ParserSlot.DnsSlot.ParseQNameInto` | cilium-mini-rs/src/parser.rs:174-219 | The loop computes the recursive walk, result and text, also on failure. |
| `ParserSlot.NextLabel` | cilium-mini-rs/src/parser.rs:182-206 | One label of the name loop: the root, the error of the first check that fails, or the label and its end, with every index in range. |
| `ParserSlot.NextRecord` | cilium-mini-rs/src/parser.rs:239-259 | Name, fixed part and data of one iteration, with every index in range, is the specified record view. |
| `ParserSlot.DnsSlot.TakeRecord` | cilium-mini-rs/src/parser.rs:239-290 | One whole iteration of the answer loop: the record's effect on the slot and the next offset, or its error. |
| `ParserSlot.DnsSlot.StoreRecord` | cilium-mini-rs/src/parser.rs:261-288 | The slot change of one record, and the two length errors. |
| `ParserSlot.DnsSlot.ParseRdataInto` | cilium-mini-rs/src/parser.rs:232-293 | The loop over answers computes the as-written walk on every input, slot contents included, with every slice in range. |
| `ParserSlot.DnsSlot.ParsePayloadInto` | cilium-mini-rs/src/parser.rs:55-75 | Header, question and answers on the slot compute the payload function. |
| `ParserSlot.DnsSlot.ParseDnsInto` | cilium-mini-rs/src/parser.rs:43-76 | Result and every field, on success and failure, are a function of the event alone: nothing of the previous contents remains. The one demand is that the slice is in range when it is reached. |
| `ParserSlot.ParseIp` | cilium-mini-rs/src/parser.rs:141-160 | Appends the text of the address of its family, or reports the family and appends nothing. |
| `Classifier.EventBuffer.CopyPayload` | cilium-mini-ebpf/src/main.rs:121-133 | Copies exactly the first min(512, remaining) octets and leaves the rest of the buffer as it was. |
| `Classifier.ParseUdp` | cilium-mini-ebpf/src/main.rs:82-152 | Submits exactly when header, port, payload and ring allow it; the event is the payload prefix with the given addresses, and otherwise the buffer is untouched. |
| `Classifier.TryDnsTc` | cilium-mini-ebpf/src/main.rs:49-79 | The same for the whole dispatch over both IP versions. |
| `Classifier.ClassifyComplete` | cilium-mini-ebpf/src/main.rs:49-106 | A frame built from its headers is admitted with its own addresses, ports and payload position. |
| `Classifier.ClassifierExact` | cilium-mini-ebpf/src/main.rs:49-175 | Admitted exactly when the frame is a well-formed IPv4 (header of at least 20 bytes) or IPv6 UDP frame from port 53 with at least one payload octet. |
| `Classifier.ClassifyOctets` | cilium-mini-ebpf/src/main.rs:49-106 | Which frames are admitted and what is taken from them, octet by octet and with the numbers of the standards: EtherType, header words, protocol 17, source port 53, payload, and the place of every field. |
| `Classifier.CaptureParses` | cilium-mini-ebpf/src/main.rs:121-138 | Every submitted event has a payload length of 1 to 512 and parses to a function of the frame alone. |
| `Classifier.StaleMemoryInvisible` | cilium-mini-ebpf/src/main.rs:110-140 | Events for one frame in buffers with different old contents parse alike. |
| `NonInterference.StepAlike` | cilium-mini-rs/src/topology.rs:41-134 | Two states that differ only in octets behind payload lengths and in unfilled local responses still do so after the same action with any other old memory. |
| `NonInterference.OldMemoryNeverShows` | cilium-mini-rs/src/topology.rs:41-134 | Two whole runs with the same frames and scheduling but any other old memory in event buffers, queue slots and local response end with the same log, messages written, second queue, policy map and counters. |
| `Common.KeysDistinct` | cilium-mini-common/src/lib.rs:19-35 | Keys are injective and those of the two families are disjoint. |
| `Common.KeyOctets` | cilium-mini-common/src/lib.rs:19-35 | The sixteen octets and the family of each key: an IPv4 address padded with twelve zeros and family 2, an IPv6 address as it is and family 10. |
| `Common.EventSize` | cilium-mini-common/src/lib.rs:51-74 | The event takes 576 bytes, field by field. |
| `Policy.FqdnPolicyEngine.Observe` | cilium-mini-rs/src/policy.rs:20-66 | Result and new map of an update. |
| `Policy.FamilyErrorExact` | cilium-mini-rs/src/policy.rs:21-59 | On parser output no `unwrap` fails, and the family error arises exactly for allowed domains without an address. |
| `Policy.UpdateExact` | cilium-mini-rs/src/policy.rs:20-66 | Each of the four results exactly: skipped if the domain is not allowed, inserted if a key was chosen and is present afterwards, full if it is not and the map holds 1024 keys; and the map after each. |
| `Policy.ChosenKeyOctets` | cilium-mini-rs/src/policy.rs:25-59 | The octets of a chosen key are the first ones of the raw bytes, padded as the family says. |
| `Policy.UpdateFacts` | cilium-mini-rs/src/policy.rs:20-66 | The map keeps its keys and its bound; only the chosen key of an allowed domain is written; afterwards it is present or the map is full. |
| `Policy.KeyProvenance` | cilium-mini-rs/src/policy.rs:25-59 | With the intended cursor: no key without an address; otherwise a key of the last address's family, and it is the first address sent exactly when first and last address are of one type. |
| `Policy.KeyAsWritten` | cilium-mini-rs/src/policy.rs:25-59 | As written the same of the answers seen; while the code stays on the first answer the key is its address, or there is none if it is not an address. |
| `Policy.MixedFamiliesKey` | cilium-mini-rs/src/parser.rs:261-281 | An A and an AAAA answer that the code as written parses successfully and whose key is the address of neither. |
| `Policy.ChunksOfRaw` | docs/fqdn_policy_plan.md:37-38 | When the address records are of one type, other records allowed, chunking the raw bytes gives back each address. |
| `Policy.IntendedKeysExact` | docs/fqdn_policy_plan.md:37-38 | Then the documented key set is exactly the set of the addresses. |
| `Policy.FirstChunkOnly` | cilium-mini-rs/src/policy.rs:25-53 | Then the engine's key is the first address; it is the whole documented set exactly when all addresses agree. |
| `CommitLog.LogWriter.Append` | cilium-mini-rs/src/topology.rs:120-133 | The log grows by exactly one frame, whatever the reused buffer held. |
| `CommitLog.LogWriter.AppendTorn` | cilium-mini-rs/src/topology.rs:128-133 | A failed write leaves a proper prefix of the frame. |
| `CommitLog.DecodeLog` | docs/userspace_architecture.md:63-73 | A reader of the documented format recovers exactly the messages, in order, and stops at whatever incomplete frame follows. |
| `CommitLog.TornLog` | docs/userspace_architecture.md:63-73 | From any byte prefix of a log it recovers a prefix of the messages; what is left over is a proper part of the next frame. |
| `CommitLog.DecodeInverse` | docs/userspace_architecture.md:63-73 | On every input, the decoded messages framed again plus the rest are the input. |
| `CommitLog.WholeLog` | docs/userspace_architecture.md:63-73 | A file reads back completely as a list of messages exactly when they fit the length field and it is their log. |
| `CommitLog.ResumedLog` | cilium-mini-rs/src/topology.rs:108-133 | Appending to any file with any number of failed writes: old and new messages are read back completely exactly when the file had no incomplete end, no failed write left an octet and no message is too long; a byte prefix then yields a prefix. |
| `CommitLog.TornFrameMisleads` | cilium-mini-rs/src/topology.rs:128-133 | After a torn frame the reader can report a message that was never written. |
| `CommitLog.FrameLimit` | cilium-mini-rs/src/topology.rs:127-133 | A message reads back exactly when it is shorter than 2^32 bytes. |
| `Subsequences.SubMeaning` | cilium-mini-rs/src/topology.rs:56-60 | What "after drops" means: strictly increasing positions in the original stream. |
| `TopologyInvariants.SafeStep` | cilium-mini-rs/src/topology.rs:77-101 | Each step keeps: no panic, events in flight in bounds, tasks end only from the writer backwards. |
| `TopologyInvariants.CountedStep` | cilium-mini-rs/src/topology.rs:41-61 | Each step keeps queue capacities and the account of every item read. |
| `TopologyInvariants.FlowKernelStep` | cilium-mini-ebpf/src/main.rs:110-149 | Each step keeps: captured events parse to what the admitted frames stand for, and these are frames seen, in order. |
| `TopologyInvariants.FlowRingStep` | cilium-mini-rs/src/topology.rs:41-51 | Each step keeps: events offered, then those in the ring, are the captured ones. |
| `TopologyInvariants.FlowInStep` | cilium-mini-rs/src/topology.rs:46-61 | Each step keeps: what the parser received, then queue one, is the offered stream after drops. |
| `TopologyInvariants.FlowOutStep` | cilium-mini-rs/src/topology.rs:77-134 | Each step keeps: written, in hand, queued and about to be sent are the parse results after drops, despite swapped-in stale buffers. |
| `TopologyInvariants.PolicyStep` | cilium-mini-rs/src/topology.rs:78-86 | Each step keeps: everything published is covered by the map, every key is justified by a parsed response. |
| `TopologyInvariants.LogStep` | cilium-mini-rs/src/topology.rs:117-134 | Each step keeps: the log is what the file held at start-up, then what each attempt left; the completed ones are the messages written. |
| `TopologyInvariants.TalliedStep` | cilium-mini-rs/src/topology.rs:41-134 | Each step keeps: what is missing at each stage is exactly what was counted as dropped, refused or failed there. |
| `TopologyInvariants.InvariantStep` | cilium-mini-rs/src/topology.rs:33-138 | All of these together, for every action of every task. |
| `TopologyInvariants.EveryRun` | cilium-mini-rs/src/topology.rs:33-138 | The invariant holds after every run. |
| `TopologyInvariants.FlowComposes` | cilium-mini-rs/src/topology.rs:33-138 | The flow invariants compose from the network frame to the log. |
| `Guarantees.LogRefinesFrames` | cilium-mini-rs/src/topology.rs:41-134 | After every run, logged and queued messages are matched in order with distinct frames seen, and each is exactly the pure parse of its frame. |
| `Guarantees.LogRefinesEvents` | cilium-mini-rs/src/topology.rs:41-134 | After every run, they are an in-order selection of the pure parses of the events read from the ring. |
| `Guarantees.OnlyCountedLosses` | cilium-mini-rs/src/topology.rs:41-134 | After every run exactly as many messages are missing as were counted as lost; where nothing was lost, the published messages are all the parse results, and with nothing left on the way in, exactly the parses of all events offered. |
| `Losses.ReaderDrops` | cilium-mini-rs/src/topology.rs:46-61 | An event is dropped at queue one only when 1000 slots are taken and always when 1000 events wait; below that it is appended. |
| `Losses.ParserDrops` | cilium-mini-rs/src/topology.rs:83-96 | The same for queue two; a response that is queued leaves the slot's old contents as the local response. |
| `Losses.QuietDropsNothing` | cilium-mini-rs/src/topology.rs:23-24 | A run in which neither queue ever holds 999 items drops nothing. |
| `Losses.FaultsHaveCauses` | cilium-mini-rs/src/topology.rs:41-134 | Over every run: encoding and writing errors are at most as many as the failing steps, items of a wrong size as the intruders, and without a stop of the writer all tasks are up and nothing was refused. |
| `Losses.Shutdown` | cilium-mini-rs/src/topology.rs:46-55 | A task ends exactly when it is told to or finds the next one gone, and that is counted. |
| `Losses.FaultlessLosesNothing` | cilium-mini-rs/src/topology.rs:41-134 | A run without failing steps whose queues never hold 999 items publishes exactly the parses of the events received, which are the events offered. |
| `Losses.FrameOctets` | cilium-mini-rs/src/topology.rs:127-131 | A frame is the four octets of the length, most significant first, and the message. |
| `Losses.WriterExact` | cilium-mini-rs/src/topology.rs:117-134 | What a write, a failed encoding and a failed write each leave in the log, the list of messages and the error counts. |
| `Losses.ArrivalExact` | cilium-mini-ebpf/src/main.rs:110-149 | The ring grows by one item of 576 bytes exactly for an admitted frame with room. |
| `Losses.WrongSizeIgnored` | cilium-mini-rs/src/topology.rs:42-44 | A ring item of another size is read, counted and goes nowhere. |
| `Delivery.EverythingArrives` | cilium-mini-rs/src/topology.rs:41-134 | From every state with the tasks up there is a run after which everything that was on its way is in the log, in order, and nothing more was lost. |
| `Delivery.EveryAdmittedFrameIsLogged` | cilium-mini-rs/src/topology.rs:41-134 | A run that has lost nothing can be continued so that the log holds, behind its old contents, one entry for every admitted frame that parses, in the order of arrival. |
| `Delivery.OneFrameDelivered` | cilium-mini-rs/src/topology.rs:41-134 | From any idle state, in any memory, the seven steps from arrival to write log exactly what the frame stands for and end idle. |
| `Delivery.OneMessageLogged` | cilium-mini-rs/src/topology.rs:41-134 | On a clean file the seven steps for a frame carrying a message with up to one answer leave, for the documented reader, the old messages and that message's response. |
| `Guarantees.NeverPanics` | cilium-mini-rs/src/topology.rs:69-104 | No run reaches a failing slice or `unwrap`; a task ends only after the one behind it. |
| `Guarantees.NothingVanishes` | cilium-mini-rs/src/topology.rs:23-134 | After every run both queues hold at most 1,000 items and every item read is in exactly one place. |
| `Guarantees.PolicyBeforeLog` | cilium-mini-rs/src/topology.rs:78-86 | After every run, a queued or logged response with an allowed domain and an address has its key in the map, or the map is full; every key stems from an allowed-domain response of a frame seen. |
| `Guarantees.MapKeysShaped` | cilium-mini-rs/src/policy.rs:60 | After every run every key in the map is four octets, twelve zeros and family 2, or has family 10. |
| `Guarantees.RunGrows` | cilium-mini-rs/src/topology.rs:77-134 | Along every run the map keeps its keys and the log and its messages only grow. |
| `Guarantees.LogRecovers` | cilium-mini-rs/src/topology.rs:117-133 | After every run on any file, failed writes included, the documented reader recovers exactly the old and the written messages, if and only if the file ended with a whole frame, no failed write left an octet and every message fits; a byte prefix then yields a prefix. |
| `Guarantees.FileRefinesFrames` | cilium-mini-rs/src/topology.rs:41-134 | After every run that left the log clean, the documented reader finds the old messages and then, one for one and in order, the encodings of what distinct frames seen on the network stand for. |
| `Guarantees.TornByErrors` | cilium-mini-rs/src/topology.rs:128-133 | No octet is torn in a run without write errors. |
| `Pipeline.Daemon.Arrive` | cilium-mini-ebpf/src/main.rs:49-152 | A frame through the real classifier and event buffer, with any old memory, changes the ring as the step system says. |
| `Pipeline.Daemon.Read` | cilium-mini-rs/src/topology.rs:41-61 | One reader iteration on the real ring and queue is the abstract read step, shutdown included. |
| `Pipeline.Daemon.Receive` | cilium-mini-rs/src/topology.rs:77 | Receiving on the real queue is the abstract step. |
| `Pipeline.Daemon.Parse` | cilium-mini-rs/src/topology.rs:78-82 | Parsing into the reused response and updating the real map is the abstract step, whatever other tasks did in between. |
| `Pipeline.Daemon.Send` | cilium-mini-rs/src/topology.rs:83-96 | Swapping the response into the real queue, dropping it or shutting down is the abstract step. |
| `Pipeline.Daemon.Take` | cilium-mini-rs/src/topology.rs:117 | Receiving on the second queue is the abstract step. |
| `Pipeline.Daemon.WriteOut` | cilium-mini-rs/src/topology.rs:120-133 | Encoding and writing on the real log, with either failure, is the abstract step. |
| `Pipeline.Daemon.Drive` | cilium-mini-rs/src/topology.rs:16-138 | Any interleaving of all tasks, carried out on the real buffers from start-up, ends in the state of the step system after that run. |
| `EndToEnd.KernelCutNeverLies` | cilium-mini-ebpf/src/main.rs:121-138 | The 512-octet cut yields the parse of the whole payload or "unexpected end", never another answer. |
| `EndToEnd.FrameToResponse` | cilium-mini-ebpf/src/main.rs:49-152 | A frame carrying an encoded response of at most 512 octets yields the header's addresses and ports and the message's name and addresses; as written for up to one answer, with the intended cursor for any number. |
| `EndToEnd.FrameAsWritten` | cilium-mini-ebpf/src/main.rs:49-152 | As written, for any number of answers and any names, the frame yields its own headers and the message whose answers were seen. |
| `EndToEnd.FrameStandsForMessage` | cilium-mini-rs/src/topology.rs:46-86 | In the running pipeline that is the response such a frame stands for: the message itself up to one answer, the first answer repeated while the code stays on it. |
| `EndToEnd.LoggedAddressIsAllowed` | cilium-mini-rs/src/policy.rs:20-66 | After every run, any number of answers: once the frame's response is queued or logged for an allowed domain, the first address seen is in the map or the map is full, if first and last are of one type; while the code stays on the first answer, that is the first answer's address. |
| `EndToEnd.OnlyFirstAddressReachesPolicy` | cilium-mini-rs/src/policy.rs:25-53 | For answers whose addresses are of one type the documented keys are all of them; as written they are those of the answers seen, and while the code stays on the first answer that one alone, or none if it is not an address, for the documented policy and for the engine. |

## Left out

- Sightings.AsWrittenRepeatsFirst: when the first two owner names differ in length the code reads at a place inside unrelated octets. What it sees there is a function of the octets (`Seen`), and agreement is exact in terms of it; there is no shorter description than the walk itself, except for two answers (`TwoAnswersExact`).
- `write_to` copies an address as three 64-bit words; the model assigns the structure.
- Text formatting of addresses and protobuf encoding are uninterpreted.
- Buffering and flushing of the log file; a failed write leaves any proper prefix of its frame.
- End of the loops because the sending side is gone; only closing from the receiving side is modelled.
- Clock readings, latency measurement and log messages.
- The classifier's verdict, which is always to pass the packet.
- Start-up, command line, program attachment, resource limits.
- Question count, flags, authority and additional sections and IPv6 extension headers, which the code does not interpret.
- Features that only the roadmap names: egress filtering, expiry of addresses, pod attribution.
