# pom-ng packet core and DNS analyzer in Dafny

This project models the packet-handling core of pom-ng, a network-traffic
analysis engine. It also models the engine's DNS analyzer. Each part is a
module of pure functions over immutable datatypes, with lemmas stating what
the C code promises.

- **SeqNum**: the half-range comparison of 32-bit sequence numbers that
  every ordering decision of the stream reassembler writes out.
- **PacketPool**: the refcounted packet allocator. It has a live list and a
  free list, clones by sharing or by deep copy, and hands borrowed capture
  buffers back to their input.
- **InfoPool**: the per-protocol pool of decoded-field records.
- **Multipart**: the fragment reassembler (`packet_multipart_*`). It covers
  insertion against the tail, the byte and gap counters, and the copy loop
  that builds the reassembled buffer.
- **Stream**: the two-direction sequenced-stream reassembler
  (`packet_stream_*`). It covers old-duplicate detection, trimming of
  duplicate bytes, the "next" test, ordered queueing, `get_next` and the
  processing of an arriving packet with the draining loop that follows.
- **LineParser**: the stream line parser (`packet_stream_parser_*`).
- **DnsWire**: the DNS wire decoder of `analyzer_dns.c`. It covers
  big-endian integers and `analyzer_dns_parse_name`: labels, compression
  pointers (section 4.1.4 of RFC 1035), cycles and the decoded dotted name.
- **DnsRecords**: question and resource-record parsing and the record loop
  of `analyzer_dns_proto_packet_process`, with the events it emits.

Undefined behaviour in the C is modelled as an explicit outcome (`Fault`)
rather than ruled out by a precondition. This covers null dereferences, use
after free, and reads or writes outside a buffer. Where the code has a
defect, the module carries a `Build` parameter or a second definition. One
variant is the code as written. The other is the evidently intended code,
and the property the authors meant is proved of it (see "## Findings").

Sequence comparison is usually described as a strict order on the
wrapping 32-bit counters. The code's test is not total: two counters exactly
2^31 apart are neither equal nor ordered (`SeqNum.FourWayClassification`).
The model follows the code.

## Model

| member | source | states |
|---|---|---|
| SeqNum.BeforeIffDistance | src/packet.c:577-578 | "a before b" holds exactly when the forward distance from a to b is strictly between 0 and 2^31 |
| SeqNum.BeforeIrreflexiveAsymmetric | src/packet.c:577-578 | no counter is before itself, and "before" never holds both ways |
| SeqNum.BeforeTranslationInvariant | src/packet.c:577-578 | the comparison is unchanged when the same amount is added to both counters modulo 2^32 |
| SeqNum.FourWayClassification | src/packet.c:577-578 | two counters are equal, ordered one way, ordered the other way, or exactly half the range apart; in the last case neither is before the other |
| SeqNum.AntipodesUnordered | src/packet.c:577-578 | 0 and 2^31 are neither equal nor ordered |
| PacketPool.Get | src/packet.c:48-83 | the head of the free list is reused, or a fresh packet when the list is empty; it comes back zeroed with refcount 1 at the front of the live list; every other packet is untouched and the pool stays well formed |
| PacketPool.CloneShares | src/packet.c:85-118 | cloning a packet that owns its bytes, or with copying forbidden, returns the same packet with one more reference and changes nothing else |
| PacketPool.CloneCopies | src/packet.c:85-113 | cloning a packet that borrows a capture buffer yields a new live packet with the same bytes, timestamp, link type, input and id, owned, with no reassembly and refcount 1; the source is untouched |
| PacketPool.Release | src/packet.c:120-177 | the attached reassembly is always detached and returned to the caller; the pool stays well formed |
| PacketPool.ReleaseKeeps | src/packet.c:122-135 | a release that leaves references keeps the packet live with one reference fewer; the lists do not change and the result is POM_OK |
| PacketPool.ReleaseFrees | src/packet.c:137-176 | the last release moves the packet, zeroed, from the live set to the front of the free list; POM_ERR exactly when a borrowed buffer could not be handed back |
| PacketPool.GetReleaseRestores | src/packet.c:48-177 | releasing a freshly obtained packet restores the live set and puts the handle back on top of the free list |
| PacketPool.CloneReleaseBalance | src/packet.c:85-135 | a sharing clone followed by a release restores the packet's refcount, minus any attached reassembly |
| PacketPool.ReleaseTimes | src/packet.c:129-157 | a packet with n references survives n-1 releases, one reference fewer each time, and the n-th frees it |
| InfoPool.Get | src/packet.c:215-267 | the head of the unused list moves to the front of the used list, or a new record does; it fails exactly when a new record is needed and its field values cannot be built |
| InfoPool.Release | src/packet.c:270-295 | a null record gives POM_ERR and no change; otherwise the record leaves the used list and goes on top of the unused list |
| InfoPool.ReleaseThenGetReuses | src/packet.c:215-295 | the unused list is a stack: a record just released is the next one handed out |
| InfoPool.GetThenRelease | src/packet.c:215-295 | a record handed out and released again leaves the same used records, with the record on top of the unused list |
| Multipart.Alloc | src/packet.c:334-353 | a reassembly is made exactly when the protocol dependency is non-null (a null one frees the record and then writes through it); a new reassembly is empty and consistent |
| Multipart.AddCases | src/packet.c:380-473 | a fragment starting at or after the tail's end is appended; one starting at or before the tail's start is dropped; any other is put at the head; the byte count grows exactly when the fragment is kept |
| Multipart.GapsNeverDecrease | src/packet.c:428-470 | the hole counter never goes down, because only the tail is ever compared |
| Multipart.AddKeepsAccounting | src/packet.c:426 | after any addition the byte count equals the bytes held |
| Multipart.AddKeepsTiling | src/packet.c:380-473 | a first, appended or dropped fragment keeps the fragments in offset order without overlap |
| Multipart.OverlapBreaksTiling | src/packet.c:455-461 | a fragment starting inside the tail is put at the head, and the list is no longer in offset order |
| Multipart.Paste | src/packet.c:493 | one copy writes the fragment's bytes at its offset and leaves every other byte as it was |
| Multipart.PasteAllShows | src/packet.c:491-494 | after the copy loop every position shows the last fragment covering it, or its old byte |
| Multipart.Process | src/packet.c:475-510 | a buffer is built exactly when there is a tail and every fragment fits; it has the counted size, the tail's timestamp and the protocol's link type, and each byte is the one of the last fragment in the list covering it |
| Multipart.ProcessPlacesFragments | src/packet.c:491-496 | when the fragments are in order without overlap, the built buffer holds every fragment's bytes at its offset |
| Multipart.ArrivalOrderMatters | src/packet.c:385-403 | two fragments tiling bytes 0-19 that arrive second-first leave one fragment, and processing copies past the buffer's end |
| Multipart.InsertInOrderAdds | src/packet.c:380-473 | the intended insertion of a fragment apart from all held ones adds exactly that fragment |
| Multipart.InsertInOrderSorts | src/packet.c:380-473 | the intended insertion keeps the list in strict offset order |
| Multipart.ArriveInOrderRebuilds | src/packet.c:380-473 | feeding the rest of an ordered tiling, in any order, to the intended insertion rebuilds exactly that tiling |
| Multipart.OrderedUnique | src/packet.c:380-473 | two ordered lists holding the same fragments are the same list |
| Multipart.ArrivalOrderIrrelevant | src/packet.c:380-473 | with the intended insertion any two arrival orders of a tiling give the same list |
| Stream.Alloc | src/packet.c:513-541 | a new stream is empty and valid; the given direction starts at the given sequence and acknowledgement, and the reverse direction has them swapped |
| Stream.NextIffNoGap | src/packet.c:606-641 | "next" holds exactly when the segment is not within half the space ahead of the cursor and, on a bidirectional stream, its acknowledgement is not ahead of the other direction's cursor |
| Stream.DupeWithinLength | src/packet.c:572-597 | a segment starting before the cursor either has at most its length in duplicate bytes or is an old duplicate |
| Stream.RemoveDupeBytes | src/packet.c:586-604 | a segment not before the cursor is untouched; otherwise its slot loses exactly the bytes before the cursor and still ends where it did, and it then starts at the cursor; too many duplicate bytes is the error, and a segment without a stack copy faults |
| Stream.TrimKeepsEnd | src/packet.c:598-600 | trimming the duplicate bytes off a slot keeps where the slot ends |
| Stream.InsertPlacement | src/packet.c:775-811 | a queued segment goes right after the last segment it is not before; every segment behind it starts after it |
| Stream.InsertKeepsSorted | src/packet.c:775-811 | insertion keeps a queue sorted |
| Stream.InsertAddsOne | src/packet.c:775-813 | insertion adds exactly the segment: one more entry, its bytes, and no other entry |
| Stream.InsertKeepsQueue | src/packet.c:751-811 | inserting a well-formed segment into a well-formed sorted queue keeps it both |
| Stream.Queue | src/packet.c:775-813 | queueing inserts into one direction, leaves the other alone and counts the segment's bytes; the stream stays valid |
| Stream.Drop | src/packet.c:892-902 | unlinking the head removes exactly it and uncounts its bytes; the stream stays valid |
| Stream.ScanDir | src/packet.c:831-887 | one pass of get_next keeps the stream valid and only unlinks queue heads; a segment it finds matches the head it came from |
| Stream.GetNext | src/packet.c:824-905 | get_next keeps the stream valid and only unlinks queue heads; a segment handed out has its slot |
| Stream.ScanFoundAligned | src/packet.c:836-883 | the bytes a handed-out segment hands over end where the queued head ended; with the buffer not full the segment also starts at the cursor, except an untrimmed head exactly half the space ahead |
| Stream.GetNextIdle | src/packet.c:824-890 | with nothing queued nothing is handed out and nothing changes |
| Stream.GetNextFull | src/packet.c:838-843 | with the buffer full the first direction's head is handed out as it is |
| Stream.GetNextInOrder | src/packet.c:846-883 | a head that is next and starts at the cursor is handed out untouched |
| Stream.GetNextTurns | src/packet.c:828-887 | when the first direction has nothing next, a ready head of the other direction is handed out |
| Stream.GetNextWaits | src/packet.c:836-849 | when neither head is next and the buffer is not full, nothing is handed out and nothing changes |
| Stream.ScanDropsDupe | src/packet.c:856-874 | an old duplicate at the head is freed and the pass goes on with the rest of the queue; as written, freeing the last one faults |
| Stream.Admit | src/packet.c:669-695 | an arriving packet is discarded, delivered with a same-sized stack, or queued as a well-formed segment keeping its acknowledgement and slot index |
| Stream.Process | src/packet.c:643-821 | processing keeps the stream valid, hands over at most one more segment than are queued, and hands over the arriving packet first |
| Stream.ProcessDiscardsOldDupe | src/packet.c:678-685 | a packet ending before its direction's cursor is dropped with POM_OK; only the direction flags change |
| Stream.ProcessQueuesAhead | src/packet.c:738-820 | a packet ahead of its cursor is queued in order, with a stack copy only when it has payload, and its bytes are counted; nothing is handed over and no cursor moves |
| Stream.ProcessEnqueues | src/packet.c:687-820 | whatever held a packet back (a gap, or an acknowledgement of undelivered bytes), it is queued with POM_OK and counted; as written it keeps its original start, and repaired it starts at its trimmed bytes and ends where the packet ended |
| Stream.ProcessInOrder | src/packet.c:695-735 | a packet at its cursor is handed over first, as it came; with nothing queued the cursor moves past it, the acknowledgement is recorded and the status is the handler's |
| Stream.ProcessDelivers | src/packet.c:695-735 | a delivered packet ends processing on a handler failure and otherwise continues into the draining loop from the advanced stream |
| Stream.Drain | src/packet.c:709-732 | the draining loop keeps the stream valid, keeps earlier handovers and adds at most one per queued segment |
| Stream.DrainStep | src/packet.c:711-731 | a segment the handler accepts advances its direction and the loop goes on |
| Stream.DrainIdle | src/packet.c:711 | with nothing queued the loop ends at once with POM_OK |
| Stream.DrainErrs | src/packet.c:711-719 | a POM_ERR out of the loop comes from the handler refusing the last handover |
| Stream.StaleHeadStuck | src/packet.c:856 | as written, an old duplicate in the reverse queue is tested against the forward cursor, trimming it fails, and get_next returns nothing for ever |
| Stream.LastDupeDangles | src/packet.c:856-902 | as written, freeing the only queued segment as an old duplicate is followed by dequeueing the freed segment |
| Stream.EmptySegmentFaults | src/packet.c:721-766 | as written, a queued segment without payload has no stack copy, and draining it reads through the null stack |
| Stream.DrainOvershoots | src/packet.c:728 | as written, a segment trimmed while drained moves the cursor by its untrimmed length, past the bytes it handed over |
| Stream.SlotZeroTrimmed | src/packet.c:669-688 | as written, duplicate bytes are cut from stack slot 0 instead of the stream slot, and the cursor moves by the untrimmed slot |
| Stream.RepairedScanCompletes | src/packet.c:831-887 | repaired, a pass never gets stuck and never faults |
| Stream.RepairedGetNextCompletes | src/packet.c:824-905 | repaired, get_next never faults |
| Stream.RepairedNeverFaults | src/packet.c:643-821 | repaired, processing never faults, and a POM_ERR only ever comes from the handler |
| Stream.RepairedDrainReachesEnd | src/packet.c:728 | repaired, every segment a pass hands out puts the cursor at the end of the queued segment: trimmed, at the cursor, exactly half the space ahead, or taken across a gap because the buffer is full |
| Stream.FullBufferCursor | src/packet.c:840-843 | a full buffer hands out a head 100 bytes past the cursor in either build; as written the cursor then lands inside the gap, repaired it lands after the bytes handed over |
| Stream.RepairedDeliversFromCursor | src/packet.c:669-699 | repaired, a packet overlapping the cursor is handed over with exactly the duplicate bytes cut from its own slot, other slots untouched, and the cursor ends where the packet ends |
| LineParser.Alloc | src/packet.c:908-923 | a new parser has no slice, nothing buffered and the given maximum |
| LineParser.AddPayload | src/packet.c:926-937 | the payload becomes the slice; the warning is raised exactly when a slice was still pending |
| LineParser.GetRemaining | src/packet.c:939-952 | the pending slice is handed back and cleared |
| LineParser.AddThenRemaining | src/packet.c:926-952 | a payload added and asked for back comes back whole |
| LineParser.FindFrom | src/packet.c:966 | the search returns the first '\n' at or after the start, or none when there is none |
| LineParser.LineLength | src/packet.c:966-972 | the line length drops exactly one '\r' right before the '\n' |
| LineParser.SkipSpacesTrims | src/packet.c:1021-1024 | the leading-space loop removes exactly the leading spaces |
| LineParser.TrimBackInert | src/packet.c:1025-1026 | the trailing-space loop as written never removes anything |
| LineParser.GetLine | src/packet.c:955-1034 | null outputs give POM_ERR and change nothing, otherwise POM_OK; a line handed out has no '\n' and no leading space; a parser that buffers nothing never starts buffering |
| LineParser.GetLineTakesLine | src/packet.c:955-1034 | the line handed out is the bytes before the first '\n', less one '\r' and the leading spaces; the slice moves past the '\n' |
| LineParser.GetLineWithoutNewline | src/packet.c:974-1004 | a slice without '\n' gives no line and is dropped whole |
| LineParser.BufferedBranchDead | src/packet.c:1007-1011 | from a parser that buffers nothing, the branch that returns without setting the outputs is never taken |
| LineParser.PartialLineLost | src/packet.c:974-1004 | as written, a line split across two payloads is handed out without its first part |
| LineParser.TrailingSpaceKept | src/packet.c:1025-1026 | as written, "A \n" gives "A " |
| LineParser.GetLineFixed | src/packet.c:955-1034 | the intended parser keeps an unterminated slice in its buffer and empties the buffer when it hands out a line |
| LineParser.CleanTrims | src/packet.c:1020-1026 | an intended line has no space at either end |
| LineParser.FixedJoinsPayloads | src/packet.c:974-1011 | with the intended parser, where the payloads are cut does not matter: a payload without '\n' then another gives the same line and parser as both in one |
| LineParser.FixedTrailingSpace | src/packet.c:1025-1026 | with the intended parser, "A \n" gives "A" |
| DnsWire.GetUint16 | src/modules/analyzer/analyzer_dns.c:145-148 | two bytes read big-endian give a 16-bit value |
| DnsWire.Uint16RoundTrip | src/modules/analyzer/analyzer_dns.c:145-148 | reading a written 16-bit value gives it back |
| DnsWire.Uint16Decode | src/modules/analyzer/analyzer_dns.c:145-148 | every two bytes are the encoding of the value read from them |
| DnsWire.Uint32RoundTrip | src/modules/analyzer/analyzer_dns.c:150-153 | reading a written 32-bit value gives it back |
| DnsWire.Uint32Decode | src/modules/analyzer/analyzer_dns.c:150-153 | every four bytes are the encoding of the value read from them |
| DnsWire.CPointerOffsetValue | src/modules/analyzer/analyzer_dns.c:163-174 | where `char` is unsigned, or the second byte is below 0x80, the computed offset is the 14-bit offset; where `char` is signed and the second byte is 0x80 or more, it is 0xFF00 plus that byte |
| DnsWire.OffsetOfAsWritten | src/modules/analyzer/analyzer_dns.c:174 | the offset the as-written build takes is the one the C expression computes |
| DnsWire.StepAt | src/modules/analyzer/analyzer_dns.c:165-199 | one loop iteration that moves on finds a label of at most 63 bytes inside the message; a plain step moves forward; a pointer step needs the message base |
| DnsWire.WalkFuelMonotone | src/modules/analyzer/analyzer_dns.c:165-200 | a walk that ended within some number of iterations ends the same way with more |
| DnsWire.WalkBounds | src/modules/analyzer/analyzer_dns.c:165-200 | a finished walk found labels inside the message, and the cursor moved forward but not past the end |
| DnsWire.DivergesIffRuns | src/modules/analyzer/analyzer_dns.c:165-200 | a walk is cut short exactly when every iteration it is given moves on |
| DnsWire.NameFuelExact | src/modules/analyzer/analyzer_dns.c:165-200 | a walk cut short after \|msg\|+1 iterations is cut short after any number, so the decoder's "diverges" outcome is exactly the C loop not ending |
| DnsWire.ParseName | src/modules/analyzer/analyzer_dns.c:155-255 | a decoded name is NUL-terminated and non-empty, and the cursor moves forward but not past the end |
| DnsWire.ParseNameFirstByte | src/modules/analyzer/analyzer_dns.c:164-246 | decoding ends as the first length byte dictates: past the end, root name, bad length tag, label past the end, pointer without a base, pointer target past the end, pointer to a pointer |
| DnsWire.NameLayout | src/modules/analyzer/analyzer_dns.c:203-246 | the name built by the copy loop is the labels joined by dots and NUL-terminated, and fills exactly the allocated sum of (length + 1) |
| DnsWire.ParseUncompressedName | src/modules/analyzer/analyzer_dns.c:155-255 | decoding an encoded uncompressed name gives its labels joined by dots and moves the cursor past it |
| DnsWire.ParseCompressedName | src/modules/analyzer/analyzer_dns.c:155-255 | labels followed by a pointer to an encoded name decode to all labels in order, and the cursor stops right after the pointer |
| DnsWire.SelfPointerName | src/modules/analyzer/analyzer_dns.c:165-200 | a label followed by a pointer back to it makes the decoder loop for ever |
| DnsWire.PointerToZeroByte | src/modules/analyzer/analyzer_dns.c:179-199 | as written, a pointer to a zero byte gives a name with an empty label and a label from outside the name |
| DnsWire.RepairedPointerToZeroByte | src/modules/analyzer/analyzer_dns.c:179-199 | repaired, a pointer to a zero byte ends the name |
| DnsWire.RootNameFaults | src/modules/analyzer/analyzer_dns.c:203-246 | as written, the root name allocates zero bytes and writes before them |
| DnsWire.RepairedRootName | src/modules/analyzer/analyzer_dns.c:203-252 | repaired, the root name is the empty name and the cursor moves past its zero byte |
| DnsWire.PointerToEnd | src/modules/analyzer/analyzer_dns.c:175-180 | a pointer whose offset equals the message length passes the bound check and reads past the end as written; repaired, it is invalid |
| DnsWire.SignedPointerRejected | src/modules/analyzer/analyzer_dns.c:163-178 | where `char` is signed, a name whose pointer's low byte is 0x80 or more is rejected in any message shorter than 0xFF80 bytes |
| DnsWire.RepairedWalkNeverFaults | src/modules/analyzer/analyzer_dns.c:165-200 | repaired, a walk against the message base never has undefined behaviour |
| DnsWire.RepairedNeverFaults | src/modules/analyzer/analyzer_dns.c:155-255 | repaired, decoding a name against the message base yields a name, an invalid message, or a cycle |
| DnsRecords.ParseQuestion | src/modules/analyzer/analyzer_dns.c:257-277 | a parsed question ends at least four bytes after its start and inside the message |
| DnsRecords.QuestionOutcome | src/modules/analyzer/analyzer_dns.c:257-277 | a question parses exactly when its name does and four bytes follow; a name error is passed on; otherwise it is invalid |
| DnsRecords.QuestionPointerFaults | src/modules/analyzer/analyzer_dns.c:259 | a question name starting with a pointer dereferences the null message base |
| DnsRecords.QuestionRoundTrip | src/modules/analyzer/analyzer_dns.c:257-277 | an encoded question parses back to its name, type and class, and the cursor moves past it |
| DnsRecords.ParseRR | src/modules/analyzer/analyzer_dns.c:279-307 | a parsed record header ends at least ten bytes after its start and inside the message |
| DnsRecords.RROutcome | src/modules/analyzer/analyzer_dns.c:279-307 | a record header parses exactly when its name does and ten bytes follow; a name error is passed on |
| DnsRecords.FixedRoundTrip | src/modules/analyzer/analyzer_dns.c:291-301 | the ten fixed bytes read back as the type, class, TTL and data length written |
| DnsRecords.RRRoundTrip | src/modules/analyzer/analyzer_dns.c:279-307 | an encoded record header parses back to its name and fixed fields |
| DnsRecords.RecordValueShape | src/modules/analyzer/analyzer_dns.c:377-513 | only A, AAAA, CNAME, PTR and MX give a value, each of its own kind; too-short A, AAAA and MX data is invalid; an address is the leading data bytes |
| DnsRecords.ReadRecord | src/modules/analyzer/analyzer_dns.c:345-516 | a record read ends at least ten bytes after its start and inside the message |
| DnsRecords.ReadRecordOutcome | src/modules/analyzer/analyzer_dns.c:345-516 | a record fails exactly when its header fails, its data runs past the message, or its value fails; otherwise it emits the event for its value and moves past its data |
| DnsRecords.RootOwnerFaults | src/modules/analyzer/analyzer_dns.c:281 | as written, a record owned by the root name, as every EDNS0 OPT record is, is undefined behaviour |
| DnsRecords.LoopBounded | src/modules/analyzer/analyzer_dns.c:345-526 | the loop emits at most one event per record |
| DnsRecords.LoopStopsAtError | src/modules/analyzer/analyzer_dns.c:347-354 | an error in a record ends the loop with that error and no event from that record |
| DnsRecords.LoopPrefix | src/modules/analyzer/analyzer_dns.c:345-526 | reading more records never takes back an event, and a loop that stopped on an error stops there however many records are announced |
| DnsRecords.DataRoundTrip | src/modules/analyzer/analyzer_dns.c:377-513 | the encoded data of a record decodes to the value it encodes |
| DnsRecords.RecordRoundTrip | src/modules/analyzer/analyzer_dns.c:345-516 | a whole encoded record reads back as its event and moves past it |
| DnsRecords.RecordsRoundTrip | src/modules/analyzer/analyzer_dns.c:345-528 | the loop over encoded records emits, in order, the event of each record of a reported type and ends without error |
| DnsRecords.MessageOfParts | src/modules/analyzer/analyzer_dns.c:328-345 | a question that parses hands the record loop the position after it and the sum of the three counts |
| DnsRecords.MessageRoundTrip | src/modules/analyzer/analyzer_dns.c:310-529 | a message body of a question followed by records, split over the three counts, emits the events of the records in order and ends without error |

## Left out

- Locks and concurrency: every mutex is dropped; the model is single-threaded.
- Allocation failures: `malloc`, `realloc`, `packet_pool_get` and `packet_clone` returning NULL (src/packet.c:56-60, 97-101, 405-409, 420-424, 477-489, 515-519, 742-765, 978-982; src/modules/analyzer/analyzer_dns.c:203-207) and a failing mutex initialisation (src/packet.c:531-534) are not modelled.
- Stream.Process: the null-argument check returning POM_ERR (src/packet.c:645-646) is not modelled; stream, packet and stack are always present.
- Stream.Process: on the trim-error path (src/packet.c:687-688) the C returns POM_ERR without unlocking the stream; the model returns POM_ERR and, having no locks, does not show the lock left held.
- Stream.RepairedDrainReachesEnd: when a full buffer forces out a head that ends before the cursor, the repaired cursor goes back to that end; the source leaves overflow handling open (the FIXME at src/packet.c:816), so no monotone cursor is promised.
- Stream.Process: `cur_buff_size` is an unbounded counter; the C's 32-bit field could wrap, and the "FIXME handle buffer overflow" (src/packet.c:816) is not modelled either.
- Stream: the pool references held by queued clones and the release of their `packet_info` records (src/packet.c:721-726) are not tracked; only the null stack read on a segment without payload is kept as a fault.
- Stream: CT_DIR_FWD is taken to be 0 and CT_DIR_REV to be 1; the conntrack header that defines them is not part of this model.
- The cleanup functions (`packet_pool_cleanup`, `packet_info_pool_cleanup`, `packet_multipart_cleanup`, `packet_stream_cleanup`, `packet_stream_parser_cleanup`) only free memory and are not modelled; PacketPool.Release returns the detached reassembly instead of cleaning it up.
- Multipart.Process: the hand-off to `core_process_multi_packet` and its result (src/packet.c:498-509) are not modelled.
- InfoPool.Get: the field values are not modelled; a failure to build one is the `buildOk` parameter.
- LineParser.GetLine: the `max_line_size` warning (src/packet.c:988-993) only logs and is not modelled.
- DnsRecords.ProcessMessage: the `event_has_listener` early return (src/modules/analyzer/analyzer_dns.c:316-317) is not modelled; the analyzer always has a listener.
- DnsRecords.ProcessMessage: `event_alloc` and `event_process` failures (src/modules/analyzer/analyzer_dns.c:361-365, 523-524) are not modelled.
- DnsRecords.RecordValue: `ptype_alloc` and `data_item_add_ptype` failures, which silently drop the event (src/modules/analyzer/analyzer_dns.c:387-394, 408-415, 431-440, 456-465, 478-487, 499-508), are not modelled.
- DnsRecords.ProcessMessage: the three counts come from the DNS header fields decoded by another protocol module, and are parameters here.
- DnsRecords.ParseQuestion: records and questions are decoded with the as-written name decoder for a signed `char` (x86), `DnsRecords.DECODER`; the repaired decoder is stated and proved in DnsWire only.
- DnsWire.ParseName: the Fault outcome for a read at or past the end of the message stands for undefined behaviour; what the C would actually read there is not modelled.

## Findings

| source | as written | input that shows it | evidently intended | confidence | as-written member | corrected member |
|---|---|---|---|---|---|---|
| src/packet.c:856 | the old-duplicate test is given the pass number `i` as the direction | reverse cursor 100, forward cursor 0, reverse queue holding bytes 90-95: get_next over the reverse direction returns nothing for ever | test against the direction being scanned | high, not executed | Stream.StaleHeadStuck | Stream.RepairedGetNextCompletes |
| src/packet.c:858-902 | freeing the last queued old duplicate leaves `res` pointing at it, and it is then dequeued | forward cursor 100, only bytes 90-95 queued | end the pass when the queue runs empty | high, not executed | Stream.LastDupeDangles | Stream.RepairedScanCompletes |
| src/packet.c:721-766 | a segment without payload is queued with a null stack and packet, and draining it reads `p->stack[i]` | forward cursor 100, a pure acknowledgement queued at 110, then bytes 100-110 arrive | skip the stack and packet release for a segment without them | high, not executed | Stream.EmptySegmentFaults | Stream.RepairedNeverFaults |
| src/packet.c:728 | the cursor moves by the queued length, which trimming does not shorten | forward cursor 100, bytes 105-115 queued, bytes 100-110 arrive: the cursor ends at 120 | put the cursor at the end of the bytes handed over | high, not executed | Stream.DrainOvershoots | Stream.RepairedDrainReachesEnd |
| src/packet.c:669-688 | the arriving packet is wrapped with slot index 0, so duplicate bytes are cut from slot 0 | forward cursor 100, stream slot 1 carrying bytes 95-105 | trim the stream slot and move the cursor to the packet's end | high, not executed | Stream.SlotZeroTrimmed | Stream.RepairedDeliversFromCursor |
| src/packet.c:974-1004 | a slice without '\n' copies `tmp_len` = 0 bytes into the buffer, so the start of a split line is lost | "BC" then "D\n" gives "D" | keep the partial line and join it with the next payload | high, not executed | LineParser.PartialLineLost | LineParser.FixedJoinsPayloads |
| src/packet.c:1025-1026 | the trailing-space loop tests the byte after the line | "A \n" gives "A " | test the line's last byte | high, not executed | LineParser.TrailingSpaceKept | LineParser.FixedTrailingSpace |
| src/packet.c:385-403 | the insertion scan starts at the tail and steps to `next`, so only the tail is compared | fragments 10-19 then 0-9 of a 20-byte payload: the second is dropped and processing writes past the buffer | scan back from the tail with `prev` and insert in offset order | high, not executed | Multipart.ArrivalOrderMatters | Multipart.ArrivalOrderIrrelevant |
| src/modules/analyzer/analyzer_dns.c:163-175 | pointer bytes are read through a plain `char`, so on signed-char targets a low byte of 0x80 or more sign-extends over the offset | labels then the pointer C0 80 to a name at offset 0x80, in a message shorter than 0xFF80 bytes: rejected as invalid | read the bytes as unsigned | high, not executed | DnsWire.SignedPointerRejected | DnsWire.ParseCompressedName |
| src/modules/analyzer/analyzer_dns.c:203-246 | the root name gives `malloc(0)` and a write one byte before it | the single byte 00, as in every EDNS0 OPT record | decode the root as the empty name | high, not executed | DnsWire.RootNameFaults | DnsWire.RepairedRootName |
| src/modules/analyzer/analyzer_dns.c:175 | the bound check `offset > msg_len` lets through an offset equal to the length, which is then read | the two-byte message C0 02 | reject `offset >= msg_len` | high, not executed | DnsWire.PointerToEnd | DnsWire.RepairedNeverFaults |
| src/modules/analyzer/analyzer_dns.c:179-199 | a pointer to a zero byte is taken as an empty label and decoding goes on after it | C0 02 00 01 61 00 gives ".a" | a pointer to a zero byte ends the name | medium, not executed | DnsWire.PointerToZeroByte | DnsWire.RepairedPointerToZeroByte |
