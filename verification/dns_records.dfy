/**
  The DNS analyzer's message walk: the question (section 4.1.2 of RFC 1035),
  the fixed part of each resource record (section 4.1.3) and the checks the
  record loop makes on RDLENGTH before it reads the record data of the five
  record types it reports.

  Positions are indices into the whole DNS message; `at` is where the
  question section starts and the end of the message is the end of the data
  the analyzer was given.
 */
module DnsRecords {
  import opened Common
  import opened DnsWire

  /** Record type codes (`ns_t_*`). */
  const TYPE_A: nat := 1
  const TYPE_CNAME: nat := 5
  const TYPE_PTR: nat := 12
  const TYPE_MX: nat := 15
  const TYPE_AAAA: nat := 28

  /** The name decoder as written, built for a platform whose plain `char`
      is signed (x86). */
  const DECODER: Build := AsWritten(true)

  /** QTYPE and QCLASS after a question name. */
  const QUESTION_FIXED: nat := 4
  /** TYPE, CLASS, TTL and RDLENGTH after a record name. */
  const RR_FIXED: nat := 10
  const IPV4_LEN: nat := 4
  const IPV6_LEN: nat := 16

  // ---------------------------------------------------------------------
  // Question
  // ---------------------------------------------------------------------

  datatype Question = Question(qname: seq<Byte>, qtype: nat, qclass: nat)

  /** A parsed question and the position right after it. */
  datatype AfterQuestion = AfterQuestion(question: Question, next: nat)

  /** `analyzer_dns_parse_question`.  The name is decoded without a message
      base (compression pointers cannot be followed), then four bytes must
      remain for QTYPE and QCLASS. */
  function ParseQuestion(msg: seq<Byte>, at: nat): (r: Outcome<AfterQuestion>)
    ensures r.Ok? ==> at + QUESTION_FIXED < r.value.next <= |msg|
  {
    match ParseName(DECODER, msg, false, at)
    case Fail(e) => Fail(e)
    case Ok(p) =>
      if |msg| - p.cursor < QUESTION_FIXED then Fail(Invalid)
      else Ok(AfterQuestion(Question(p.name, GetUint16(msg, p.cursor), GetUint16(msg, p.cursor + 2)),
                            p.cursor + QUESTION_FIXED))
  }

  /** The question parses exactly when its name does and four bytes follow
      the name; a failing name's error is passed on, a short tail is
      invalid. */
  lemma {:induction false} QuestionOutcome(msg: seq<Byte>, at: nat)
    ensures var n := ParseName(DECODER, msg, false, at);
            ParseQuestion(msg, at).Ok? <==> n.Ok? && n.value.cursor + QUESTION_FIXED <= |msg|
    ensures ParseName(DECODER, msg, false, at).Fail? ==> ParseQuestion(msg, at) == Fail(ParseName(DECODER, msg, false, at).error)
    ensures var n := ParseName(DECODER, msg, false, at);
            n.Ok? && n.value.cursor + QUESTION_FIXED > |msg| ==> ParseQuestion(msg, at) == Fail(Invalid)
    ensures var q := ParseQuestion(msg, at);
            q.Ok? ==> q.value.question.qname == ParseName(DECODER, msg, false, at).value.name
                      && q.value.next == ParseName(DECODER, msg, false, at).value.cursor + QUESTION_FIXED
  {
  }

  /** A question whose name starts with a compression pointer dereferences
      the null message base. */
  lemma {:induction false} QuestionPointerFaults(msg: seq<Byte>, at: nat)
    requires at + 1 < |msg| && msg[at] >= POINTER_TAG
    ensures ParseQuestion(msg, at) == Fail(Fault)
  {
    ParseNameFirstByte(DECODER, msg, false, at);
  }

  /** The wire form of a question with an uncompressed name. */
  function EncodeQuestion(texts: seq<seq<Byte>>, qtype: nat, qclass: nat): (r: seq<Byte>)
    requires ValidLabels(texts) && qtype < 0x1_0000 && qclass < 0x1_0000
  {
    EncodeName(texts) + (PutUint16(qtype) + PutUint16(qclass))
  }

  /** Parsing an encoded question gives back its name, type and class, and
      moves past the whole question. */
  lemma {:induction false} QuestionRoundTrip(msg: seq<Byte>, at: nat, texts: seq<seq<Byte>>, qtype: nat, qclass: nat)
    requires texts != [] && ValidLabels(texts) && qtype < 0x1_0000 && qclass < 0x1_0000
    requires Holds(msg, at, EncodeQuestion(texts, qtype, qclass))
    ensures ParseQuestion(msg, at)
            == Ok(AfterQuestion(Question(DottedName(texts), qtype, qclass), at + |EncodeName(texts)| + QUESTION_FIXED))
  {
    var c := at + |EncodeName(texts)|;
    QuestionLayout(msg, at, texts, qtype, qclass, c);
    ParseEncodedName(DECODER, msg, false, at, texts);
    ReadUint16(msg, c, qtype);
    ReadUint16(msg, c + 2, qclass);
    QuestionOfParts(msg, at, DottedName(texts), c, qtype, qclass);
  }

  /** An encoded question holds its name, then its type at `c`, then its class. */
  lemma {:induction false} QuestionLayout(msg: seq<Byte>, at: nat, texts: seq<seq<Byte>>, qtype: nat, qclass: nat, c: nat)
    requires ValidLabels(texts) && qtype < 0x1_0000 && qclass < 0x1_0000
    requires Holds(msg, at, EncodeQuestion(texts, qtype, qclass)) && c == at + |EncodeName(texts)|
    ensures Holds(msg, at, EncodeName(texts)) && Holds(msg, c, PutUint16(qtype)) && Holds(msg, c + 2, PutUint16(qclass))
  {
    HoldsSplit(msg, at, EncodeName(texts), PutUint16(qtype) + PutUint16(qclass));
    HoldsSplit(msg, c, PutUint16(qtype), PutUint16(qclass));
  }

  /** The question from its decoded name and the two fields after it. */
  lemma {:induction false} QuestionOfParts(msg: seq<Byte>, at: nat, name: seq<Byte>, c: nat, qtype: nat, qclass: nat)
    requires ParseName(DECODER, msg, false, at) == Ok(Parsed(name, c)) && c + QUESTION_FIXED <= |msg|
    requires GetUint16(msg, c) == qtype && GetUint16(msg, c + 2) == qclass
    ensures ParseQuestion(msg, at) == Ok(AfterQuestion(Question(name, qtype, qclass), c + QUESTION_FIXED))
  {
  }

  // ---------------------------------------------------------------------
  // Resource records
  // ---------------------------------------------------------------------

  /** The fixed part of a resource record; `rdata` is where its data starts. */
  datatype RRHeader = RRHeader(name: seq<Byte>, rtype: nat, cls: nat, ttl: U32, rdlen: nat, rdata: nat)

  /** `analyzer_dns_parse_rr`: the name (compression allowed), then ten
      bytes must remain for TYPE, CLASS, TTL and RDLENGTH. */
  function ParseRR(msg: seq<Byte>, at: nat): (r: Outcome<RRHeader>)
    ensures r.Ok? ==> at + RR_FIXED < r.value.rdata <= |msg|
  {
    match ParseName(DECODER, msg, true, at)
    case Fail(e) => Fail(e)
    case Ok(p) =>
      if |msg| - p.cursor < RR_FIXED then Fail(Invalid)
      else
        var c := p.cursor;
        Ok(RRHeader(p.name, GetUint16(msg, c), GetUint16(msg, c + 2), GetUint32(msg, c + 4),
                    GetUint16(msg, c + 8), c + RR_FIXED))
  }

  /** The record header parses exactly when its name does and ten bytes
      follow the name; the data starts right after those ten bytes. */
  lemma {:induction false} RROutcome(msg: seq<Byte>, at: nat)
    ensures var n := ParseName(DECODER, msg, true, at);
            ParseRR(msg, at).Ok? <==> n.Ok? && n.value.cursor + RR_FIXED <= |msg|
    ensures ParseName(DECODER, msg, true, at).Fail? ==> ParseRR(msg, at) == Fail(ParseName(DECODER, msg, true, at).error)
    ensures var n := ParseName(DECODER, msg, true, at);
            n.Ok? && n.value.cursor + RR_FIXED > |msg| ==> ParseRR(msg, at) == Fail(Invalid)
    ensures var h := ParseRR(msg, at);
            h.Ok? ==> h.value.name == ParseName(DECODER, msg, true, at).value.name
                      && h.value.rdata == ParseName(DECODER, msg, true, at).value.cursor + RR_FIXED
  {
  }

  /** The ten fixed bytes of a record. */
  function EncodeFixed(rtype: nat, cls: nat, ttl: U32, rdlen: nat): (r: seq<Byte>)
    requires rtype < 0x1_0000 && cls < 0x1_0000 && rdlen < 0x1_0000
    ensures |r| == RR_FIXED
  {
    PutUint16(rtype) + (PutUint16(cls) + (PutUint32(ttl) + PutUint16(rdlen)))
  }

  /** The fixed bytes read back as the values written. */
  lemma {:induction false} FixedRoundTrip(msg: seq<Byte>, c: nat, rtype: nat, cls: nat, ttl: U32, rdlen: nat)
    requires rtype < 0x1_0000 && cls < 0x1_0000 && rdlen < 0x1_0000
    requires Holds(msg, c, EncodeFixed(rtype, cls, ttl, rdlen))
    ensures c + RR_FIXED <= |msg|
    ensures GetUint16(msg, c) == rtype && GetUint16(msg, c + 2) == cls
    ensures GetUint32(msg, c + 4) == ttl && GetUint16(msg, c + 8) == rdlen
  {
    HoldsSplit(msg, c, PutUint16(rtype), PutUint16(cls) + (PutUint32(ttl) + PutUint16(rdlen)));
    HoldsSplit(msg, c + 2, PutUint16(cls), PutUint32(ttl) + PutUint16(rdlen));
    HoldsSplit(msg, c + 4, PutUint32(ttl), PutUint16(rdlen));
    ReadUint16(msg, c, rtype);
    ReadUint16(msg, c + 2, cls);
    ReadUint32(msg, c + 4, ttl);
    ReadUint16(msg, c + 8, rdlen);
  }

  /** Parsing a record header with an uncompressed name gives back the name
      and the fixed fields, and puts the data right after them. */
  lemma {:induction false} RRRoundTrip(msg: seq<Byte>, at: nat, texts: seq<seq<Byte>>,
                                       rtype: nat, cls: nat, ttl: U32, rdlen: nat)
    requires texts != [] && ValidLabels(texts)
    requires rtype < 0x1_0000 && cls < 0x1_0000 && rdlen < 0x1_0000
    requires Holds(msg, at, EncodeName(texts) + EncodeFixed(rtype, cls, ttl, rdlen))
    ensures ParseRR(msg, at)
            == Ok(RRHeader(DottedName(texts), rtype, cls, ttl, rdlen, at + |EncodeName(texts)| + RR_FIXED))
  {
    var c := at + |EncodeName(texts)|;
    HoldsSplit(msg, at, EncodeName(texts), EncodeFixed(rtype, cls, ttl, rdlen));
    ParseEncodedName(DECODER, msg, true, at, texts);
    FixedRoundTrip(msg, c, rtype, cls, ttl, rdlen);
    RROfParts(msg, at, DottedName(texts), c, rtype, cls, ttl, rdlen);
  }

  /** The record header from its decoded name and the fixed fields after it. */
  lemma {:induction false} RROfParts(msg: seq<Byte>, at: nat, name: seq<Byte>, c: nat,
                                     rtype: nat, cls: nat, ttl: U32, rdlen: nat)
    requires ParseName(DECODER, msg, true, at) == Ok(Parsed(name, c)) && c + RR_FIXED <= |msg|
    requires GetUint16(msg, c) == rtype && GetUint16(msg, c + 2) == cls
    requires GetUint32(msg, c + 4) == ttl && GetUint16(msg, c + 8) == rdlen
    ensures ParseRR(msg, at) == Ok(RRHeader(name, rtype, cls, ttl, rdlen, c + RR_FIXED))
  {
  }

  // ---------------------------------------------------------------------
  // Record data
  // ---------------------------------------------------------------------

  /** The value the analyzer reports for a record of one of its five types. */
  datatype RData =
    | A(addr: seq<Byte>)
    | AAAA(addr: seq<Byte>)
    | CName(target: seq<Byte>)
    | Ptr(target: seq<Byte>)
    | Mx(preference: nat, exchange: seq<Byte>)

  /** One `dns_record` event. */
  datatype Record = Record(name: seq<Byte>, rtype: nat, cls: nat, ttl: U32, value: RData)

  /** The `switch (rr.type)` of the record loop, once RDLENGTH is known to fit
      in the remaining data: an A or AAAA record needs room for its address
      and an MX record for its preference (else invalid); CNAME, PTR and the
      MX exchange are names decoded from the data, whose errors are passed
      on; other types are not reported. */
  function RecordValue(msg: seq<Byte>, h: RRHeader): (r: Outcome<Option<RData>>)
    requires h.rdata + h.rdlen <= |msg|
  {
    if h.rtype == TYPE_A then
      if h.rdlen < IPV4_LEN then Fail(Invalid) else Ok(Some(A(msg[h.rdata..h.rdata + IPV4_LEN])))
    else if h.rtype == TYPE_AAAA then
      if h.rdlen < IPV6_LEN then Fail(Invalid) else Ok(Some(AAAA(msg[h.rdata..h.rdata + IPV6_LEN])))
    else if h.rtype == TYPE_CNAME || h.rtype == TYPE_PTR then
      match ParseName(DECODER, msg, true, h.rdata)
      case Fail(e) => Fail(e)
      case Ok(p) => Ok(Some(if h.rtype == TYPE_CNAME then CName(p.name) else Ptr(p.name)))
    else if h.rtype == TYPE_MX then
      if h.rdlen < 2 * 2 then Fail(Invalid)
      else
        match ParseName(DECODER, msg, true, h.rdata + 2)
        case Fail(e) => Fail(e)
        case Ok(p) => Ok(Some(Mx(GetUint16(msg, h.rdata), p.name)))
    else Ok(None)
  }

  /** Only the five reported types give a value, and each value has the
      shape its type calls for; the RDLENGTH minimums are exactly the
      invalid cases that do not involve a name. */
  lemma {:induction false} RecordValueShape(msg: seq<Byte>, h: RRHeader)
    requires h.rdata + h.rdlen <= |msg|
    ensures var v := RecordValue(msg, h);
            v.Ok? && v.value.Some? ==>
              (v.value.value.A? <==> h.rtype == TYPE_A) && (v.value.value.AAAA? <==> h.rtype == TYPE_AAAA)
              && (v.value.value.CName? <==> h.rtype == TYPE_CNAME) && (v.value.value.Ptr? <==> h.rtype == TYPE_PTR)
              && (v.value.value.Mx? <==> h.rtype == TYPE_MX)
    ensures RecordValue(msg, h) == Ok(None)
            <==> h.rtype !in {TYPE_A, TYPE_AAAA, TYPE_CNAME, TYPE_PTR, TYPE_MX}
    ensures h.rtype == TYPE_A ==> (RecordValue(msg, h) == Fail(Invalid) <==> h.rdlen < IPV4_LEN)
    ensures h.rtype == TYPE_AAAA ==> (RecordValue(msg, h) == Fail(Invalid) <==> h.rdlen < IPV6_LEN)
    ensures h.rtype == TYPE_MX && h.rdlen < 4 ==> RecordValue(msg, h) == Fail(Invalid)
    ensures var v := RecordValue(msg, h);
            v.Ok? && v.value.Some? && (v.value.value.A? || v.value.value.AAAA?) ==>
              v.value.value.addr == msg[h.rdata..h.rdata + |v.value.value.addr|]
              && |v.value.value.addr| <= h.rdlen
  {
  }

  // ---------------------------------------------------------------------
  // The record loop
  // ---------------------------------------------------------------------

  /** What the record loop produced: the events it emitted, in order, and
      how it ended (`None` for PROTO_OK).  Events emitted before an error
      stay emitted. */
  datatype Processed = Processed(records: seq<Record>, status: Option<DnsError>)

  /** The event for a record, if its type is reported. */
  function Emit(h: RRHeader, v: Option<RData>): (r: Option<Record>)
    ensures r.Some? <==> v.Some?
    ensures r.Some? ==> r.value.name == h.name && r.value.rtype == h.rtype && r.value.value == v.value
  {
    match v
    case None => None
    case Some(d) => Some(Record(h.name, h.rtype, h.cls, h.ttl, d))
  }

  /** Zero or one event as a list. */
  function Events(e: Option<Record>): (r: seq<Record>)
    ensures |r| <= 1 && (e.Some? ==> r == [e.value])
  {
    if e.Some? then [e.value] else []
  }

  /** One record read by the loop: the event it reports (if any) and where
      the next record starts. */
  datatype RecordRead = RecordRead(event: Option<Record>, next: nat)

  /** One turn of the loop of `analyzer_dns_proto_packet_process`: parse the
      header, reject an RDLENGTH longer than the remaining data, decode the
      value, and skip exactly RDLENGTH bytes. */
  function ReadRecord(msg: seq<Byte>, at: nat): (r: Outcome<RecordRead>)
    ensures r.Ok? ==> at + RR_FIXED < r.value.next <= |msg|
  {
    match ParseRR(msg, at)
    case Fail(e) => Fail(e)
    case Ok(h) =>
      if h.rdlen > |msg| - h.rdata then Fail(Invalid)
      else
        match RecordValue(msg, h)
        case Fail(e) => Fail(e)
        case Ok(v) => Ok(RecordRead(Emit(h, v), h.rdata + h.rdlen))
  }

  /** The loop itself, over `count` records from `at`, for a given way of
      reading one record: it stops at the first error. */
  function Loop(read: nat -> Outcome<RecordRead>, at: nat, count: nat): (r: Processed)
    decreases count
  {
    if count == 0 then Processed([], None)
    else
      match read(at)
      case Fail(e) => Processed([], Some(e))
      case Ok(s) =>
        var rest := Loop(read, s.next, count - 1);
        Processed(Events(s.event) + rest.records, rest.status)
  }

  /** Reading one record of `msg`, as a function of where it starts. */
  function Reader(msg: seq<Byte>): nat -> Outcome<RecordRead>
  {
    (a: nat) => ReadRecord(msg, a)
  }

  /** The record loop over `count` records starting at `at`. */
  function ProcessRecords(msg: seq<Byte>, at: nat, count: nat): Processed
  {
    Loop(Reader(msg), at, count)
  }

  /** The whole message: the question, then ANCOUNT + NSCOUNT + ARCOUNT
      records.  The question itself is not reported. */
  function ProcessMessage(msg: seq<Byte>, at: nat, ancount: nat, nscount: nat, arcount: nat): Processed
  {
    match ParseQuestion(msg, at)
    case Fail(e) => Processed([], Some(e))
    case Ok(q) => ProcessRecords(msg, q.next, ancount + nscount + arcount)
  }

  /** The loop reports at most one event per record. */
  lemma {:induction false} LoopBounded(read: nat -> Outcome<RecordRead>, at: nat, count: nat)
    decreases count
    ensures |Loop(read, at, count).records| <= count
  {
    if count > 0 && read(at).Ok? {
      LoopBounded(read, read(at).value.next, count - 1);
    }
  }

  /** A turn that succeeds puts its event in front of those of the remaining
      records, read from where it left off. */
  lemma {:induction false} LoopStep(read: nat -> Outcome<RecordRead>, at: nat, count: nat, s: RecordRead)
    requires count > 0 && read(at) == Ok(s)
    ensures var rest := Loop(read, s.next, count - 1);
            Loop(read, at, count) == Processed(Events(s.event) + rest.records, rest.status)
  {
  }

  /** `LoopStep` for the record loop of a message. */
  lemma {:induction false} RecordsStep(msg: seq<Byte>, at: nat, count: nat, s: RecordRead)
    requires count > 0 && ReadRecord(msg, at) == Ok(s)
    ensures var rest := ProcessRecords(msg, s.next, count - 1);
            ProcessRecords(msg, at, count) == Processed(Events(s.event) + rest.records, rest.status)
  {
    LoopStep(Reader(msg), at, count, s);
  }

  /** An error in a turn ends the loop there, with that error and no event
      for the failing record. */
  lemma {:induction false} LoopStopsAtError(read: nat -> Outcome<RecordRead>, at: nat, count: nat)
    requires count > 0 && read(at).Fail?
    ensures Loop(read, at, count) == Processed([], Some(read(at).error))
  {
  }

  /** Reading more records never takes back an event: the events for the
      first `count` records are a prefix of those for `more >= count`, and
      a loop that stopped on an error stops the same way however many
      records were announced. */
  lemma {:induction false} LoopPrefix(read: nat -> Outcome<RecordRead>, at: nat, count: nat, more: nat)
    requires count <= more
    decreases count
    ensures Loop(read, at, count).records <= Loop(read, at, more).records
    ensures Loop(read, at, count).status.Some? ==> Loop(read, at, more) == Loop(read, at, count)
  {
    if count > 0 && read(at).Ok? {
      LoopPrefix(read, read(at).value.next, count - 1, more - 1);
    }
  }

  /** A turn of the loop from its header and value. */
  lemma {:induction false} ReadRecordOfParts(msg: seq<Byte>, at: nat, h: RRHeader, v: Option<RData>)
    requires ParseRR(msg, at) == Ok(h) && h.rdlen <= |msg| - h.rdata && RecordValue(msg, h) == Ok(v)
    ensures ReadRecord(msg, at) == Ok(RecordRead(Emit(h, v), h.rdata + h.rdlen))
  {
  }

  /** A turn of the loop fails exactly when the header fails, RDLENGTH runs
      past the data (invalid), or the value fails; otherwise the next record
      is read exactly RDLENGTH bytes after the data of this one, whatever the
      data holds (a CNAME's name may be shorter). */
  lemma {:induction false} ReadRecordOutcome(msg: seq<Byte>, at: nat)
    ensures ParseRR(msg, at).Fail? ==> ReadRecord(msg, at) == Fail(ParseRR(msg, at).error)
    ensures var h := ParseRR(msg, at);
            h.Ok? && h.value.rdlen > |msg| - h.value.rdata ==> ReadRecord(msg, at) == Fail(Invalid)
    ensures var h := ParseRR(msg, at);
            h.Ok? && h.value.rdlen <= |msg| - h.value.rdata ==>
              (RecordValue(msg, h.value).Fail? ==> ReadRecord(msg, at) == Fail(RecordValue(msg, h.value).error))
              && (RecordValue(msg, h.value).Ok? ==>
                    ReadRecord(msg, at) == Ok(RecordRead(Emit(h.value, RecordValue(msg, h.value).value),
                                                         h.value.rdata + h.value.rdlen)))
  {
  }

  /** A record whose owner is the root, as every EDNS0 OPT record's is,
      stops the message with the decoder's fault. */
  lemma {:induction false} RootOwnerFaults(msg: seq<Byte>, at: nat)
    requires at < |msg| && msg[at] == NUL
    ensures ReadRecord(msg, at) == Fail(Fault)
  {
    RootNameFaults(true, msg, true, at);
  }

  // ---------------------------------------------------------------------
  // Encoded records
  // ---------------------------------------------------------------------

  /** Record data as written on the wire: a value of a reported type, or
      opaque data of another type. */
  datatype WireData =
    | WireA(addr: seq<Byte>)
    | WireAAAA(addr: seq<Byte>)
    | WireCName(target: seq<seq<Byte>>)
    | WirePtr(target: seq<seq<Byte>>)
    | WireMx(preference: nat, exchange: seq<seq<Byte>>)
    | WireOther(rtype: nat, bytes: seq<Byte>)

  /** A record to encode: owner name as labels, class, TTL and data. */
  datatype WireRecord = WireRecord(owner: seq<seq<Byte>>, cls: nat, ttl: U32, data: WireData)

  predicate ValidData(d: WireData)
  {
    match d
    case WireA(addr) => |addr| == IPV4_LEN
    case WireAAAA(addr) => |addr| == IPV6_LEN
    case WireCName(t) => t != [] && ValidLabels(t) && LabelSpace(t) + 1 < 0x1_0000
    case WirePtr(t) => t != [] && ValidLabels(t) && LabelSpace(t) + 1 < 0x1_0000
    case WireMx(pref, t) => pref < 0x1_0000 && t != [] && ValidLabels(t) && LabelSpace(t) + 3 < 0x1_0000
    case WireOther(rtype, bytes) =>
      rtype < 0x1_0000 && rtype !in {TYPE_A, TYPE_AAAA, TYPE_CNAME, TYPE_PTR, TYPE_MX} && |bytes| < 0x1_0000
  }

  predicate ValidRecord(w: WireRecord)
  {
    w.owner != [] && ValidLabels(w.owner) && w.cls < 0x1_0000 && ValidData(w.data)
  }

  function TypeOf(d: WireData): (r: nat)
    ensures r < 0x1_0000 || d.WireOther?
  {
    match d
    case WireA(_) => TYPE_A
    case WireAAAA(_) => TYPE_AAAA
    case WireCName(_) => TYPE_CNAME
    case WirePtr(_) => TYPE_PTR
    case WireMx(_, _) => TYPE_MX
    case WireOther(t, _) => t
  }

  /** The RDATA bytes of a record. */
  function EncodeData(d: WireData): (r: seq<Byte>)
    requires ValidData(d)
    ensures |r| < 0x1_0000
  {
    match d
    case WireA(addr) => addr
    case WireAAAA(addr) => addr
    case WireCName(t) => EncodeName(t)
    case WirePtr(t) => EncodeName(t)
    case WireMx(pref, t) => PutUint16(pref) + EncodeName(t)
    case WireOther(_, bytes) => bytes
  }

  /** The wire form of a record: owner name, fixed part, data. */
  function EncodeRecord(w: WireRecord): seq<Byte>
    requires ValidRecord(w)
  {
    var data := EncodeData(w.data);
    EncodeName(w.owner) + (EncodeFixed(TypeOf(w.data), w.cls, w.ttl, |data|) + data)
  }

  /** What the analyzer reports for a record: one event, or none for a
      type it does not report. */
  function Reported(w: WireRecord): Option<Record>
    requires ValidRecord(w)
  {
    if w.data.WireOther? then None
    else Some(Record(DottedName(w.owner), TypeOf(w.data), w.cls, w.ttl, ValueOf(w.data)))
  }

  /** The value reported for encoded data, if its type is reported. */
  function Decoded(d: WireData): Option<RData>
    requires ValidData(d)
  {
    if d.WireOther? then None else Some(ValueOf(d))
  }

  /** `h` is the header of the encoded record `w`, whose data occurs at
      `h.rdata`. */
  predicate EncodedDataAt(msg: seq<Byte>, h: RRHeader, w: WireRecord)
  {
    && ValidRecord(w)
    && h == RRHeader(DottedName(w.owner), TypeOf(w.data), w.cls, w.ttl, |EncodeData(w.data)|, h.rdata)
    && Holds(msg, h.rdata, EncodeData(w.data))
  }

  /** The data of an encoded record decodes to the value it encodes. */
  lemma {:induction false} DataRoundTrip(msg: seq<Byte>, h: RRHeader, w: WireRecord)
    requires EncodedDataAt(msg, h, w)
    ensures h.rdata + h.rdlen <= |msg| && RecordValue(msg, h) == Ok(Decoded(w.data))
  {
    if w.data.WireA? || w.data.WireAAAA? {
      AddressRoundTrip(msg, h, w);
    } else if w.data.WireCName? || w.data.WirePtr? {
      TargetRoundTrip(msg, h, w);
    } else if w.data.WireMx? {
      MxRoundTrip(msg, h, w);
    } else {
      UnreportedOfParts(msg, h);
    }
  }

  lemma {:induction false} AddressRoundTrip(msg: seq<Byte>, h: RRHeader, w: WireRecord)
    requires EncodedDataAt(msg, h, w) && (w.data.WireA? || w.data.WireAAAA?)
    ensures h.rdata + h.rdlen <= |msg| && RecordValue(msg, h) == Ok(Decoded(w.data))
  {
    HoldsIsSlice(msg, h.rdata, w.data.addr);
    AddressOfParts(msg, h);
  }

  lemma {:induction false} TargetRoundTrip(msg: seq<Byte>, h: RRHeader, w: WireRecord)
    requires EncodedDataAt(msg, h, w) && (w.data.WireCName? || w.data.WirePtr?)
    ensures h.rdata + h.rdlen <= |msg| && RecordValue(msg, h) == Ok(Decoded(w.data))
  {
    var t := w.data.target;
    TargetShape(w);
    ParseEncodedName(DECODER, msg, true, h.rdata, t);
    TargetOfParts(msg, h, DottedName(t), h.rdata + |EncodeName(t)|);
  }

  lemma {:induction false} MxRoundTrip(msg: seq<Byte>, h: RRHeader, w: WireRecord)
    requires EncodedDataAt(msg, h, w) && w.data.WireMx?
    ensures h.rdata + h.rdlen <= |msg| && RecordValue(msg, h) == Ok(Decoded(w.data))
  {
    var pref, t := w.data.preference, w.data.exchange;
    MxShape(w);
    HoldsSplit(msg, h.rdata, PutUint16(pref), EncodeName(t));
    ReadUint16(msg, h.rdata, pref);
    ParseEncodedName(DECODER, msg, true, h.rdata + 2, t);
    MxOfParts(msg, h, pref, DottedName(t), h.rdata + 2 + |EncodeName(t)|);
  }

  lemma {:induction false} TargetShape(w: WireRecord)
    requires ValidRecord(w) && (w.data.WireCName? || w.data.WirePtr?)
    ensures EncodeData(w.data) == EncodeName(w.data.target)
    ensures TypeOf(w.data) == TYPE_CNAME || TypeOf(w.data) == TYPE_PTR
    ensures Decoded(w.data)
            == Some(if TypeOf(w.data) == TYPE_CNAME then CName(DottedName(w.data.target)) else Ptr(DottedName(w.data.target)))
  {
  }

  lemma {:induction false} MxShape(w: WireRecord)
    requires ValidRecord(w) && w.data.WireMx?
    ensures EncodeData(w.data) == PutUint16(w.data.preference) + EncodeName(w.data.exchange)
    ensures TypeOf(w.data) == TYPE_MX && |EncodeData(w.data)| >= 4
    ensures Decoded(w.data) == Some(Mx(w.data.preference, DottedName(w.data.exchange)))
  {
    LabelSpaceBound(w.data.exchange);
  }

  /** An A or AAAA record with room for its address reports the address. */
  lemma {:induction false} AddressOfParts(msg: seq<Byte>, h: RRHeader)
    requires h.rdata + h.rdlen <= |msg|
    requires (h.rtype == TYPE_A && h.rdlen == IPV4_LEN) || (h.rtype == TYPE_AAAA && h.rdlen == IPV6_LEN)
    ensures RecordValue(msg, h)
            == Ok(Some(if h.rtype == TYPE_A then A(msg[h.rdata..h.rdata + h.rdlen]) else AAAA(msg[h.rdata..h.rdata + h.rdlen])))
  {
  }

  /** A CNAME or PTR record reports the name decoded from its data. */
  lemma {:induction false} TargetOfParts(msg: seq<Byte>, h: RRHeader, name: seq<Byte>, c: nat)
    requires h.rdata + h.rdlen <= |msg| && (h.rtype == TYPE_CNAME || h.rtype == TYPE_PTR)
    requires ParseName(DECODER, msg, true, h.rdata) == Ok(Parsed(name, c))
    ensures RecordValue(msg, h) == Ok(Some(if h.rtype == TYPE_CNAME then CName(name) else Ptr(name)))
  {
  }

  /** An MX record reports its preference and the name after it. */
  lemma {:induction false} MxOfParts(msg: seq<Byte>, h: RRHeader, pref: nat, name: seq<Byte>, c: nat)
    requires h.rdata + h.rdlen <= |msg| && h.rtype == TYPE_MX && h.rdlen >= 4
    requires GetUint16(msg, h.rdata) == pref && ParseName(DECODER, msg, true, h.rdata + 2) == Ok(Parsed(name, c))
    ensures RecordValue(msg, h) == Ok(Some(Mx(pref, name)))
  {
  }

  /** A record of another type reports nothing. */
  lemma {:induction false} UnreportedOfParts(msg: seq<Byte>, h: RRHeader)
    requires h.rdata + h.rdlen <= |msg| && h.rtype !in {TYPE_A, TYPE_AAAA, TYPE_CNAME, TYPE_PTR, TYPE_MX}
    ensures RecordValue(msg, h) == Ok(None)
  {
  }

  /** The value reported for encoded data of a reported type. */
  function ValueOf(d: WireData): RData
    requires ValidData(d) && !d.WireOther?
  {
    match d
    case WireA(addr) => A(addr)
    case WireAAAA(addr) => AAAA(addr)
    case WireCName(t) => CName(DottedName(t))
    case WirePtr(t) => Ptr(DottedName(t))
    case WireMx(pref, t) => Mx(pref, DottedName(t))
  }

  /** A whole encoded record: the header reads back, the value is the one
      encoded, and the next record starts right after this one. */
  lemma {:induction false} RecordRoundTrip(msg: seq<Byte>, at: nat, w: WireRecord)
    requires ValidRecord(w) && Holds(msg, at, EncodeRecord(w))
    ensures ReadRecord(msg, at) == Ok(RecordRead(Reported(w), at + |EncodeRecord(w)|))
  {
    var h := HeaderOf(at, w);
    RecordParts(msg, at, w, h);
    RecordShape(at, w, h);
    ReadRecordOfParts(msg, at, h, Decoded(w.data));
  }

  /** The header an encoded record at `at` should read as. */
  function HeaderOf(at: nat, w: WireRecord): RRHeader
    requires ValidRecord(w)
  {
    RRHeader(DottedName(w.owner), TypeOf(w.data), w.cls, w.ttl, |EncodeData(w.data)|, at + |EncodeName(w.owner)| + RR_FIXED)
  }

  /** The header and the value of an encoded record read back. */
  lemma {:induction false} RecordParts(msg: seq<Byte>, at: nat, w: WireRecord, h: RRHeader)
    requires ValidRecord(w) && Holds(msg, at, EncodeRecord(w)) && h == HeaderOf(at, w)
    ensures ParseRR(msg, at) == Ok(h) && h.rdlen <= |msg| - h.rdata && RecordValue(msg, h) == Ok(Decoded(w.data))
  {
    RecordLayout(msg, at, w);
    DataRoundTrip(msg, h, w);
  }

  /** An encoded record's header reads back, and its data follows it. */
  lemma {:induction false} RecordLayout(msg: seq<Byte>, at: nat, w: WireRecord)
    requires ValidRecord(w) && Holds(msg, at, EncodeRecord(w))
    ensures ParseRR(msg, at) == Ok(HeaderOf(at, w)) && EncodedDataAt(msg, HeaderOf(at, w), w)
  {
    var data := EncodeData(w.data);
    var fixed := EncodeFixed(TypeOf(w.data), w.cls, w.ttl, |data|);
    RecordShape(at, w, HeaderOf(at, w));
    HoldsSplit(msg, at, EncodeName(w.owner) + fixed, data);
    RRRoundTrip(msg, at, w.owner, TypeOf(w.data), w.cls, w.ttl, |data|);
  }

  /** How an encoded record is laid out, and the event its header and
      decoded value make. */
  lemma {:induction false} RecordShape(at: nat, w: WireRecord, h: RRHeader)
    requires ValidRecord(w)
    requires h == RRHeader(DottedName(w.owner), TypeOf(w.data), w.cls, w.ttl, |EncodeData(w.data)|,
                           at + |EncodeName(w.owner)| + RR_FIXED)
    ensures EncodeName(w.owner) + EncodeFixed(TypeOf(w.data), w.cls, w.ttl, |EncodeData(w.data)|) + EncodeData(w.data)
            == EncodeRecord(w)
    ensures h.rdata + h.rdlen == at + |EncodeRecord(w)|
    ensures Emit(h, Decoded(w.data)) == Reported(w)
  {
    var data := EncodeData(w.data);
    var fixed := EncodeFixed(TypeOf(w.data), w.cls, w.ttl, |data|);
    assert EncodeName(w.owner) + fixed + data == EncodeName(w.owner) + (fixed + data);
  }

  /** Records written one after another. */
  function EncodeRecords(ws: seq<WireRecord>): seq<Byte>
    requires forall w | w in ws :: ValidRecord(w)
  {
    if ws == [] then [] else EncodeRecord(ws[0]) + EncodeRecords(ws[1..])
  }

  /** The events for records one after another. */
  function ReportedAll(ws: seq<WireRecord>): seq<Record>
    requires forall w | w in ws :: ValidRecord(w)
  {
    if ws == [] then [] else Events(Reported(ws[0])) + ReportedAll(ws[1..])
  }

  /** The record loop over encoded records reports each reported-type record
      once, in order, and ends without error. */
  lemma {:induction false} RecordsRoundTrip(msg: seq<Byte>, at: nat, ws: seq<WireRecord>)
    requires forall w | w in ws :: ValidRecord(w)
    requires Holds(msg, at, EncodeRecords(ws))
    decreases ws
    ensures ProcessRecords(msg, at, |ws|) == Processed(ReportedAll(ws), None)
  {
    if ws != [] {
      var next := at + |EncodeRecord(ws[0])|;
      RecordsHead(msg, at, ws);
      RecordsRoundTrip(msg, next, ws[1..]);
      RecordsCons(msg, at, ws, next);
    }
  }

  /** The first of several encoded records reads back, and the others
      follow it. */
  lemma {:induction false} RecordsHead(msg: seq<Byte>, at: nat, ws: seq<WireRecord>)
    requires ws != [] && forall w | w in ws :: ValidRecord(w)
    requires Holds(msg, at, EncodeRecords(ws))
    ensures ReadRecord(msg, at) == Ok(RecordRead(Reported(ws[0]), at + |EncodeRecord(ws[0])|))
    ensures Holds(msg, at + |EncodeRecord(ws[0])|, EncodeRecords(ws[1..]))
    ensures forall w | w in ws[1..] :: ValidRecord(w)
  {
    HoldsSplit(msg, at, EncodeRecord(ws[0]), EncodeRecords(ws[1..]));
    RecordRoundTrip(msg, at, ws[0]);
  }

  /** The first record read back followed by the others read back is the
      whole list read back. */
  lemma {:induction false} RecordsCons(msg: seq<Byte>, at: nat, ws: seq<WireRecord>, next: nat)
    requires ws != [] && forall w | w in ws :: ValidRecord(w)
    requires ReadRecord(msg, at) == Ok(RecordRead(Reported(ws[0]), next))
    requires ProcessRecords(msg, next, |ws[1..]|) == Processed(ReportedAll(ws[1..]), None)
    ensures ProcessRecords(msg, at, |ws|) == Processed(ReportedAll(ws), None)
  {
    RecordsStep(msg, at, |ws|, RecordRead(Reported(ws[0]), next));
  }

  /** A whole message body: a question followed by records, split over the
      answer, authority and additional sections in any way, yields exactly
      the events of those records. */
  lemma {:induction false} MessageRoundTrip(msg: seq<Byte>, at: nat, texts: seq<seq<Byte>>, qtype: nat, qclass: nat,
                                            ws: seq<WireRecord>, ancount: nat, nscount: nat, arcount: nat)
    requires texts != [] && ValidLabels(texts) && qtype < 0x1_0000 && qclass < 0x1_0000
    requires forall w | w in ws :: ValidRecord(w)
    requires ancount + nscount + arcount == |ws|
    requires Occurs(msg, at, EncodeQuestion(texts, qtype, qclass) + EncodeRecords(ws))
    ensures ProcessMessage(msg, at, ancount, nscount, arcount) == Processed(ReportedAll(ws), None)
  {
    var next := at + |EncodeName(texts)| + QUESTION_FIXED;
    QuestionThenRecords(msg, at, texts, qtype, qclass, ws, next);
    RecordsAfterQuestion(msg, at, next, ws, ancount, nscount, arcount);
  }

  /** The question of an encoded message body reads back, and its records
      follow right after it. */
  lemma {:induction false} QuestionThenRecords(msg: seq<Byte>, at: nat, texts: seq<seq<Byte>>, qtype: nat, qclass: nat,
                                               ws: seq<WireRecord>, next: nat)
    requires texts != [] && ValidLabels(texts) && qtype < 0x1_0000 && qclass < 0x1_0000
    requires forall w | w in ws :: ValidRecord(w)
    requires Occurs(msg, at, EncodeQuestion(texts, qtype, qclass) + EncodeRecords(ws))
    requires next == at + |EncodeName(texts)| + QUESTION_FIXED
    ensures ParseQuestion(msg, at).Ok? && ParseQuestion(msg, at).value.next == next
    ensures Holds(msg, next, EncodeRecords(ws))
  {
    var question, records := EncodeQuestion(texts, qtype, qclass), EncodeRecords(ws);
    OccursHolds(msg, at, question + records);
    HoldsSplit(msg, at, question, records);
    assert |question| == |EncodeName(texts)| + QUESTION_FIXED;
    QuestionRoundTrip(msg, at, texts, qtype, qclass);
  }

  /** After a question that parses, encoded records read back whichever
      sections they are counted in. */
  lemma {:induction false} RecordsAfterQuestion(msg: seq<Byte>, at: nat, next: nat, ws: seq<WireRecord>,
                                                ancount: nat, nscount: nat, arcount: nat)
    requires ParseQuestion(msg, at).Ok? && ParseQuestion(msg, at).value.next == next
    requires forall w | w in ws :: ValidRecord(w)
    requires Holds(msg, next, EncodeRecords(ws)) && ancount + nscount + arcount == |ws|
    ensures ProcessMessage(msg, at, ancount, nscount, arcount) == Processed(ReportedAll(ws), None)
  {
    RecordsRoundTrip(msg, next, ws);
    MessageOfParts(msg, at, ancount, nscount, arcount, next);
  }

  /** A question that parses hands the record loop the position after it. */
  lemma {:induction false} MessageOfParts(msg: seq<Byte>, at: nat, ancount: nat, nscount: nat, arcount: nat, next: nat)
    requires ParseQuestion(msg, at).Ok? && ParseQuestion(msg, at).value.next == next
    ensures ProcessMessage(msg, at, ancount, nscount, arcount) == ProcessRecords(msg, next, ancount + nscount + arcount)
  {
  }

  // ---------------------------------------------------------------------
  // Integers in the message
  // ---------------------------------------------------------------------

  lemma {:induction false} ReadUint16(msg: seq<Byte>, at: nat, v: nat)
    requires v < 0x1_0000 && Holds(msg, at, PutUint16(v))
    ensures at + 2 <= |msg| && GetUint16(msg, at) == v
  {
    var b := PutUint16(v);
    HoldsTail(msg, at, b, b[1..]);
    HoldsTail(msg, at + 1, b[1..], b[2..]);
    Uint16RoundTrip(v);
  }

  lemma {:induction false} ReadUint32(msg: seq<Byte>, at: nat, v: U32)
    requires Holds(msg, at, PutUint32(v))
    ensures at + 4 <= |msg| && GetUint32(msg, at) == v
  {
    var b := PutUint32(v);
    HoldsTail(msg, at, b, b[1..]);
    HoldsTail(msg, at + 1, b[1..], b[2..]);
    HoldsTail(msg, at + 2, b[2..], b[3..]);
    HoldsTail(msg, at + 3, b[3..], b[4..]);
    Uint32RoundTrip(v);
  }
}
