/**
  DNS wire-format primitives used by the DNS analyzer: big-endian integer
  reads (section 2.3.2 of RFC 1035) and domain-name decoding with label
  lengths of at most 63 (section 2.3.4) and compression pointers (section
  4.1.4).

  A message is the whole DNS payload as a byte sequence; positions are
  indices into it, and the end of the sequence is the C `msg_end`.
 */
module DnsWire {
  import opened Common

  /** How a DNS parse can fail.  `Invalid` is PROTO_INVALID.  `Fault` is a step
      whose C behaviour is undefined: a read past the end of the message, a
      dereference of the null message base, or a write before a zero-length
      name buffer.  `Diverges` is the decoder looping forever on a cyclic chain
      of labels and pointers. */
  datatype DnsError = Invalid | Fault | Diverges

  datatype Outcome<+T> = Ok(value: T) | Fail(error: DnsError)

  const MAX_LABEL_LEN: int := 63
  /** A length byte with both top bits set introduces a compression pointer. */
  const POINTER_TAG: int := 0xC0
  const DOT: Byte := 46
  const NUL: Byte := 0

  // ---------------------------------------------------------------------
  // Big-endian integers
  // ---------------------------------------------------------------------

  /** `analyzer_dns_get_uint16`: two bytes, most significant first. */
  function GetUint16(data: seq<Byte>, at: nat): (r: nat)
    requires at + 2 <= |data|
    ensures r < 0x1_0000
  {
    data[at] as int * 0x100 + data[at + 1] as int
  }

  /** `analyzer_dns_get_uint32`: four bytes, most significant first. */
  function GetUint32(data: seq<Byte>, at: nat): (r: U32)
    requires at + 4 <= |data|
  {
    data[at] as int * 0x100_0000 + data[at + 1] as int * 0x1_0000 + data[at + 2] as int * 0x100 + data[at + 3] as int
  }

  /** The network-order encoding of a 16-bit value. */
  function PutUint16(v: nat): (r: seq<Byte>)
    requires v < 0x1_0000
    ensures |r| == 2
  {
    [v / 0x100, v % 0x100]
  }

  /** The network-order encoding of a 32-bit value. */
  function PutUint32(v: U32): (r: seq<Byte>)
    ensures |r| == 4
  {
    [v / 0x100_0000, (v / 0x1_0000) % 0x100, (v / 0x100) % 0x100, v % 0x100]
  }

  /** Reading back a written 16-bit value gives the value. */
  lemma {:induction false} Uint16RoundTrip(v: nat)
    requires v < 0x1_0000
    ensures GetUint16(PutUint16(v), 0) == v
  {
  }

  /** Every two bytes are the encoding of the value read from them. */
  lemma {:induction false} Uint16Decode(data: seq<Byte>, at: nat)
    requires at + 2 <= |data|
    ensures PutUint16(GetUint16(data, at)) == data[at..at + 2]
  {
  }

  /** Reading back a written 32-bit value gives the value. */
  lemma {:induction false} Uint32RoundTrip(v: U32)
    ensures GetUint32(PutUint32(v), 0) == v
  {
    var b := PutUint32(v);
    assert v == (v / 0x100_0000) * 0x100_0000 + ((v / 0x1_0000) % 0x100) * 0x1_0000
                + ((v / 0x100) % 0x100) * 0x100 + v % 0x100;
  }

  /** Appending a byte below a number in base 256 is undone by `/` and `%`. */
  lemma {:induction false} ShiftByte(q: nat, b: Byte)
    ensures (q * 0x100 + b) / 0x100 == q && (q * 0x100 + b) % 0x100 == b
  {
  }

  /** Every four bytes are the encoding of the value read from them. */
  lemma {:induction false} Uint32Decode(data: seq<Byte>, at: nat)
    requires at + 4 <= |data|
    ensures PutUint32(GetUint32(data, at)) == data[at..at + 4]
  {
    var b0, b1, b2, b3 := data[at], data[at + 1], data[at + 2], data[at + 3];
    var hi: nat := b0 as int * 0x100 + b1 as int;
    var mid: nat := hi * 0x100 + b2 as int;
    var v := GetUint32(data, at);
    assert v == mid * 0x100 + b3;
    ShiftByte(mid, b3);
    ShiftByte(hi, b2);
    ShiftByte(b0, b1);
    assert v / 0x1_0000 == hi;
    assert v / 0x100_0000 == b0;
  }

  // ---------------------------------------------------------------------
  // Domain names
  // ---------------------------------------------------------------------

  /** A label found by the decoder: `len` bytes starting at `start`. */
  datatype Label = Label(start: nat, len: nat)

  /** Which decoder.  `AsWritten` is `analyzer_dns_parse_name` as written,
      compiled where a plain `char` is signed (as on x86) or unsigned (as on
      ARM); the two differ only in how a compression pointer's offset is
      computed.  `Repaired` is the decoder with the defects listed at the end
      of this module mended: the offset is the 14-bit one, every read is
      bounds-checked (a name running into the end of the message is invalid),
      a pointer to a zero byte ends the name, and the root name decodes to
      the empty name. */
  datatype Build = AsWritten(signedChar: bool) | Repaired

  /** One iteration of the decoder's length-computing loop, which starts at the
      position of a length byte. */
  datatype Step =
    | Stop(end: nat)                                // the name ends; its bytes here end before `end`
    | Next(found: Label, next: nat, viaPointer: bool)
    | StepFail(error: DnsError)

  /** The 14-bit offset of a compression pointer (section 4.1.4 of RFC 1035). */
  function PointerOffset(b0: Byte, b1: Byte): (r: nat)
    requires b0 >= POINTER_TAG
    ensures r < 0x4000
  {
    (b0 - POINTER_TAG) * 0x100 + b1
  }

  /** The value of a byte read through a plain C `char`. */
  function CharValue(signedChar: bool, c: Byte): (r: int)
    ensures signedChar ==> -0x80 <= r < 0x80
    ensures !signedChar ==> r == c
  {
    if signedChar && c >= 0x80 then c - 0x100 else c
  }

  /** The offset the decoder computes from the two bytes of a pointer read
      through `char`s, stored in a `uint16_t`: `& 0x3f` keeps the low six bits
      of the first (two's complement), `<< 8` moves them to bits 8 to 13, and
      `|` with the second either fills bits 0 to 7 with it when it is not
      negative, or, when it is negative and so has every bit from 8 up set,
      gives the second unchanged; the store keeps the low sixteen bits. */
  function CPointerOffset(signedChar: bool, b0: Byte, b1: Byte): (r: nat)
    ensures r < 0x1_0000
  {
    var high := CharValue(signedChar, b0) % 0x40 * 0x100;
    var low := CharValue(signedChar, b1);
    (if low < 0 then low else high + low) % 0x1_0000
  }

  /** Where `char` is unsigned, and for a second byte below 0x80 everywhere,
      the computed offset is the 14-bit offset.  Where `char` is signed, a
      second byte of 0x80 or more is sign-extended over the first: the offset
      is 0xFF00 plus the second byte, whatever the first. */
  lemma {:induction false} CPointerOffsetValue(signedChar: bool, b0: Byte, b1: Byte)
    requires b0 >= POINTER_TAG
    ensures !signedChar || b1 < 0x80 ==> CPointerOffset(signedChar, b0, b1) == PointerOffset(b0, b1)
    ensures signedChar && b1 >= 0x80 ==> CPointerOffset(signedChar, b0, b1) == 0xFF00 + b1
  {
    assert CharValue(signedChar, b0) % 0x40 == b0 - POINTER_TAG;
  }

  /** The offset a build takes from the two bytes of a pointer: the 14-bit
      offset, except where a signed `char` spreads the second byte's sign
      over the first. */
  function OffsetOf(b: Build, b0: Byte, b1: Byte): (r: nat)
    requires b0 >= POINTER_TAG
    ensures r < 0x1_0000
  {
    if b.AsWritten? && b.signedChar && b1 >= 0x80 then 0xFF00 + b1 else PointerOffset(b0, b1)
  }

  /** As written, that is the offset the C expression computes. */
  lemma {:induction false} OffsetOfAsWritten(signedChar: bool, b0: Byte, b1: Byte)
    requires b0 >= POINTER_TAG
    ensures OffsetOf(AsWritten(signedChar), b0, b1) == CPointerOffset(signedChar, b0, b1)
  {
    CPointerOffsetValue(signedChar, b0, b1);
  }

  /** A pointer to `offset` is read back as `offset` by build `b`. */
  predicate ReadsPointer(b: Build, offset: nat)
  {
    b.Repaired? || !b.signedChar || offset % 0x100 < 0x80
  }

  /** Whether every label lies inside the message. */
  predicate LabelsIn(msg: seq<Byte>, labels: seq<Label>)
  {
    labels == [] ||
    (labels[0].start + labels[0].len <= |msg| && labels[0].len <= MAX_LABEL_LEN && LabelsIn(msg, labels[1..]))
  }

  /** A read the C makes at or past the end of the message: undefined as
      written, a rejected message once repaired. */
  function PastEnd(b: Build): DnsError
  {
    if b.Repaired? then Invalid else Fault
  }

  /** One loop iteration from the length byte at `at`.  `hasBase` is false when
      the caller passed a null message base (question names). */
  function StepAt(b: Build, msg: seq<Byte>, hasBase: bool, at: nat): (s: Step)
    ensures s.Next? ==> s.found.start + s.found.len == s.next <= |msg|
    ensures s.Next? ==> s.found.len <= MAX_LABEL_LEN
    ensures s.Next? && !s.viaPointer ==> s.next > at && s.found.start == at + 1
    ensures s.Next? && s.viaPointer ==> at + 2 <= |msg| && hasBase
    ensures s.Stop? ==> at < s.end <= |msg|
  {
    if at >= |msg| then StepFail(PastEnd(b))                   // reads a length byte at msg_end
    else
      var len := msg[at];
      if len == 0 then Stop(at + 1)
      else if len > MAX_LABEL_LEN then
        if len < POINTER_TAG then StepFail(Invalid)            // top bits neither 00 nor 11
        else if at + 1 >= |msg| then StepFail(PastEnd(b))      // second pointer byte at msg_end
        else if !hasBase then StepFail(Fault)                  // dereferences NULL + offset
        else
          var offset := OffsetOf(b, len, msg[at + 1]);
          if offset > |msg| then StepFail(Invalid)             // offset beyond the message
          else if offset == |msg| then StepFail(PastEnd(b))    // passes the check, reads msg_end
          else if msg[offset] > MAX_LABEL_LEN then StepFail(Invalid)   // pointer to a pointer
          else if msg[offset] == 0 && b.Repaired? then Stop(at + 2)   // pointer to the root
          else if offset + msg[offset] + 1 > |msg| then StepFail(Invalid)
          else Next(Label(offset + 1, msg[offset]), offset + msg[offset] + 1, true)
      else if at + len + 1 > |msg| then StepFail(Invalid)      // label runs past msg_end
      else Next(Label(at + 1, len), at + len + 1, false)
  }

  /** The decoder's walk: the labels in order and where the caller's cursor
      ends (after the zero byte, or after the first pointer). */
  datatype Walked = Walked(labels: seq<Label>, cursor: nat)

  /** The walk from `at` for at most `fuel` iterations; running out of fuel
      stands for the C loop not terminating. */
  function Walk(b: Build, msg: seq<Byte>, hasBase: bool, at: nat, fuel: nat): Outcome<Walked>
    decreases fuel
  {
    if fuel == 0 then Fail(Diverges)
    else
      match StepAt(b, msg, hasBase, at)
      case StepFail(e) => Fail(e)
      case Stop(end) => Ok(Walked([], end))
      case Next(l, nx, ptr) =>
        match Walk(b, msg, hasBase, nx, fuel - 1)
        case Fail(e) => Fail(e)
        case Ok(w) => Ok(Walked([l] + w.labels, if ptr then at + 2 else w.cursor))
  }

  /** Fuel only decides whether the walk is cut short: a walk that finished,
      or failed, within `fuel` iterations ends the same way with more fuel. */
  lemma {:induction false} WalkFuelMonotone(b: Build, msg: seq<Byte>, hasBase: bool, at: nat, fuel: nat, more: nat)
    requires fuel <= more
    requires Walk(b, msg, hasBase, at, fuel) != Fail(Diverges)
    decreases fuel
    ensures Walk(b, msg, hasBase, at, more) == Walk(b, msg, hasBase, at, fuel)
  {
    match StepAt(b, msg, hasBase, at)
    case Next(l, nx, ptr) =>
      WalkFuelMonotone(b, msg, hasBase, nx, fuel - 1, more - 1);
    case _ =>
  }

  /** A finished walk found labels inside the message, and the cursor has
      moved forward but not past the end. */
  lemma {:induction false} WalkBounds(b: Build, msg: seq<Byte>, hasBase: bool, at: nat, fuel: nat)
    decreases fuel
    ensures var r := Walk(b, msg, hasBase, at, fuel);
            r.Ok? ==> LabelsIn(msg, r.value.labels) && at < r.value.cursor <= |msg|
  {
    if fuel > 0 {
      match StepAt(b, msg, hasBase, at)
      case Next(l, nx, ptr) =>
        WalkBounds(b, msg, hasBase, nx, fuel - 1);
        var rest := Walk(b, msg, hasBase, nx, fuel - 1);
        if rest.Ok? {
          assert ([l] + rest.value.labels)[1..] == rest.value.labels;
        }
      case _ =>
    }
  }

  /** The fuel that makes `Walk` exact: a walk that visits more than |msg|
      length-byte positions (all below |msg|) has visited one twice, and the
      loop state is that position alone (`NameFuelExact`). */
  function NameFuel(msg: seq<Byte>): nat
  {
    |msg| + 1
  }

  // ---------------------------------------------------------------------
  // The fuel bound is exact
  // ---------------------------------------------------------------------

  /** The first `k` iterations from `at` all move on to a next label. */
  predicate Runs(b: Build, msg: seq<Byte>, hasBase: bool, at: nat, k: nat)
    decreases k
  {
    k == 0 || (StepAt(b, msg, hasBase, at).Next? && Runs(b, msg, hasBase, StepAt(b, msg, hasBase, at).next, k - 1))
  }

  /** The length-byte position the loop is at after `k` such iterations. */
  function Pos(b: Build, msg: seq<Byte>, hasBase: bool, at: nat, k: nat): nat
    decreases k
  {
    if k == 0 then at
    else match StepAt(b, msg, hasBase, at)
      case Next(_, nx, _) => Pos(b, msg, hasBase, nx, k - 1)
      case _ => at
  }

  /** No single iteration reports a cycle. */
  lemma {:induction false} StepNeverDiverges(b: Build, msg: seq<Byte>, hasBase: bool, at: nat)
    ensures StepAt(b, msg, hasBase, at) != StepFail(Diverges)
  {
  }

  /** The walk runs out of fuel exactly when every iteration it is given
      moves on. */
  lemma {:induction false} DivergesIffRuns(b: Build, msg: seq<Byte>, hasBase: bool, at: nat, fuel: nat)
    decreases fuel
    ensures Walk(b, msg, hasBase, at, fuel) == Fail(Diverges) <==> Runs(b, msg, hasBase, at, fuel)
  {
    if fuel > 0 {
      StepNeverDiverges(b, msg, hasBase, at);
      if StepAt(b, msg, hasBase, at).Next? {
        DivergesIffRuns(b, msg, hasBase, StepAt(b, msg, hasBase, at).next, fuel - 1);
      }
    }
  }

  /** `i + k` iterations that move on are `i` of them and then `k` more from
      where the first `i` led. */
  lemma {:induction false} RunsSplit(b: Build, msg: seq<Byte>, hasBase: bool, at: nat, i: nat, k: nat)
    decreases i
    ensures Runs(b, msg, hasBase, at, i + k) <==>
              Runs(b, msg, hasBase, at, i) && Runs(b, msg, hasBase, Pos(b, msg, hasBase, at, i), k)
  {
    if i > 0 && StepAt(b, msg, hasBase, at).Next? {
      RunsSplit(b, msg, hasBase, StepAt(b, msg, hasBase, at).next, i - 1, k);
    }
  }

  /** A position the loop moves on from is a length byte inside the message. */
  lemma {:induction false} RunsInside(b: Build, msg: seq<Byte>, hasBase: bool, at: nat, k: nat)
    requires Runs(b, msg, hasBase, at, k + 1)
    ensures Pos(b, msg, hasBase, at, k) < |msg|
  {
    RunsSplit(b, msg, hasBase, at, k, 1);
    var p := Pos(b, msg, hasBase, at, k);
    assert StepAt(b, msg, hasBase, p).Next?;
  }

  /** Once the loop is back at a position it has been at, it goes round the
      same way for ever. */
  lemma {:induction false} RunsForever(b: Build, msg: seq<Byte>, hasBase: bool, at: nat, i: nat, j: nat, f: nat)
    requires i < j && Pos(b, msg, hasBase, at, i) == Pos(b, msg, hasBase, at, j)
    requires Runs(b, msg, hasBase, at, j)
    decreases f
    ensures Runs(b, msg, hasBase, at, f)
  {
    if f <= j {
      RunsSplit(b, msg, hasBase, at, f, j - f);
    } else {
      RunsForever(b, msg, hasBase, at, i, j, i + (f - j));
      RunsSplit(b, msg, hasBase, at, i, f - j);
      RunsSplit(b, msg, hasBase, at, j, f - j);
    }
  }

  /** More than `n` values below `n` repeat one. */
  lemma {:induction false} Pigeonhole(ps: seq<nat>, n: nat)
    requires |ps| > n && forall k | 0 <= k < |ps| :: ps[k] < n
    decreases n
    ensures exists i, j :: 0 <= i < j < |ps| && ps[i] == ps[j]
  {
    var last := |ps| - 1;
    var x := ps[last];
    if exists i :: 0 <= i < last && ps[i] == x {
      var i :| 0 <= i < last && ps[i] == x;
      assert ps[i] == ps[last];
    } else {
      var qs := seq(last, k requires 0 <= k < last => if ps[k] > x then ps[k] - 1 else ps[k]);
      Pigeonhole(qs, n - 1);
      var i, j :| 0 <= i < j < |qs| && qs[i] == qs[j];
      assert ps[i] == ps[j];
    }
  }

  /** `NameFuel` is exact: a walk that runs out of it would run out of any
      fuel, so `Diverges` means that the C loop never ends. */
  lemma {:induction false} NameFuelExact(b: Build, msg: seq<Byte>, hasBase: bool, at: nat, fuel: nat)
    requires Walk(b, msg, hasBase, at, NameFuel(msg)) == Fail(Diverges)
    ensures Walk(b, msg, hasBase, at, fuel) == Fail(Diverges)
  {
    var n := |msg|;
    DivergesIffRuns(b, msg, hasBase, at, n + 1);
    var ps := seq(n + 1, k requires 0 <= k <= n => Pos(b, msg, hasBase, at, k));
    forall k | 0 <= k < |ps|
      ensures ps[k] < n
    {
      RunsSplit(b, msg, hasBase, at, k + 1, n - k);
      RunsInside(b, msg, hasBase, at, k);
    }
    Pigeonhole(ps, n);
    var i, j :| 0 <= i < j < |ps| && ps[i] == ps[j];
    RunsSplit(b, msg, hasBase, at, j, n + 1 - j);
    RunsForever(b, msg, hasBase, at, i, j, fuel);
    DivergesIffRuns(b, msg, hasBase, at, fuel);
  }

  /** The bytes of each label. */
  function Texts(msg: seq<Byte>, labels: seq<Label>): (r: seq<seq<Byte>>)
    requires LabelsIn(msg, labels)
    ensures |r| == |labels|
  {
    if labels == [] then []
    else [msg[labels[0].start..labels[0].start + labels[0].len]] + Texts(msg, labels[1..])
  }

  /** What the copying loop writes: every label followed by a dot. */
  function DotTerminated(texts: seq<seq<Byte>>): seq<Byte>
  {
    if texts == [] then [] else texts[0] + [DOT] + DotTerminated(texts[1..])
  }

  /** The buffer size the decoder allocates: the sum of (length + 1). */
  function LabelSpace(texts: seq<seq<Byte>>): nat
  {
    if texts == [] then 0 else |texts[0]| + 1 + LabelSpace(texts[1..])
  }

  /** The labels joined by dots (reference definition). */
  function JoinDots(texts: seq<seq<Byte>>): seq<Byte>
    requires texts != []
  {
    if |texts| == 1 then texts[0] else texts[0] + [DOT] + JoinDots(texts[1..])
  }

  /** The labels joined by dots as a NUL-terminated C string (reference
      definition of a decoded name). */
  function DottedName(texts: seq<seq<Byte>>): seq<Byte>
    requires texts != []
  {
    JoinDots(texts) + [NUL]
  }

  /** The decoded name: the dot-terminated labels with the last dot replaced
      by a NUL. */
  function NameBytes(texts: seq<seq<Byte>>): (r: seq<Byte>)
    requires texts != []
  {
    var d := DotTerminated(texts);
    LemmaDotTerminatedLength(texts);
    d[..|d| - 1] + [NUL]
  }

  lemma {:induction false} LemmaDotTerminatedLength(texts: seq<seq<Byte>>)
    ensures |DotTerminated(texts)| == LabelSpace(texts)
    ensures texts != [] ==> |DotTerminated(texts)| >= 1
  {
    if texts != [] {
      LemmaDotTerminatedLength(texts[1..]);
    }
  }

  /** A decoded name. */
  datatype Parsed = Parsed(name: seq<Byte>, cursor: nat)

  /** `analyzer_dns_parse_name`: decodes the name whose first length byte is at
      `start`, yielding the name and the position right after the name's
      bytes at `start`. */
  function ParseName(b: Build, msg: seq<Byte>, hasBase: bool, start: nat): (r: Outcome<Parsed>)
    ensures r.Ok? ==> start < r.value.cursor <= |msg| && |r.value.name| >= 1
    ensures r.Ok? ==> r.value.name[|r.value.name| - 1] == NUL
  {
    WalkBounds(b, msg, hasBase, start, NameFuel(msg));
    match Walk(b, msg, hasBase, start, NameFuel(msg))
    case Fail(e) => Fail(e)
    case Ok(w) =>
      if w.labels == [] then
        if b.Repaired? then Ok(Parsed([NUL], w.cursor))   // the root: the empty name
        else Fail(Fault)                                   // malloc(0), then writes name[-1]
      else
        var texts := Texts(msg, w.labels);
        LemmaNameLength(texts);
        Ok(Parsed(NameBytes(texts), w.cursor))
  }

  /** How decoding ends on the name's first length byte.  A name that starts
      at the end of the message reads past it.  The zero byte (the root
      name) is a fault as written and the empty name once repaired.  A
      length byte with top bits 01 or 10, or a label running past the end,
      is invalid.  A pointer in a question name dereferences the null base.
      A pointer's target is checked only for being past the end (invalid),
      so a target exactly at the end is read as written; a target that is
      itself a pointer is invalid. */
  lemma {:induction false} ParseNameFirstByte(b: Build, msg: seq<Byte>, hasBase: bool, start: nat)
    ensures start >= |msg| ==> ParseName(b, msg, hasBase, start) == Fail(PastEnd(b))
    ensures start < |msg| && msg[start] == 0 && b.AsWritten? ==> ParseName(b, msg, hasBase, start) == Fail(Fault)
    ensures start < |msg| && msg[start] == 0 && b.Repaired? ==> ParseName(b, msg, hasBase, start) == Ok(Parsed([NUL], start + 1))
    ensures (start < |msg| && MAX_LABEL_LEN < msg[start] < POINTER_TAG)
              ==> ParseName(b, msg, hasBase, start) == Fail(Invalid)
    ensures (start < |msg| && 0 < msg[start] <= MAX_LABEL_LEN && start + msg[start] + 1 > |msg|)
              ==> ParseName(b, msg, hasBase, start) == Fail(Invalid)
    ensures (start + 1 < |msg| && msg[start] >= POINTER_TAG && !hasBase)
              ==> ParseName(b, msg, hasBase, start) == Fail(Fault)
    ensures start + 1 < |msg| && msg[start] >= POINTER_TAG && hasBase ==>
              var offset := OffsetOf(b, msg[start], msg[start + 1]);
              (offset > |msg| ==> ParseName(b, msg, hasBase, start) == Fail(Invalid)) &&
              (offset == |msg| ==> ParseName(b, msg, hasBase, start) == Fail(PastEnd(b))) &&
              (offset < |msg| && msg[offset] > MAX_LABEL_LEN ==> ParseName(b, msg, hasBase, start) == Fail(Invalid))
  {
  }

  lemma {:induction false} LemmaNameLength(texts: seq<seq<Byte>>)
    requires texts != []
    ensures |NameBytes(texts)| == LabelSpace(texts) >= 1
  {
    LemmaDotTerminatedLength(texts);
  }

  // ---------------------------------------------------------------------
  // Properties of name decoding
  // ---------------------------------------------------------------------

  /** The decoded name is the labels joined by dots, NUL-terminated, and it
      fills exactly the sum of (length + 1) bytes the decoder allocates. */
  lemma {:induction false} NameLayout(texts: seq<seq<Byte>>)
    requires texts != []
    ensures NameBytes(texts) == DottedName(texts)
    ensures |NameBytes(texts)| == LabelSpace(texts)
  {
    LemmaNameLength(texts);
    DotTerminatedIsJoin(texts);
  }

  lemma {:induction false} DotTerminatedIsJoin(texts: seq<seq<Byte>>)
    requires texts != []
    ensures DotTerminated(texts) == JoinDots(texts) + [DOT]
  {
    if |texts| == 1 {
      assert texts[1..] == [];
    } else {
      DotTerminatedIsJoin(texts[1..]);
    }
  }

  /** Label texts a name can be built from: 1 to 63 bytes each. */
  predicate ValidLabels(texts: seq<seq<Byte>>)
  {
    texts == [] || (1 <= |texts[0]| <= MAX_LABEL_LEN && ValidLabels(texts[1..]))
  }

  /** Valid labels take at least two bytes each. */
  lemma {:induction false} LabelSpaceBound(texts: seq<seq<Byte>>)
    requires ValidLabels(texts)
    ensures LabelSpace(texts) >= 2 * |texts|
  {
    if texts != [] {
      LabelSpaceBound(texts[1..]);
    }
  }

  /** The uncompressed wire form of labels: each preceded by its length. */
  function EncodeLabels(texts: seq<seq<Byte>>): (r: seq<Byte>)
    requires ValidLabels(texts)
    ensures |r| == LabelSpace(texts)
  {
    if texts == [] then []
    else [|texts[0]| as Byte] + texts[0] + EncodeLabels(texts[1..])
  }

  /** The uncompressed wire form of a name: its labels and a zero byte. */
  function EncodeName(texts: seq<seq<Byte>>): seq<Byte>
    requires ValidLabels(texts)
  {
    EncodeLabels(texts) + [NUL]
  }

  /** A two-byte compression pointer to `offset`. */
  function EncodePointer(offset: nat): (r: seq<Byte>)
    requires offset < 0x4000
    ensures |r| == 2
  {
    [POINTER_TAG + offset / 0x100, offset % 0x100]
  }

  /** The length of each label. */
  function Lengths(texts: seq<seq<Byte>>): (r: seq<nat>)
    ensures |r| == |texts|
  {
    if texts == [] then [] else [|texts[0]|] + Lengths(texts[1..])
  }

  /** The bytes taken by labels of lengths `lens`, each with its length byte. */
  function Span(lens: seq<nat>): nat
  {
    if lens == [] then 0 else lens[0] + 1 + Span(lens[1..])
  }

  lemma {:induction false} LabelSpaceIsSpan(texts: seq<seq<Byte>>)
    ensures LabelSpace(texts) == Span(Lengths(texts))
  {
    if texts != [] {
      LabelSpaceIsSpan(texts[1..]);
      assert Lengths(texts)[1..] == Lengths(texts[1..]);
    }
  }

  // ---------------------------------------------------------------------
  // The walk over plain labels (only the label lengths matter)
  // ---------------------------------------------------------------------

  /** The labels of a run of plain labels of lengths `lens` starting at `at`. */
  function PlainLabels(at: nat, lens: seq<nat>): (r: seq<Label>)
    ensures |r| == |lens|
    decreases lens
  {
    if lens == [] then [] else [Label(at + 1, lens[0])] + PlainLabels(at + 1 + lens[0], lens[1..])
  }

  /** The decoder steps through plain labels of lengths `lens` from `at`. */
  predicate Chain(b: Build, msg: seq<Byte>, hasBase: bool, at: nat, lens: seq<nat>)
    decreases lens
  {
    lens == [] ||
    (StepAt(b, msg, hasBase, at) == Next(Label(at + 1, lens[0]), at + 1 + lens[0], false) &&
     Chain(b, msg, hasBase, at + 1 + lens[0], lens[1..]))
  }

  /** A walk result with `ls` put in front of its labels. */
  function Extend(ls: seq<Label>, w: Outcome<Walked>): Outcome<Walked>
  {
    match w
    case Fail(e) => Fail(e)
    case Ok(v) => Ok(Walked(ls + v.labels, v.cursor))
  }

  lemma {:induction false} ExtendNil(w: Outcome<Walked>)
    ensures Extend([], w) == w
  {
    if w.Ok? {
      assert [] + w.value.labels == w.value.labels;
    }
  }

  lemma {:induction false} ExtendCons(l: Label, ls: seq<Label>, w: Outcome<Walked>)
    ensures Extend([l], Extend(ls, w)) == Extend([l] + ls, w)
  {
    if w.Ok? {
      assert [l] + (ls + w.value.labels) == ([l] + ls) + w.value.labels;
    }
  }

  lemma {:induction false} ExtendFinished(ls: seq<Label>, cursor: nat)
    ensures Extend(ls, Ok(Walked([], cursor))) == Ok(Walked(ls, cursor))
  {
    assert ls + [] == ls;
  }

  lemma {:induction false} ExtendFinishedWith(ls: seq<Label>, more: seq<Label>, cursor: nat)
    ensures Extend(ls, Ok(Walked(more, cursor))) == Ok(Walked(ls + more, cursor))
  {
  }

  /** One step of the walk, unfolded. */
  lemma {:induction false} WalkUnfoldNext(b: Build, msg: seq<Byte>, hasBase: bool, at: nat, fuel: nat, l: Label, nx: nat, ptr: bool)
    requires fuel > 0 && StepAt(b, msg, hasBase, at) == Next(l, nx, ptr)
    ensures var rest := Walk(b, msg, hasBase, nx, fuel - 1);
            var r := Walk(b, msg, hasBase, at, fuel);
            (rest.Fail? ==> r == rest) &&
            (rest.Ok? ==> r == Ok(Walked([l] + rest.value.labels, if ptr then at + 2 else rest.value.cursor)))
  {
  }

  /** A plain step in front of a walk adds its label to the walk's labels. */
  lemma {:induction false} WalkPlainStep(b: Build, msg: seq<Byte>, hasBase: bool, at: nat, fuel: nat, l: Label, nx: nat,
                      ls: seq<Label>, rest: Outcome<Walked>)
    requires fuel > 0 && StepAt(b, msg, hasBase, at) == Next(l, nx, false)
    requires Walk(b, msg, hasBase, nx, fuel - 1) == Extend(ls, rest)
    ensures Walk(b, msg, hasBase, at, fuel) == Extend([l] + ls, rest)
  {
    WalkUnfoldNext(b, msg, hasBase, at, fuel, l, nx, false);
    ExtendCons(l, ls, rest);
  }

  /** A zero length byte stops the walk right after it. */
  lemma {:induction false} WalkAtTerminator(b: Build, msg: seq<Byte>, hasBase: bool, at: nat, fuel: nat)
    requires at < |msg| && msg[at] == NUL && fuel > 0
    ensures Walk(b, msg, hasBase, at, fuel) == Ok(Walked([], at + 1))
  {
  }

  /** Walking over a chain of plain labels collects exactly those labels, then
      continues with whatever follows them. */
  lemma {:induction false} WalkThroughLabels(b: Build, msg: seq<Byte>, hasBase: bool, at: nat, fuel: nat, lens: seq<nat>)
    requires Chain(b, msg, hasBase, at, lens) && fuel >= |lens|
    decreases lens
    ensures Walk(b, msg, hasBase, at, fuel)
            == Extend(PlainLabels(at, lens), Walk(b, msg, hasBase, at + Span(lens), fuel - |lens|))
  {
    if lens == [] {
      assert PlainLabels(at, lens) == [] && Span(lens) == 0;
      ExtendNil(Walk(b, msg, hasBase, at, fuel));
    } else {
      var nx := at + 1 + lens[0];
      var l := Label(at + 1, lens[0]);
      WalkThroughLabels(b, msg, hasBase, nx, fuel - 1, lens[1..]);
      assert nx + Span(lens[1..]) == at + Span(lens);
      assert fuel - 1 - |lens[1..]| == fuel - |lens|;
      var rest := Walk(b, msg, hasBase, at + Span(lens), fuel - |lens|);
      WalkPlainStep(b, msg, hasBase, at, fuel, l, nx, PlainLabels(nx, lens[1..]), rest);
      assert PlainLabels(at, lens) == [l] + PlainLabels(nx, lens[1..]);
    }
  }

  /** A chain of plain labels followed by a zero byte is a whole walk. */
  lemma {:induction false} WalkChainToEnd(b: Build, msg: seq<Byte>, hasBase: bool, at: nat, fuel: nat, lens: seq<nat>)
    requires Chain(b, msg, hasBase, at, lens) && fuel > |lens|
    requires at + Span(lens) < |msg| && msg[at + Span(lens)] == NUL
    ensures Walk(b, msg, hasBase, at, fuel) == Ok(Walked(PlainLabels(at, lens), at + Span(lens) + 1))
  {
    WalkThroughLabels(b, msg, hasBase, at, fuel, lens);
    WalkAtTerminator(b, msg, hasBase, at + Span(lens), fuel - |lens|);
    ExtendFinished(PlainLabels(at, lens), at + Span(lens) + 1);
  }

  /** A pointer to a chain of labels ending in a zero byte walks those labels,
      and the cursor stops right after the pointer. */
  lemma {:induction false} WalkAtPointer(b: Build, msg: seq<Byte>, p: nat, fuel: nat, offset: nat, lens: seq<nat>, end: nat)
    requires lens != [] && fuel > |lens| && end == p + 2
    requires PointsTo(b, msg, p, offset) && Chain(b, msg, true, offset, lens)
    requires offset + Span(lens) < |msg| && msg[offset + Span(lens)] == NUL
    ensures Walk(b, msg, true, p, fuel) == Ok(Walked(PlainLabels(offset, lens), end))
  {
    var nx := offset + 1 + lens[0];
    assert nx + Span(lens[1..]) == offset + Span(lens);
    WalkChainToEnd(b, msg, true, nx, fuel - 1, lens[1..]);
    var l := Label(offset + 1, lens[0]);
    assert PlainLabels(offset, lens) == [l] + PlainLabels(nx, lens[1..]);
    PointerThenChain(b, msg, p, offset, lens);
    WalkUnfoldNext(b, msg, true, p, fuel, l, nx, true);
  }

  /** The two bytes at `p` are a pointer that this build reads as `offset`. */
  predicate PointsTo(b: Build, msg: seq<Byte>, p: nat, offset: nat)
  {
    p + 1 < |msg| && msg[p] >= POINTER_TAG && OffsetOf(b, msg[p], msg[p + 1]) == offset
  }

  /** A pointer to a chain of plain labels is one step to the chain's first
      label. */
  lemma {:induction false} PointerThenChain(b: Build, msg: seq<Byte>, p: nat, offset: nat, lens: seq<nat>)
    requires lens != [] && PointsTo(b, msg, p, offset) && Chain(b, msg, true, offset, lens)
    ensures StepAt(b, msg, true, p) == Next(Label(offset + 1, lens[0]), offset + 1 + lens[0], true)
  {
    assert StepAt(b, msg, true, offset) == Next(Label(offset + 1, lens[0]), offset + 1 + lens[0], false);
  }

  // ---------------------------------------------------------------------
  // Encoded names in a message
  // ---------------------------------------------------------------------

  /** Whether `bytes` occur in `msg` at position `at`, byte by byte.  This is
      the same fact as `Occurs` (`OccursHolds` and `HoldsIsSlice` convert);
      the whole-name and whole-message round trips state the slice form,
      and the lemmas about the parts of an encoding use this recursive form,
      which the solver unfolds one byte at a time instead of reasoning about
      slices of slices. */
  predicate Holds(msg: seq<Byte>, at: nat, bytes: seq<Byte>)
    decreases bytes
  {
    at + |bytes| <= |msg| && (bytes == [] || (msg[at] == bytes[0] && Holds(msg, at + 1, bytes[1..])))
  }

  /** Whether `bytes` occur in `msg` at position `at`, as a slice: how the
      round-trip lemmas state where an encoding sits. */
  predicate Occurs(msg: seq<Byte>, at: nat, bytes: seq<Byte>)
  {
    at + |bytes| <= |msg| && msg[at..at + |bytes|] == bytes
  }

  lemma {:induction false} OccursHolds(msg: seq<Byte>, at: nat, bytes: seq<Byte>)
    requires Occurs(msg, at, bytes)
    decreases bytes
    ensures Holds(msg, at, bytes)
  {
    if bytes != [] {
      assert msg[at] == bytes[0];
      assert msg[at + 1..at + |bytes|] == bytes[1..];
      OccursHolds(msg, at + 1, bytes[1..]);
    }
  }

  lemma {:induction false} HoldsIsSlice(msg: seq<Byte>, at: nat, bytes: seq<Byte>)
    requires Holds(msg, at, bytes)
    decreases bytes
    ensures at + |bytes| <= |msg| && msg[at..at + |bytes|] == bytes
  {
    if bytes != [] {
      HoldsIsSlice(msg, at + 1, bytes[1..]);
      var s := msg[at..at + |bytes|];
      assert s[1..] == msg[at + 1..at + |bytes|] == bytes[1..];
      assert s == [s[0]] + s[1..];
      assert bytes == [bytes[0]] + bytes[1..];
    }
  }

  /** Occurrences split along concatenation. */
  lemma {:induction false} HoldsSplit(msg: seq<Byte>, at: nat, a: seq<Byte>, b: seq<Byte>)
    requires Holds(msg, at, a + b)
    decreases a
    ensures Holds(msg, at, a) && Holds(msg, at + |a|, b)
  {
    if a == [] {
      assert a + b == b;
    } else {
      assert (a + b)[1..] == a[1..] + b;
      HoldsSplit(msg, at + 1, a[1..], b);
    }
  }

  /** An occurrence of `bytes` is its first byte followed by the rest. */
  lemma {:induction false} HoldsTail(msg: seq<Byte>, at: nat, bytes: seq<Byte>, tail: seq<Byte>)
    requires Holds(msg, at, bytes) && bytes != [] && bytes[1..] == tail
    ensures at < |msg| && msg[at] == bytes[0] && Holds(msg, at + 1, tail)
  {
  }

  /** An encoding is its first label's length byte, that label, and the
      encoding of the remaining labels. */
  lemma {:induction false} EncodeLabelsCons(texts: seq<seq<Byte>>)
    requires texts != [] && ValidLabels(texts)
    ensures ValidLabels(texts[1..]) && 1 <= |texts[0]| <= MAX_LABEL_LEN
    ensures EncodeLabels(texts)[0] == |texts[0]|
    ensures EncodeLabels(texts)[1..] == texts[0] + EncodeLabels(texts[1..])
  {
    var e := EncodeLabels(texts);
    assert e == [|texts[0]| as Byte] + (texts[0] + EncodeLabels(texts[1..]));
  }

  /** What the first label of an encoding puts in the message. */
  lemma {:induction false} HoldsFirstLabel(msg: seq<Byte>, at: nat, texts: seq<seq<Byte>>)
    requires texts != [] && ValidLabels(texts) && Holds(msg, at, EncodeLabels(texts))
    ensures at + 1 + |texts[0]| <= |msg| && msg[at] == |texts[0]| && 1 <= |texts[0]| <= MAX_LABEL_LEN
    ensures msg[at + 1..at + 1 + |texts[0]|] == texts[0]
    ensures ValidLabels(texts[1..]) && Holds(msg, at + 1 + |texts[0]|, EncodeLabels(texts[1..]))
  {
    EncodeLabelsCons(texts);
    HoldsTail(msg, at, EncodeLabels(texts), texts[0] + EncodeLabels(texts[1..]));
    HoldsSplit(msg, at + 1, texts[0], EncodeLabels(texts[1..]));
    HoldsIsSlice(msg, at + 1, texts[0]);
  }

  /** A length byte of 1 to 63 whose label fits is one plain step. */
  lemma {:induction false} PlainStep(b: Build, msg: seq<Byte>, hasBase: bool, at: nat, len: nat)
    requires at < |msg| && msg[at] == len && 1 <= len <= MAX_LABEL_LEN && at + len + 1 <= |msg|
    ensures StepAt(b, msg, hasBase, at) == Next(Label(at + 1, len), at + 1 + len, false)
  {
  }

  /** The label bytes of `texts` lie in the message one after another from
      `at`, each behind its length byte. */
  predicate Slices(msg: seq<Byte>, at: nat, texts: seq<seq<Byte>>)
    decreases texts
  {
    texts == [] ||
    (at + 1 + |texts[0]| <= |msg| && msg[at + 1..at + 1 + |texts[0]|] == texts[0] &&
     Slices(msg, at + 1 + |texts[0]|, texts[1..]))
  }

  /** Encoded labels in the message are a chain of plain steps. */
  lemma {:induction false} EncodedChain(b: Build, msg: seq<Byte>, hasBase: bool, at: nat, texts: seq<seq<Byte>>)
    requires ValidLabels(texts) && Holds(msg, at, EncodeLabels(texts))
    decreases texts
    ensures Chain(b, msg, hasBase, at, Lengths(texts)) && Slices(msg, at, texts)
  {
    if texts != [] {
      HoldsFirstLabel(msg, at, texts);
      PlainStep(b, msg, hasBase, at, |texts[0]|);
      EncodedChain(b, msg, hasBase, at + 1 + |texts[0]|, texts[1..]);
      assert Lengths(texts)[0] == |texts[0]| && Lengths(texts)[1..] == Lengths(texts[1..]);
    }
  }

  /** The texts of the labels of a run of encoded labels are the run's texts. */
  lemma {:induction false} TextsOfPlain(msg: seq<Byte>, at: nat, texts: seq<seq<Byte>>, more: seq<Label>)
    requires Slices(msg, at, texts)
    requires LabelsIn(msg, PlainLabels(at, Lengths(texts)) + more)
    decreases texts
    ensures LabelsIn(msg, more)
    ensures Texts(msg, PlainLabels(at, Lengths(texts)) + more) == texts + Texts(msg, more)
  {
    var ls := PlainLabels(at, Lengths(texts)) + more;
    if texts == [] {
      assert ls == more;
    } else {
      var t := texts[0];
      var nx := at + 1 + |t|;
      PlainLabelsCons(at, texts, more);
      TextsCons(msg, ls);
      TextsOfPlain(msg, nx, texts[1..], more);
      TextsStep(msg, ls, t, texts[1..] + Texts(msg, more));
      ConsAppend(t, texts[1..], Texts(msg, more), texts);
    }
  }

  /** The texts of labels: the first label's bytes, then the others' texts. */
  lemma {:induction false} TextsCons(msg: seq<Byte>, ls: seq<Label>)
    requires ls != [] && LabelsIn(msg, ls)
    ensures LabelsIn(msg, ls[1..])
    ensures Texts(msg, ls) == [msg[ls[0].start..ls[0].start + ls[0].len]] + Texts(msg, ls[1..])
  {
  }

  lemma {:induction false} TextsStep(msg: seq<Byte>, ls: seq<Label>, t: seq<Byte>, tail: seq<seq<Byte>>)
    requires ls != [] && LabelsIn(msg, ls)
    requires msg[ls[0].start..ls[0].start + ls[0].len] == t && Texts(msg, ls[1..]) == tail
    ensures Texts(msg, ls) == [t] + tail
  {
  }

  lemma {:induction false} ConsAppend<T>(x: T, rest: seq<T>, xs: seq<T>, whole: seq<T>)
    requires whole == [x] + rest
    ensures [x] + (rest + xs) == whole + xs
  {
  }

  /** The labels of a run of encoded labels, followed by other labels: the
      first label of the run, then the rest of the run and the others. */
  lemma {:induction false} PlainLabelsCons(at: nat, texts: seq<seq<Byte>>, more: seq<Label>)
    requires texts != []
    ensures var ls := PlainLabels(at, Lengths(texts)) + more;
            ls[0] == Label(at + 1, |texts[0]|) &&
            ls[1..] == PlainLabels(at + 1 + |texts[0]|, Lengths(texts[1..])) + more
  {
    assert Lengths(texts)[0] == |texts[0]| && Lengths(texts)[1..] == Lengths(texts[1..]);
  }

  /** The decoder sees an uncompressed name with label texts `texts` at
      `at`: the labels form a chain, each label holds its text, a zero byte
      follows, and the fuel covers every label. */
  predicate NameAt(b: Build, msg: seq<Byte>, hasBase: bool, at: nat, texts: seq<seq<Byte>>)
  {
    && texts != [] && |texts| < NameFuel(msg)
    && Chain(b, msg, hasBase, at, Lengths(texts)) && Slices(msg, at, texts)
    && at + Span(Lengths(texts)) < |msg| && msg[at + Span(Lengths(texts))] == NUL
  }

  /** An encoded name in the message is seen by the decoder as that name. */
  lemma {:induction false} FuelSuffices(b: Build, msg: seq<Byte>, hasBase: bool, at: nat, texts: seq<seq<Byte>>)
    requires ValidLabels(texts) && texts != [] && Holds(msg, at, EncodeName(texts))
    ensures NameAt(b, msg, hasBase, at, texts)
    ensures LabelSpace(texts) >= 2 * |texts| && Span(Lengths(texts)) == LabelSpace(texts)
  {
    HoldsSplit(msg, at, EncodeLabels(texts), [NUL]);
    EncodedChain(b, msg, hasBase, at, texts);
    LabelSpaceBound(texts);
    LabelSpaceIsSpan(texts);
  }

  /** An encoded pointer is read back as its offset by every build that
      reads that offset correctly. */
  lemma {:induction false} PointerStep(b: Build, msg: seq<Byte>, p: nat, offset: nat)
    requires offset < 0x4000 && ReadsPointer(b, offset)
    requires Holds(msg, p, EncodePointer(offset))
    ensures PointsTo(b, msg, p, offset)
  {
    assert msg[p] == POINTER_TAG + offset / 0x100 && msg[p + 1] == offset % 0x100;
    assert PointerOffset(msg[p], msg[p + 1]) == offset;
  }

  /** The decoder sees labels with texts `prefix` at `at` followed by a
      pointer to an uncompressed name with texts `suffix` at `offset`. */
  predicate CompressedAt(b: Build, msg: seq<Byte>, at: nat, prefix: seq<seq<Byte>>, offset: nat, suffix: seq<seq<Byte>>)
  {
    && NameAt(b, msg, true, offset, suffix) && |prefix| + |suffix| < NameFuel(msg)
    && Chain(b, msg, true, at, Lengths(prefix)) && Slices(msg, at, prefix)
    && PointsTo(b, msg, at + Span(Lengths(prefix)), offset)
  }

  /** Encoded labels followed by other bytes: the labels form a chain and
      each holds its text, and the other bytes follow them. */
  lemma {:induction false} PrefixLayout(b: Build, msg: seq<Byte>, hasBase: bool, at: nat, prefix: seq<seq<Byte>>, tail: seq<Byte>)
    requires ValidLabels(prefix) && Holds(msg, at, EncodeLabels(prefix) + tail)
    ensures Chain(b, msg, hasBase, at, Lengths(prefix)) && Slices(msg, at, prefix)
    ensures at + |EncodeLabels(prefix)| == at + Span(Lengths(prefix))
    ensures 2 * |prefix| + |tail| <= |msg|
    ensures Holds(msg, at + |EncodeLabels(prefix)|, tail)
  {
    HoldsSplit(msg, at, EncodeLabels(prefix), tail);
    EncodedChain(b, msg, hasBase, at, prefix);
    LabelSpaceIsSpan(prefix);
    LabelSpaceBound(prefix);
  }

  /** Encoded labels followed by a pointer to an encoded name are seen by the
      decoder as such. */
  lemma {:induction false} PrefixThenPointer(b: Build, msg: seq<Byte>, at: nat, prefix: seq<seq<Byte>>, offset: nat, suffix: seq<seq<Byte>>)
    requires ValidLabels(prefix) && ValidLabels(suffix) && suffix != []
    requires offset < 0x4000 && ReadsPointer(b, offset)
    requires Holds(msg, at, EncodeLabels(prefix) + EncodePointer(offset))
    requires Holds(msg, offset, EncodeName(suffix))
    ensures CompressedAt(b, msg, at, prefix, offset, suffix)
    ensures at + |EncodeLabels(prefix)| + 2 == at + Span(Lengths(prefix)) + 2
  {
    PrefixLayout(b, msg, true, at, prefix, EncodePointer(offset));
    FuelSuffices(b, msg, true, offset, suffix);
    PointerStep(b, msg, at + |EncodeLabels(prefix)|, offset);
  }

  /** The walk over labels followed by a pointer to a chain of labels ending
      in a zero byte. */
  lemma {:induction false} WalkCompressed(b: Build, msg: seq<Byte>, at: nat, fuel: nat, prefix: seq<nat>, offset: nat, suffix: seq<nat>, end: nat)
    requires suffix != [] && fuel > |prefix| + |suffix| && end == at + Span(prefix) + 2
    requires Chain(b, msg, true, at, prefix) && Chain(b, msg, true, offset, suffix)
    requires PointsTo(b, msg, at + Span(prefix), offset)
    requires offset + Span(suffix) < |msg| && msg[offset + Span(suffix)] == NUL
    ensures Walk(b, msg, true, at, fuel)
            == Ok(Walked(PlainLabels(at, prefix) + PlainLabels(offset, suffix), end))
    ensures LabelsIn(msg, PlainLabels(at, prefix) + PlainLabels(offset, suffix))
    ensures PlainLabels(at, prefix) + PlainLabels(offset, suffix) != []
  {
    var p := at + Span(prefix);
    WalkAtPointer(b, msg, p, fuel - |prefix|, offset, suffix, end);
    WalkLabelsThen(b, msg, at, fuel, prefix, Walked(PlainLabels(offset, suffix), end));
    WalkBounds(b, msg, true, at, fuel);
  }

  /** Plain labels in front of a finished walk add their labels to it. */
  lemma {:induction false} WalkLabelsThen(b: Build, msg: seq<Byte>, at: nat, fuel: nat, lens: seq<nat>, rest: Walked)
    requires Chain(b, msg, true, at, lens) && fuel >= |lens|
    requires Walk(b, msg, true, at + Span(lens), fuel - |lens|) == Ok(rest)
    ensures Walk(b, msg, true, at, fuel) == Ok(Walked(PlainLabels(at, lens) + rest.labels, rest.cursor))
  {
    WalkThroughLabels(b, msg, true, at, fuel, lens);
    ExtendFinishedWith(PlainLabels(at, lens), rest.labels, rest.cursor);
  }

  /** The texts of two runs of encoded labels, one after the other. */
  lemma {:induction false} TextsOfTwoRuns(msg: seq<Byte>, at: nat, prefix: seq<seq<Byte>>, offset: nat, suffix: seq<seq<Byte>>)
    requires Slices(msg, at, prefix) && Slices(msg, offset, suffix)
    requires LabelsIn(msg, PlainLabels(at, Lengths(prefix)) + PlainLabels(offset, Lengths(suffix)))
    ensures Texts(msg, PlainLabels(at, Lengths(prefix)) + PlainLabels(offset, Lengths(suffix))) == prefix + suffix
  {
    var sl := PlainLabels(offset, Lengths(suffix));
    TextsOfPlain(msg, at, prefix, sl);
    TextsOfOneRun(msg, offset, suffix);
  }

  /** The texts of one run of encoded labels. */
  lemma {:induction false} TextsOfOneRun(msg: seq<Byte>, at: nat, texts: seq<seq<Byte>>)
    requires Slices(msg, at, texts) && LabelsIn(msg, PlainLabels(at, Lengths(texts)))
    ensures Texts(msg, PlainLabels(at, Lengths(texts))) == texts
  {
    var ls := PlainLabels(at, Lengths(texts));
    assert ls + [] == ls;
    TextsOfPlain(msg, at, texts, []);
    assert Texts(msg, []) == [] && texts + [] == texts;
  }

  /** A walk that found the labels with texts `texts` decodes to those texts
      joined by dots. */
  lemma {:induction false} FinishName(b: Build, msg: seq<Byte>, hasBase: bool, start: nat, labels: seq<Label>, cursor: nat, texts: seq<seq<Byte>>)
    requires Walk(b, msg, hasBase, start, NameFuel(msg)) == Ok(Walked(labels, cursor))
    requires labels != [] && LabelsIn(msg, labels) && Texts(msg, labels) == texts
    ensures ParseName(b, msg, hasBase, start) == Ok(Parsed(DottedName(texts), cursor))
  {
    ParseNameOfWalk(b, msg, hasBase, start, labels, cursor);
    NameLayout(texts);
  }

  // ---------------------------------------------------------------------
  // Round trips
  // ---------------------------------------------------------------------

  /** A walk that found labels is a decoded name. */
  lemma {:induction false} ParseNameOfWalk(b: Build, msg: seq<Byte>, hasBase: bool, start: nat, labels: seq<Label>, cursor: nat)
    requires Walk(b, msg, hasBase, start, NameFuel(msg)) == Ok(Walked(labels, cursor))
    requires labels != [] && LabelsIn(msg, labels)
    ensures ParseName(b, msg, hasBase, start) == Ok(Parsed(NameBytes(Texts(msg, labels)), cursor))
  {
  }

  /** The decoding of an uncompressed name, stated over the chain its labels
      form; `end` is the byte after the terminating zero. */
  lemma {:induction false} ParseChainToEnd(b: Build, msg: seq<Byte>, hasBase: bool, at: nat, texts: seq<seq<Byte>>, end: nat)
    requires NameAt(b, msg, hasBase, at, texts)
    requires end == at + Span(Lengths(texts)) + 1
    ensures ParseName(b, msg, hasBase, at) == Ok(Parsed(DottedName(texts), end))
  {
    var lens := Lengths(texts);
    WalkChainToEnd(b, msg, hasBase, at, NameFuel(msg), lens);
    WalkBounds(b, msg, hasBase, at, NameFuel(msg));
    TextsOfOneRun(msg, at, texts);
    FinishName(b, msg, hasBase, at, PlainLabels(at, lens), end, texts);
  }

  /** An encoded name occurring in the message is seen as such by the decoder. */
  lemma {:induction false} UncompressedLayout(b: Build, msg: seq<Byte>, hasBase: bool, at: nat, texts: seq<seq<Byte>>)
    requires texts != [] && ValidLabels(texts)
    requires Occurs(msg, at, EncodeName(texts))
    ensures NameAt(b, msg, hasBase, at, texts)
    ensures at + |EncodeName(texts)| == at + Span(Lengths(texts)) + 1
  {
    OccursHolds(msg, at, EncodeName(texts));
    FuelSuffices(b, msg, hasBase, at, texts);
  }

  /** Decoding an uncompressed name gives its labels joined by dots and
      NUL-terminated, and moves the cursor past the whole name. */
  lemma {:induction false} ParseUncompressedName(b: Build, msg: seq<Byte>, hasBase: bool, at: nat, texts: seq<seq<Byte>>)
    requires texts != [] && ValidLabels(texts)
    requires Occurs(msg, at, EncodeName(texts))
    ensures ParseName(b, msg, hasBase, at) == Ok(Parsed(DottedName(texts), at + |EncodeName(texts)|))
  {
    OccursHolds(msg, at, EncodeName(texts));
    ParseEncodedName(b, msg, hasBase, at, texts);
  }

  /** `ParseUncompressedName` for an occurrence given byte by byte. */
  lemma {:induction false} ParseEncodedName(b: Build, msg: seq<Byte>, hasBase: bool, at: nat, texts: seq<seq<Byte>>)
    requires texts != [] && ValidLabels(texts)
    requires Holds(msg, at, EncodeName(texts))
    ensures ParseName(b, msg, hasBase, at) == Ok(Parsed(DottedName(texts), at + |EncodeName(texts)|))
  {
    FuelSuffices(b, msg, hasBase, at, texts);
    ParseChainToEnd(b, msg, hasBase, at, texts, at + |EncodeName(texts)|);
  }

  /** The decoding of labels followed by a pointer, stated over the chains
      the labels form; `end` is the byte after the pointer. */
  lemma {:induction false} ParseChainThenPointer(b: Build, msg: seq<Byte>, at: nat, prefix: seq<seq<Byte>>, offset: nat, suffix: seq<seq<Byte>>, end: nat)
    requires CompressedAt(b, msg, at, prefix, offset, suffix)
    requires end == at + Span(Lengths(prefix)) + 2
    ensures ParseName(b, msg, true, at) == Ok(Parsed(DottedName(prefix + suffix), end))
  {
    var fuel := NameFuel(msg);
    var lp, ls := Lengths(prefix), Lengths(suffix);
    WalkCompressed(b, msg, at, fuel, lp, offset, ls, end);
    TextsOfTwoRuns(msg, at, prefix, offset, suffix);
    FinishName(b, msg, true, at, PlainLabels(at, lp) + PlainLabels(offset, ls), end, prefix + suffix);
  }

  /** `ParseCompressedName` for occurrences given byte by byte. */
  lemma {:induction false} ParseHeldCompressedName(b: Build, msg: seq<Byte>, at: nat, prefix: seq<seq<Byte>>, offset: nat, suffix: seq<seq<Byte>>)
    requires ValidLabels(prefix) && ValidLabels(suffix) && suffix != []
    requires offset < 0x4000 && ReadsPointer(b, offset)
    requires Holds(msg, at, EncodeLabels(prefix) + EncodePointer(offset))
    requires Holds(msg, offset, EncodeName(suffix))
    ensures ParseName(b, msg, true, at)
            == Ok(Parsed(DottedName(prefix + suffix), at + |EncodeLabels(prefix)| + 2))
  {
    PrefixThenPointer(b, msg, at, prefix, offset, suffix);
    ParseChainThenPointer(b, msg, at, prefix, offset, suffix, at + |EncodeLabels(prefix)| + 2);
  }

  /** Compression: labels followed by a pointer to an uncompressed name decode
      to all the labels in order, and the cursor stops right after the
      pointer. */
  lemma {:induction false} ParseCompressedName(b: Build, msg: seq<Byte>, at: nat, prefix: seq<seq<Byte>>, offset: nat, suffix: seq<seq<Byte>>)
    requires ValidLabels(prefix) && ValidLabels(suffix) && suffix != []
    requires offset < 0x4000 && ReadsPointer(b, offset)
    requires Occurs(msg, at, EncodeLabels(prefix) + EncodePointer(offset))
    requires Occurs(msg, offset, EncodeName(suffix))
    ensures ParseName(b, msg, true, at)
            == Ok(Parsed(DottedName(prefix + suffix), at + |EncodeLabels(prefix)| + 2))
  {
    OccursHolds(msg, at, EncodeLabels(prefix) + EncodePointer(offset));
    OccursHolds(msg, offset, EncodeName(suffix));
    ParseHeldCompressedName(b, msg, at, prefix, offset, suffix);
  }


  // ---------------------------------------------------------------------
  // Behaviour on hostile input
  // ---------------------------------------------------------------------

  /** A label followed by a pointer back to that label: every build loops
      forever, whatever the fuel. */
  lemma {:induction false} SelfPointerDiverges(b: Build, fuel: nat)
    decreases fuel
    ensures Walk(b, [1, 97, 0xC0, 0x00], true, 0, fuel) == Fail(Diverges)
    ensures Walk(b, [1, 97, 0xC0, 0x00], true, 2, fuel) == Fail(Diverges)
  {
    var msg: seq<Byte> := [1, 97, 0xC0, 0x00];
    assert StepAt(b, msg, true, 0) == Next(Label(1, 1), 2, false);
    assert StepAt(b, msg, true, 2) == Next(Label(1, 1), 2, true);
    if fuel > 0 {
      SelfPointerDiverges(b, fuel - 1);
    }
  }

  /** The cycle is reported as divergence by the decoder model. */
  lemma {:induction false} SelfPointerName(b: Build)
    ensures ParseName(b, [1, 97, 0xC0, 0x00], true, 0) == Fail(Diverges)
  {
    SelfPointerDiverges(b, NameFuel([1, 97, 0xC0, 0x00]));
  }

  /** As written, a pointer to a zero byte is not the end of the name: the
      zero byte is taken as an empty label and decoding goes on with the byte
      after it, so the name gets an empty first label and a label that is
      not part of the name pointed to. */
  lemma {:induction false} PointerToZeroByte(signedChar: bool)
    ensures ParseName(AsWritten(signedChar), [0xC0, 0x02, 0x00, 0x01, 97, 0x00], true, 0)
            == Ok(Parsed([DOT, 97, NUL], 2))
  {
    var b := AsWritten(signedChar);
    var msg: seq<Byte> := [0xC0, 0x02, 0x00, 0x01, 97, 0x00];
    assert StepAt(b, msg, true, 0) == Next(Label(3, 0), 3, true);
    assert StepAt(b, msg, true, 3) == Next(Label(4, 1), 5, false);
    WalkAtTerminator(b, msg, true, 5, 5);
    WalkUnfoldNext(b, msg, true, 3, 6, Label(4, 1), 5, false);
    assert [Label(4, 1)] + [] == [Label(4, 1)];
    WalkUnfoldNext(b, msg, true, 0, 7, Label(3, 0), 3, true);
    var labels := [Label(3, 0), Label(4, 1)];
    assert [Label(3, 0)] + [Label(4, 1)] == labels;
    assert Walk(b, msg, true, 0, NameFuel(msg)) == Ok(Walked(labels, 2));
    WalkBounds(b, msg, true, 0, NameFuel(msg));
    var texts := Texts(msg, labels);
    assert texts == [[], [97]] by {
      assert labels[1..] == [Label(4, 1)];
      assert msg[4..5] == [97] && msg[3..3] == [];
      assert Texts(msg, [Label(4, 1)]) == [[97]];
    }
    ParseNameOfWalk(b, msg, true, 0, labels, 2);
    assert DotTerminated(texts) == [DOT, 97, DOT] by {
      assert texts[1..] == [[97]];
      assert DotTerminated([[97]]) == [97, DOT];
    }
    assert NameBytes(texts) == [DOT, 97, NUL];
  }

  /** Repaired, the same pointer ends the name at the root: the name is
      empty and the cursor stops after the pointer. */
  lemma {:induction false} RepairedPointerToZeroByte()
    ensures ParseName(Repaired, [0xC0, 0x02, 0x00, 0x01, 97, 0x00], true, 0) == Ok(Parsed([NUL], 2))
  {
    var msg: seq<Byte> := [0xC0, 0x02, 0x00, 0x01, 97, 0x00];
    assert StepAt(Repaired, msg, true, 0) == Stop(2);
    assert Walk(Repaired, msg, true, 0, NameFuel(msg)) == Ok(Walked([], 2));
  }

  /** As written, the root name (a lone zero byte) finds no label: the
      decoder allocates an empty name and writes before its start. */
  lemma {:induction false} RootNameFaults(signedChar: bool, msg: seq<Byte>, hasBase: bool, start: nat)
    requires start < |msg| && msg[start] == NUL
    ensures ParseName(AsWritten(signedChar), msg, hasBase, start) == Fail(Fault)
  {
    ParseNameFirstByte(AsWritten(signedChar), msg, hasBase, start);
  }

  /** Repaired, the root name is the empty name and the cursor moves past its
      zero byte. */
  lemma {:induction false} RepairedRootName(msg: seq<Byte>, hasBase: bool, start: nat)
    requires start < |msg| && msg[start] == NUL
    ensures ParseName(Repaired, msg, hasBase, start) == Ok(Parsed([NUL], start + 1))
  {
    ParseNameFirstByte(Repaired, msg, hasBase, start);
  }

  /** The pointer bound lets through an offset equal to the message length:
      as written the decoder then reads the byte just past the message;
      repaired, the pointer is invalid. */
  lemma {:induction false} PointerToEnd(signedChar: bool)
    ensures ParseName(AsWritten(signedChar), [0xC0, 0x02], true, 0) == Fail(Fault)
    ensures ParseName(Repaired, [0xC0, 0x02], true, 0) == Fail(Invalid)
  {
    var msg: seq<Byte> := [0xC0, 0x02];
    assert StepAt(AsWritten(signedChar), msg, true, 0) == StepFail(Fault);
    assert StepAt(Repaired, msg, true, 0) == StepFail(Invalid);
  }

  /** Where `char` is signed, a pointer whose low offset byte is 0x80 or
      more is taken to point 0xFF00 further on.  In a message shorter than
      that, a name made of labels and such a pointer is rejected, where a
      build with an unsigned `char` or the repaired one reads it back
      (`ParseCompressedName`). */
  lemma {:induction false} SignedPointerRejected(msg: seq<Byte>, at: nat, prefix: seq<seq<Byte>>, offset: nat)
    requires ValidLabels(prefix) && offset < 0x4000 && offset % 0x100 >= 0x80 && |msg| < 0xFF80
    requires Occurs(msg, at, EncodeLabels(prefix) + EncodePointer(offset))
    ensures ParseName(AsWritten(true), msg, true, at) == Fail(Invalid)
  {
    var b := AsWritten(true);
    var p := at + |EncodeLabels(prefix)|;
    var lens := Lengths(prefix);
    OccursHolds(msg, at, EncodeLabels(prefix) + EncodePointer(offset));
    PrefixLayout(b, msg, true, at, prefix, EncodePointer(offset));
    assert msg[p] == POINTER_TAG + offset / 0x100 && msg[p + 1] == offset % 0x100;
    assert StepAt(b, msg, true, p) == StepFail(Invalid);
    assert Walk(b, msg, true, p, NameFuel(msg) - |lens|) == Fail(Invalid);
    ParseFailsAfterLabels(b, msg, at, lens, Invalid);
  }

  /** A name whose labels are followed by a step that fails fails with it. */
  lemma {:induction false} ParseFailsAfterLabels(b: Build, msg: seq<Byte>, at: nat, lens: seq<nat>, e: DnsError)
    requires Chain(b, msg, true, at, lens) && |lens| <= NameFuel(msg)
    requires Walk(b, msg, true, at + Span(lens), NameFuel(msg) - |lens|) == Fail(e)
    ensures ParseName(b, msg, true, at) == Fail(e)
  {
    WalkThroughLabels(b, msg, true, at, NameFuel(msg), lens);
  }

  // ---------------------------------------------------------------------
  // The repaired decoder
  // ---------------------------------------------------------------------

  /** Repaired, a step against the message base never has undefined
      behaviour. */
  lemma {:induction false} RepairedStepNeverFaults(msg: seq<Byte>, at: nat)
    ensures StepAt(Repaired, msg, true, at) != StepFail(Fault)
  {
  }

  /** Repaired, a walk against the message base never has undefined
      behaviour. */
  lemma {:induction false} RepairedWalkNeverFaults(msg: seq<Byte>, at: nat, fuel: nat)
    decreases fuel
    ensures Walk(Repaired, msg, true, at, fuel) != Fail(Fault)
  {
    RepairedStepNeverFaults(msg, at);
    if fuel > 0 && StepAt(Repaired, msg, true, at).Next? {
      RepairedWalkNeverFaults(msg, StepAt(Repaired, msg, true, at).next, fuel - 1);
    }
  }

  /** Repaired, decoding a name against the message base never has
      undefined behaviour: it yields a name, rejects the message as invalid,
      or finds a cycle. */
  lemma {:induction false} RepairedNeverFaults(msg: seq<Byte>, start: nat)
    ensures ParseName(Repaired, msg, true, start).Fail? ==>
              ParseName(Repaired, msg, true, start).error in {Invalid, Diverges}
  {
    RepairedWalkNeverFaults(msg, start, NameFuel(msg));
    var w := Walk(Repaired, msg, true, start, NameFuel(msg));
    if w.Fail? {
      assert w.error == Invalid || w.error == Diverges;
      assert ParseName(Repaired, msg, true, start) == Fail(w.error);
    } else {
      assert ParseName(Repaired, msg, true, start).Ok?;
    }
  }
}
