/**
  The bidirectional sequenced-stream reassembler (`struct packet_stream`).

  Each direction has a cursor (`cur_seq`), the last acknowledgement seen
  (`cur_ack`) and a queue of segments that arrived ahead of the cursor, kept
  in sequence order.  A segment that is next in its direction is handed to
  the stream's handler at once, and then every queued segment that has
  become next is handed over too.  All ordering uses the half-range
  comparison `SeqNum.Before`.

  The handler is a parameter: it returns POM_ERR for the handovers whose
  positions in the call's delivery log (counted from 0) are in `refused`;
  what it receives is recorded in that log.

  The `Build` parameter selects the code as written or a repaired variant
  that differs at the places listed with `Build`; everything else is shared.
 */
module Stream {
  import opened Common
  import opened SeqNum

  /** The code as written, or with the repairs at the places marked by `b.Repaired?`. */
  datatype Build = AsWritten | Repaired

  /** One slot of the protocol-processing stack: where the slot's payload
      starts in the packet, its length and the connection direction. */
  datatype Layer = Layer(pload: nat, plen: U32, dir: Dir)

  /** One `struct packet_stream_pkt`: the sequence number of its first byte,
      its acknowledgement number, its length, the index of the stream's slot
      in its processing stack, and that stack.  A queued segment holds the copy
      of the stack taken when it was queued; a segment without payload is
      queued with neither a stack copy nor a packet (both null). */
  datatype Segment = Segment(start: U32, ack: U32, plen: U32, index: nat, stack: Option<seq<Layer>>)

  /** PACKET_FLAG_STREAM_BIDIR and the two "direction seen" flags. */
  datatype Flags = Flags(bidir: bool, gotFwd: bool, gotRev: bool)

  datatype Stream = Stream(
    curSeq: PerDir<U32>,
    curAck: PerDir<U32>,
    queues: PerDir<seq<Segment>>,
    buffSize: nat,
    maxBuffSize: U32,
    flags: Flags)

  /** The arguments the handler receives: a processing stack and the index of
      the slot holding the stream payload. */
  datatype Delivery = Delivery(stack: Option<seq<Layer>>, index: nat)

  /** How processing ends: POM_OK, POM_ERR, or a step whose C behaviour is
      undefined (a null dereference or a use after free). */
  datatype Status = Ok | Err | Fault

  datatype Result = Result(status: Status, stream: Stream, log: seq<Delivery>)

  // ---------------------------------------------------------------------
  // Invariant
  // ---------------------------------------------------------------------

  /** The bytes held by a queue. */
  function Held(q: seq<Segment>): nat
  {
    if q == [] then 0 else q[0].plen + Held(q[1..])
  }

  /** A queued segment's stack copy has the stream slot, of the segment's own
      length; a segment without a copy has no payload. */
  predicate WellFormed(seg: Segment)
  {
    match seg.stack
    case Some(st) => seg.index < |st| && st[seg.index].plen == seg.plen
    case None => seg.plen == 0
  }

  /** Each queued segment is not before the one in front of it. */
  predicate Sorted(q: seq<Segment>)
  {
    forall i :: 0 < i < |q| ==> !Before(q[i].start, q[i - 1].start)
  }

  predicate QueueOk(q: seq<Segment>)
  {
    Sorted(q) && forall i :: 0 <= i < |q| ==> WellFormed(q[i])
  }

  /** What every stream keeps: `cur_buff_size` is the number of bytes queued in
      both directions, and both queues are well formed and sorted. */
  predicate Valid(s: Stream)
  {
    && s.buffSize == Held(s.queues.fwd) + Held(s.queues.rev)
    && QueueOk(s.queues.fwd) && QueueOk(s.queues.rev)
  }

  /** The number of queued segments, which bounds the draining. */
  function Queued(s: Stream): nat
  {
    |s.queues.fwd| + |s.queues.rev|
  }

  /** `a` is what is left of `b` after unlinking some segments from its head. */
  predicate Suffix(a: seq<Segment>, b: seq<Segment>)
    decreases |b|
  {
    |a| <= |b| && if |a| == |b| then a == b else Suffix(a, b[1..])
  }

  /** `t` is `s` with segments unlinked from the heads of its queues and
      nothing else changed. */
  predicate Unlinked(s: Stream, t: Stream)
  {
    && t.curSeq == s.curSeq && t.curAck == s.curAck
    && t.maxBuffSize == s.maxBuffSize && t.flags == s.flags
    && Suffix(t.queues.fwd, s.queues.fwd) && Suffix(t.queues.rev, s.queues.rev)
  }

  lemma {:induction false} UnlinkedTrans(s: Stream, t: Stream, u: Stream)
    requires Unlinked(s, t) && Unlinked(t, u)
    ensures Unlinked(s, u) && Queued(u) <= Queued(t) <= Queued(s)
  {
    SuffixTrans(u.queues.fwd, t.queues.fwd, s.queues.fwd);
    SuffixTrans(u.queues.rev, t.queues.rev, s.queues.rev);
  }

  lemma {:induction false} SuffixTrans(a: seq<Segment>, b: seq<Segment>, c: seq<Segment>)
    requires Suffix(a, b) && Suffix(b, c)
    ensures Suffix(a, c)
    decreases |c|
  {
    if |b| < |c| {
      SuffixTrans(a, b, c[1..]);
    }
  }

  /** `packet_stream_alloc`.  The reverse direction starts where the given
      direction's acknowledgement points, and acknowledges its start.  A
      failing mutex initialisation is not modelled. */
  function Alloc(startSeq: U32, startAck: U32, dir: Dir, maxBuffSize: U32, flags: Flags): (r: Stream)
    ensures Valid(r) && Queued(r) == 0 && r.buffSize == 0
    ensures r.curSeq.Get(dir) == startSeq && r.curAck.Get(dir) == startAck
    ensures r.curSeq.Get(dir.Reverse()) == startAck && r.curAck.Get(dir.Reverse()) == startSeq
  {
    var none := PerDir(0, 0);
    Stream(none.Set(dir, startSeq).Set(dir.Reverse(), startAck),
           none.Set(dir, startAck).Set(dir.Reverse(), startSeq),
           PerDir([], []), 0, maxBuffSize, flags)
  }

  // ---------------------------------------------------------------------
  // The three helpers
  // ---------------------------------------------------------------------

  /** `packet_stream_is_packet_next`: there is no gap between the cursor and
      the segment and, on a bidirectional stream, the segment does not
      acknowledge bytes the other direction has not delivered yet. */
  predicate IsNext(s: Stream, seg: Segment, d: Dir)
  {
    && !Before(s.curSeq.Get(d), seg.start)
    && (s.flags.bidir ==> !Before(s.curSeq.Get(d.Reverse()), seg.ack))
  }

  /** `packet_stream_is_packet_old_dupe`: the cursor is past the segment's end. */
  predicate IsOldDupe(cur: U32, start: U32, plen: U32)
  {
    Before(Add32(start, plen), cur)
  }

  datatype Trim = Trimmed(seg: Segment) | TrimErr | TrimFault

  /** `packet_stream_remove_dupe_bytes`.  A segment that starts before the
      cursor loses the bytes in front of the cursor from its stack slot and
      is moved to start at the cursor; its queued length `plen` is not
      changed.  More duplicate bytes than the slot holds is the "internal
      error"; a segment queued without a stack copy faults. */
  function RemoveDupeBytes(cur: U32, seg: Segment): (r: Trim)
    requires seg.stack.Some? ==> seg.index < |seg.stack.value|
    ensures !Before(seg.start, cur) ==> r == Trimmed(seg)
    ensures r.TrimFault? <==> Before(seg.start, cur) && seg.stack.None?
    ensures r.TrimErr? <==> Before(seg.start, cur) && seg.stack.Some? && Sub32(cur, seg.start) > seg.stack.value[seg.index].plen
    ensures r.Trimmed? ==> && r.seg.ack == seg.ack && r.seg.plen == seg.plen && r.seg.index == seg.index
                           && r.seg.stack.Some? == seg.stack.Some?
    ensures r.Trimmed? && Before(seg.start, cur) ==>
      var st, st' := seg.stack.value, r.seg.stack.value;
      && r.seg.start == cur
      && |st'| == |st|
      && (forall j :: 0 <= j < |st| && j != seg.index ==> st'[j] == st[j])
      && st'[seg.index].dir == st[seg.index].dir
      && st'[seg.index].pload == st[seg.index].pload + Distance(seg.start, cur)
      && Add32(cur, st'[seg.index].plen) == Add32(seg.start, st[seg.index].plen)
  {
    if !Before(seg.start, cur) then Trimmed(seg)
    else
      var dupe := Sub32(cur, seg.start);
      match seg.stack
      case None => TrimFault
      case Some(st) =>
        var slot := st[seg.index];
        if dupe > slot.plen then TrimErr
        else
          AddSubInverse(seg.start, cur);
          TrimKeepsEnd(seg.start, cur, slot.plen);
          Trimmed(seg.(start := Add32(seg.start, dupe),
                       stack := Some(st[seg.index := Layer(slot.pload + dupe, slot.plen - dupe, slot.dir)])))
  }

  /** Cutting the `cur - start` bytes before the cursor off a slot of length
      `plen` leaves a slot that ends where the original did. */
  lemma {:induction false} TrimKeepsEnd(start: U32, cur: U32, plen: U32)
    requires Sub32(cur, start) <= plen
    ensures Add32(cur, plen - Sub32(cur, start)) == Add32(start, plen)
  {
    var dupe := Sub32(cur, start);
    assert cur == start + dupe || cur == start + dupe - U32_MODULUS;
  }

  /** A segment that starts before the cursor either has at most `plen` bytes
      in front of the cursor or is an old duplicate. */
  lemma {:induction false} DupeWithinLength(start: U32, plen: U32, cur: U32)
    requires Before(start, cur)
    ensures Sub32(cur, start) <= plen || IsOldDupe(cur, start, plen)
  {
    var dupe := Sub32(cur, start);
    BeforeIffDistance(start, cur);
    if plen < dupe {
      var end := Add32(start, plen);
      assert Distance(end, cur) == dupe - plen by {
        assert end == start + plen || end == start + plen - U32_MODULUS;
        assert cur == start + dupe || cur == start + dupe - U32_MODULUS;
      }
      BeforeIffDistance(end, cur);
    }
  }

  // ---------------------------------------------------------------------
  // Queueing
  // ---------------------------------------------------------------------

  /** The insertion loop of `packet_stream_process_packet`: walking back from
      the tail, the segment goes right after the last queued segment that it
      is not before, or at the head if there is none. */
  function Insert(q: seq<Segment>, seg: Segment): seq<Segment>
    decreases |q|
  {
    if q == [] then [seg]
    else if Before(seg.start, q[|q| - 1].start) then Insert(q[..|q| - 1], seg) + [q[|q| - 1]]
    else q + [seg]
  }

  /** Where `Insert` puts the segment. */
  function InsertPos(q: seq<Segment>, seg: Segment): (k: nat)
    ensures k <= |q|
    decreases |q|
  {
    if q == [] then 0
    else if Before(seg.start, q[|q| - 1].start) then InsertPos(q[..|q| - 1], seg)
    else |q|
  }

  /** The segment lands right after the last segment it is not before: every
      segment behind it starts after it, and the one in front of it does not. */
  lemma {:induction false} InsertPlacement(q: seq<Segment>, seg: Segment)
    ensures var k := InsertPos(q, seg);
      && Insert(q, seg) == q[..k] + [seg] + q[k..]
      && (forall j :: k <= j < |q| ==> Before(seg.start, q[j].start))
      && (k > 0 ==> !Before(seg.start, q[k - 1].start))
    decreases |q|
  {
    if q != [] && Before(seg.start, q[|q| - 1].start) {
      var init := q[..|q| - 1];
      InsertPlacement(init, seg);
      var k := InsertPos(init, seg);
      assert q[..k] == init[..k];
      assert q[k..] == init[k..] + [q[|q| - 1]];
    }
  }

  lemma {:induction false} HeldConcat(a: seq<Segment>, b: seq<Segment>)
    ensures Held(a + b) == Held(a) + Held(b)
    decreases |a|
  {
    if a != [] {
      assert (a + b)[1..] == a[1..] + b;
      HeldConcat(a[1..], b);
    } else {
      assert a + b == b;
    }
  }

  /** Inserting a segment into a sorted queue keeps it sorted. */
  lemma {:induction false} InsertKeepsSorted(q: seq<Segment>, seg: Segment)
    requires Sorted(q)
    ensures Sorted(Insert(q, seg))
  {
    InsertPlacement(q, seg);
    var k := InsertPos(q, seg);
    var r := Insert(q, seg);
    forall i | 0 < i < |r| ensures !Before(r[i].start, r[i - 1].start) {
      if i < k {
        assert r[i] == q[i] && r[i - 1] == q[i - 1];
      } else if i == k {
        assert r[i] == seg && r[i - 1] == q[k - 1];
      } else if i == k + 1 {
        assert r[i] == q[k] && r[i - 1] == seg;
        BeforeIrreflexiveAsymmetric(seg.start, q[k].start);
      } else {
        assert r[i] == q[i - 1] && r[i - 1] == q[i - 2];
      }
    }
  }

  /** Inserting a segment adds exactly it: one more entry and its bytes. */
  lemma {:induction false} InsertAddsOne(q: seq<Segment>, seg: Segment)
    ensures |Insert(q, seg)| == |q| + 1
    ensures Held(Insert(q, seg)) == Held(q) + seg.plen
    ensures forall x :: x in Insert(q, seg) <==> x in q || x == seg
  {
    InsertPlacement(q, seg);
    var k := InsertPos(q, seg);
    assert q == q[..k] + q[k..];
    HeldConcat(q[..k], q[k..]);
    HeldConcat(q[..k] + [seg], q[k..]);
    HeldConcat(q[..k], [seg]);
    assert Held([seg]) == seg.plen by {
      assert [seg][1..] == [];
    }
  }

  /** Inserting a well-formed segment into a well-formed sorted queue keeps
      it sorted and well formed. */
  lemma {:induction false} InsertKeepsQueue(q: seq<Segment>, seg: Segment)
    requires QueueOk(q) && WellFormed(seg)
    ensures QueueOk(Insert(q, seg))
  {
    InsertKeepsSorted(q, seg);
    InsertAddsOne(q, seg);
    var r := Insert(q, seg);
    forall i | 0 <= i < |r| ensures WellFormed(r[i]) {
      assert r[i] in q || r[i] == seg;
    }
  }

  /** Queue `seg` in direction `d` and count its bytes. */
  function Queue(s: Stream, d: Dir, seg: Segment): (r: Stream)
    requires Valid(s) && WellFormed(seg)
    ensures Valid(r) && Queued(r) == Queued(s) + 1
    ensures r.queues.Get(d) == Insert(s.queues.Get(d), seg)
    ensures r.queues.Get(d.Reverse()) == s.queues.Get(d.Reverse())
    ensures r.buffSize == s.buffSize + seg.plen
  {
    InsertKeepsQueue(s.queues.Get(d), seg);
    InsertAddsOne(s.queues.Get(d), seg);
    s.(queues := s.queues.Set(d, Insert(s.queues.Get(d), seg)), buffSize := s.buffSize + seg.plen)
  }

  /** Unlink the head of direction `d` and uncount its bytes. */
  function Drop(s: Stream, d: Dir): (r: Stream)
    requires Valid(s) && s.queues.Get(d) != []
    ensures Valid(r) && Queued(r) == Queued(s) - 1
    ensures r.queues.Get(d) == s.queues.Get(d)[1..]
    ensures r.queues.Get(d.Reverse()) == s.queues.Get(d.Reverse())
    ensures r.buffSize == s.buffSize - s.queues.Get(d)[0].plen
    ensures Unlinked(s, r)
  {
    var q := s.queues.Get(d);
    assert QueueOk(q[1..]) by {
      forall i | 0 < i < |q[1..]| ensures !Before(q[1..][i].start, q[1..][i - 1].start) {
        assert q[1..][i] == q[i + 1] && q[1..][i - 1] == q[i];
      }
    }
    s.(queues := s.queues.Set(d, q[1..]), buffSize := s.buffSize - q[0].plen)
  }

  // ---------------------------------------------------------------------
  // packet_stream_get_next
  // ---------------------------------------------------------------------

  /** How the pass over one direction's queue in `packet_stream_get_next` ends. */
  datatype Scan =
    | Exhausted(s: Stream)             // the queue is (or became) empty
    | Gap(s: Stream)                   // its head is not next
    | Found(s: Stream, seg: Segment)   // its head, possibly trimmed, is to be dequeued
    | Stuck(s: Stream)                 // trimming the head failed: get_next returns null
    | ScanFault                        // undefined behaviour

  /** The segment handed out for the queue head `head`: same acknowledgement,
      queued length, slot index and stack presence, and a stack copy that
      still has the slot. */
  predicate Matches(seg: Segment, head: Segment)
  {
    && seg.ack == head.ack && seg.plen == head.plen && seg.index == head.index
    && seg.stack.Some? == head.stack.Some?
    && (seg.stack.Some? ==> seg.index < |seg.stack.value|)
    && (seg.stack.None? ==> seg.plen == 0)
  }

  /** One pass of `packet_stream_get_next` over direction `d`, the `i`-th
      direction tried.  When the buffer is full the head is taken as it is.
      Otherwise a head that is not next ends the pass, one that starts at the
      cursor is taken, an old duplicate is freed and the pass goes on, and any
      other head is trimmed to the cursor and taken.

      As written, the old-duplicate test reads the cursor of direction `i`
      rather than `d`; freeing the last queued segment leaves the freed
      segment to be dequeued; and freeing a segment queued without a packet
      releases a null packet.  The repaired build tests against `d`'s cursor,
      ends the pass when the queue runs empty, and frees nothing absent. */
  function ScanDir(b: Build, s: Stream, d: Dir, i: Dir): (r: Scan)
    requires Valid(s)
    ensures !r.ScanFault? ==> Valid(r.s) && Unlinked(s, r.s) && r.s.queues.Get(d.Reverse()) == s.queues.Get(d.Reverse())
    ensures r.Found? ==> r.s.queues.Get(d) != [] && Matches(r.seg, r.s.queues.Get(d)[0])
    decreases |s.queues.Get(d)|
  {
    var q := s.queues.Get(d);
    if q == [] then Exhausted(s)
    else
      var head := q[0];
      var cur := s.curSeq.Get(d);
      assert WellFormed(head);
      if s.buffSize >= s.maxBuffSize then Found(s, head)
      else if !IsNext(s, head, d) then Gap(s)
      else if cur == head.start then Found(s, head)
      else if IsOldDupe(s.curSeq.Get(if b.AsWritten? then i else d), head.start, head.plen) then
        if b.AsWritten? && head.stack.None? then ScanFault
        else
          var s' := Drop(s, d);
          if s'.queues.Get(d) == [] then
            if b.AsWritten? then ScanFault else Exhausted(s')
          else
            var r := ScanDir(b, s', d, i);
            assert !r.ScanFault? ==> Unlinked(s, r.s) by {
              if !r.ScanFault? {
                UnlinkedTrans(s, s', r.s);
              }
            }
            r
      else
        match RemoveDupeBytes(cur, head)
        case Trimmed(h) => Found(s, h)
        case TrimErr => Stuck(s)
        case TrimFault => ScanFault
  }

  /** What `packet_stream_get_next` returns. */
  datatype Next =
    | NoNext(s: Stream)                       // null
    | Next(seg: Segment, d: Dir, s: Stream)   // a segment dequeued from direction `d`
    | NextFault                               // undefined behaviour

  /** What `GetNext` guarantees about its outcome `n` on a valid stream `s`:
      the stream stays valid, and a returned segment has been unlinked and
      has its slot. */
  predicate NextOk(s: Stream, n: Next)
  {
    && (!n.NextFault? ==> Valid(n.s))
    && (n.Next? ==> && Queued(n.s) < Queued(s)
                    && (n.seg.stack.Some? ==> n.seg.index < |n.seg.stack.value|)
                    && (n.seg.stack.None? ==> n.seg.plen == 0))
  }

  /** `packet_stream_get_next`: a pass over direction `d`, then, when that
      finds nothing to hand out, a pass over the other one. */
  function GetNext(b: Build, s: Stream, d: Dir): (r: Next)
    requires Valid(s)
    ensures NextOk(s, r)
    ensures !r.NextFault? ==> Unlinked(s, r.s)
  {
    var r1 := ScanDir(b, s, d, Fwd);
    if r1.ScanFault? then NextFault
    else if r1.Found? then Take(s, r1.s, d, r1.seg)
    else if r1.Stuck? then NoNext(r1.s)
    else SecondPass(b, s, r1.s, d.Reverse())
  }

  /** The pass over the second direction `e`, after the first pass left `s1`. */
  function SecondPass(b: Build, s: Stream, s1: Stream, e: Dir): (r: Next)
    requires Valid(s1) && Unlinked(s, s1)
    ensures NextOk(s, r)
    ensures !r.NextFault? ==> Unlinked(s, r.s)
  {
    var r2 := ScanDir(b, s1, e, Rev);
    if r2.ScanFault? then NextFault
    else
      UnlinkedTrans(s, s1, r2.s);
      if r2.Found? then Take(s, r2.s, e, r2.seg) else NoNext(r2.s)
  }

  /** The dequeueing that ends `packet_stream_get_next`: the head of direction
      `e` is unlinked and its queued length uncounted; `seg` is handed out. */
  function Take(s: Stream, s1: Stream, e: Dir, seg: Segment): (r: Next)
    requires Valid(s1) && Unlinked(s, s1)
    requires s1.queues.Get(e) != [] && Matches(seg, s1.queues.Get(e)[0])
    ensures NextOk(s, r)
    ensures !r.NextFault? ==> Unlinked(s, r.s)
  {
    var s2 := Drop(s1, e);
    UnlinkedTrans(s, s1, s2);
    Next(seg, e, s2)
  }

  // ---------------------------------------------------------------------
  // packet_stream_process_packet
  // ---------------------------------------------------------------------

  /** The flags after a packet of direction `d`: a bidirectional stream records
      that the direction has been seen. */
  function Seen(f: Flags, d: Dir): Flags
  {
    if !f.bidir then f
    else if d.Fwd? then f.(gotFwd := true)
    else f.(gotRev := true)
  }

  /** What `packet_stream_process_packet` does with an arriving packet. */
  datatype Verdict =
    | Discard                     // an old duplicate: dropped
    | TrimFailed                  // trimming its duplicate bytes failed
    | Deliver(stack: seq<Layer>)  // next: handed over at once, with this stack
    | Enqueue(seg: Segment)       // not next: queued

  /** The decision for a packet whose stream slot is `stack[index]` and which
      starts at `start`.  A packet ending before the cursor is discarded; one
      starting before the cursor is trimmed to it; it is then delivered when
      next, and queued otherwise, with a stack copy only when it has payload.

      As written the packet is wrapped with slot index 0 rather than `index`,
      so the trimming works on slot 0; the queued segment keeps the original
      start and the length of slot `index`.  The repaired build trims slot
      `index` and queues the trimmed start and length. */
  function Admit(b: Build, s: Stream, stack: seq<Layer>, index: nat, start: U32, ack: U32): (v: Verdict)
    requires index < |stack|
    ensures v.Deliver? ==> |v.stack| == |stack|
    ensures v.Enqueue? ==> WellFormed(v.seg) && v.seg.ack == ack && v.seg.index == index
  {
    var dir := stack[index].dir;
    var cur := s.curSeq.Get(dir);
    var spkt := Segment(start, ack, stack[index].plen, if b.AsWritten? then 0 else index, Some(stack));
    if cur != start && IsOldDupe(cur, start, spkt.plen) then Discard
    else
      var t := if cur != start then RemoveDupeBytes(cur, spkt) else Trimmed(spkt);
      // the packet comes with its stack, so only the internal error is possible
      if !t.Trimmed? then TrimFailed
      else
        var st := t.seg.stack.value;
        if IsNext(s, t.seg, dir) then Deliver(st)
        else
          var len := st[index].plen;
          Enqueue(Segment(if b.AsWritten? then start else t.seg.start, ack, len, index,
                          if len != 0 then Some(st) else None))
  }

  /** `packet_stream_process_packet` for a packet whose stream slot is
      `stack[index]`.  A delivered packet advances its direction's cursor by
      its slot's length and sets the acknowledgement; then queued segments are
      drained.  A trimming failure and a handler failure give POM_ERR. */
  function Process(b: Build, s: Stream, stack: seq<Layer>, index: nat, start: U32, ack: U32,
                   refused: set<nat>): (r: Result)
    requires Valid(s) && index < |stack|
    ensures Valid(r.stream)
    ensures |r.log| <= 1 + Queued(s)
    ensures r.log != [] ==> r.log[0].index == index && r.log[0].stack.Some?
  {
    var dir := stack[index].dir;
    var s1 := s.(flags := Seen(s.flags, dir));
    match Admit(b, s1, stack, index, start, ack)
    case Discard => Result(Ok, s1, [])
    case TrimFailed => Result(Err, s1, [])
    case Enqueue(seg) => Result(Ok, Queue(s1, dir, seg), [])
    case Deliver(st) =>
      var s2 := s1.(curSeq := s1.curSeq.Set(dir, Add32(s1.curSeq.Get(dir), st[index].plen)),
                    curAck := s1.curAck.Set(dir, ack));
      var first := Delivery(Some(st), index);
      if 0 in refused then Result(Err, s2, [first])
      else Drain(b, s2, dir, [first], refused)
  }

  /** The bytes a segment hands to the handler: the length of its slot. */
  function Delivered(seg: Segment): U32
    requires seg.stack.Some? ==> seg.index < |seg.stack.value|
  {
    match seg.stack
    case Some(st) => st[seg.index].plen
    case None => 0
  }

  /** The cursor and acknowledgement of direction `d` after handing over a
      dequeued segment.  As written the cursor moves on from where it was by
      the queued length, which trimming does not shorten; the repaired build
      puts it at the end of the bytes actually handed over, which also covers
      a head handed out across a gap because the buffer is full. */
  function Advance(b: Build, s: Stream, d: Dir, seg: Segment): Stream
    requires seg.stack.Some? ==> seg.index < |seg.stack.value|
  {
    var cur := if b.AsWritten? then Add32(s.curSeq.Get(d), seg.plen) else Add32(seg.start, Delivered(seg));
    s.(curSeq := s.curSeq.Set(d, cur), curAck := s.curAck.Set(d, seg.ack))
  }

  /** The loop over `packet_stream_get_next` after a delivery: each dequeued
      segment goes to the handler; a failure gives POM_ERR and loses the
      segment.  As written, releasing a segment queued without a stack copy
      reads through a null stack. */
  function Drain(b: Build, s: Stream, d: Dir, log: seq<Delivery>, refused: set<nat>): (r: Result)
    requires Valid(s)
    ensures Valid(r.stream)
    ensures |log| <= |r.log| <= |log| + Queued(s) && r.log[..|log|] == log
    decreases Queued(s), 1
  {
    DrainFrom(b, s, d, GetNext(b, s, d), log, refused)
  }

  /** One round of the loop, given what `packet_stream_get_next` returned. */
  function DrainFrom(b: Build, s: Stream, d: Dir, n: Next, log: seq<Delivery>, refused: set<nat>): (r: Result)
    requires Valid(s) && NextOk(s, n)
    ensures Valid(r.stream)
    ensures |log| <= |r.log| <= |log| + Queued(s) && r.log[..|log|] == log
    decreases Queued(s), 0
  {
    match n
    case NoNext(s1) => Result(Ok, s1, log)
    case NextFault => Result(Fault, s, log)
    case Next(seg, d1, s1) =>
      var del := Delivery(seg.stack, seg.index);
      if |log| in refused then Result(Err, s1, log + [del])
      else if b.AsWritten? && seg.stack.None? then Result(Fault, s1, log + [del])
      else
        var s2 := Advance(b, s1, d1, seg);
        assert Valid(s2) && Queued(s2) < Queued(s) by {
          assert s2.queues == s1.queues && s2.buffSize == s1.buffSize;
        }
        var r := Drain(b, s2, d1, log + [del], refused);
        assert r.log[..|log|] == log by {
          assert r.log[..|log|] == r.log[..|log| + 1][..|log|];
        }
        r
  }

  // ---------------------------------------------------------------------
  // Properties of the three helpers
  // ---------------------------------------------------------------------

  /** "Next" in terms of forward distances: the segment is not strictly within
      half the number space ahead of the cursor, and on a bidirectional stream
      its acknowledgement is not strictly within half the space ahead of the
      other direction's cursor. */
  lemma {:induction false} NextIffNoGap(s: Stream, seg: Segment, d: Dir)
    ensures IsNext(s, seg, d) <==>
      && !(0 < Distance(s.curSeq.Get(d), seg.start) < PACKET_HALF_SEQ)
      && (s.flags.bidir ==> !(0 < Distance(s.curSeq.Get(d.Reverse()), seg.ack) < PACKET_HALF_SEQ))
  {
    BeforeIffDistance(s.curSeq.Get(d), seg.start);
    BeforeIffDistance(s.curSeq.Get(d.Reverse()), seg.ack);
  }

  // ---------------------------------------------------------------------
  // Properties of packet_stream_get_next
  // ---------------------------------------------------------------------

  /** The outcome `r` of a pass over direction `d` from cursor `cur`: the
      bytes a handed-out segment hands over end where the queued head ends;
      and with the buffer not full the segment starts at the cursor, unless
      it is an untrimmed head exactly half the number space ahead. */
  predicate Aligned(cur: U32, d: Dir, r: Scan)
  {
    r.Found? && r.s.queues.Get(d) != [] && (r.seg.stack.Some? ==> r.seg.index < |r.seg.stack.value|) ==>
      var head := r.s.queues.Get(d)[0];
      && (r.s.buffSize < r.s.maxBuffSize ==>
            r.seg.start == cur || (r.seg == head && Distance(cur, head.start) == PACKET_HALF_SEQ))
      && Add32(r.seg.start, Delivered(r.seg)) == Add32(head.start, head.plen)
  }

  /** The pass step that frees the head as an old duplicate: it is next,
      not at the cursor, an old duplicate by the cursor the build tests
      against, and (as written) has a packet to free. */
  predicate DropsDupe(b: Build, s: Stream, d: Dir, i: Dir)
  {
    var q := s.queues.Get(d);
    && q != [] && s.buffSize < s.maxBuffSize && IsNext(s, q[0], d) && s.curSeq.Get(d) != q[0].start
    && IsOldDupe(s.curSeq.Get(if b.AsWritten? then i else d), q[0].start, q[0].plen)
    && (b.AsWritten? ==> q[0].stack.Some?)
  }

  lemma {:induction false} ScanFoundAligned(b: Build, s: Stream, d: Dir, i: Dir)
    requires Valid(s)
    ensures Aligned(s.curSeq.Get(d), d, ScanDir(b, s, d, i))
    decreases |s.queues.Get(d)|
  {
    if DropsDupe(b, s, d, i) {
      ScanDropsDupe(b, s, d, i);
      var s' := Drop(s, d);
      assert s'.curSeq == s.curSeq;
      if s'.queues.Get(d) != [] {
        ScanFoundAligned(b, s', d, i);
      }
    } else {
      ScanStepAligned(b, s, d, i);
    }
  }

  /** Every outcome of a pass that does not drop an old duplicate is aligned. */
  lemma {:induction false} ScanStepAligned(b: Build, s: Stream, d: Dir, i: Dir)
    requires Valid(s) && !DropsDupe(b, s, d, i)
    ensures Aligned(s.curSeq.Get(d), d, ScanDir(b, s, d, i))
  {
    var q := s.queues.Get(d);
    if q != [] && s.buffSize >= s.maxBuffSize {
      assert WellFormed(q[0]);
      assert ScanDir(b, s, d, i) == Found(s, q[0]);
    } else if q != [] && IsNext(s, q[0], d) {
      var head, cur := q[0], s.curSeq.Get(d);
      assert WellFormed(head);
      if cur == head.start {
        assert ScanDir(b, s, d, i) == Found(s, head);
      } else if !IsOldDupe(s.curSeq.Get(if b.AsWritten? then i else d), head.start, head.plen) {
        ScanTrims(b, s, d, i);
      }
    }
  }

  /** The pass step that trims a head which is next, not at the cursor and
      not an old duplicate. */
  lemma {:induction false} ScanTrims(b: Build, s: Stream, d: Dir, i: Dir)
    requires Valid(s) && s.queues.Get(d) != [] && s.buffSize < s.maxBuffSize
    requires var head := s.queues.Get(d)[0];
      && IsNext(s, head, d) && s.curSeq.Get(d) != head.start
      && !IsOldDupe(s.curSeq.Get(if b.AsWritten? then i else d), head.start, head.plen)
    ensures Aligned(s.curSeq.Get(d), d, ScanDir(b, s, d, i))
  {
    var head, cur := s.queues.Get(d)[0], s.curSeq.Get(d);
    TrimAligned(s, d);
    assert ScanDir(b, s, d, i) == match RemoveDupeBytes(cur, head)
                                  case Trimmed(h) => Found(s, h)
                                  case TrimErr => Stuck(s)
                                  case TrimFault => ScanFault;
  }

  /** The head a pass trims and hands out is aligned. */
  lemma {:induction false} TrimAligned(s: Stream, d: Dir)
    requires Valid(s) && s.queues.Get(d) != [] && s.buffSize < s.maxBuffSize
    requires IsNext(s, s.queues.Get(d)[0], d)
    ensures var head, cur := s.queues.Get(d)[0], s.curSeq.Get(d);
      WellFormed(head) &&
      var t := RemoveDupeBytes(cur, head);
      t.Trimmed? ==> Aligned(cur, d, Found(s, t.seg))
  {
    var head, cur := s.queues.Get(d)[0], s.curSeq.Get(d);
    assert WellFormed(head);
    if !Before(head.start, cur) {
      FourWayClassification(cur, head.start);
    }
  }

  /** In the repaired build a pass never gets stuck on a head it cannot trim
      and never faults: a head starting before the cursor that is not an old
      duplicate has fewer duplicate bytes than its length, and a head without
      a stack copy that starts before the cursor is an old duplicate. */
  lemma {:induction false} RepairedScanCompletes(s: Stream, d: Dir, i: Dir)
    requires Valid(s)
    ensures Completes(ScanDir(Repaired, s, d, i))
    decreases |s.queues.Get(d)|
  {
    var q := s.queues.Get(d);
    if q != [] && s.buffSize < s.maxBuffSize && IsNext(s, q[0], d) && s.curSeq.Get(d) != q[0].start {
      var head, cur := q[0], s.curSeq.Get(d);
      assert WellFormed(head);
      if IsOldDupe(cur, head.start, head.plen) {
        ScanDropsDupe(Repaired, s, d, i);
        var s' := Drop(s, d);
        if s'.queues.Get(d) != [] {
          RepairedScanCompletes(s', d, i);
        }
      } else {
        TrimSucceeds(cur, head);
      }
    }
  }

  /** A pass that neither got stuck nor faulted. */
  predicate Completes(r: Scan)
  {
    !r.Stuck? && !r.ScanFault?
  }

  /** Trimming a well-formed segment that is not an old duplicate succeeds. */
  lemma {:induction false} TrimSucceeds(cur: U32, seg: Segment)
    requires WellFormed(seg) && !IsOldDupe(cur, seg.start, seg.plen)
    ensures RemoveDupeBytes(cur, seg).Trimmed?
  {
    if Before(seg.start, cur) {
      assert seg.stack.None? ==> IsOldDupe(cur, seg.start, seg.plen);
      DupeWithinLength(seg.start, seg.plen, cur);
    }
  }

  /** In the repaired build `packet_stream_get_next` never faults. */
  lemma {:induction false} RepairedGetNextCompletes(s: Stream, d: Dir)
    requires Valid(s)
    ensures !GetNext(Repaired, s, d).NextFault?
  {
    RepairedScanCompletes(s, d, Fwd);
    var r1 := ScanDir(Repaired, s, d, Fwd);
    assert Completes(r1);
    if !r1.Found? {
      RepairedScanCompletes(r1.s, d.Reverse(), Rev);
    }
  }

  /** The pass step that frees an old duplicate at the head. */
  lemma {:induction false} ScanDropsDupe(b: Build, s: Stream, d: Dir, i: Dir)
    requires Valid(s) && DropsDupe(b, s, d, i)
    ensures var s' := Drop(s, d);
      ScanDir(b, s, d, i) == if s'.queues.Get(d) != [] then ScanDir(b, s', d, i)
                             else if b.AsWritten? then ScanFault else Exhausted(s')
  {
  }

  /** With nothing queued there is nothing to hand out and nothing changes. */
  lemma {:induction false} GetNextIdle(b: Build, s: Stream, d: Dir)
    requires Valid(s) && Queued(s) == 0
    ensures GetNext(b, s, d) == NoNext(s)
  {
    assert s.queues.Get(d) == [] && s.queues.Get(d.Reverse()) == [];
  }

  /** With the buffer full the head of the first direction is handed out as it
      is, whether or not it is next. */
  lemma {:induction false} GetNextFull(b: Build, s: Stream, d: Dir)
    requires Valid(s) && s.buffSize >= s.maxBuffSize && s.queues.Get(d) != []
    ensures GetNext(b, s, d) == Next(s.queues.Get(d)[0], d, Drop(s, d))
  {
  }

  /** A head that is next and starts at the cursor is handed out untouched. */
  lemma {:induction false} GetNextInOrder(b: Build, s: Stream, d: Dir)
    requires Valid(s) && s.queues.Get(d) != []
    requires IsNext(s, s.queues.Get(d)[0], d) && s.queues.Get(d)[0].start == s.curSeq.Get(d)
    ensures GetNext(b, s, d) == Next(s.queues.Get(d)[0], d, Drop(s, d))
  {
  }

  /** When the first direction has nothing next, a head of the other direction
      that is next and starts at its cursor is handed out. */
  lemma {:induction false} GetNextTurns(b: Build, s: Stream, d: Dir)
    requires Valid(s) && s.buffSize < s.maxBuffSize
    requires s.queues.Get(d) == [] || !IsNext(s, s.queues.Get(d)[0], d)
    requires var q := s.queues.Get(d.Reverse());
      q != [] && IsNext(s, q[0], d.Reverse()) && q[0].start == s.curSeq.Get(d.Reverse())
    ensures GetNext(b, s, d) == Next(s.queues.Get(d.Reverse())[0], d.Reverse(), Drop(s, d.Reverse()))
  {
    var e := d.Reverse();
    if s.queues.Get(d) == [] {
      assert ScanDir(b, s, d, Fwd) == Exhausted(s);
    } else {
      assert ScanDir(b, s, d, Fwd) == Gap(s);
    }
    assert ScanDir(b, s, e, Rev) == Found(s, s.queues.Get(e)[0]);
    assert GetNext(b, s, d) == SecondPass(b, s, s, e);
  }

  /** When neither head is next and the buffer is not full, nothing is handed
      out and nothing changes: the stream waits for the missing bytes. */
  lemma {:induction false} GetNextWaits(b: Build, s: Stream, d: Dir)
    requires Valid(s) && s.buffSize < s.maxBuffSize
    requires s.queues.Get(d) == [] || !IsNext(s, s.queues.Get(d)[0], d)
    requires s.queues.Get(d.Reverse()) == [] || !IsNext(s, s.queues.Get(d.Reverse())[0], d.Reverse())
    ensures GetNext(b, s, d) == NoNext(s)
  {
  }

  // ---------------------------------------------------------------------
  // Properties of packet_stream_process_packet
  // ---------------------------------------------------------------------

  /** A packet that ends before its direction's cursor is dropped: POM_OK,
      nothing handed over, and nothing changed but the direction flags. */
  lemma {:induction false} ProcessDiscardsOldDupe(b: Build, s: Stream, stack: seq<Layer>, index: nat,
                                                  start: U32, ack: U32, refused: set<nat>)
    requires Valid(s) && index < |stack|
    requires var cur := s.curSeq.Get(stack[index].dir);
      cur != start && IsOldDupe(cur, start, stack[index].plen)
    ensures Process(b, s, stack, index, start, ack, refused)
         == Result(Ok, s.(flags := Seen(s.flags, stack[index].dir)), [])
  {
  }

  /** A packet that starts ahead of its direction's cursor (and does not wrap
      round behind it) waits: it is queued in order, with a stack copy only
      when it has payload, and its bytes are counted; nothing is handed over
      and the cursors and the other queue do not change. */
  lemma {:induction false} ProcessQueuesAhead(b: Build, s: Stream, stack: seq<Layer>, index: nat,
                                              start: U32, ack: U32, refused: set<nat>)
    requires Valid(s) && index < |stack|
    requires var cur := s.curSeq.Get(stack[index].dir);
      Before(cur, start) && !IsOldDupe(cur, start, stack[index].plen)
    ensures var r := Process(b, s, stack, index, start, ack, refused);
      var dir, plen := stack[index].dir, stack[index].plen;
      && r.status == Ok && r.log == []
      && r.stream.curSeq == s.curSeq && r.stream.curAck == s.curAck
      && r.stream.queues.Get(dir)
         == Insert(s.queues.Get(dir), Segment(start, ack, plen, index, if plen != 0 then Some(stack) else None))
      && r.stream.queues.Get(dir.Reverse()) == s.queues.Get(dir.Reverse())
      && r.stream.buffSize == s.buffSize + plen
  {
    BeforeIrreflexiveAsymmetric(s.curSeq.Get(stack[index].dir), start);
  }

  /** Whatever held a packet back (a gap in front of it, or on a
      bidirectional stream an acknowledgement of undelivered bytes, trimmed
      or not), a packet that is not handed over is queued: POM_OK, nothing
      handed over, the cursors unchanged, the segment inserted in order and
      its bytes counted.  The segment keeps the acknowledgement and the slot
      index and has a stack copy exactly when it has payload.  As written it
      keeps the original start, and the length of its slot is untouched
      unless the slot is slot 0; once repaired it starts where its trimmed
      bytes start and still ends where the packet ended. */
  lemma {:induction false} ProcessEnqueues(b: Build, s: Stream, stack: seq<Layer>, index: nat,
                                           start: U32, ack: U32, refused: set<nat>)
    requires Valid(s) && index < |stack|
    requires var dir := stack[index].dir;
      Admit(b, s.(flags := Seen(s.flags, dir)), stack, index, start, ack).Enqueue?
    ensures var dir := stack[index].dir;
      var seg := Admit(b, s.(flags := Seen(s.flags, dir)), stack, index, start, ack).seg;
      var r := Process(b, s, stack, index, start, ack, refused);
      && r.status == Ok && r.log == []
      && r.stream.curSeq == s.curSeq && r.stream.curAck == s.curAck
      && r.stream.flags == Seen(s.flags, dir)
      && r.stream.queues.Get(dir) == Insert(s.queues.Get(dir), seg)
      && r.stream.queues.Get(dir.Reverse()) == s.queues.Get(dir.Reverse())
      && r.stream.buffSize == s.buffSize + seg.plen
      && seg.ack == ack && seg.index == index
      && (seg.stack.Some? <==> seg.plen != 0)
      && (seg.stack.Some? ==> seg.plen == seg.stack.value[index].plen)
      && (b.AsWritten? ==> seg.start == start)
      && (b.AsWritten? && index != 0 ==> seg.plen == stack[index].plen)
      && (b.Repaired? ==> Add32(seg.start, seg.plen) == Add32(start, stack[index].plen))
  {
  }

  /** A packet that starts at its direction's cursor, and on a bidirectional
      stream acknowledges nothing undelivered, is handed to the handler first,
      as it came.  With nothing queued that is all: the cursor moves past its
      payload, the acknowledgement is recorded, and the result is the
      handler's. */
  lemma {:induction false} ProcessInOrder(b: Build, s: Stream, stack: seq<Layer>, index: nat,
                                          ack: U32, refused: set<nat>)
    requires Valid(s) && index < |stack|
    requires var dir := stack[index].dir;
      s.flags.bidir ==> !Before(s.curSeq.Get(dir.Reverse()), ack)
    ensures var dir := stack[index].dir;
      var start := s.curSeq.Get(dir);
      var r := Process(b, s, stack, index, start, ack, refused);
      var first := Delivery(Some(stack), index);
      && |r.log| >= 1 && r.log[0] == first
      && (Queued(s) == 0 ==>
            r == Result(if 0 !in refused then Ok else Err,
                        s.(flags := Seen(s.flags, dir),
                           curSeq := s.curSeq.Set(dir, Add32(start, stack[index].plen)),
                           curAck := s.curAck.Set(dir, ack)),
                        [first]))
  {
    var dir := stack[index].dir;
    var start := s.curSeq.Get(dir);
    var s2 := s.(flags := Seen(s.flags, dir),
                 curSeq := s.curSeq.Set(dir, Add32(start, stack[index].plen)),
                 curAck := s.curAck.Set(dir, ack));
    var first := Delivery(Some(stack), index);
    assert Admit(b, s.(flags := Seen(s.flags, dir)), stack, index, start, ack) == Deliver(stack);
    if 0 !in refused {
      var r := Drain(b, s2, dir, [first], refused);
      assert r.log[0] == r.log[..1][0];
      if Queued(s) == 0 {
        GetNextIdle(b, s2, dir);
        assert r == DrainFrom(b, s2, dir, NoNext(s2), [first], refused);
      }
    }
  }

  // ---------------------------------------------------------------------
  // Faults of the code as written, and the repaired build
  // ---------------------------------------------------------------------

  /** A reverse queue holding bytes 90..95, behind the reverse cursor 100,
      while the forward cursor is at 0. */
  const staleHead := Stream(PerDir(0, 100), PerDir(0, 0),
                            PerDir([], [Segment(90, 0, 5, 0, Some([Layer(0, 5, Rev)]))]),
                            5, 1000, Flags(false, false, false))

  /** The old-duplicate test of `packet_stream_get_next` reads the
      cursor of the pass number rather than of the direction.  The pass over
      the reverse direction is pass 0, so the old duplicate 90..95 is tested
      against the forward cursor 0, is not recognised, and is trimmed to the
      reverse cursor instead, which fails.  The call returns nothing and
      changes nothing, so every later call gets stuck on the same head. */
  lemma {:induction false} StaleHeadStuck()
    ensures Valid(staleHead) && IsOldDupe(100, 90, 5)
    ensures GetNext(AsWritten, staleHead, Rev) == NoNext(staleHead)
  {
    StaleHeadValid();
    StaleHeadScan();
  }

  lemma {:induction false} StaleHeadValid()
    ensures Valid(staleHead)
  {
    assert staleHead.queues.rev[1..] == [];
  }

  /** The pass over the reverse queue: the head is next, is not taken for an
      old duplicate, and has more duplicate bytes than its length. */
  lemma {:induction false} StaleHeadScan()
    requires Valid(staleHead)
    ensures ScanDir(AsWritten, staleHead, Rev, Fwd) == Stuck(staleHead)
  {
    var head := staleHead.queues.rev[0];
    assert IsNext(staleHead, head, Rev) && !IsOldDupe(0, 90, 5);
    assert RemoveDupeBytes(100, head) == TrimErr;
  }

  /** When the only queued segment of the forward direction is an
      old duplicate, `packet_stream_get_next` frees it and then goes on to
      dequeue the freed segment (for instance the forward cursor at 100 with
      only bytes 90..95 queued). */
  lemma {:induction false} LastDupeDangles(s: Stream)
    requires Valid(s) && s.buffSize < s.maxBuffSize && |s.queues.fwd| == 1
    requires var head := s.queues.fwd[0];
      && IsNext(s, head, Fwd) && s.curSeq.fwd != head.start
      && IsOldDupe(s.curSeq.fwd, head.start, head.plen) && head.stack.Some?
    ensures GetNext(AsWritten, s, Fwd) == NextFault
  {
    ScanDropsDupe(AsWritten, s, Fwd, Fwd);
  }

  /** The stream after an in-order forward packet of `plen` bytes at the
      cursor has been handed over, before the draining. */
  function AfterForward(s: Stream, plen: U32, ack: U32): Stream
  {
    s.(curSeq := s.curSeq.Set(Fwd, Add32(s.curSeq.fwd, plen)), curAck := s.curAck.Set(Fwd, ack))
  }

  /** A segment without payload is queued without a stack copy or
      packet, and draining it later releases through a null stack.  For
      instance a pure acknowledgement queued at 110 while the forward cursor
      is at 100 is drained when bytes 100..110 arrive. */
  lemma {:induction false} EmptySegmentFaults(s: Stream, stack: seq<Layer>, index: nat, ack: U32)
    requires Valid(s) && !s.flags.bidir && index < |stack| && stack[index].dir == Fwd
    requires |s.queues.fwd| == 1 && s.queues.rev == []
    requires var head := s.queues.fwd[0];
      head.stack.None? && head.start == Add32(s.curSeq.fwd, stack[index].plen)
    ensures Process(AsWritten, s, stack, index, s.curSeq.fwd, ack, {}).status == Fault
  {
    var head := s.queues.fwd[0];
    assert Admit(AsWritten, s, stack, index, s.curSeq.fwd, ack) == Deliver(stack);
    assert s.(flags := Seen(s.flags, Fwd)) == s;
    ProcessDelivers(AsWritten, s, stack, index, s.curSeq.fwd, ack, {});
    var s2 := AfterForward(s, stack[index].plen, ack);
    GetNextInOrder(AsWritten, s2, Fwd);
    var first := Delivery(Some(stack), index);
    assert Drain(AsWritten, s2, Fwd, [first], {})
        == DrainFrom(AsWritten, s2, Fwd, GetNext(AsWritten, s2, Fwd), [first], {});
  }

  /** A queued segment that is trimmed when it is drained still
      moves the cursor by its untrimmed length, past the end of the bytes it
      handed over.  For instance with the forward cursor at 100 and bytes
      105..115 queued, the arrival of 100..110 hands over 110..115 and leaves
      the cursor at 120, so bytes 115..120 will be taken for duplicates. */
  lemma {:induction false} DrainOvershoots(s: Stream, stack: seq<Layer>, index: nat, ack: U32)
    requires Valid(s) && !s.flags.bidir && s.buffSize < s.maxBuffSize
    requires index < |stack| && stack[index].dir == Fwd
    requires |s.queues.fwd| == 1 && s.queues.rev == []
    requires var head, c2 := s.queues.fwd[0], Add32(s.curSeq.fwd, stack[index].plen);
      && head.stack.Some? && Before(head.start, c2) && !IsOldDupe(c2, head.start, head.plen)
    ensures var r := Process(AsWritten, s, stack, index, s.curSeq.fwd, ack, {});
      var head, c2 := s.queues.fwd[0], Add32(s.curSeq.fwd, stack[index].plen);
      && r.status == Ok && |r.log| == 2
      && r.stream.curSeq.fwd == Add32(c2, head.plen)
      && r.stream.curSeq.fwd != Add32(head.start, head.plen)
  {
    var head, c2 := s.queues.fwd[0], Add32(s.curSeq.fwd, stack[index].plen);
    assert WellFormed(head);
    assert Admit(AsWritten, s, stack, index, s.curSeq.fwd, ack) == Deliver(stack);
    assert s.(flags := Seen(s.flags, Fwd)) == s;
    ProcessDelivers(AsWritten, s, stack, index, s.curSeq.fwd, ack, {});
    var s2 := AfterForward(s, stack[index].plen, ack);
    var t := RemoveDupeBytes(c2, head);
    TrimSucceeds(c2, head);
    assert ScanDir(AsWritten, s2, Fwd, Fwd) == Found(s2, t.seg);
    GetNextFirstFound(AsWritten, s2, Fwd);
    var first := Delivery(Some(stack), index);
    DrainStep(AsWritten, s2, Fwd, [first], {});
    var e := Advance(AsWritten, Drop(s2, Fwd), Fwd, t.seg);
    assert Queued(e) == 0;
    DrainIdle(AsWritten, e, Fwd, [first, Delivery(t.seg.stack, t.seg.index)], {});
    assert c2 != head.start;
    AddCancels(c2, head.start, head.plen);
  }

  /** Adding the same amount to two different counters keeps them different. */
  lemma {:induction false} AddCancels(a: U32, b: U32, k: U32)
    requires a != b
    ensures Add32(a, k) != Add32(b, k)
  {
    AddSubInverse(a, k);
    AddSubInverse(b, k);
    DistanceTranslationInvariant(a, b, k);
  }

  /** The arriving packet is wrapped with slot index 0, so its
      duplicate bytes are cut from slot 0 of its stack rather than from its
      stream slot, and the cursor moves by the whole untrimmed slot.  For
      instance with the forward cursor at 100, a packet whose stream slot is
      slot 1, carrying bytes 95..105, reaches the handler with the duplicate
      bytes 95..100 still in slot 1 and leaves the cursor at 110. */
  lemma {:induction false} SlotZeroTrimmed(s: Stream, stack: seq<Layer>, index: nat, start: U32, ack: U32)
    requires Valid(s) && !s.flags.bidir && Queued(s) == 0
    requires 0 < index < |stack| && stack[index].dir == Fwd
    requires var cur := s.curSeq.fwd;
      && Before(start, cur) && !IsOldDupe(cur, start, stack[index].plen)
      && Sub32(cur, start) <= stack[0].plen
    ensures var r := Process(AsWritten, s, stack, index, start, ack, {});
      var cur := s.curSeq.fwd;
      && r.status == Ok && |r.log| == 1 && r.log[0].stack.Some?
      && r.log[0].stack.value[index] == stack[index]
      && r.log[0].stack.value[0].plen == stack[0].plen - Sub32(cur, start)
      && r.stream.curSeq.fwd == Add32(cur, stack[index].plen)
      && r.stream.curSeq.fwd != Add32(start, stack[index].plen)
  {
    var cur := s.curSeq.fwd;
    var spkt := Segment(start, ack, stack[index].plen, 0, Some(stack));
    var t := RemoveDupeBytes(cur, spkt);
    assert t.Trimmed? && t.seg.start == cur;
    assert Admit(AsWritten, s, stack, index, start, ack) == Deliver(t.seg.stack.value);
    assert s.(flags := Seen(s.flags, Fwd)) == s;
    ProcessDelivers(AsWritten, s, stack, index, start, ack, {});
    var st := t.seg.stack.value;
    var s2 := AfterForward(s, st[index].plen, ack);
    DrainIdle(AsWritten, s2, Fwd, [Delivery(Some(st), index)], {});
    BeforeIrreflexiveAsymmetric(start, cur);
    AddCancels(cur, start, stack[index].plen);
  }

  // ---------------------------------------------------------------------
  // The repaired build
  // ---------------------------------------------------------------------

  /** A result that is not undefined behaviour. */
  predicate NoFault(r: Result)
  {
    r.status != Fault
  }

  /** In the repaired build the draining loop never faults. */
  lemma {:induction false} RepairedDrainNeverFaults(s: Stream, d: Dir, log: seq<Delivery>, refused: set<nat>)
    requires Valid(s)
    ensures NoFault(Drain(Repaired, s, d, log, refused))
    decreases Queued(s), 1
  {
    RepairedGetNextCompletes(s, d);
    var n := GetNext(Repaired, s, d);
    assert Drain(Repaired, s, d, log, refused) == DrainFrom(Repaired, s, d, n, log, refused);
    RepairedDrainFromNeverFaults(s, d, n, log, refused);
  }

  lemma {:induction false} RepairedDrainFromNeverFaults(s: Stream, d: Dir, n: Next, log: seq<Delivery>, refused: set<nat>)
    requires Valid(s) && NextOk(s, n) && !n.NextFault?
    ensures NoFault(DrainFrom(Repaired, s, d, n, log, refused))
    decreases Queued(s), 0
  {
    if n.Next? && |log| !in refused {
      var s2 := Advance(Repaired, n.s, n.d, n.seg);
      assert Valid(s2) && Queued(s2) < Queued(s) by {
        assert s2.queues == n.s.queues && s2.buffSize == n.s.buffSize;
      }
      var log' := log + [Delivery(n.seg.stack, n.seg.index)];
      assert DrainFrom(Repaired, s, d, n, log, refused) == Drain(Repaired, s2, n.d, log', refused);
      RepairedDrainNeverFaults(s2, n.d, log', refused);
    }
  }

  /** In the repaired build processing a packet never faults, and a packet
      that is not an old duplicate is never refused for failing to trim. */
  lemma {:induction false} RepairedNeverFaults(s: Stream, stack: seq<Layer>, index: nat, start: U32, ack: U32,
                                               refused: set<nat>)
    requires Valid(s) && index < |stack|
    ensures var r := Process(Repaired, s, stack, index, start, ack, refused);
      && r.status != Fault
      && ErrRefused(r, [], refused)
  {
    var dir := stack[index].dir;
    var s1 := s.(flags := Seen(s.flags, dir));
    var cur := s1.curSeq.Get(dir);
    var spkt := Segment(start, ack, stack[index].plen, index, Some(stack));
    if !(cur != start && IsOldDupe(cur, start, spkt.plen)) && cur != start {
      TrimSucceeds(cur, spkt);
    }
    var v := Admit(Repaired, s1, stack, index, start, ack);
    if v.Deliver? {
      ProcessDelivers(Repaired, s, stack, index, start, ack, refused);
      var s2 := s1.(curSeq := s1.curSeq.Set(dir, Add32(cur, v.stack[index].plen)), curAck := s1.curAck.Set(dir, ack));
      var first := Delivery(Some(v.stack), index);
      if 0 !in refused {
        RepairedDrainNeverFaults(s2, dir, [first], refused);
        DrainErrs(Repaired, s2, dir, [first], refused);
        assert NoFault(Drain(Repaired, s2, dir, [first], refused));
      }
    }
  }

  /** A POM_ERR result `r` comes from the handler refusing its last handover,
      which is not among the handovers in `log`. */
  predicate ErrRefused(r: Result, log: seq<Delivery>, refused: set<nat>)
  {
    r.status == Err ==> |r.log| > |log| && |r.log| - 1 in refused
  }

  /** A POM_ERR out of the draining loop comes from the handler refusing the
      last segment handed to it. */
  lemma {:induction false} DrainErrs(b: Build, s: Stream, d: Dir, log: seq<Delivery>, refused: set<nat>)
    requires Valid(s)
    ensures ErrRefused(Drain(b, s, d, log, refused), log, refused)
    decreases Queued(s), 1
  {
    var n := GetNext(b, s, d);
    assert Drain(b, s, d, log, refused) == DrainFrom(b, s, d, n, log, refused);
    DrainFromErrs(b, s, d, n, log, refused);
  }

  lemma {:induction false} DrainFromErrs(b: Build, s: Stream, d: Dir, n: Next, log: seq<Delivery>, refused: set<nat>)
    requires Valid(s) && NextOk(s, n)
    ensures ErrRefused(DrainFrom(b, s, d, n, log, refused), log, refused)
    decreases Queued(s), 0
  {
    if n.Next? && |log| !in refused && !(b.AsWritten? && n.seg.stack.None?) {
      var s2 := Advance(b, n.s, n.d, n.seg);
      assert Valid(s2) && Queued(s2) < Queued(s) by {
        assert s2.queues == n.s.queues && s2.buffSize == n.s.buffSize;
      }
      var log' := log + [Delivery(n.seg.stack, n.seg.index)];
      assert DrainFrom(b, s, d, n, log, refused) == Drain(b, s2, n.d, log', refused);
      DrainErrs(b, s2, n.d, log', refused);
    }
  }

  /** In the repaired build a segment that a pass hands out moves the cursor
      to the end of the queued segment, whether it was trimmed, handed out
      at the cursor, or handed out across a gap because the buffer is full. */
  lemma {:induction false} RepairedDrainReachesEnd(s: Stream, d: Dir, i: Dir)
    requires Valid(s)
    ensures var r := ScanDir(Repaired, s, d, i);
      r.Found? ==>
        var head := r.s.queues.Get(d)[0];
        Advance(Repaired, Drop(r.s, d), d, r.seg).curSeq.Get(d) == Add32(head.start, head.plen)
  {
    ScanFoundAligned(Repaired, s, d, i);
    assert Aligned(s.curSeq.Get(d), d, ScanDir(Repaired, s, d, i));
  }

  /** A forward cursor at 100, bytes 200..210 queued, and the buffer full. */
  const fullGap := Stream(PerDir(100, 0), PerDir(0, 0),
                          PerDir([Segment(200, 0, 10, 0, Some([Layer(0, 10, Fwd)]))], []),
                          10, 10, Flags(false, false, false))

  /** A full buffer hands out the head across the gap in either build.  As
      written the cursor then ends at 110, inside the gap; repaired it ends at
      210, after the bytes handed over. */
  lemma {:induction false} FullBufferCursor(b: Build)
    ensures Valid(fullGap)
    ensures ScanDir(b, fullGap, Fwd, Fwd) == Found(fullGap, fullGap.queues.fwd[0])
    ensures Advance(b, fullGap, Fwd, fullGap.queues.fwd[0]).curSeq.fwd == if b.AsWritten? then 110 else 210
  {
    FullGapValid();
    FullGapScan(b);
    FullGapAdvance(b);
  }

  lemma {:induction false} FullGapAdvance(b: Build)
    ensures Advance(b, fullGap, Fwd, fullGap.queues.fwd[0]).curSeq.fwd == if b.AsWritten? then 110 else 210
  {
    var head := fullGap.queues.fwd[0];
    assert head.start == 200 && head.plen == 10 && Delivered(head) == 10;
  }

  lemma {:induction false} FullGapValid()
    ensures Valid(fullGap)
  {
    assert fullGap.queues.fwd[1..] == [];
  }

  lemma {:induction false} FullGapScan(b: Build)
    requires Valid(fullGap)
    ensures ScanDir(b, fullGap, Fwd, Fwd) == Found(fullGap, fullGap.queues.fwd[0])
  {
  }

  /** In the repaired build a packet that starts before its cursor, and is not
      an old duplicate, is handed over with the duplicate bytes cut from its
      own stream slot, every other slot untouched, and the cursor ends where
      the packet ends. */
  lemma {:induction false} RepairedDeliversFromCursor(s: Stream, stack: seq<Layer>, index: nat, start: U32, ack: U32,
                                                      refused: set<nat>)
    requires Valid(s) && Queued(s) == 0 && index < |stack|
    requires var dir := stack[index].dir;
      var cur := s.curSeq.Get(dir);
      && Before(start, cur) && !IsOldDupe(cur, start, stack[index].plen)
      && (s.flags.bidir ==> !Before(s.curSeq.Get(dir.Reverse()), ack))
    ensures var r := Process(Repaired, s, stack, index, start, ack, refused);
      var dir, slot := stack[index].dir, stack[index];
      var cur := s.curSeq.Get(dir);
      && |r.log| == 1 && r.log[0].index == index && r.log[0].stack.Some?
      && (r.status == Ok <==> 0 !in refused) && r.status != Fault
      && var st := r.log[0].stack.value;
         && |st| == |stack|
         && (forall j :: 0 <= j < |stack| && j != index ==> st[j] == stack[j])
         && st[index].dir == dir && st[index].pload == slot.pload + Distance(start, cur)
         && Add32(cur, st[index].plen) == Add32(start, slot.plen)
         && r.stream.curSeq.Get(dir) == Add32(start, slot.plen)
  {
    var dir := stack[index].dir;
    var s1 := s.(flags := Seen(s.flags, dir));
    var cur := s.curSeq.Get(dir);
    var spkt := Segment(start, ack, stack[index].plen, index, Some(stack));
    TrimSucceeds(cur, spkt);
    var t := RemoveDupeBytes(cur, spkt);
    BeforeIrreflexiveAsymmetric(start, cur);
    BeforeIrreflexiveAsymmetric(cur, cur);
    assert Admit(Repaired, s1, stack, index, start, ack) == Deliver(t.seg.stack.value);
    ProcessDelivers(Repaired, s, stack, index, start, ack, refused);
    var st := t.seg.stack.value;
    var s2 := s1.(curSeq := s1.curSeq.Set(dir, Add32(cur, st[index].plen)), curAck := s1.curAck.Set(dir, ack));
    var first := Delivery(Some(st), index);
    if 0 !in refused {
      DrainIdle(Repaired, s2, dir, [first], refused);
    }
  }

  // ---------------------------------------------------------------------
  // Unfolding steps used by the examples
  // ---------------------------------------------------------------------

  /** `GetNext` hands out what the first pass finds. */
  lemma {:induction false} GetNextFirstFound(b: Build, s: Stream, d: Dir)
    requires Valid(s) && ScanDir(b, s, d, Fwd).Found?
    ensures var r := ScanDir(b, s, d, Fwd); GetNext(b, s, d) == Next(r.seg, d, Drop(r.s, d))
  {
  }

  /** A drained segment the handler accepts: the loop goes on from the
      advanced stream. */
  lemma {:induction false} DrainStep(b: Build, s: Stream, d: Dir, log: seq<Delivery>, refused: set<nat>)
    requires Valid(s)
    requires var n := GetNext(b, s, d);
      n.Next? && |log| !in refused && (b.AsWritten? ==> n.seg.stack.Some?)
    ensures var n := GetNext(b, s, d);
      Drain(b, s, d, log, refused)
      == Drain(b, Advance(b, n.s, n.d, n.seg), n.d, log + [Delivery(n.seg.stack, n.seg.index)], refused)
  {
    assert Drain(b, s, d, log, refused) == DrainFrom(b, s, d, GetNext(b, s, d), log, refused);
  }

  /** With nothing queued the loop ends at once with POM_OK. */
  lemma {:induction false} DrainIdle(b: Build, s: Stream, d: Dir, log: seq<Delivery>, refused: set<nat>)
    requires Valid(s) && Queued(s) == 0
    ensures Drain(b, s, d, log, refused) == Result(Ok, s, log)
  {
    GetNextIdle(b, s, d);
    assert Drain(b, s, d, log, refused) == DrainFrom(b, s, d, NoNext(s), log, refused);
  }

  /** A delivered packet: the handler's failure ends processing, otherwise the
      loop drains the queues. */
  lemma {:induction false} ProcessDelivers(b: Build, s: Stream, stack: seq<Layer>, index: nat,
                                           start: U32, ack: U32, refused: set<nat>)
    requires Valid(s) && index < |stack|
    requires Admit(b, s.(flags := Seen(s.flags, stack[index].dir)), stack, index, start, ack).Deliver?
    ensures var dir := stack[index].dir;
      var st := Admit(b, s.(flags := Seen(s.flags, dir)), stack, index, start, ack).stack;
      var s2 := s.(flags := Seen(s.flags, dir),
                   curSeq := s.curSeq.Set(dir, Add32(s.curSeq.Get(dir), st[index].plen)),
                   curAck := s.curAck.Set(dir, ack));
      var first := Delivery(Some(st), index);
      Process(b, s, stack, index, start, ack, refused)
      == if 0 !in refused then Drain(b, s2, dir, [first], refused) else Result(Err, s2, [first])
  {
  }
}
