/**
  The fragment reassembler (`struct packet_multipart`): the fragments of one
  protocol payload, kept in a list from head to tail, the number of payload
  bytes held (`cur`) and a count of holes (`gaps`).  `process` copies every
  fragment to its offset in one new buffer.

  A fragment holds the buffer of the packet clone it was taken from; the
  pool effect of that clone is the one `PacketPool.Clone` describes.
 */
module Multipart {
  import opened Common
  import PacketPool

  /** One `struct packet_multipart_pkt`: `len` payload bytes that belong at
      `offset` of the reassembled payload and start at `bufOffset` of `data`. */
  datatype Frag = Frag(offset: nat, len: nat, bufOffset: nat, data: seq<Byte>, ts: PacketPool.Timestamp)

  /** The offset just past the fragment. */
  function End(f: Frag): nat
  {
    f.offset + f.len
  }

  datatype Multipart = Multipart(frags: seq<Frag>, cur: nat, gaps: int, forceNoCopy: bool, proto: nat)

  function Last<T>(s: seq<T>): T
    requires s != []
  {
    s[|s| - 1]
  }

  /** The sum of the fragment lengths. */
  function TotalLen(frags: seq<Frag>): nat
  {
    if frags == [] then 0 else TotalLen(frags[..|frags| - 1]) + Last(frags).len
  }

  /** Every fragment ends at or before the offset of every later one. */
  predicate Tiled(frags: seq<Frag>)
  {
    forall i, j :: 0 <= i < j < |frags| ==> End(frags[i]) <= frags[j].offset
  }

  /** The bookkeeping every reassembly keeps: `cur` is the number of bytes held. */
  predicate Accounted(m: Multipart)
  {
    m.cur == TotalLen(m.frags)
  }

  datatype AllocOutcome = Allocated(m: Multipart) | AllocFault

  /** `packet_multipart_alloc`.  A null protocol dependency frees the new
      record and then stores the flags through the null pointer. */
  function Alloc(dependency: Option<nat>, forceNoCopy: bool): (r: AllocOutcome)
    ensures r.Allocated? <==> dependency.Some?
    ensures r.Allocated? ==> Accounted(r.m) && Tiled(r.m.frags) && r.m.gaps == 0
  {
    match dependency
    case None => AllocFault
    case Some(proto) => Allocated(Multipart([], 0, 0, forceNoCopy, proto))
  }

  // ---------------------------------------------------------------------
  // Adding a fragment
  // ---------------------------------------------------------------------

  /** The new fragment starts at or after the end of the tail: it is appended. */
  predicate AfterTail(m: Multipart, f: Frag)
  {
    m.frags != [] && End(Last(m.frags)) <= f.offset
  }

  /** The new fragment does not start after the tail's start: it is dropped. */
  predicate NotAfterTailStart(m: Multipart, f: Frag)
  {
    m.frags != [] && !AfterTail(m, f) && f.offset <= Last(m.frags).offset
  }

  /** Insertion at the head, which the code reaches for the first fragment and
      for one that starts inside the tail. */
  function Prepend(m: Multipart, f: Frag): Multipart
  {
    var gaps :=
      if f.offset != 0 then m.gaps + 1
      else if m.frags != [] && f.len == m.frags[0].offset then m.gaps - 1
      else m.gaps;
    m.(frags := [f] + m.frags, cur := m.cur + f.len, gaps := gaps)
  }

  /** `packet_multipart_add_packet`.  The scan starts at the tail and steps to
      `next`, which is null after the tail, so only the tail is ever compared
      with the new fragment.  Inserting after the tail makes the new fragment
      the tail, which leaves the hole bookkeeping of the middle insertion
      unused.  Allocation and clone failures are not modelled. */
  function AddPacket(m: Multipart, f: Frag): (r: Multipart)
    ensures r.forceNoCopy == m.forceNoCopy && r.proto == m.proto
  {
    if m.frags == [] then Prepend(m, f)
    else
      var tail := Last(m.frags);
      if End(tail) <= f.offset then m.(frags := m.frags + [f], cur := m.cur + f.len)
      else if tail.offset == f.offset then m
      else if tail.offset > f.offset then m
      else Prepend(m, f)
  }

  /** The three outcomes of an addition: appended after the tail, dropped, or
      inserted at the head (the first fragment, or one that starts inside the
      tail); `cur` grows by the fragment's length exactly when it is kept, and
      only a head insertion at a nonzero offset counts a hole. */
  lemma {:induction false} AddCases(m: Multipart, f: Frag)
    ensures AfterTail(m, f) ==> AddPacket(m, f) == m.(frags := m.frags + [f], cur := m.cur + f.len)
    ensures NotAfterTailStart(m, f) ==> AddPacket(m, f) == m
    ensures !AfterTail(m, f) && !NotAfterTailStart(m, f) ==>
      var r := AddPacket(m, f);
      && r.frags == [f] + m.frags && r.cur == m.cur + f.len
      && r.gaps == m.gaps + (if f.offset != 0 then 1 else 0)
  {
  }

  /** The hole count never goes down: the branch that would lower it needs a
      head insertion at offset 0 in front of another fragment, and that
      fragment would be the tail, which makes the new one a duplicate. */
  lemma {:induction false} GapsNeverDecrease(m: Multipart, f: Frag)
    ensures AddPacket(m, f).gaps >= m.gaps
  {
  }

  lemma {:induction false} TotalLenAppend(frags: seq<Frag>, f: Frag)
    ensures TotalLen(frags + [f]) == TotalLen(frags) + f.len
  {
    assert (frags + [f])[..|frags|] == frags;
  }

  lemma {:induction false} TotalLenPrepend(f: Frag, frags: seq<Frag>)
    ensures TotalLen([f] + frags) == f.len + TotalLen(frags)
    decreases |frags|
  {
    if frags != [] {
      var init := frags[..|frags| - 1];
      assert ([f] + frags)[..|frags|] == [f] + init;
      TotalLenPrepend(f, init);
    }
  }

  /** Every addition keeps `cur` equal to the bytes held. */
  lemma {:induction false} AddKeepsAccounting(m: Multipart, f: Frag)
    requires Accounted(m)
    ensures Accounted(AddPacket(m, f))
  {
    TotalLenAppend(m.frags, f);
    TotalLenPrepend(f, m.frags);
  }

  /** An appended or dropped fragment keeps the fragments in offset order
      without overlap; so does the first fragment. */
  lemma {:induction false} AddKeepsTiling(m: Multipart, f: Frag)
    requires Tiled(m.frags)
    requires m.frags == [] || AfterTail(m, f) || NotAfterTailStart(m, f)
    ensures Tiled(AddPacket(m, f).frags)
  {
    if AfterTail(m, f) {
      var s := m.frags + [f];
      forall i, j | 0 <= i < j < |s| ensures End(s[i]) <= s[j].offset {
        if j == |m.frags| {
          assert End(s[i]) <= End(Last(m.frags));
        }
      }
    }
  }

  /** A fragment that starts inside the tail is put at the head, in front of a
      fragment that starts before it: the list is no longer in offset order. */
  lemma {:induction false} OverlapBreaksTiling(m: Multipart, f: Frag)
    requires m.frags != [] && !AfterTail(m, f) && !NotAfterTailStart(m, f)
    ensures !Tiled(AddPacket(m, f).frags)
  {
    var s := AddPacket(m, f).frags;
    assert s[0] == f && s[|s| - 1] == Last(m.frags);
  }

  // ---------------------------------------------------------------------
  // Processing
  // ---------------------------------------------------------------------

  /** The fragment's bytes lie inside a `cur`-byte buffer and inside its own
      packet's buffer. */
  predicate FitsIn(f: Frag, cur: nat)
  {
    End(f) <= cur && f.bufOffset + f.len <= |f.data|
  }

  predicate AllFit(frags: seq<Frag>, cur: nat)
  {
    forall i :: 0 <= i < |frags| ==> FitsIn(frags[i], cur)
  }

  /** The payload bytes of a fragment. */
  function Slice(f: Frag): (r: seq<Byte>)
    requires f.bufOffset + f.len <= |f.data|
    ensures |r| == f.len
  {
    f.data[f.bufOffset..f.bufOffset + f.len]
  }

  /** One `memcpy` of a fragment to its offset: the fragment's bytes replace the
      covered positions and every other position keeps its byte. */
  function Paste(buf: seq<Byte>, f: Frag): (r: seq<Byte>)
    requires FitsIn(f, |buf|)
    ensures |r| == |buf|
    ensures forall p :: 0 <= p < |buf| ==>
      r[p] == (if f.offset <= p < End(f) then f.data[f.bufOffset + (p - f.offset)] else buf[p])
  {
    buf[..f.offset] + Slice(f) + buf[End(f)..]
  }

  /** The copy loop of `packet_multipart_process`, from head to tail. */
  function PasteAll(buf: seq<Byte>, frags: seq<Frag>): (r: seq<Byte>)
    requires AllFit(frags, |buf|)
    ensures |r| == |buf|
    decreases |frags|
  {
    if frags == [] then buf
    else
      assert AllFit(frags[1..], |buf|) by {
        forall i | 0 <= i < |frags| - 1 ensures FitsIn(frags[1..][i], |buf|) {
          assert frags[1..][i] == frags[i + 1];
        }
      }
      PasteAll(Paste(buf, frags[0]), frags[1..])
  }

  /** The byte position `p` shows after all copies: that of the last fragment
      in the list covering it, or else the byte that was there before. */
  function Shown(frags: seq<Frag>, buf: seq<Byte>, p: nat): Byte
    requires AllFit(frags, |buf|) && p < |buf|
    decreases |frags|
  {
    if frags == [] then buf[p]
    else
      var f := Last(frags);
      if f.offset <= p < End(f) then f.data[f.bufOffset + (p - f.offset)]
      else Shown(frags[..|frags| - 1], buf, p)
  }

  lemma {:induction false} PasteAllSnoc(buf: seq<Byte>, frags: seq<Frag>, f: Frag)
    requires AllFit(frags, |buf|) && FitsIn(f, |buf|)
    ensures AllFit(frags + [f], |buf|)
    ensures PasteAll(buf, frags + [f]) == Paste(PasteAll(buf, frags), f)
    decreases |frags|
  {
    assert forall i :: 0 <= i < |frags| ==> frags[i] == (frags + [f])[i];
    assert (frags + [f])[|frags|] == f;
    if frags != [] {
      assert (frags + [f])[1..] == frags[1..] + [f];
      PasteAllSnoc(Paste(buf, frags[0]), frags[1..], f);
    }
  }

  /** Copying the fragments from head to tail leaves every position showing
      the last fragment that covers it. */
  lemma {:induction false} PasteAllShows(buf: seq<Byte>, frags: seq<Frag>, p: nat)
    requires AllFit(frags, |buf|) && p < |buf|
    ensures PasteAll(buf, frags)[p] == Shown(frags, buf, p)
    decreases |frags|
  {
    if frags != [] {
      var init := frags[..|frags| - 1];
      assert init + [Last(frags)] == frags;
      assert FitsIn(Last(frags), |buf|);
      assert AllFit(init, |buf|) by {
        forall i | 0 <= i < |init| ensures FitsIn(init[i], |buf|) {
          assert init[i] == frags[i];
        }
      }
      PasteAllSnoc(buf, init, Last(frags));
      PasteAllShows(buf, init, p);
    }
  }

  /** The reassembled packet. */
  datatype Assembled = Assembled(bytes: seq<Byte>, ts: PacketPool.Timestamp, datalink: nat)

  datatype ProcessOutcome = Built(packet: Assembled) | ProcessFault

  /** `packet_multipart_process`: a `cur`-byte buffer, whose prior contents are
      `initial`, with every fragment copied to its offset, stamped with the
      tail's timestamp.  A fragment that does not fit writes or reads outside a
      buffer, and an empty list has no tail to take the timestamp from: both are
      faults.  The hand-off to the protocol stack is not modelled. */
  function Process(m: Multipart, initial: seq<Byte>): (r: ProcessOutcome)
    requires |initial| == m.cur
    ensures r.Built? <==> m.frags != [] && AllFit(m.frags, m.cur)
    ensures r.Built? ==>
      && |r.packet.bytes| == m.cur
      && r.packet.ts == Last(m.frags).ts
      && r.packet.datalink == m.proto
      && forall p :: 0 <= p < m.cur ==> r.packet.bytes[p] == Shown(m.frags, initial, p)
  {
    if m.frags == [] || !AllFit(m.frags, m.cur) then ProcessFault
    else
      var bytes := PasteAll(initial, m.frags);
      assert forall p :: 0 <= p < m.cur ==> bytes[p] == Shown(m.frags, initial, p) by {
        forall p | 0 <= p < m.cur ensures bytes[p] == Shown(m.frags, initial, p) {
          PasteAllShows(initial, m.frags, p);
        }
      }
      Built(Assembled(bytes, Last(m.frags).ts, m.proto))
  }

  /** In a tiled list the last fragment covering a position of fragment `k` is
      fragment `k` itself. */
  lemma {:induction false} ShownInTiled(frags: seq<Frag>, buf: seq<Byte>, k: nat, p: nat)
    requires AllFit(frags, |buf|) && Tiled(frags)
    requires k < |frags| && frags[k].offset <= p < End(frags[k]) && p < |buf|
    ensures Shown(frags, buf, p) == frags[k].data[frags[k].bufOffset + (p - frags[k].offset)]
    decreases |frags|
  {
    var init := frags[..|frags| - 1];
    if k < |frags| - 1 {
      assert End(frags[k]) <= Last(frags).offset;
      assert init[k] == frags[k];
      assert AllFit(init, |buf|) && Tiled(init);
      ShownInTiled(init, buf, k, p);
    }
  }

  /** When the fragments are in offset order without overlap, the processed
      buffer holds each fragment's bytes at its offset. */
  lemma {:induction false} ProcessPlacesFragments(m: Multipart, initial: seq<Byte>, k: nat)
    requires |initial| == m.cur && Tiled(m.frags) && k < |m.frags|
    requires Process(m, initial).Built?
    ensures var f := m.frags[k];
      Process(m, initial).packet.bytes[f.offset..End(f)] == Slice(f)
  {
    var f := m.frags[k];
    var bytes := Process(m, initial).packet.bytes;
    forall p | f.offset <= p < End(f) ensures bytes[p] == f.data[f.bufOffset + (p - f.offset)] {
      ShownInTiled(m.frags, initial, k, p);
    }
  }

  // ---------------------------------------------------------------------
  // Arrival order
  // ---------------------------------------------------------------------

  /** A reassembly to which `arrivals` were added in turn. */
  function AddAll(m: Multipart, arrivals: seq<Frag>): Multipart
    decreases |arrivals|
  {
    if arrivals == [] then m else AddAll(AddPacket(m, arrivals[0]), arrivals[1..])
  }

  /** Two fragments that tile bytes 0-9 and 10-19, arriving second one first:
      the first one to arrive becomes the only fragment, the other is dropped
      as starting before the tail, and processing then copies ten bytes past
      the end of a ten-byte buffer. */
  lemma {:induction false} ArrivalOrderMatters(ts: PacketPool.Timestamp, data: seq<Byte>)
    requires |data| == 10
    ensures var a, b := Frag(0, 10, 0, data, ts), Frag(10, 10, 0, data, ts);
      var empty := Multipart([], 0, 0, false, 0);
      && AddAll(empty, [a, b]).frags == [a, b]
      && AddAll(empty, [b, a]).frags == [b]
      && AddAll(empty, [b, a]).cur == 10
      && Process(AddAll(empty, [b, a]), data) == ProcessFault
  {
    var a, b := Frag(0, 10, 0, data, ts), Frag(10, 10, 0, data, ts);
    var empty := Multipart([], 0, 0, false, 0);
    assert [a, b][1..] == [b] && [b, a][1..] == [a];
    var ma := AddPacket(empty, a);
    assert AddAll(empty, [a, b]) == AddAll(ma, [b]) == AddAll(AddPacket(ma, b), []);
    var mb := AddPacket(empty, b);
    assert AddAll(empty, [b, a]) == AddAll(mb, [a]) == AddAll(AddPacket(mb, a), []);
    assert AddPacket(mb, a) == mb;
    assert !FitsIn(mb.frags[0], mb.cur);
  }

  /** Fragments in strictly increasing offset order without overlap. */
  predicate Ordered(frags: seq<Frag>)
  {
    forall i, j :: 0 <= i < j < |frags| ==> End(frags[i]) <= frags[j].offset && frags[i].offset < frags[j].offset
  }

  /** An insertion that scans back from the tail past every fragment starting
      after the new one, and drops a fragment overlapping one already held. */
  function InsertInOrder(frags: seq<Frag>, f: Frag): (r: seq<Frag>)
    ensures |r| <= |frags| + 1
    decreases |frags|
  {
    if frags == [] then [f]
    else
      var t := Last(frags);
      if End(t) <= f.offset && t.offset < f.offset then frags + [f]
      else if End(f) <= t.offset && f.offset < t.offset then InsertInOrder(frags[..|frags| - 1], f) + [t]
      else frags
  }

  /** Neither fragment overlaps the other and they start at different offsets. */
  predicate Apart(a: Frag, b: Frag)
  {
    (End(a) <= b.offset && a.offset < b.offset) || (End(b) <= a.offset && b.offset < a.offset)
  }

  /** Every fragment but the last of an ordered list lies wholly before the last. */
  lemma {:induction false} OrderedBeforeLast(frags: seq<Frag>)
    requires Ordered(frags) && frags != []
    ensures Ordered(frags[..|frags| - 1])
    ensures forall g :: g in frags[..|frags| - 1] ==> End(g) <= Last(frags).offset && g.offset < Last(frags).offset
  {
    var init := frags[..|frags| - 1];
    forall g | g in init ensures End(g) <= Last(frags).offset && g.offset < Last(frags).offset {
      var k :| 0 <= k < |init| && init[k] == g;
      assert frags[k] == g;
    }
    forall i, j | 0 <= i < j < |init| ensures End(init[i]) <= init[j].offset && init[i].offset < init[j].offset {
      assert init[i] == frags[i] && init[j] == frags[j];
    }
  }

  /** A fragment lying after every fragment of an ordered list extends it. */
  lemma {:induction false} OrderedSnoc(s: seq<Frag>, t: Frag)
    requires Ordered(s)
    requires forall g :: g in s ==> End(g) <= t.offset && g.offset < t.offset
    ensures Ordered(s + [t])
  {
    var r := s + [t];
    forall i, j | 0 <= i < j < |r| ensures End(r[i]) <= r[j].offset && r[i].offset < r[j].offset {
      if j == |s| {
        assert r[i] in s;
      } else {
        assert r[i] == s[i] && r[j] == s[j];
      }
    }
  }

  /** Inserting a fragment apart from all held ones adds exactly that fragment. */
  lemma {:induction false} InsertInOrderAdds(frags: seq<Frag>, f: Frag)
    requires forall g :: g in frags ==> Apart(g, f)
    ensures multiset(InsertInOrder(frags, f)) == multiset(frags) + multiset{f}
    decreases |frags|
  {
    if frags != [] {
      var t := Last(frags);
      var init := frags[..|frags| - 1];
      assert init + [t] == frags;
      assert Apart(t, f);
      if !(End(t) <= f.offset && t.offset < f.offset) {
        assert forall g :: g in init ==> g in frags;
        InsertInOrderAdds(init, f);
      }
    }
  }

  /** Inserting a fragment apart from all held ones keeps the list ordered. */
  lemma {:induction false} InsertInOrderSorts(frags: seq<Frag>, f: Frag)
    requires Ordered(frags)
    requires forall g :: g in frags ==> Apart(g, f)
    ensures Ordered(InsertInOrder(frags, f))
    decreases |frags|
  {
    if frags != [] {
      var t := Last(frags);
      var init := frags[..|frags| - 1];
      assert Apart(t, f) by {
        assert t in frags;
      }
      if End(t) <= f.offset && t.offset < f.offset {
        assert forall g :: g in frags ==> End(g) <= f.offset && g.offset < f.offset by {
          OrderedBeforeLast(frags);
          assert init + [t] == frags;
        }
        OrderedSnoc(frags, f);
      } else {
        var mid := InsertInOrder(init, f);
        assert Ordered(init) && forall g :: g in init ==> Apart(g, f) by {
          OrderedBeforeLast(frags);
        }
        InsertInOrderSorts(init, f);
        assert forall g :: g in mid ==> End(g) <= t.offset && g.offset < t.offset by {
          OrderedBeforeLast(frags);
          InsertInOrderAdds(init, f);
          forall g | g in mid ensures End(g) <= t.offset && g.offset < t.offset {
            assert g in multiset(mid);
          }
        }
        OrderedSnoc(mid, t);
      }
    }
  }

  /** The corrected reassembly of a list of arrivals. */
  function ArriveInOrder(frags: seq<Frag>, arrivals: seq<Frag>): seq<Frag>
    decreases |arrivals|
  {
    if arrivals == [] then frags else ArriveInOrder(InsertInOrder(frags, arrivals[0]), arrivals[1..])
  }

  /** Dropping the head of an ordered list leaves an ordered list without it. */
  lemma {:induction false} OrderedTail(s: seq<Frag>)
    requires Ordered(s) && s != []
    ensures Ordered(s[1..])
    ensures s[0] !in s[1..]
    ensures multiset(s) == multiset{s[0]} + multiset(s[1..])
  {
    assert s == [s[0]] + s[1..];
    forall i, j | 0 <= i < j < |s[1..]| ensures End(s[1..][i]) <= s[1..][j].offset && s[1..][i].offset < s[1..][j].offset {
      assert s[1..][i] == s[i + 1] && s[1..][j] == s[j + 1];
    }
    forall k | 0 <= k < |s[1..]| ensures s[1..][k] != s[0] {
      assert s[1..][k] == s[k + 1];
    }
  }

  /** In an ordered list no fragment occurs twice. */
  lemma {:induction false} OrderedCountsOne(s: seq<Frag>, x: Frag)
    requires Ordered(s)
    ensures multiset(s)[x] <= 1
    decreases |s|
  {
    if s != [] {
      OrderedTail(s);
      OrderedCountsOne(s[1..], x);
    }
  }

  /** Two different fragments of one ordered list are apart. */
  lemma {:induction false} OrderedApart(s: seq<Frag>, x: Frag, y: Frag)
    requires Ordered(s) && x in s && y in s && x != y
    ensures Apart(x, y)
  {
    var i :| 0 <= i < |s| && s[i] == x;
    var j :| 0 <= j < |s| && s[j] == y;
  }

  /** Feeding the fragments of an ordered tiling in any order, starting from a
      list that holds some of them, ends with exactly the tiling. */
  lemma {:induction false} ArriveInOrderRebuilds(frags: seq<Frag>, arrivals: seq<Frag>, tiling: seq<Frag>)
    requires Ordered(frags) && Ordered(tiling)
    requires multiset(frags) + multiset(arrivals) == multiset(tiling)
    ensures ArriveInOrder(frags, arrivals) == tiling
    decreases |arrivals|
  {
    if arrivals == [] {
      OrderedUnique(frags, tiling);
    } else {
      var x := arrivals[0];
      assert arrivals == [x] + arrivals[1..];
      assert multiset(arrivals) == multiset{x} + multiset(arrivals[1..]);
      assert x in multiset(tiling);
      forall g | g in frags ensures Apart(g, x) {
        assert g in multiset(tiling);
        if g == x {
          assert multiset(tiling)[x] >= 2;
          OrderedCountsOne(tiling, x);
        }
        OrderedApart(tiling, g, x);
      }
      InsertInOrderSorts(frags, x);
      InsertInOrderAdds(frags, x);
      ArriveInOrderRebuilds(InsertInOrder(frags, x), arrivals[1..], tiling);
    }
  }

  /** Two ordered lists holding the same fragments start with the same one:
      the fragment with the lowest offset. */
  lemma {:induction false} OrderedSameHead(x: seq<Frag>, y: seq<Frag>)
    requires Ordered(x) && Ordered(y) && multiset(x) == multiset(y) && x != []
    ensures y != [] && x[0] == y[0]
  {
    assert x[0] in multiset(y);
    var i :| 0 <= i < |y| && y[i] == x[0];
    assert y[0] in multiset(x);
    var j :| 0 <= j < |x| && x[j] == y[0];
    assert x[0].offset <= x[j].offset;
    assert y[0].offset <= y[i].offset;
  }

  /** After a common head, two ordered lists holding the same fragments go on
      with ordered lists holding the same fragments. */
  lemma {:induction false} OrderedSameTails(x: seq<Frag>, y: seq<Frag>)
    requires Ordered(x) && Ordered(y) && multiset(x) == multiset(y)
    requires x != [] && y != [] && x[0] == y[0]
    ensures Ordered(x[1..]) && Ordered(y[1..]) && multiset(x[1..]) == multiset(y[1..])
  {
    OrderedTail(x);
    OrderedTail(y);
    assert multiset(x[1..]) == multiset(x) - multiset{x[0]};
    assert multiset(y[1..]) == multiset(y) - multiset{y[0]};
  }

  lemma {:induction false} SameHeadSameTail<T>(x: seq<T>, y: seq<T>)
    requires x != [] && y != [] && x[0] == y[0] && x[1..] == y[1..]
    ensures x == y
  {
    assert x == [x[0]] + x[1..] && y == [y[0]] + y[1..];
  }

  /** Two ordered lists holding the same fragments are the same list. */
  lemma {:induction false} OrderedUnique(x: seq<Frag>, y: seq<Frag>)
    requires Ordered(x) && Ordered(y) && multiset(x) == multiset(y)
    ensures x == y
    decreases |x|
  {
    if x != [] {
      OrderedSameHead(x, y);
      OrderedSameTails(x, y);
      OrderedUnique(x[1..], y[1..]);
      SameHeadSameTail(x, y);
    } else {
      assert |multiset(y)| == 0;
    }
  }

  /** With the corrected insertion the arrival order does not matter: any two
      orders of the fragments of an ordered tiling give the same list. */
  lemma {:induction false} ArrivalOrderIrrelevant(a: seq<Frag>, b: seq<Frag>, tiling: seq<Frag>)
    requires Ordered(tiling) && multiset(a) == multiset(tiling) && multiset(b) == multiset(tiling)
    ensures ArriveInOrder([], a) == tiling && ArriveInOrder([], b) == tiling
  {
    ArriveInOrderRebuilds([], a, tiling);
    ArriveInOrderRebuilds([], b, tiling);
  }
}
