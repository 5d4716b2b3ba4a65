/**
  The packet pool: a refcounted allocator whose released packets go to a
  free list and are handed out again before any new one is allocated.

  A packet is named by a handle (its address).  The pool keeps every packet
  it has ever allocated, the live list (`packet_head`) and the free list
  (`packet_unused_head`); both lists take new entries at the front.
 */
module PacketPool {
  import opened Common

  type Handle = nat

  /** A capture timestamp; the pool only ever copies it. */
  datatype Timestamp = Timestamp(sec: nat, usec: nat)

  /** One `struct packet`.  `borrowed` is a non-null `input_pkt`: the bytes
      belong to a capture input and must be handed back to it.  `multipart` is
      the reassembly the packet terminates, if any. */
  datatype Packet = Packet(
    refcount: nat,
    bytes: seq<Byte>,
    ts: Timestamp,
    datalink: nat,
    input: nat,
    id: nat,
    borrowed: bool,
    multipart: Option<nat>)

  /** A packet after `memset(p, 0, sizeof(struct packet))`. */
  const Zeroed: Packet := Packet(0, [], Timestamp(0, 0), 0, 0, 0, false, None)

  datatype Pool = Pool(packets: map<Handle, Packet>, used: seq<Handle>, unused: seq<Handle>)

  /** Every allocated packet is on exactly one list, the lists are proper linked
      lists, live packets are referenced and free ones are zeroed. */
  predicate Valid(p: Pool)
  {
    && Distinct(p.used) && Distinct(p.unused)
    && (forall h :: h in p.used ==> h !in p.unused)
    && (forall h :: h in p.packets ==> h in p.used || h in p.unused)
    && (forall h :: h in p.used ==> h in p.packets && p.packets[h].refcount >= 1)
    && (forall h :: h in p.unused ==> h in p.packets && p.packets[h] == Zeroed)
  }

  /** The pool before the first packet is requested. */
  const Empty: Pool := Pool(map[], [], [])

  lemma {:induction false} EmptyValid()
    ensures Valid(Empty)
  {
  }

  /** A packet handed out by the pool together with the pool afterwards. */
  datatype Got = Got(pool: Pool, handle: Handle)

  /** `packet_pool_get`: reuse the head of the free list, or else the freshly
      allocated `spare`; the packet is zeroed, given refcount 1 and put at the
      front of the live list.  Allocation failure is not modelled. */
  function Get(p: Pool, spare: Handle): (r: Got)
    requires Valid(p)
    requires p.unused == [] ==> spare !in p.packets
    ensures Valid(r.pool)
    ensures r.handle !in p.used && r.pool.used == [r.handle] + p.used
    ensures r.pool.packets[r.handle] == Zeroed.(refcount := 1)
    ensures p.unused != [] ==> r.handle == p.unused[0] && r.pool.unused == p.unused[1..]
    ensures p.unused == [] ==> r.handle == spare && r.pool.unused == []
    ensures forall h :: h in p.packets && h != r.handle ==> h in r.pool.packets && r.pool.packets[h] == p.packets[h]
  {
    var h := if p.unused == [] then spare else p.unused[0];
    var unused := if p.unused == [] then [] else p.unused[1..];
    assert Distinct(unused) && h !in unused by {
      if p.unused != [] {
        DistinctPop(p.unused);
      }
    }
    DistinctPush(h, p.used);
    Got(Pool(p.packets[h := Zeroed.(refcount := 1)], [h] + p.used, unused), h)
  }

  /** `packet_clone`.  A packet that borrows a capture buffer is deep-copied into
      a spare packet (unless `forceNoCopy`, PACKET_FLAG_FORCE_NO_COPY); any other
      packet is shared by raising its refcount. */
  function Clone(p: Pool, h: Handle, forceNoCopy: bool, spare: Handle): (r: Got)
    requires Valid(p) && h in p.used
    requires p.unused == [] ==> spare !in p.packets
    ensures Valid(r.pool)
  {
    var src := p.packets[h];
    if !forceNoCopy && src.borrowed then
      var g := Get(p, spare);
      var dst := Packet(1, src.bytes, src.ts, src.datalink, src.input, src.id, false, None);
      Got(g.pool.(packets := g.pool.packets[g.handle := dst]), g.handle)
    else
      Got(p.(packets := p.packets[h := src.(refcount := src.refcount + 1)]), h)
  }

  /** What a release hands back: the pool, the return code, and the reassembly
      that was detached from the packet, which the caller then cleans up. */
  datatype Released = Released(pool: Pool, code: Code, detached: Option<nat>)

  /** `packet_pool_release`.  The attached reassembly is detached on every call;
      the packet goes back to the free list only when its refcount reaches 0,
      and then a borrowed buffer is returned to its capture input, which may
      fail (`inputReleaseOk`).  The cleanup of the detached reassembly and the
      freeing of an owned buffer are not modelled. */
  function Release(p: Pool, h: Handle, inputReleaseOk: bool): (r: Released)
    requires Valid(p) && h in p.used
    ensures Valid(r.pool)
    ensures r.detached == p.packets[h].multipart
  {
    var pk := p.packets[h];
    if pk.refcount > 1 then
      var kept := pk.(multipart := None, refcount := pk.refcount - 1);
      Released(p.(packets := p.packets[h := kept]), PomOk, pk.multipart)
    else
      var code := if pk.borrowed && !inputReleaseOk then PomErr else PomOk;
      Released(Pool(p.packets[h := Zeroed], Remove(p.used, h), [h] + p.unused), code, pk.multipart)
  }

  // ---------------------------------------------------------------------
  // Properties
  // ---------------------------------------------------------------------

  /** The live handles of a pool. */
  function Live(p: Pool): set<Handle>
  {
    set h | h in p.used
  }

  /** Cloning a packet that owns its bytes, or with copying forbidden, returns the
      same packet with one more reference and changes nothing else. */
  lemma {:induction false} CloneShares(p: Pool, h: Handle, forceNoCopy: bool, spare: Handle)
    requires Valid(p) && h in p.used
    requires p.unused == [] ==> spare !in p.packets
    requires forceNoCopy || !p.packets[h].borrowed
    ensures var r := Clone(p, h, forceNoCopy, spare);
      && r.handle == h
      && r.pool.packets[h] == p.packets[h].(refcount := p.packets[h].refcount + 1)
      && r.pool.used == p.used && r.pool.unused == p.unused
      && (forall x :: x in p.packets && x != h ==> x in r.pool.packets && r.pool.packets[x] == p.packets[x])
  {
  }

  /** Cloning a packet that borrows a capture buffer yields a different, owned
      packet with the same bytes, timestamp, link type, input and id, no
      reassembly and refcount 1; the original is untouched. */
  lemma {:induction false} CloneCopies(p: Pool, h: Handle, forceNoCopy: bool, spare: Handle)
    requires Valid(p) && h in p.used
    requires p.unused == [] ==> spare !in p.packets
    requires !forceNoCopy && p.packets[h].borrowed
    ensures var r := Clone(p, h, forceNoCopy, spare);
      var src, dst := p.packets[h], r.pool.packets[r.handle];
      && r.handle != h && r.handle !in p.used
      && Live(r.pool) == Live(p) + {r.handle}
      && dst.refcount == 1 && dst.bytes == src.bytes && dst.ts == src.ts
      && dst.datalink == src.datalink && dst.input == src.input && dst.id == src.id
      && !dst.borrowed && dst.multipart == None
      && r.pool.packets[h] == src
  {
    var g := Get(p, spare);
    assert Live(g.pool) == Live(p) + {g.handle};
  }

  /** A release that leaves references keeps the packet live with one reference
      fewer and its reassembly detached; the lists do not change. */
  lemma {:induction false} ReleaseKeeps(p: Pool, h: Handle, inputReleaseOk: bool)
    requires Valid(p) && h in p.used && p.packets[h].refcount > 1
    ensures var r := Release(p, h, inputReleaseOk);
      && r.code == PomOk
      && r.pool.used == p.used && r.pool.unused == p.unused
      && r.pool.packets[h] == p.packets[h].(refcount := p.packets[h].refcount - 1, multipart := None)
  {
  }

  /** The release of the last reference moves the packet from the live list to
      the front of the free list, zeroed; the code is POM_ERR exactly when a
      borrowed buffer could not be handed back. */
  lemma {:induction false} ReleaseFrees(p: Pool, h: Handle, inputReleaseOk: bool)
    requires Valid(p) && h in p.used && p.packets[h].refcount == 1
    ensures var r := Release(p, h, inputReleaseOk);
      && Live(r.pool) == Live(p) - {h}
      && r.pool.unused == [h] + p.unused
      && r.pool.packets[h] == Zeroed
      && (r.code == PomErr <==> p.packets[h].borrowed && !inputReleaseOk)
  {
    var r := Release(p, h, inputReleaseOk);
    assert Live(r.pool) == Live(p) - {h};
  }

  /** Releasing a freshly obtained packet puts its handle back at the front of
      the free list and leaves the same packets live as before the get. */
  lemma {:induction false} GetReleaseRestores(p: Pool, spare: Handle, inputReleaseOk: bool)
    requires Valid(p)
    requires p.unused == [] ==> spare !in p.packets
    ensures var g := Get(p, spare);
      var r := Release(g.pool, g.handle, inputReleaseOk);
      && Live(r.pool) == Live(p)
      && r.pool.unused == [g.handle] + p.unused[if p.unused == [] then 0 else 1..]
      && r.code == PomOk
  {
    var g := Get(p, spare);
    ReleaseFrees(g.pool, g.handle, inputReleaseOk);
  }

  /** A shared clone followed by a release gives back the packet with its
      original refcount, minus any attached reassembly. */
  lemma {:induction false} CloneReleaseBalance(p: Pool, h: Handle, spare: Handle, inputReleaseOk: bool)
    requires Valid(p) && h in p.used && !p.packets[h].borrowed
    requires p.unused == [] ==> spare !in p.packets
    ensures var c := Clone(p, h, false, spare);
      var r := Release(c.pool, h, inputReleaseOk);
      && r.pool.used == p.used && r.pool.unused == p.unused
      && r.pool.packets[h] == p.packets[h].(multipart := None)
  {
    CloneShares(p, h, false, spare);
    var c := Clone(p, h, false, spare);
    ReleaseKeeps(c.pool, h, inputReleaseOk);
  }

  /** The pool after `k` releases of `h`, each returning any borrowed buffer
      successfully.  A packet with `n` references survives `n - 1` releases,
      live with one reference fewer each time, and the `n`-th frees it. */
  function ReleaseTimes(p: Pool, h: Handle, k: nat): (r: Pool)
    requires Valid(p) && h in p.used && k <= p.packets[h].refcount
    ensures Valid(r)
    ensures k < p.packets[h].refcount ==> h in r.used && r.packets[h].refcount == p.packets[h].refcount - k
    ensures k == p.packets[h].refcount ==> h !in r.used && h in r.unused && r.packets[h] == Zeroed
    decreases k
  {
    if k == 0 then p
    else Release(ReleaseTimes(p, h, k - 1), h, true).pool
  }
}
