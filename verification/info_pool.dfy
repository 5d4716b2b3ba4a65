/**
  The per-protocol pool of packet-info records: a used list and an unused
  list, both taking entries at the front.  A record is named by a handle; its
  field values (one typed value per declared field of the protocol) are not
  part of the model.
 */
module InfoPool {
  import opened Common

  type InfoHandle = nat

  datatype InfoPool = InfoPool(used: seq<InfoHandle>, unused: seq<InfoHandle>)

  /** Both lists are proper linked lists and no record is on both. */
  predicate Valid(p: InfoPool)
  {
    Distinct(p.used) && Distinct(p.unused) && forall h :: h in p.used ==> h !in p.unused
  }

  /** `packet_info_pool_init`: both lists empty. */
  const Empty: InfoPool := InfoPool([], [])

  lemma {:induction false} EmptyValid()
    ensures Valid(Empty)
  {
  }

  /** `packet_info_pool_get`.  The head of the unused list is moved to the front
      of the used list; with no unused record a new one, `spare`, is built,
      which fails (`buildOk` false) when one of its field values cannot be
      allocated, leaving the pool as it was. */
  function Get(p: InfoPool, spare: InfoHandle, buildOk: bool): (r: Option<(InfoPool, InfoHandle)>)
    requires Valid(p)
    requires p.unused == [] ==> spare !in p.used
    ensures r.None? <==> p.unused == [] && !buildOk
    ensures r.Some? ==> var (q, h) := r.value;
      && Valid(q)
      && h !in p.used && q.used == [h] + p.used
      && (p.unused != [] ==> h == p.unused[0] && q.unused == p.unused[1..])
      && (p.unused == [] ==> h == spare && q.unused == [])
  {
    if p.unused == [] then
      if buildOk then
        DistinctPush(spare, p.used);
        Some((InfoPool([spare] + p.used, []), spare))
      else None
    else
      var h := p.unused[0];
      DistinctPop(p.unused);
      DistinctPush(h, p.used);
      Some((InfoPool([h] + p.used, p.unused[1..]), h))
  }

  /** `packet_info_pool_release`: unlink the record from the used list and push
      it on the unused list.  A null record (`None`) gives POM_ERR. */
  function Release(p: InfoPool, info: Option<InfoHandle>): (r: (InfoPool, Code))
    requires Valid(p)
    requires info.Some? ==> info.value in p.used
    ensures Valid(r.0)
    ensures info.None? ==> r == (p, PomErr)
    ensures info.Some? ==> && r.1 == PomOk
                           && r.0.unused == [info.value] + p.unused
                           && (forall h :: h in r.0.used <==> h in p.used && h != info.value)
  {
    match info
    case None => (p, PomErr)
    case Some(h) =>
      DistinctPush(h, p.unused);
      (InfoPool(Remove(p.used, h), [h] + p.unused), PomOk)
  }

  /** The unused list is a stack: a record just released is the next one handed
      out, and it goes back to the front of the used list. */
  lemma {:induction false} ReleaseThenGetReuses(p: InfoPool, h: InfoHandle, spare: InfoHandle, buildOk: bool)
    requires Valid(p) && h in p.used
    ensures var (q, _) := Release(p, Some(h));
      var g := Get(q, spare, buildOk);
      && g.Some? && g.value.1 == h
      && g.value.0.unused == p.unused
      && (forall x :: x in g.value.0.used <==> x in p.used)
  {
  }

  /** A record handed out and released again leaves the pool with the same used
      records, and with it on top of the unused list. */
  lemma {:induction false} GetThenRelease(p: InfoPool, spare: InfoHandle)
    requires Valid(p)
    requires p.unused == [] ==> spare !in p.used
    ensures var g := Get(p, spare, true);
      && g.Some?
      && var (q, h) := g.value;
         var (q', code) := Release(q, Some(h));
         && code == PomOk
         && (forall x :: x in q'.used <==> x in p.used)
         && q'.unused == [h] + q.unused
  {
  }
}
