/** `findAllById` on the service catalogue. */
module ServiceOfferRepository {
  import opened Entities
  import Seqs

  predicate UniqueServiceIds(catalog: seq<ServiceOffer>) {
    forall i, j :: 0 <= i < j < |catalog| ==> catalog[i].id != catalog[j].id
  }

  predicate IsKnown(catalog: seq<ServiceOffer>, id: ServiceId) {
    exists s :: s in catalog && s.id == id
  }

  /** `findAllById`: `WHERE id IN (ids)`, so each stored service is returned
      at most once however often its id is repeated. */
  function FindAllById(catalog: seq<ServiceOffer>, ids: seq<ServiceId>): (r: seq<ServiceOffer>)
    ensures forall s :: s in r <==> s in catalog && s.id in ids
  {
    Seqs.Filter(catalog, (s: ServiceOffer) => s.id in ids)
  }

  /** The ids among `ids` that name a stored service. */
  function KnownIds(catalog: seq<ServiceOffer>, ids: seq<ServiceId>): set<ServiceId> {
    set id | id in ids && IsKnown(catalog, id)
  }

  /** Removing the first stored service removes its id from the known ids
      and nothing else. */
  lemma KnownIdsStep(catalog: seq<ServiceOffer>, ids: seq<ServiceId>)
    requires |catalog| > 0 && UniqueServiceIds(catalog)
    ensures catalog[0].id in ids ==>
      KnownIds(catalog, ids) == KnownIds(catalog[1..], ids) + {catalog[0].id}
      && catalog[0].id !in KnownIds(catalog[1..], ids)
    ensures catalog[0].id !in ids ==> KnownIds(catalog, ids) == KnownIds(catalog[1..], ids)
  {
    var h, rest := catalog[0], catalog[1..];
    forall id | id in KnownIds(catalog, ids) && id != h.id
      ensures id in KnownIds(rest, ids)
    {
      var s :| s in catalog && s.id == id;
      var k :| 0 <= k < |catalog| && catalog[k] == s;
      assert k > 0 && rest[k - 1] == s;
    }
  }

  /** The query over a non-empty catalogue: the first service, when
      requested, then the query over the rest. */
  lemma FindAllByIdStep(catalog: seq<ServiceOffer>, ids: seq<ServiceId>)
    requires |catalog| > 0
    ensures |FindAllById(catalog, ids)| ==
      (if catalog[0].id in ids then 1 else 0) + |FindAllById(catalog[1..], ids)|
  {
  }

  /** With unique keys, the query returns one row per known requested id. */
  lemma {:induction false} FindAllByIdCount(catalog: seq<ServiceOffer>, ids: seq<ServiceId>)
    requires UniqueServiceIds(catalog)
    ensures |FindAllById(catalog, ids)| == |KnownIds(catalog, ids)|
    decreases |catalog|
  {
    if |catalog| > 0 {
      assert UniqueServiceIds(catalog[1..]);
      FindAllByIdCount(catalog[1..], ids);
      FindAllByIdStep(catalog, ids);
      KnownIdsStep(catalog, ids);
    } else {
      assert KnownIds(catalog, ids) == {};
    }
  }

  /** The services' lookup check `found.size() == ids.size()` passes exactly
      when no id repeats and every id is known. */
  lemma FindAllByIdComplete(catalog: seq<ServiceOffer>, ids: seq<ServiceId>)
    requires UniqueServiceIds(catalog)
    ensures |FindAllById(catalog, ids)| == |ids| <==>
      Seqs.Distinct(ids) && forall id :: id in ids ==> IsKnown(catalog, id)
  {
    FindAllByIdCount(catalog, ids);
    Seqs.DistinctIffNoLoss(ids);
    var known := KnownIds(catalog, ids);
    var all := Seqs.Elements(ids);
    Seqs.SubsetSize(known, all);
    if |FindAllById(catalog, ids)| == |ids| {
      Seqs.SubsetOfSameSize(known, all);
      forall id | id in ids ensures IsKnown(catalog, id) {
        assert id in all;
      }
    }
    if forall id :: id in ids ==> IsKnown(catalog, id) {
      assert known == all;
    }
  }
}
