/**
 * `update_offers` as a specification over the stored offers and relations:
 * each record of the upstream batch is folded into the store in order,
 * then every stored offer missing from the batch is deactivated.
 */
module Reconcile {
  import opened Wrappers
  import opened Models
  import StringOps
  import Disks

  /** The monthly fee, in cents, for an offer with an IPv4 address. */
  const Ipv4Fee := 170

  /** The stored offers by id, and the offer/subscriber relations. */
  datatype Db = Db(offers: map<OfferId, Offer>, relations: seq<Relation>)

  /** Every stored offer is filed under its own id. */
  predicate IdsMatch(offers: map<OfferId, Offer>)
  {
    forall k :: k in offers ==> offers[k].id == k
  }

  /** The price of a record in cents, the IPv4 fee included. */
  function Cents(inc: IncomingOffer): int
  {
    inc.price * 100 + (if "IPv4" in inc.specials then Ipv4Fee else 0)
  }

  /** The disk groups of an offer as the set of `(type, size, amount)` triples the comparison uses. */
  function DiskSet(disks: seq<DiskGroup>): set<DiskGroup>
  {
    set g | g in disks
  }

  /** `session.get(Offer, key)`. */
  function Lookup(offers: map<OfferId, Offer>, key: OfferId): Option<Offer>
  {
    if key in offers then Some(offers[key]) else None
  }

  /** A stored offer whose price differs from the new one; a new offer has none. */
  predicate PriceChanged(existing: Option<Offer>, price: int)
  {
    existing.Some? && existing.value.price != price
  }

  /**
   * The offer once a record is written over `existing` (or over a new row):
   * every field the record carries is overwritten, the disks are replaced
   * only when their set changes, and the time of the last update is `now`
   * for a new row and for a price change.
   */
  function Refreshed(existing: Option<Offer>, inc: IncomingOffer, now: Timestamp): Offer
  {
    var built := Disks.NewDisks(inc.diskData);
    var oldDisks := if existing.Some? then existing.value.disks else [];
    var price := Cents(inc);
    Offer(
      inc.key,
      StringOps.Strip(inc.cpu),
      inc.ramSize,
      inc.datacenter,
      price,
      inc.isEcc,
      "iNIC" in inc.specials,
      "HWR" in inc.specials,
      "IPv4" in inc.specials,
      false,
      if DiskSet(oldDisks) == DiskSet(built) then oldDisks else built,
      if existing.None? || PriceChanged(existing, price) then now else existing.value.lastUpdate)
  }

  /** Every relation of offer `id` becomes not notified and not new. */
  function ResetFlags(rels: seq<Relation>, id: OfferId): seq<Relation>
  {
    seq(|rels|, i requires 0 <= i < |rels| =>
      if rels[i].offer == id then rels[i].(notified := false, isNew := false) else rels[i])
  }

  /** One pass of the loop body of `update_offers`. */
  function ReconcileOne(db: Db, inc: IncomingOffer, now: Timestamp): Db
  {
    var existing := Lookup(db.offers, inc.key);
    var rels := if PriceChanged(existing, Cents(inc)) then ResetFlags(db.relations, inc.key) else db.relations;
    Db(db.offers[inc.key := Refreshed(existing, inc, now)], rels)
  }

  /** The keys of a batch. */
  function BatchKeys(batch: seq<IncomingOffer>): set<OfferId>
  {
    set j | 0 <= j < |batch| :: batch[j].key
  }

  /**
   * The records folded in, in order. No stored offer is removed, each key
   * of the batch gets one, and the relations stay where they are.
   */
  function ReconcileAll(db: Db, batch: seq<IncomingOffer>, now: Timestamp): (r: Db)
    ensures r.offers.Keys == db.offers.Keys + BatchKeys(batch)
    ensures |r.relations| == |db.relations|
    ensures forall i :: 0 <= i < |r.relations| ==> r.relations[i].offer == db.relations[i].offer && r.relations[i].subscriber == db.relations[i].subscriber
  {
    if |batch| == 0 then db
    else
      var n := |batch| - 1;
      assert BatchKeys(batch) == BatchKeys(batch[..n]) + {batch[n].key} by {
        assert forall j :: 0 <= j < n ==> batch[..n][j] == batch[j];
      }
      ReconcileOne(ReconcileAll(db, batch[..n], now), batch[n], now)
  }

  /** The bulk update: every stored offer not in the batch and not yet deactivated is deactivated. */
  function Deactivated(offers: map<OfferId, Offer>, keys: set<OfferId>): map<OfferId, Offer>
  {
    map k | k in offers :: if !offers[k].deactivated && k !in keys then offers[k].(deactivated := true) else offers[k]
  }

  /**
   * `update_offers`: the store afterwards, and the offers of the batch in
   * batch order, as they are once the batch is in.
   */
  function UpdateOffers(db: Db, batch: seq<IncomingOffer>, now: Timestamp): (Db, seq<Offer>)
  {
    var r := ReconcileAll(db, batch, now);
    var offers := Deactivated(r.offers, BatchKeys(batch));
    assert forall j :: 0 <= j < |batch| ==> batch[j].key in BatchKeys(batch);
    (Db(offers, r.relations), seq(|batch|, j requires 0 <= j < |batch| => offers[batch[j].key]))
  }

  // ---------------------------------------------------------------------
  // One record

  /**
   * The offer a record settles into: every field carried by the record, the
   * disks as a set, and active.
   */
  predicate Settled(o: Offer, inc: IncomingOffer)
  {
    && o.id == inc.key
    && o.cpu == StringOps.Strip(inc.cpu)
    && o.ram == inc.ramSize
    && o.datacenter == inc.datacenter
    && o.price == Cents(inc)
    && o.ecc == inc.isEcc
    && o.ipv4 == ("IPv4" in inc.specials)
    && o.inic == ("iNIC" in inc.specials)
    && o.hwr == ("HWR" in inc.specials)
    && !o.deactivated
    && DiskSet(o.disks) == DiskSet(Disks.NewDisks(inc.diskData))
  }

  /**
   * The price is the upstream price in cents plus the IPv4 fee exactly when
   * `"IPv4"` is a special; the flags are membership tests on the specials,
   * ECC is copied, and the offer is active. No other stored offer changes.
   */
  lemma StoredFields(db: Db, inc: IncomingOffer, now: Timestamp)
    ensures var o := ReconcileOne(db, inc, now).offers[inc.key];
      && o.id == inc.key && o.cpu == StringOps.Strip(inc.cpu) && o.ram == inc.ramSize && o.datacenter == inc.datacenter
      && o.price - inc.price * 100 == (if "IPv4" in inc.specials then 170 else 0)
      && (o.ipv4 <==> "IPv4" in inc.specials) && (o.inic <==> "iNIC" in inc.specials) && (o.hwr <==> "HWR" in inc.specials)
      && o.ecc == inc.isEcc && !o.deactivated
    ensures forall k :: k in db.offers && k != inc.key ==> ReconcileOne(db, inc, now).offers[k] == db.offers[k]
  {
  }

  /**
   * A price change on a stored offer resets the flags of every relation of
   * that offer, and only of that offer, and stamps the offer with `now`; a
   * new offer or an unchanged price leaves the relations and the stored
   * time as they were.
   */
  lemma PriceChangeReset(db: Db, inc: IncomingOffer, now: Timestamp)
    ensures var r := ReconcileOne(db, inc, now);
      inc.key in db.offers && db.offers[inc.key].price != Cents(inc) ==>
        && r.offers[inc.key].lastUpdate == now
        && |r.relations| == |db.relations|
        && (forall i :: 0 <= i < |db.relations| && db.relations[i].offer == inc.key ==>
              r.relations[i] == db.relations[i].(notified := false, isNew := false))
        && (forall i :: 0 <= i < |db.relations| && db.relations[i].offer != inc.key ==> r.relations[i] == db.relations[i])
    ensures var r := ReconcileOne(db, inc, now);
      inc.key in db.offers && db.offers[inc.key].price == Cents(inc) ==>
        r.relations == db.relations && r.offers[inc.key].lastUpdate == db.offers[inc.key].lastUpdate
    ensures var r := ReconcileOne(db, inc, now);
      inc.key !in db.offers ==> r.relations == db.relations && r.offers[inc.key].lastUpdate == now
  {
  }

  /**
   * The stored disks always have the set of the record's disk groups; they
   * are the stored ones when that set did not change, and the record's
   * freshly built groups otherwise.
   */
  lemma DiskRewrite(existing: Option<Offer>, inc: IncomingOffer, now: Timestamp)
    ensures DiskSet(Refreshed(existing, inc, now).disks) == DiskSet(Disks.NewDisks(inc.diskData))
    ensures existing.Some? && DiskSet(existing.value.disks) == DiskSet(Disks.NewDisks(inc.diskData)) ==>
      Refreshed(existing, inc, now).disks == existing.value.disks
    ensures existing.Some? && DiskSet(existing.value.disks) != DiskSet(Disks.NewDisks(inc.diskData)) ==>
      Refreshed(existing, inc, now).disks == Disks.NewDisks(inc.diskData)
  {
  }

  /** Writing a record gives a settled offer. */
  lemma RefreshedSettles(existing: Option<Offer>, inc: IncomingOffer, now: Timestamp)
    ensures Settled(Refreshed(existing, inc, now), inc)
  {
  }

  /** Writing a record over the offer it settled into changes nothing, whatever the time. */
  lemma RefreshedFixes(o: Offer, inc: IncomingOffer, now: Timestamp)
    requires Settled(o, inc)
    ensures Refreshed(Some(o), inc, now) == o
    ensures !PriceChanged(Some(o), Cents(inc))
  {
  }

  // ---------------------------------------------------------------------
  // The batch

  /** No record after position `j` has the key of record `j`. */
  predicate LastOfKey(batch: seq<IncomingOffer>, j: int)
    requires 0 <= j < |batch|
  {
    forall l :: j < l < |batch| ==> batch[l].key != batch[j].key
  }

  /** The last record of each key decides what is stored under it. */
  lemma {:induction false} LastOccurrenceWins(db: Db, batch: seq<IncomingOffer>, now: Timestamp, j: nat)
    requires j < |batch| && LastOfKey(batch, j)
    ensures batch[j].key in ReconcileAll(db, batch, now).offers
    ensures Settled(ReconcileAll(db, batch, now).offers[batch[j].key], batch[j])
    decreases |batch|
  {
    var n := |batch| - 1;
    var prev := ReconcileAll(db, batch[..n], now);
    assert ReconcileAll(db, batch, now) == ReconcileOne(prev, batch[n], now);
    if j == n {
      RefreshedSettles(Lookup(prev.offers, batch[n].key), batch[n], now);
    } else {
      assert LastOfKey(batch[..n], j) by {
        forall l | j < l < n
          ensures batch[..n][l].key != batch[..n][j].key
        {
          assert batch[..n][l] == batch[l];
        }
      }
      LastOccurrenceWins(db, batch[..n], now, j);
      assert batch[..n][j] == batch[j];
      OtherKeyKept(prev, batch[n], now, batch[j].key);
    }
  }

  /** Folding in one record leaves the offers under other keys alone. */
  lemma OtherKeyKept(db: Db, inc: IncomingOffer, now: Timestamp, k: OfferId)
    requires k != inc.key && k in db.offers
    ensures k in ReconcileOne(db, inc, now).offers
    ensures ReconcileOne(db, inc, now).offers[k] == db.offers[k]
  {
  }

  /** Ids stay matched through the fold. */
  lemma {:induction false} ReconcileAllIds(db: Db, batch: seq<IncomingOffer>, now: Timestamp)
    requires IdsMatch(db.offers)
    ensures IdsMatch(ReconcileAll(db, batch, now).offers)
    decreases |batch|
  {
    if |batch| > 0 {
      ReconcileAllIds(db, batch[..|batch| - 1], now);
    }
  }

  /**
   * A stored offer that no record names keeps every field through the fold,
   * and a relation to such an offer keeps its flags.
   */
  lemma {:induction false} ReconcileAllUntouched(db: Db, batch: seq<IncomingOffer>, now: Timestamp)
    ensures var r := ReconcileAll(db, batch, now);
      forall k :: k in db.offers && k !in BatchKeys(batch) ==> r.offers[k] == db.offers[k]
    ensures var r := ReconcileAll(db, batch, now);
      forall i :: 0 <= i < |db.relations| && db.relations[i].offer !in BatchKeys(batch) ==> r.relations[i] == db.relations[i]
    decreases |batch|
  {
    if |batch| > 0 {
      var n := |batch| - 1;
      ReconcileAllUntouched(db, batch[..n], now);
      assert BatchKeys(batch) == BatchKeys(batch[..n]) + {batch[n].key} by {
        assert forall j :: 0 <= j < n ==> batch[..n][j] == batch[j];
      }
    }
  }

  /**
   * After `update_offers` no offer was removed, each key of the batch is
   * stored and active, every other offer is deactivated and otherwise as it
   * was, relations of offers outside the batch keep their flags, and the
   * returned offers follow the batch, one per record.
   */
  lemma UpdateOffersFacts(db: Db, batch: seq<IncomingOffer>, now: Timestamp)
    requires IdsMatch(db.offers)
    ensures var (after, returned) := UpdateOffers(db, batch, now);
      && after.offers.Keys == db.offers.Keys + BatchKeys(batch)
      && IdsMatch(after.offers)
      && (forall j :: 0 <= j < |batch| ==> !after.offers[batch[j].key].deactivated)
      && (forall k :: k in db.offers && k !in BatchKeys(batch) ==> after.offers[k] == db.offers[k].(deactivated := true))
      && |after.relations| == |db.relations|
      && (forall i :: 0 <= i < |db.relations| && db.relations[i].offer !in BatchKeys(batch) ==> after.relations[i] == db.relations[i])
      && |returned| == |batch|
      && (forall j :: 0 <= j < |batch| ==> returned[j] == after.offers[batch[j].key] && returned[j].id == batch[j].key)
  {
    var keys := BatchKeys(batch);
    var r := ReconcileAll(db, batch, now);
    var offers := Deactivated(r.offers, keys);
    var returned := UpdateOffers(db, batch, now).1;
    assert UpdateOffers(db, batch, now).0 == Db(offers, r.relations);
    ReconcileAllIds(db, batch, now);
    ReconcileAllUntouched(db, batch, now);
    DeactivatedFacts(r.offers, keys);
    forall j | 0 <= j < |batch|
      ensures batch[j].key in keys && !r.offers[batch[j].key].deactivated
    {
      var last := LastIndex(batch, j);
      LastOccurrenceWins(db, batch, now, last);
    }
    assert |returned| == |batch|;
    assert forall j :: 0 <= j < |batch| ==> returned[j] == offers[batch[j].key];
  }

  /** The bulk update keeps every offer, and touches only those outside `keys`. */
  lemma DeactivatedFacts(offers: map<OfferId, Offer>, keys: set<OfferId>)
    ensures Deactivated(offers, keys).Keys == offers.Keys
    ensures forall k :: k in offers && k in keys ==> Deactivated(offers, keys)[k] == offers[k]
    ensures forall k :: k in offers && k !in keys ==> Deactivated(offers, keys)[k] == offers[k].(deactivated := true)
  {
  }

  /** The position of the last record with the key of record `j`. */
  function LastIndex(batch: seq<IncomingOffer>, j: nat): (l: nat)
    requires j < |batch|
    ensures j <= l < |batch| && batch[l].key == batch[j].key && LastOfKey(batch, l)
    decreases |batch| - j
  {
    if exists l :: j < l < |batch| && batch[l].key == batch[j].key then
      var l :| j < l < |batch| && batch[l].key == batch[j].key;
      LastIndex(batch, l)
    else j
  }

  // ---------------------------------------------------------------------
  // Batches that raise

  /**
   * The record replaces the offer's disk groups: their set differs from the
   * set of the groups the record brings.
   */
  predicate RewritesDisks(offers: map<OfferId, Offer>, inc: IncomingOffer)
  {
    var existing := Lookup(offers, inc.key);
    DiskSet(if existing.Some? then existing.value.disks else []) != DiskSet(Disks.NewDisks(inc.diskData))
  }

  /**
   * The keys whose offers hold disk groups built by a record of the batch.
   * Such a group carries the upstream category string as its type, not the
   * disk type the database reads back, until the session is committed.
   */
  function BuiltDisks(db: Db, batch: seq<IncomingOffer>, now: Timestamp): set<OfferId>
    decreases |batch|
  {
    if |batch| == 0 then {}
    else
      var n := |batch| - 1;
      var built := BuiltDisks(db, batch[..n], now);
      var inc := batch[n];
      if !RewritesDisks(ReconcileAll(db, batch[..n], now).offers, inc) then built
      else if |Disks.NewDisks(inc.diskData)| == 0 then built - {inc.key}
      else built + {inc.key}
  }

  /**
   * `update_offers` raises: some record meets an offer whose disk groups an
   * earlier record of the batch built, and naming the type of such a group
   * for the old disk set fails. The job then commits nothing.
   */
  predicate Raises(db: Db, batch: seq<IncomingOffer>, now: Timestamp)
    decreases |batch|
  {
    var n := |batch| - 1;
    |batch| > 0 && (Raises(db, batch[..n], now) || batch[n].key in BuiltDisks(db, batch[..n], now))
  }

  /** Only keys of the batch can hold groups the batch built. */
  lemma {:induction false} BuiltDisksInBatch(db: Db, batch: seq<IncomingOffer>, now: Timestamp)
    ensures BuiltDisks(db, batch, now) <= BatchKeys(batch)
    decreases |batch|
  {
    if |batch| > 0 {
      var n := |batch| - 1;
      BuiltDisksInBatch(db, batch[..n], now);
      assert BuiltDisks(db, batch, now) <= BuiltDisks(db, batch[..n], now) + {batch[n].key};
      BatchKeysLast(batch);
    }
  }

  /** The keys of a batch are those before its last record, and that record's. */
  lemma BatchKeysLast(batch: seq<IncomingOffer>)
    requires |batch| > 0
    ensures BatchKeys(batch) == BatchKeys(batch[..|batch| - 1]) + {batch[|batch| - 1].key}
  {
    var n := |batch| - 1;
    assert forall j :: 0 <= j < n ==> batch[..n][j] == batch[j];
  }

  /** A batch whose keys are distinct never raises. */
  lemma {:induction false} DistinctKeysNeverRaise(db: Db, batch: seq<IncomingOffer>, now: Timestamp)
    requires DistinctKeys(batch)
    ensures !Raises(db, batch, now)
    decreases |batch|
  {
    if |batch| > 0 {
      var n := |batch| - 1;
      assert DistinctKeys(batch[..n]) by {
        assert forall j :: 0 <= j < n ==> batch[..n][j] == batch[j];
      }
      DistinctKeysNeverRaise(db, batch[..n], now);
      BuiltDisksInBatch(db, batch[..n], now);
      assert batch[n].key !in BatchKeys(batch[..n]) by {
        assert forall j :: 0 <= j < n ==> batch[..n][j] == batch[j];
      }
    }
  }

  /** A batch raises once one of its prefixes does. */
  lemma {:induction false} RaisesPrefix(db: Db, batch: seq<IncomingOffer>, k: nat, now: Timestamp)
    requires k <= |batch| && Raises(db, batch[..k], now)
    ensures Raises(db, batch, now)
    decreases |batch|
  {
    if k < |batch| {
      var n := |batch| - 1;
      assert batch[..n][..k] == batch[..k];
      RaisesPrefix(db, batch[..n], k, now);
    } else {
      assert batch[..k] == batch;
    }
  }

  /**
   * A new offer that comes with disks, named twice in one batch, raises:
   * the first record builds its groups, the second trips over them.
   */
  lemma NewOfferRepeatedRaises(db: Db, first: IncomingOffer, second: IncomingOffer, now: Timestamp)
    requires first.key !in db.offers && |Disks.NewDisks(first.diskData)| > 0
    requires second.key == first.key
    ensures Raises(db, [first, second], now)
  {
    var batch := [first, second];
    assert batch[..1] == [first];
    assert [first][..0] == [];
    assert Disks.NewDisks(first.diskData)[0] in DiskSet(Disks.NewDisks(first.diskData));
    assert RewritesDisks(db.offers, first);
    assert BuiltDisks(db, [first], now) == {first.key};
  }

  /**
   * A key named twice raises nothing when the stored offer already has the
   * disk set both records bring; then the second record decides.
   */
  lemma RepeatWithoutRewriteCompletes(db: Db, first: IncomingOffer, second: IncomingOffer, now: Timestamp)
    requires first.key in db.offers && second.key == first.key
    requires DiskSet(db.offers[first.key].disks) == DiskSet(Disks.NewDisks(first.diskData))
    requires DiskSet(Disks.NewDisks(second.diskData)) == DiskSet(Disks.NewDisks(first.diskData))
    ensures !Raises(db, [first, second], now)
    ensures Settled(ReconcileAll(db, [first, second], now).offers[first.key], second)
  {
    var batch := [first, second];
    assert batch[..1] == [first];
    assert [first][..0] == [];
    assert ReconcileAll(db, [], now) == db;
    assert !RewritesDisks(db.offers, first);
    assert BuiltDisks(db, [first], now) == {};
    assert !Raises(db, [first], now);
    LastOccurrenceWins(db, batch, now, 1);
  }

  // ---------------------------------------------------------------------
  // Reconciling the same batch again

  /** No two records of the batch share a key. */
  predicate DistinctKeys(batch: seq<IncomingOffer>)
  {
    forall i, j :: 0 <= i < j < |batch| ==> batch[i].key != batch[j].key
  }

  /** Record `inc` is settled in the store. */
  predicate SettledIn(offers: map<OfferId, Offer>, inc: IncomingOffer)
  {
    inc.key in offers && Settled(offers[inc.key], inc)
  }

  /** Every record of the batch is settled in the store, stated record by record from the end. */
  predicate AllSettled(offers: map<OfferId, Offer>, batch: seq<IncomingOffer>)
    decreases |batch|
  {
    |batch| > 0 ==> AllSettled(offers, batch[..|batch| - 1]) && SettledIn(offers, batch[|batch| - 1])
  }

  lemma {:induction false} AllSettledOfEach(offers: map<OfferId, Offer>, batch: seq<IncomingOffer>)
    requires forall j :: 0 <= j < |batch| ==> SettledIn(offers, batch[j])
    ensures AllSettled(offers, batch)
    decreases |batch|
  {
    if |batch| > 0 {
      var n := |batch| - 1;
      forall j | 0 <= j < n
        ensures SettledIn(offers, batch[..n][j])
      {
        assert batch[..n][j] == batch[j];
      }
      AllSettledOfEach(offers, batch[..n]);
    }
  }

  /** Folding in a batch that is already settled changes nothing. */
  lemma {:induction false} SettledFoldIsIdentity(db: Db, batch: seq<IncomingOffer>, now: Timestamp)
    requires AllSettled(db.offers, batch)
    ensures ReconcileAll(db, batch, now) == db
    decreases |batch|
  {
    if |batch| > 0 {
      var n := |batch| - 1;
      SettledFoldIsIdentity(db, batch[..n], now);
      assert ReconcileAll(db, batch, now) == ReconcileOne(db, batch[n], now);
      SettledRecordIsIdentity(db, batch[n], now);
    }
  }

  /** Folding in a record the store has already settled into changes nothing. */
  lemma SettledRecordIsIdentity(db: Db, inc: IncomingOffer, now: Timestamp)
    requires SettledIn(db.offers, inc)
    ensures ReconcileOne(db, inc, now) == db
  {
    var o := db.offers[inc.key];
    RefreshedFixes(o, inc, now);
    assert db.offers[inc.key := o] == db.offers;
  }


  /**
   * Reconciling a batch with distinct keys a second time, at any time,
   * leaves the store exactly as the first pass left it: no disk is
   * rewritten, no relation flag reset, no offer stamped or deactivated anew.
   */
  lemma UpdateOffersIdempotent(db: Db, batch: seq<IncomingOffer>, now: Timestamp, later: Timestamp)
    requires DistinctKeys(batch)
    ensures var first := UpdateOffers(db, batch, now);
      UpdateOffers(first.0, batch, later) == first
  {
    var first := UpdateOffers(db, batch, now);
    var keys := BatchKeys(batch);
    FirstPassSettles(db, batch, now);
    SettledFoldIsIdentity(first.0, batch, later);
    ReDeactivating(db, batch, now);
    var second := UpdateOffers(first.0, batch, later);
    assert second.0 == first.0;
    assert forall j :: 0 <= j < |batch| ==> second.1[j] == first.1[j];
  }

  /** With distinct keys every record is settled after the first pass. */
  lemma FirstPassSettles(db: Db, batch: seq<IncomingOffer>, now: Timestamp)
    requires DistinctKeys(batch)
    ensures AllSettled(UpdateOffers(db, batch, now).0.offers, batch)
  {
    var keys := BatchKeys(batch);
    var r := ReconcileAll(db, batch, now);
    assert UpdateOffers(db, batch, now).0.offers == Deactivated(r.offers, keys);
    DeactivatedFacts(r.offers, keys);
    forall j | 0 <= j < |batch|
      ensures batch[j].key in keys && batch[j].key in r.offers && Settled(r.offers[batch[j].key], batch[j])
    {
      LastOccurrenceWins(db, batch, now, j);
    }
    AllSettledOfEach(UpdateOffers(db, batch, now).0.offers, batch);
  }

  /** The bulk update applied a second time with the same keys changes nothing. */
  lemma ReDeactivating(db: Db, batch: seq<IncomingOffer>, now: Timestamp)
    ensures var offers := UpdateOffers(db, batch, now).0.offers;
      Deactivated(offers, BatchKeys(batch)) == offers
  {
    var keys := BatchKeys(batch);
    var r := ReconcileAll(db, batch, now);
    assert UpdateOffers(db, batch, now).0.offers == Deactivated(r.offers, keys);
    DeactivatedTwice(r.offers, keys);
  }

  lemma DeactivatedTwice(offers: map<OfferId, Offer>, keys: set<OfferId>)
    ensures Deactivated(Deactivated(offers, keys), keys) == Deactivated(offers, keys)
  {
    var d := Deactivated(offers, keys);
    var dd := Deactivated(d, keys);
    DeactivatedFacts(offers, keys);
    DeactivatedFacts(d, keys);
    assert dd.Keys == d.Keys;
    forall k | k in d
      ensures dd[k] == d[k]
    {
    }
  }
}
