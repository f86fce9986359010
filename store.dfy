/**
 * The database session the bot's jobs and commands work on: the stored
 * offers and the offer/subscriber relations, updated in place by
 * `update_offers`, `check_offer_for_subscriber`, `format_offers` and `/set`.
 */
module Sessions {
  import opened Wrappers
  import opened Models
  import StringOps
  import Disks
  import Text
  import Reconcile
  import Matching
  import Formatting
  import Commands

  /**
   * The constraints of the schema: every offer is filed under its id, every
   * relation refers to a stored offer, and there is at most one relation
   * per (offer, subscriber) pair.
   */
  ghost predicate ValidDb(db: Reconcile.Db)
  {
    && Reconcile.IdsMatch(db.offers)
    && (forall x :: x in db.relations ==> x.offer in db.offers)
    && Matching.UniquePairs(db.relations)
  }

  class Store {
    var offers: map<OfferId, Offer>
    var relations: seq<Relation>
    /** The keys of the offer table in storage order: the order its queries return rows in. */
    var rows: seq<OfferId>

    ghost predicate Valid()
      reads this
    {
      && ValidDb(Contents())
      && (forall k :: k in offers <==> k in rows)
    }

    /** The stored state as a value. */
    function Contents(): Reconcile.Db
      reads this
    {
      Reconcile.Db(offers, relations)
    }

    /** An empty database. */
    constructor ()
      ensures Valid()
      ensures offers == map[] && relations == [] && rows == []
    {
      offers := map[];
      relations := [];
      rows := [];
    }

    /**
     * `update_offers`: each record of the batch is written into its offer,
     * in order, then every offer missing from the batch is deactivated, and
     * the offers of the batch are returned in batch order. A record that
     * meets an offer whose disk groups an earlier record built makes the
     * call raise; the job then commits nothing and the store is as it was.
     */
    method UpdateOffers(batch: seq<IncomingOffer>, now: Timestamp) returns (result: Option<seq<Offer>>)
      requires Valid()
      modifies this
      ensures Valid()
      ensures result.None? <==> Reconcile.Raises(old(Contents()), batch, now)
      ensures result.None? ==> Contents() == old(Contents()) && rows == old(rows)
      ensures result.Some? ==> (Contents(), result.value) == Reconcile.UpdateOffers(old(Contents()), batch, now)
    {
      ghost var start := Contents();
      assert ValidDb(start);
      var offers0, relations0, rows0 := offers, relations, rows;
      assert start == Reconcile.Db(offers0, relations0);
      var activeIds: set<OfferId> := {};
      var built: set<OfferId> := {};
      for i := 0 to |batch|
        invariant Contents() == Reconcile.ReconcileAll(start, batch[..i], now)
        invariant activeIds == Reconcile.BatchKeys(batch[..i])
        invariant built == Reconcile.BuiltDisks(start, batch[..i], now)
        invariant !Reconcile.Raises(start, batch[..i], now)
        invariant forall k :: k in offers <==> k in rows
      {
        if batch[i].key in built {
          RaisesStep(start, batch, i, now);
          Reconcile.RaisesPrefix(start, batch, i + 1, now);
          offers, relations, rows := offers0, relations0, rows0;
          assert Contents() == Reconcile.Db(offers0, relations0);
          return None;
        }
        KeysStep(batch, i);
        activeIds := activeIds + {batch[i].key};
        built := UpdateRecord(start, batch, i, now, built);
      }
      assert batch[..|batch|] == batch;
      var returned := DeactivateMissing(start, batch, now, activeIds);
      result := Some(returned);
    }

    /**
     * The end of `update_offers`, once every record is folded in: the
     * offers missing from the batch are deactivated, and the offers of the
     * batch are returned in batch order.
     */
    method DeactivateMissing(ghost start: Reconcile.Db, batch: seq<IncomingOffer>, now: Timestamp, activeIds: set<OfferId>)
      returns (returned: seq<Offer>)
      requires ValidDb(start)
      requires Contents() == Reconcile.ReconcileAll(start, batch, now)
      requires activeIds == Reconcile.BatchKeys(batch)
      requires forall k :: k in offers <==> k in rows
      modifies this
      ensures Valid()
      ensures rows == old(rows)
      ensures (Contents(), returned) == Reconcile.UpdateOffers(start, batch, now)
    {
      offers := Reconcile.Deactivated(offers, activeIds);
      var stored := offers;
      returned := seq(|batch|, j requires 0 <= j < |batch| => stored[batch[j].key]);
      UpdateKeepsValid(start, batch, now);
    }

    /**
     * One turn of the `update_offers` loop, on a record whose offer holds
     * no groups the batch built: the record is folded in, and the keys with
     * built groups follow its disk rewrite.
     */
    method UpdateRecord(ghost start: Reconcile.Db, batch: seq<IncomingOffer>, i: nat, now: Timestamp, built: set<OfferId>)
      returns (built': set<OfferId>)
      requires i < |batch|
      requires Contents() == Reconcile.ReconcileAll(start, batch[..i], now)
      requires built == Reconcile.BuiltDisks(start, batch[..i], now) && batch[i].key !in built
      requires !Reconcile.Raises(start, batch[..i], now)
      requires forall k :: k in offers <==> k in rows
      modifies this
      ensures Contents() == Reconcile.ReconcileAll(start, batch[..i + 1], now)
      ensures built' == Reconcile.BuiltDisks(start, batch[..i + 1], now)
      ensures !Reconcile.Raises(start, batch[..i + 1], now)
      ensures forall k :: k in offers <==> k in rows
    {
      RaisesStep(start, batch, i, now);
      FoldStep(start, batch, i, now);
      var rewritten, groups := ReconcileRecord(batch[i], now);
      built' := built;
      if rewritten {
        built' := if |groups| == 0 then built - {batch[i].key} else built + {batch[i].key};
      }
    }

    /**
     * The loop body of `update_offers` for one record. A new offer is filed
     * as a new row; `rewritten` tells whether the offer's disk groups were
     * replaced by the record's freshly built `groups`.
     */
    method ReconcileRecord(inc: IncomingOffer, now: Timestamp) returns (rewritten: bool, groups: seq<DiskGroup>)
      requires forall k :: k in offers <==> k in rows
      modifies this
      ensures Contents() == Reconcile.ReconcileOne(old(Contents()), inc, now)
      ensures inc.key !in old(offers) ==> rows == old(rows) + [inc.key]
      ensures inc.key in old(offers) ==> rows == old(rows)
      ensures forall k :: k in offers <==> k in rows
      ensures rewritten == Reconcile.RewritesDisks(old(offers), inc) && groups == Disks.NewDisks(inc.diskData)
    {
      var existing := Reconcile.Lookup(offers, inc.key);
      if existing.None? {
        rows := rows + [inc.key];
      }

      groups := Disks.BuildNewDisks(inc.diskData);
      var disks := if existing.Some? then existing.value.disks else [];
      rewritten := Reconcile.DiskSet(disks) != Reconcile.DiskSet(groups);
      if rewritten {
        disks := groups;
      }

      var ipv4 := "IPv4" in inc.specials;
      var price := inc.price * 100;
      if ipv4 {
        price := price + Reconcile.Ipv4Fee;
      }

      var lastUpdate := if existing.Some? then existing.value.lastUpdate else now;
      if existing.Some? && existing.value.price != price {
        lastUpdate := now;
        ResetRelationFlags(inc.key);
      }

      assert price == Reconcile.Cents(inc);
      assert lastUpdate == Reconcile.Refreshed(existing, inc, now).lastUpdate;
      assert disks == Reconcile.Refreshed(existing, inc, now).disks;
      offers := offers[inc.key := Offer(
        inc.key, StringOps.Strip(inc.cpu), inc.ramSize, inc.datacenter, price, inc.isEcc,
        "iNIC" in inc.specials, "HWR" in inc.specials, ipv4, false, disks, lastUpdate)];
    }

    /** Every relation of offer `id` is marked not notified and not new. */
    method ResetRelationFlags(id: OfferId)
      modifies this
      ensures offers == old(offers) && rows == old(rows)
      ensures relations == Reconcile.ResetFlags(old(relations), id)
    {
      ghost var rels := relations;
      ghost var reset := Reconcile.ResetFlags(rels, id);
      for j := 0 to |relations|
        invariant offers == old(offers) && rows == old(rows)
        invariant |relations| == |rels|
        invariant forall k :: 0 <= k < j ==> relations[k] == reset[k]
        invariant forall k :: j <= k < |rels| ==> relations[k] == rels[k]
      {
        if relations[j].offer == id {
          relations := relations[j := relations[j].(notified := false, isNew := false)];
        }
      }
    }

    /**
     * `check_offer_for_subscriber`: the query, then a relation for every
     * matching offer that has none, then the subscriber's relations to
     * offers that no longer match are deleted.
     */
    method CheckOfferForSubscriber(sub: Subscriber, cpus: map<string, Cpu>)
      requires Valid()
      modifies this
      ensures Valid()
      ensures offers == old(offers) && rows == old(rows)
      ensures relations == Matching.Sync(old(relations), rows, sub.chatId, Matching.MatchingIds(offers, sub, cpus))
      ensures Matching.Synced(old(relations), relations, sub.chatId, Matching.MatchingIds(offers, sub, cpus))
    {
      var chat := sub.chatId;
      var matching := Matching.MatchingIds(offers, sub, cpus);
      ghost var before := relations;
      AddMissingRelations(chat, matching);
      DropStaleRelations(chat, matching);
      Matching.SyncIsSynced(before, rows, chat, matching);
    }

    /**
     * The first loop of the sync: the matching offers, in the order the
     * query returns them, each get a fresh relation when they have none.
     */
    method AddMissingRelations(chat: ChatId, matching: set<OfferId>)
      requires Valid()
      requires matching <= offers.Keys
      modifies this
      ensures Valid()
      ensures offers == old(offers) && rows == old(rows)
      ensures relations == Matching.AddMissing(old(relations), rows, chat, matching)
    {
      ghost var before := relations;
      for j := 0 to |rows|
        invariant offers == old(offers) && rows == old(rows)
        invariant Valid()
        invariant relations == Matching.AddMissing(before, rows[..j], chat, matching)
      {
        assert rows[..j + 1][..j] == rows[..j];
        var id := rows[j];
        if id in matching && !Matching.Related(relations, chat, id) {
          AddRelation(chat, id);
        }
      }
      assert rows[..|rows|] == rows;
    }

    /** Appends the relation of subscriber `chat` to offer `id`, which has none. */
    method AddRelation(chat: ChatId, id: OfferId)
      requires Valid() && id in offers
      requires !Matching.Related(relations, chat, id)
      modifies this
      ensures Valid()
      ensures offers == old(offers) && rows == old(rows)
      ensures relations == old(relations) + [Relation(id, chat, false, true)]
      ensures Matching.Related(relations, chat, id)
      ensures Matching.RelatedIds(relations, chat) == Matching.RelatedIds(old(relations), chat) + {id}
    {
      var r := Relation(id, chat, false, true);
      Matching.UniqueAppend(relations, r);
      ghost var prev := relations;
      relations := relations + [r];
      assert relations[|prev|] == r;
      Matching.RelatedIdsAppend(prev, r, chat);
      forall x | x in relations
        ensures x.offer in offers
      {
        if x != r {
          assert x in prev;
        }
      }
    }

    /** The second loop of the sync: the subscriber's relations to non-matching offers are deleted. */
    method DropStaleRelations(chat: ChatId, matching: set<OfferId>)
      requires Valid()
      modifies this
      ensures Valid()
      ensures offers == old(offers) && rows == old(rows)
      ensures relations == Matching.Kept(old(relations), chat, matching)
    {
      var kept: seq<Relation> := [];
      for i := 0 to |relations|
        invariant kept == Matching.Kept(relations[..i], chat, matching)
      {
        assert relations[..i + 1][..i] == relations[..i];
        if relations[i].subscriber != chat || relations[i].offer in matching {
          kept := kept + [relations[i]];
        }
      }
      assert relations[..|relations|] == relations;
      Matching.KeptUnique(relations, chat, matching);
      relations := kept;
    }

    /**
     * `check_offers_for_subscribers`: every authorized and active subscriber
     * is checked in turn. Afterwards each of them is related to exactly the
     * offers that match them: a relation it had to such an offer is still
     * there with its flags, and any other is fresh (not notified, new).
     * Every other chat id keeps its relations as they were.
     */
    method CheckOffersForSubscribers(subs: seq<Subscriber>, cpus: map<string, Cpu>)
      requires Valid()
      requires forall i, j :: 0 <= i < j < |subs| ==> subs[i].chatId != subs[j].chatId
      modifies this
      ensures Valid()
      ensures offers == old(offers) && rows == old(rows)
      ensures relations == Matching.SyncAll(offers, rows, old(relations), subs, cpus)
      ensures forall i :: 0 <= i < |subs| && subs[i].authorized && subs[i].active ==>
        Matching.SubscriberSynced(old(relations), relations, subs[i].chatId, Matching.MatchingIds(offers, subs[i], cpus))
      ensures forall c :: Matching.NotChecked(subs, c) ==>
        Matching.RelationsOf(relations, c) == Matching.RelationsOf(old(relations), c)
    {
      ghost var start := relations;
      for i := 0 to |subs|
        invariant Valid()
        invariant offers == old(offers) && rows == old(rows)
        invariant relations == Matching.SyncAll(offers, rows, start, subs[..i], cpus)
      {
        assert subs[..i + 1][..i] == subs[..i];
        if subs[i].authorized && subs[i].active {
          CheckOfferForSubscriber(subs[i], cpus);
        }
      }
      assert subs[..|subs|] == subs;
      Matching.SyncAllFacts(offers, rows, start, subs, cpus);
    }

    /**
     * `format_offers`: the selected relations of the subscriber are marked
     * notified and rendered, in order; the rendered blocks are split into
     * at most five messages, or none when nothing was selected.
     */
    method FormatOffers(sub: Subscriber, cpus: map<string, Cpu>, getAll: bool, render: Formatting.Block -> string)
      returns (chunks: seq<string>)
      requires Valid()
      modifies this
      ensures Valid()
      ensures offers == old(offers) && rows == old(rows)
      ensures (chunks, relations) == Formatting.FormatOffers(offers, old(relations), sub, cpus, getAll, render)
    {
      ghost var rels := relations;
      var texts := MarkAndRenderAll(sub, cpus, getAll, render);
      if |texts| == 0 {
        chunks := [];
      } else {
        chunks := Text.SplitText(texts, Formatting.MaxChunks);
      }
      FormatKeepsValid(Contents().(relations := rels), sub.chatId, getAll);
    }

    /** The loop of `format_offers`: each selected relation is marked notified and rendered, in order. */
    method MarkAndRenderAll(sub: Subscriber, cpus: map<string, Cpu>, getAll: bool, render: Formatting.Block -> string)
      returns (texts: seq<string>)
      requires forall x :: x in relations ==> x.offer in offers
      modifies this
      ensures offers == old(offers) && rows == old(rows)
      ensures relations == Formatting.MarkNotified(old(relations), sub.chatId, getAll)
      ensures texts == Formatting.Rendered(offers, Formatting.Selected(old(relations), sub.chatId, getAll), sub, cpus, render)
    {
      ghost var rels := relations;
      texts := [];
      ghost var sel: seq<Relation> := [];
      for i := 0 to |relations|
        invariant offers == old(offers) && rows == old(rows)
        invariant FormatLoop(offers, rels, relations, i, sel, texts, sub, cpus, getAll, render)
      {
        ghost var cur := relations;
        var more := MarkAndRender(sub, cpus, getAll, render, i);
        FormatLoopStep(offers, rels, cur, i, sel, texts, sub, cpus, getAll, render);
        if Formatting.Picked(rels[i], sub.chatId, getAll) {
          sel := sel + [rels[i]];
        }
        texts := texts + more;
      }
      FormatLoopDone(offers, rels, relations, sel, texts, sub, cpus, getAll, render);
    }

    /** One turn of the `format_offers` loop: relation `i`, when selected, is marked notified and rendered. */
    method MarkAndRender(sub: Subscriber, cpus: map<string, Cpu>, getAll: bool, render: Formatting.Block -> string, i: nat)
      returns (more: seq<string>)
      requires i < |relations| && relations[i].offer in offers
      modifies this
      ensures offers == old(offers) && rows == old(rows)
      ensures relations == old(relations)[i := if Formatting.Picked(old(relations)[i], sub.chatId, getAll)
                                                then old(relations)[i].(notified := true) else old(relations)[i]]
      ensures more == if Formatting.Picked(old(relations)[i], sub.chatId, getAll)
                      then [render(Formatting.BlockOf(sub, old(relations)[i], offers[old(relations)[i].offer], cpus))]
                      else []
    {
      var r := relations[i];
      more := [];
      if Formatting.Picked(r, sub.chatId, getAll) {
        relations := relations[i := r.(notified := true)];
        var text := RenderBlock(sub, r, offers[r.offer], cpus, render);
        more := [text];
      }
    }

    /** The text of one offer, with its RAID pools taken by the running-maximum loop. */
    static method RenderBlock(sub: Subscriber, r: Relation, o: Offer, cpus: map<string, Cpu>, render: Formatting.Block -> string)
      returns (text: string)
      ensures text == render(Formatting.BlockOf(sub, r, o, cpus))
    {
      var raid5, raid6 := Disks.BiggestPools(o.disks);
      var block := Formatting.Block(
        o.id, Formatting.StatusTag(r), o.lastUpdate, Formatting.CpuInfoOf(o, cpus), o.ram,
        Formatting.DiskLines(o.disks), Formatting.RaidLineOf(sub, raid5, raid6),
        Formatting.ExtraFeatures(o), o.price, o.datacenter);
      text := render(block);
    }

    /**
     * The `/set` command: the setting is validated and stored, and after a
     * change the subscriber's offers are checked again.
     */
    method SetParameter(sub: Subscriber, text: string, cpus: map<string, Cpu>) returns (out: Commands.Outcome)
      requires Valid()
      modifies this
      ensures Valid()
      ensures offers == old(offers) && rows == old(rows)
      ensures out == Commands.SetParameter(sub, text)
      ensures out.reply.Changed? ==>
        relations == Matching.Sync(old(relations), rows, sub.chatId, Matching.MatchingIds(offers, out.subscriber, cpus))
      ensures out.reply.Changed? ==>
        Matching.Synced(old(relations), relations, sub.chatId, Matching.MatchingIds(offers, out.subscriber, cpus))
      ensures !out.reply.Changed? ==> relations == old(relations)
    {
      out := Commands.SetParameter(sub, text);
      if out.reply.Changed? {
        Commands.FrameCondition(sub, text);
        CheckOfferForSubscriber(out.subscriber, cpus);
      }
    }
  }

  /** Folding in one more record of the batch is one more reconcile step. */
  lemma FoldStep(db: Reconcile.Db, batch: seq<IncomingOffer>, i: nat, now: Timestamp)
    requires i < |batch|
    ensures Reconcile.ReconcileAll(db, batch[..i + 1], now)
      == Reconcile.ReconcileOne(Reconcile.ReconcileAll(db, batch[..i], now), batch[i], now)
  {
    var prefix := batch[..i + 1];
    assert prefix[..i] == batch[..i];
    assert prefix[i] == batch[i];
  }

  /**
   * One more record of the batch raises when the batch so far does, or when
   * its offer holds groups the batch built; the built groups follow the
   * record's disk rewrite.
   */
  lemma RaisesStep(db: Reconcile.Db, batch: seq<IncomingOffer>, i: nat, now: Timestamp)
    requires i < |batch|
    ensures Reconcile.Raises(db, batch[..i + 1], now)
      <==> Reconcile.Raises(db, batch[..i], now) || batch[i].key in Reconcile.BuiltDisks(db, batch[..i], now)
    ensures var built := Reconcile.BuiltDisks(db, batch[..i], now);
      Reconcile.BuiltDisks(db, batch[..i + 1], now)
        == if !Reconcile.RewritesDisks(Reconcile.ReconcileAll(db, batch[..i], now).offers, batch[i]) then built
           else if |Disks.NewDisks(batch[i].diskData)| == 0 then built - {batch[i].key}
           else built + {batch[i].key}
  {
    var prefix := batch[..i + 1];
    assert prefix[..i] == batch[..i];
    assert prefix[i] == batch[i];
  }

  /** One more record of the batch adds its key. */
  lemma KeysStep(batch: seq<IncomingOffer>, i: nat)
    requires i < |batch|
    ensures Reconcile.BatchKeys(batch[..i + 1]) == Reconcile.BatchKeys(batch[..i]) + {batch[i].key}
  {
    var prefix := batch[..i + 1];
    assert forall j :: 0 <= j < i ==> prefix[j] == batch[..i][j];
    assert prefix[i] == batch[i];
  }

  /**
   * The state of the `format_offers` loop after `i` relations: those are
   * marked, the rest untouched, and the texts are those of the selected ones.
   */
  ghost predicate FormatLoop(offers: map<OfferId, Offer>, rels: seq<Relation>, cur: seq<Relation>, i: nat,
                             sel: seq<Relation>, texts: seq<string>, sub: Subscriber, cpus: map<string, Cpu>,
                             getAll: bool, render: Formatting.Block -> string)
  {
    && i <= |rels| && |cur| == |rels|
    && (forall x :: x in rels ==> x.offer in offers)
    && (forall k :: 0 <= k < i ==> cur[k] == Formatting.MarkNotified(rels, sub.chatId, getAll)[k])
    && (forall k :: i <= k < |rels| ==> cur[k] == rels[k])
    && sel == Formatting.Selected(rels[..i], sub.chatId, getAll)
    && (forall x :: x in sel ==> x.offer in offers)
    && texts == Formatting.Rendered(offers, sel, sub, cpus, render)
  }

  /** One turn of the `format_offers` loop keeps its state. */
  lemma FormatLoopStep(offers: map<OfferId, Offer>, rels: seq<Relation>, cur: seq<Relation>, i: nat,
                       sel: seq<Relation>, texts: seq<string>, sub: Subscriber, cpus: map<string, Cpu>,
                       getAll: bool, render: Formatting.Block -> string)
    requires FormatLoop(offers, rels, cur, i, sel, texts, sub, cpus, getAll, render)
    requires i < |rels|
    ensures rels[i].offer in offers && cur[i] == rels[i]
    ensures var picked := Formatting.Picked(rels[i], sub.chatId, getAll);
      FormatLoop(offers, rels, cur[i := if picked then cur[i].(notified := true) else cur[i]], i + 1,
                 sel + (if picked then [rels[i]] else []),
                 texts + (if picked then [render(Formatting.BlockOf(sub, cur[i], offers[cur[i].offer], cpus))] else []),
                 sub, cpus, getAll, render)
  {
    assert rels[i] in rels;
    var picked := Formatting.Picked(rels[i], sub.chatId, getAll);
    var marked := Formatting.MarkNotified(rels, sub.chatId, getAll);
    var cur' := cur[i := if picked then cur[i].(notified := true) else cur[i]];
    assert forall k :: 0 <= k < i + 1 ==> cur'[k] == marked[k];
    assert forall k :: i + 1 <= k < |rels| ==> cur'[k] == rels[k];
    Formatting.SelectedStep(rels, i, sub.chatId, getAll);
    if picked {
      Formatting.RenderedAppend(offers, sel, rels[i], sub, cpus, render);
    } else {
      assert sel + [] == sel;
      assert texts + [] == texts;
    }
  }

  /** At the end of the loop every relation is marked and every selected one rendered. */
  lemma FormatLoopDone(offers: map<OfferId, Offer>, rels: seq<Relation>, cur: seq<Relation>,
                       sel: seq<Relation>, texts: seq<string>, sub: Subscriber, cpus: map<string, Cpu>,
                       getAll: bool, render: Formatting.Block -> string)
    requires FormatLoop(offers, rels, cur, |rels|, sel, texts, sub, cpus, getAll, render)
    ensures cur == Formatting.MarkNotified(rels, sub.chatId, getAll)
    ensures texts == Formatting.Rendered(offers, Formatting.Selected(rels, sub.chatId, getAll), sub, cpus, render)
  {
    assert rels[..|rels|] == rels;
  }

  /** `update_offers` keeps the schema's constraints. */
  lemma UpdateKeepsValid(db: Reconcile.Db, batch: seq<IncomingOffer>, now: Timestamp)
    requires ValidDb(db)
    ensures ValidDb(Reconcile.UpdateOffers(db, batch, now).0)
  {
    var after := Reconcile.UpdateOffers(db, batch, now).0;
    Reconcile.UpdateOffersFacts(db, batch, now);
    assert after.relations == Reconcile.ReconcileAll(db, batch, now).relations;
    SameEndsKeepRefs(db.relations, after.relations, db.offers.Keys, after.offers.Keys);
  }

  /**
   * Relations that keep their offer and subscriber, position by position,
   * keep referring to stored offers when no offer is removed, and keep
   * their pairs unique.
   */
  lemma SameEndsKeepRefs(before: seq<Relation>, after: seq<Relation>, stored: set<OfferId>, stored': set<OfferId>)
    requires |after| == |before|
    requires forall i :: 0 <= i < |before| ==> after[i].offer == before[i].offer && after[i].subscriber == before[i].subscriber
    requires forall x :: x in before ==> x.offer in stored
    requires stored <= stored'
    requires Matching.UniquePairs(before)
    ensures forall x :: x in after ==> x.offer in stored'
    ensures Matching.UniquePairs(after)
  {
    forall x | x in after
      ensures x.offer in stored'
    {
      var k :| 0 <= k < |after| && after[k] == x;
      assert before[k] in before;
    }
  }

  /** Marking relations notified keeps the schema's constraints. */
  lemma FormatKeepsValid(db: Reconcile.Db, chat: ChatId, getAll: bool)
    requires ValidDb(db)
    ensures ValidDb(db.(relations := Formatting.MarkNotified(db.relations, chat, getAll)))
  {
    var marked := Formatting.MarkNotified(db.relations, chat, getAll);
    Formatting.MarkedRelations(db.relations, chat, getAll);
    forall x | x in marked
      ensures x.offer in db.offers
    {
      var k :| 0 <= k < |marked| && marked[k] == x;
      assert db.relations[k] in db.relations;
    }
  }
}
