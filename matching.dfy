/**
 * The query of `check_offer_for_subscriber` as a predicate over one offer,
 * and what the relation bookkeeping after the query leaves behind.
 */
module Matching {
  import opened Wrappers
  import opened Models
  import Disks

  /** SQL `startswith`: `prefix` begins `s`. */
  predicate StartsWith(s: string, prefix: string)
  {
    |prefix| <= |s| && s[..|prefix|] == prefix
  }

  /** Some hdd group has disks of at least `minSize` GB, at least `minCount` of them. */
  predicate HasHddGroup(o: Offer, minSize: int, minCount: int)
  {
    exists i :: 0 <= i < |o.disks| && o.disks[i].diskType == Hdd
      && o.disks[i].size >= minSize && o.disks[i].amount >= minCount
  }

  /**
   * `Offer.cpu.in_(...)`: the offer's CPU has a reference row meeting all
   * four thresholds. A CPU without a row is excluded.
   */
  predicate CpuQualifies(sub: Subscriber, o: Offer, cpus: map<string, Cpu>)
  {
    && o.cpu in cpus
    && cpus[o.cpu].threads >= sub.threads
    && cpus[o.cpu].releaseDate >= sub.releaseDate
    && cpus[o.cpu].multiThreadRating >= sub.multiRating
    && cpus[o.cpu].singleThreadRating >= sub.singleRating
  }

  /**
   * The after-RAID filter: for `raid5` (`raid6`) some hdd group, any one,
   * gives `(amount - 1) * size` (`(amount - 2) * size`) of at least
   * `after_raid`; without a RAID mode there is no filter.
   */
  predicate RaidFits(sub: Subscriber, o: Offer)
  {
    if sub.raid == Some("raid5") then
      exists i :: 0 <= i < |o.disks| && o.disks[i].diskType == Hdd
        && (o.disks[i].amount - 1) * o.disks[i].size >= sub.afterRaid
    else if sub.raid == Some("raid6") then
      exists i :: 0 <= i < |o.disks| && o.disks[i].diskType == Hdd
        && (o.disks[i].amount - 2) * o.disks[i].size >= sub.afterRaid
    else true
  }

  /** A datacenter filter, when set, is a prefix of the offer's datacenter. */
  predicate DatacenterFits(sub: Subscriber, o: Offer)
  {
    sub.datacenter.Some? ==> o.datacenter.Some? && StartsWith(o.datacenter.value, sub.datacenter.value)
  }

  /** Each feature the subscriber asks for is present. */
  predicate FeaturesFit(sub: Subscriber, o: Offer)
  {
    && (sub.ipv4 ==> o.ipv4)
    && (sub.ecc ==> o.ecc)
    && (sub.inic ==> o.inic)
    && (sub.hwr ==> o.hwr)
  }

  /** The offer is in the result of the subscriber's query. */
  predicate Matches(sub: Subscriber, o: Offer, cpus: map<string, Cpu>)
  {
    && !o.deactivated
    && o.price <= sub.price * 100
    && o.ram >= sub.ram
    && HasHddGroup(o, sub.hddSize, sub.hddCount)
    && CpuQualifies(sub, o, cpus)
    && RaidFits(sub, o)
    && DatacenterFits(sub, o)
    && FeaturesFit(sub, o)
  }

  /** The ids of the stored offers the query returns. */
  function MatchingIds(offers: map<OfferId, Offer>, sub: Subscriber, cpus: map<string, Cpu>): set<OfferId>
  {
    set k | k in offers && Matches(sub, offers[k], cpus)
  }

  // ---------------------------------------------------------------------
  // The relation set

  /** The relations, one per (offer, subscriber) pair. */
  ghost predicate UniquePairs(rels: seq<Relation>)
  {
    forall i, j :: 0 <= i < j < |rels| ==> rels[i].offer != rels[j].offer || rels[i].subscriber != rels[j].subscriber
  }

  /** The subscriber has a relation to the offer. */
  predicate Related(rels: seq<Relation>, chat: ChatId, id: OfferId)
  {
    exists i :: 0 <= i < |rels| && rels[i].subscriber == chat && rels[i].offer == id
  }

  /** The offers the subscriber has relations to. */
  function RelatedIds(rels: seq<Relation>, chat: ChatId): set<OfferId>
  {
    set i | 0 <= i < |rels| && rels[i].subscriber == chat :: rels[i].offer
  }

  /** Appending a relation of `chat` adds its offer to the subscriber's offers. */
  lemma RelatedIdsAppend(rels: seq<Relation>, r: Relation, chat: ChatId)
    requires r.subscriber == chat
    ensures RelatedIds(rels + [r], chat) == RelatedIds(rels, chat) + {r.offer}
  {
    var after := rels + [r];
    forall x | x in RelatedIds(rels, chat)
      ensures x in RelatedIds(after, chat)
    {
      var i :| 0 <= i < |rels| && rels[i].subscriber == chat && rels[i].offer == x;
      assert after[i] == rels[i];
    }
    assert after[|rels|] == r;
  }

  /** The relations of other subscribers, and those of `chat` to offers in `ids`, in order. */
  function Kept(rels: seq<Relation>, chat: ChatId, ids: set<OfferId>): (r: seq<Relation>)
    ensures forall x :: x in r <==> x in rels && (x.subscriber != chat || x.offer in ids)
    ensures |r| <= |rels|
  {
    if |rels| == 0 then []
    else
      var last := rels[|rels| - 1];
      Kept(rels[..|rels| - 1], chat, ids) + (if last.subscriber != chat || last.offer in ids then [last] else [])
  }

  /** The relations of one subscriber, in order. */
  function RelationsOf(rels: seq<Relation>, chat: ChatId): (r: seq<Relation>)
    ensures forall x :: x in r <==> x in rels && x.subscriber == chat
  {
    if |rels| == 0 then []
    else
      var last := rels[|rels| - 1];
      RelationsOf(rels[..|rels| - 1], chat) + (if last.subscriber == chat then [last] else [])
  }

  /**
   * `after` is what the relation loop of `check_offer_for_subscriber` leaves
   * from `before`: the relations it keeps, in order, then one fresh relation
   * (not notified, new) for each matching offer that had none.
   */
  ghost predicate Synced(before: seq<Relation>, after: seq<Relation>, chat: ChatId, ids: set<OfferId>)
  {
    var kept := Kept(before, chat, ids);
    && |kept| <= |after| && after[..|kept|] == kept
    && (forall i :: |kept| <= i < |after| ==>
          after[i].subscriber == chat && after[i].offer in ids && after[i].offer !in RelatedIds(before, chat)
          && !after[i].notified && after[i].isNew)
    && (forall id :: id in ids ==> Related(after, chat, id))
  }

  /**
   * After the bookkeeping the subscriber's relations are one-to-one with the
   * matching offers; a relation that stays keeps its flags; a created one is
   * not notified and new; other subscribers' relations are untouched.
   */
  lemma {:induction false} SyncedCorrespondence(before: seq<Relation>, after: seq<Relation>, chat: ChatId, ids: set<OfferId>)
    requires Synced(before, after, chat, ids)
    ensures RelatedIds(after, chat) == ids
    ensures forall x :: x in before && x.subscriber == chat && x.offer in ids ==> x in after
    ensures forall x :: x in after && x.subscriber == chat && x !in before ==> !x.notified && x.isNew && x.offer !in RelatedIds(before, chat)
    ensures forall c :: c != chat ==> RelationsOf(after, c) == RelationsOf(before, c)
  {
    var kept := Kept(before, chat, ids);
    forall id | id in RelatedIds(after, chat)
      ensures id in ids
    {
      var i :| 0 <= i < |after| && after[i].subscriber == chat && after[i].offer == id;
      if i < |kept| {
        assert after[i] in kept;
      }
    }
    forall id | id in ids
      ensures id in RelatedIds(after, chat)
    {
      var i :| 0 <= i < |after| && after[i].subscriber == chat && after[i].offer == id;
    }
    forall x | x in before && x.subscriber == chat && x.offer in ids
      ensures x in after
    {
      assert x in kept;
      var i :| 0 <= i < |kept| && kept[i] == x;
      assert after[i] == x;
    }
    assert forall j :: 0 <= j < |kept| ==> after[j] == kept[j] && kept[j] in before;
    forall x | x in after && x.subscriber == chat && x !in before
      ensures !x.notified && x.isNew && x.offer !in RelatedIds(before, chat)
    {
      var i :| 0 <= i < |after| && after[i] == x;
    }
    forall c | c != chat
      ensures RelationsOf(after, c) == RelationsOf(before, c)
    {
      assert after == kept + after[|kept|..];
      RelationsOfAppendOther(kept, after[|kept|..], c, chat);
      KeptOthers(before, chat, ids, c);
    }
  }

  lemma {:induction false} RelationsOfAppendOther(a: seq<Relation>, b: seq<Relation>, c: ChatId, chat: ChatId)
    requires c != chat
    requires forall i :: 0 <= i < |b| ==> b[i].subscriber == chat
    ensures RelationsOf(a + b, c) == RelationsOf(a, c)
    decreases |b|
  {
    if |b| > 0 {
      var n := |b| - 1;
      assert (a + b)[..|a + b| - 1] == a + b[..n];
      RelationsOfAppendOther(a, b[..n], c, chat);
    } else {
      assert a + b == a;
    }
  }

  lemma {:induction false} KeptOthers(rels: seq<Relation>, chat: ChatId, ids: set<OfferId>, c: ChatId)
    requires c != chat
    ensures RelationsOf(Kept(rels, chat, ids), c) == RelationsOf(rels, c)
    decreases |rels|
  {
    if |rels| > 0 {
      var n := |rels| - 1;
      var last := rels[n];
      var k := Kept(rels[..n], chat, ids);
      KeptOthers(rels[..n], chat, ids, c);
      assert RelationsOf(rels, c) == RelationsOf(rels[..n], c) + (if last.subscriber == c then [last] else []);
      if last.subscriber != chat || last.offer in ids {
        var kk := k + [last];
        assert Kept(rels, chat, ids) == kk;
        assert kk[..|kk| - 1] == k;
        assert RelationsOf(kk, c) == RelationsOf(k, c) + (if last.subscriber == c then [last] else []);
      } else {
        assert Kept(rels, chat, ids) == k;
        assert last.subscriber != c;
      }
    }
  }

  /** Relations that are all kept stay, in order, after the ones kept before them. */
  lemma {:induction false} KeptAppend(a: seq<Relation>, b: seq<Relation>, chat: ChatId, ids: set<OfferId>)
    requires forall i :: 0 <= i < |b| ==> b[i].offer in ids
    ensures Kept(a + b, chat, ids) == Kept(a, chat, ids) + b
    decreases |b|
  {
    if |b| == 0 {
      assert a + b == a;
      assert Kept(a, chat, ids) + b == Kept(a, chat, ids);
    } else {
      var n := |b| - 1;
      KeptAppend(a, b[..n], chat, ids);
      KeptSnoc(a + b[..n], b[n], chat, ids);
      AppendLast(a, b);
      AppendLast(Kept(a, chat, ids), b);
    }
  }

  /** `a + b` is `a` plus all of `b` but its last element, plus that element. */
  lemma AppendLast<T>(a: seq<T>, b: seq<T>)
    requires |b| > 0
    ensures a + b == (a + b[..|b| - 1]) + [b[|b| - 1]]
  {
    assert b == b[..|b| - 1] + [b[|b| - 1]];
  }

  /** Filtering a sequence with one more relation at its end. */
  lemma KeptSnoc(rels: seq<Relation>, r: Relation, chat: ChatId, ids: set<OfferId>)
    ensures Kept(rels + [r], chat, ids) == Kept(rels, chat, ids) + (if r.subscriber != chat || r.offer in ids then [r] else [])
  {
    assert (rels + [r])[..|rels|] == rels;
  }


  /** A relation of `chat` to an offer in `ids` survives the clean-up. */
  lemma KeptRelated(rels: seq<Relation>, chat: ChatId, ids: set<OfferId>)
    ensures forall id :: id in ids && Related(rels, chat, id) ==> Related(Kept(rels, chat, ids), chat, id)
  {
    var kept := Kept(rels, chat, ids);
    forall id | id in ids && Related(rels, chat, id)
      ensures Related(kept, chat, id)
    {
      var i :| 0 <= i < |rels| && rels[i].subscriber == chat && rels[i].offer == id;
      assert rels[i] in kept;
      var j :| 0 <= j < |kept| && kept[j] == rels[i];
    }
  }

  /** Keeping a part of the relations keeps them one per pair. */
  lemma {:induction false} KeptUnique(rels: seq<Relation>, chat: ChatId, ids: set<OfferId>)
    requires UniquePairs(rels)
    ensures UniquePairs(Kept(rels, chat, ids))
    decreases |rels|
  {
    if |rels| > 0 {
      var n := |rels| - 1;
      var k := Kept(rels[..n], chat, ids);
      KeptUnique(rels[..n], chat, ids);
      var last := rels[n];
      assert UniquePairs(rels[..n]) by {
        forall i, j | 0 <= i < j < n
          ensures rels[..n][i].offer != rels[..n][j].offer || rels[..n][i].subscriber != rels[..n][j].subscriber
        {
          assert rels[..n][i] == rels[i] && rels[..n][j] == rels[j];
        }
      }
      if last.subscriber != chat || last.offer in ids {
        assert Kept(rels, chat, ids) == k + [last];
        forall i | 0 <= i < |k|
          ensures k[i].offer != last.offer || k[i].subscriber != last.subscriber
        {
          assert k[i] in k;
          assert k[i] in rels[..n];
          var m :| 0 <= m < n && rels[..n][m] == k[i];
          assert rels[m] == k[i];
        }
        UniqueAppend(k, last);
      } else {
        assert Kept(rels, chat, ids) == k;
      }
    }
  }

  /** One more relation keeps the pairs unique when its pair is new. */
  lemma UniqueAppend(rels: seq<Relation>, x: Relation)
    requires UniquePairs(rels)
    requires forall i :: 0 <= i < |rels| ==> rels[i].offer != x.offer || rels[i].subscriber != x.subscriber
    ensures UniquePairs(rels + [x])
  {
    var r := rels + [x];
    forall i, j | 0 <= i < j < |r|
      ensures r[i].offer != r[j].offer || r[i].subscriber != r[j].subscriber
    {
      if j < |rels| {
        assert r[i] == rels[i] && r[j] == rels[j];
      } else {
        assert r[i] == rels[i] && r[j] == x;
      }
    }
  }

  /** A subscriber's offers depend only on that subscriber's relations. */
  lemma RelatedIdsOfSame(a: seq<Relation>, b: seq<Relation>, c: ChatId)
    requires RelationsOf(a, c) == RelationsOf(b, c)
    ensures RelatedIds(a, c) == RelatedIds(b, c)
  {
    forall id | id in RelatedIds(a, c)
      ensures id in RelatedIds(b, c)
    {
      var i :| 0 <= i < |a| && a[i].subscriber == c && a[i].offer == id;
      assert a[i] in RelationsOf(a, c);
      var j :| 0 <= j < |b| && b[j] == a[i];
    }
    forall id | id in RelatedIds(b, c)
      ensures id in RelatedIds(a, c)
    {
      var i :| 0 <= i < |b| && b[i].subscriber == c && b[i].offer == id;
      assert b[i] in RelationsOf(b, c);
      var j :| 0 <= j < |a| && a[j] == b[i];
    }
  }

  // ---------------------------------------------------------------------
  // The sync as functions

  /**
   * The first loop of `check_offer_for_subscriber`: the stored offers are
   * visited in the order of `rows`, and each one in `ids` the subscriber
   * has no relation to yet gets a fresh relation (not notified, new),
   * appended at the end.
   */
  function AddMissing(rels: seq<Relation>, rows: seq<OfferId>, chat: ChatId, ids: set<OfferId>): seq<Relation>
    decreases |rows|
  {
    if |rows| == 0 then rels
    else
      var added := AddMissing(rels, rows[..|rows| - 1], chat, ids);
      var id := rows[|rows| - 1];
      if id in ids && !Related(added, chat, id) then added + [Relation(id, chat, false, true)] else added
  }

  /** `check_offer_for_subscriber` on the relations: the missing ones are added, then the stale ones deleted. */
  function Sync(rels: seq<Relation>, rows: seq<OfferId>, chat: ChatId, ids: set<OfferId>): seq<Relation>
  {
    Kept(AddMissing(rels, rows, chat, ids), chat, ids)
  }

  /**
   * `check_offers_for_subscribers` on the relations: each authorized and
   * active subscriber in turn is synced with the offers its query returns.
   */
  function SyncAll(offers: map<OfferId, Offer>, rows: seq<OfferId>, rels: seq<Relation>, subs: seq<Subscriber>,
                   cpus: map<string, Cpu>): seq<Relation>
    decreases |subs|
  {
    if |subs| == 0 then rels
    else
      var prev := SyncAll(offers, rows, rels, subs[..|subs| - 1], cpus);
      var sub := subs[|subs| - 1];
      if sub.authorized && sub.active then Sync(prev, rows, sub.chatId, MatchingIds(offers, sub, cpus)) else prev
  }

  /**
   * The first loop only appends: fresh relations of the subscriber, each
   * to an offer in `ids` it had no relation to, and afterwards every offer
   * of `rows` that is in `ids` has a relation.
   */
  lemma {:induction false} AddMissingFacts(rels: seq<Relation>, rows: seq<OfferId>, chat: ChatId, ids: set<OfferId>)
    ensures var r := AddMissing(rels, rows, chat, ids);
      && |rels| <= |r| && r[..|rels|] == rels
      && (forall i :: |rels| <= i < |r| ==>
            r[i].subscriber == chat && r[i].offer in ids && r[i].offer !in RelatedIds(rels, chat)
            && !r[i].notified && r[i].isNew)
      && (forall k :: 0 <= k < |rows| && rows[k] in ids ==> Related(r, chat, rows[k]))
    decreases |rows|
  {
    if |rows| > 0 {
      var n := |rows| - 1;
      var prev := AddMissing(rels, rows[..n], chat, ids);
      AddMissingFacts(rels, rows[..n], chat, ids);
      var id := rows[n];
      forall k | 0 <= k < n && rows[k] in ids
        ensures Related(prev, chat, rows[k])
      {
        assert rows[..n][k] == rows[k];
      }
      if id in ids && !Related(prev, chat, id) {
        var r := prev + [Relation(id, chat, false, true)];
        assert r[..|rels|] == rels by {
          assert r[..|prev|] == prev;
        }
        assert id !in RelatedIds(rels, chat) by {
          forall i | 0 <= i < |rels|
            ensures !(rels[i].subscriber == chat && rels[i].offer == id)
          {
            assert prev[i] == rels[i];
          }
        }
        forall k | 0 <= k < |rows| && rows[k] in ids
          ensures Related(r, chat, rows[k])
        {
          if k < n {
            var i :| 0 <= i < |prev| && prev[i].subscriber == chat && prev[i].offer == rows[k];
            assert r[i] == prev[i];
          } else {
            assert r[|prev|].offer == rows[k];
          }
        }
      }
    }
  }

  /**
   * The subscriber's relations in `after` against those in `before`: they
   * are one-to-one with the offers `ids` (given unique pairs); a relation of
   * `before` to an offer in `ids` is still there with its flags; any other
   * is fresh (not notified, new) and to an offer it had no relation to.
   */
  ghost predicate SubscriberSynced(before: seq<Relation>, after: seq<Relation>, chat: ChatId, ids: set<OfferId>)
  {
    && RelatedIds(after, chat) == ids
    && (forall x :: x in before && x.subscriber == chat && x.offer in ids ==> x in after)
    && (forall x :: x in after && x.subscriber == chat && x !in before ==>
          !x.notified && x.isNew && x.offer !in RelatedIds(before, chat))
  }

  /** No subscriber among the checked ones of `subs` has chat id `c`. */
  predicate NotChecked(subs: seq<Subscriber>, c: ChatId)
  {
    forall j :: 0 <= j < |subs| && subs[j].authorized && subs[j].active ==> subs[j].chatId != c
  }

  /**
   * When every matching offer is among `rows`, `Sync` computes relations
   * `Synced` with the matches: the stale ones deleted, the kept ones in
   * place, one fresh relation appended per matching offer that had none.
   */
  lemma SyncIsSynced(rels: seq<Relation>, rows: seq<OfferId>, chat: ChatId, ids: set<OfferId>)
    requires forall id :: id in ids ==> id in rows
    ensures Synced(rels, Sync(rels, rows, chat, ids), chat, ids)
  {
    var all := AddMissing(rels, rows, chat, ids);
    AddMissingFacts(rels, rows, chat, ids);
    var added := all[|rels|..];
    assert all == rels + added;
    KeptAppend(rels, added, chat, ids);
    KeptRelated(all, chat, ids);
    forall id | id in ids
      ensures Related(all, chat, id)
    {
      var k :| 0 <= k < |rows| && rows[k] == id;
    }
  }

  /** A subscriber's sync facts depend only on that subscriber's relations. */
  lemma SubscriberSyncedSame(before: seq<Relation>, after: seq<Relation>, before': seq<Relation>, after': seq<Relation>,
                             chat: ChatId, ids: set<OfferId>)
    requires SubscriberSynced(before, after, chat, ids)
    requires RelationsOf(before', chat) == RelationsOf(before, chat)
    requires RelationsOf(after', chat) == RelationsOf(after, chat)
    ensures SubscriberSynced(before', after', chat, ids)
  {
    RelatedIdsOfSame(before, before', chat);
    RelatedIdsOfSame(after, after', chat);
  }

  /**
   * After `check_offers_for_subscribers`, every checked subscriber's
   * relations are synced with its matching offers against the relations
   * before the pass, and the relations of every other chat id, checked
   * subscribers aside, are exactly as they were.
   */
  lemma {:induction false} SyncAllFacts(offers: map<OfferId, Offer>, rows: seq<OfferId>, rels: seq<Relation>,
                                        subs: seq<Subscriber>, cpus: map<string, Cpu>)
    requires forall k :: k in offers ==> k in rows
    requires forall i, j :: 0 <= i < j < |subs| ==> subs[i].chatId != subs[j].chatId
    ensures var after := SyncAll(offers, rows, rels, subs, cpus);
      forall j :: 0 <= j < |subs| && subs[j].authorized && subs[j].active ==>
        SubscriberSynced(rels, after, subs[j].chatId, MatchingIds(offers, subs[j], cpus))
    ensures var after := SyncAll(offers, rows, rels, subs, cpus);
      forall c :: NotChecked(subs, c) ==> RelationsOf(after, c) == RelationsOf(rels, c)
    decreases |subs|
  {
    if |subs| > 0 {
      var n := |subs| - 1;
      var init := subs[..n];
      var prev := SyncAll(offers, rows, rels, init, cpus);
      var after := SyncAll(offers, rows, rels, subs, cpus);
      var sub := subs[n];
      assert forall j :: 0 <= j < n ==> init[j] == subs[j];
      SyncAllFacts(offers, rows, rels, init, cpus);
      if sub.authorized && sub.active {
        assert NotChecked(init, sub.chatId);
        assert after == Sync(prev, rows, sub.chatId, MatchingIds(offers, sub, cpus));
        SyncAllStepChecked(offers, rows, rels, subs, prev, cpus);
        SyncAllStepOthers(offers, rows, rels, subs, prev, cpus);
      } else {
        forall c | NotChecked(subs, c)
          ensures RelationsOf(after, c) == RelationsOf(rels, c)
        {
          assert NotChecked(init, c);
        }
      }
    }
  }

  /**
   * Syncing one more checked subscriber, with a chat id of its own, keeps
   * every checked subscriber synced against the relations before the pass.
   */
  lemma SyncAllStepChecked(offers: map<OfferId, Offer>, rows: seq<OfferId>, rels: seq<Relation>, subs: seq<Subscriber>,
                           prev: seq<Relation>, cpus: map<string, Cpu>)
    requires |subs| > 0 && subs[|subs| - 1].authorized && subs[|subs| - 1].active
    requires forall k :: k in offers ==> k in rows
    requires forall j :: 0 <= j < |subs| - 1 ==> subs[j].chatId != subs[|subs| - 1].chatId
    requires forall j :: 0 <= j < |subs| - 1 && subs[j].authorized && subs[j].active ==>
      SubscriberSynced(rels, prev, subs[j].chatId, MatchingIds(offers, subs[j], cpus))
    requires RelationsOf(prev, subs[|subs| - 1].chatId) == RelationsOf(rels, subs[|subs| - 1].chatId)
    ensures var sub := subs[|subs| - 1];
      var after := Sync(prev, rows, sub.chatId, MatchingIds(offers, sub, cpus));
      forall j :: 0 <= j < |subs| && subs[j].authorized && subs[j].active ==>
        SubscriberSynced(rels, after, subs[j].chatId, MatchingIds(offers, subs[j], cpus))
  {
    var sub := subs[|subs| - 1];
    var ids := MatchingIds(offers, sub, cpus);
    var after := Sync(prev, rows, sub.chatId, ids);
    SyncStepFacts(offers, rows, prev, sub, cpus);
    SubscriberSyncedSame(prev, after, rels, after, sub.chatId, ids);
    forall j | 0 <= j < |subs| - 1 && subs[j].authorized && subs[j].active
      ensures SubscriberSynced(rels, after, subs[j].chatId, MatchingIds(offers, subs[j], cpus))
    {
      SubscriberSyncedSame(rels, prev, rels, after, subs[j].chatId, MatchingIds(offers, subs[j], cpus));
    }
  }

  /** Syncing one more checked subscriber leaves the chat ids no checked subscriber has alone. */
  lemma SyncAllStepOthers(offers: map<OfferId, Offer>, rows: seq<OfferId>, rels: seq<Relation>, subs: seq<Subscriber>,
                          prev: seq<Relation>, cpus: map<string, Cpu>)
    requires |subs| > 0 && subs[|subs| - 1].authorized && subs[|subs| - 1].active
    requires forall k :: k in offers ==> k in rows
    requires forall c :: NotChecked(subs[..|subs| - 1], c) ==> RelationsOf(prev, c) == RelationsOf(rels, c)
    ensures var sub := subs[|subs| - 1];
      var after := Sync(prev, rows, sub.chatId, MatchingIds(offers, sub, cpus));
      forall c :: NotChecked(subs, c) ==> RelationsOf(after, c) == RelationsOf(rels, c)
  {
    var n := |subs| - 1;
    var sub := subs[n];
    var after := Sync(prev, rows, sub.chatId, MatchingIds(offers, sub, cpus));
    SyncStepFacts(offers, rows, prev, sub, cpus);
    forall c | NotChecked(subs, c)
      ensures RelationsOf(after, c) == RelationsOf(rels, c)
    {
      assert c != sub.chatId;
      assert NotChecked(subs[..n], c) by {
        assert forall j :: 0 <= j < n ==> subs[..n][j] == subs[j];
      }
    }
  }

  /**
   * Syncing one more subscriber, whose chat id no subscriber checked before
   * has, makes its relations synced and leaves every other chat id's alone.
   */
  lemma SyncStepFacts(offers: map<OfferId, Offer>, rows: seq<OfferId>, prev: seq<Relation>, sub: Subscriber,
                      cpus: map<string, Cpu>)
    requires forall k :: k in offers ==> k in rows
    ensures var after := Sync(prev, rows, sub.chatId, MatchingIds(offers, sub, cpus));
      SubscriberSynced(prev, after, sub.chatId, MatchingIds(offers, sub, cpus))
    ensures var after := Sync(prev, rows, sub.chatId, MatchingIds(offers, sub, cpus));
      forall c :: c != sub.chatId ==> RelationsOf(after, c) == RelationsOf(prev, c)
  {
    var ids := MatchingIds(offers, sub, cpus);
    var after := Sync(prev, rows, sub.chatId, ids);
    SyncIsSynced(prev, rows, sub.chatId, ids);
    SyncedCorrespondence(prev, after, sub.chatId, ids);
  }

  // ---------------------------------------------------------------------
  // Properties of the query

  /** A deactivated offer never matches. */
  lemma DeactivatedNeverMatches(sub: Subscriber, o: Offer, cpus: map<string, Cpu>)
    requires o.deactivated
    ensures !Matches(sub, o, cpus)
  {
  }

  /** The CPU gate fails closed: an offer whose CPU has no reference row never matches. */
  lemma UnknownCpuNeverMatches(sub: Subscriber, o: Offer, cpus: map<string, Cpu>)
    requires o.cpu !in cpus
    ensures !Matches(sub, o, cpus)
  {
  }

  /**
   * The RAM threshold is inclusive: an offer that matches still matches
   * with any RAM of at least `sub.ram`, and with less it does not.
   */
  lemma RamThreshold(sub: Subscriber, o: Offer, cpus: map<string, Cpu>, ram: int)
    requires Matches(sub, o, cpus)
    ensures Matches(sub, o.(ram := ram), cpus) <==> ram >= sub.ram
  {
    var o' := o.(ram := ram);
    assert o'.disks == o.disks;
    if ram >= sub.ram {
      var i :| 0 <= i < |o.disks| && o.disks[i].diskType == Hdd && o.disks[i].size >= sub.hddSize && o.disks[i].amount >= sub.hddCount;
      assert HasHddGroup(o', sub.hddSize, sub.hddCount);
    }
  }

  /** An offer above the subscriber's price ceiling never matches. */
  lemma PriceCeiling(sub: Subscriber, o: Offer, cpus: map<string, Cpu>)
    requires o.price > sub.price * 100
    ensures !Matches(sub, o, cpus)
  {
  }

  /**
   * The hdd filter and the RAID filter may be met by two different groups:
   * one 4000 GB disk meets `hdd_size` 4000 and `hdd_count` 1, four 3000 GB
   * disks give the 8000 GB after RAID5 although each disk is too small.
   */
  lemma RaidMetByAnotherGroup(sub: Subscriber, o: Offer, cpus: map<string, Cpu>)
    requires sub.hddSize == 4000 && sub.hddCount == 1 && sub.raid == Some("raid5") && sub.afterRaid == 8000
    requires o.disks == [DiskGroup(Hdd, 4000, 1), DiskGroup(Hdd, 3000, 4)]
    ensures HasHddGroup(o, sub.hddSize, sub.hddCount) && RaidFits(sub, o)
    ensures !(o.disks[0].size >= sub.hddSize && (o.disks[0].amount - 1) * o.disks[0].size >= sub.afterRaid)
    ensures !(o.disks[1].size >= sub.hddSize && (o.disks[1].amount - 1) * o.disks[1].size >= sub.afterRaid)
  {
    assert o.disks[0].diskType == Hdd && o.disks[0].size >= 4000 && o.disks[0].amount >= 1;
    assert o.disks[1].diskType == Hdd && (o.disks[1].amount - 1) * o.disks[1].size == 9000;
  }

  /**
   * The RAID filter has no minimum disk count: two disks pass a RAID5 filter
   * whose `after_raid` is at most one disk, although the formatter reports
   * no RAID5 pool for them.
   */
  lemma RaidWithoutMinimumCount(sub: Subscriber, o: Offer, size: nat)
    requires sub.raid == Some("raid5") && sub.afterRaid <= size
    requires o.disks == [DiskGroup(Hdd, size, 2)]
    ensures RaidFits(sub, o)
    ensures Disks.MaxPool(o.disks, Disks.Raid5).None?
  {
    assert (o.disks[0].amount - 1) * o.disks[0].size == size;
  }

  /**
   * A pool the formatter reports on an hdd group meets the RAID filter when
   * it reaches `after_raid`.
   */
  lemma FormatterPoolMeetsRaidFilter(sub: Subscriber, o: Offer, i: nat, level: Disks.RaidLevel)
    requires i < |o.disks| && o.disks[i].diskType == Hdd && Disks.Qualifies(o.disks[i], level)
    requires sub.raid == Some(if level == Disks.Raid5 then "raid5" else "raid6")
    requires Disks.Pool(o.disks[i], level) >= sub.afterRaid
    ensures RaidFits(sub, o)
  {
    assert "raid5" != "raid6" by { assert "raid5"[4] != "raid6"[4]; }
  }

  /**
   * Tightening the price ceiling below a matching offer's price removes the
   * offer from the subscriber's matches.
   */
  lemma TighterPriceDropsOffer(offers: map<OfferId, Offer>, sub: Subscriber, cpus: map<string, Cpu>, id: OfferId, price: int)
    requires id in MatchingIds(offers, sub, cpus)
    requires offers[id].price > price * 100
    ensures id !in MatchingIds(offers, sub.(price := price), cpus)
  {
  }
}
