/**
 * `format_offers`: which relations are rendered, what is marked, and the
 * data each rendered block is built from. The text of a block (prices
 * with VAT, the date, sizes in TB) is produced by a `render` function the
 * model takes as a parameter.
 */
module Formatting {
  import opened Wrappers
  import opened Models
  import Disks
  import Text

  /** The cap on the number of messages one call produces. */
  const MaxChunks := 5

  /** The relation is rendered: it is the subscriber's, and unless `getAll` not yet notified. */
  predicate Picked(r: Relation, chat: ChatId, getAll: bool)
  {
    r.subscriber == chat && (getAll || !r.notified)
  }

  /** The rendered relations, in order. */
  function Selected(rels: seq<Relation>, chat: ChatId, getAll: bool): (sel: seq<Relation>)
    ensures forall x :: x in sel <==> x in rels && Picked(x, chat, getAll)
    ensures |sel| <= |rels|
  {
    if |rels| == 0 then []
    else
      var last := rels[|rels| - 1];
      Selected(rels[..|rels| - 1], chat, getAll) + (if Picked(last, chat, getAll) then [last] else [])
  }

  /** The relations once each rendered one is marked notified. */
  function MarkNotified(rels: seq<Relation>, chat: ChatId, getAll: bool): seq<Relation>
  {
    seq(|rels|, i requires 0 <= i < |rels| =>
      if Picked(rels[i], chat, getAll) then rels[i].(notified := true) else rels[i])
  }

  /** The status shown next to the offer id. */
  function StatusTag(r: Relation): string
  {
    if r.isNew then "(New)" else "(Price reduction)"
  }

  /** The features line: each feature of the offer followed by a space, or `None`. */
  function ExtraFeatures(o: Offer): string
  {
    var s := (if o.ipv4 then "IPv4 " else "") + (if o.ecc then "ECC " else "")
      + (if o.inic then "iNIC " else "") + (if o.hwr then "HWR " else "");
    if s == "" then "None" else s
  }

  /** The CPU line: the reference row when there is one, the bare name otherwise. */
  datatype CpuInfo = UnknownCpu(name: string) | KnownCpu(row: Cpu)

  /** One line of the disk list: amount, size and type name. */
  datatype DiskLine = DiskLine(amount: nat, size: Disks.SizeLabel, typeName: string)

  /** The capacity shown for a RAID mode. */
  datatype Capacity = NotAvailable | Available(size: Disks.SizeLabel)

  /** The RAID line, shown only to a subscriber with a RAID mode. */
  datatype RaidLine = NoRaidLine | Raid5Line(capacity: Capacity) | Raid6Line(capacity: Capacity)

  /** What one rendered offer shows. */
  datatype Block = Block(
    offer: OfferId,
    status: string,
    lastUpdate: Timestamp,
    cpu: CpuInfo,
    ram: int,
    disks: seq<DiskLine>,
    raid: RaidLine,
    extras: string,
    price: int,
    datacenter: Option<string>)

  /** A pool that is missing or zero is shown as not available. */
  function CapacityOf(pool: Option<nat>): Capacity
  {
    if pool.Some? && pool.value != 0 then Available(Disks.FormatSize(pool.value)) else NotAvailable
  }

  /** The RAID line for the subscriber's mode, from the largest pool of that mode. */
  function RaidLineOf(sub: Subscriber, raid5: Option<nat>, raid6: Option<nat>): RaidLine
  {
    if sub.raid == Some("raid5") then Raid5Line(CapacityOf(raid5))
    else if sub.raid == Some("raid6") then Raid6Line(CapacityOf(raid6))
    else NoRaidLine
  }

  function DiskLines(disks: seq<DiskGroup>): seq<DiskLine>
  {
    seq(|disks|, i requires 0 <= i < |disks| =>
      DiskLine(disks[i].amount, Disks.FormatSize(disks[i].size), Disks.DiskTypeName(disks[i].diskType)))
  }

  function CpuInfoOf(o: Offer, cpus: map<string, Cpu>): CpuInfo
  {
    if o.cpu in cpus then KnownCpu(cpus[o.cpu]) else UnknownCpu(o.cpu)
  }

  /** The block of one rendered relation. */
  function BlockOf(sub: Subscriber, r: Relation, o: Offer, cpus: map<string, Cpu>): Block
  {
    Block(
      o.id, StatusTag(r), o.lastUpdate, CpuInfoOf(o, cpus), o.ram, DiskLines(o.disks),
      RaidLineOf(sub, Disks.MaxPool(o.disks, Disks.Raid5), Disks.MaxPool(o.disks, Disks.Raid6)),
      ExtraFeatures(o), o.price, o.datacenter)
  }

  /** The rendered text of each selected relation, in order. */
  function Rendered(offers: map<OfferId, Offer>, sel: seq<Relation>, sub: Subscriber, cpus: map<string, Cpu>,
                    render: Block -> string): (texts: seq<string>)
    requires forall x :: x in sel ==> x.offer in offers
    ensures |texts| == |sel|
  {
    if |sel| == 0 then []
    else
      var last := sel[|sel| - 1];
      Rendered(offers, sel[..|sel| - 1], sub, cpus, render) + [render(BlockOf(sub, last, offers[last.offer], cpus))]
  }

  /**
   * `format_offers(subscriber, relations, get_all)`: the messages, and the
   * relations once the rendered ones are marked notified.
   */
  function FormatOffers(offers: map<OfferId, Offer>, rels: seq<Relation>, sub: Subscriber, cpus: map<string, Cpu>,
                        getAll: bool, render: Block -> string): (seq<string>, seq<Relation>)
    requires forall x :: x in rels ==> x.offer in offers
  {
    var sel := Selected(rels, sub.chatId, getAll);
    var marked := MarkNotified(rels, sub.chatId, getAll);
    if |sel| == 0 then ([], marked)
    else (Text.Chunks(Rendered(offers, sel, sub, cpus, render), MaxChunks), marked)
  }

  /** Selecting from one more relation appends that relation when it is picked. */
  lemma SelectedStep(rels: seq<Relation>, i: nat, chat: ChatId, getAll: bool)
    requires i < |rels|
    ensures Selected(rels[..i + 1], chat, getAll)
      == Selected(rels[..i], chat, getAll) + (if Picked(rels[i], chat, getAll) then [rels[i]] else [])
  {
    assert rels[..i + 1][..i] == rels[..i];
  }

  /** Rendering one more selected relation appends its text. */
  lemma RenderedAppend(offers: map<OfferId, Offer>, sel: seq<Relation>, x: Relation, sub: Subscriber,
                       cpus: map<string, Cpu>, render: Block -> string)
    requires forall y :: y in sel ==> y.offer in offers
    requires x.offer in offers
    ensures Rendered(offers, sel + [x], sub, cpus, render)
      == Rendered(offers, sel, sub, cpus, render) + [render(BlockOf(sub, x, offers[x.offer], cpus))]
  {
    assert (sel + [x])[..|sel|] == sel;
  }

  // ---------------------------------------------------------------------
  // Properties

  /**
   * A relation is rendered iff it belongs to the subscriber and, unless
   * `getAll`, is not yet notified; afterwards each rendered one is notified,
   * nothing else about it changes (its `new` flag stays), every other
   * relation is as it was, and all of the subscriber's relations end up
   * notified.
   */
  lemma MarkedRelations(rels: seq<Relation>, chat: ChatId, getAll: bool)
    ensures var marked := MarkNotified(rels, chat, getAll);
      && |marked| == |rels|
      && (forall i :: 0 <= i < |rels| && Picked(rels[i], chat, getAll) ==>
            marked[i].notified && marked[i] == rels[i].(notified := true) && marked[i].isNew == rels[i].isNew)
      && (forall i :: 0 <= i < |rels| && !Picked(rels[i], chat, getAll) ==> marked[i] == rels[i])
      && (forall i :: 0 <= i < |rels| && marked[i].subscriber == chat ==> marked[i].notified)
  {
  }

  /**
   * Output appears iff some relation is selected, and then there are at most
   * five messages.
   */
  lemma OutputIffSelection(offers: map<OfferId, Offer>, rels: seq<Relation>, sub: Subscriber, cpus: map<string, Cpu>,
                           getAll: bool, render: Block -> string)
    requires forall x :: x in rels ==> x.offer in offers
    ensures var out := FormatOffers(offers, rels, sub, cpus, getAll, render).0;
      && (|out| == 0 <==> forall x :: x in rels ==> !Picked(x, sub.chatId, getAll))
      && |out| <= MaxChunks
  {
    var sel := Selected(rels, sub.chatId, getAll);
    if |sel| > 0 {
      var texts := Rendered(offers, sel, sub, cpus, render);
      Text.ChunksNonEmpty(texts, MaxChunks);
      Text.ChunkCountBound(texts, MaxChunks);
      assert sel[0] in sel;
    }
  }

  /**
   * Whatever `getAll` was, a second call without it finds nothing left to
   * send.
   */
  lemma SecondCallSendsNothing(offers: map<OfferId, Offer>, rels: seq<Relation>, sub: Subscriber, cpus: map<string, Cpu>,
                               getAll: bool, render: Block -> string)
    requires forall x :: x in rels ==> x.offer in offers
    ensures var marked := FormatOffers(offers, rels, sub, cpus, getAll, render).1;
      (forall x :: x in marked ==> x.offer in offers)
      && FormatOffers(offers, marked, sub, cpus, false, render).0 == []
  {
    var marked := MarkNotified(rels, sub.chatId, getAll);
    forall x | x in marked
      ensures x.offer in offers && !Picked(x, sub.chatId, false)
    {
      var i :| 0 <= i < |marked| && marked[i] == x;
      assert rels[i] in rels;
    }
    var sel := Selected(marked, sub.chatId, false);
    assert forall x :: x !in sel;
  }

  /** The tag is "(New)" exactly for a relation still marked new. */
  lemma StatusTagIffNew(r: Relation)
    ensures StatusTag(r) == "(New)" <==> r.isNew
    ensures !r.isNew ==> StatusTag(r) == "(Price reduction)"
  {
    if !r.isNew {
      assert StatusTag(r)[1] != "(New)"[1];
    }
  }

  /** The features line is `None` exactly when the offer has none of the four features. */
  lemma ExtraFeaturesNone(o: Offer)
    ensures ExtraFeatures(o) == "None" <==> !o.ipv4 && !o.ecc && !o.inic && !o.hwr
  {
    var s := ExtraFeatures(o);
    if o.ipv4 || o.ecc || o.inic || o.hwr {
      assert |s| > 0 && s[|s| - 1] == ' ';
    }
  }

  /**
   * A subscriber in a RAID mode sees the largest pool of that mode over all
   * disk groups, or "n/a" when no group qualifies or the largest pool is
   * zero; other subscribers see no RAID line.
   */
  lemma RaidLineShowsLargestPool(sub: Subscriber, r: Relation, o: Offer, cpus: map<string, Cpu>, level: Disks.RaidLevel)
    requires sub.raid == Some(if level == Disks.Raid5 then "raid5" else "raid6")
    ensures var line := BlockOf(sub, r, o, cpus).raid;
      && (if level == Disks.Raid5 then line.Raid5Line? else line.Raid6Line?)
      && (line.capacity.NotAvailable? <==>
            forall i :: 0 <= i < |o.disks| && Disks.Qualifies(o.disks[i], level) ==> Disks.Pool(o.disks[i], level) == 0)
      && (line.capacity.Available? ==>
            exists i :: 0 <= i < |o.disks| && Disks.Qualifies(o.disks[i], level)
              && line.capacity.size == Disks.FormatSize(Disks.Pool(o.disks[i], level))
              && forall j :: 0 <= j < |o.disks| && Disks.Qualifies(o.disks[j], level) ==>
                   Disks.Pool(o.disks[j], level) <= Disks.Pool(o.disks[i], level))
  {
    assert "raid5" != "raid6" by { assert "raid5"[4] != "raid6"[4]; }
  }

  /** A subscriber without a RAID mode sees no RAID line. */
  lemma NoRaidModeNoRaidLine(sub: Subscriber, r: Relation, o: Offer, cpus: map<string, Cpu>)
    requires sub.raid != Some("raid5") && sub.raid != Some("raid6")
    ensures BlockOf(sub, r, o, cpus).raid == NoRaidLine
  {
  }
}
