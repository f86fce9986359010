/**
 * Disk groups of an offer: coalescing the upstream disk lists into groups
 * (`populate_disk_data`), the largest RAID5/RAID6 pool the formatter shows,
 * and the size and type labels of a group.
 */
module Disks {
  import opened Wrappers
  import opened Models
  import StringOps

  /** `g` is the group for disks of type `t` and `size` GB. */
  predicate SameKey(g: DiskGroup, t: DiskType, size: nat)
  {
    g.diskType == t && g.size == size
  }

  /** No two groups share a type and a size. */
  ghost predicate UniqueKeys(disks: seq<DiskGroup>)
  {
    forall i, j :: 0 <= i < j < |disks| ==> !SameKey(disks[i], disks[j].diskType, disks[j].size)
  }

  /** The position of the first group for `t` and `size`, `|disks|` if there is none. */
  function IndexOfGroup(disks: seq<DiskGroup>, t: DiskType, size: nat): (k: nat)
    ensures k <= |disks|
    ensures k < |disks| ==> SameKey(disks[k], t, size)
    ensures forall j :: 0 <= j < k ==> !SameKey(disks[j], t, size)
  {
    if |disks| == 0 then 0
    else if SameKey(disks[0], t, size) then 0
    else 1 + IndexOfGroup(disks[1..], t, size)
  }

  /**
   * One upstream disk entry added to the groups: `general` entries are
   * skipped, an existing group of the same type and size counts one disk
   * more, otherwise a group of one disk is appended.
   */
  function AddDisk(disks: seq<DiskGroup>, category: DiskCategory, size: nat): seq<DiskGroup>
  {
    match category
    case General => disks
    case Kind(t) =>
      var k := IndexOfGroup(disks, t, size);
      if k < |disks| then disks[k := disks[k].(amount := disks[k].amount + 1)]
      else disks + [DiskGroup(t, size, 1)]
  }

  /** `populate_disk_data`: the search over the groups, with its early return. */
  method PopulateDiskData(disks: seq<DiskGroup>, category: DiskCategory, size: nat) returns (r: seq<DiskGroup>)
    ensures r == AddDisk(disks, category, size)
  {
    if category == General {
      return disks;
    }
    var t := category.diskType;
    for i := 0 to |disks|
      invariant forall j :: 0 <= j < i ==> !SameKey(disks[j], t, size)
    {
      if disks[i].diskType == t && disks[i].size == size {
        r := disks[i := disks[i].(amount := disks[i].amount + 1)];
        return;
      }
    }
    r := disks + [DiskGroup(t, size, 1)];
  }

  /** The entries of one upstream category added in order. */
  function AddSizes(disks: seq<DiskGroup>, category: DiskCategory, sizes: seq<nat>): seq<DiskGroup>
  {
    if |sizes| == 0 then disks
    else AddDisk(AddSizes(disks, category, sizes[..|sizes| - 1]), category, sizes[|sizes| - 1])
  }

  /**
   * The groups `update_offers` builds from `serverDiskData`: every category
   * but `general`, every entry in order.
   */
  function NewDisks(data: seq<(DiskCategory, seq<nat>)>): seq<DiskGroup>
  {
    if |data| == 0 then []
    else
      var (category, sizes) := data[|data| - 1];
      var before := NewDisks(data[..|data| - 1]);
      if category == General then before else AddSizes(before, category, sizes)
  }

  /** The loops of `update_offers` that fill `new_disks`. */
  method BuildNewDisks(data: seq<(DiskCategory, seq<nat>)>) returns (disks: seq<DiskGroup>)
    ensures disks == NewDisks(data)
  {
    disks := [];
    for i := 0 to |data|
      invariant disks == NewDisks(data[..i])
    {
      assert data[..i + 1][..i] == data[..i];
      var (category, sizes) := data[i];
      if category == General {
        continue;
      }
      ghost var before := disks;
      for j := 0 to |sizes|
        invariant disks == AddSizes(before, category, sizes[..j])
      {
        assert sizes[..j + 1][..j] == sizes[..j];
        disks := PopulateDiskData(disks, category, sizes[j]);
      }
      assert sizes[..|sizes|] == sizes;
    }
    assert data[..|data|] == data;
  }

  // ---------------------------------------------------------------------
  // What coalescing keeps

  /** The disks of type `t` and `size` GB over all groups. */
  function AmountOf(disks: seq<DiskGroup>, t: DiskType, size: nat): nat
  {
    if |disks| == 0 then 0
    else AmountOf(disks[..|disks| - 1], t, size) + (if SameKey(disks[|disks| - 1], t, size) then disks[|disks| - 1].amount else 0)
  }

  /** All disks over all groups. */
  function TotalAmount(disks: seq<DiskGroup>): nat
  {
    if |disks| == 0 then 0 else TotalAmount(disks[..|disks| - 1]) + disks[|disks| - 1].amount
  }

  /** The upstream entries of type `t` and `size` GB. */
  function EntriesOf(data: seq<(DiskCategory, seq<nat>)>, t: DiskType, size: nat): nat
  {
    if |data| == 0 then 0
    else
      var (category, sizes) := data[|data| - 1];
      EntriesOf(data[..|data| - 1], t, size) + (if category == Kind(t) then Count(sizes, size) else 0)
  }

  /** The upstream entries outside `general`. */
  function EntryCount(data: seq<(DiskCategory, seq<nat>)>): nat
  {
    if |data| == 0 then 0
    else
      var (category, sizes) := data[|data| - 1];
      EntryCount(data[..|data| - 1]) + (if category == General then 0 else |sizes|)
  }

  function Count(sizes: seq<nat>, size: nat): nat
  {
    if |sizes| == 0 then 0 else Count(sizes[..|sizes| - 1], size) + (if sizes[|sizes| - 1] == size then 1 else 0)
  }

  /** Every group holds at least one disk. */
  ghost predicate NonEmptyGroups(disks: seq<DiskGroup>)
  {
    forall i :: 0 <= i < |disks| ==> disks[i].amount >= 1
  }

  lemma {:induction false} AmountOfUpdate(disks: seq<DiskGroup>, k: nat, t: DiskType, size: nat)
    requires k < |disks|
    ensures var u := disks[k := disks[k].(amount := disks[k].amount + 1)];
      AmountOf(u, t, size) == AmountOf(disks, t, size) + (if SameKey(disks[k], t, size) then 1 else 0)
      && TotalAmount(u) == TotalAmount(disks) + 1
    decreases |disks|
  {
    var n := |disks| - 1;
    var u := disks[k := disks[k].(amount := disks[k].amount + 1)];
    if k < n {
      AmountOfUpdate(disks[..n], k, t, size);
      assert u[..n] == disks[..n][k := disks[k].(amount := disks[k].amount + 1)];
    } else {
      assert u[..n] == disks[..n];
    }
  }

  /**
   * Adding one entry of type `t` and `size` GB adds one disk to exactly
   * that type and size, and one to the total; `general` adds nothing.
   */
  lemma {:induction false} AddDiskCounts(disks: seq<DiskGroup>, category: DiskCategory, size: nat, t': DiskType, size': nat)
    ensures AmountOf(AddDisk(disks, category, size), t', size')
         == AmountOf(disks, t', size') + (if category == Kind(t') && size == size' then 1 else 0)
    ensures TotalAmount(AddDisk(disks, category, size)) == TotalAmount(disks) + (if category == General then 0 else 1)
  {
    if category.Kind? {
      var k := IndexOfGroup(disks, category.diskType, size);
      if k < |disks| {
        AmountOfUpdate(disks, k, t', size');
      } else {
        var r := disks + [DiskGroup(category.diskType, size, 1)];
        assert r[..|disks|] == disks;
      }
    }
  }

  /**
   * Adding an entry keeps the groups' keys unique and every group
   * non-empty; the groups only grow by the appended one.
   */
  lemma {:induction false} AddDiskKeepsGroups(disks: seq<DiskGroup>, category: DiskCategory, size: nat)
    requires UniqueKeys(disks) && NonEmptyGroups(disks)
    ensures UniqueKeys(AddDisk(disks, category, size)) && NonEmptyGroups(AddDisk(disks, category, size))
    ensures category.Kind? ==>
      var r := AddDisk(disks, category, size);
      if exists j :: 0 <= j < |disks| && SameKey(disks[j], category.diskType, size)
      then (exists j :: 0 <= j < |disks| && SameKey(disks[j], category.diskType, size)
                          && r == disks[j := disks[j].(amount := disks[j].amount + 1)])
      else r == disks + [DiskGroup(category.diskType, size, 1)]
  {
    if category.Kind? {
      var t := category.diskType;
      var k := IndexOfGroup(disks, t, size);
      var r := AddDisk(disks, category, size);
      if k < |disks| {
        assert forall i :: 0 <= i < |r| ==> SameKey(r[i], disks[i].diskType, disks[i].size);
      } else {
        assert forall i :: 0 <= i < |disks| ==> r[i] == disks[i];
      }
    }
  }

  lemma {:induction false} AddSizesFacts(disks: seq<DiskGroup>, category: DiskCategory, sizes: seq<nat>, t: DiskType, size: nat)
    requires UniqueKeys(disks) && NonEmptyGroups(disks)
    ensures var r := AddSizes(disks, category, sizes);
      && UniqueKeys(r) && NonEmptyGroups(r)
      && AmountOf(r, t, size) == AmountOf(disks, t, size) + (if category == Kind(t) then Count(sizes, size) else 0)
      && TotalAmount(r) == TotalAmount(disks) + (if category == General then 0 else |sizes|)
    decreases |sizes|
  {
    if |sizes| > 0 {
      var n := |sizes| - 1;
      AddSizesFacts(disks, category, sizes[..n], t, size);
      var before := AddSizes(disks, category, sizes[..n]);
      AddDiskKeepsGroups(before, category, sizes[n]);
      AddDiskCounts(before, category, sizes[n], t, size);
    }
  }

  /**
   * The groups built from `serverDiskData`: one per type and size, none
   * empty, each counting exactly the upstream entries of its type and
   * size, and all of them together the entries outside `general`.
   */
  lemma {:induction false} NewDisksCoalesced(data: seq<(DiskCategory, seq<nat>)>, t: DiskType, size: nat)
    ensures UniqueKeys(NewDisks(data)) && NonEmptyGroups(NewDisks(data))
    ensures AmountOf(NewDisks(data), t, size) == EntriesOf(data, t, size)
    ensures TotalAmount(NewDisks(data)) == EntryCount(data)
    decreases |data|
  {
    if |data| > 0 {
      var n := |data| - 1;
      NewDisksCoalesced(data[..n], t, size);
      var (category, sizes) := data[n];
      if category != General {
        AddSizesFacts(NewDisks(data[..n]), category, sizes, t, size);
      }
    }
  }

  // ---------------------------------------------------------------------
  // RAID pools, as the formatter computes them

  datatype RaidLevel = Raid5 | Raid6

  /** The fewest disks a pool of the level needs, as the formatter counts. */
  function MinDisks(level: RaidLevel): nat
  {
    match level
    case Raid5 => 3
    case Raid6 => 4
  }

  /** The disks a pool of the level spends on parity. */
  function ParityDisks(level: RaidLevel): nat
  {
    match level
    case Raid5 => 1
    case Raid6 => 2
  }

  /** The group can form a pool of the level. */
  predicate Qualifies(g: DiskGroup, level: RaidLevel)
  {
    g.amount >= MinDisks(level)
  }

  /** The usable size of a pool of the level over the whole group. */
  function Pool(g: DiskGroup, level: RaidLevel): nat
    requires Qualifies(g, level)
  {
    g.size * (g.amount - ParityDisks(level))
  }

  /**
   * The largest pool of the level over the groups of any disk type, `None`
   * when no group has enough disks.
   */
  function MaxPool(disks: seq<DiskGroup>, level: RaidLevel): (r: Option<nat>)
    ensures r.None? <==> forall i :: 0 <= i < |disks| ==> !Qualifies(disks[i], level)
    ensures r.Some? ==> exists i :: 0 <= i < |disks| && Qualifies(disks[i], level) && Pool(disks[i], level) == r.value
    ensures r.Some? ==> forall i :: 0 <= i < |disks| && Qualifies(disks[i], level) ==> Pool(disks[i], level) <= r.value
  {
    if |disks| == 0 then None
    else
      var rest := MaxPool(disks[..|disks| - 1], level);
      var g := disks[|disks| - 1];
      if !Qualifies(g, level) then rest
      else if rest.Some? && rest.value >= Pool(g, level) then rest
      else Some(Pool(g, level))
  }

  /**
   * One iteration of the formatter's loop for one level: a qualifying
   * group's pool replaces the running value when there is none yet, when it
   * is 0 (Python's `not biggest`) or when the pool is larger.
   */
  function Biggest(best: Option<nat>, g: DiskGroup, level: RaidLevel): Option<nat>
  {
    if !Qualifies(g, level) then best
    else if best.None? || best.value == 0 || Pool(g, level) > best.value then Some(Pool(g, level))
    else best
  }

  /** The truthiness quirk does not matter: the running value is the maximum so far. */
  lemma {:induction false} BiggestIsMaxPool(disks: seq<DiskGroup>, i: nat, level: RaidLevel)
    requires i < |disks|
    ensures MaxPool(disks[..i + 1], level) == Biggest(MaxPool(disks[..i], level), disks[i], level)
  {
    assert disks[..i + 1][..i] == disks[..i];
  }

  /** The loop of `format_offers` over the disk groups, for both levels at once. */
  method BiggestPools(disks: seq<DiskGroup>) returns (raid5: Option<nat>, raid6: Option<nat>)
    ensures raid5 == MaxPool(disks, Raid5) && raid6 == MaxPool(disks, Raid6)
  {
    raid5, raid6 := None, None;
    for i := 0 to |disks|
      invariant raid5 == MaxPool(disks[..i], Raid5) && raid6 == MaxPool(disks[..i], Raid6)
    {
      BiggestIsMaxPool(disks, i, Raid5);
      BiggestIsMaxPool(disks, i, Raid6);
      var g := disks[i];
      if g.amount >= 3 {
        var pool := g.size * (g.amount - 1);
        if raid5.None? || raid5.value == 0 || pool > raid5.value {
          raid5 := Some(pool);
        }
      }
      if g.amount >= 4 {
        var pool := g.size * (g.amount - 2);
        if raid6.None? || raid6.value == 0 || pool > raid6.value {
          raid6 := Some(pool);
        }
      }
    }
    assert disks[..|disks|] == disks;
  }

  /** RAID examples: 3 x 4000 GB give 8000 GB as RAID5 and no RAID6 pool; 5 x 2000 GB give 6000 GB as RAID6. */
  lemma PoolExamples()
    ensures MaxPool([DiskGroup(Hdd, 4000, 3)], Raid5) == Some(8000)
    ensures MaxPool([DiskGroup(Hdd, 4000, 3)], Raid6) == None
    ensures MaxPool([DiskGroup(Hdd, 2000, 5)], Raid6) == Some(6000)
  {
    assert [DiskGroup(Hdd, 4000, 3)][..0] == [];
    assert [DiskGroup(Hdd, 2000, 5)][..0] == [];
  }

  // ---------------------------------------------------------------------
  // Labels

  /**
   * `format_size`: below 1000 GB the size in GB; from 1000 GB on the size in
   * TB, whose decimal rendering is not modelled.
   */
  datatype SizeLabel = Gigabytes(text: string) | Terabytes(gb: nat)

  function FormatSize(size: nat): SizeLabel
  {
    if size < 1000 then Gigabytes(StringOps.IntToString(size) + " GB") else Terabytes(size)
  }

  /** A size shown in GB reads back as that size. */
  lemma FormatSizeReadsBack(size: nat)
    ensures FormatSize(size).Gigabytes? <==> size < 1000
    ensures size < 1000 ==>
      var text := FormatSize(size).text;
      |text| >= 3 && text[|text| - 3..] == " GB" && StringOps.ParseInt(text[..|text| - 3]) == Some(size)
  {
    if size < 1000 {
      var digits := StringOps.IntToString(size);
      var text := digits + " GB";
      assert text[..|text| - 3] == digits;
      StringOps.IntToStringParses(size);
    }
  }

  /** `get_disk_type_name`. */
  function DiskTypeName(t: DiskType): string
  {
    match t
    case Hdd => "HDD"
    case Sata => "SSD (Sata)"
    case Nvme => "SSD (NVMe)"
  }

  /** Different disk types get different names. */
  lemma DiskTypeNamesDistinct(t: DiskType, u: DiskType)
    ensures DiskTypeName(t) == DiskTypeName(u) <==> t == u
  {
    if t != u {
      assert DiskTypeName(t)[|DiskTypeName(t)| - 2] != DiskTypeName(u)[|DiskTypeName(u)| - 2] || |DiskTypeName(t)| != |DiskTypeName(u)|;
    }
  }
}
