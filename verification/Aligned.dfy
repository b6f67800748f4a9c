/**
 The aligned memory mapping: the upper half of an address is the index of its region,
 and unused indices are filled with empty regions.
 */
module Aligned {
  import opened Options
  import opened Words
  import opened Regions
  import opened Eytzinger
  import opened Sorting
  import opened Mapping

  /** The upper half of an address. */
  function Slot(vmAddr: u64): nat {
    vmAddr / SLOT
  }

  /** The empty read-only region that starts slot `i`; `host` is where its empty slice lies. */
  function Filler(host: u64, i: nat): Region {
    NewRegion(host, 0, if i * SLOT <= MAX then i * SLOT else MAX, 0, false)
  }

  /** A filler starts its slot, and gives no byte and no right to store. */
  lemma FillerIsEmpty(host: u64, i: nat, access: AccessType, vmAddr: u64, len: u64)
    ensures i * SLOT <= MAX ==> Filler(host, i).vmAddr == i * SLOT && Slot(i * SLOT) == i
    ensures access == Store || len >= 1 ==> VmToHost(Filler(host, i), access, vmAddr, len) == None
  {
    hide VmToHost;
    TranslationIsExact(Filler(host, i), access, vmAddr, len);
  }

  // ---------------------------------------------------------------- sharing a slot

  ghost predicate Shares(s: seq<Region>, i: nat, j: nat) {
    i < j < |s| && Slot(s[i].vmAddr) == Slot(s[j].vmAddr)
  }

  /** Two of the regions are in the same slot. */
  ghost predicate Shared(s: seq<Region>) {
    exists i: nat, j: nat :: Shares(s, i, j)
  }

  ghost predicate SharingPair(m: multiset<Region>, x: Region, y: Region) {
    multiset{x, y} <= m && Slot(x.vmAddr) == Slot(y.vmAddr)
  }

  lemma SharedByPair(s: seq<Region>)
    ensures Shared(s) <==> exists x, y :: SharingPair(multiset(s), x, y)
  {
    hide SharingPair;
    forall i: nat, j: nat | Shares(s, i, j) ensures SharingPair(multiset(s), s[i], s[j]) {
      IndicesGivePair(s, i, j);
    }
    forall x, y | SharingPair(multiset(s), x, y) ensures Shared(s) {
      PairGivesIndices(s, x, y);
    }
  }

  lemma IndicesGivePair(s: seq<Region>, i: nat, j: nat)
    requires Shares(s, i, j)
    ensures SharingPair(multiset(s), s[i], s[j])
  {
    assert s == s[..i] + [s[i]] + s[i + 1..j] + [s[j]] + s[j + 1..];
  }

  lemma PairGivesIndices(s: seq<Region>, x: Region, y: Region)
    requires SharingPair(multiset(s), x, y)
    ensures Shared(s)
  {
    if x == y {
      DistinctCounts(s);
      assert multiset{x, y}[x] == 2;
      assert multiset(s)[x] >= 2;
      var i: nat, j: nat :| i < j < |s| && s[i] == s[j];
      assert Shares(s, i, j);
    } else {
      assert x in multiset{x, y} && y in multiset{x, y};
      assert x in multiset(s) && y in multiset(s);
      var i: nat :| i < |s| && s[i] == x;
      var j: nat :| j < |s| && s[j] == y;
      assert Shares(s, i, j) || Shares(s, j, i);
    }
  }

  lemma SharingIsUnordered(s: seq<Region>, t: seq<Region>)
    requires multiset(s) == multiset(t)
    ensures Shared(s) <==> Shared(t)
  {
    SharedByPair(s);
    SharedByPair(t);
  }

  // ---------------------------------------------------------------- the table

  /** Slot i of the table is a region of slot i. */
  ghost predicate InSlots(table: seq<Region>) {
    forall i :: 0 <= i < |table| ==> Slot(table[i].vmAddr) == i
  }

  /** Region `g` is found in its slot. */
  ghost predicate Kept(table: seq<Region>, g: Region) {
    Slot(g.vmAddr) < |table| && table[Slot(g.vmAddr)] == g
  }

  /** The table holds the given regions, each at its slot, and fillers elsewhere. */
  ghost predicate IsTable(host: u64, given: seq<Region>, table: seq<Region>) {
    && InSlots(table)
    && (forall g :: g in given ==> Kept(table, g))
    && (forall i :: 0 <= i < |table| ==> table[i] in given || table[i] == Filler(host, i))
  }

  /** While the table grows: k regions of the sorted list `s` and their fillers are in front of slot `e`. */
  ghost predicate Growing(host: u64, s: seq<Region>, table: seq<Region>, e: nat, k: nat) {
    && k <= |s| && e <= |table| && table[e..] == s[k..]
    && IsTable(host, s[..k], table[..e])
    && (e > 0 && (k == |s| || Slot(s[k].vmAddr) < e) ==> k > 0 && Slot(s[k - 1].vmAddr) == e - 1)
    && !Shared(s[..k])
  }

  lemma GrowsByFiller(host: u64, s: seq<Region>, table: seq<Region>, e: nat, k: nat)
    requires Growing(host, s, table, e, k) && k < |s| && Slot(s[k].vmAddr) > e
    ensures Growing(host, s, table[..e] + [Filler(host, e)] + table[e..], e + 1, k)
  {
    var next := table[..e] + [Filler(host, e)] + table[e..];
    assert next[e + 1..] == table[e..];
    var front := next[..e + 1];
    assert front == table[..e] + [Filler(host, e)];
    forall g | g in s[..k] ensures Kept(front, g) {
      assert Kept(table[..e], g);
    }
    assert Slot(s[k].vmAddr) * SLOT <= s[k].vmAddr;
  }

  lemma GrowsByRegion(host: u64, s: seq<Region>, table: seq<Region>, e: nat, k: nat)
    requires Growing(host, s, table, e, k) && k < |s| && Slot(s[k].vmAddr) == e && Sorted(s)
    ensures Growing(host, s, table, e + 1, k + 1)
  {
    var front := table[..e + 1];
    assert table[e] == table[e..][0] == s[k];
    assert front == table[..e] + [s[k]] && s[..k + 1] == s[..k] + [s[k]];
    assert table[e + 1..] == table[e..][1..];
    forall g | g in s[..k + 1] ensures Kept(front, g) {
      if g != s[k] {
        assert g in s[..k] && Kept(table[..e], g);
      }
    }
    var longer := s[..k + 1];
    forall i: nat, j: nat ensures !Shares(longer, i, j) {
      if i < j < k {
        assert !Shares(s[..k], i, j);
      } else if i < j == k {
        assert s[i] in s[..k] && Kept(table[..e], s[i]);
      }
    }
    if k + 1 < |s| {
      assert Slot(s[k].vmAddr) <= Slot(s[k + 1].vmAddr);
    }
  }

  /** A region that comes too late for its slot finds the slot taken. */
  lemma LateIsShared(host: u64, s: seq<Region>, table: seq<Region>, e: nat, k: nat)
    requires Growing(host, s, table, e, k) && k < |s| && Slot(s[k].vmAddr) < e && Sorted(s)
    ensures k > 0 && SharingPair(multiset(s), s[k], s[k - 1]) && Shared(s)
  {
    assert s[k - 1].vmAddr <= s[k].vmAddr;
    SlotsAscend(s[k - 1].vmAddr, s[k].vmAddr);
    assert s == s[..k - 1] + [s[k - 1], s[k]] + s[k + 1..];
    assert Shares(s, k - 1, k);
  }

  lemma GrowthStarts(host: u64, s: seq<Region>)
    ensures Growing(host, s, s, 0, 0)
  {
  }

  lemma NextRegion(host: u64, s: seq<Region>, table: seq<Region>, e: nat, k: nat)
    requires Growing(host, s, table, e, k) && e < |table|
    ensures k < |s| && table[e] == s[k]
  {
    assert table[e..][0] == s[k..][0];
  }

  lemma SlotsAscend(a: u64, b: u64)
    requires a <= b
    ensures Slot(a) <= Slot(b)
  {
  }

  // ---------------------------------------------------------------- the plain form

  function AlignedFound(allowZero: bool, table: seq<Region>, vmAddr: u64): Option<Region> {
    var index := Slot(vmAddr);
    if index < |table| && (index > 0 || allowZero) then Some(table[index]) else None
  }

  /** The slot of the last byte of a region without gaps. */
  function LastSlot(r: Region): nat {
    Slot(SaturatingAdd(r.vmAddr, SaturatingSub(r.len, 1)))
  }

  function AlignedReplaced(table: seq<Region>, index: nat, region: Region): (Result<(), MapError>, seq<Region>) {
    if Replaceable(table, index, region) && Slot(region.vmAddr) == index && LastSlot(region) == index
    then (Ok(()), table[index := region])
    else (Err(InvalidMemoryRegion(index)), table)
  }

  /** The first and the last byte of a region lie in a slot. */
  ghost predicate LiesIn(index: nat, region: Region) {
    && index * SLOT <= region.vmAddr < index * SLOT + SLOT
    && SaturatingAdd(region.vmAddr, SaturatingSub(region.len, 1)) < index * SLOT + SLOT
  }

  lemma LiesInSlot(index: nat, region: Region)
    ensures LiesIn(index, region) <==> Slot(region.vmAddr) == index && LastSlot(region) == index
  {
  }

  class AlignedMapping {
    const settings: Settings
    const emptyHost: u64
    const allowZero: bool
    var regions: seq<Region>

    constructor (settings: Settings, emptyHost: u64, allowZero: bool, regions: seq<Region>)
      ensures this.settings == settings && this.emptyHost == emptyHost
      ensures this.allowZero == allowZero && this.regions == regions
    {
      this.settings, this.emptyHost, this.allowZero, this.regions := settings, emptyHost, allowZero, regions;
    }

    /** Sorts the regions and fills the holes between them, unless two of them share a slot. */
    method FillHoles() returns (r: Result<(), MapError>)
      requires allowZero
      modifies this`regions
      ensures r.Ok? <==> !Shared(old(regions))
      ensures r.Ok? ==> IsTable(emptyHost, old(regions), regions)
      ensures r.Ok? && regions != [] ==> regions[|regions| - 1] in old(regions)
      ensures r.Err? ==> exists x, y ::
        (SharingPair(multiset(old(regions)), x, y) && r == Err(InvalidMemoryRegion(Slot(x.vmAddr))))
    {
      hide Growing, IsTable, Shared, SharingPair, SortedRegions, Sorted, Filler, Slot;
      ghost var s := SortedRegions(regions);
      SortedRegionsSorted(regions);
      SharingIsUnordered(s, regions);
      GrowthStarts(emptyHost, s);
      regions := SortedRegions(regions);
      var expected: nat := 0;
      ghost var k: nat := 0;
      while expected < |regions|
        invariant expected <= |regions| && Growing(emptyHost, s, regions, expected, k)
        decreases |regions| - expected, if expected < |regions| then Slot(regions[expected].vmAddr) - expected else 0
      {
        NextRegion(emptyHost, s, regions, expected, k);
        var actual := Slot(regions[expected].vmAddr);
        if actual > expected {
          GrowsByFiller(emptyHost, s, regions, expected, k);
          regions := regions[..expected] + [Filler(emptyHost, expected)] + regions[expected..];
        } else if actual < expected {
          LateIsShared(emptyHost, s, regions, expected, k);
          return Err(InvalidMemoryRegion(actual));
        } else {
          GrowsByRegion(emptyHost, s, regions, expected, k);
          k := k + 1;
        }
        expected := expected + 1;
      }
      Grown(emptyHost, old(regions), s, regions, k);
      r := Ok(());
    }

    /** Puts an empty region in front and accepts the regions only if they fill the slots from one on. */
    method PadZero() returns (r: Result<(), MapError>)
      requires !allowZero
      modifies this`regions
      ensures regions == SortedRegions(old(regions) + [Filler(emptyHost, 0)])
      ensures r.Ok? <==> InSlots(regions)
      ensures r.Ok? ==> IsTable(emptyHost, old(regions), regions) && AboveZero(old(regions)) && !Shared(old(regions))
      ensures r.Err? ==> exists k: nat ::
        (r == Err(InvalidMemoryRegion(k)) && k < |regions| && Slot(regions[k].vmAddr) != k && InSlots(regions[..k]))
    {
      ghost var padded := regions + [Filler(emptyHost, 0)];
      regions := SortedRegions(regions + [Filler(emptyHost, 0)]);
      var index: nat := 0;
      while index < |regions|
        invariant index <= |regions| && InSlots(regions[..index])
        invariant regions == SortedRegions(padded)
      {
        if Slot(regions[index].vmAddr) != index {
          return Err(InvalidMemoryRegion(index));
        }
        assert regions[..index + 1] == regions[..index] + [regions[index]];
        index := index + 1;
      }
      assert regions[..index] == regions;
      Padded(emptyHost, old(regions), regions);
      r := Ok(());
    }

    method Initialize() returns (r: Result<(), MapError>)
      modifies this`regions
      ensures r.Ok? <==>
        if allowZero then !Shared(old(regions)) else InSlots(SortedRegions(old(regions) + [Filler(emptyHost, 0)]))
      ensures r.Ok? ==> IsTable(emptyHost, old(regions), regions) && !Shared(old(regions))
      ensures r.Ok? ==> allowZero || AboveZero(old(regions))
    {
      if allowZero {
        r := FillHoles();
      } else {
        r := PadZero();
      }
    }

    method MapAddress(access: AccessType, vmAddr: u64, len: u64) returns (r: Result<u64, MapError>)
      ensures r == Translate(settings, AlignedFound(allowZero, regions, vmAddr), access, vmAddr, len)
    {
      if settings.disableAddressTranslation {
        return Ok(vmAddr);
      }
      var index := Slot(vmAddr);
      if index < |regions| && (index > 0 || allowZero) {
        var host := VmToHost(regions[index], access, vmAddr, len);
        if host.Some? {
          return Ok(host.value);
        }
      }
      r := Err(AccessError(settings, access, vmAddr, len));
    }

    method ReplaceRegion(index: nat, region: Region) returns (r: Result<(), MapError>)
      requires InSlots(regions)
      modifies this`regions
      ensures InSlots(regions) && (r, regions) == AlignedReplaced(old(regions), index, region)
      ensures r.Ok? <==> TakesPlace(old(regions), index, region) && LiesIn(index, region)
      ensures r.Ok? ==> OnlyAt(old(regions), regions, index, region)
      ensures r.Err? ==> regions == old(regions) && r.error == InvalidMemoryRegion(index)
    {
      ReplacedLaw(regions, index, region);
      LiesInSlot(index, region);
      if index >= |regions| || regions[index].vmAddr != region.vmAddr || VmEnd(region) > NextStart(regions, index) {
        return Err(InvalidMemoryRegion(index));
      }
      if Slot(region.vmAddr) != index || LastSlot(region) != index {
        return Err(InvalidMemoryRegion(index));
      }
      regions := regions[index := region];
      r := Ok(());
    }
  }

  lemma Grown(host: u64, given: seq<Region>, s: seq<Region>, table: seq<Region>, k: nat)
    requires Growing(host, s, table, |table|, k) && multiset(s) == multiset(given)
    ensures IsTable(host, given, table) && !Shared(given)
    ensures table != [] ==> table[|table| - 1] in given
  {
    assert table[..|table|] == table && table[|table|..] == [];
    assert |s[k..]| == 0;
    assert s[..k] == s;
    SharingIsUnordered(s, given);
    SameMembers(s, given);
    if table != [] {
      var last := s[k - 1];
      assert last in s && Kept(table, last);
    }
  }

  lemma SameMembers<T>(s: seq<T>, t: seq<T>)
    requires multiset(s) == multiset(t)
    ensures forall x :: x in s <==> x in t
  {
    assert forall x :: x in s <==> x in multiset(s);
    assert forall x :: x in t <==> x in multiset(t);
  }

  ghost predicate AboveZero(s: seq<Region>) {
    forall g :: g in s ==> Slot(g.vmAddr) > 0
  }

  /** A sorted list without wrong slots is a table, because a list of n regions has n slots. */
  lemma Padded(host: u64, given: seq<Region>, table: seq<Region>)
    requires table == SortedRegions(given + [Filler(host, 0)]) && InSlots(table)
    ensures IsTable(host, given, table) && AboveZero(given) && !Shared(given)
  {
    var padded := given + [Filler(host, 0)];
    SortedRegionsSorted(padded);
    SameMembers(table, padded);
    SharingIsUnordered(table, padded);
    forall i: nat, j: nat ensures !Shares(table, i, j) {
    }
    forall i: nat, j: nat ensures !Shares(given, i, j) {
      assert !Shares(padded, i, j);
    }
    forall g | g in given ensures Kept(table, g) && Slot(g.vmAddr) > 0 {
      var i: nat :| i < |given| && given[i] == g;
      assert g in padded && g in table;
      assert g == padded[i] && !Shares(padded, i, |given|);
    }
    forall i | 0 <= i < |table| ensures table[i] in given || table[i] == Filler(host, i) {
      assert table[i] in padded;
    }
  }

  // ---------------------------------------------------------------- both mappings agree

  /** A region that ends inside the slot in which it starts. */
  ghost predicate InsideSlot(r: Region) {
    r.gapShift <= NO_GAPS && r.vmAddr + Span(r) <= (Slot(r.vmAddr) + 1) * SLOT
  }

  ghost predicate Inside(s: seq<Region>) {
    forall r :: r in s ==> InsideSlot(r)
  }

  /** Regions inside their own slots do not overlap: whatever the aligned mapping accepts, the unaligned one accepts. */
  lemma InsideIsWellLaid(given: seq<Region>)
    requires Inside(given) && !Shared(given)
    ensures WellLaid(SortedRegions(given))
  {
    var s := SortedRegions(given);
    SortedRegionsSorted(given);
    SharingIsUnordered(s, given);
    SameMembers(s, given);
    forall i, j | 0 <= i < j < |s| ensures VmEnd(s[i]) <= s[j].vmAddr {
      assert !Shares(s, i, j) && InsideSlot(s[i]);
      SlotsAscend(s[i].vmAddr, s[j].vmAddr);
    }
  }

  /** A table has no shared slot among the regions that went into it. */
  lemma TableKeepsAll(host: u64, given: seq<Region>, table: seq<Region>, g: Region, h: Region)
    requires IsTable(host, given, table) && g in given && h in given && Slot(g.vmAddr) == Slot(h.vmAddr)
    ensures g == h
  {
    assert Kept(table, g) && Kept(table, h);
  }

  /**
   For regions inside their own slots the aligned and the unaligned mapping give the same host address
   or the same error for every access of at least one byte.
   */
  lemma MappingsAgree(c: Settings, host: u64, allowZero: bool, given: seq<Region>, table: seq<Region>,
                      access: AccessType, vmAddr: u64, len: u64)
    requires Inside(given) && IsTable(host, given, table) && len >= 1
    requires allowZero || AboveZero(given)
    ensures Translate(c, AlignedFound(allowZero, table, vmAddr), access, vmAddr, len)
         == Translate(c, Found(SortedRegions(given), vmAddr), access, vmAddr, len)
  {
    hide VmToHost, AccessError, LastStart;
    var s := SortedRegions(given);
    SortedRegionsSorted(given);
    SameMembers(s, given);
    var found := LastStart(s, vmAddr);
    var slot := Slot(vmAddr);
    if slot < |table| && table[slot] in given && table[slot].vmAddr <= vmAddr {
      OwnRegionIsLast(host, given, table, s, vmAddr);
    } else {
      if slot < |table| {
        if table[slot] in given {
          StartsLater(table[slot], access, vmAddr, len);
        } else {
          FillerIsEmpty(host, slot, access, vmAddr, len);
        }
      }
      if found.Some? {
        EarlierRegionRefuses(host, given, table, s, access, vmAddr, len);
      }
    }
  }

  lemma StartsLater(r: Region, access: AccessType, vmAddr: u64, len: u64)
    requires vmAddr < r.vmAddr
    ensures VmToHost(r, access, vmAddr, len) == None
  {
  }

  /** The region of the address's own slot is the last one to start at or before the address. */
  lemma OwnRegionIsLast(host: u64, given: seq<Region>, table: seq<Region>, s: seq<Region>, vmAddr: u64)
    requires IsTable(host, given, table) && Sorted(s) && (forall r :: r in s <==> r in given)
    requires Slot(vmAddr) < |table| && table[Slot(vmAddr)] in given && table[Slot(vmAddr)].vmAddr <= vmAddr
    ensures Found(s, vmAddr) == Some(table[Slot(vmAddr)])
  {
    var g := table[Slot(vmAddr)];
    var k :| 0 <= k < |s| && s[k] == g;
    var found := LastStart(s, vmAddr);
    var i := found.value;
    assert k <= i;
    SlotsAscend(g.vmAddr, s[i].vmAddr);
    SlotsAscend(s[i].vmAddr, vmAddr);
    TableKeepsAll(host, given, table, g, s[i]);
  }

  /** Otherwise the last region to start before the address is in an earlier slot, and has ended. */
  lemma EarlierRegionRefuses(host: u64, given: seq<Region>, table: seq<Region>, s: seq<Region>,
                             access: AccessType, vmAddr: u64, len: u64)
    requires IsTable(host, given, table) && Inside(given) && len >= 1 && (forall r :: r in s <==> r in given)
    requires !(Slot(vmAddr) < |table| && table[Slot(vmAddr)] in given && table[Slot(vmAddr)].vmAddr <= vmAddr)
    requires LastStart(s, vmAddr).Some?
    ensures VmToHost(s[LastStart(s, vmAddr).value], access, vmAddr, len) == None
  {
    hide VmToHost;
    var r := s[LastStart(s, vmAddr).value];
    assert r in given && Kept(table, r) && InsideSlot(r);
    SlotsAscend(r.vmAddr, vmAddr);
    assert Slot(r.vmAddr) < Slot(vmAddr);
    assert (Slot(r.vmAddr) + 1) * SLOT <= Slot(vmAddr) * SLOT <= vmAddr;
    BehindRange(r, access, vmAddr, len);
  }
}
