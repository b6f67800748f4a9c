/**
 The unaligned memory mapping: sorted regions behind an Eytzinger index and a small ring cache,
 accessed with or without a handler that may replace the region of a failing access.
 */
module Mapping {
  import opened Options
  import opened Words
  import opened Regions
  import opened Eytzinger
  import opened Sorting
  import Arithmetic
  import Laws

  // ---------------------------------------------------------------- errors

  datatype MapError = StackAccessViolation(access: AccessType, vmAddr: u64, len: u64, frame: int)
    | AccessViolation(access: AccessType, vmAddr: u64, len: u64, name: string)
    | InvalidMemoryRegion(index: nat)

  /** The settings of a mapping that its answers depend on. */
  datatype Settings = Settings(maxCallDepth: int, stackFrameSize: int, manualStackFrameBump: bool,
                               disableAddressTranslation: bool)

  const MIN_SIGNED: int := -0x8000_0000_0000_0000

  /** Division that truncates toward zero; zero where the checked division of signed words fails. */
  function CheckedDiv(a: int, b: int): int {
    if b == 0 || (a == MIN_SIGNED && b == -1) then 0 else Arithmetic.Quotient(a, b)
  }

  function AccessError(c: Settings, access: AccessType, vmAddr: u64, len: u64): MapError {
    var distance := Arithmetic.Signed(Arithmetic.W64, vmAddr) - STACK_START;
    var frame := CheckedDiv(if distance < MIN_SIGNED then MIN_SIGNED else distance, c.stackFrameSize);
    var limit := if c.maxCallDepth < -1 - MIN_SIGNED then c.maxCallDepth + 1 else -1 - MIN_SIGNED;
    if !c.manualStackFrameBump && -1 <= frame < limit then StackAccessViolation(access, vmAddr, len, frame)
    else
      AccessViolation(access, vmAddr, len,
        match vmAddr / SLOT
        case 1 => "program"
        case 2 => "stack"
        case 3 => "heap"
        case 4 => "input"
        case _ => "unknown")
  }

  /** The signed distance of an address from the start of the stack, as far as a signed word reaches. */
  ghost function StackDistance(vmAddr: u64): int {
    var distance := Arithmetic.Signed(Arithmetic.W64, vmAddr) - 0x2_0000_0000;
    if distance < MIN_SIGNED then MIN_SIGNED else distance
  }

  /** The stack frame of an address counted from the start of the stack, zero where that cannot be computed. */
  ghost predicate IsFrame(c: Settings, vmAddr: u64, frame: int) {
    var distance := StackDistance(vmAddr);
    if c.stackFrameSize == 0 || (distance == MIN_SIGNED && c.stackFrameSize == -1) then frame == 0
    else exists rest :: Laws.Divides(distance, c.stackFrameSize, frame, rest)
  }

  /** A violation near the stack names the frame, unless frames are not fixed; any other names the region. */
  lemma AccessErrorLaw(c: Settings, access: AccessType, vmAddr: u64, len: u64) returns (frame: int)
    ensures IsFrame(c, vmAddr, frame)
    ensures var near := !c.manualStackFrameBump && -1 <= frame <= c.maxCallDepth && frame < 0x7FFF_FFFF_FFFF_FFFF;
      match AccessError(c, access, vmAddr, len)
      case StackAccessViolation(a, v, l, f) => near && a == access && v == vmAddr && l == len && f == frame
      case AccessViolation(a, v, l, name) =>
        && !near && a == access && v == vmAddr && l == len
        && name == (if vmAddr < 0x1_0000_0000 then "unknown" else if vmAddr < 0x2_0000_0000 then "program"
                    else if vmAddr < 0x3_0000_0000 then "stack" else if vmAddr < 0x4_0000_0000 then "heap"
                    else if vmAddr < 0x5_0000_0000 then "input" else "unknown")
      case InvalidMemoryRegion(_) => false
  {
    hide Arithmetic.Signed, Arithmetic.Quotient, Arithmetic.Remainder, Laws.Divides;
    var distance := StackDistance(vmAddr);
    frame := CheckedDiv(distance, c.stackFrameSize);
    if c.stackFrameSize != 0 && !(distance == MIN_SIGNED && c.stackFrameSize == -1) {
      Laws.DivisionLaw(distance, c.stackFrameSize);
      assert Laws.Divides(distance, c.stackFrameSize, frame, Arithmetic.Remainder(distance, c.stackFrameSize));
    }
  }

  // ---------------------------------------------------------------- the plain form

  /** Regions follow one another without overlap. */
  ghost predicate WellLaid(regions: seq<Region>) {
    forall i, j :: 0 <= i < j < |regions| ==> VmEnd(regions[i]) <= regions[j].vmAddr
  }

  lemma WellLaidIsSorted(regions: seq<Region>)
    requires WellLaid(regions)
    ensures Sorted(regions)
  {
    forall i, j | 0 <= i < j < |regions| ensures regions[i].vmAddr <= regions[j].vmAddr {
      assert regions[i].vmAddr <= VmEnd(regions[i]);
    }
  }

  /** Translation through the region that may contain the address. */
  function Translate(c: Settings, region: Option<Region>, access: AccessType, vmAddr: u64,
                     len: u64): Result<u64, MapError> {
    if c.disableAddressTranslation then Ok(vmAddr)
    else
      match region
      case None => Err(AccessError(c, access, vmAddr, len))
      case Some(r) =>
        match VmToHost(r, access, vmAddr, len)
        case Some(host) => Ok(host)
        case None => Err(AccessError(c, access, vmAddr, len))
  }

  function Found(regions: seq<Region>, vmAddr: u64): Option<Region> {
    match LastStart(regions, vmAddr)
    case None => None
    case Some(i) => Some(regions[i])
  }

  /** The start of the region behind `index`. */
  function NextStart(regions: seq<Region>, index: nat): u64 {
    if index + 1 < |regions| then regions[index + 1].vmAddr else MAX
  }

  predicate Replaceable(regions: seq<Region>, index: nat, region: Region) {
    index < |regions| && regions[index].vmAddr == region.vmAddr && VmEnd(region) <= NextStart(regions, index)
  }

  function Replaced(regions: seq<Region>, index: nat, region: Region): (Result<(), MapError>, seq<Region>) {
    if Replaceable(regions, index, region) then (Ok(()), regions[index := region])
    else (Err(InvalidMemoryRegion(index)), regions)
  }

  type Handler = (Region, u64, AccessType, u64, u64) -> Region

  /** An access that may call the handler and keep the region it returns. */
  function Handled(c: Settings, regions: seq<Region>, handler: Handler, access: AccessType, vmAddr: u64,
                   len: u64): (Result<u64, MapError>, seq<Region>) {
    if c.disableAddressTranslation then (Ok(vmAddr), regions)
    else
      match LastStart(regions, vmAddr)
      case None => (Err(AccessError(c, access, vmAddr, len)), regions)
      case Some(i) =>
        match VmToHost(regions[i], access, vmAddr, len)
        case Some(host) => (Ok(host), regions)
        case None =>
          var reserve := SaturatingSub(NextStart(regions, i), regions[i].vmAddr);
          var region := handler(regions[i], reserve, access, vmAddr, len);
          match VmToHost(region, access, vmAddr, len)
          case None => (Err(AccessError(c, access, vmAddr, len)), regions)
          case Some(host) =>
            match Replaced(regions, i, region)
            case (Ok(_), next) => (Ok(host), next)
            case (Err(e), next) => (Err(e), next)
  }

  /** No replacement, whatever the handler returns, disturbs the layout or moves a region. */
  lemma ReplacedKeepsLayout(regions: seq<Region>, index: nat, region: Region)
    requires WellLaid(regions)
    ensures var next := Replaced(regions, index, region).1;
      WellLaid(next) && |next| == |regions| && forall i :: 0 <= i < |regions| ==> next[i].vmAddr == regions[i].vmAddr
  {
    var next := Replaced(regions, index, region).1;
    if Replaceable(regions, index, region) {
      forall i, j | 0 <= i < j < |next| ensures VmEnd(next[i]) <= next[j].vmAddr {
        if i == index && index + 1 < j {
          assert regions[index + 1].vmAddr <= VmEnd(regions[index + 1]) <= regions[j].vmAddr;
        }
      }
    }
  }

  lemma HandledKeepsLayout(c: Settings, regions: seq<Region>, handler: Handler, access: AccessType, vmAddr: u64,
                           len: u64)
    requires WellLaid(regions)
    ensures var next := Handled(c, regions, handler, access, vmAddr, len).1;
      WellLaid(next) && |next| == |regions| && forall i :: 0 <= i < |regions| ==> next[i].vmAddr == regions[i].vmAddr
  {
    hide WellLaid, VmToHost, LastStart;
    forall index: nat, region: Region
      ensures WellLaid(Replaced(regions, index, region).1) && |Replaced(regions, index, region).1| == |regions|
      ensures forall i :: 0 <= i < |regions| ==> Replaced(regions, index, region).1[i].vmAddr == regions[i].vmAddr
    {
      ReplacedKeepsLayout(regions, index, region);
    }
  }

  /** A region can take a place where it starts as the old one does and ends before the next one starts. */
  ghost predicate TakesPlace(regions: seq<Region>, index: nat, region: Region) {
    && index < |regions| && regions[index].vmAddr == region.vmAddr
    && (index + 1 < |regions| ==> VmEnd(region) <= regions[index + 1].vmAddr)
  }

  /** One place holds a new region, and the others what they held. */
  ghost predicate OnlyAt(regions: seq<Region>, next: seq<Region>, index: nat, region: Region) {
    && |next| == |regions| && index < |next| && next[index] == region
    && forall i :: 0 <= i < |regions| && i != index ==> next[i] == regions[i]
  }

  lemma ReplacedLaw(regions: seq<Region>, index: nat, region: Region)
    ensures var (r, next) := Replaced(regions, index, region);
      && (r.Ok? <==> TakesPlace(regions, index, region))
      && (r.Ok? ==> OnlyAt(regions, next, index, region))
      && (r.Err? ==> next == regions && r.error == InvalidMemoryRegion(index))
  {
    hide VmEnd;
    assert VmEnd(region) <= MAX;
  }

  /** The search looks at start addresses only. */
  lemma {:induction false} StartsDecide(regions: seq<Region>, next: seq<Region>, vmAddr: u64)
    requires |next| == |regions| && forall i :: 0 <= i < |regions| ==> next[i].vmAddr == regions[i].vmAddr
    ensures LastStart(next, vmAddr) == LastStart(regions, vmAddr)
  {
    hide LastStart;
    var a, b := LastStart(regions, vmAddr), LastStart(next, vmAddr);
    if a.Some? && b.Some? {
      assert a.value >= b.value && b.value >= a.value;
    }
  }

  /** What a handler can reach: from the start of the region to the start of the next one. */
  ghost function Reserve(regions: seq<Region>, index: nat): int
    requires index < |regions|
  {
    (if index + 1 < |regions| then regions[index + 1].vmAddr else MAX) - regions[index].vmAddr
  }

  /** An access through the region it finds, or else through the one that the handler makes of it. */
  lemma HandledLaw(c: Settings, regions: seq<Region>, handler: Handler, access: AccessType, vmAddr: u64, len: u64)
    requires WellLaid(regions)
    ensures var (r, next) := Handled(c, regions, handler, access, vmAddr, len); var found := LastStart(regions, vmAddr);
      if c.disableAddressTranslation then r == Ok(vmAddr) && next == regions
      else if found.None? then r == Err(AccessError(c, access, vmAddr, len)) && next == regions
      else
        var i := found.value; var host := VmToHost(regions[i], access, vmAddr, len);
        if host.Some? then r == Ok(host.value) && next == regions
        else
          && 0 <= Reserve(regions, i) <= MAX
          && var region := handler(regions[i], Reserve(regions, i), access, vmAddr, len);
          var again := VmToHost(region, access, vmAddr, len);
          if again.None? then r == Err(AccessError(c, access, vmAddr, len)) && next == regions
          else if !TakesPlace(regions, i, region) then r == Err(InvalidMemoryRegion(i)) && next == regions
          else r == Ok(again.value) && OnlyAt(regions, next, i, region) && LastStart(next, vmAddr) == Some(i)
  {
    hide VmToHost, LastStart, VmEnd, Replaced, AccessError;
    var found := LastStart(regions, vmAddr);
    if !c.disableAddressTranslation && found.Some? && VmToHost(regions[found.value], access, vmAddr, len).None? {
      var i := found.value;
      if i + 1 < |regions| {
        StartsBeforeEnd(regions[i]);
        assert VmEnd(regions[i]) <= regions[i + 1].vmAddr;
      }
      assert SaturatingSub(NextStart(regions, i), regions[i].vmAddr) == Reserve(regions, i);
      var region := handler(regions[i], Reserve(regions, i), access, vmAddr, len);
      ReplacedLaw(regions, i, region);
      if TakesPlace(regions, i, region) {
        StartsDecide(regions, Replaced(regions, i, region).1, vmAddr);
      }
    }
  }

  /** A translated access is in the region that is found for it afterwards. */
  lemma HandledIsMapped(c: Settings, regions: seq<Region>, handler: Handler, access: AccessType, vmAddr: u64, len: u64)
    requires WellLaid(regions) && !c.disableAddressTranslation
    ensures var (r, next) := Handled(c, regions, handler, access, vmAddr, len);
      && (r.Err? ==> next == regions)
      && (r.Ok? ==> var found := LastStart(next, vmAddr);
            found.Some? && VmToHost(next[found.value], access, vmAddr, len) == Some(r.value))
  {
    hide VmToHost, LastStart, Handled, WellLaid, AccessError;
    HandledLaw(c, regions, handler, access, vmAddr, len);
  }

  // ---------------------------------------------------------------- the cache

  datatype Entry = Entry(start: u64, end: u64, index: nat)

  predicate Contains(e: Entry, vmAddr: u64) {
    e.start <= vmAddr < e.end
  }

  const EMPTY: Entry := Entry(0, 0, 0)

  /** The index stored with the first entry that contains the address. */
  function FirstHit(entries: seq<Entry>, vmAddr: u64): Option<nat> {
    if entries == [] then None
    else if Contains(entries[0], vmAddr) then Some(entries[0].index)
    else FirstHit(entries[1..], vmAddr)
  }

  /** A ring read from `head` on. */
  function Ring<T>(entries: seq<T>, head: nat): (s: seq<T>)
    requires head < |entries|
    ensures |s| == |entries|
  {
    entries[head..] + entries[..head]
  }

  /** Writing in front of the head is inserting in front of the ring, without its last entry. */
  lemma RingInserts<T>(entries: seq<T>, head: nat, e: T)
    requires |entries| == 4 && head < 4
    ensures Ring(entries[(head + 3) % 4 := e], (head + 3) % 4) == [e] + Ring(entries, head)[..3]
  {
    var next := (head + 3) % 4;
    var s, t := Ring(entries[next := e], next), [e] + Ring(entries, head)[..3];
    if head == 0 {
      assert s == t;
    } else if head == 1 {
      assert s == t;
    } else if head == 2 {
      assert s == t;
    } else {
      assert s == t;
    }
  }

  /** Four entries in a ring that is written backwards. */
  class MappingCache {
    const entries: array<Entry>
    var head: nat

    ghost predicate Valid()
      reads this
    {
      entries.Length == 4 && head < 4
    }

    /** The entries, the most recent one first. */
    ghost function Recent(): (s: seq<Entry>)
      requires Valid()
      reads this, entries
      ensures |s| == 4
    {
      Ring(entries[..], head)
    }

    constructor ()
      ensures Valid() && Recent() == [EMPTY, EMPTY, EMPTY, EMPTY] && fresh(entries)
    {
      entries := new Entry[4](_ => EMPTY);
      head := 0;
    }

    method Find(vmAddr: u64) returns (r: Option<nat>)
      requires Valid()
      ensures r == FirstHit(Recent(), vmAddr)
    {
      var i := 0;
      while i < 4
        invariant 0 <= i <= 4 && FirstHit(Recent(), vmAddr) == FirstHit(Recent()[i..], vmAddr)
      {
        var index := (head + i) % 4;
        assert Recent()[i] == entries[index] && Recent()[i..][0] == Recent()[i]
               && Recent()[i..][1..] == Recent()[i + 1..];
        if Contains(entries[index], vmAddr) {
          return Some(entries[index].index);
        }
        i := i + 1;
      }
      r := None;
    }

    /** A new entry comes first and pushes out the oldest. */
    method Insert(e: Entry)
      requires Valid()
      modifies this, entries
      ensures Valid() && Recent() == [e] + old(Recent()[..3])
    {
      ghost var was, at := entries[..], head;
      head := (head + 3) % 4;
      entries[head] := e;
      assert entries[..] == was[head := e];
      RingInserts(was, at, e);
      assert Recent() == Ring(entries[..], head) && old(Recent()) == Ring(was, at);
    }

    method Flush()
      requires Valid()
      modifies this, entries
      ensures Valid() && Recent() == [EMPTY, EMPTY, EMPTY, EMPTY]
    {
      forall i | 0 <= i < 4 {
        entries[i] := EMPTY;
      }
      head := 0;
    }
  }

  /** Entries are empty or describe a region as it is now. */
  ghost predicate Current(entries: seq<Entry>, regions: seq<Region>) {
    forall k :: 0 <= k < |entries| ==>
      entries[k] == EMPTY ||
      (entries[k].index < |regions| && var r := regions[entries[k].index];
        entries[k] == Entry(r.vmAddr, VmEnd(r), entries[k].index))
  }

  /** A cached answer is the answer of the uncached search. */
  lemma {:induction false} HitIsLastStart(entries: seq<Entry>, regions: seq<Region>, vmAddr: u64)
    requires WellLaid(regions) && Current(entries, regions)
    ensures var r := FirstHit(entries, vmAddr); r.Some? ==> r == LastStart(regions, vmAddr)
  {
    hide VmEnd;
    if entries != [] {
      HitIsLastStart(entries[1..], regions, vmAddr);
      if Contains(entries[0], vmAddr) {
        var i := entries[0].index;
        forall j | i < j < |regions| ensures regions[j].vmAddr > vmAddr {
          assert VmEnd(regions[i]) <= regions[j].vmAddr;
        }
      }
    }
  }

  // ---------------------------------------------------------------- the mapping

  function ByStart(): (Region, Region) -> bool {
    (a: Region, b: Region) => a.vmAddr <= b.vmAddr
  }

  /** The regions by ascending start address. */
  function SortedRegions(regions: seq<Region>): seq<Region> {
    SortBy(ByStart(), regions)
  }

  lemma SortedRegionsSorted(regions: seq<Region>)
    ensures Sorted(SortedRegions(regions)) && multiset(SortedRegions(regions)) == multiset(regions)
    ensures |SortedRegions(regions)| == |regions|
  {
    SortSorts(ByStart(), regions);
    SortPermutes(ByStart(), regions);
    var s := SortedRegions(regions);
    forall i, j | 0 <= i < j < |s| ensures s[i].vmAddr <= s[j].vmAddr {
      assert ByStart()(s[i], s[j]);
    }
  }

  /** One request to a mapping, possibly with a handler of its own, and the answer to it. */
  datatype Request = Lookup(vmAddr: u64) | Map(access: AccessType, vmAddr: u64, len: u64)
    | MapOrHandle(handler: Handler, access: AccessType, vmAddr: u64, len: u64) | Replace(index: nat, region: Region)

  datatype Answer =
    | Index(found: Option<nat>)
    | Address(mapped: Result<u64, MapError>)
    | Done(replaced: Result<(), MapError>)

  /** The answer to a request, and the regions after it, by plain scans. */
  function Answered(c: Settings, regions: seq<Region>, q: Request): (Answer, seq<Region>) {
    match q
    case Lookup(vmAddr) => (Index(LastStart(regions, vmAddr)), regions)
    case Map(access, vmAddr, len) => (Address(Translate(c, Found(regions, vmAddr), access, vmAddr, len)), regions)
    case MapOrHandle(handler, access, vmAddr, len) =>
      var (result, next) := Handled(c, regions, handler, access, vmAddr, len);
      (Address(result), next)
    case Replace(index, region) =>
      var (result, next) := Replaced(regions, index, region);
      (Done(result), next)
  }

  function Replay(c: Settings, regions: seq<Region>, history: seq<Request>): (seq<Answer>, seq<Region>) {
    if |history| == 0 then ([], regions)
    else
      var (answers, current) := Replay(c, regions, history[..|history| - 1]);
      var (answer, next) := Answered(c, current, history[|history| - 1]);
      (answers + [answer], next)
  }

  class UnalignedMapping {
    const settings: Settings
    var regions: seq<Region>
    const addresses: array<u64>
    const lookup: array<nat>
    const cache: MappingCache

    ghost predicate Sized()
      reads this, cache
    {
      addresses.Length == lookup.Length == |regions| && cache.Valid()
    }

    /** The layout holds, the index is in step with the regions, and the cache is current. */
    ghost predicate Valid()
      reads this, addresses, lookup, cache, cache.entries
    {
      && Sized() && WellLaid(regions) && IsIndex(regions, addresses[..], lookup[..])
      && Current(cache.Recent(), regions)
    }

    constructor (settings: Settings, regions: seq<Region>)
      ensures Sized() && this.settings == settings && this.regions == regions
      ensures cache.Recent() == [EMPTY, EMPTY, EMPTY, EMPTY]
      ensures fresh(addresses) && fresh(lookup) && fresh(cache) && fresh(cache.entries)
    {
      this.settings, this.regions := settings, regions;
      addresses := new u64[|regions|](_ => 0);
      lookup := new nat[|regions|](_ => 0);
      cache := new MappingCache();
    }

    /** Sorts the regions and builds the index, unless two neighbours overlap. */
    method Initialize() returns (r: Result<(), MapError>)
      requires Sized() && cache.Recent() == [EMPTY, EMPTY, EMPTY, EMPTY]
      modifies this`regions, addresses, lookup
      ensures regions == SortedRegions(old(regions))
      ensures r.Ok? <==> WellLaid(regions)
      ensures r.Ok? ==> Valid()
      ensures r.Err? ==> exists k: nat ::
        (r == Err(InvalidMemoryRegion(k)) && 1 <= k < |regions|
         && VmEnd(regions[k - 1]) > regions[k].vmAddr && WellLaid(regions[..k]))
    {
      hide SortedRegions, WellLaid, VmEnd, IsIndex, Current;
      SortedRegionsSorted(regions);
      regions := SortedRegions(regions);
      var index := 1;
      if |regions| > 0 {
        NothingIsLaid(regions[..1]);
      }
      while index < |regions|
        invariant 1 <= index && (index <= |regions| || index == 1) && regions == SortedRegions(old(regions))
        invariant index <= |regions| ==> WellLaid(regions[..index])
        invariant |regions| == old(|regions|)
      {
        if VmEnd(regions[index - 1]) > regions[index].vmAddr {
          OverlapIsNotLaid(regions, index);
          return Err(InvalidMemoryRegion(index));
        }
        LaysOneMore(regions, index);
        index := index + 1;
      }
      if |regions| == 0 {
        NothingIsLaid(regions);
      } else {
        assert regions[..index] == regions;
      }
      NothingIsCurrent(cache.Recent(), regions);
      Build(regions, addresses, lookup);
      r := Ok(());
    }

    /** The region that may contain the address: from the cache, or else from the index, filling the cache. */
    method FindRegion(vmAddr: u64) returns (r: Option<nat>)
      requires Valid()
      modifies cache, cache.entries
      ensures Valid() && r == LastStart(regions, vmAddr)
    {
      WellLaidIsSorted(regions);
      r := cache.Find(vmAddr);
      HitIsLastStart(cache.Recent(), regions, vmAddr);
      if r == None {
        r := Search(regions, addresses, lookup, vmAddr);
        if r.Some? {
          cache.Insert(Entry(regions[r.value].vmAddr, VmEnd(regions[r.value]), r.value));
        }
      }
    }

    method ReplaceRegion(index: nat, region: Region) returns (r: Result<(), MapError>)
      requires Valid()
      modifies this`regions, cache, cache.entries
      ensures Valid() && (r, regions) == Replaced(old(regions), index, region)
      ensures r.Ok? <==> TakesPlace(old(regions), index, region)
      ensures r.Ok? ==> OnlyAt(old(regions), regions, index, region)
      ensures r.Err? ==> regions == old(regions) && r.error == InvalidMemoryRegion(index)
    {
      ReplacedKeepsLayout(regions, index, region);
      ReplacedLaw(regions, index, region);
      if index >= |regions| || regions[index].vmAddr != region.vmAddr || VmEnd(region) > NextStart(regions, index) {
        return Err(InvalidMemoryRegion(index));
      }
      KeepsIndex(regions, regions[index := region], addresses[..], lookup[..]);
      regions := regions[index := region];
      cache.Flush();
      r := Ok(());
    }

    method MapAddress(access: AccessType, vmAddr: u64, len: u64) returns (r: Result<u64, MapError>)
      requires Valid()
      modifies cache, cache.entries
      ensures Valid() && r == Translate(settings, Found(regions, vmAddr), access, vmAddr, len)
    {
      if settings.disableAddressTranslation {
        return Ok(vmAddr);
      }
      var found := FindRegion(vmAddr);
      if found.Some? {
        var host := VmToHost(regions[found.value], access, vmAddr, len);
        if host.Some? {
          return Ok(host.value);
        }
      }
      r := Err(AccessError(settings, access, vmAddr, len));
    }

    method MapWithHandler(handler: Handler, access: AccessType, vmAddr: u64, len: u64)
      returns (r: Result<u64, MapError>)
      requires Valid()
      modifies this`regions, cache, cache.entries
      ensures Valid() && (r, regions) == Handled(settings, old(regions), handler, access, vmAddr, len)
      ensures settings.disableAddressTranslation ==> r == Ok(vmAddr) && regions == old(regions)
      ensures r.Err? ==> regions == old(regions)
      ensures r.Ok? && !settings.disableAddressTranslation ==> var found := LastStart(regions, vmAddr);
        found.Some? && VmToHost(regions[found.value], access, vmAddr, len) == Some(r.value)
    {
      if !settings.disableAddressTranslation {
        HandledIsMapped(settings, regions, handler, access, vmAddr, len);
      }
      if settings.disableAddressTranslation {
        return Ok(vmAddr);
      }
      var found := FindRegion(vmAddr);
      if found.Some? {
        var index := found.value;
        var host := VmToHost(regions[index], access, vmAddr, len);
        if host.Some? {
          return Ok(host.value);
        }
        var maxLen := SaturatingSub(NextStart(regions, index), regions[index].vmAddr);
        var region := handler(regions[index], maxLen, access, vmAddr, len);
        host := VmToHost(region, access, vmAddr, len);
        if host.Some? {
          var replaced := ReplaceRegion(index, region);
          return if replaced.Err? then Err(replaced.error) else Ok(host.value);
        }
      }
      r := Err(AccessError(settings, access, vmAddr, len));
    }

    /** Every history of requests gets the answers that plain scans give, and keeps the mapping valid. */
    method Serve(history: seq<Request>) returns (answers: seq<Answer>)
      requires Valid()
      modifies this`regions, cache, cache.entries
      ensures Valid() && (answers, regions) == Replay(settings, old(regions), history)
    {
      answers := [];
      for i := 0 to |history|
        invariant Valid() && (answers, regions) == Replay(settings, old(regions), history[..i])
      {
        assert history[..i + 1][..i] == history[..i];
        match history[i]
        case Lookup(vmAddr) =>
          var found := FindRegion(vmAddr);
          answers := answers + [Index(found)];
        case Map(access, vmAddr, len) =>
          var result := MapAddress(access, vmAddr, len);
          answers := answers + [Address(result)];
        case MapOrHandle(handler, access, vmAddr, len) =>
          var result := MapWithHandler(handler, access, vmAddr, len);
          answers := answers + [Address(result)];
        case Replace(index, region) =>
          var result := ReplaceRegion(index, region);
          answers := answers + [Done(result)];
      }
      assert history[..|history|] == history;
    }
  }

  lemma OverlapIsNotLaid(regions: seq<Region>, k: nat)
    requires 1 <= k < |regions| && VmEnd(regions[k - 1]) > regions[k].vmAddr
    ensures !WellLaid(regions)
  {
    hide VmEnd;
  }

  lemma NothingIsLaid(regions: seq<Region>)
    requires |regions| <= 1
    ensures WellLaid(regions)
  {
  }

  lemma NothingIsCurrent(entries: seq<Entry>, regions: seq<Region>)
    requires entries == [EMPTY, EMPTY, EMPTY, EMPTY]
    ensures Current(entries, regions)
  {
  }

  lemma LaysOneMore(regions: seq<Region>, k: nat)
    requires 1 <= k < |regions| && WellLaid(regions[..k]) && VmEnd(regions[k - 1]) <= regions[k].vmAddr
    ensures WellLaid(regions[..k + 1])
  {
    hide VmEnd;
    var front := regions[..k];
    forall i, j | 0 <= i < j < k + 1 ensures VmEnd(regions[i]) <= regions[j].vmAddr {
      if j < k {
        assert VmEnd(front[i]) <= front[j].vmAddr;
      } else if i < k - 1 {
        assert VmEnd(front[i]) <= front[k - 1].vmAddr;
        StartsBeforeEnd(regions[k - 1]);
      }
    }
  }

  lemma StartsBeforeEnd(r: Region)
    ensures r.vmAddr <= VmEnd(r)
  {
  }

  /** The index depends on the start addresses only. */
  lemma KeepsIndex(regions: seq<Region>, next: seq<Region>, addresses: seq<u64>, lookup: seq<nat>)
    requires IsIndex(regions, addresses, lookup) && |next| == |regions|
    requires forall i :: 0 <= i < |regions| ==> next[i].vmAddr == regions[i].vmAddr
    ensures IsIndex(next, addresses, lookup)
  {
    hide Position;
    forall x: nat | x < |next| ensures IsSlot(next, addresses, lookup, x) {
      assert IsSlot(regions, addresses, lookup, x);
    }
  }
}
