/**
 Where the branches of compiled code lead: backward branches get their displacement at once, forward branches when
 all code is emitted. The code around the branches is arbitrary.
 */
module JumpResolution {
  import opened Options
  import opened Words
  import opened Arithmetic
  import opened Instructions

  /** A piece of code without branches to guest instructions, or a branch: its opcode and a displacement follow. */
  datatype Item = Code(bytes: seq<byte>) | Branch(opcode: seq<byte>, target: nat)

  /** The code of one guest instruction; a wide one takes two places. */
  datatype Unit = Unit(items: seq<Item>, wide: bool)

  datatype Relocation = Relocation(location: nat, targetPc: nat)

  /** A branch in the code: where its displacement ends, and the guest instruction it leads to. */
  datatype Site = Site(end: nat, target: nat)

  datatype CompileError = ExhaustedTextSegment(pc: nat)

  // ---------------------------------------------------------------- where things are

  function ItemSize(item: Item): nat {
    if item.Code? then |item.bytes| else |item.opcode| + 4
  }

  function ItemsSize(items: seq<Item>): nat {
    if |items| == 0 then 0 else ItemsSize(items[..|items| - 1]) + ItemSize(items[|items| - 1])
  }

  function ItemSites(items: seq<Item>, at: nat): seq<Site> {
    if |items| == 0 then []
    else
      var front, last := items[..|items| - 1], items[|items| - 1];
      ItemSites(front, at) + (if last.Branch? then [Site(at + ItemsSize(items), last.target)] else [])
  }

  /** Where the code of a plan ends, when it starts at `at`. */
  function PlanEnd(plan: seq<Unit>, at: nat): nat {
    if |plan| == 0 then at else PlanEnd(plan[..|plan| - 1], at) + ItemsSize(plan[|plan| - 1].items)
  }

  /** The branches of a plan. */
  function Sites(plan: seq<Unit>, at: nat): seq<Site> {
    if |plan| == 0 then []
    else Sites(plan[..|plan| - 1], at) + ItemSites(plan[|plan| - 1].items, PlanEnd(plan[..|plan| - 1], at))
  }

  /** The start of every guest instruction's code; the second place of a wide one leads to an error handler. */
  function Starts(plan: seq<Unit>, at: nat, unsupported: nat): seq<nat> {
    if |plan| == 0 then []
    else
      var front := plan[..|plan| - 1];
      Starts(front, at, unsupported)
        + (if plan[|plan| - 1].wide then [PlanEnd(front, at), unsupported] else [PlanEnd(front, at)])
  }

  /** The bytes of a plan, with zeros for the displacements. */
  function ItemBytes(item: Item): seq<byte> {
    if item.Code? then item.bytes else item.opcode + [0, 0, 0, 0]
  }

  function ItemsBytes(items: seq<Item>): seq<byte> {
    if |items| == 0 then [] else ItemsBytes(items[..|items| - 1]) + ItemBytes(items[|items| - 1])
  }

  function PlanBytes(plan: seq<Unit>): seq<byte> {
    if |plan| == 0 then [] else PlanBytes(plan[..|plan| - 1]) + ItemsBytes(plan[|plan| - 1].items)
  }

  /** A byte that belongs to no displacement. */
  ghost predicate Outside(sites: seq<Site>, x: nat) {
    forall i :: 0 <= i < |sites| ==> x < sites[i].end - 4 || sites[i].end <= x
  }

  /** The text is as planned but for the displacements. */
  ghost predicate Matches(text: seq<byte>, image: seq<byte>, sites: seq<Site>) {
    |image| <= |text| && forall x: nat :: x < |image| && Outside(sites, x) ==> text[x] == image[x]
  }

  // ---------------------------------------------------------------- displacements

  function ReadDisplacement(text: seq<byte>, at: nat): int
    requires at + 4 <= |text|
  {
    Signed(W32, Join(0x1_0000, Join(0x100, text[at], text[at + 1]), Join(0x100, text[at + 2], text[at + 3])))
  }

  function DisplacementBytes(x: int): (b: seq<byte>)
    ensures |b| == 4
  {
    var low, high := Half(x), Half(x / 0x1_0000);
    [low.0, low.1, high.0, high.1]
  }

  lemma ReadsBack(text: seq<byte>, at: nat, x: int)
    requires at + 4 <= |text| && text[at..at + 4] == DisplacementBytes(x) && -0x8000_0000 <= x < 0x8000_0000
    ensures ReadDisplacement(text, at) == x
  {
    hide Half, Join, Signed;
    var b := text[at..at + 4];
    assert b[0] == text[at] && b[1] == text[at + 1] && b[2] == text[at + 2] && b[3] == text[at + 3];
    HalfRoundTrip(x);
    HalfRoundTrip(x / 0x1_0000);
    HalvesJoin(x);
  }

  /** A branch leads to the code of its target. */
  ghost predicate Lands(text: seq<byte>, pcs: seq<nat>, s: Site) {
    4 <= s.end <= |text| && s.target < |pcs| && s.end + ReadDisplacement(text, s.end - 4) == pcs[s.target]
  }

  ghost predicate Pending(jumps: seq<Relocation>, s: Site) {
    s.end >= 4 && Relocation(s.end - 4, s.target) in jumps
  }

  /** Branches do not share bytes. */
  ghost predicate Spaced(sites: seq<Site>) {
    forall i, j :: 0 <= i < j < |sites| ==> sites[i].end + 5 <= sites[j].end
  }

  /** A branch lands, at a place that is filled already, or is pending. */
  ghost predicate Settled(text: seq<byte>, pcs: seq<nat>, jumps: seq<Relocation>, s: Site) {
    Pending(jumps, s) || (Lands(text, pcs, s) && pcs[s.target] != 0)
  }

  ghost predicate Recorded(sites: seq<Site>, r: Relocation) {
    Site(r.location + 4, r.targetPc) in sites
  }

  ghost predicate InRange(s: Site, pcs: seq<nat>, offset: nat) {
    4 <= s.end <= offset && s.target < |pcs|
  }

  /** All branches so far are settled, and nothing else is pending. */
  ghost predicate Linked(text: seq<byte>, pcs: seq<nat>, jumps: seq<Relocation>, sites: seq<Site>, offset: nat) {
    && Spaced(sites)
    && (forall s {:trigger InRange(s, pcs, offset)} :: s in sites ==> InRange(s, pcs, offset))
    && (forall s {:trigger Settled(text, pcs, jumps, s)} :: s in sites ==> Settled(text, pcs, jumps, s))
    && (forall r {:trigger Recorded(sites, r)} :: r in jumps ==> Recorded(sites, r))
  }

  lemma LandsStill(text: seq<byte>, next: seq<byte>, pcs: seq<nat>, s: Site)
    requires Lands(text, pcs, s) && s.end <= |next| && text[s.end - 4..s.end] == next[s.end - 4..s.end]
    ensures Lands(next, pcs, s)
  {
    hide Signed, Join;
    var a, b := text[s.end - 4..s.end], next[s.end - 4..s.end];
    assert forall k :: 0 <= k < 4 ==> text[s.end - 4 + k] == a[k] && next[s.end - 4 + k] == b[k];
    assert text[s.end - 4] == next[s.end - 4] && text[s.end - 3] == next[s.end - 3];
    assert text[s.end - 2] == next[s.end - 2] && text[s.end - 1] == next[s.end - 1];
  }

  /** Code that is appended behind leaves all branches as they are. */
  lemma LinkedStays(text: seq<byte>, next: seq<byte>, pcs: seq<nat>, jumps: seq<Relocation>, sites: seq<Site>,
                    offset: nat, later: nat)
    requires Linked(text, pcs, jumps, sites, offset) && offset <= later && offset <= |text| == |next|
    requires text[..offset] == next[..offset]
    ensures Linked(next, pcs, jumps, sites, later)
  {
    hide Lands, Spaced, Recorded;
    forall s | s in sites ensures InRange(s, pcs, later) && Settled(next, pcs, jumps, s) {
      assert InRange(s, pcs, offset) && Settled(text, pcs, jumps, s);
      if !Pending(jumps, s) {
        assert text[s.end - 4..s.end] == text[..offset][s.end - 4..s.end] == next[..offset][s.end - 4..s.end] ==
          next[s.end - 4..s.end];
        LandsStill(text, next, pcs, s);
      }
    }
  }

  /** Filling places that were empty leaves all branches as they are. */
  lemma LinkedFill(text: seq<byte>, pcs: seq<nat>, next: seq<nat>, jumps: seq<Relocation>, sites: seq<Site>,
                   offset: nat)
    requires Linked(text, pcs, jumps, sites, offset) && |pcs| == |next|
    requires forall t :: 0 <= t < |pcs| && pcs[t] != 0 ==> next[t] == pcs[t]
    ensures Linked(text, next, jumps, sites, offset)
  {
    hide Spaced, ReadDisplacement, Recorded;
    forall s | s in sites ensures InRange(s, next, offset) && Settled(text, next, jumps, s) {
      assert InRange(s, pcs, offset) && Settled(text, pcs, jumps, s);
    }
  }

  /** A new branch, pending or landing. */
  lemma LinkedSite(text: seq<byte>, pcs: seq<nat>, jumps: seq<Relocation>, sites: seq<Site>, offset: nat, s: Site,
                   more: seq<Relocation>)
    requires Linked(text, pcs, jumps, sites, offset) && s.end >= offset + 5 && s.target < |pcs|
    requires more == (if pcs[s.target] == 0 then [Relocation(s.end - 4, s.target)] else [])
    requires pcs[s.target] != 0 ==> Lands(text, pcs, s)
    ensures Linked(text, pcs, jumps + more, sites + [s], s.end)
  {
    hide Lands;
    var all, both := sites + [s], jumps + more;
    forall i, j | 0 <= i < j < |all| ensures all[i].end + 5 <= all[j].end {
      assert InRange(sites[i], pcs, offset);
    }
    forall r | r in both ensures Recorded(all, r) {
      if r in jumps {
        assert Recorded(sites, r);
      } else {
        assert r == Relocation(s.end - 4, s.target);
      }
    }
    forall x | x in all ensures InRange(x, pcs, s.end) && Settled(text, pcs, both, x) {
      if x in sites {
        assert InRange(x, pcs, offset) && Settled(text, pcs, jumps, x);
      } else if pcs[s.target] == 0 {
        assert both[|jumps|] == Relocation(s.end - 4, s.target);
      }
    }
  }

  /** After resolving the first pending branch, one less is pending. */
  lemma LinkedResolve(text: seq<byte>, next: seq<byte>, pcs: seq<nat>, jumps: seq<Relocation>, sites: seq<Site>,
                      offset: nat)
    requires Linked(text, pcs, jumps, sites, offset) && |jumps| > 0 && offset <= |text| == |next|
    requires forall t :: 0 <= t < |pcs| ==> pcs[t] != 0
    requires var at := jumps[0].location;
      at + 4 <= |text| && next[..at] == text[..at] && next[at + 4..] == text[at + 4..]
    requires Lands(next, pcs, Site(jumps[0].location + 4, jumps[0].targetPc))
    ensures Linked(next, pcs, jumps[1..], sites, offset)
  {
    hide Lands;
    var first, rest := jumps[0], jumps[1..];
    forall r | r in rest ensures Recorded(sites, r) {
      assert r in jumps && Recorded(sites, r);
    }
    assert first in jumps && Recorded(sites, first);
    var here := Site(first.location + 4, first.targetPc);
    forall s | s in sites ensures Settled(next, pcs, rest, s) {
      assert InRange(s, pcs, offset) && Settled(text, pcs, jumps, s);
      if !Pending(rest, s) && s != here {
        assert !Pending(jumps, s) by {
          assert jumps == [first] + rest;
        }
        SitesApart(sites, s, here);
        SameWindow(text, next, first.location, s.end);
        LandsStill(text, next, pcs, s);
      }
    }
  }

  lemma SitesApart(sites: seq<Site>, s: Site, t: Site)
    requires Spaced(sites) && s in sites && t in sites && s != t
    ensures s.end + 5 <= t.end || t.end + 5 <= s.end
  {
    var i :| 0 <= i < |sites| && sites[i] == s;
    var j :| 0 <= j < |sites| && sites[j] == t;
  }

  /** Outside of the four bytes at `at` nothing has changed. */
  lemma SameWindow(text: seq<byte>, next: seq<byte>, at: nat, end: nat)
    requires at + 4 <= |text| == |next| && next[..at] == text[..at] && next[at + 4..] == text[at + 4..]
    requires 4 <= end <= |text| && (end <= at || at + 8 <= end)
    ensures text[end - 4..end] == next[end - 4..end]
  {
    if end <= at {
      assert text[end - 4..end] == text[..at][end - 4..end];
      assert next[end - 4..end] == next[..at][end - 4..end];
    } else {
      assert text[end - 4..end] == text[at + 4..][end - 8 - at..end - 4 - at];
      assert next[end - 4..end] == next[at + 4..][end - 8 - at..end - 4 - at];
    }
  }

  class JitCompiler {
    const text: array<byte>
    const pcSection: array<nat>
    var jumps: seq<Relocation>
    var offset: nat

    /** Sections of the given sizes; all places of the pc section are zero. */
    constructor (codeSize: nat, pcs: nat)
      ensures text.Length == codeSize && pcSection.Length == pcs && fresh(text) && fresh(pcSection)
      ensures offset == 0 && jumps == [] && forall t :: 0 <= t < pcs ==> pcSection[t] == 0
    {
      text := new byte[codeSize](_ => 0);
      pcSection := new nat[pcs](_ => 0);
      jumps, offset := [], 0;
    }

    /** The text so far is `image` but for the displacements at `sites`. */
    ghost predicate Valid(sites: seq<Site>, image: seq<byte>)
      reads this, text, pcSection
    {
      && offset == |image| <= text.Length <= 0x7FFF_FFFF && Matches(text[..], image, sites)
      && (forall t :: 0 <= t < pcSection.Length ==> pcSection[t] <= offset)
      && Linked(text[..], pcSection[..], jumps, sites, offset)
    }

    method EmitBytes(bytes: seq<byte>)
      requires offset + |bytes| <= text.Length
      modifies this`offset, text
      ensures offset == old(offset) + |bytes| && text[..old(offset)] == old(text[..offset])
      ensures text[old(offset)..offset] == bytes
    {
      forall i | 0 <= i < |bytes| {
        text[offset + i] := bytes[i];
      }
      offset := offset + |bytes|;
    }

    /** The displacement of a branch that ends `length` bytes from here, or zero if it has to be relocated later. */
    method RelativeToTargetPc(target: nat, length: nat) returns (displacement: int)
      requires target < pcSection.Length && length >= 4 && pcSection[target] <= 0x7FFF_FFFF
      modifies this`jumps
      ensures displacement == if pcSection[target] != 0 then pcSection[target] - (offset + length) else 0
      ensures jumps == old(jumps) + (if pcSection[target] != 0 then [] else [Relocation(offset + length - 4, target)])
    {
      var end := offset + length;
      if pcSection[target] != 0 {
        return pcSection[target] % 0x8000_0000 - end;
      }
      jumps := jumps + [Relocation(end - 4, target)];
      displacement := 0;
    }

    method EmitBranch(opcode: seq<byte>, target: nat, ghost sites: seq<Site>, ghost image: seq<byte>)
      requires Valid(sites, image) && |opcode| >= 1 && target < pcSection.Length && offset + |opcode| + 4 <= text.Length
      modifies this, text
      ensures offset == old(offset) + |opcode| + 4
      ensures Valid(sites + [Site(offset, target)], image + opcode + [0, 0, 0, 0])
    {
      hide Linked, Lands, Matches, ReadDisplacement;
      var start, before := offset, text[..];
      ghost var was := jumps;
      var displacement := RelativeToTargetPc(target, |opcode| + 4);
      EmitBytes(opcode);
      EmitBytes(DisplacementBytes(displacement));
      assert text[..start] == before[..start] by {
        assert text[..start] == text[..start + |opcode|][..start];
      }
      LinkedStays(before, text[..], pcSection[..], was, sites, start, start);
      ghost var s := Site(offset, target);
      assert text[..][start..start + |opcode|] == opcode by {
        assert text[start..start + |opcode|] == text[..start + |opcode|][start..];
      }
      MatchesBranch(before, text[..], image, opcode, sites, s);
      if pcSection[target] != 0 {
        assert text[..][offset - 4..offset] == DisplacementBytes(displacement);
        ReadsBack(text[..], offset - 4, displacement);
        LandsHere(text[..], pcSection[..], s);
      }
      LinkedSite(text[..], pcSection[..], was, sites, start, s, if pcSection[target] == 0
        then [Relocation(offset - 4, target)] else []);
    }

    method EmitItems(items: seq<Item>, ghost sites: seq<Site>, ghost image: seq<byte>)
      requires Valid(sites, image) && offset + ItemsSize(items) <= text.Length
      requires forall i :: 0 <= i < |items| && items[i].Branch? ==>
        |items[i].opcode| >= 1 && items[i].target < pcSection.Length
      modifies this, text
      ensures offset == old(offset) + ItemsSize(items)
      ensures Valid(sites + ItemSites(items, old(offset)), image + ItemsBytes(items))
    {
      hide Linked, Matches, ItemSites, ItemsBytes, ItemsSize;
      var start := offset;
      NoItems(items, start);
      assert sites + [] == sites && image + [] == image;
      for k := 0 to |items|
        invariant offset == start + ItemsSize(items[..k])
        invariant Valid(sites + ItemSites(items[..k], start), image + ItemsBytes(items[..k]))
      {
        ItemsGrow(items, k, start);
        ghost var soFar, bytesSoFar := sites + ItemSites(items[..k], start), image + ItemsBytes(items[..k]);
        match items[k]
        case Code(bytes) =>
          EmitCode(bytes, soFar, bytesSoFar);
          assert bytesSoFar + bytes == image + ItemsBytes(items[..k + 1]);
          assert soFar == sites + ItemSites(items[..k + 1], start);
        case Branch(opcode, target) =>
          EmitBranch(opcode, target, soFar, bytesSoFar);
          assert bytesSoFar + opcode + [0, 0, 0, 0] == image + ItemsBytes(items[..k + 1]);
          assert soFar + [Site(offset, target)] == sites + ItemSites(items[..k + 1], start);
      }
      assert items[..|items|] == items;
    }

    method EmitCode(bytes: seq<byte>, ghost sites: seq<Site>, ghost image: seq<byte>)
      requires Valid(sites, image) && offset + |bytes| <= text.Length
      modifies this`offset, text
      ensures offset == old(offset) + |bytes| && Valid(sites, image + bytes)
    {
      hide Linked, Matches;
      ghost var before, at := text[..], offset;
      EmitBytes(bytes);
      LinkedStays(before, text[..], pcSection[..], jumps, sites, at, offset);
      assert text[..][at..at + |bytes|] == bytes;
      MatchesCode(before, text[..], image, bytes, sites);
    }

    method WriteDisplacement(at: nat, x: int)
      requires at + 4 <= text.Length && -0x8000_0000 <= x < 0x8000_0000
      modifies text
      ensures text[..at] == old(text[..at]) && text[at + 4..] == old(text[at + 4..])
      ensures ReadDisplacement(text[..], at) == x
    {
      hide ReadDisplacement;
      var bytes := DisplacementBytes(x);
      forall i | 0 <= i < 4 {
        text[at + i] := bytes[i];
      }
      assert text[..][at..at + 4] == bytes;
      ReadsBack(text[..], at, x);
    }

    /** Writes the displacements of the pending branches. */
    method ResolveJumps(ghost sites: seq<Site>, ghost image: seq<byte>)
      requires Valid(sites, image) && forall t :: 0 <= t < pcSection.Length ==> pcSection[t] != 0
      modifies text
      ensures forall s :: s in sites ==> Lands(text[..], pcSection[..], s)
      ensures Matches(text[..], image, sites)
    {
      hide Linked, Lands, ReadDisplacement, Matches;
      assert jumps[0..] == jumps;
      for k := 0 to |jumps|
        invariant Linked(text[..], pcSection[..], jumps[k..], sites, offset) && Matches(text[..], image, sites)
      {
        var jump := jumps[k];
        FirstPending(text[..], pcSection[..], jumps[k..], sites, offset);
        ghost var before := text[..];
        WriteDisplacement(jump.location, pcSection[jump.targetPc] % 0x8000_0000 - jump.location - 4);
        LandsHere(text[..], pcSection[..], Site(jump.location + 4, jump.targetPc));
        MatchesResolve(before, text[..], pcSection[..], jumps[k..], image, sites, offset);
        LinkedResolve(before, text[..], pcSection[..], jumps[k..], sites, offset);
        assert jumps[k..][1..] == jumps[k + 1..];
      }
      AllLand(text[..], pcSection[..], jumps[|jumps|..], sites, offset);
    }

    /**
     Emits the code of a plan between a prelude and a bumper, and resolves its branches: every branch lands on the code
     of its target, which the pc section records. The code buffer may turn out too small.
     */
    method Compile(prelude: seq<byte>, plan: seq<Unit>, bumper: seq<byte>, unsupported: nat, limit: nat)
      returns (r: Result<(), CompileError>)
      requires offset == 0 && jumps == [] && forall t :: 0 <= t < pcSection.Length ==> pcSection[t] == 0
      requires 0 < unsupported < |prelude| <= text.Length <= 0x7FFF_FFFF && |bumper| <= 2 * limit
      requires pcSection.Length == |Starts(plan, |prelude|, unsupported)|
      requires forall k :: 0 <= k < |plan| ==> GoodUnit(plan[k], pcSection.Length, limit)
      modifies this, text, pcSection
      ensures r.Ok? ==> pcSection[..] == Starts(plan, |prelude|, unsupported)
      ensures r.Ok? ==> forall s :: s in Sites(plan, |prelude|) ==> Lands(text[..], pcSection[..], s)
      ensures r.Ok? ==> Matches(text[..], prelude + PlanBytes(plan) + bumper, Sites(plan, |prelude|))
      ensures r.Err? ==> exists k: nat {:trigger plan[..k]} ::
        (k <= |plan| && PlanEnd(plan[..k], |prelude|) + 2 * limit >= text.Length
         && r == Err(ExhaustedTextSegment(|Starts(plan[..k], |prelude|, unsupported)|)))
    {
      hide Linked, Lands, GoodUnit, Starts, Sites, PlanEnd, Matches, PlanBytes;
      ghost var at := |prelude|;
      EmitBytes(prelude);
      LinkedNothing(text[..], pcSection[..], offset);
      assert text[..][..|prelude|] == prelude;
      MatchesNothing(text[..], prelude);
      EmptyPlan(plan, at, unsupported);
      assert prelude + [] == prelude;
      var pc: nat := 0;
      for k := 0 to |plan|
        invariant pc == |Starts(plan[..k], at, unsupported)| <= pcSection.Length
        invariant offset == PlanEnd(plan[..k], at) >= at && Valid(Sites(plan[..k], at), prelude + PlanBytes(plan[..k]))
        invariant pcSection[..pc] == Starts(plan[..k], at, unsupported)
        invariant forall t :: pc <= t < pcSection.Length ==> pcSection[t] == 0
      {
        if offset + 2 * limit >= text.Length {
          return Err(ExhaustedTextSegment(pc));
        }
        StartsGrow(plan, k, at, unsupported);
        PlanGrows(plan, k, at);
        pc := EmitUnit(plan[k], pc, unsupported, limit, Sites(plan[..k], at), prelude + PlanBytes(plan[..k]));
        assert prelude + PlanBytes(plan[..k]) + ItemsBytes(plan[k].items) == prelude + PlanBytes(plan[..k + 1]);
      }
      assert plan[..|plan|] == plan;
      StartsFilled(plan, at, unsupported);
      assert forall t :: 0 <= t < pcSection.Length ==> pcSection[t] == pcSection[..pc][t];
      if offset + 2 * limit >= text.Length {
        return Err(ExhaustedTextSegment(pc));
      }
      EmitCode(bumper, Sites(plan, at), prelude + PlanBytes(plan));
      ResolveJumps(Sites(plan, at), prelude + PlanBytes(plan) + bumper);
      r := Ok(());
    }

    /** Records where the code of a guest instruction starts, and emits it. */
    method EmitUnit(u: Unit, pc: nat, unsupported: nat, limit: nat, ghost sites: seq<Site>, ghost image: seq<byte>)
      returns (next: nat)
      requires Valid(sites, image) && GoodUnit(u, pcSection.Length, limit) && offset + 2 * limit <= text.Length
      requires unsupported <= offset
      requires pc + (if u.wide then 2 else 1) <= pcSection.Length
      requires forall t :: pc <= t < pcSection.Length ==> pcSection[t] == 0
      modifies this, text, pcSection
      ensures next == pc + (if u.wide then 2 else 1)
      ensures pcSection[..next] == old(pcSection[..pc]) + (if u.wide then [old(offset), unsupported] else [old(offset)])
      ensures forall t :: next <= t < pcSection.Length ==> pcSection[t] == 0
      ensures offset == old(offset) + ItemsSize(u.items)
      ensures Valid(sites + ItemSites(u.items, old(offset)), image + ItemsBytes(u.items))
    {
      hide Linked, Matches;
      ghost var before := pcSection[..];
      pcSection[pc] := offset;
      next := pc + 1;
      if u.wide {
        pcSection[next] := unsupported;
        next := next + 1;
      }
      LinkedFill(text[..], before, pcSection[..], jumps, sites, offset);
      EmitItems(u.items, sites, image);
    }
  }

  lemma MatchesNothing(text: seq<byte>, image: seq<byte>)
    requires image <= text
    ensures Matches(text, image, [])
  {
  }

  lemma MatchesCode(text: seq<byte>, next: seq<byte>, image: seq<byte>, bytes: seq<byte>, sites: seq<Site>)
    requires Matches(text, image, sites) && |text| == |next| && |image| + |bytes| <= |next|
    requires next[..|image|] == text[..|image|] && next[|image|..|image| + |bytes|] == bytes
    ensures Matches(next, image + bytes, sites)
  {
    forall x: nat | x < |image + bytes| && Outside(sites, x) ensures next[x] == (image + bytes)[x] {
      if x < |image| {
        assert next[x] == next[..|image|][x] == text[..|image|][x];
      } else {
        assert next[x] == next[|image|..|image| + |bytes|][x - |image|];
      }
    }
  }

  lemma MatchesBranch(text: seq<byte>, next: seq<byte>, image: seq<byte>, opcode: seq<byte>, sites: seq<Site>, s: Site)
    requires Matches(text, image, sites) && |text| == |next| && s.end == |image| + |opcode| + 4 <= |next|
    requires next[..|image|] == text[..|image|] && next[|image|..|image| + |opcode|] == opcode
    ensures Matches(next, image + opcode + [0, 0, 0, 0], sites + [s])
  {
    MatchesCode(text, next, image, opcode, sites);
    var longer, all := image + opcode, sites + [s];
    forall x: nat | x < |longer + [0, 0, 0, 0]| && Outside(all, x) ensures next[x] == (longer + [0, 0, 0, 0])[x] {
      assert all[|sites|] == s;
      assert forall i :: 0 <= i < |sites| ==> all[i] == sites[i];
      assert Outside(sites, x);
    }
  }

  lemma MatchesResolve(text: seq<byte>, next: seq<byte>, pcs: seq<nat>, jumps: seq<Relocation>, image: seq<byte>,
                       sites: seq<Site>, offset: nat)
    requires Linked(text, pcs, jumps, sites, offset) && |jumps| > 0 && Matches(text, image, sites) && |text| == |next|
    requires var at := jumps[0].location;
      at + 4 <= |text| && next[..at] == text[..at] && next[at + 4..] == text[at + 4..]
    ensures Matches(next, image, sites)
  {
    hide Spaced, Settled;
    var at := jumps[0].location;
    assert jumps[0] in jumps && Recorded(sites, jumps[0]);
    var i :| 0 <= i < |sites| && sites[i].end == at + 4;
    forall x: nat | x < |image| && Outside(sites, x) ensures next[x] == image[x] {
      if x < at {
        assert next[x] == next[..at][x] == text[..at][x];
      } else {
        assert next[x] == next[at + 4..][x - at - 4] == text[at + 4..][x - at - 4];
      }
    }
  }

  lemma LandsHere(text: seq<byte>, pcs: seq<nat>, s: Site)
    requires 4 <= s.end <= |text| && s.target < |pcs| && s.end + ReadDisplacement(text, s.end - 4) == pcs[s.target]
    ensures Lands(text, pcs, s)
  {
  }

  lemma FirstPending(text: seq<byte>, pcs: seq<nat>, jumps: seq<Relocation>, sites: seq<Site>, offset: nat)
    requires Linked(text, pcs, jumps, sites, offset) && |jumps| > 0
    ensures jumps[0].location + 4 <= offset && jumps[0].targetPc < |pcs|
  {
    assert jumps[0] in jumps && Recorded(sites, jumps[0]);
    assert InRange(Site(jumps[0].location + 4, jumps[0].targetPc), pcs, offset);
  }

  lemma AllLand(text: seq<byte>, pcs: seq<nat>, jumps: seq<Relocation>, sites: seq<Site>, offset: nat)
    requires Linked(text, pcs, jumps, sites, offset) && jumps == []
    ensures forall s :: s in sites ==> Lands(text, pcs, s)
  {
    hide Lands;
    forall s | s in sites ensures Lands(text, pcs, s) {
      assert Settled(text, pcs, jumps, s);
    }
  }

  lemma NoItems(items: seq<Item>, at: nat)
    ensures ItemsSize(items[..0]) == 0 && ItemSites(items[..0], at) == [] && ItemsBytes(items[..0]) == []
  {
  }

  lemma {:induction false} SizesGrow(items: seq<Item>, k: nat)
    requires k <= |items|
    ensures ItemsSize(items[..k]) <= ItemsSize(items)
    decreases |items| - k
  {
    if k < |items| {
      SizesGrow(items, k + 1);
      assert items[..k + 1][..k] == items[..k];
    } else {
      assert items[..k] == items;
    }
  }

  lemma ItemsGrow(items: seq<Item>, k: nat, at: nat)
    requires k < |items|
    ensures ItemsSize(items[..k + 1]) == ItemsSize(items[..k]) + ItemSize(items[k]) <= ItemsSize(items)
    ensures ItemsBytes(items[..k + 1]) == ItemsBytes(items[..k]) + ItemBytes(items[k])
    ensures ItemSites(items[..k + 1], at)
         == ItemSites(items[..k], at)
           + (if items[k].Branch? then [Site(at + ItemsSize(items[..k + 1]), items[k].target)] else [])
  {
    SizesGrow(items, k + 1);
    assert items[..k + 1][..k] == items[..k];
  }

  /** A unit whose code is not too long and whose branches stay inside the program. */
  ghost predicate GoodUnit(u: Unit, pcs: nat, limit: nat) {
    && ItemsSize(u.items) <= 2 * limit
    && forall i :: 0 <= i < |u.items| && u.items[i].Branch? ==> |u.items[i].opcode| >= 1 && u.items[i].target < pcs
  }

  lemma EmptyPlan(plan: seq<Unit>, at: nat, unsupported: nat)
    ensures Starts(plan[..0], at, unsupported) == [] && PlanEnd(plan[..0], at) == at && Sites(plan[..0], at) == []
    ensures PlanBytes(plan[..0]) == []
  {
  }

  lemma LinkedNothing(text: seq<byte>, pcs: seq<nat>, offset: nat)
    ensures Linked(text, pcs, [], [], offset)
  {
  }

  lemma PlanGrows(plan: seq<Unit>, k: nat, at: nat)
    requires k < |plan|
    ensures PlanEnd(plan[..k + 1], at) == PlanEnd(plan[..k], at) + ItemsSize(plan[k].items)
    ensures Sites(plan[..k + 1], at) == Sites(plan[..k], at) + ItemSites(plan[k].items, PlanEnd(plan[..k], at))
    ensures PlanBytes(plan[..k + 1]) == PlanBytes(plan[..k]) + ItemsBytes(plan[k].items)
  {
    assert plan[..k + 1][..k] == plan[..k];
  }

  lemma {:induction false} StartsGrow(plan: seq<Unit>, k: nat, at: nat, unsupported: nat)
    requires k < |plan|
    ensures Starts(plan[..k + 1], at, unsupported)
         == Starts(plan[..k], at, unsupported)
           + (if plan[k].wide then [PlanEnd(plan[..k], at), unsupported] else [PlanEnd(plan[..k], at)])
    ensures |Starts(plan[..k + 1], at, unsupported)| <= |Starts(plan, at, unsupported)|
    decreases |plan| - k
  {
    assert plan[..k + 1][..k] == plan[..k];
    if k + 1 < |plan| {
      StartsGrow(plan, k + 1, at, unsupported);
    } else {
      assert plan[..k + 1] == plan;
    }
  }

  /** Zero stands for nothing but a place that is not filled. */
  lemma {:induction false} StartsFilled(plan: seq<Unit>, at: nat, unsupported: nat)
    requires at > 0 && unsupported > 0
    ensures forall t :: 0 <= t < |Starts(plan, at, unsupported)| ==> Starts(plan, at, unsupported)[t] != 0
    ensures PlanEnd(plan, at) >= at
  {
    if |plan| > 0 {
      StartsFilled(plan[..|plan| - 1], at, unsupported);
    }
  }
}
