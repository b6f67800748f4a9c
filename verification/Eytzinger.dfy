/**
 The Eytzinger order: the sorted regions laid out as an implicit binary tree, node `i` (counted from
 one) having the children `2 * i` and `2 * i + 1`, so that a search needs no branches.
 */
module Eytzinger {
  import opened Options
  import opened Words
  import opened Regions

  // ---------------------------------------------------------------- the tree

  /** The number of nodes below and including `i` in a tree of `n` nodes. */
  function Size(i: nat, n: nat): nat
    requires i >= 1
    decreases n + 1 - i
  {
    if i > n then 0 else Size(2 * i, n) + 1 + Size(2 * i + 1, n)
  }

  /** The number of nodes in front of the subtree of `i` in sorted order. */
  function Before(i: nat, n: nat): nat
    requires i >= 1
  {
    if i == 1 then 0
    else if i % 2 == 0 then Before(i / 2, n)
    else Before(i / 2, n) + Size(i - 1, n) + 1
  }

  /** The sorted position of node `i`. */
  function Position(i: nat, n: nat): nat
    requires i >= 1
  {
    Before(i, n) + Size(2 * i, n)
  }

  predicate Below(x: nat, i: nat)
    requires i >= 1
  {
    x == i || (x > i && Below(x / 2, i))
  }

  /** A new last node enlarges exactly the subtrees that it lies below. */
  lemma {:induction false} SizeGrows(i: nat, n: nat)
    requires i >= 1
    ensures Size(i, n + 1) == Size(i, n) + (if Below(n + 1, i) then 1 else 0)
    decreases n + 2 - i
  {
    if i <= n {
      SizeGrows(2 * i, n);
      SizeGrows(2 * i + 1, n);
      BelowSplits(n + 1, i);
    } else if i == n + 1 {
      assert Size(2 * i, n + 1) == 0 && Size(2 * i + 1, n + 1) == 0;
    }
  }

  /** What lies below a node is the node itself or below exactly one of its children. */
  lemma {:induction false} BelowSplits(x: nat, i: nat)
    requires i >= 1
    ensures Below(x, i) <==> x == i || Below(x, 2 * i) || Below(x, 2 * i + 1)
    ensures !(Below(x, 2 * i) && Below(x, 2 * i + 1))
    ensures Below(x, i) ==> x >= i
    decreases x
  {
    if x > i {
      BelowSplits(x / 2, i);
    }
  }

  lemma {:induction false} RootIsAbove(x: nat)
    requires x >= 1
    ensures Below(x, 1)
  {
    if x > 1 {
      RootIsAbove(x / 2);
    }
  }

  /** The whole tree has `n` nodes. */
  lemma {:induction false} SizeOfRoot(n: nat)
    ensures Size(1, n) == n
  {
    if n > 0 {
      SizeOfRoot(n - 1);
      SizeGrows(1, n - 1);
      RootIsAbove(n);
    }
  }

  /** Subtrees occupy consecutive sorted positions inside 0..n. */
  lemma {:induction false} SubtreeFits(i: nat, n: nat)
    requires i >= 1 && (i == 1 || i / 2 <= n)
    ensures Before(i, n) + Size(i, n) <= n
  {
    if i == 1 {
      SizeOfRoot(n);
    } else {
      SubtreeFits(i / 2, n);
      assert i % 2 == 1 ==> i == 2 * (i / 2) + 1;
    }
  }

  // ---------------------------------------------------------------- construction

  /** The index arrays hold, for every node, its sorted position and the start address found there. */
  ghost predicate IsIndex(regions: seq<Region>, addresses: seq<u64>, lookup: seq<nat>) {
    && |addresses| == |lookup| == |regions|
    && forall x: nat :: x < |regions| ==> IsSlot(regions, addresses, lookup, x)
  }

  ghost predicate IsSlot(regions: seq<Region>, addresses: seq<u64>, lookup: seq<nat>, x: nat)
    requires x < |addresses| == |lookup|
  {
    lookup[x] == Position(x + 1, |regions|) < |regions| && addresses[x] == regions[lookup[x]].vmAddr
  }

  /** Array slot `x` belongs to the subtree of array slot `out`. */
  predicate BelowSlot(x: nat, out: nat) {
    Below(x + 1, out + 1)
  }

  lemma SlotSplits(x: nat, out: nat)
    ensures BelowSlot(x, out) <==> x == out || BelowSlot(x, 2 * out + 1) || BelowSlot(x, 2 * out + 2)
    ensures !(BelowSlot(x, 2 * out + 1) && BelowSlot(x, 2 * out + 2))
    ensures BelowSlot(x, out) ==> x >= out
  {
    BelowSplits(x + 1, out + 1);
  }

  /** In-order traversal of the subtree of slot `out`, handing out sorted positions from `start` on. */
  method Construct(regions: seq<Region>, addresses: array<u64>, lookup: array<nat>, start: nat, out: nat)
    returns (next: nat)
    requires addresses.Length == lookup.Length == |regions|
    requires start == Before(out + 1, |regions|) && (out == 0 || (out + 1) / 2 <= |regions|)
    modifies addresses, lookup
    ensures next == start + Size(out + 1, |regions|)
    ensures forall x: nat :: x < |regions| && BelowSlot(x, out) ==> IsSlot(regions, addresses[..], lookup[..], x)
    ensures forall x: nat :: x < |regions| && !BelowSlot(x, out) ==>
              addresses[x] == old(addresses[x]) && lookup[x] == old(lookup[x])
    decreases |regions| + 1 - out
  {
    hide BelowSlot, Position, Before;
    var n := |regions|;
    if out >= n {
      forall x: nat | x < n ensures !BelowSlot(x, out) {
        SlotSplits(x, out);
      }
      return start;
    }
    forall x: nat | x < n
      ensures BelowSlot(x, out) <==> x == out || BelowSlot(x, 2 * out + 1) || BelowSlot(x, 2 * out + 2)
      ensures !(BelowSlot(x, 2 * out + 1) && BelowSlot(x, 2 * out + 2))
      ensures BelowSlot(x, 2 * out + 1) ==> x > out
      ensures BelowSlot(x, 2 * out + 2) ==> x > out
    {
      SlotSplits(x, out);
      SlotSplits(x, 2 * out + 1);
      SlotSplits(x, 2 * out + 2);
    }
    NodeFits(out, n);
    var middle := Construct(regions, addresses, lookup, start, 2 * out + 1);
    addresses[out] := regions[middle].vmAddr;
    lookup[out] := middle;
    next := Construct(regions, addresses, lookup, middle + 1, 2 * out + 2);
  }

  lemma NodeFits(out: nat, n: nat)
    requires out < n
    ensures Before(out + 1, n) + Size(2 * out + 2, n) == Position(out + 1, n) < n
    ensures Before(2 * out + 2, n) == Before(out + 1, n) && Before(2 * out + 3, n) == Position(out + 1, n) + 1
    ensures Size(out + 1, n) == Size(2 * out + 2, n) + 1 + Size(2 * out + 3, n)
  {
    SubtreeFits(out + 1, n);
    assert 2 * (out + 1) == 2 * out + 2;
  }

  /** Building the index of a list of regions from slot zero on. */
  method Build(regions: seq<Region>, addresses: array<u64>, lookup: array<nat>)
    requires addresses.Length == lookup.Length == |regions|
    modifies addresses, lookup
    ensures IsIndex(regions, addresses[..], lookup[..])
  {
    var next := Construct(regions, addresses, lookup, 0, 0);
    forall x: nat | x < |regions| ensures IsSlot(regions, addresses[..], lookup[..], x) {
      RootIsAbove(x + 1);
      assert BelowSlot(x, 0);
    }
  }

  // ---------------------------------------------------------------- search

  /** The last region that starts at or before the address, by a plain scan from the end. */
  function LastStart(regions: seq<Region>, vmAddr: u64): (r: Option<nat>)
    ensures r.Some? ==> r.value < |regions| && regions[r.value].vmAddr <= vmAddr
    ensures r.Some? ==> forall i :: r.value < i < |regions| ==> regions[i].vmAddr > vmAddr
    ensures r == None ==> forall i :: 0 <= i < |regions| ==> regions[i].vmAddr > vmAddr
  {
    if regions == [] then None
    else if regions[|regions| - 1].vmAddr <= vmAddr then Some(|regions| - 1)
    else LastStart(regions[..|regions| - 1], vmAddr)
  }

  ghost predicate Sorted(regions: seq<Region>) {
    forall i, j :: 0 <= i < j < |regions| ==> regions[i].vmAddr <= regions[j].vmAddr
  }

  function TrailingZeros(x: nat): nat
    requires x >= 1
  {
    if x % 2 == 1 then 0 else 1 + TrailingZeros(x / 2)
  }

  /** `index >> (trailing_zeros + 1)`: the node at which the search last went right, or zero. */
  function LastRight(x: nat): nat
    requires x >= 1
  {
    x / Pow2(TrailingZeros(x) + 1)
  }

  lemma LastRightOfLeft(i: nat)
    requires i >= 1
    ensures LastRight(2 * i) == LastRight(i)
  {
    hide Pow2;
    HalveMod(2 * i, TrailingZeros(i) + 1);
  }

  lemma LastRightOfRight(i: nat)
    requires i >= 1
    ensures LastRight(2 * i + 1) == i
  {
    assert Pow2(1) == 2 * Pow2(0) == 2;
  }

  /** The node of the last right turn sits right in front of the subtree that is left. */
  ghost predicate Candidate(lookup: seq<nat>, i: nat)
    requires i >= 1
  {
    var c, before := LastRight(i), Before(i, |lookup|);
    if before == 0 then c == 0 else 1 <= c <= |lookup| && lookup[c - 1] == before - 1
  }

  /** Everything in front of the subtree starts at or before the address, everything behind it after the address. */
  ghost predicate Narrowed(regions: seq<Region>, vmAddr: u64, i: nat)
    requires i >= 1
  {
    var before, size := Before(i, |regions|), Size(i, |regions|);
    && (forall k :: 0 <= k < before && k < |regions| ==> regions[k].vmAddr <= vmAddr)
    && (forall k :: before + size <= k < |regions| ==> regions[k].vmAddr > vmAddr)
  }

  lemma SearchStarts(regions: seq<Region>, lookup: seq<nat>, vmAddr: u64)
    requires |lookup| == |regions|
    ensures Candidate(lookup, 1) && Narrowed(regions, vmAddr, 1)
  {
    SizeOfRoot(|regions|);
    assert TrailingZeros(1) == 0;
    assert Pow2(1) == 2 * Pow2(0) == 2;
  }

  lemma SearchGoesLeft(regions: seq<Region>, addresses: seq<u64>, lookup: seq<nat>, vmAddr: u64, i: nat)
    requires Sorted(regions) && IsIndex(regions, addresses, lookup) && 1 <= i <= |regions|
    requires Candidate(lookup, i) && Narrowed(regions, vmAddr, i) && addresses[i - 1] > vmAddr
    ensures Candidate(lookup, 2 * i) && Narrowed(regions, vmAddr, 2 * i)
  {
    hide LastRight, TrailingZeros;
    LastRightOfLeft(i);
    assert IsSlot(regions, addresses, lookup, i - 1);
  }

  lemma SearchGoesRight(regions: seq<Region>, addresses: seq<u64>, lookup: seq<nat>, vmAddr: u64, i: nat)
    requires Sorted(regions) && IsIndex(regions, addresses, lookup) && 1 <= i <= |regions|
    requires Candidate(lookup, i) && Narrowed(regions, vmAddr, i) && addresses[i - 1] <= vmAddr
    ensures Candidate(lookup, 2 * i + 1) && Narrowed(regions, vmAddr, 2 * i + 1)
  {
    hide LastRight, TrailingZeros;
    LastRightOfRight(i);
    assert IsSlot(regions, addresses, lookup, i - 1);
    assert Before(2 * i + 1, |regions|) == Position(i, |regions|) + 1;
  }

  /** The branch-free search finds the last region that starts at or before the address, or none. */
  method Search(regions: seq<Region>, addresses: array<u64>, lookup: array<nat>, vmAddr: u64) returns (r: Option<nat>)
    requires Sorted(regions) && IsIndex(regions, addresses[..], lookup[..])
    ensures r == LastStart(regions, vmAddr)
  {
    hide LastRight, Candidate, Narrowed, IsIndex;
    assert addresses.Length == lookup.Length == |regions| by { IndexSizes(regions, addresses[..], lookup[..]); }
    var index: nat := 1;
    SearchStarts(regions, lookup[..], vmAddr);
    while index <= addresses.Length
      invariant index >= 1 && (index == 1 || index / 2 <= |regions|) && Candidate(lookup[..], index)
      invariant Narrowed(regions, vmAddr, index)
      decreases addresses.Length + 1 - index
    {
      if addresses[index - 1] <= vmAddr {
        SearchGoesRight(regions, addresses[..], lookup[..], vmAddr, index);
      } else {
        SearchGoesLeft(regions, addresses[..], lookup[..], vmAddr, index);
      }
      index := 2 * index + (if addresses[index - 1] <= vmAddr then 1 else 0);
    }
    SearchEnds(regions, lookup[..], vmAddr, index);
    index := LastRight(index);
    r := if index == 0 then None else Some(lookup[index - 1]);
  }

  lemma IndexSizes(regions: seq<Region>, addresses: seq<u64>, lookup: seq<nat>)
    requires IsIndex(regions, addresses, lookup)
    ensures |addresses| == |lookup| == |regions|
  {
  }

  lemma SearchEnds(regions: seq<Region>, lookup: seq<nat>, vmAddr: u64, i: nat)
    requires |lookup| == |regions| && i > |regions| && (i == 1 || i / 2 <= |regions|) && Candidate(lookup, i)
    requires Narrowed(regions, vmAddr, i)
    ensures var c := LastRight(i);
      if c == 0 then LastStart(regions, vmAddr) == None
      else c <= |lookup| && LastStart(regions, vmAddr) == Some(lookup[c - 1])
  {
    hide LastRight;
    SubtreeFits(i, |regions|);
    var before := Before(i, |regions|);
    var r := LastStart(regions, vmAddr);
    if before > 0 {
      assert regions[before - 1].vmAddr <= vmAddr;
    }
  }
}
