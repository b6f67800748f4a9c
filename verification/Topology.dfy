/**
 The topological order read off the components, and the virtual super root that is linked to the
 first block of every component without a source outside of it.
 */
module Topology {
  import opened Graphs
  import opened Sorting
  import opened Tarjan

  /** The order of topological indices: by component first, by position inside the component second. */
  predicate Above(sccId: seq<nat>, discovery: seq<nat>, a: nat, b: nat)
    requires a < |sccId| == |discovery| && b < |sccId|
  {
    sccId[a] > sccId[b] || (sccId[a] == sccId[b] && discovery[a] > discovery[b])
  }

  function NotBelow(sccId: seq<nat>, discovery: seq<nat>): (nat, nat) -> bool
    requires |sccId| == |discovery|
  {
    (a: nat, b: nat) => b >= |sccId| || (a < |sccId| && !Above(sccId, discovery, b, a))
  }

  /** All blocks by descending topological index. */
  function TopologicalOrder(sccId: seq<nat>, discovery: seq<nat>): seq<nat>
    requires |sccId| == |discovery|
  {
    SortBy(NotBelow(sccId, discovery), seq<nat>(|sccId|, i => i))
  }

  ghost predicate IsPermutation(order: seq<nat>, n: nat) {
    && |order| == n && Distinct(order)
    && (forall i :: 0 <= i < n ==> order[i] < n)
    && forall v: nat :: v < n ==> v in order
  }

  /** The order is a permutation of the blocks in which every edge between components points forward. */
  ghost predicate IsTopological(g: Graph, sccId: seq<nat>, discovery: seq<nat>, order: seq<nat>)
    requires |sccId| == |discovery| == |g|
  {
    && IsPermutation(order, |g|)
    && (forall i, j :: 0 <= i < j < |order| ==> Above(sccId, discovery, order[i], order[j]))
    && (forall i, j :: 0 <= i < |order| && 0 <= j < |order| && Edge(g, order[i], order[j]) ==>
          sccId[order[i]] == sccId[order[j]] || i < j)
  }

  lemma OrderIsPermutation(sccId: seq<nat>, discovery: seq<nat>)
    requires |sccId| == |discovery|
    ensures IsPermutation(TopologicalOrder(sccId, discovery), |sccId|)
  {
    var leq, blocks := NotBelow(sccId, discovery), seq<nat>(|sccId|, i => i);
    var order := TopologicalOrder(sccId, discovery);
    hide NotBelow, SortBy;
    SortPermutes(leq, blocks);
    SortMembers(leq, blocks);
    SortKeepsDistinct(leq, blocks);
    forall v: nat | v < |sccId| ensures v in order {
      assert blocks[v] == v;
    }
    forall i | 0 <= i < |order| ensures order[i] < |sccId| {
      assert order[i] in order;
    }
  }

  lemma NotBelowIsTotal(sccId: seq<nat>, discovery: seq<nat>)
    requires |sccId| == |discovery|
    ensures TotalPreorder(NotBelow(sccId, discovery))
  {
  }

  lemma OrderDescends(g: Graph, sccId: seq<nat>, discovery: seq<nat>, i: nat, j: nat)
    requires IsDecomposition(g, sccId, discovery)
    requires IsPermutation(TopologicalOrder(sccId, discovery), |sccId|) && i < j < |TopologicalOrder(sccId, discovery)|
    ensures Above(sccId, discovery, TopologicalOrder(sccId, discovery)[i], TopologicalOrder(sccId, discovery)[j])
  {
    hide Reach, HasEarlierSource, Edge, SortBy;
    var leq := NotBelow(sccId, discovery);
    NotBelowIsTotal(sccId, discovery);
    SortSorts(leq, seq<nat>(|sccId|, i => i));
    var order := TopologicalOrder(sccId, discovery);
    assert leq(order[i], order[j]);
  }

  lemma OrderIsTopological(g: Graph, sccId: seq<nat>, discovery: seq<nat>)
    requires IsDecomposition(g, sccId, discovery)
    ensures IsTopological(g, sccId, discovery, TopologicalOrder(sccId, discovery))
  {
    hide Reach, HasEarlierSource, Edge, TopologicalOrder;
    var order := TopologicalOrder(sccId, discovery);
    OrderIsPermutation(sccId, discovery);
    forall i, j | 0 <= i < j < |order| ensures Above(sccId, discovery, order[i], order[j]) {
      OrderDescends(g, sccId, discovery, i, j);
    }
    forall i, j | 0 <= i < |order| && 0 <= j < |order| && Edge(g, order[i], order[j])
      && sccId[order[i]] != sccId[order[j]]
      ensures i < j
    {
      assert sccId[order[j]] < sccId[order[i]];
    }
  }

  // ---------------------------------------------------------------- the super root

  /** `sources` lists the predecessors of every block. */
  ghost predicate Inverse(g: Graph, sources: seq<seq<nat>>) {
    && |sources| == |g|
    && forall u: nat, v: nat :: v < |g| ==> (u in sources[v] <==> Edge(g, u, v))
  }

  predicate HasOuterSource(sources: seq<seq<nat>>, sccId: seq<nat>, v: nat)
    requires v < |sources| == |sccId|
  {
    exists k :: 0 <= k < |sources[v]| && sources[v][k] < |sccId| && sccId[sources[v][k]] != sccId[v]
  }

  /** Some block of `v`'s component is entered from another component. */
  ghost predicate Entered(sources: seq<seq<nat>>, sccId: seq<nat>, v: nat)
    requires v < |sources| == |sccId|
  {
    exists w: nat :: w < |sccId| && sccId[w] == sccId[v] && HasOuterSource(sources, sccId, w)
  }

  /** `v` comes first in its component. */
  ghost predicate First(sccId: seq<nat>, discovery: seq<nat>, v: nat)
    requires v < |sccId| == |discovery|
  {
    forall w: nat :: w < |sccId| && sccId[w] == sccId[v] ==> w == v || Above(sccId, discovery, v, w)
  }

  /** Positions `from..to` of the order lie in one component. */
  ghost predicate SameRun(sccId: seq<nat>, order: seq<nat>, from: nat, to: nat)
    requires to <= |order| && forall i :: 0 <= i < |order| ==> order[i] < |sccId|
  {
    forall i :: from <= i < to ==> sccId[order[i]] == sccId[order[from]]
  }

  ghost predicate RunEntered(sources: seq<seq<nat>>, sccId: seq<nat>, order: seq<nat>, from: nat, to: nat)
    requires to <= |order| && |sources| == |sccId| && forall i :: 0 <= i < |order| ==> order[i] < |sccId|
  {
    exists i :: from <= i < to && HasOuterSource(sources, sccId, order[i])
  }

  /** A maximal run of the order is a whole component, and it starts with the first block of that component. */
  lemma RunIsComponent(g: Graph, sccId: seq<nat>, discovery: seq<nat>, sources: seq<seq<nat>>, order: seq<nat>,
                       from: nat, to: nat)
    requires |sccId| == |discovery| == |g| == |sources| && IsTopological(g, sccId, discovery, order)
    requires from < to <= |order| && SameRun(sccId, order, from, to)
    requires from == 0 || sccId[order[from - 1]] != sccId[order[from]]
    requires to == |order| || sccId[order[to]] != sccId[order[from]]
    ensures First(sccId, discovery, order[from])
    ensures Entered(sources, sccId, order[from]) <==> RunEntered(sources, sccId, order, from, to)
    ensures forall i :: from < i < to ==> !First(sccId, discovery, order[i])
  {
    hide Edge, HasOuterSource;
    assert forall i, j :: 0 <= i <= j < |order| ==> sccId[order[i]] >= sccId[order[j]];
    forall i | 0 <= i < from ensures sccId[order[i]] > sccId[order[from]] {
      assert sccId[order[i]] >= sccId[order[from - 1]];
    }
    forall i | to <= i < |order| ensures sccId[order[i]] < sccId[order[from]] {
      assert sccId[order[i]] <= sccId[order[to]];
    }
    forall w: nat | w < |sccId| && sccId[w] == sccId[order[from]]
      ensures exists i :: from <= i < to && order[i] == w
    {
      assert w in order;
      var i :| 0 <= i < |order| && order[i] == w;
    }
    forall i | from < i < to ensures !First(sccId, discovery, order[i]) {
      assert Above(sccId, discovery, order[from], order[i]);
    }
  }

  /** Exactly the first blocks of components that nothing outside leads into. */
  ghost predicate AreRoots(sccId: seq<nat>, discovery: seq<nat>, sources: seq<seq<nat>>, destinations: seq<nat>)
    requires |sccId| == |discovery| == |sources|
  {
    forall v: nat :: v in destinations <==>
      v < |sccId| && First(sccId, discovery, v) && !Entered(sources, sccId, v)
  }

  ghost predicate RootsUpTo(sccId: seq<nat>, discovery: seq<nat>, sources: seq<seq<nat>>, order: seq<nat>, from: nat,
                            destinations: seq<nat>)
    requires |sccId| == |discovery| == |sources| && from <= |order|
    requires forall i :: 0 <= i < |order| ==> order[i] < |sccId|
  {
    && (forall v: nat :: v in destinations ==> v < |sccId| && First(sccId, discovery, v) && !Entered(sources, sccId, v))
    && (forall i :: 0 <= i < from && First(sccId, discovery, order[i]) && !Entered(sources, sccId, order[i]) ==>
          order[i] in destinations)
  }

  lemma RootsStep(g: Graph, sccId: seq<nat>, discovery: seq<nat>, sources: seq<seq<nat>>, order: seq<nat>, from: nat,
                  to: nat,
                  destinations: seq<nat>)
    requires |sccId| == |discovery| == |g| == |sources| && IsTopological(g, sccId, discovery, order)
    requires from < to <= |order| && SameRun(sccId, order, from, to)
    requires from == 0 || sccId[order[from - 1]] != sccId[order[from]]
    requires to == |order| || sccId[order[to]] != sccId[order[from]]
    requires RootsUpTo(sccId, discovery, sources, order, from, destinations)
    ensures RootsUpTo(sccId, discovery, sources, order, to,
              if RunEntered(sources, sccId, order, from, to) then destinations else destinations + [order[from]])
  {
    hide First, Entered, Edge, HasOuterSource, Distinct;
    RunIsComponent(g, sccId, discovery, sources, order, from, to);
  }

  /** The destinations of the super root. */
  method SuperRootDestinations(g: Graph, sccId: seq<nat>, discovery: seq<nat>, sources: seq<seq<nat>>, order: seq<nat>)
    returns (destinations: seq<nat>)
    requires |sccId| == |discovery| == |g| == |sources| && IsTopological(g, sccId, discovery, order)
    ensures AreRoots(sccId, discovery, sources, destinations)
  {
    hide First, Entered, IsTopological, HasOuterSource, RunEntered, SameRun, RootsUpTo;
    OrderInRange(g, sccId, discovery, order);
    destinations := [];
    var first, hasExternalSource := 0, false;
    assert RootsUpTo(sccId, discovery, sources, order, 0, []) by { NoRootsYet(sccId, discovery, sources, order); }
    RunStarts(sources, sccId, order, 0);
    for index := 0 to |order|
      invariant first <= index && (index < |order| || first == index)
      invariant SameRun(sccId, order, first, index)
      invariant (hasExternalSource <==> RunEntered(sources, sccId, order, first, index))
      invariant first == 0 || (first < |order| ==> sccId[order[first - 1]] != sccId[order[first]])
      invariant first < index ==> sccId[order[first]] == sccId[order[index]]
      invariant RootsUpTo(sccId, discovery, sources, order, first, destinations)
    {
      RunGrows(sources, sccId, order, first, index);
      hasExternalSource := hasExternalSource || HasOuterSource(sources, sccId, order[index]);
      if index + 1 == |order| || sccId[order[index + 1]] != sccId[order[index]] {
        RootsStep(g, sccId, discovery, sources, order, first, index + 1, destinations);
        if !hasExternalSource {
          destinations := destinations + [order[first]];
        }
        first, hasExternalSource := index + 1, false;
        RunStarts(sources, sccId, order, first);
      }
    }
    RootsComplete(g, sccId, discovery, sources, order, destinations);
  }

  lemma OrderInRange(g: Graph, sccId: seq<nat>, discovery: seq<nat>, order: seq<nat>)
    requires |sccId| == |discovery| == |g| && IsTopological(g, sccId, discovery, order)
    ensures |order| == |g| && forall i :: 0 <= i < |order| ==> order[i] < |g|
  {
  }

  lemma NoRootsYet(sccId: seq<nat>, discovery: seq<nat>, sources: seq<seq<nat>>, order: seq<nat>)
    requires |sccId| == |discovery| == |sources| && forall i :: 0 <= i < |order| ==> order[i] < |sccId|
    ensures RootsUpTo(sccId, discovery, sources, order, 0, [])
  {
  }

  lemma RunStarts(sources: seq<seq<nat>>, sccId: seq<nat>, order: seq<nat>, from: nat)
    requires from <= |order| && |sources| == |sccId| && forall i :: 0 <= i < |order| ==> order[i] < |sccId|
    ensures SameRun(sccId, order, from, from) && !RunEntered(sources, sccId, order, from, from)
  {
  }

  lemma RunGrows(sources: seq<seq<nat>>, sccId: seq<nat>, order: seq<nat>, from: nat, to: nat)
    requires from <= to < |order| && |sources| == |sccId| && forall i :: 0 <= i < |order| ==> order[i] < |sccId|
    requires SameRun(sccId, order, from, to) && sccId[order[from]] == sccId[order[to]]
    ensures SameRun(sccId, order, from, to + 1)
    ensures RunEntered(sources, sccId, order, from, to + 1) <==>
      RunEntered(sources, sccId, order, from, to) || HasOuterSource(sources, sccId, order[to])
  {
    hide HasOuterSource;
    if HasOuterSource(sources, sccId, order[to]) {
      assert RunEntered(sources, sccId, order, from, to + 1);
    }
  }

  lemma RootsComplete(g: Graph, sccId: seq<nat>, discovery: seq<nat>, sources: seq<seq<nat>>, order: seq<nat>,
                      destinations: seq<nat>)
    requires |sccId| == |discovery| == |g| == |sources| && IsTopological(g, sccId, discovery, order)
    requires RootsUpTo(sccId, discovery, sources, order, |order|, destinations)
    ensures AreRoots(sccId, discovery, sources, destinations)
  {
    hide First, Entered, Edge, Distinct;
    forall v: nat | v < |sccId| && First(sccId, discovery, v) && !Entered(sources, sccId, v)
      ensures v in destinations
    {
      assert v in order;
      var i :| 0 <= i < |order| && order[i] == v;
    }
  }

  // ---------------------------------------------------------------- the graph with the super root

  lemma ClosedWithRoot(g: Graph, destinations: seq<nat>)
    requires forall v :: v in destinations ==> v < |g|
    ensures Closed(g + [destinations])
  {
    var e := g + [destinations];
    forall v, j | 0 <= v < |e| && 0 <= j < |e[v]| ensures e[v][j] < |e| {
      assert v == |g| ==> e[v][j] in destinations;
      assert v < |g| ==> g[v][j] < |g|;
    }
  }

  /** The graph with the super root added as its last block. */
  function WithSuperRoot(g: Graph, destinations: seq<nat>): (e: Graph)
    requires forall v :: v in destinations ==> v < |g|
  {
    var e := g + [destinations];
    assert forall v, j :: 0 <= v < |e| && 0 <= j < |e[v]| ==> e[v][j] < |e| by {
      ClosedWithRoot(g, destinations);
    }
    e
  }

  function WithRootSource(sources: seq<seq<nat>>, destinations: seq<nat>): (s: seq<seq<nat>>) {
    seq(|sources|, v requires 0 <= v < |sources| =>
          if v in destinations then sources[v] + [|sources|] else sources[v]) + [[]]
  }

  lemma RootSourceInverse(g: Graph, sources: seq<seq<nat>>, destinations: seq<nat>)
    requires Inverse(g, sources) && forall v :: v in destinations ==> v < |g|
    ensures Inverse(WithSuperRoot(g, destinations), WithRootSource(sources, destinations))
  {
    var e, s := WithSuperRoot(g, destinations), WithRootSource(sources, destinations);
    forall u: nat, v: nat | v < |e| ensures u in s[v] <==> Edge(e, u, v) {
      if v < |g| {
        assert u in sources[v] <==> Edge(g, u, v);
      } else if Edge(e, u, v) && u < |g| {
        EdgeInRange(g, u, v);
      }
    }
  }

  lemma ReachExtends(g: Graph, destinations: seq<nat>, u: nat, v: nat)
    requires (forall v :: v in destinations ==> v < |g|) && Reach(g, u, v)
    ensures Reach(WithSuperRoot(g, destinations), u, v)
  {
    var p :| IsPath(g, p, u, v);
    var e := WithSuperRoot(g, destinations);
    forall i | 0 < i < |p| ensures Edge(e, p[i - 1], p[i]) {
      assert Edge(g, p[i - 1], p[i]);
    }
    assert IsPath(e, p, u, v);
  }

  lemma ComponentFrom(g: Graph, sccId: seq<nat>, discovery: seq<nat>, sources: seq<seq<nat>>, destinations: seq<nat>,
                      w: nat, v: nat)
    requires IsDecomposition(g, sccId, discovery) && |sources| == |g| && (forall v :: v in destinations ==> v < |g|)
    requires w < |g| && v < |g| && sccId[w] == sccId[v] && Reach(WithSuperRoot(g, destinations), |g|, w)
    ensures Reach(WithSuperRoot(g, destinations), |g|, v)
  {
    hide Reach, HasEarlierSource;
    assert Reach(g, w, v);
    ReachExtends(g, destinations, w, v);
    ReachTrans(WithSuperRoot(g, destinations), |g|, w, v);
  }

  /** Every component has a block that comes first. */
  lemma FirstExists(g: Graph, sccId: seq<nat>, discovery: seq<nat>, v: nat) returns (f: nat)
    requires IsDecomposition(g, sccId, discovery) && v < |g|
    ensures f < |g| && sccId[f] == sccId[v] && First(sccId, discovery, f)
  {
    hide Reach, HasEarlierSource, Edge;
    f := v;
    var i := 0;
    while i < |g|
      invariant 0 <= i <= |g| && f < |g| && sccId[f] == sccId[v]
      invariant forall w: nat :: w < i && sccId[w] == sccId[v] ==> w == f || Above(sccId, discovery, f, w)
    {
      if sccId[i] == sccId[v] && discovery[i] > discovery[f] {
        f := i;
      }
      i := i + 1;
    }
  }

  /** The super root reaches every block of every control-flow graph. */
  lemma SuperRootReachesAll(g: Graph, sccId: seq<nat>, discovery: seq<nat>, sources: seq<seq<nat>>,
                            destinations: seq<nat>, v: nat, bound: nat)
    requires IsDecomposition(g, sccId, discovery) && Inverse(g, sources)
    requires AreRoots(sccId, discovery, sources, destinations)
    requires v < |g| && forall w: nat :: w < |g| ==> sccId[w] < bound
    ensures Reach(WithSuperRoot(g, destinations), |g|, v)
    decreases bound - sccId[v]
  {
    hide Reach, HasEarlierSource, First;
    var e := WithSuperRoot(g, destinations);
    if Entered(sources, sccId, v) {
      var w: nat :| w < |sccId| && sccId[w] == sccId[v] && HasOuterSource(sources, sccId, w);
      var k :| 0 <= k < |sources[w]| && sources[w][k] < |sccId| && sccId[sources[w][k]] != sccId[w];
      var u := sources[w][k];
      assert u in sources[w];
      assert Edge(g, u, w) && sccId[w] <= sccId[u];
      SuperRootReachesAll(g, sccId, discovery, sources, destinations, u, bound);
      assert Edge(e, u, w);
      ReachEdge(e, u, w);
      ReachTrans(e, |g|, u, w);
      ComponentFrom(g, sccId, discovery, sources, destinations, w, v);
    } else {
      var f := FirstExists(g, sccId, discovery, v);
      assert !Entered(sources, sccId, f);
      assert Edge(e, |g|, f);
      ReachEdge(e, |g|, f);
      ComponentFrom(g, sccId, discovery, sources, destinations, f, v);
    }
  }
}
