/**
 The control-flow analysis as a whole: components, topological order, super root and dominance
 hierarchy, for an arbitrary control-flow graph. Blocks are numbered in the order of their keys;
 the super root is the block behind the last one.
 */
module ControlFlow {
  import opened Graphs
  import opened Sorting
  import opened Tarjan
  import opened Topology
  import opened Gates
  import opened Dominance

  // ---------------------------------------------------------------- the program

  /**
   Moves the later of two blocks to its parent until they meet. The walk ends, never reads an unknown
   parent and never compares two blocks of equal index; the crests of the result are the common ones.
   */
  method IntersectDominators(sccId: seq<nat>, discovery: seq<nat>, parent: seq<nat>, a: nat, b: nat,
                             ghost g: Graph, ghost root: nat, ghost rank: seq<nat>, ghost time: seq<nat>)
    returns (r: nat)
    requires Forest(g, root, rank, parent, time) && Agrees(rank, sccId, discovery)
    requires Set(parent, a) && Set(parent, b)
    ensures Set(parent, r)
    ensures forall z: nat :: Crest(rank, parent, r, z) <==> Crest(rank, parent, a, z) && Crest(rank, parent, b, z)
  {
    hide Crest, Above;
    var x: nat, y: nat := a, b;
    while x != y
      invariant Set(parent, x) && Set(parent, y)
      invariant forall z: nat :: Crest(rank, parent, x, z) && Crest(rank, parent, y, z) <==>
                                 Crest(rank, parent, a, z) && Crest(rank, parent, b, z)
      decreases time[x] + time[y]
    {
      if Above(sccId, discovery, x, y) {
        forall z: nat { MovesUp(g, root, rank, parent, x, y, z); }
        assert ParentBefore(parent, time, y);
        y := parent[y];
      } else {
        assert Above(sccId, discovery, y, x);
        forall z: nat { MovesUp(g, root, rank, parent, y, x, z); }
        assert ParentBefore(parent, time, x);
        x := parent[x];
      }
    }
    r := y;
  }

  /** Intersects the known sources of a block. */
  method MeetSources(sccId: seq<nat>, discovery: seq<nat>, parent: seq<nat>, sources: seq<nat>,
                     ghost g: Graph, ghost root: nat, ghost rank: seq<nat>, ghost time: seq<nat>)
    returns (dominator: nat)
    requires Forest(g, root, rank, parent, time) && Agrees(rank, sccId, discovery)
    requires forall p :: p in sources ==> p < |parent|
    ensures IsMeet(rank, parent, sources, dominator)
  {
    hide Crest, Agrees, IsMeet;
    dominator := UNSET;
    MeetOfNone(rank, parent);
    for i := 0 to |sources|
      invariant dominator == UNSET || Set(parent, dominator)
      invariant IsMeet(rank, parent, sources[..i], dominator)
    {
      var p := sources[i];
      assert p in sources && sources[..i + 1] == sources[..i] + [p];
      ghost var before := dominator;
      if parent[p] != UNSET {
        if dominator == UNSET {
          dominator := p;
        } else {
          dominator := IntersectDominators(sccId, discovery, parent, p, dominator, g, root, rank, time);
        }
      }
      MeetExtends(rank, parent, sources[..i], before, p, dominator);
    }
    assert sources[..|sources|] == sources;
  }

  /** One pass over the topological order. */
  method SweepOnce(sccId: seq<nat>, discovery: seq<nat>, sources: seq<seq<nat>>, order: seq<nat>, parent: seq<nat>,
                   ghost g: Graph, ghost root: nat, ghost rank: seq<nat>, ghost time: seq<nat>, ghost clock: nat)
    returns (next: seq<nat>, terminate: bool, ghost time': seq<nat>, ghost clock': nat)
    requires Good(g, root, rank, parent, time, clock) && Ranked(|g|, root, order, rank)
    requires Inverse(g, sources) && Agrees(rank, sccId, discovery)
    ensures Good(g, root, rank, next, time', clock') && IsPass(g, root, rank, parent, next, terminate)
  {
    hide Crest, Good, IsPartPass, IsMeet, IsPass, Agrees;
    next, terminate, time', clock' := parent, true, time, clock;
    assert |parent| == |g| && RootFirst(g, root, rank) && parent[root] == root < UNSET by {
      GoodForest(g, root, rank, parent, time, clock);
    }
    PassStarts(g, root, rank, order, parent);
    for i := 0 to |order|
      invariant |next| == |g| && Good(g, root, rank, next, time', clock')
      invariant IsPartPass(g, root, rank, order, parent, next, i, terminate)
    {
      var b := order[i];
      GoodForest(g, root, rank, next, time', clock');
      SourcesInRange(g, sources, b);
      var d := MeetSources(sccId, discovery, next, sources[b], g, root, rank, time');
      if d == UNSET {
        PassSkips(g, root, rank, order, parent, next, i, terminate, time', clock', sources);
      } else {
        PassSteps(g, root, rank, order, parent, next, i, terminate, time', clock', sources, d);
        StepGood(g, root, rank, next, time', clock', sources, b, d);
        time', clock' := NextTime(next, time', clock', b), clock' + 1;
      }
      assert next[b] == d ==> next[b := d] == next;
      if next[b] != d {
        next, terminate := next[b := d], false;
      }
    }
    PassFinishes(g, root, rank, order, parent, next, terminate);
  }

  lemma GoodForest(g: Graph, root: nat, rank: seq<nat>, parent: seq<nat>, time: seq<nat>, clock: nat)
    requires Good(g, root, rank, parent, time, clock)
    ensures Forest(g, root, rank, parent, time) && |parent| == |g| == |time| && parent[root] == root < UNSET
    ensures RootFirst(g, root, rank)
  {
  }

  lemma SourcesInRange(g: Graph, sources: seq<seq<nat>>, b: nat)
    requires Inverse(g, sources) && b < |g|
    ensures forall p :: p in sources[b] ==> p < |g|
  {
    forall p | p in sources[b] ensures p < |g| {
      assert Edge(g, p, b);
    }
  }

  lemma InverseSize(g: Graph, sources: seq<seq<nat>>)
    requires Inverse(g, sources)
    ensures |sources| == |g|
  {
  }

  /**
   Passes over the topological order until one of them changes no parent. At most twice as many passes
   as there are blocks, and one more, are needed, whatever the graph.
   */
  method DominanceHierarchy(sccId: seq<nat>, discovery: seq<nat>, sources: seq<seq<nat>>, order: seq<nat>, root: nat,
                            ghost g: Graph, ghost rank: seq<nat>)
    returns (parent: seq<nat>, ghost passes: nat)
    requires Inverse(g, sources) && Ranked(|g|, root, order, rank) && Agrees(rank, sccId, discovery) && |g| < UNSET
    requires forall v: nat :: v < |g| ==> Reach(g, root, v)
    ensures IsHierarchy(g, root, rank, parent)
    ensures passes <= 2 * |g| + 1
  {
    hide Good, IsPass, IsHierarchy, Settled, Reach, Agrees, Inverse, Ranked;
    RankedIsFirst(g, root, order, rank);
    assert |sources| == |g| by { InverseSize(g, sources); }
    parent, passes := Initial(|sources|, root), 0;
    InitialGood(g, root, rank);
    ghost var time: seq<nat>, clock: nat, level: nat := seq(|g|, _ => 0), 1, 0;
    var terminate := false;
    while !terminate
      invariant Good(g, root, rank, parent, time, clock) && |parent| == |g|
      invariant level <= |g| && (level > 0 ==> Settled(g, root, rank, parent, level))
      invariant |Known(parent)| <= |g|
      invariant passes + 1 <= Gained(g, root, rank, parent, level) + (if terminate then 1 else 0)
      invariant terminate ==> IsHierarchy(g, root, rank, parent)
      decreases !terminate, 2 * |g| + 1 - Gained(g, root, rank, parent, level)
    {
      var next;
      ghost var time': seq<nat>, clock': nat;
      next, terminate, time', clock' := SweepOnce(sccId, discovery, sources, order, parent, g, root, rank, time, clock);
      level := Progress(g, root, rank, parent, next, terminate, time, clock, level);
      parent, time, clock, passes := next, time', clock', passes + 1;
      GoodForest(g, root, rank, parent, time, clock);
    }
  }

  /** The blocks whose parent is `p`, in the given order. */
  function ChildrenOf(order: seq<nat>, parent: seq<nat>, p: nat): seq<nat> {
    if order == [] then []
    else
      var b := order[|order| - 1];
      ChildrenOf(order[..|order| - 1], parent, p) + (if b < |parent| && parent[b] == p != b then [b] else [])
  }

  /** Lists every block with its parent. No parent is unset here, and none is the block itself. */
  method CollectChildren(order: seq<nat>, parent: seq<nat>) returns (children: seq<seq<nat>>)
    requires forall i :: 0 <= i < |order| ==> order[i] < |parent| && parent[order[i]] < |parent|
    ensures |children| == |parent| && forall p: nat :: p < |parent| ==> children[p] == ChildrenOf(order, parent, p)
  {
    children := seq(|parent|, _ => []);
    for i := 0 to |order|
      invariant |children| == |parent|
      invariant forall p: nat :: p < |parent| ==> children[p] == ChildrenOf(order[..i], parent, p)
    {
      assert order[..i + 1][..i] == order[..i];
      var b := order[i];
      var p := parent[b];
      if b != p {
        children := children[p := children[p] + [b]];
      }
    }
    assert order[..|order|] == order;
  }

  lemma {:induction false} ChildrenAre(order: seq<nat>, parent: seq<nat>, p: nat, b: nat)
    ensures b in ChildrenOf(order, parent, p) <==> b in order && b < |parent| && parent[b] == p != b
  {
    if order != [] {
      ChildrenAre(order[..|order| - 1], parent, p, b);
      assert order == order[..|order| - 1] + [order[|order| - 1]];
    }
  }

  /** What the component search leaves behind for the dominance iteration. */
  ghost predicate IsAnalyzed(g: Graph, sources: seq<seq<nat>>, sccId: seq<nat>, discovery: seq<nat>, order: seq<nat>,
                             destinations: seq<nat>) {
    && |g| + 1 < UNSET && Inverse(g, sources) && IsDecomposition(g, sccId, discovery)
    && LeadersFirst(g, sccId, discovery)
    && IsTopological(g, sccId, discovery, order) && AreRoots(sccId, discovery, sources, destinations)
  }

  /** `parent` is the hierarchy of the graph with the super root, ranked by the topological order. */
  ghost predicate HasHierarchy(g: Graph, order: seq<nat>, destinations: seq<nat>, parent: seq<nat>) {
    && (forall v :: v in destinations ==> v < |g|) && (forall v: nat :: v < |order| ==> v in order)
    && IsHierarchy(WithSuperRoot(g, destinations), |g|, Ranks(order), parent)
  }

  /** The whole analysis of a control-flow graph. */
  method Analyze(g: Graph, sources: seq<seq<nat>>)
    returns (sccId: seq<nat>, discovery: seq<nat>, order: seq<nat>, destinations: seq<nat>, parent: seq<nat>,
             children: seq<seq<nat>>)
    requires |g| + 1 < UNSET && Inverse(g, sources)
    ensures IsAnalyzed(g, sources, sccId, discovery, order, destinations)
    ensures HasHierarchy(g, order, destinations, parent)
    ensures |children| == |g| + 1 && forall p: nat :: p <= |g| ==> children[p] == ChildrenOf(order, parent, p)
  {
    hide IsTopological, AreRoots, TopologicalOrder, Reach, HasEarlierSource, Edge, IsHierarchy, LeadersFirst, Ranks,
         IsPermutation, Inverse, Agrees, Ranked, WithSuperRoot, WithRootSource, IsDecomposition;
    sccId, discovery := FindComponents(g);
    DecompositionSizes(g, sccId, discovery);
    order := TopologicalOrder(sccId, discovery);
    OrderIsTopological(g, sccId, discovery);
    InverseSize(g, sources);
    destinations := SuperRootDestinations(g, sccId, discovery, sources, order);
    TopologicalIsPermutation(g, sccId, discovery, order);
    PermutationMembers(order, |g|);
    ghost var e := Extended(g, sources, sccId, discovery, order, destinations);
    var all := WithRootSource(sources, destinations);
    ghost var passes;
    parent, passes := DominanceHierarchy(sccId + [UNSET], discovery + [UNSET], all, order, |g|, e, Ranks(order));
    OrderInRange(g, sccId, discovery, order);
    forall i | 0 <= i < |order| ensures order[i] < |parent| && parent[order[i]] < |parent| {
      ExitIsSound(g, sources, sccId, discovery, order, destinations, parent, order[i]);
    }
    HierarchyRoot(e, |g|, Ranks(order), parent);
    children := CollectChildren(order, parent);
  }

  /** The graph with the super root meets what the dominance iteration requires. */
  lemma Extended(g: Graph, sources: seq<seq<nat>>, sccId: seq<nat>, discovery: seq<nat>, order: seq<nat>,
                 destinations: seq<nat>)
    returns (e: Graph)
    requires IsAnalyzed(g, sources, sccId, discovery, order, destinations)
    ensures (forall v :: v in destinations ==> v < |g|) && e == WithSuperRoot(g, destinations) && |e| == |g| + 1
    ensures Inverse(e, WithRootSource(sources, destinations))
    ensures IsPermutation(order, |g|) && Ranked(|e|, |g|, order, Ranks(order))
    ensures Agrees(Ranks(order), sccId + [UNSET], discovery + [UNSET])
    ensures forall v: nat :: v < |e| ==> Reach(e, |g|, v)
  {
    hide IsTopological, Reach, HasEarlierSource, Edge, Ranks, Agrees, Ranked, First, Entered, LeadersFirst;
    TopologicalIsPermutation(g, sccId, discovery, order);
    e := WithSuperRoot(g, destinations);
    ExtendedSize(g, destinations);
    RootSourceInverse(g, sources, destinations);
    RanksRanked(order);
    RanksAgree(g, sccId, discovery, order);
    forall v: nat | v < |e| ensures Reach(e, |g|, v) {
      if v < |g| {
        SuperRootReachesAll(g, sccId, discovery, sources, destinations, v, |g|);
      } else {
        ReachRefl(e, v);
      }
    }
  }

  lemma PermutationMembers(order: seq<nat>, n: nat)
    requires IsPermutation(order, n)
    ensures |order| == n && forall v: nat :: v < n ==> v in order
  {
  }

  // ---------------------------------------------------------------- ranks of the analyzed graph

  ghost function RankOf(order: seq<nat>, v: nat): (i: nat)
    requires v in order
    ensures 0 < i <= |order| && order[i - 1] == v
  {
    var i :| 0 <= i < |order| && order[i] == v;
    i + 1
  }

  ghost function Ranks(order: seq<nat>): (rank: seq<nat>)
    requires forall v: nat :: v < |order| ==> v in order
    ensures |rank| == |order| + 1
  {
    seq(|order|, v requires 0 <= v < |order| => RankOf(order, v)) + [0]
  }

  lemma RanksRanked(order: seq<nat>)
    requires IsPermutation(order, |order|)
    ensures Ranked(|order| + 1, |order|, order, Ranks(order))
  {
    var rank := Ranks(order);
    forall i | 0 <= i < |order| ensures order[i] < |order| + 1 && order[i] != |order| && rank[order[i]] == i + 1 {
      assert order[RankOf(order, order[i]) - 1] == order[i];
    }
  }

  lemma RanksAgree(g: Graph, sccId: seq<nat>, discovery: seq<nat>, order: seq<nat>)
    requires IsDecomposition(g, sccId, discovery) && IsTopological(g, sccId, discovery, order) && |g| < UNSET
    ensures Agrees(Ranks(order), sccId + [UNSET], discovery + [UNSET])
  {
    hide Reach, HasEarlierSource, Edge;
    var rank := Ranks(order);
    forall a: nat, b: nat | a < |rank| && b < |rank|
      ensures Above(sccId + [UNSET], discovery + [UNSET], a, b) <==> rank[a] < rank[b]
    {
      if a < |g| && b < |g| {
        assert order[rank[a] - 1] == a && order[rank[b] - 1] == b;
        if rank[a] < rank[b] {
          assert Above(sccId, discovery, order[rank[a] - 1], order[rank[b] - 1]);
        } else if rank[b] < rank[a] {
          assert Above(sccId, discovery, order[rank[b] - 1], order[rank[a] - 1]);
        }
      }
    }
  }

  // ---------------------------------------------------------------- the ordering hypothesis

  /** A component that is entered from another component is entered at its first block. */
  ghost predicate EnteredAtFirst(sccId: seq<nat>, discovery: seq<nat>, sources: seq<seq<nat>>)
    requires |sccId| == |discovery| == |sources|
  {
    forall v: nat :: v < |sccId| && First(sccId, discovery, v) && Entered(sources, sccId, v) ==>
      HasOuterSource(sources, sccId, v)
  }

  /** Every block has an earlier source exactly when every entered component is entered at its first block. */
  lemma EarlierSourcesIff(g: Graph, sources: seq<seq<nat>>, sccId: seq<nat>, discovery: seq<nat>, order: seq<nat>,
                          destinations: seq<nat>)
    requires IsAnalyzed(g, sources, sccId, discovery, order, destinations)
    ensures |Ranks(order)| == |g| + 1
    ensures EarlierSources(WithSuperRoot(g, destinations), |g|, Ranks(order)) <==>
      EnteredAtFirst(sccId, discovery, sources)
  {
    hide Reach, IsTopological, First, Entered, HasOuterSource, Edge, HasEarlierSource;
    OrderInRange(g, sccId, discovery, order);
    TopologicalIsPermutation(g, sccId, discovery, order);
    var e, rank := WithSuperRoot(g, destinations), Ranks(order);
    hide Ranks, IsDecomposition, AreRoots, WithSuperRoot;
    forall v: nat | v < |g|
      ensures HasEarlier(e, rank, v) <==>
        (First(sccId, discovery, v) && Entered(sources, sccId, v) ==> HasOuterSource(sources, sccId, v))
    {
      HasEarlierIff(g, sources, sccId, discovery, order, destinations, v);
    }
    assert |e| == |g| + 1 by { ExtendedSize(g, destinations); }
  }

  lemma ExtendedSize(g: Graph, destinations: seq<nat>)
    requires forall v :: v in destinations ==> v < |g|
    ensures |WithSuperRoot(g, destinations)| == |g| + 1
  {
  }

  lemma TopologicalIsPermutation(g: Graph, sccId: seq<nat>, discovery: seq<nat>, order: seq<nat>)
    requires |sccId| == |discovery| == |g| && IsTopological(g, sccId, discovery, order)
    ensures IsPermutation(order, |g|)
  {
  }

  /** A block above `v` in its own component precedes `v` in the ranks as well. */
  lemma AboveIsEarlier(g: Graph, sources: seq<seq<nat>>, sccId: seq<nat>, discovery: seq<nat>, order: seq<nat>,
                       destinations: seq<nat>, u: nat, v: nat)
    requires IsAnalyzed(g, sources, sccId, discovery, order, destinations) && v < |g| && u < |g|
    requires IsPermutation(order, |g|)
    ensures Above(sccId, discovery, u, v) <==> Ranks(order)[u] < Ranks(order)[v]
  {
    hide IsDecomposition, IsTopological, AreRoots, Inverse, Ranks;
    RanksAgree(g, sccId, discovery, order);
    assert Above(sccId + [UNSET], discovery + [UNSET], u, v) <==> Above(sccId, discovery, u, v) by {
      DecompositionSizes(g, sccId, discovery);
    }
  }

  lemma DecompositionSizes(g: Graph, sccId: seq<nat>, discovery: seq<nat>)
    requires IsDecomposition(g, sccId, discovery)
    ensures |sccId| == |discovery| == |g|
  {
  }

  /** A block that is not first in its component has an earlier source inside the component. */
  lemma InnerSource(g: Graph, sources: seq<seq<nat>>, sccId: seq<nat>, discovery: seq<nat>, order: seq<nat>,
                    destinations: seq<nat>, v: nat)
    requires IsAnalyzed(g, sources, sccId, discovery, order, destinations) && v < |g| && IsPermutation(order, |g|)
    requires !First(sccId, discovery, v)
    ensures HasEarlier(WithSuperRoot(g, destinations), Ranks(order), v)
  {
    hide IsTopological, Inverse, Reach, Ranks;
    assert HasEarlierSource(g, sccId, discovery, v);
    var w :| 0 <= w < |g| && Edge(g, w, v) && sccId[w] == sccId[v] && discovery[w] > discovery[v];
    AboveIsEarlier(g, sources, sccId, discovery, order, destinations, w, v);
    assert EarlierSource(WithSuperRoot(g, destinations), Ranks(order), w, v);
  }

  /** A first block of an entered component has an earlier source exactly when it has one in another component. */
  lemma FirstSource(g: Graph, sources: seq<seq<nat>>, sccId: seq<nat>, discovery: seq<nat>, order: seq<nat>,
                    destinations: seq<nat>, v: nat)
    requires IsAnalyzed(g, sources, sccId, discovery, order, destinations) && v < |g| && IsPermutation(order, |g|)
    requires First(sccId, discovery, v) && Entered(sources, sccId, v)
    ensures HasEarlier(WithSuperRoot(g, destinations), Ranks(order), v) <==> HasOuterSource(sources, sccId, v)
  {
    hide IsTopological, Reach, HasEarlierSource, Ranks;
    var e, rank := WithSuperRoot(g, destinations), Ranks(order);
    if HasOuterSource(sources, sccId, v) {
      var k :| 0 <= k < |sources[v]| && sources[v][k] < |sccId| && sccId[sources[v][k]] != sccId[v];
      var u := sources[v][k];
      assert u in sources[v] && Edge(g, u, v);
      AboveIsEarlier(g, sources, sccId, discovery, order, destinations, u, v);
      assert EarlierSource(e, rank, u, v);
    }
    if HasEarlier(e, rank, v) {
      var p: nat :| EarlierSource(e, rank, p, v);
      assert v !in destinations;
      assert p < |g| && Edge(g, p, v) && p in sources[v];
      AboveIsEarlier(g, sources, sccId, discovery, order, destinations, p, v);
      var k :| 0 <= k < |sources[v]| && sources[v][k] == p;
      assert sccId[sources[v][k]] != sccId[v];
    }
  }

  lemma HasEarlierIff(g: Graph, sources: seq<seq<nat>>, sccId: seq<nat>, discovery: seq<nat>, order: seq<nat>,
                      destinations: seq<nat>, v: nat)
    requires IsAnalyzed(g, sources, sccId, discovery, order, destinations) && v < |g| && IsPermutation(order, |g|)
    ensures HasEarlier(WithSuperRoot(g, destinations), Ranks(order), v) <==>
      (First(sccId, discovery, v) && Entered(sources, sccId, v) ==> HasOuterSource(sources, sccId, v))
  {
    hide First, Entered, HasOuterSource, IsTopological, Reach, HasEarlierSource;
    if !First(sccId, discovery, v) {
      InnerSource(g, sources, sccId, discovery, order, destinations, v);
    } else if !Entered(sources, sccId, v) {
      assert v in destinations;
      RanksRanked(order);
      assert EarlierSource(WithSuperRoot(g, destinations), Ranks(order), |g|, v);
    } else {
      FirstSource(g, sources, sccId, discovery, order, destinations, v);
    }
  }

  // ---------------------------------------------------------------- the main results

  /**
   For every control-flow graph: no parent is unset, following parents from any block ends at the
   super root, and every path from the super root to the block passes through all blocks above it.
   */
  lemma ExitIsSound(g: Graph, sources: seq<seq<nat>>, sccId: seq<nat>, discovery: seq<nat>, order: seq<nat>,
                    destinations: seq<nat>, parent: seq<nat>, b: nat)
    requires IsAnalyzed(g, sources, sccId, discovery, order, destinations) && b < |g|
    requires HasHierarchy(g, order, destinations, parent)
    ensures |parent| == |g| + 1 && parent[b] <= |g| && parent[b] != b && Anc(parent, b, |g|)
    ensures forall y: nat :: Anc(parent, b, y) ==> Dominates(WithSuperRoot(g, destinations), |g|, y, b)
  {
    hide IsAnalyzed, Reach, IsPath, IsHierarchy, WithSuperRoot, Ranks, Inverse, Agrees, Ranked, IsPermutation;
    var e := Extended(g, sources, sccId, discovery, order, destinations);
    var rank := Ranks(order);
    HierarchyRoot(e, |g|, rank, parent);
    ParentDiffers(e, |g|, rank, parent, b);
    var q := SomePath(e, |g|, b);
    var k := RootIsAbove(e, |g|, rank, parent, b, q);
    var i := ParentOnPath(e, |g|, rank, parent, b, q);
    assert parent[b] < |e| by { PathInRange(e, q, |g|, b, i); }
    forall y: nat, p | Anc(parent, b, y) && IsPath(e, p, |g|, b) ensures y in p {
      var j: nat :| Up(parent, b, j) == y;
      AncestorsDominate(e, |g|, rank, parent, b, j, p);
    }
  }

  lemma PathInRange(g: Graph, q: seq<nat>, u: nat, v: nat, i: nat)
    requires IsPath(g, q, u, v) && i < |q|
    ensures q[i] < |g|
  {
  }

  /** A block is listed with one parent, and can only be reached through it. */
  lemma ChildrenAreDominated(g: Graph, sources: seq<seq<nat>>, sccId: seq<nat>, discovery: seq<nat>, order: seq<nat>,
                             destinations: seq<nat>, parent: seq<nat>, p: nat, b: nat)
    requires IsAnalyzed(g, sources, sccId, discovery, order, destinations)
    requires HasHierarchy(g, order, destinations, parent)
    ensures |parent| == |g| + 1
    ensures b in ChildrenOf(order, parent, p) <==> b < |g| && parent[b] == p
    ensures b in ChildrenOf(order, parent, p) ==> Dominates(WithSuperRoot(g, destinations), |g|, p, b)
  {
    hide IsHierarchy, WithSuperRoot, Ranks, IsDecomposition, LeadersFirst, AreRoots, Inverse, Dominates, Reach, Edge;
    DecompositionSizes(g, sccId, discovery);
    OrderInRange(g, sccId, discovery, order);
    TopologicalIsPermutation(g, sccId, discovery, order);
    var e := Extended(g, sources, sccId, discovery, order, destinations);
    HierarchyRoot(e, |g|, Ranks(order), parent);
    ChildrenAre(order, parent, p, b);
    if b < |g| {
      ExitIsSound(g, sources, sccId, discovery, order, destinations, parent, b);
      assert Up(parent, b, 1) == Up(parent, parent[b], 0);
      assert Anc(parent, b, parent[b]);
    }
  }

  /**
   For every control-flow graph and every block: the block has an immediate dominator, and its parent
   is that one if and only if the immediate dominator gates every source of the block.
   */
  lemma ExitIsImmediateIff(g: Graph, sources: seq<seq<nat>>, sccId: seq<nat>, discovery: seq<nat>, order: seq<nat>,
                           destinations: seq<nat>, parent: seq<nat>, b: nat) returns (d: nat)
    requires IsAnalyzed(g, sources, sccId, discovery, order, destinations) && b < |g|
    requires HasHierarchy(g, order, destinations, parent)
    ensures var e := WithSuperRoot(g, destinations);
      && |parent| == |e| == |Ranks(order)| && ImmediatelyDominates(e, |g|, d, b)
      && (ImmediatelyDominates(e, |g|, parent[b], b) <==> GatesSources(e, Ranks(order), d, b))
      && (ImmediatelyDominates(e, |g|, parent[b], b) <==> parent[b] == d)
  {
    hide IsAnalyzed, Reach, IsPath, IsHierarchy, WithSuperRoot, Ranks, Inverse, Agrees, Ranked, IsPermutation,
         GatesSources, Dominates;
    var e := Extended(g, sources, sccId, discovery, order, destinations);
    HierarchyRoot(e, |g|, Ranks(order), parent);
    d := ImmediateExists(e, |g|, b);
    ParentIsImmediateIff(e, |g|, Ranks(order), parent, b, d);
  }

  /**
   If every component that is entered from outside is entered at its first block, every parent is the
   immediate dominator.
   */
  lemma ExitIsExact(g: Graph, sources: seq<seq<nat>>, sccId: seq<nat>, discovery: seq<nat>, order: seq<nat>,
                    destinations: seq<nat>, parent: seq<nat>, b: nat)
    requires IsAnalyzed(g, sources, sccId, discovery, order, destinations) && b < |g|
    requires HasHierarchy(g, order, destinations, parent)
    requires EnteredAtFirst(sccId, discovery, sources)
    ensures |parent| == |g| + 1 && ImmediatelyDominates(WithSuperRoot(g, destinations), |g|, parent[b], b)
  {
    hide Reach, IsHierarchy, WithSuperRoot, Ranks, Agrees, Ranked, IsPermutation, EarlierSources, EnteredAtFirst,
         ImmediatelyDominates, IsDecomposition, LeadersFirst, IsTopological, AreRoots;
    var e := Extended(g, sources, sccId, discovery, order, destinations);
    EarlierSourcesIff(g, sources, sccId, discovery, order, destinations);
    HierarchyRoot(e, |g|, Ranks(order), parent);
    ParentIsImmediate(e, |g|, Ranks(order), parent, b);
  }

  // ---------------------------------------------------------------- the hypothesis is needed, but not necessary

  lemma OuterSource(g: Graph, sources: seq<seq<nat>>, sccId: seq<nat>, u: nat, v: nat)
    requires Inverse(g, sources) && |sccId| == |g| && v < |g| && u < |g| && Edge(g, u, v) && sccId[u] != sccId[v]
    ensures HasOuterSource(sources, sccId, v)
  {
    assert u in sources[v];
    var k :| 0 <= k < |sources[v]| && sources[v][k] == u;
  }

  lemma NoOuterSource(g: Graph, sources: seq<seq<nat>>, sccId: seq<nat>, v: nat)
    requires Inverse(g, sources) && |sccId| == |g| && v < |g|
    requires forall u: nat :: Edge(g, u, v) ==> u < |g| && sccId[u] == sccId[v]
    ensures !HasOuterSource(sources, sccId, v)
  {
    forall k | 0 <= k < |sources[v]| ensures sources[v][k] < |sccId| && sccId[sources[v][k]] == sccId[v] {
      assert sources[v][k] in sources[v];
    }
  }

  /** Block 4 jumps into the middle of the loop 0, 1, 2, 3. The immediate dominator of block 1 is block 2. */
  const LOOP: seq<seq<nat>> := [[1], [2], [3, 0], [1], [2]]

  lemma LoopGraph()
    ensures Closed(LOOP)
    ensures forall u: nat, v: nat :: Edge(LOOP, u, v) <==>
      (u, v) in {(0, 1), (1, 2), (2, 3), (2, 0), (3, 1), (4, 2)}
  {
  }

  lemma LoopReach(u: nat, v: nat)
    requires u < 4 && v < 4
    ensures Closed(LOOP) && Reach(LOOP, u, v)
  {
    LoopGraph();
    hide Reach, Edge;
    ReachEdge(LOOP, 0, 1);
    ReachEdge(LOOP, 1, 2);
    ReachEdge(LOOP, 2, 3);
    ReachEdge(LOOP, 2, 0);
    ReachEdge(LOOP, 3, 1);
    ReachTrans(LOOP, 2, 3, 1);
    ReachTrans(LOOP, 0, 1, 2);
    ReachTrans(LOOP, 3, 1, 2);
    ReachRefl(LOOP, 2);
    assert Reach(LOOP, u, 2) && Reach(LOOP, 2, v);
    ReachTrans(LOOP, u, 2, v);
  }

  lemma LoopNeverLeaves(u: nat)
    requires u < 4
    ensures Closed(LOOP) && !Reach(LOOP, u, 4)
  {
    LoopGraph();
    hide Reach, Edge;
    var s: set<nat> := {0, 1, 2, 3};
    assert ClosedSet(LOOP, s);
    if Reach(LOOP, u, 4) {
      ReachStaysIn(LOOP, s, u, 4);
      assert false;
    }
  }

  /** Whatever the analysis answers for the loop: one component, with block 0 first and entered elsewhere. */
  lemma LoopComponents(sources: seq<seq<nat>>, sccId: seq<nat>, discovery: seq<nat>, order: seq<nat>,
                       destinations: seq<nat>)
    requires Closed(LOOP) && IsAnalyzed(LOOP, sources, sccId, discovery, order, destinations)
    ensures |sccId| == |discovery| == |sources| == 5
    ensures sccId[0] == sccId[1] == sccId[2] == sccId[3] != sccId[4]
    ensures First(sccId, discovery, 0) && HasOuterSource(sources, sccId, 2) && !HasOuterSource(sources, sccId, 0)
    ensures forall v: nat :: v in destinations <==> v == 4
  {
    hide Reach, IsTopological, HasEarlierSource, Edge;
    LoopGraph();
    forall v: nat | v < 4 ensures sccId[v] == sccId[0] && sccId[v] != sccId[4] {
      LoopReach(0, v);
      LoopReach(v, 0);
      LoopNeverLeaves(v);
    }
    assert IsLeader(LOOP, 0);
    OuterSource(LOOP, sources, sccId, 4, 2);
    NoOuterSource(LOOP, sources, sccId, 0);
    NoOuterSource(LOOP, sources, sccId, 4);
    hide IsDecomposition, LeadersFirst, HasOuterSource, Inverse;
  }

  lemma LoopImmediate(e: Graph, q: seq<nat>)
    requires Closed(LOOP) && |e| == 6 && IsPath(e, q, 5, 1)
    requires forall u: nat, v: nat :: Edge(e, u, v) <==> Edge(LOOP, u, v) || (u, v) == (5, 4)
    ensures 2 in q
  {
    LoopGraph();
    hide Edge;
    var i := 0;
    while i < |q| && q[i] != 2
      invariant 0 <= i <= |q| && (i > 0 ==> q[i - 1] == 5 || q[i - 1] == 4)
    {
      if i > 0 {
        assert Edge(e, q[i - 1], q[i]);
      }
      i := i + 1;
    }
  }

  /** Both ways from block 2 to block 1 continue a path to block 2. */
  lemma LoopOtherDominators(e: Graph, x: nat)
    requires Closed(LOOP) && |e| == 6 && x != 1 && Dominates(e, 5, x, 1)
    requires forall u: nat, v: nat :: Edge(e, u, v) <==> Edge(LOOP, u, v) || (u, v) == (5, 4)
    ensures Dominates(e, 5, x, 2)
  {
    LoopGraph();
    hide Edge;
    forall q | IsPath(e, q, 5, 2) ensures x in q {
      PathExtends(e, q, 5, 2, 3);
      PathExtends(e, q + [3], 5, 3, 1);
      PathExtends(e, q, 5, 2, 0);
      PathExtends(e, q + [0], 5, 0, 1);
      assert x in q + [3] + [1] && x in q + [0] + [1];
    }
  }

  lemma LoopEdges(destinations: seq<nat>)
    requires Closed(LOOP) && forall v: nat :: v in destinations <==> v == 4
    ensures var e := WithSuperRoot(LOOP, destinations);
      |e| == 6 && forall u: nat, v: nat :: Edge(e, u, v) <==> Edge(LOOP, u, v) || (u, v) == (5, 4)
  {
  }

  /**
   Without the hypothesis the parent need not be the immediate dominator. Whatever the analysis
   answers for this graph, block 2 immediately dominates block 1 and is not its parent: block 0 is a
   source of block 1 and ranks before block 2.
   */
  lemma HypothesisIsNeeded(sources: seq<seq<nat>>, sccId: seq<nat>, discovery: seq<nat>, order: seq<nat>,
                           destinations: seq<nat>, parent: seq<nat>)
    requires Closed(LOOP) && IsAnalyzed(LOOP, sources, sccId, discovery, order, destinations)
    requires HasHierarchy(LOOP, order, destinations, parent)
    ensures !EnteredAtFirst(sccId, discovery, sources)
    ensures var e := WithSuperRoot(LOOP, destinations);
      && |parent| == 6 && ImmediatelyDominates(e, 5, 2, 1) && parent[1] != 2
      && !ImmediatelyDominates(e, 5, parent[1], 1)
  {
    hide Reach, IsTopological, HasEarlierSource, Edge, IsHierarchy, IsDecomposition, LeadersFirst, AreRoots, Ranks,
         Dominates, WithSuperRoot, Agrees, Ranked;
    LoopComponents(sources, sccId, discovery, order, destinations);
    assert First(sccId, discovery, 0) && Entered(sources, sccId, 0);
    var e := Extended(LOOP, sources, sccId, discovery, order, destinations);
    var rank := Ranks(order);
    LoopEdges(destinations);
    assert ImmediatelyDominates(e, 5, 2, 1) by {
      assert Dominates(e, 5, 2, 1) by { LoopDominates(e); }
      forall x: nat | x != 1 && Dominates(e, 5, x, 1) ensures Dominates(e, 5, x, 2) {
        LoopOtherDominators(e, x);
      }
    }
    HierarchyRoot(e, 5, rank, parent);
    ParentIsImmediateIff(e, 5, rank, parent, 1, 2);
    AboveIsEarlier(LOOP, sources, sccId, discovery, order, destinations, 0, 2);
    assert !GatesSources(e, rank, 2, 1) by {
      LoopGraph();
      assert Edge(e, 0, 1);
      assert StartsBefore(e, rank, [0], 2, 0);
    }
  }

  lemma LoopDominates(e: Graph)
    requires Closed(LOOP) && |e| == 6
    requires forall u: nat, v: nat :: Edge(e, u, v) <==> Edge(LOOP, u, v) || (u, v) == (5, 4)
    ensures Dominates(e, 5, 2, 1)
  {
    hide Edge;
    forall q | IsPath(e, q, 5, 1) ensures 2 in q {
      LoopImmediate(e, q);
    }
  }

  /** Block 2 jumps to the second block of the loop 0, 1. */
  const BACK: seq<seq<nat>> := [[1], [0], [1]]

  lemma BackGraph()
    ensures Closed(BACK)
    ensures forall u: nat, v: nat :: Edge(BACK, u, v) <==> (u, v) in {(0, 1), (1, 0), (2, 1)}
  {
  }

  lemma BackComponents(sources: seq<seq<nat>>, sccId: seq<nat>, discovery: seq<nat>, order: seq<nat>,
                       destinations: seq<nat>)
    requires Closed(BACK) && IsAnalyzed(BACK, sources, sccId, discovery, order, destinations)
    ensures |sccId| == |discovery| == |sources| == 3 && sccId[0] == sccId[1] < sccId[2]
    ensures First(sccId, discovery, 0) && HasOuterSource(sources, sccId, 1) && !HasOuterSource(sources, sccId, 0)
    ensures forall v: nat :: v in destinations <==> v == 2
  {
    hide Reach, IsTopological, HasEarlierSource, Edge;
    BackGraph();
    ReachEdge(BACK, 0, 1);
    ReachEdge(BACK, 1, 0);
    assert ClosedSet(BACK, {0, 1});
    if Reach(BACK, 1, 2) {
      ReachStaysIn(BACK, {0, 1}, 1, 2);
      assert false;
    }
    assert Edge(BACK, 2, 1) && sccId[1] <= sccId[2];
    assert IsLeader(BACK, 0);
    OuterSource(BACK, sources, sccId, 2, 1);
    NoOuterSource(BACK, sources, sccId, 0);
    NoOuterSource(BACK, sources, sccId, 2);
  }

  /** From the super root the only way on is through block 2. */
  lemma BackPath(e: Graph, q: seq<nat>, b: nat)
    requires |e| == 4 && b < 3 && IsPath(e, q, 3, b) && forall v: nat :: Edge(e, 3, v) <==> v == 2
    ensures 2 in q
  {
    assert Edge(e, q[1 - 1], q[1]);
  }

  lemma BackGates(e: Graph, rank: seq<nat>)
    requires Closed(BACK) && |e| == |rank| == 4
    requires forall u: nat, v: nat :: Edge(e, u, v) <==> (u, v) in {(0, 1), (1, 0), (2, 1), (3, 2)}
    requires rank[2] < rank[0] && rank[2] < rank[1]
    ensures ImmediatelyDominates(e, 3, 2, 1) && GatesSources(e, rank, 2, 1)
  {
    hide Edge;
    forall q | IsPath(e, q, 3, 1) ensures 2 in q {
      BackPath(e, q, 1);
    }
    forall x: nat, q | x != 1 && Dominates(e, 3, x, 1) && IsPath(e, q, 3, 2) ensures x in q {
      PathExtends(e, q, 3, 2, 1);
      assert x in q + [1];
    }
    forall p: nat, q | Edge(e, p, 1) && StartsBefore(e, rank, q, 2, p) ensures 2 in q {
      assert q[0] == 3;
      BackPath(e, q, p);
    }
  }

  lemma BackEdges(destinations: seq<nat>)
    requires Closed(BACK) && forall v: nat :: v in destinations <==> v == 2
    ensures var e := WithSuperRoot(BACK, destinations);
      |e| == 4 && forall u: nat, v: nat :: Edge(e, u, v) <==> (u, v) in {(0, 1), (1, 0), (2, 1), (3, 2)}
  {
    BackGraph();
    assert forall u: nat, v: nat :: Edge(WithSuperRoot(BACK, destinations), u, v) <==>
      Edge(BACK, u, v) || (u, v) == (3, 2);
  }

  /** The hypothesis is not necessary: whatever the analysis answers here, every parent is the immediate dominator. */
  lemma HypothesisIsNotNecessary(sources: seq<seq<nat>>, sccId: seq<nat>, discovery: seq<nat>, order: seq<nat>,
                                 destinations: seq<nat>, parent: seq<nat>)
    requires Closed(BACK) && IsAnalyzed(BACK, sources, sccId, discovery, order, destinations)
    requires HasHierarchy(BACK, order, destinations, parent)
    ensures !EnteredAtFirst(sccId, discovery, sources)
    ensures |parent| == 4
    ensures forall b: nat :: b < 3 ==> ImmediatelyDominates(WithSuperRoot(BACK, destinations), 3, parent[b], b)
  {
    hide Reach, IsTopological, HasEarlierSource, Edge, IsHierarchy, IsDecomposition, LeadersFirst, AreRoots, Ranks,
         Dominates, WithSuperRoot, Agrees, Ranked, GatesSources;
    BackComponents(sources, sccId, discovery, order, destinations);
    assert First(sccId, discovery, 0) && Entered(sources, sccId, 0);
    var e := Extended(BACK, sources, sccId, discovery, order, destinations);
    var rank := Ranks(order);
    BackEdges(destinations);
    HierarchyRoot(e, 3, rank, parent);
    AboveIsEarlier(BACK, sources, sccId, discovery, order, destinations, 2, 0);
    AboveIsEarlier(BACK, sources, sccId, discovery, order, destinations, 2, 1);
    OnlySource(e, 3, rank, 1, 0);
    ParentIsImmediateIff(e, 3, rank, parent, 0, 1);
    BackGates(e, rank);
    ParentIsImmediateIff(e, 3, rank, parent, 1, 2);
    OnlySource(e, 3, rank, 3, 2);
    ParentIsImmediateIff(e, 3, rank, parent, 2, 3);
  }
}
