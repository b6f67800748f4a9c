/**
 The strongly connected components of the control-flow graph: an iterative depth-first search
 with an explicit recursion stack, a component stack, low links, and a `discovery` field that is
 reused for the position inside the component once a component is closed.
 */
module Tarjan {
  import opened Graphs

  /** The sentinel for "not yet discovered" and "no component yet" (`usize::MAX`). */
  const UNSET: nat := 0xFFFF_FFFF_FFFF_FFFF

  /**
   A snapshot of the search. The fields of the first two lines are the variables of the program.
   The last line is proof state: the true discovery number (-1 before discovery), the tree parent
   (-1 for a root), the blocks being visited and how many edges of each have been followed.
   */
  datatype Search = Search(
    discovery: seq<nat>, lowlink: seq<nat>, sccId: seq<nat>, onStack: seq<bool>,
    stack: seq<nat>, ids: nat, discovered: nat,
    num: seq<int>, parent: seq<int>, path: seq<nat>, edge: seq<nat>)

  // ---------------------------------------------------------------- the invariant

  ghost function Seen(s: Search): set<nat> {
    set v: nat | v < |s.num| && s.num[v] >= 0
  }

  ghost predicate Sizes(g: Graph, s: Search) {
    && |g| < UNSET
    && |s.discovery| == |s.lowlink| == |s.sccId| == |s.onStack| == |s.num| == |s.parent| == |g|
    && |s.path| == |s.edge|
    && |s.stack| + s.ids <= s.discovered
    && s.discovered == |Seen(s)| <= |g|
    && (forall a :: 0 <= a < |s.stack| ==> s.stack[a] < |g|)
    && (forall i :: 0 <= i < |s.path| ==> s.path[i] < |g|)
  }

  ghost predicate Numbering(g: Graph, s: Search)
    requires Sizes(g, s)
  {
    && (forall v :: 0 <= v < |g| ==> -1 <= s.num[v] < s.discovered)
    && (forall u, v :: 0 <= u < v < |g| && s.num[u] >= 0 ==> s.num[u] != s.num[v])
    && (forall v :: 0 <= v < |g| ==> (s.discovery[v] == UNSET <==> s.num[v] == -1))
    && (forall v :: 0 <= v < |g| && s.onStack[v] ==> s.discovery[v] == s.num[v])
    && (forall v :: 0 <= v < |g| ==> (s.onStack[v] <==> s.num[v] >= 0 && s.sccId[v] == UNSET))
    && (forall v :: 0 <= v < |g| && s.sccId[v] != UNSET ==> s.sccId[v] < s.ids && s.num[v] >= 0)
  }

  ghost predicate Stacks(g: Graph, s: Search)
    requires Sizes(g, s)
  {
    && (forall v :: 0 <= v < |g| ==> (s.onStack[v] <==> v in s.stack))
    && (forall a, b :: 0 <= a < b < |s.stack| ==> s.num[s.stack[a]] < s.num[s.stack[b]])
  }

  /** The blocks being visited, oldest first, each found along the last followed edge of the previous. */
  ghost predicate Visiting(g: Graph, s: Search)
    requires Sizes(g, s)
  {
    && (forall i :: 0 <= i < |s.path| ==> s.onStack[s.path[i]])
    && (forall i, j :: 0 <= i < j < |s.path| ==> s.num[s.path[i]] < s.num[s.path[j]])
    && (forall i :: 0 <= i < |s.path| ==> s.edge[i] <= |g[s.path[i]]|)
    && (forall i :: 0 <= i < |s.path| - 1 ==> Linked(g, s, i))
  }

  ghost predicate Linked(g: Graph, s: Search, i: nat)
    requires |s.path| == |s.edge| && i + 1 < |s.path| && s.path[i] < |g| && s.edge[i] <= |g[s.path[i]]|
  {
    s.edge[i] > 0 && g[s.path[i]][s.edge[i] - 1] == s.path[i + 1]
  }

  /** Everything on the component stack reaches everything above it. */
  ghost predicate ReachesUp(g: Graph, s: Search)
    requires Sizes(g, s)
  {
    forall x, y :: 0 <= x < |g| && 0 <= y < |g| && s.onStack[x] && s.onStack[y] && s.num[x] <= s.num[y] ==>
      Reach(g, x, y)
  }

  /** `y` reaches a block that is being visited and was discovered no later. */
  ghost predicate Anchored(g: Graph, s: Search, y: nat)
    requires Sizes(g, s) && y < |g|
  {
    exists i :: 0 <= i < |s.path| && s.num[s.path[i]] <= s.num[y] && Reach(g, y, s.path[i])
  }

  ghost predicate AllAnchored(g: Graph, s: Search)
    requires Sizes(g, s)
  {
    forall y {:trigger Anchored(g, s, y)} :: 0 <= y < |g| && s.onStack[y] ==> Anchored(g, s, y)
  }

  /** Followed edges lead to discovered blocks; a finished block has followed all of its edges. */
  ghost predicate Explored(g: Graph, s: Search)
    requires Sizes(g, s)
  {
    && (forall v, z: nat :: 0 <= v < |g| && s.num[v] >= 0 && v !in s.path && Edge(g, v, z) ==>
          z < |g| && s.num[z] >= 0)
    && (forall i, j :: 0 <= i < |s.path| && 0 <= j < s.edge[i] && j < |g[s.path[i]]| ==>
          s.num[g[s.path[i]][j]] >= 0)
  }

  /** Closed components are exactly classes of mutual reachability, and edges never leave them upwards. */
  ghost predicate Components(g: Graph, s: Search)
    requires Sizes(g, s)
  {
    && (forall v, z: nat :: 0 <= v < |g| && s.sccId[v] != UNSET && Edge(g, v, z) ==>
          z < |g| && s.sccId[z] <= s.sccId[v])
    && (forall u, v :: 0 <= u < |g| && 0 <= v < |g| && s.sccId[u] != UNSET ==>
          (s.sccId[u] == s.sccId[v] <==> Reach(g, u, v) && Reach(g, v, u)))
  }

  /**
   Inside a closed component positions fall with discovery, and all but one block have a source at
   a larger position.
   */
  ghost predicate Positions(g: Graph, s: Search)
    requires Sizes(g, s)
  {
    && (forall v :: 0 <= v < |g| && s.sccId[v] != UNSET ==> s.discovery[v] < |g|)
    && (forall u, v :: 0 <= u < |g| && 0 <= v < |g| && s.sccId[u] != UNSET && s.sccId[u] == s.sccId[v] ==>
          && (u != v ==> s.discovery[u] != s.discovery[v]) && (s.num[u] < s.num[v] ==> s.discovery[u] > s.discovery[v])
          && (s.discovery[u] > s.discovery[v] ==> HasEarlierSource(g, s.sccId, s.discovery, v)))
  }

  predicate HasEarlierSource(g: Graph, sccId: seq<nat>, discovery: seq<nat>, v: nat)
    requires |sccId| == |discovery| == |g| && v < |g|
  {
    exists w :: 0 <= w < |g| && Edge(g, w, v) && sccId[w] == sccId[v] && discovery[w] > discovery[v]
  }

  /** Tree parents: below a block being visited, every later stack block was found from a block not before it. */
  ghost predicate Tree(g: Graph, s: Search)
    requires Sizes(g, s)
  {
    forall i, v :: 0 <= i < |s.path| && 0 <= v < |g| && s.onStack[v] && s.num[s.path[i]] < s.num[v] ==>
      var p := s.parent[v];
      0 <= p < |g| && s.onStack[p] && Edge(g, p, v) && s.num[s.path[i]] <= s.num[p] < s.num[v]
  }

  /** `y` lies between visited block `i` and the next one on the component stack. */
  ghost predicate Owns(s: Search, i: nat, y: nat)
    requires i < |s.path| && y < |s.num| == |s.onStack|
    requires forall i :: 0 <= i < |s.path| ==> s.path[i] < |s.num|
  {
    s.onStack[y] && s.num[s.path[i]] <= s.num[y] && (i + 1 < |s.path| ==> s.num[y] < s.num[s.path[i + 1]])
  }

  /** Edge `j` of visited block `i` is followed and the low link already reflects it. */
  ghost predicate Accounted(s: Search, i: nat, j: int)
    requires i < |s.edge|
  {
    0 <= j < s.edge[i] && (i + 1 < |s.edge| ==> j + 1 < s.edge[i])
  }

  /** The low link of a visited block bounds every stack block that a finished block of its range leads to. */
  ghost predicate LowFinished(g: Graph, s: Search)
    requires Sizes(g, s)
  {
    forall i, y, z: nat :: 0 <= i < |s.path| && 0 <= y < |g| && Owns(s, i, y) && y != s.path[i] && Edge(g, y, z) ==>
      z < |g| && (s.onStack[z] ==> s.lowlink[s.path[i]] <= s.num[z])
  }

  /** And every stack block that an accounted edge of its own leads to. */
  ghost predicate LowEdges(g: Graph, s: Search)
    requires Sizes(g, s)
  {
    forall i, j :: 0 <= i < |s.path| && Accounted(s, i, j) && j < |g[s.path[i]]| ==>
      (s.onStack[g[s.path[i]][j]] ==> s.lowlink[s.path[i]] <= s.num[g[s.path[i]][j]])
  }

  ghost predicate LowBound(g: Graph, s: Search)
    requires Sizes(g, s)
  {
    LowFinished(g, s) && LowEdges(g, s)
  }

  /** The low link of `v` is the number of a stack block that `v` reaches. */
  ghost predicate Grounded(g: Graph, s: Search, v: nat)
    requires Sizes(g, s) && v < |g|
  {
    exists z :: 0 <= z < |g| && s.onStack[z] && s.num[z] == s.lowlink[v] && Reach(g, v, z)
  }

  ghost predicate LowWitness(g: Graph, s: Search)
    requires Sizes(g, s)
  {
    && (forall i :: 0 <= i < |s.path| ==> s.lowlink[s.path[i]] <= s.num[s.path[i]])
    && (forall i {:trigger Grounded(g, s, s.path[i])} :: 0 <= i < |s.path| ==> Grounded(g, s, s.path[i]))
  }

  ghost predicate Inv(g: Graph, s: Search) {
    && Sizes(g, s) && Numbering(g, s) && Stacks(g, s) && Visiting(g, s) && ReachesUp(g, s) && AllAnchored(g, s)
    && Explored(g, s) && Components(g, s) && Positions(g, s) && Tree(g, s) && LowBound(g, s) && LowWitness(g, s)
  }

  // ---------------------------------------------------------------- discovering a block

  ghost function Bumped(edge: seq<nat>): seq<nat> {
    if edge == [] then [] else edge[|edge| - 1 := edge[|edge| - 1] + 1]
  }

  ghost function Discover(s: Search, w: nat): Search
    requires w < |s.discovery| && |s.discovery| == |s.lowlink| == |s.onStack| == |s.num| == |s.parent|
  {
    s.(discovery := s.discovery[w := s.discovered], lowlink := s.lowlink[w := s.discovered],
       onStack := s.onStack[w := true], stack := s.stack + [w], discovered := s.discovered + 1,
       num := s.num[w := s.discovered],
       parent := s.parent[w := if s.path == [] then -1 else s.path[|s.path| - 1]],
       path := s.path + [w], edge := Bumped(s.edge) + [0])
  }

  /** `w` is undiscovered and is either a fresh root or the next edge of the block being visited. */
  ghost predicate Next(g: Graph, s: Search, w: nat)
    requires Sizes(g, s)
  {
    && w < |g| && s.num[w] == -1
    && (s.path != [] ==>
          var k := |s.path| - 1; s.edge[k] < |g[s.path[k]]| && g[s.path[k]][s.edge[k]] == w)
  }

  lemma SeenBound(s: Search)
    ensures |Seen(s)| <= |s.num|
  {
    CardinalityUpTo(Seen(s), |s.num|);
  }

  lemma {:induction false} CardinalityUpTo(s: set<nat>, n: nat)
    requires forall x :: x in s ==> x < n
    ensures |s| <= n
    decreases n
  {
    if s != {} {
      var x :| x in s;
      CardinalityUpTo(s - {n - 1}, n - 1);
    }
  }

  lemma DiscoverSizes(g: Graph, s: Search, w: nat)
    requires Sizes(g, s) && Next(g, s, w)
    ensures Sizes(g, Discover(s, w))
  {
    assert Seen(Discover(s, w)) == Seen(s) + {w};
    SeenBound(Discover(s, w));
  }

  lemma DiscoverNumbering(g: Graph, s: Search, w: nat)
    requires Sizes(g, s) && Next(g, s, w) && Sizes(g, Discover(s, w)) && Numbering(g, s)
    ensures Numbering(g, Discover(s, w))
  {
    hide Seen;
  }

  lemma DiscoverStacks(g: Graph, s: Search, w: nat)
    requires Sizes(g, s) && Next(g, s, w) && Sizes(g, Discover(s, w)) && Numbering(g, s) && Stacks(g, s)
    ensures Stacks(g, Discover(s, w))
  {
    hide Seen;
    var t := Discover(s, w);
    assert t.stack[|s.stack|] == w;
    forall v | 0 <= v < |g| ensures t.onStack[v] <==> v in t.stack {
      assert v in t.stack <==> v in s.stack || v == w;
    }
  }

  /** What discovering `w` keeps of the stack and the visited blocks. */
  lemma DiscoverKeeps(g: Graph, s: Search, w: nat)
    requires Sizes(g, s) && Next(g, s, w) && Numbering(g, s) && Visiting(g, s)
    ensures var t := Discover(s, w);
      && (forall v :: 0 <= v < |g| && s.onStack[v] ==> v != w && t.num[v] == s.num[v] < t.num[w])
      && (forall i :: 0 <= i < |s.path| ==> t.path[i] == s.path[i] && t.num[s.path[i]] == s.num[s.path[i]])
  {
    hide Seen, Reach, Linked;
  }

  lemma DiscoverLinked(g: Graph, s: Search, w: nat, i: nat)
    requires Sizes(g, s) && Next(g, s, w) && Visiting(g, s) && i < |s.path|
    ensures Discover(s, w).edge[i] <= |g[s.path[i]]| && Linked(g, Discover(s, w), i)
  {
    hide Seen;
    if i < |s.path| - 1 {
      assert Linked(g, s, i);
    }
  }

  lemma DiscoverPathOrder(g: Graph, s: Search, w: nat, i: nat, j: nat)
    requires Sizes(g, s) && Next(g, s, w) && Numbering(g, s) && Visiting(g, s) && i < j <= |s.path|
    ensures var t := Discover(s, w); t.onStack[t.path[j]] && t.onStack[t.path[i]] && t.num[t.path[i]] < t.num[t.path[j]]
  {
    DiscoverKeeps(g, s, w);
    hide Seen, Numbering, Linked;
  }

  lemma DiscoverShape(g: Graph, s: Search, w: nat)
    requires Sizes(g, s) && Next(g, s, w)
    ensures var t, k := Discover(s, w), |s.path|;
      && w < |g| == |s.discovery| == |s.lowlink| == |s.onStack| == |s.num| == |s.parent| && |s.path| == |s.edge|
      && |t.path| == |t.edge| == k + 1 && t.path[k] == w && t.edge[k] == 0
      && |t.num| == |t.onStack| == |g| && t.onStack[w] && forall i :: 0 <= i < k ==> t.path[i] == s.path[i] < |g|
  {
    hide Seen;
  }

  lemma DiscoverVisiting(g: Graph, s: Search, w: nat)
    requires Sizes(g, s) && Next(g, s, w) && Sizes(g, Discover(s, w)) && Numbering(g, s) && Visiting(g, s)
    ensures Visiting(g, Discover(s, w))
  {
    hide Seen, Numbering, Linked, Next, Sizes;
    DiscoverShape(g, s, w);
    var t, k := Discover(s, w), |s.path| - 1;
    forall i | 0 <= i <= k ensures t.edge[i] <= |g[t.path[i]]| && Linked(g, t, i) && t.onStack[t.path[i]] {
      DiscoverLinked(g, s, w, i);
      DiscoverPathOrder(g, s, w, i, k + 1);
    }
    forall i, j | 0 <= i < j < |t.path| ensures t.num[t.path[i]] < t.num[t.path[j]] {
      DiscoverPathOrder(g, s, w, i, j);
    }
  }

  lemma DiscoverExplored(g: Graph, s: Search, w: nat)
    requires Sizes(g, s) && Next(g, s, w) && Sizes(g, Discover(s, w)) && Explored(g, s)
    ensures Explored(g, Discover(s, w))
  {
    hide Seen;
  }

  /** From any stack block the search can get back to the block being visited now. */
  lemma ReachesTop(g: Graph, s: Search, y: nat)
    requires Sizes(g, s) && Visiting(g, s) && ReachesUp(g, s) && y < |g| && Anchored(g, s, y)
    ensures s.path != [] && Reach(g, y, s.path[|s.path| - 1])
  {
    hide Seen, Reach, Edge;
    var i :| 0 <= i < |s.path| && s.num[s.path[i]] <= s.num[y] && Reach(g, y, s.path[i]);
    var k := |s.path| - 1;
    assert s.num[s.path[i]] <= s.num[s.path[k]];
    ReachTrans(g, y, s.path[i], s.path[k]);
  }

  lemma DiscoverReaches(g: Graph, s: Search, w: nat)
    requires Sizes(g, s) && Next(g, s, w) && Sizes(g, Discover(s, w)) && Numbering(g, s) && Visiting(g, s)
    requires ReachesUp(g, s) && AllAnchored(g, s)
    ensures ReachesUp(g, Discover(s, w))
  {
    hide Seen, Reach, Anchored, Visiting;
    var t := Discover(s, w);
    ReachRefl(g, w);
    forall y | 0 <= y < |g| && s.onStack[y]
      ensures Reach(g, y, w)
    {
      assert Anchored(g, s, y);
      ReachesTop(g, s, y);
      var v := s.path[|s.path| - 1];
      assert Edge(g, v, w);
      ReachEdge(g, v, w);
      ReachTrans(g, y, v, w);
    }
  }

  lemma DiscoverKeepsAnchor(g: Graph, s: Search, w: nat, y: nat)
    requires Sizes(g, s) && Next(g, s, w) && Sizes(g, Discover(s, w)) && Numbering(g, s) && Visiting(g, s)
    requires y < |g| && s.onStack[y] && Anchored(g, s, y)
    ensures Anchored(g, Discover(s, w), y)
  {
    hide Seen, Reach, Numbering, Visiting;
    var t := Discover(s, w);
    DiscoverKeeps(g, s, w);
    var i :| 0 <= i < |s.path| && s.num[s.path[i]] <= s.num[y] && Reach(g, y, s.path[i]);
    assert t.path[i] == s.path[i];
  }

  lemma DiscoverAnchored(g: Graph, s: Search, w: nat)
    requires Sizes(g, s) && Next(g, s, w) && Sizes(g, Discover(s, w)) && Numbering(g, s) && Visiting(g, s)
    requires AllAnchored(g, s)
    ensures AllAnchored(g, Discover(s, w))
  {
    hide Seen, Reach, Numbering, Visiting;
    var t := Discover(s, w);
    forall y | 0 <= y < |g| && t.onStack[y]
      ensures Anchored(g, t, y)
    {
      if y == w {
        ReachRefl(g, w);
        assert t.path[|s.path|] == w;
      } else {
        assert Anchored(g, s, y);
        DiscoverKeepsAnchor(g, s, w, y);
      }
    }
  }

  lemma DiscoverComponents(g: Graph, s: Search, w: nat)
    requires Sizes(g, s) && Next(g, s, w) && Sizes(g, Discover(s, w)) && Numbering(g, s) && Components(g, s)
    requires Positions(g, s)
    ensures Components(g, Discover(s, w)) && Positions(g, Discover(s, w))
  {
    hide Seen, Reach;
  }

  lemma DiscoverTree(g: Graph, s: Search, w: nat)
    requires Sizes(g, s) && Next(g, s, w) && Sizes(g, Discover(s, w)) && Numbering(g, s) && Visiting(g, s) && Tree(g, s)
    ensures Tree(g, Discover(s, w))
  {
    hide Seen, Reach;
  }

  lemma OwnedIsFinished(g: Graph, s: Search, i: nat, y: nat)
    requires Sizes(g, s) && Visiting(g, s) && i < |s.path| && y < |g| && Owns(s, i, y) && y != s.path[i]
    ensures y !in s.path
  {
    hide Seen, Linked;
    forall j | 0 <= j < |s.path|
      ensures s.path[j] != y
    {
      if j > i {
        assert s.num[s.path[i + 1]] <= s.num[s.path[j]];
      }
    }
  }

  lemma DiscoverBoundFinished(g: Graph, s: Search, w: nat, i: nat, y: nat, z: nat)
    requires Sizes(g, s) && Next(g, s, w) && Sizes(g, Discover(s, w)) && Numbering(g, s) && Visiting(g, s)
    requires Explored(g, s) && LowBound(g, s)
    requires i < |Discover(s, w).path| && y < |g| && Owns(Discover(s, w), i, y) && y != Discover(s, w).path[i]
    requires Edge(g, y, z)
    ensures z < |g|
    ensures (Discover(s, w).onStack[z] ==> Discover(s, w).lowlink[Discover(s, w).path[i]] <= Discover(s, w).num[z])
  {
    DiscoverKeeps(g, s, w);
    hide Seen, Reach, Numbering, Linked;
    EdgeInRange(g, y, z);
    assert i < |s.path| && y != w;
    assert Owns(s, i, y);
    OwnedIsFinished(g, s, i, y);
    assert s.num[z] >= 0;
  }

  lemma DiscoverLowBound(g: Graph, s: Search, w: nat)
    requires Sizes(g, s) && Next(g, s, w) && Sizes(g, Discover(s, w)) && Numbering(g, s) && Visiting(g, s)
    requires Explored(g, s) && LowBound(g, s)
    ensures LowBound(g, Discover(s, w))
  {
    hide Seen, Reach, Numbering, Visiting, Owns;
    var t := Discover(s, w);
    forall i, y, z: nat | 0 <= i < |t.path| && 0 <= y < |g| && Owns(t, i, y) && y != t.path[i] && Edge(g, y, z)
      ensures z < |g| && (t.onStack[z] ==> t.lowlink[t.path[i]] <= t.num[z])
    {
      DiscoverBoundFinished(g, s, w, i, y, z);
    }
    DiscoverKeeps(g, s, w);
    forall i, j | 0 <= i < |t.path| && Accounted(t, i, j) && j < |g[t.path[i]]|
      ensures t.onStack[g[t.path[i]][j]] ==> t.lowlink[t.path[i]] <= t.num[g[t.path[i]][j]]
    {
      assert i < |s.path| && Accounted(s, i, j);
      assert s.num[g[s.path[i]][j]] >= 0;
    }
  }

  lemma DiscoverLowWitness(g: Graph, s: Search, w: nat)
    requires Sizes(g, s) && Next(g, s, w) && Sizes(g, Discover(s, w)) && Numbering(g, s) && Visiting(g, s)
    requires LowWitness(g, s)
    ensures LowWitness(g, Discover(s, w))
  {
    hide Seen, Reach;
    var t := Discover(s, w);
    ReachRefl(g, w);
    forall i | 0 <= i < |t.path|
      ensures t.lowlink[t.path[i]] <= t.num[t.path[i]] && Grounded(g, t, t.path[i])
    {
      if i < |s.path| {
        assert t.path[i] == s.path[i];
        assert Grounded(g, s, s.path[i]);
        var z :| 0 <= z < |g| && s.onStack[z] && s.num[z] == s.lowlink[s.path[i]] && Reach(g, s.path[i], z);
        assert t.onStack[z] && t.num[z] == t.lowlink[t.path[i]];
      }
    }
  }

  lemma DiscoverInv(g: Graph, s: Search, w: nat)
    requires Inv(g, s) && Next(g, s, w)
    ensures Inv(g, Discover(s, w))
  {
    hide Sizes, Numbering, Stacks, Visiting, ReachesUp, AllAnchored, Explored, Components, Positions, Tree, LowBound,
         LowWitness, Next;
    DiscoverSizes(g, s, w);
    DiscoverNumbering(g, s, w);
    DiscoverStacks(g, s, w);
    DiscoverVisiting(g, s, w);
    DiscoverReaches(g, s, w);
    DiscoverAnchored(g, s, w);
    DiscoverExplored(g, s, w);
    DiscoverComponents(g, s, w);
    DiscoverTree(g, s, w);
    DiscoverLowBound(g, s, w);
    DiscoverLowWitness(g, s, w);
  }

  // ---------------------------------------------------------------- following an edge to a discovered block

  ghost predicate CanAdvance(g: Graph, s: Search)
    requires Sizes(g, s)
  {
    s.path != [] && var k := |s.path| - 1;
      s.edge[k] < |g[s.path[k]]| && s.num[g[s.path[k]][s.edge[k]]] >= 0
  }

  ghost function Advance(g: Graph, s: Search): Search
    requires Sizes(g, s) && CanAdvance(g, s)
  {
    var k := |s.path| - 1;
    var v := s.path[k];
    var w := g[v][s.edge[k]];
    s.(edge := s.edge[k := s.edge[k] + 1],
       lowlink := if s.onStack[w] then s.lowlink[v := Min(s.lowlink[v], s.discovery[w])] else s.lowlink)
  }

  function Min(a: nat, b: nat): nat {
    if a <= b then a else b
  }

  lemma AdvanceSizes(g: Graph, s: Search)
    requires Sizes(g, s) && CanAdvance(g, s)
    ensures Sizes(g, Advance(g, s))
  {
    assert Seen(Advance(g, s)) == Seen(s);
  }

  lemma AdvanceVisiting(g: Graph, s: Search)
    requires Sizes(g, s) && CanAdvance(g, s) && Sizes(g, Advance(g, s)) && Visiting(g, s)
    ensures Visiting(g, Advance(g, s))
  {
    hide Seen;
    var t := Advance(g, s);
    assert forall i :: 0 <= i < |s.path| - 1 ==> Linked(g, s, i) ==> Linked(g, t, i);
  }

  lemma AdvanceExplored(g: Graph, s: Search)
    requires Sizes(g, s) && CanAdvance(g, s) && Sizes(g, Advance(g, s)) && Explored(g, s)
    ensures Explored(g, Advance(g, s))
  {
    hide Seen, Edge;
  }

  lemma AdvanceKeepsMarks(g: Graph, s: Search)
    requires Sizes(g, s) && CanAdvance(g, s) && Sizes(g, Advance(g, s))
    requires Numbering(g, s) && Stacks(g, s) && Components(g, s) && Positions(g, s)
    ensures var t := Advance(g, s); Numbering(g, t) && Stacks(g, t) && Components(g, t) && Positions(g, t)
  {
    hide Seen, Reach, HasEarlierSource;
  }

  lemma AdvanceKeepsReach(g: Graph, s: Search)
    requires Sizes(g, s) && CanAdvance(g, s) && Sizes(g, Advance(g, s)) && ReachesUp(g, s) && AllAnchored(g, s)
    requires Tree(g, s)
    ensures var t := Advance(g, s); ReachesUp(g, t) && AllAnchored(g, t) && Tree(g, t)
  {
    hide Seen, Reach;
    var t := Advance(g, s);
    assert forall y :: 0 <= y < |g| && Anchored(g, s, y) ==> Anchored(g, t, y);
  }

  lemma AdvanceBoundEdges(g: Graph, s: Search)
    requires Sizes(g, s) && CanAdvance(g, s) && Sizes(g, Advance(g, s)) && Numbering(g, s) && LowBound(g, s)
    ensures LowEdges(g, Advance(g, s))
  {
    var t, k := Advance(g, s), |s.path| - 1;
    var w := g[s.path[k]][s.edge[k]];
    assert s.onStack[w] ==> s.discovery[w] == s.num[w];
    hide Seen, Numbering, Owns;
    forall i, j | 0 <= i < |t.path| && Accounted(t, i, j) && j < |g[t.path[i]]|
      ensures t.onStack[g[t.path[i]][j]] ==> t.lowlink[t.path[i]] <= t.num[g[t.path[i]][j]]
    {
      assert (i == k && j == s.edge[k]) || Accounted(s, i, j);
    }
  }

  lemma AdvanceLowBound(g: Graph, s: Search)
    requires Sizes(g, s) && CanAdvance(g, s) && Sizes(g, Advance(g, s)) && Numbering(g, s) && LowBound(g, s)
    ensures LowBound(g, Advance(g, s))
  {
    hide Sizes, CanAdvance, Numbering, LowFinished, LowEdges, Advance;
    AdvanceBoundFinished(g, s);
    AdvanceBoundEdges(g, s);
  }

  lemma AdvanceBoundFinished(g: Graph, s: Search)
    requires Sizes(g, s) && CanAdvance(g, s) && Sizes(g, Advance(g, s)) && LowFinished(g, s)
    ensures LowFinished(g, Advance(g, s))
  {
    hide Seen;
    var t := Advance(g, s);
    forall i, y, z: nat | 0 <= i < |t.path| && 0 <= y < |g| && Owns(t, i, y) && y != t.path[i] && Edge(g, y, z)
      ensures z < |g| && (t.onStack[z] ==> t.lowlink[t.path[i]] <= t.num[z])
    {
      assert Owns(s, i, y);
    }
  }

  lemma AdvanceLowWitness(g: Graph, s: Search)
    requires Sizes(g, s) && CanAdvance(g, s) && Sizes(g, Advance(g, s)) && Numbering(g, s) && Visiting(g, s)
    requires LowWitness(g, s)
    ensures LowWitness(g, Advance(g, s))
  {
    var k := |s.path| - 1;
    var t, v, w := Advance(g, s), s.path[k], g[s.path[k]][s.edge[k]];
    assert Edge(g, v, w);
    ReachEdge(g, v, w);
    assert forall i :: 0 <= i < k ==> s.path[i] != v;
    hide Seen, Reach, Visiting;
    assert Grounded(g, t, v) by {
      assert Grounded(g, s, s.path[k]);
      var z :| 0 <= z < |g| && s.onStack[z] && s.num[z] == s.lowlink[v] && Reach(g, v, z);
      assert t.lowlink[v] == s.lowlink[v] || t.num[w] == t.lowlink[v];
    }
    forall i | 0 <= i < k ensures Grounded(g, t, s.path[i]) {
      assert Grounded(g, s, s.path[i]);
      var z :| 0 <= z < |g| && s.onStack[z] && s.num[z] == s.lowlink[s.path[i]] && Reach(g, s.path[i], z);
      assert t.onStack[z] && t.num[z] == t.lowlink[s.path[i]];
    }
  }

  lemma AdvanceInv(g: Graph, s: Search)
    requires Inv(g, s) && CanAdvance(g, s)
    ensures Inv(g, Advance(g, s))
  {
    hide Sizes, Numbering, Stacks, Visiting, ReachesUp, AllAnchored, Explored, Components, Positions, Tree, LowBound,
         LowWitness, CanAdvance;
    AdvanceSizes(g, s);
    AdvanceVisiting(g, s);
    AdvanceExplored(g, s);
    AdvanceKeepsMarks(g, s);
    AdvanceKeepsReach(g, s);
    AdvanceLowBound(g, s);
    AdvanceLowWitness(g, s);
  }

  // ---------------------------------------------------------------- finishing a block inside an open component

  ghost predicate Finished(g: Graph, s: Search)
    requires Sizes(g, s)
  {
    s.path != [] && s.edge[|s.path| - 1] == |g[s.path[|s.path| - 1]]|
  }

  ghost function FinishOpen(s: Search): Search
    requires |s.path| == |s.edge| >= 2
    requires forall i :: 0 <= i < |s.path| ==> s.path[i] < |s.lowlink|
  {
    var k := |s.path| - 1;
    var u, v := s.path[k - 1], s.path[k];
    s.(path := s.path[..k], edge := s.edge[..k], lowlink := s.lowlink[u := Min(s.lowlink[u], s.lowlink[v])])
  }

  ghost predicate CanFinishOpen(g: Graph, s: Search)
    requires Sizes(g, s)
  {
    Finished(g, s) && s.lowlink[s.path[|s.path| - 1]] < s.num[s.path[|s.path| - 1]]
  }

  /** A block whose low link is below its own number reaches an older block that is still being visited. */
  lemma OlderAnchor(g: Graph, s: Search) returns (i: nat)
    requires Sizes(g, s) && Visiting(g, s) && AllAnchored(g, s) && LowWitness(g, s) && CanFinishOpen(g, s)
    ensures i < |s.path| - 1 && Reach(g, s.path[|s.path| - 1], s.path[i])
  {
    hide Seen, Reach, Linked;
    var v := s.path[|s.path| - 1];
    assert Grounded(g, s, s.path[|s.path| - 1]);
    var z :| 0 <= z < |g| && s.onStack[z] && s.num[z] == s.lowlink[v] && Reach(g, v, z);
    assert Anchored(g, s, z);
    i :| 0 <= i < |s.path| && s.num[s.path[i]] <= s.num[z] && Reach(g, z, s.path[i]);
    ReachTrans(g, v, z, s.path[i]);
  }

  lemma FinishOpenSizes(g: Graph, s: Search)
    requires Sizes(g, s) && |s.path| >= 2
    ensures Sizes(g, FinishOpen(s))
  {
    assert Seen(FinishOpen(s)) == Seen(s);
  }

  lemma FinishOpenKeepsMarks(g: Graph, s: Search)
    requires Sizes(g, s) && |s.path| >= 2 && Sizes(g, FinishOpen(s))
    requires Numbering(g, s) && Stacks(g, s) && ReachesUp(g, s) && Components(g, s) && Positions(g, s)
    ensures var t := FinishOpen(s);
      Numbering(g, t) && Stacks(g, t) && ReachesUp(g, t) && Components(g, t) && Positions(g, t)
  {
    hide Seen, Reach, HasEarlierSource;
  }

  lemma FinishOpenVisiting(g: Graph, s: Search)
    requires Sizes(g, s) && |s.path| >= 2 && Sizes(g, FinishOpen(s)) && Visiting(g, s) && Tree(g, s)
    ensures Visiting(g, FinishOpen(s)) && Tree(g, FinishOpen(s))
  {
    hide Seen, Edge;
    var t := FinishOpen(s);
    assert forall i :: 0 <= i < |t.path| - 1 ==> Linked(g, s, i) ==> Linked(g, t, i);
  }

  lemma FinishOpenExplored(g: Graph, s: Search)
    requires Sizes(g, s) && |s.path| >= 2 && Sizes(g, FinishOpen(s)) && CanFinishOpen(g, s) && Explored(g, s)
    ensures Explored(g, FinishOpen(s))
  {
    hide Seen;
    var t, k := FinishOpen(s), |s.path| - 1;
    forall v, z: nat | 0 <= v < |g| && t.num[v] >= 0 && v !in t.path && Edge(g, v, z)
      ensures z < |g| && t.num[z] >= 0
    {
      EdgeInRange(g, v, z);
      if v in s.path {
        assert s.path == t.path + [s.path[k]];
        var j :| 0 <= j < |g[v]| && g[v][j] == z;
        assert s.num[g[s.path[k]][j]] >= 0;
      }
    }
  }

  lemma FinishOpenAnchored(g: Graph, s: Search)
    requires Sizes(g, s) && |s.path| >= 2 && Sizes(g, FinishOpen(s)) && CanFinishOpen(g, s)
    requires Visiting(g, s) && AllAnchored(g, s) && LowWitness(g, s)
    ensures AllAnchored(g, FinishOpen(s))
  {
    hide Seen, Reach, Linked, LowWitness;
    var t, k := FinishOpen(s), |s.path| - 1;
    var m := OlderAnchor(g, s);
    forall y | 0 <= y < |g| && t.onStack[y]
      ensures Anchored(g, t, y)
    {
      assert Anchored(g, s, y);
      var i :| 0 <= i < |s.path| && s.num[s.path[i]] <= s.num[y] && Reach(g, y, s.path[i]);
      if i == k {
        ReachTrans(g, y, s.path[k], s.path[m]);
        assert t.path[m] == s.path[m];
      } else {
        assert t.path[i] == s.path[i];
      }
    }
  }

  lemma FinishOpenBoundFinished(g: Graph, s: Search, i: nat, y: nat, z: nat)
    requires Sizes(g, s) && |s.path| >= 2 && Sizes(g, FinishOpen(s)) && CanFinishOpen(g, s) && LowBound(g, s)
    requires i < |s.path| - 1 && y < |g| && Owns(FinishOpen(s), i, y) && y != s.path[i] && Edge(g, y, z)
    ensures z < |g| && (s.onStack[z] ==> FinishOpen(s).lowlink[s.path[i]] <= s.num[z])
  {
    hide Seen;
    EdgeInRange(g, y, z);
    var k := |s.path| - 1;
    if Owns(s, i, y) {
    } else {
      assert i == k - 1 && Owns(s, k, y);
      if y == s.path[k] {
        var j :| 0 <= j < |g[y]| && g[y][j] == z;
        assert Accounted(s, k, j);
      }
    }
  }

  lemma FinishOpenBoundEdge(g: Graph, s: Search, i: nat, j: int)
    requires Sizes(g, s) && |s.path| >= 2 && Sizes(g, FinishOpen(s)) && CanFinishOpen(g, s) && Visiting(g, s)
    requires LowBound(g, s)
    requires i < |s.path| - 1 && Accounted(FinishOpen(s), i, j) && j < |g[s.path[i]]|
    ensures s.onStack[g[s.path[i]][j]] ==> FinishOpen(s).lowlink[s.path[i]] <= s.num[g[s.path[i]][j]]
  {
    hide Seen, Owns;
    if Accounted(s, i, j) {
    } else {
      assert Linked(g, s, i);
    }
  }

  lemma FinishOpenLowBound(g: Graph, s: Search)
    requires Sizes(g, s) && |s.path| >= 2 && Sizes(g, FinishOpen(s)) && CanFinishOpen(g, s) && Visiting(g, s)
    requires LowBound(g, s)
    ensures LowBound(g, FinishOpen(s))
  {
    hide Seen, Visiting, Owns;
    var t := FinishOpen(s);
    forall i, y, z: nat | 0 <= i < |t.path| && 0 <= y < |g| && Owns(t, i, y) && y != t.path[i] && Edge(g, y, z)
      ensures z < |g| && (t.onStack[z] ==> t.lowlink[t.path[i]] <= t.num[z])
    {
      FinishOpenBoundFinished(g, s, i, y, z);
    }
    forall i, j | 0 <= i < |t.path| && Accounted(t, i, j) && j < |g[t.path[i]]|
      ensures t.onStack[g[t.path[i]][j]] ==> t.lowlink[t.path[i]] <= t.num[g[t.path[i]][j]]
    {
      FinishOpenBoundEdge(g, s, i, j);
    }
  }

  lemma FinishOpenLowWitness(g: Graph, s: Search)
    requires Sizes(g, s) && |s.path| >= 2 && Sizes(g, FinishOpen(s)) && CanFinishOpen(g, s)
    requires Visiting(g, s) && ReachesUp(g, s) && LowWitness(g, s)
    ensures LowWitness(g, FinishOpen(s))
  {
    hide Seen, Reach, Linked, Edge;
    var t, k := FinishOpen(s), |s.path| - 1;
    var u, v := s.path[k - 1], s.path[k];
    forall i | 0 <= i < k
      ensures t.lowlink[t.path[i]] <= t.num[t.path[i]] && Grounded(g, t, t.path[i])
    {
      var x := if t.lowlink[s.path[i]] == s.lowlink[s.path[i]] then s.path[i] else v;
      assert Grounded(g, s, s.path[i]) && Grounded(g, s, s.path[k]);
      var z :| 0 <= z < |g| && s.onStack[z] && s.num[z] == s.lowlink[x] && Reach(g, x, z);
      ReachTrans(g, s.path[i], x, z);
      assert t.onStack[z] && t.num[z] == t.lowlink[t.path[i]];
    }
  }

  lemma FinishOpenInv(g: Graph, s: Search)
    requires Inv(g, s) && CanFinishOpen(g, s)
    ensures |s.path| >= 2 && Inv(g, FinishOpen(s))
  {
    var i := OlderAnchor(g, s);
    hide Numbering, Stacks, Visiting, ReachesUp, AllAnchored, Explored, Components, Positions, Tree, LowBound,
         LowWitness, CanFinishOpen;
    FinishOpenSizes(g, s);
    hide Sizes;
    FinishOpenKeepsMarks(g, s);
    FinishOpenVisiting(g, s);
    FinishOpenExplored(g, s);
    FinishOpenAnchored(g, s);
    FinishOpenLowBound(g, s);
    FinishOpenLowWitness(g, s);
  }

  // ---------------------------------------------------------------- finishing a block that closes a component

  ghost predicate CanClose(g: Graph, s: Search, a: nat)
    requires Sizes(g, s)
  {
    && Finished(g, s) && s.lowlink[s.path[|s.path| - 1]] == s.num[s.path[|s.path| - 1]]
    && a < |s.stack| && s.stack[a] == s.path[|s.path| - 1]
  }

  /** `t` is `s` after popping the component stack down to position `a`. */
  ghost predicate Closes(s: Search, t: Search, a: nat)
    requires |s.discovery| == |s.sccId| == |s.onStack| && a < |s.stack| && |s.path| == |s.edge| > 0
    requires forall b :: 0 <= b < |s.stack| ==> s.stack[b] < |s.discovery|
  {
    && t == s.(discovery := t.discovery, sccId := t.sccId, onStack := t.onStack, stack := s.stack[..a],
               ids := s.ids + 1, path := s.path[..|s.path| - 1], edge := s.edge[..|s.path| - 1])
    && Renumbered(s.stack, a, s.ids, s.discovery, s.sccId, s.onStack, t.discovery, t.sccId, t.onStack)
  }

  /** The blocks from position `a` of the stack on belong to component `ids`, numbered from the top; all others stay. */
  ghost predicate Renumbered(stack: seq<nat>, a: nat, ids: nat, discovery: seq<nat>, sccId: seq<nat>,
                             onStack: seq<bool>, discovery': seq<nat>, sccId': seq<nat>, onStack': seq<bool>)
    requires |discovery| == |sccId| == |onStack| && a <= |stack|
    requires forall b :: 0 <= b < |stack| ==> stack[b] < |discovery|
  {
    && |discovery'| == |sccId'| == |onStack'| == |discovery|
    && (forall b :: a <= b < |stack| ==> discovery'[stack[b]] == |stack| - 1 - b)
    && (forall x :: 0 <= x < |discovery| && x in stack[a..] ==> sccId'[x] == ids && !onStack'[x])
    && (forall x :: 0 <= x < |discovery| && x !in stack[a..] ==>
          discovery'[x] == discovery[x] && sccId'[x] == sccId[x] && onStack'[x] == onStack[x])
  }

  /** The component being closed: the blocks on the stack discovered no earlier than its root. */
  ghost predicate InClosing(g: Graph, s: Search, x: nat)
    requires Sizes(g, s) && s.path != []
  {
    x < |g| && s.onStack[x] && s.num[s.path[|s.path| - 1]] <= s.num[x]
  }

  lemma PartOf(s: seq<nat>, a: nat, b: nat)
    requires a <= |s| && b < |s|
    ensures if b < a then s[b] in s[..a] else s[b] in s[a..]
  {
    if b < a {
      assert s[..a][b] == s[b];
    } else {
      assert s[a..][b - a] == s[b];
    }
  }

  /** On an ascending stack a number tells the part. */
  lemma PartsByNumber(stack: seq<nat>, num: seq<int>, a: nat, x: nat)
    requires a < |stack| && x < |num| && forall b :: 0 <= b < |stack| ==> stack[b] < |num|
    requires forall b, c :: 0 <= b < c < |stack| ==> num[stack[b]] < num[stack[c]]
    ensures x in stack[a..] <==> x in stack && num[stack[a]] <= num[x]
    ensures x in stack[..a] <==> x in stack && num[x] < num[stack[a]]
  {
    if x in stack {
      var b :| 0 <= b < |stack| && stack[b] == x;
      PartOf(stack, a, b);
    }
    if x in stack[a..] {
      var b :| 0 <= b < |stack[a..]| && stack[a..][b] == x;
      assert stack[a + b] == x;
    }
    if x in stack[..a] {
      var b :| 0 <= b < |stack[..a]| && stack[..a][b] == x;
      assert stack[b] == x;
    }
  }

  lemma ClosingIsSuffix(g: Graph, s: Search, a: nat)
    requires Sizes(g, s) && Stacks(g, s) && CanClose(g, s, a)
    ensures forall x: nat :: x < |g| ==> (InClosing(g, s, x) <==> x in s.stack[a..])
    ensures forall x: nat :: x < |g| ==> (s.onStack[x] && !InClosing(g, s, x) <==> x in s.stack[..a])
  {
    hide Seen;
    forall x: nat | x < |g|
      ensures InClosing(g, s, x) <==> x in s.stack[a..]
      ensures s.onStack[x] && !InClosing(g, s, x) <==> x in s.stack[..a]
    {
      PartsByNumber(s.stack, s.num, a, x);
    }
  }

  /** The closing relation in terms of `InClosing`, which is all that the invariants need. */
  ghost predicate ClosedInto(g: Graph, s: Search, t: Search)
    requires Sizes(g, s) && s.path != []
  {
    && |t.discovery| == |t.sccId| == |t.onStack| == |g|
    && t.lowlink == s.lowlink && t.num == s.num && t.parent == s.parent && t.discovered == s.discovered
    && t.ids == s.ids + 1 && t.path == s.path[..|s.path| - 1] && t.edge == s.edge[..|s.path| - 1]
    && (forall x: nat :: x < |g| ==>
          if InClosing(g, s, x)
          then t.sccId[x] == s.ids && !t.onStack[x]
          else t.discovery[x] == s.discovery[x] && t.sccId[x] == s.sccId[x] && t.onStack[x] == s.onStack[x])
    && (forall x: nat, y: nat :: InClosing(g, s, x) && InClosing(g, s, y) && s.num[x] < s.num[y] ==>
          t.discovery[y] < t.discovery[x])
    && (forall x: nat :: InClosing(g, s, x) ==> t.discovery[x] < |g|)
  }

  lemma ClosesOrder(g: Graph, s: Search, t: Search, a: nat, x: nat, y: nat)
    requires Sizes(g, s) && Stacks(g, s) && CanClose(g, s, a) && Closes(s, t, a)
    requires x < |g| && y < |g| && x in s.stack[a..] && y in s.stack[a..]
    ensures t.discovery[x] < |g|
    ensures s.num[x] < s.num[y] ==> t.discovery[y] < t.discovery[x]
  {
    hide Seen, CanClose;
    var b :| 0 <= b < |s.stack[a..]| && s.stack[a..][b] == x;
    var c :| 0 <= c < |s.stack[a..]| && s.stack[a..][c] == y;
    assert s.stack[a + b] == x && s.stack[a + c] == y;
  }

  lemma ClosesMeans(g: Graph, s: Search, t: Search, a: nat)
    requires Sizes(g, s) && Stacks(g, s) && CanClose(g, s, a) && Closes(s, t, a)
    ensures ClosedInto(g, s, t)
  {
    ClosingIsSuffix(g, s, a);
    forall x: nat, y: nat | InClosing(g, s, x) && InClosing(g, s, y)
      ensures t.discovery[x] < |g|
      ensures s.num[x] < s.num[y] ==> t.discovery[y] < t.discovery[x]
    {
      ClosesOrder(g, s, t, a, x, y);
    }
    hide Seen, Stacks;
    forall x: nat | InClosing(g, s, x) ensures t.discovery[x] < |g| {
      ClosesOrder(g, s, t, a, x, x);
    }
  }

  lemma ClosesSizes(g: Graph, s: Search, t: Search, a: nat)
    requires Sizes(g, s) && Stacks(g, s) && CanClose(g, s, a) && Closes(s, t, a)
    ensures Sizes(g, t) && Stacks(g, t)
  {
    assert Seen(t) == Seen(s);
    ClosingIsSuffix(g, s, a);
    hide Seen;
    assert Sizes(g, t);
    forall v | 0 <= v < |g| ensures t.onStack[v] <==> v in t.stack {
      assert InClosing(g, s, v) <==> v in s.stack[a..];
    }
  }

  /** Everything in the closing component reaches everything else in it. */
  lemma ClosingConnected(g: Graph, s: Search, x: nat, y: nat)
    requires Sizes(g, s) && Visiting(g, s) && ReachesUp(g, s) && AllAnchored(g, s) && s.path != []
    requires InClosing(g, s, x) && InClosing(g, s, y)
    ensures Reach(g, x, y)
  {
    hide Seen, Reach, Anchored, Linked;
    assert Anchored(g, s, x);
    ReachesTop(g, s, x);
    var v := s.path[|s.path| - 1];
    assert Reach(g, v, y);
    ReachTrans(g, x, v, y);
  }

  /** An edge out of the closing component stays inside or leads into a closed component. */
  lemma ClosingEdges(g: Graph, s: Search, x: nat, z: nat)
    requires Sizes(g, s) && Numbering(g, s) && Visiting(g, s) && Explored(g, s) && LowBound(g, s)
    requires Finished(g, s) && s.lowlink[s.path[|s.path| - 1]] == s.num[s.path[|s.path| - 1]]
    requires InClosing(g, s, x) && Edge(g, x, z)
    ensures z < |g| && (InClosing(g, s, z) || s.sccId[z] != UNSET)
  {
    hide Seen, Linked;
    EdgeInRange(g, x, z);
    var k := |s.path| - 1;
    assert Owns(s, k, x);
    if x == s.path[k] {
      var j :| 0 <= j < |g[x]| && g[x][j] == z;
      assert Accounted(s, k, j);
      assert s.num[g[s.path[k]][j]] >= 0;
    } else {
      OwnedIsFinished(g, s, k, x);
      assert s.num[z] >= 0;
    }
  }

  /** Nothing outside the closing component is mutually reachable with it. */
  lemma ClosingMaximal(g: Graph, s: Search, x: nat, y: nat)
    requires Sizes(g, s) && Numbering(g, s) && Visiting(g, s) && Explored(g, s) && LowBound(g, s) && Components(g, s)
    requires Finished(g, s) && s.lowlink[s.path[|s.path| - 1]] == s.num[s.path[|s.path| - 1]]
    requires InClosing(g, s, x) && Reach(g, x, y) && Reach(g, y, x)
    ensures InClosing(g, s, y)
  {
    var closed := set v: nat | v < |g| && s.sccId[v] != UNSET;
    var all := set v: nat | v < |g| && (s.sccId[v] != UNSET || InClosing(g, s, v));
    assert s.sccId[x] == UNSET;
    ClosedStaysClosed(g, s, closed);
    hide Seen, Reach, LowBound, Explored, Visiting, Numbering, Components, Finished;
    forall u: nat, v: nat | u in all && Edge(g, u, v) ensures v in all {
      if u in closed {
        assert v in closed;
      } else {
        ClosingEdges(g, s, u, v);
      }
    }
    ReachStaysIn(g, all, x, y);
    if y in closed {
      ReachStaysIn(g, closed, y, x);
    }
  }

  lemma ClosedStaysClosed(g: Graph, s: Search, closed: set<nat>)
    requires Sizes(g, s) && Components(g, s) && Numbering(g, s)
    requires closed == set v: nat | v < |g| && s.sccId[v] != UNSET
    ensures ClosedSet(g, closed)
  {
    hide Seen, Reach;
    forall u: nat, v: nat | u in closed && Edge(g, u, v) ensures v in closed {
      assert s.sccId[v] <= s.sccId[u];
    }
  }

  lemma ClosesComponents(g: Graph, s: Search, t: Search)
    requires Inv(g, s) && Sizes(g, t)
    requires Finished(g, s) && s.lowlink[s.path[|s.path| - 1]] == s.num[s.path[|s.path| - 1]]
    requires ClosedInto(g, s, t)
    ensures Components(g, t)
  {
    hide Seen, Reach, Stacks, Visiting, ReachesUp, AllAnchored, Explored, Positions, Tree, LowBound, LowWitness, Edge;
    forall v, z: nat | 0 <= v < |g| && t.sccId[v] != UNSET && Edge(g, v, z)
      ensures z < |g| && t.sccId[z] <= t.sccId[v]
    {
      EdgeInRange(g, v, z);
      if InClosing(g, s, v) {
        ClosingEdges(g, s, v, z);
      }
    }
    forall u, v | 0 <= u < |g| && 0 <= v < |g| && t.sccId[u] != UNSET
      ensures t.sccId[u] == t.sccId[v] <==> Reach(g, u, v) && Reach(g, v, u)
    {
      if InClosing(g, s, u) && InClosing(g, s, v) {
        ClosingConnected(g, s, u, v);
        ClosingConnected(g, s, v, u);
      } else if InClosing(g, s, u) && Reach(g, u, v) && Reach(g, v, u) {
        ClosingMaximal(g, s, u, v);
      }
    }
  }

  /** In the component being closed, the tree parent of a block is a source at a larger position. */
  lemma ClosingHasSource(g: Graph, s: Search, t: Search, u: nat, v: nat)
    requires Sizes(g, s) && Sizes(g, t) && Numbering(g, s) && Visiting(g, s) && Tree(g, s) && s.path != []
    requires ClosedInto(g, s, t) && InClosing(g, s, u) && InClosing(g, s, v) && t.discovery[u] > t.discovery[v]
    ensures HasEarlierSource(g, t.sccId, t.discovery, v)
  {
    hide Seen, Linked;
    var k := |s.path| - 1;
    assert s.num[u] < s.num[v];
    assert s.num[s.path[k]] < s.num[v];
    assert InClosing(g, s, s.parent[v]);
  }

  lemma ClosesPositions(g: Graph, s: Search, t: Search)
    requires Sizes(g, s) && Sizes(g, t) && Numbering(g, s) && Visiting(g, s) && Positions(g, s) && Tree(g, s)
    requires s.path != []
    requires ClosedInto(g, s, t)
    ensures Positions(g, t)
  {
    hide Seen, Visiting, Tree, HasEarlierSource;
    forall u, v | 0 <= u < |g| && 0 <= v < |g| && t.sccId[u] != UNSET && t.sccId[u] == t.sccId[v]
      ensures u != v ==> t.discovery[u] != t.discovery[v]
      ensures t.num[u] < t.num[v] ==> t.discovery[u] > t.discovery[v]
      ensures t.discovery[u] > t.discovery[v] ==> HasEarlierSource(g, t.sccId, t.discovery, v)
    {
      assert InClosing(g, s, u) <==> InClosing(g, s, v);
      if InClosing(g, s, u) {
        assert s.num[u] < s.num[v] || s.num[v] < s.num[u] || u == v;
        if t.discovery[u] > t.discovery[v] {
          ClosingHasSource(g, s, t, u, v);
        }
      } else if t.discovery[u] > t.discovery[v] {
        ClosesKeepsSource(g, s, t, v);
      }
    }
  }

  lemma ClosesKeepsSource(g: Graph, s: Search, t: Search, v: nat)
    requires Sizes(g, s) && Sizes(g, t) && Numbering(g, s) && s.path != [] && ClosedInto(g, s, t)
    requires v < |g| && s.sccId[v] != UNSET && HasEarlierSource(g, s.sccId, s.discovery, v)
    ensures HasEarlierSource(g, t.sccId, t.discovery, v)
  {
    hide Seen;
    var w :| 0 <= w < |g| && Edge(g, w, v) && s.sccId[w] == s.sccId[v] && s.discovery[w] > s.discovery[v];
    assert !InClosing(g, s, w) && !InClosing(g, s, v);
  }

  lemma ClosesNumbering(g: Graph, s: Search, t: Search)
    requires Sizes(g, s) && Sizes(g, t) && Numbering(g, s) && s.path != [] && ClosedInto(g, s, t)
    ensures Numbering(g, t)
  {
    hide Seen;
  }

  lemma ClosesVisiting(g: Graph, s: Search, t: Search)
    requires Sizes(g, s) && Sizes(g, t) && Visiting(g, s) && ReachesUp(g, s) && Tree(g, s) && s.path != []
    requires ClosedInto(g, s, t)
    ensures Visiting(g, t) && ReachesUp(g, t) && Tree(g, t)
  {
    hide Seen, Reach, Edge;
    assert forall i :: 0 <= i < |t.path| - 1 ==> Linked(g, s, i) ==> Linked(g, t, i);
    assert forall i :: 0 <= i < |t.path| ==> t.path[i] == s.path[i] && !InClosing(g, s, s.path[i]);
  }

  lemma ClosesAnchored(g: Graph, s: Search, t: Search)
    requires Sizes(g, s) && Sizes(g, t) && Visiting(g, s) && AllAnchored(g, s) && s.path != [] && ClosedInto(g, s, t)
    ensures AllAnchored(g, t)
  {
    hide Seen, Reach, Linked;
    forall y | 0 <= y < |g| && t.onStack[y]
      ensures Anchored(g, t, y)
    {
      assert !InClosing(g, s, y) && Anchored(g, s, y);
      var i :| 0 <= i < |s.path| && s.num[s.path[i]] <= s.num[y] && Reach(g, y, s.path[i]);
      assert t.path[i] == s.path[i];
    }
  }

  lemma ClosesExplored(g: Graph, s: Search, t: Search)
    requires Sizes(g, s) && Sizes(g, t) && Explored(g, s) && Finished(g, s) && ClosedInto(g, s, t)
    ensures Explored(g, t)
  {
    hide Seen, InClosing;
    var k := |s.path| - 1;
    forall v, z: nat | 0 <= v < |g| && t.num[v] >= 0 && v !in t.path && Edge(g, v, z)
      ensures z < |g| && t.num[z] >= 0
    {
      EdgeInRange(g, v, z);
      if v in s.path {
        assert s.path == t.path + [s.path[k]];
        var j :| 0 <= j < |g[v]| && g[v][j] == z;
        assert s.num[g[s.path[k]][j]] >= 0;
      }
    }
  }

  lemma ClosesLowFinished(g: Graph, s: Search, t: Search)
    requires Sizes(g, s) && Sizes(g, t) && Visiting(g, s) && LowFinished(g, s) && s.path != [] && ClosedInto(g, s, t)
    ensures LowFinished(g, t)
  {
    hide Seen, Linked;
    forall i, y, z: nat | 0 <= i < |t.path| && 0 <= y < |g| && Owns(t, i, y) && y != t.path[i] && Edge(g, y, z)
      ensures z < |g| && (t.onStack[z] ==> t.lowlink[t.path[i]] <= t.num[z])
    {
      assert !InClosing(g, s, y);
      assert Owns(s, i, y);
      assert !InClosing(g, s, t.path[i]);
    }
  }

  lemma ClosesLowBound(g: Graph, s: Search, t: Search)
    requires Sizes(g, s) && Sizes(g, t) && Visiting(g, s) && LowBound(g, s) && s.path != [] && ClosedInto(g, s, t)
    ensures LowBound(g, t)
  {
    hide Seen, Visiting, LowFinished;
    ClosesLowFinished(g, s, t);
    forall i, j | 0 <= i < |t.path| && Accounted(t, i, j) && j < |g[t.path[i]]|
      ensures t.onStack[g[t.path[i]][j]] ==> t.lowlink[t.path[i]] <= t.num[g[t.path[i]][j]]
    {
      ClosesBoundEdge(g, s, t, i, j);
    }
  }

  lemma ClosesBoundEdge(g: Graph, s: Search, t: Search, i: nat, j: int)
    requires Sizes(g, s) && Sizes(g, t) && Visiting(g, s) && LowBound(g, s) && s.path != [] && ClosedInto(g, s, t)
    requires i < |t.path| && Accounted(t, i, j) && j < |g[t.path[i]]|
    ensures t.onStack[g[t.path[i]][j]] ==> t.lowlink[t.path[i]] <= t.num[g[t.path[i]][j]]
  {
    hide Seen, Owns;
    if !Accounted(s, i, j) {
      assert Linked(g, s, i);
      assert InClosing(g, s, s.path[i + 1]);
    }
  }

  lemma ClosesLowWitness(g: Graph, s: Search, t: Search)
    requires Sizes(g, s) && Sizes(g, t) && Visiting(g, s) && LowWitness(g, s) && s.path != [] && ClosedInto(g, s, t)
    ensures LowWitness(g, t)
  {
    hide Seen, Reach, Linked;
    forall i | 0 <= i < |t.path| ensures Grounded(g, t, t.path[i]) {
      assert Grounded(g, s, s.path[i]);
      var z :| 0 <= z < |g| && s.onStack[z] && s.num[z] == s.lowlink[s.path[i]] && Reach(g, s.path[i], z);
      assert !InClosing(g, s, z);
      assert t.onStack[z] && t.num[z] == t.lowlink[t.path[i]];
    }
  }

  lemma ClosesInv(g: Graph, s: Search, t: Search, a: nat)
    requires Inv(g, s) && CanClose(g, s, a) && Closes(s, t, a)
    ensures Inv(g, t)
  {
    hide Sizes, Numbering, Stacks, Visiting, ReachesUp, AllAnchored, Explored, Components, Positions, Tree, LowBound,
         LowWitness;
    ClosesSizes(g, s, t, a);
    ClosesMeans(g, s, t, a);
    hide Closes, ClosedInto;
    ClosesNumbering(g, s, t);
    ClosesVisiting(g, s, t);
    ClosesAnchored(g, s, t);
    ClosesExplored(g, s, t);
    ClosesComponents(g, s, t);
    ClosesPositions(g, s, t);
    ClosesLowBound(g, s, t);
    ClosesLowWitness(g, s, t);
  }

  // ---------------------------------------------------------------- the program

  ghost predicate IsStart(g: Graph, s: Search) {
    && |g| < UNSET
    && |s.discovery| == |s.lowlink| == |s.sccId| == |s.onStack| == |s.num| == |s.parent| == |g|
    && s.stack == [] && s.path == [] && s.edge == [] && s.ids == 0 && s.discovered == 0
    && forall v :: 0 <= v < |g| ==> s.discovery[v] == UNSET && s.sccId[v] == UNSET && !s.onStack[v] && s.num[v] == -1
  }

  lemma StartInv(g: Graph, s: Search)
    requires IsStart(g, s)
    ensures Inv(g, s)
  {
    assert Seen(s) == {};
  }

  /** The recursion stack while `v`, the last visited block, is in hand. */
  ghost predicate Rest(s: Search, recursion: seq<(nat, nat)>) {
    && |recursion| + 1 == |s.path| == |s.edge|
    && forall i :: 0 <= i < |recursion| ==> recursion[i] == (s.path[i], s.edge[i])
  }

  /** The recursion stack between two rounds: either a fresh block is on top, or the visited blocks are resumed. */
  ghost predicate Between(g: Graph, s: Search, recursion: seq<(nat, nat)>, entering: bool) {
    if entering then
      && |recursion| == |s.path| + 1 == |s.edge| + 1
      && recursion[|s.path|].1 == 0 && Sizes(g, s) && Next(g, s, recursion[|s.path|].0)
      && forall i :: 0 <= i < |s.path| ==> recursion[i] == (s.path[i], Bumped(s.edge)[i])
    else
      && |recursion| == |s.path| == |s.edge| && recursion != []
      && (forall i :: 0 <= i < |s.path| ==> recursion[i] == (s.path[i], s.edge[i]))
      && recursion[|recursion| - 1].1 > 0
  }

  /** The facts of the invariant that the program text itself relies on. */
  lemma Basics(g: Graph, s: Search)
    requires Inv(g, s)
    ensures Sizes(g, s)
    ensures |s.discovery| == |s.lowlink| == |s.sccId| == |s.onStack| == |s.num| == |s.parent| == |g| < UNSET
    ensures |s.path| == |s.edge| && s.discovered <= |g|
    ensures forall i :: 0 <= i < |s.path| ==> s.path[i] < |g|
    ensures s.path != [] ==>
      var v := s.path[|s.path| - 1];
      v < |g| && s.edge[|s.edge| - 1] <= |g[v]| && s.onStack[v] && s.discovery[v] == s.num[v] && v in s.stack
    ensures forall a :: 0 <= a < |s.stack| ==> s.stack[a] < |g|
    ensures forall a, b :: 0 <= a < b < |s.stack| ==> s.stack[a] != s.stack[b]
    ensures forall v :: 0 <= v < |g| ==> (s.discovery[v] == UNSET <==> s.num[v] == -1) && s.num[v] >= -1
    ensures s.path == [] ==> s.stack == []
  {
    hide Seen, Reach;
    assert s.stack != [] ==> s.stack[0] in s.stack && Anchored(g, s, s.stack[0]);
  }

  lemma TopBasics(g: Graph, s: Search)
    requires Inv(g, s) && s.path != []
    ensures Sizes(g, s) && |s.discovery| == |s.lowlink| == |s.num| == |g| && |s.path| == |s.edge|
    ensures forall i :: 0 <= i < |s.path| ==> s.path[i] < |g|
    ensures s.discovery[s.path[|s.path| - 1]] == s.num[s.path[|s.path| - 1]]
  {
    hide Seen, Reach;
  }

  lemma Undiscovered(g: Graph, s: Search)
    requires Inv(g, s)
    ensures |s.discovery| == |s.lowlink| == |s.num| == |g|
    ensures forall v :: 0 <= v < |g| ==> (s.discovery[v] == UNSET <==> s.num[v] == -1) && s.num[v] >= -1
  {
    hide Seen, Reach;
  }

  lemma FreshBound(g: Graph, s: Search, w: nat)
    requires Inv(g, s) && Next(g, s, w)
    ensures s.discovered < |g|
  {
    DiscoverSizes(g, s, w);
  }

  /** After a block is finished, the visited block below it resumes behind an edge it has followed. */
  lemma Resumes(g: Graph, s: Search, t: Search, recursion: seq<(nat, nat)>)
    requires Inv(g, s) && Rest(s, recursion) && recursion != []
    requires t.path == s.path[..|s.path| - 1] && t.edge == s.edge[..|s.path| - 1]
    ensures Between(g, t, recursion, false)
  {
    hide Seen, Reach, ReachesUp, AllAnchored, Explored, Components, Positions, Tree, LowBound, LowWitness, Numbering,
         Stacks;
    assert Linked(g, s, |s.path| - 2);
  }

  lemma ParentLow(g: Graph, s: Search)
    requires Inv(g, s) && |s.path| >= 2
    requires s.lowlink[s.path[|s.path| - 1]] == s.num[s.path[|s.path| - 1]]
    ensures s.lowlink[s.path[|s.path| - 2]] <= s.lowlink[s.path[|s.path| - 1]]
  {
    hide Seen, Reach, ReachesUp, AllAnchored, Explored, Components, Positions, Tree, LowBound, Numbering, Stacks;
  }

  /** What the search has established once every block is in a closed component. */
  ghost predicate IsDecomposition(g: Graph, sccId: seq<nat>, discovery: seq<nat>) {
    && |sccId| == |discovery| == |g|
    // two blocks share a component if and only if they reach each other
    && (forall u, v :: 0 <= u < |g| && 0 <= v < |g| ==>
          (sccId[u] == sccId[v] <==> Reach(g, u, v) && Reach(g, v, u)))
    // every edge goes to an equal or smaller component
    && (forall u, v: nat :: 0 <= u < |g| && Edge(g, u, v) ==> v < |g| && sccId[v] <= sccId[u])
    // positions differ inside a component, and every block but the one at the largest position
    // has a source in its component at a larger position
    && (forall v :: 0 <= v < |g| ==> discovery[v] < |g| && sccId[v] < |g|)
    && (forall u, v :: 0 <= u < |g| && 0 <= v < |g| && sccId[u] == sccId[v] ==>
          && (u != v ==> discovery[u] != discovery[v])
          && (discovery[u] > discovery[v] ==> HasEarlierSource(g, sccId, discovery, v)))
  }

  /** A block that no smaller block leads to. */
  ghost predicate IsLeader(g: Graph, v: nat) {
    forall u: nat :: u < v ==> !Reach(g, u, v)
  }

  /** The search enters a component at the block that no smaller block leads to, if there is one, and puts it first. */
  ghost predicate LeadersFirst(g: Graph, sccId: seq<nat>, discovery: seq<nat>)
    requires |sccId| == |discovery| == |g|
  {
    forall v: nat, w: nat :: v < |g| && w < |g| && IsLeader(g, v) && sccId[w] == sccId[v] && w != v ==>
      discovery[w] < discovery[v]
  }

  /** Some block smaller than `v` leads to `w`. */
  ghost predicate FromBelow(g: Graph, w: nat, v: nat) {
    exists r: nat :: r < v && Reach(g, r, w)
  }

  /** Whatever is discovered before `v` was found from a root smaller than `v`. */
  ghost predicate Rooted(g: Graph, num: seq<int>) {
    && |num| == |g|
    && forall w: nat, v: nat {:trigger FromBelow(g, w, v)} ::
         w < |g| && v < |g| && v != w && num[w] >= 0 && (num[v] == -1 || num[v] > num[w]) ==> FromBelow(g, w, v)
  }

  /** All blocks below `next` are discovered, except perhaps the root of the search. */
  ghost predicate Covered(num: seq<int>, next: nat, root: nat) {
    root < next <= |num| && forall u :: 0 <= u < next ==> num[u] >= 0 || u == root
  }

  lemma CoveredFirst(num: seq<int>)
    requires |num| > 0
    ensures Covered(num, 1, 0)
  {
  }

  lemma DiscoverySize(g: Graph, s: Search)
    requires Inv(g, s)
    ensures |s.discovery| == |g|
  {
    hide Seen, Reach;
  }

  lemma CoveredGrows(num: seq<int>, next: nat, root: nat, v: nat, n: nat)
    requires Covered(num, next, root) && v < |num|
    ensures Covered(num[v := n], next, root)
  {
  }

  /** The next root is the smallest undiscovered block; if there is none, all are discovered. */
  lemma CoveredNext(g: Graph, s: Search, from: nat, next: nat, root: nat)
    requires Inv(g, s) && Covered(s.num, from, root) && |s.num| == |s.discovery| == |g| && s.num[root] >= 0
    requires from <= next <= |g| && (next < |g| ==> s.discovery[next] == UNSET)
    requires forall v :: from <= v < next ==> s.discovery[v] != UNSET
    ensures next < |g| ==> s.num[next] == -1 && Covered(s.num, next + 1, next)
    ensures next == |g| ==> forall v :: 0 <= v < |g| ==> s.discovery[v] != UNSET
  {
    hide Inv;
    Undiscovered(g, s);
  }

  lemma NothingRooted(g: Graph, num: seq<int>)
    requires |num| == |g| && forall v :: 0 <= v < |g| ==> num[v] == -1
    ensures Rooted(g, num)
  {
  }

  lemma EntersRooted(g: Graph, s: Search, w: nat, next: nat)
    requires Inv(g, s) && Sizes(g, s) && Next(g, s, w) && Rooted(g, s.num)
    requires s.path == [] ==> Covered(s.num, next, w)
    ensures Rooted(g, s.num[w := s.discovered])
  {
    hide Seen, Reach, ReachesUp, AllAnchored, Explored, Components, Positions, Tree, LowBound, LowWitness, Stacks;
    var num := s.num[w := s.discovered];
    forall x: nat, v: nat | x < |g| && v < |g| && v != x && num[x] >= 0 && (num[v] == -1 || num[v] > num[x])
      ensures FromBelow(g, x, v)
    {
      if x != w {
        assert FromBelow(g, x, v);
      } else if s.path == [] {
        assert num[v] == -1;
        ReachRefl(g, w);
      } else {
        var u := s.path[|s.path| - 1];
        assert FromBelow(g, u, v);
        var r: nat :| r < v && Reach(g, r, u);
        ReachEdge(g, u, w);
        ReachTrans(g, r, u, w);
      }
    }
  }

  /** A block that no smaller block leads to is discovered before the rest of its component. */
  lemma Leading(g: Graph, s: Search)
    requires Inv(g, s) && s.path == [] && Rooted(g, s.num) && IsDecomposition(g, s.sccId, s.discovery)
    requires forall v :: 0 <= v < |g| ==> s.discovery[v] != UNSET
    ensures LeadersFirst(g, s.sccId, s.discovery)
  {
    Basics(g, s);
    hide Seen, Reach, ReachesUp, AllAnchored, Explored, Tree, LowBound, LowWitness, HasEarlierSource;
    forall v: nat, w: nat | v < |g| && w < |g| && IsLeader(g, v) && s.sccId[w] == s.sccId[v] && w != v
      ensures s.discovery[w] < s.discovery[v]
    {
      assert !s.onStack[v] && s.sccId[v] != UNSET;
      if s.num[w] < s.num[v] {
        assert FromBelow(g, w, v);
        var r: nat :| r < v && Reach(g, r, w);
        assert Reach(g, w, v);
        ReachTrans(g, r, w, v);
      }
    }
  }

  lemma Complete(g: Graph, s: Search)
    requires Inv(g, s) && s.path == []
    requires forall v :: 0 <= v < |g| ==> s.discovery[v] != UNSET
    ensures IsDecomposition(g, s.sccId, s.discovery)
  {
    Basics(g, s);
    hide Seen, Reach, ReachesUp, AllAnchored, Explored, Tree, LowBound, LowWitness, HasEarlierSource;
    assert forall v :: 0 <= v < |g| ==> !s.onStack[v];
    assert forall v :: 0 <= v < |g| ==> s.sccId[v] != UNSET;
  }

  lemma SuffixGrows(s: seq<nat>, k: nat)
    requires k < |s|
    ensures forall x :: x in s[k..] <==> x == s[k] || x in s[k + 1..]
  {
    assert s[k..] == [s[k]] + s[k + 1..];
  }

  /** Pops the component stack down to and including `v`, numbering the popped blocks from zero. */
  method CloseComponent(v: nat, ids: nat, stack: seq<nat>, discovery: seq<nat>, sccId: seq<nat>, onStack: seq<bool>,
                        ghost a: nat)
    returns (stack': seq<nat>, discovery': seq<nat>, sccId': seq<nat>, onStack': seq<bool>)
    requires |discovery| == |sccId| == |onStack|
    requires forall b :: 0 <= b < |stack| ==> stack[b] < |discovery|
    requires forall b, c :: 0 <= b < c < |stack| ==> stack[b] != stack[c]
    requires a < |stack| && stack[a] == v
    ensures stack' == stack[..a]
    ensures Renumbered(stack, a, ids, discovery, sccId, onStack, discovery', sccId', onStack')
  {
    stack', discovery', sccId', onStack' := stack, discovery, sccId, onStack;
    var indexInScc := 0;
    var closed := false;
    while !closed
      invariant |discovery'| == |sccId'| == |onStack'| == |discovery|
      invariant |stack'| <= |stack| && stack' == stack[..|stack'|]
      invariant if closed then |stack'| == a else a < |stack'|
      invariant indexInScc == |stack| - |stack'|
      invariant forall b :: |stack'| <= b < |stack| ==>
                  discovery'[stack[b]] == |stack| - 1 - b && sccId'[stack[b]] == ids && !onStack'[stack[b]]
      invariant forall x :: 0 <= x < |discovery| && x !in stack[|stack'|..] ==>
                  discovery'[x] == discovery[x] && sccId'[x] == sccId[x] && onStack'[x] == onStack[x]
      decreases |stack'|, !closed
    {
      var w := stack'[|stack'| - 1];
      ghost var rest := |stack'|;
      stack' := stack'[..|stack'| - 1];
      SuffixGrows(stack, rest - 1);
      onStack' := onStack'[w := false];
      sccId' := sccId'[w := ids];
      discovery' := discovery'[w := indexInScc];
      indexInScc := indexInScc + 1;
      closed := w == v;
    }
    forall x | 0 <= x < |discovery| && x in stack[a..] ensures sccId'[x] == ids && !onStack'[x] {
      var b :| 0 <= b < |stack[a..]| && stack[a..][b] == x;
      assert stack[a + b] == x;
    }
  }

  /** The first undiscovered block from `from` on, or the number of blocks. */
  method NextRoot(discovery: seq<nat>, from: nat) returns (next: nat)
    requires from <= |discovery|
    ensures from <= next <= |discovery|
    ensures next < |discovery| ==> discovery[next] == UNSET
    ensures forall v :: from <= v < next ==> discovery[v] != UNSET
  {
    next := from;
    while next != |discovery| && discovery[next] != UNSET
      invariant from <= next <= |discovery|
      invariant forall v :: from <= v < next ==> discovery[v] != UNSET
    {
      next := next + 1;
    }
  }

  /** Popping the recursion stack: edge index zero marks exactly the blocks entered for the first time. */
  lemma Popped(g: Graph, s: Search, recursion: seq<(nat, nat)>, entering: bool)
    requires Inv(g, s) && recursion != [] && Between(g, s, recursion, entering)
    ensures var (v, e) := recursion[|recursion| - 1]; var rest := recursion[..|recursion| - 1];
      && Sizes(g, s) && v < |g| && (e == 0 <==> entering)
      && (if entering then
            && Next(g, s, v) && s.discovered < |g| && Rest(Discover(s, v), rest) && (s.path == [] ==> |recursion| == 1)
          else
            && Rest(s, rest) && s.path != [] && s.path[|s.path| - 1] == v && s.edge[|s.edge| - 1] == e && s.num[v] >= 0)
  {
    var v := recursion[|recursion| - 1].0;
    assert Sizes(g, s);
    if entering {
      FreshBound(g, s, v);
    } else {
      TopBasics(g, s);
    }
    hide Numbering, Stacks, Visiting, ReachesUp, AllAnchored, Explored, Components, Positions, Tree, LowBound,
         LowWitness;
  }

  lemma Descends(g: Graph, s: Search, rest: seq<(nat, nat)>, v: nat, j: nat, w: nat)
    requires Inv(g, s) && Rest(s, rest) && s.path[|s.path| - 1] == v && s.edge[|s.edge| - 1] == j
    requires v < |g| && j < |g[v]| && g[v][j] == w && w < |s.num| && s.num[w] == -1
    ensures Between(g, s, rest + [(v, j + 1), (w, 0)], true)
  {
    hide Inv, Seen;
    Basics(g, s);
    var r := rest + [(v, j + 1), (w, 0)];
    assert forall i :: 0 <= i < |s.path| ==> r[i] == (s.path[i], Bumped(s.edge)[i]);
  }

  lemma Follows(g: Graph, s: Search, rest: seq<(nat, nat)>)
    requires Inv(g, s) && Rest(s, rest) && s.path != [] && s.path[|s.path| - 1] < |g| == |s.num|
    requires s.edge[|s.edge| - 1] < |g[s.path[|s.path| - 1]]|
    requires s.num[g[s.path[|s.path| - 1]][s.edge[|s.edge| - 1]]] >= 0
    ensures Sizes(g, s) && CanAdvance(g, s) && Inv(g, Advance(g, s)) && Rest(Advance(g, s), rest)
  {
    assert Sizes(g, s) && CanAdvance(g, s);
    hide Inv, Sizes;
    AdvanceInv(g, s);
  }

  lemma StaysOpen(g: Graph, s: Search, rest: seq<(nat, nat)>)
    requires Inv(g, s) && Rest(s, rest) && Sizes(g, s) && Finished(g, s)
    requires s.lowlink[s.path[|s.path| - 1]] != s.num[s.path[|s.path| - 1]]
    ensures |s.path| >= 2 && rest != [] && rest[|rest| - 1].0 == s.path[|s.path| - 2]
    ensures Inv(g, FinishOpen(s)) && Between(g, FinishOpen(s), rest, false)
  {
    assert CanFinishOpen(g, s) by {
      hide Seen, Reach, ReachesUp, AllAnchored, Explored, Components, Positions, Tree, LowBound, Numbering, Stacks;
    }
    hide Seen, Reach, Numbering, Stacks, Visiting, ReachesUp, AllAnchored, Explored, Components, Positions, Tree,
         LowBound, LowWitness, Between;
    FinishOpenInv(g, s);
    Resumes(g, s, FinishOpen(s), rest);
  }

  lemma ComponentClosed(g: Graph, s: Search, t: Search, a: nat, rest: seq<(nat, nat)>)
    requires Inv(g, s) && Rest(s, rest) && Sizes(g, s) && CanClose(g, s, a) && Closes(s, t, a)
    ensures Inv(g, t)
    ensures if rest == [] then t.path == [] else
      && Between(g, t, rest, false) && |s.path| >= 2 && rest[|rest| - 1].0 == s.path[|s.path| - 2]
      && s.lowlink[s.path[|s.path| - 2]] <= s.lowlink[s.path[|s.path| - 1]]
  {
    hide Inv, Seen, Between;
    ClosesInv(g, s, t, a);
    if rest != [] {
      ParentLow(g, s);
      Resumes(g, s, t, rest);
    }
  }

  /** What popping the component stack establishes is what the proof asks for. */
  lemma ComponentIsClosed(g: Graph, s: Search, t: Search, a: nat, v: nat)
    requires Inv(g, s) && Sizes(g, s) && s.path != [] && |s.path| == |s.edge| && a < |s.stack| && s.stack[a] == v
    requires v < |g| == |s.lowlink| == |s.discovery| && s.path[|s.path| - 1] == v && s.edge[|s.edge| - 1] == |g[v]|
    requires s.lowlink[v] == s.discovery[v]
    requires t == s.(discovery := t.discovery, sccId := t.sccId, onStack := t.onStack, stack := s.stack[..a],
                     ids := s.ids + 1, path := s.path[..|s.path| - 1], edge := s.edge[..|s.path| - 1])
    requires Renumbered(s.stack, a, s.ids, s.discovery, s.sccId, s.onStack, t.discovery, t.sccId, t.onStack)
    ensures CanClose(g, s, a) && Closes(s, t, a)
  {
    hide Inv, Seen;
    TopBasics(g, s);
  }

  lemma RestNotEmpty(s: Search, rest: seq<(nat, nat)>)
    requires Rest(s, rest)
    ensures s.path != []
  {
  }

  lemma RestTop(g: Graph, s: Search, rest: seq<(nat, nat)>)
    requires Rest(s, rest) && Sizes(g, s) && rest != []
    ensures rest[|rest| - 1].0 < |g|
  {
    hide Seen;
  }

  lemma DescendedBound(g: Graph, s: Search, recursion: seq<(nat, nat)>)
    requires Inv(g, s) && Between(g, s, recursion, true)
    ensures s.discovered < |g|
  {
    FreshBound(g, s, recursion[|s.path|].0);
  }

  lemma StartsAt(g: Graph, s: Search, root: nat)
    requires Inv(g, s) && s.path == [] && root < |s.num| == |g| && s.num[root] == -1
    ensures Between(g, s, [(root, 0)], true) && s.discovered < |g|
  {
    assert Sizes(g, s);
    assert Next(g, s, root);
    FreshBound(g, s, root);
    hide Inv;
  }

  /** Numbers `v` and puts it on the component stack. */
  method EnterBlock(g: Graph, v: nat, discovered: nat, discovery: seq<nat>, lowlink: seq<nat>, onStack: seq<bool>,
                    stack: seq<nat>,
                    ghost recursion: seq<(nat, nat)>, ghost s: Search)
    returns (discovery': seq<nat>, lowlink': seq<nat>, onStack': seq<bool>, stack': seq<nat>, ghost t: Search)
    requires Inv(g, s) && Sizes(g, s) && Next(g, s, v) && Rest(Discover(s, v), recursion)
    requires s.discovery == discovery && s.lowlink == lowlink && s.onStack == onStack && s.stack == stack
    requires s.discovered == discovered
    ensures Inv(g, t) && Rest(t, recursion)
    ensures t == Search(discovery', lowlink', s.sccId, onStack', stack', s.ids, discovered + 1, t.num, t.parent,
      t.path, t.edge)
    ensures t.path != [] && t.edge != [] && t.path[|t.path| - 1] == v && t.edge[|t.edge| - 1] == 0
    ensures t.num == s.num[v := discovered]
  {
    hide Inv, Rest;
    DiscoverInv(g, s, v);
    t := Discover(s, v);
    discovery' := discovery[v := discovered];
    lowlink' := lowlink[v := discovered];
    onStack' := onStack[v := true];
    stack' := stack + [v];
  }

  /** Follows the edges of `v` from number `edgeIndex` on, up to the first one that leads to an undiscovered block. */
  method FollowEdges(g: Graph, v: nat, edgeIndex: nat, discovery: seq<nat>, lowlink: seq<nat>, onStack: seq<bool>,
                     recursion: seq<(nat, nat)>, ghost s: Search)
    returns (lowlink': seq<nat>, recursion': seq<(nat, nat)>, descended: bool, ghost t: Search)
    requires Inv(g, s) && Rest(s, recursion)
    requires s.discovery == discovery && s.lowlink == lowlink && s.onStack == onStack
    requires v < |g| && s.path[|s.path| - 1] == v && s.edge[|s.edge| - 1] == edgeIndex
    ensures Inv(g, t) && t == s.(lowlink := lowlink', edge := t.edge)
    ensures |t.path| == |t.edge| > 0
    ensures if descended
            then |recursion'| == |recursion| + 2 && recursion'[|recursion|].0 == v && recursion < recursion'
                 && Between(g, t, recursion', true)
            else recursion' == recursion && Rest(t, recursion) && t.edge[|t.edge| - 1] == |g[v]|
  {
    hide Inv, Sizes, Between, CanAdvance;
    Basics(g, s);
    lowlink', recursion', descended, t := lowlink, recursion, false, s;
    var j := edgeIndex;
    while j < |g[v]| && !descended
      invariant Inv(g, t) && t == s.(lowlink := lowlink', edge := t.edge)
      invariant |t.path| == |t.edge| > 0 && |lowlink'| == |lowlink| && j <= |g[v]|
      invariant if descended
                then |recursion'| == |recursion| + 2 && recursion'[|recursion|].0 == v && recursion < recursion'
                     && Between(g, t, recursion', true)
                else recursion' == recursion && Rest(t, recursion) && t.edge[|t.edge| - 1] == j
      decreases |g[v]| - j, !descended
    {
      var w := g[v][j];
      if discovery[w] == UNSET {
        Descends(g, t, recursion, v, j, w);
        recursion' := recursion + [(v, j + 1), (w, 0)];
        descended := true;
      } else {
        Follows(g, t, recursion);
        t := Advance(g, t);
        if onStack[w] {
          lowlink' := lowlink'[v := Min(lowlink'[v], discovery[w])];
        }
        j := j + 1;
      }
    }
  }

  /** Closes the component rooted at `v`. */
  method CloseRoot(g: Graph, v: nat, discovery: seq<nat>, sccId: seq<nat>, onStack: seq<bool>, stack: seq<nat>,
                   ids: nat,
                   ghost recursion: seq<(nat, nat)>, ghost s: Search)
    returns (discovery': seq<nat>, sccId': seq<nat>, onStack': seq<bool>, stack': seq<nat>, ghost t: Search)
    requires Inv(g, s) && Rest(s, recursion)
    requires s.discovery == discovery && s.sccId == sccId && s.onStack == onStack && s.stack == stack && s.ids == ids
    requires v < |g| == |s.lowlink| == |s.discovery| && s.path[|s.path| - 1] == v && s.edge[|s.edge| - 1] == |g[v]|
    requires s.lowlink[v] == s.discovery[v]
    ensures Inv(g, t)
    ensures t == s.(discovery := discovery', sccId := sccId', onStack := onStack', stack := stack', ids := ids + 1,
      path := t.path, edge := t.edge)
    ensures if recursion == [] then t.path == [] else
      && Between(g, t, recursion, false) && recursion[|recursion| - 1].0 < |g|
      && s.lowlink[recursion[|recursion| - 1].0] <= s.lowlink[v]
  {
    hide Inv, Sizes, Between, Seen, Rest, CanClose, Closes, Renumbered;
    Basics(g, s);
    assert s.path != [] by { RestNotEmpty(s, recursion); }
    ghost var a :| 0 <= a < |stack| && stack[a] == v;
    stack', discovery', sccId', onStack' := CloseComponent(v, ids, stack, discovery, sccId, onStack, a);
    t := s.(discovery := discovery', sccId := sccId', onStack := onStack', stack := stack', ids := ids + 1,
      path := s.path[..|s.path| - 1], edge := s.edge[..|s.path| - 1]);
    ComponentIsClosed(g, s, t, a, v);
    ComponentClosed(g, s, t, a, recursion);
    if recursion != [] {
      RestTop(g, s, recursion);
    }
  }

  /** Finishes `v`: closes its component if `v` is the root of one, and hands its low link to the block below. */
  method FinishBlock(g: Graph, v: nat, discovery: seq<nat>, lowlink: seq<nat>, sccId: seq<nat>, onStack: seq<bool>,
                     stack: seq<nat>, ids: nat, recursion: seq<(nat, nat)>, ghost s: Search)
    returns (discovery': seq<nat>, lowlink': seq<nat>, sccId': seq<nat>, onStack': seq<bool>, stack': seq<nat>,
             ids': nat, ghost t: Search)
    requires Inv(g, s) && Rest(s, recursion)
    requires s.discovery == discovery && s.lowlink == lowlink && s.sccId == sccId && s.onStack == onStack
    requires s.stack == stack && s.ids == ids
    requires v < |g| && s.path[|s.path| - 1] == v && s.edge[|s.edge| - 1] == |g[v]|
    ensures Inv(g, t)
    ensures t == s.(discovery := discovery', lowlink := lowlink', sccId := sccId', onStack := onStack',
      stack := stack', ids := ids', path := t.path, edge := t.edge)
    ensures if recursion == [] then t.path == [] else Between(g, t, recursion, false)
  {
    hide Inv, Sizes, Between;
    TopBasics(g, s);
    discovery', lowlink', sccId', onStack', stack', ids' := discovery, lowlink, sccId, onStack, stack, ids;
    if discovery[v] == lowlink[v] {
      discovery', sccId', onStack', stack', t := CloseRoot(g, v, discovery, sccId, onStack, stack, ids, recursion, s);
      ids' := ids + 1;
    } else {
      StaysOpen(g, s, recursion);
      t := FinishOpen(s);
    }
    if recursion != [] {
      var u := recursion[|recursion| - 1].0;
      lowlink' := lowlink'[u := Min(lowlink'[u], lowlink'[v])];
    }
  }

  /**
   Finds the strongly connected components of the control-flow graph. `discovery` ends up as the
   position inside the component, largest for the block by which the search entered the component.
   */
  method FindComponents(g: Graph) returns (sccId: seq<nat>, discovery: seq<nat>)
    requires |g| < UNSET
    ensures IsDecomposition(g, sccId, discovery) && LeadersFirst(g, sccId, discovery)
  {
    hide Inv, Sizes, Next, Between, Rest, Discover, IsDecomposition, LeadersFirst, Rooted, Covered;
    discovery := seq(|g|, _ => UNSET);
    sccId := seq(|g|, _ => UNSET);
    var lowlink: seq<nat> := seq(|g|, _ => UNSET);
    var onStack := seq(|g|, _ => false);
    var stack, ids, discovered, nextV := [], 0, 0, 1;
    ghost var st := Search(discovery, lowlink, sccId, onStack, stack, ids, discovered, seq(|g|, _ => -1),
                           seq(|g|, _ => -1), [], []);
    StartInv(g, st);
    NothingRooted(g, st.num);
    if |g| == 0 {
      Complete(g, st);
      Leading(g, st);
      return;
    }
    var recursion: seq<(nat, nat)> := [(0, 0)];
    ghost var entering := true;
    StartsAt(g, st, 0);
    assert Covered(st.num, 1, 0) by { CoveredFirst(st.num); }
    while recursion != []
      invariant Inv(g, st) && recursion != [] && Between(g, st, recursion, entering)
      invariant st == Search(discovery, lowlink, sccId, onStack, stack, ids, discovered, st.num, st.parent, st.path,
        st.edge)
      invariant |st.num| == |g| && discovered <= |g| && (entering ==> discovered < |g|)
      invariant Rooted(g, st.num) && nextV <= |g| && Covered(st.num, nextV, recursion[0].0)
      decreases 4 * (|g| - discovered) + |recursion| - (if entering then 2 else 0)
    {
      Popped(g, st, recursion, entering);
      ghost var root := recursion[0].0;
      var (v, edgeIndex) := recursion[|recursion| - 1];
      recursion := recursion[..|recursion| - 1];
      if edgeIndex == 0 {
        EntersRooted(g, st, v, nextV);
        CoveredGrows(st.num, nextV, root, v, discovered);
        discovery, lowlink, onStack, stack, st :=
          EnterBlock(g, v, discovered, discovery, lowlink, onStack, stack, recursion, st);
        discovered := discovered + 1;
      }
      var descended;
      lowlink, recursion, descended, st := FollowEdges(g, v, edgeIndex, discovery, lowlink, onStack, recursion, st);
      if descended {
        DescendedBound(g, st, recursion);
        entering := true;
      } else {
        discovery, lowlink, sccId, onStack, stack, ids, st :=
          FinishBlock(g, v, discovery, lowlink, sccId, onStack, stack, ids, recursion, st);
        entering := false;
        if recursion == [] {
          ghost var from := nextV;
          DiscoverySize(g, st);
          nextV := NextRoot(discovery, nextV);
          CoveredNext(g, st, from, nextV, root);
          if nextV == |g| {
            break;
          }
          StartsAt(g, st, nextV);
          recursion := [(nextV, 0)];
          nextV := nextV + 1;
          entering := true;
        }
      }
    }
    Complete(g, st);
    Leading(g, st);
  }
}
