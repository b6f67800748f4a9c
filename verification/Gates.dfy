/**
 Dominators, and the relation that the dominator iteration really computes: `x` gates `b` if every
 path to `b` that starts at a block ranked before `x` passes through `x`. Starting from the root alone
 this is dominance; the iteration also has to respect paths from blocks that merely rank early.
 */
module Gates {
  import opened Graphs
  import opened Tarjan

  // ---------------------------------------------------------------- dominators

  /** Every path from the root to `b` passes through `d`. */
  ghost predicate Dominates(g: Graph, root: nat, d: nat, b: nat) {
    forall q :: IsPath(g, q, root, b) ==> d in q
  }

  /** `d` is the dominator of `b` that all other dominators of `b` dominate. */
  ghost predicate ImmediatelyDominates(g: Graph, root: nat, d: nat, b: nat) {
    && d != b && Dominates(g, root, d, b)
    && forall x: nat :: x != b && Dominates(g, root, x, b) ==> Dominates(g, root, x, d)
  }

  // ---------------------------------------------------------------- short paths

  /** More positions than blocks: some block is met twice. */
  lemma Repeats(q: seq<nat>, n: nat) returns (i: nat, j: nat)
    requires |q| > n && forall k :: 0 <= k < |q| ==> q[k] < n
    ensures i < j < |q| && q[i] == q[j]
  {
    var seen: set<nat>, k := {}, 0;
    while k < |q| && q[k] !in seen
      invariant 0 <= k <= |q| && |seen| == k
      invariant forall x: nat :: x in seen <==> x in q[..k]
    {
      seen := seen + {q[k]};
      k := k + 1;
    }
    if k == |q| {
      CardinalityUpTo(seen, n);
      assert false;
    }
    j := k;
    assert q[k] in q[..k];
    i :| 0 <= i < k && q[..k][i] == q[k];
  }

  /** A path can be shortened to the number of blocks without meeting new blocks. */
  lemma {:induction false} ShortPath(g: Graph, q: seq<nat>, u: nat, v: nat) returns (r: seq<nat>)
    requires IsPath(g, q, u, v)
    ensures IsPath(g, r, u, v) && |r| <= |g| && forall x: nat :: x in r ==> x in q
    decreases |q|
  {
    if |q| <= |g| {
      r := q;
    } else {
      var i, j := Repeats(q, |g|);
      PathSplits(g, q, u, v, i);
      PathSplits(g, q, u, v, j);
      PathJoins(g, q[..i + 1], q[j..], u, q[i], v);
      r := ShortPath(g, q[..i + 1] + q[j..][1..], u, v);
    }
  }

  // ---------------------------------------------------------------- gates

  /** `q` is a path to `b` that starts at a block ranked before `x`. */
  ghost predicate StartsBefore(g: Graph, rank: seq<nat>, q: seq<nat>, x: nat, b: nat)
    requires |rank| == |g| && x < |g|
  {
    |q| > 0 && IsPath(g, q, q[0], b) && rank[q[0]] < rank[x]
  }

  /** Every path to `b` that starts at a block ranked before `x` passes through `x`. */
  ghost predicate Gate(g: Graph, rank: seq<nat>, x: nat, b: nat)
    requires |rank| == |g|
  {
    x < |g| && forall q :: StartsBefore(g, rank, q, x, b) ==> x in q
  }

  /** The same for paths of at most `k` blocks. */
  ghost predicate GateWithin(g: Graph, rank: seq<nat>, x: nat, b: nat, k: nat)
    requires |rank| == |g|
  {
    x < |g| && forall q :: StartsBefore(g, rank, q, x, b) && |q| <= k ==> x in q
  }

  ghost predicate GatesSources(g: Graph, rank: seq<nat>, x: nat, b: nat)
    requires |rank| == |g|
  {
    x < |g| && forall p: nat :: Edge(g, p, b) ==> Gate(g, rank, x, p)
  }

  ghost predicate TellApart(rank: seq<nat>) {
    forall u: nat, v: nat :: u < |rank| && v < |rank| && rank[u] == rank[v] ==> u == v
  }

  /** Ranks tell blocks apart, and the root has the first of them. */
  ghost predicate RootFirst(g: Graph, root: nat, rank: seq<nat>) {
    root < |g| == |rank| && rank[root] == 0 && TellApart(rank)
  }

  lemma GateIsEarlier(g: Graph, rank: seq<nat>, x: nat, b: nat)
    requires |rank| == |g| && b < |g| && Gate(g, rank, x, b)
    ensures rank[x] <= rank[b]
  {
    if rank[b] < rank[x] {
      assert StartsBefore(g, rank, [b], x, b);
      assert false;
    }
  }

  /** A gate of a block other than the block itself gates all of its sources. */
  lemma GateOfSource(g: Graph, rank: seq<nat>, x: nat, p: nat, b: nat)
    requires |rank| == |g| && Gate(g, rank, x, b) && x != b && Edge(g, p, b)
    ensures Gate(g, rank, x, p)
  {
    forall q | StartsBefore(g, rank, q, x, p) ensures x in q {
      PathExtends(g, q, q[0], p, b);
      assert (q + [b])[0] == q[0];
      assert StartsBefore(g, rank, q + [b], x, b);
    }
  }

  /** Paths longer than the number of blocks add nothing. */
  lemma GateBounded(g: Graph, rank: seq<nat>, x: nat, b: nat)
    requires |rank| == |g| && GateWithin(g, rank, x, b, |g|)
    ensures Gate(g, rank, x, b)
  {
    forall q | StartsBefore(g, rank, q, x, b) ensures x in q {
      var r := ShortPath(g, q, q[0], b);
      assert StartsBefore(g, rank, r, x, b);
    }
  }

  /** A gate dominates. */
  lemma GateDominates(g: Graph, root: nat, rank: seq<nat>, x: nat, b: nat, q: seq<nat>)
    requires RootFirst(g, root, rank) && Gate(g, rank, x, b) && IsPath(g, q, root, b)
    ensures x in q
  {
    if x != root {
      assert StartsBefore(g, rank, q, x, b);
    }
  }

  /** Of two gates of one block, the earlier one gates the later one, provided the later one leads to the block. */
  lemma GateOfGate(g: Graph, rank: seq<nat>, x: nat, d: nat, p: nat, s: seq<nat>)
    requires |rank| == |g| && Gate(g, rank, x, p) && Gate(g, rank, d, p) && IsPath(g, s, d, p)
    requires rank[x] < rank[d]
    ensures Gate(g, rank, x, d)
  {
    var t := AfterLast(g, s, d, p);
    forall q | StartsBefore(g, rank, q, x, d) ensures x in q {
      PathJoins(g, q, t, q[0], d, p);
      assert StartsBefore(g, rank, q + t[1..], x, p);
      if x in t {
        var j :| 0 <= j < |t| && t[j] == x;
        assert j > 0;
        PathSplits(g, t, d, p, j);
        assert StartsBefore(g, rank, t[j..], d, p);
        assert false;
      }
    }
  }

  /** The part of a path from the last visit of its first block on. */
  lemma {:induction false} AfterLast(g: Graph, s: seq<nat>, d: nat, p: nat) returns (t: seq<nat>)
    requires IsPath(g, s, d, p)
    ensures IsPath(g, t, d, p) && d !in t[1..]
    ensures forall j: nat :: 0 < j < |t| ==> d !in t[j..]
    decreases |s|
  {
    if d in s[1..] {
      var i :| 0 <= i < |s[1..]| && s[1..][i] == d;
      PathSplits(g, s, d, p, i + 1);
      t := AfterLast(g, s[i + 1..], d, p);
    } else {
      t := s;
      forall j: nat | 0 < j < |t| ensures d !in t[j..] {
        assert t[j..] == t[1..][j - 1..];
      }
    }
  }

  // ---------------------------------------------------------------- what the iteration computes

  /** Of the blocks that gate every source of `b`, `x` ranks last. */
  ghost predicate Latest(g: Graph, rank: seq<nat>, b: nat, x: nat)
    requires |rank| == |g|
  {
    GatesSources(g, rank, x, b) && forall y: nat :: GatesSources(g, rank, y, b) ==> rank[y] <= rank[x]
  }

  /** The root is its own parent; the parent of any other block is the latest gate of all its sources. */
  ghost predicate IsHierarchy(g: Graph, root: nat, rank: seq<nat>, parent: seq<nat>) {
    && RootFirst(g, root, rank) && |parent| == |g| && parent[root] == root
    && forall b: nat :: b < |g| && b != root ==> Latest(g, rank, b, parent[b])
  }

  /** There is only one such hierarchy. */
  lemma HierarchyIsUnique(g: Graph, root: nat, rank: seq<nat>, parent: seq<nat>, other: seq<nat>)
    requires IsHierarchy(g, root, rank, parent) && IsHierarchy(g, root, rank, other)
    ensures parent == other
  {
    hide GatesSources;
    forall b: nat | b < |g| ensures parent[b] == other[b] {
      if b != root {
        LatestIsUnique(g, root, rank, b, parent[b], other[b]);
      }
    }
  }

  lemma LatestIsUnique(g: Graph, root: nat, rank: seq<nat>, b: nat, x: nat, y: nat)
    requires RootFirst(g, root, rank) && Latest(g, rank, b, x) && Latest(g, rank, b, y)
    ensures x == y
  {
  }

  function Up(parent: seq<nat>, x: nat, k: nat): nat
    decreases k
  {
    if k == 0 || x >= |parent| then x else Up(parent, parent[x], k - 1)
  }

  /** `y` is `x` or is met by following parents from `x`. */
  ghost predicate Anc(parent: seq<nat>, x: nat, y: nat) {
    exists k: nat :: Up(parent, x, k) == y
  }

  /** On every path from the root to a block the parent of the block comes before the end. */
  lemma ParentOnPath(g: Graph, root: nat, rank: seq<nat>, parent: seq<nat>, b: nat, q: seq<nat>) returns (i: nat)
    requires IsHierarchy(g, root, rank, parent) && b != root && IsPath(g, q, root, b)
    ensures i < |q| - 1 && q[i] == parent[b] && IsPath(g, q[..i + 1], root, parent[b])
  {
    hide Gate;
    var p := LastEdge(g, q, root, b);
    assert Latest(g, rank, b, parent[b]);
    GateDominates(g, root, rank, parent[b], p, q[..|q| - 1]);
    i :| 0 <= i < |q| - 1 && q[..|q| - 1][i] == parent[b];
    PathSplits(g, q, root, b, i);
  }

  /** Every path from the root to a block passes through all blocks above it in the hierarchy. */
  lemma {:induction false} AncestorsDominate(g: Graph, root: nat, rank: seq<nat>, parent: seq<nat>, b: nat, k: nat,
                                             q: seq<nat>)
    requires IsHierarchy(g, root, rank, parent) && IsPath(g, q, root, b)
    ensures Up(parent, b, k) in q
    decreases k
  {
    hide IsHierarchy;
    assert |parent| == |g| && parent[root] == root by { HierarchyRoot(g, root, rank, parent); }
    if k > 0 {
      if b == root {
        AncestorsDominate(g, root, rank, parent, b, k - 1, q);
      } else {
        var i := ParentOnPath(g, root, rank, parent, b, q);
        AncestorsDominate(g, root, rank, parent, parent[b], k - 1, q[..i + 1]);
      }
    }
  }

  lemma HierarchyRoot(g: Graph, root: nat, rank: seq<nat>, parent: seq<nat>)
    requires IsHierarchy(g, root, rank, parent)
    ensures root < |g| == |rank| == |parent| && parent[root] == root && RootFirst(g, root, rank)
  {
  }

  /** Following parents ends at the root: the hierarchy is a tree. */
  lemma {:induction false} RootIsAbove(g: Graph, root: nat, rank: seq<nat>, parent: seq<nat>, b: nat, q: seq<nat>)
    returns (k: nat)
    requires IsHierarchy(g, root, rank, parent) && IsPath(g, q, root, b)
    ensures Up(parent, b, k) == root
    decreases |q|
  {
    hide IsHierarchy;
    HierarchyRoot(g, root, rank, parent);
    if b == root {
      k := 0;
    } else {
      var i := ParentOnPath(g, root, rank, parent, b, q);
      var j := RootIsAbove(g, root, rank, parent, parent[b], q[..i + 1]);
      k := j + 1;
    }
  }

  lemma {:induction false} UpSelf(parent: seq<nat>, b: nat, k: nat)
    requires b < |parent| && parent[b] == b
    ensures Up(parent, b, k) == b
  {
    if k > 0 {
      UpSelf(parent, b, k - 1);
    }
  }

  lemma ParentDiffers(g: Graph, root: nat, rank: seq<nat>, parent: seq<nat>, b: nat)
    requires IsHierarchy(g, root, rank, parent) && b != root && Reach(g, root, b)
    ensures b < |parent| && parent[b] != b
  {
    hide Latest;
    var q :| IsPath(g, q, root, b);
    var k := RootIsAbove(g, root, rank, parent, b, q);
    if parent[b] == b {
      UpSelf(parent, b, k);
      assert false;
    }
  }

  // ---------------------------------------------------------------- when it is the immediate dominator

  lemma ImmediateIsUnique(g: Graph, root: nat, b: nat, x: nat, y: nat)
    requires ImmediatelyDominates(g, root, x, b) && ImmediatelyDominates(g, root, y, b)
    requires Reach(g, root, b)
    ensures x == y
  {
    var q :| IsPath(g, q, root, b);
    assert x in q && y in q;
    var i :| 0 <= i < |q| && q[i] == x;
    PathSplits(g, q, root, b, i);
    Antisymmetric(g, root, x, y, q[..i + 1]);
  }

  lemma {:induction false} Antisymmetric(g: Graph, root: nat, x: nat, y: nat, q: seq<nat>)
    requires Dominates(g, root, x, y) && Dominates(g, root, y, x) && IsPath(g, q, root, x)
    ensures x == y
    decreases |q|
  {
    if x != y {
      assert y in q;
      var i :| 0 <= i < |q| && q[i] == y;
      PathSplits(g, q, root, x, i);
      Antisymmetric(g, root, y, x, q[..i + 1]);
    }
  }

  /** Every reachable block but the root has an immediate dominator: the last proper dominator on any path. */
  lemma ImmediateExists(g: Graph, root: nat, b: nat) returns (d: nat)
    requires b != root && Reach(g, root, b)
    ensures ImmediatelyDominates(g, root, d, b)
  {
    hide Dominates;
    var q :| IsPath(g, q, root, b);
    assert Dominates(g, root, root, b) by { RootDominates(g, root, b); }
    var i := |q| - 1;
    while q[i] == b || !Dominates(g, root, q[i], b)
      invariant 0 <= i < |q|
      invariant forall j :: i < j < |q| ==> q[j] == b || !Dominates(g, root, q[j], b)
      decreases i
    {
      i := i - 1;
    }
    d := q[i];
    forall x: nat | x != b && Dominates(g, root, x, b) ensures Dominates(g, root, x, d) {
      DominatesLast(g, root, b, q, i, x);
    }
  }

  lemma RootDominates(g: Graph, root: nat, b: nat)
    ensures Dominates(g, root, root, b)
  {
  }

  lemma DominatesLast(g: Graph, root: nat, b: nat, q: seq<nat>, i: nat, x: nat)
    requires IsPath(g, q, root, b) && i < |q| && x != b && Dominates(g, root, x, b)
    requires forall j :: i < j < |q| ==> q[j] == b || !Dominates(g, root, q[j], b)
    ensures Dominates(g, root, x, q[i])
  {
    PathSplits(g, q, root, b, i);
    forall r | IsPath(g, r, root, q[i]) ensures x in r {
      PathJoins(g, r, q[i..], root, q[i], b);
      assert x in r + q[i..][1..];
      assert x !in q[i..][1..];
    }
  }

  /**
   The exact condition. Let `d` be the immediate dominator of `b`. The hierarchy gives it as the parent
   of `b` if and only if `d` gates every source of `b`.
   */
  lemma ParentIsImmediateIff(g: Graph, root: nat, rank: seq<nat>, parent: seq<nat>, b: nat, d: nat)
    requires IsHierarchy(g, root, rank, parent) && b < |g| && b != root && Reach(g, root, b)
    requires ImmediatelyDominates(g, root, d, b)
    ensures ImmediatelyDominates(g, root, parent[b], b) <==> GatesSources(g, rank, d, b)
    ensures ImmediatelyDominates(g, root, parent[b], b) <==> parent[b] == d
  {
    hide Gate, Dominates, GatesSources;
    assert Latest(g, rank, b, parent[b]);
    if ImmediatelyDominates(g, root, parent[b], b) {
      ImmediateIsUnique(g, root, b, parent[b], d);
    }
    if GatesSources(g, rank, d, b) {
      GateIsParent(g, root, rank, parent, b, d);
    }
  }

  lemma GateIsParent(g: Graph, root: nat, rank: seq<nat>, parent: seq<nat>, b: nat, d: nat)
    requires IsHierarchy(g, root, rank, parent) && b < |g| && b != root && Reach(g, root, b)
    requires ImmediatelyDominates(g, root, d, b) && GatesSources(g, rank, d, b)
    ensures parent[b] == d
  {
    hide Gate, Reach;
    var x := parent[b];
    assert Latest(g, rank, b, x);
    ParentDominates(g, root, rank, parent, b);
    assert Dominates(g, root, x, d);
    var q := SomePath(g, root, b);
    var i := ParentOnPath(g, root, rank, parent, b, q);
    var p := LastEdge(g, q, root, b);
    if x != d {
      PathSplits(g, q[..|q| - 1], root, p, i);
      GateOfGate(g, rank, d, x, p, q[..|q| - 1][i..]);
      forall r | IsPath(g, r, root, x) ensures d in r {
        GateDominates(g, root, rank, d, x, r);
      }
      Antisymmetric(g, root, x, d, q[..i + 1]);
    }
  }

  lemma ParentDominates(g: Graph, root: nat, rank: seq<nat>, parent: seq<nat>, b: nat)
    requires IsHierarchy(g, root, rank, parent) && b < |g| && b != root && Reach(g, root, b)
    ensures parent[b] != b && Dominates(g, root, parent[b], b)
  {
    hide IsHierarchy;
    HierarchyRoot(g, root, rank, parent);
    ParentDiffers(g, root, rank, parent, b);
    forall q | IsPath(g, q, root, b) ensures parent[b] in q {
      var i := ParentOnPath(g, root, rank, parent, b, q);
    }
  }

  // ---------------------------------------------------------------- the ordering hypothesis

  /** Every block but the root has a source that comes earlier in the order. */
  ghost predicate EarlierSources(g: Graph, root: nat, rank: seq<nat>)
    requires |rank| == |g|
  {
    forall b: nat :: b < |g| && b != root ==> HasEarlier(g, rank, b)
  }

  ghost predicate HasEarlier(g: Graph, rank: seq<nat>, b: nat)
    requires |rank| == |g| && b < |g|
  {
    exists p: nat :: EarlierSource(g, rank, p, b)
  }

  ghost predicate EarlierSource(g: Graph, rank: seq<nat>, p: nat, b: nat)
    requires |rank| == |g| && b < |g|
  {
    p < |g| && Edge(g, p, b) && rank[p] < rank[b]
  }

  /** Under the hypothesis the root reaches every block through blocks that do not rank after it. */
  lemma {:induction false} EarlyPath(g: Graph, root: nat, rank: seq<nat>, y: nat) returns (q: seq<nat>)
    requires |rank| == |g| && root < |g| && EarlierSources(g, root, rank) && y < |g|
    ensures IsPath(g, q, root, y) && forall x: nat :: x in q ==> x < |g| && rank[x] <= rank[y]
    decreases rank[y]
  {
    if y == root {
      q := [root];
    } else {
      assert HasEarlier(g, rank, y);
      var p: nat :| EarlierSource(g, rank, p, y);
      var r := EarlyPath(g, root, rank, p);
      PathExtends(g, r, root, p, y);
      q := r + [y];
    }
  }

  /** Under the hypothesis a proper dominator of a block gates all of its sources. */
  lemma DominatorGates(g: Graph, root: nat, rank: seq<nat>, d: nat, b: nat)
    requires |rank| == |g| && root < |g| && EarlierSources(g, root, rank)
    requires d < |g| && d != b && Dominates(g, root, d, b)
    ensures GatesSources(g, rank, d, b)
  {
    hide EarlierSources;
    forall p: nat, q | Edge(g, p, b) && StartsBefore(g, rank, q, d, p) ensures d in q {
      var r := EarlyPath(g, root, rank, q[0]);
      PathJoins(g, r, q, root, q[0], p);
      PathExtends(g, r + q[1..], root, p, b);
      assert d in r + q[1..] + [b];
    }
  }

  /** Under the hypothesis every parent is the immediate dominator. */
  lemma ParentIsImmediate(g: Graph, root: nat, rank: seq<nat>, parent: seq<nat>, b: nat)
    requires IsHierarchy(g, root, rank, parent) && b < |g| && b != root && Reach(g, root, b)
    requires EarlierSources(g, root, rank)
    ensures ImmediatelyDominates(g, root, parent[b], b)
  {
    hide Latest, Reach, EarlierSources, GatesSources;
    var d := ImmediateExists(g, root, b);
    var q := SomePath(g, root, b);
    assert d in q;
    DominatorGates(g, root, rank, d, b);
    ParentIsImmediateIff(g, root, rank, parent, b, d);
  }

  /** The only source of a block is its immediate dominator, and gates itself. */
  lemma OnlySource(g: Graph, root: nat, rank: seq<nat>, p: nat, b: nat)
    requires |rank| == |g| && p < |g| && b != root && p != b && forall u: nat :: Edge(g, u, b) <==> u == p
    ensures ImmediatelyDominates(g, root, p, b) && GatesSources(g, rank, p, b)
  {
    hide Edge;
    forall q | IsPath(g, q, root, b) ensures p in q {
      var u := LastEdge(g, q, root, b);
    }
    forall x: nat, q | x != b && Dominates(g, root, x, b) && IsPath(g, q, root, p) ensures x in q {
      PathExtends(g, q, root, p, b);
      assert x in q + [b];
    }
  }
}
