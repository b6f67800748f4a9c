/**
 The invariant of the dominator iteration, the Cooper-Harvey-Kennedy passes over the topological
 order, with the sentinel `UNSET` for blocks whose dominator is not known yet. Nothing is required of
 the graph: parents may rank after their children on the way and in the end.
 */
module Dominance {
  import opened Graphs
  import opened Tarjan
  import opened Topology
  import opened Gates

  // ---------------------------------------------------------------- the forest of parents

  /** The root has rank zero, the block at position `i` of the order rank `i + 1`. */
  ghost predicate Ranked(n: nat, root: nat, order: seq<nat>, rank: seq<nat>) {
    && root < n == |rank| == |order| + 1 && rank[root] == 0
    && (forall i :: 0 <= i < |order| ==> order[i] < n && order[i] != root && rank[order[i]] == i + 1)
    && (forall v :: 0 <= v < n && v != root ==> 0 < rank[v] <= |order| && order[rank[v] - 1] == v)
  }

  /** The topological indices order the blocks the way their ranks do, later blocks having smaller indices. */
  ghost predicate Agrees(rank: seq<nat>, sccId: seq<nat>, discovery: seq<nat>) {
    && |rank| == |sccId| == |discovery|
    && forall a: nat, b: nat :: a < |rank| && b < |rank| ==> (Above(sccId, discovery, a, b) <==> rank[a] < rank[b])
  }

  predicate Set(parent: seq<nat>, v: nat) {
    v < |parent| && parent[v] != UNSET
  }

  /** The parent of a known block is known and became known before it did. */
  ghost predicate ParentBefore(parent: seq<nat>, time: seq<nat>, v: nat)
    requires |parent| == |time| && v < |parent|
  {
    Set(parent, parent[v]) && time[parent[v]] < time[v]
  }

  /** `time` counts the blocks in the order in which they became known. Parents always point back in time. */
  ghost predicate Forest(g: Graph, root: nat, rank: seq<nat>, parent: seq<nat>, time: seq<nat>) {
    && RootFirst(g, root, rank) && |parent| == |time| == |g| < UNSET && parent[root] == root
    && forall v: nat {:trigger ParentBefore(parent, time, v)} :: v != root && Set(parent, v) ==>
      ParentBefore(parent, time, v)
  }

  // ---------------------------------------------------------------- crests

  /** Following `k` parents from `x` ends at `z`, which ranks before every block passed. */
  ghost predicate Rises(rank: seq<nat>, parent: seq<nat>, x: nat, z: nat, k: nat)
    decreases k
  {
    && |parent| == |rank| && x < |rank| && z < |rank|
    && if k == 0 then x == z else rank[z] < rank[x] && Rises(rank, parent, parent[x], z, k - 1)
  }

  /** `z` is `x`, or lies above `x` and ranks before `x` and everything in between. */
  ghost predicate Crest(rank: seq<nat>, parent: seq<nat>, x: nat, z: nat) {
    exists k: nat :: Rises(rank, parent, x, z, k)
  }

  lemma CrestSelf(rank: seq<nat>, parent: seq<nat>, x: nat)
    requires x < |rank| == |parent|
    ensures Crest(rank, parent, x, x)
  {
    assert Rises(rank, parent, x, x, 0);
  }

  lemma CrestStep(rank: seq<nat>, parent: seq<nat>, x: nat, z: nat)
    requires x < |rank| == |parent| && Crest(rank, parent, parent[x], z) && z < |rank| && rank[z] < rank[x]
    ensures Crest(rank, parent, x, z)
  {
    var k: nat :| Rises(rank, parent, parent[x], z, k);
    assert Rises(rank, parent, x, z, k + 1);
  }

  lemma CrestCases(rank: seq<nat>, parent: seq<nat>, x: nat, z: nat)
    requires Crest(rank, parent, x, z)
    ensures x < |rank| == |parent| && z < |rank|
    ensures x == z || (rank[z] < rank[x] && Crest(rank, parent, parent[x], z))
  {
    var k: nat :| Rises(rank, parent, x, z, k);
    if k > 0 {
      assert Rises(rank, parent, parent[x], z, k - 1);
    }
  }

  /** Crests of a known block are known, and not after it in time. */
  lemma {:induction false} CrestKnown(g: Graph, root: nat, rank: seq<nat>, parent: seq<nat>, time: seq<nat>, x: nat,
                                      z: nat)
    requires Forest(g, root, rank, parent, time) && Set(parent, x) && Crest(rank, parent, x, z)
    ensures Set(parent, z) && time[z] <= time[x]
    decreases time[x]
  {
    hide Crest, TellApart;
    CrestCases(rank, parent, x, z);
    if x != z {
      assert ParentBefore(parent, time, x);
      CrestKnown(g, root, rank, parent, time, parent[x], z);
    }
  }

  ghost predicate ParentsEarlier(rank: seq<nat>, parent: seq<nat>) {
    && |parent| == |rank|
    && forall v: nat :: v < |rank| ==> parent[v] < |rank| && (parent[v] == v || rank[parent[v]] < rank[v])
  }

  /** Where every parent ranks before its child, the crests of a block are simply its ancestors. */
  lemma CrestsAreAncestors(rank: seq<nat>, parent: seq<nat>, x: nat, z: nat)
    requires ParentsEarlier(rank, parent) && x < |rank|
    ensures Crest(rank, parent, x, z) <==> Anc(parent, x, z)
  {
    if Crest(rank, parent, x, z) {
      var k: nat :| Rises(rank, parent, x, z, k);
      RisesUp(rank, parent, x, z, k);
    }
    if Anc(parent, x, z) {
      var k: nat :| Up(parent, x, k) == z;
      UpIsCrest(rank, parent, x, k);
    }
  }

  lemma {:induction false} RisesUp(rank: seq<nat>, parent: seq<nat>, x: nat, z: nat, k: nat)
    requires Rises(rank, parent, x, z, k)
    ensures Up(parent, x, k) == z
    decreases k
  {
    if k > 0 {
      RisesUp(rank, parent, parent[x], z, k - 1);
    }
  }

  lemma {:induction false} UpIsCrest(rank: seq<nat>, parent: seq<nat>, x: nat, k: nat)
    requires ParentsEarlier(rank, parent) && x < |rank|
    ensures var z := Up(parent, x, k); Crest(rank, parent, x, z) && z < |rank| && rank[z] <= rank[x]
    decreases k
  {
    hide Crest;
    CrestSelf(rank, parent, x);
    if k > 0 {
      UpIsCrest(rank, parent, parent[x], k - 1);
      if parent[x] != x {
        CrestStep(rank, parent, x, Up(parent, x, k));
      }
    }
  }

  /** Moving the later of two blocks to its parent keeps their common crests. */
  lemma MovesUp(g: Graph, root: nat, rank: seq<nat>, parent: seq<nat>, a: nat, b: nat, z: nat)
    requires RootFirst(g, root, rank) && |parent| == |g| && a < |g| && b < |g| && rank[a] < rank[b]
    ensures Crest(rank, parent, a, z) && Crest(rank, parent, b, z) <==>
            Crest(rank, parent, a, z) && Crest(rank, parent, parent[b], z)
  {
    hide Crest;
    if Crest(rank, parent, a, z) {
      CrestCases(rank, parent, a, z);
      if Crest(rank, parent, b, z) {
        CrestCases(rank, parent, b, z);
      }
      if Crest(rank, parent, parent[b], z) {
        CrestStep(rank, parent, b, z);
      }
    }
  }

  /** `z` is a crest of every known block of the list. */
  ghost predicate CommonCrest(rank: seq<nat>, parent: seq<nat>, sources: seq<nat>, z: nat) {
    forall p :: p in sources && Set(parent, p) ==> Crest(rank, parent, p, z)
  }

  /** The crests of `d` are the common crests of the known blocks of the list. */
  ghost predicate IsMeet(rank: seq<nat>, parent: seq<nat>, sources: seq<nat>, d: nat) {
    && (d == UNSET <==> forall p :: p in sources ==> !Set(parent, p))
    && (d != UNSET ==> Set(parent, d) && forall z: nat :: Crest(rank, parent, d, z) <==>
      CommonCrest(rank, parent, sources, z))
  }

  lemma MeetOfNone(rank: seq<nat>, parent: seq<nat>)
    ensures IsMeet(rank, parent, [], UNSET)
  {
  }

  /** One more block in the list: an unknown one changes nothing, a known one is met or starts the meet. */
  lemma MeetExtends(rank: seq<nat>, parent: seq<nat>, sources: seq<nat>, d: nat, p: nat, e: nat)
    requires IsMeet(rank, parent, sources, d) && p < |parent| < UNSET
    requires if !Set(parent, p) then e == d
             else if d == UNSET then e == p
             else Set(parent, e) && forall z: nat :: Crest(rank, parent, e, z) <==>
               Crest(rank, parent, p, z) && Crest(rank, parent, d, z)
    ensures IsMeet(rank, parent, sources + [p], e)
  {
    hide Crest;
    assert forall q :: q in sources + [p] <==> q in sources || q == p;
    assert forall z: nat :: CommonCrest(rank, parent, sources + [p], z) <==>
      CommonCrest(rank, parent, sources, z) && (Set(parent, p) ==> Crest(rank, parent, p, z));
  }

  // ---------------------------------------------------------------- the invariant of the iteration

  /** Every known block but the root has a source that became known before it. */
  ghost predicate HasSupport(g: Graph, parent: seq<nat>, time: seq<nat>, v: nat)
    requires |time| == |g|
  {
    exists p: nat :: p < |g| && Edge(g, p, v) && Set(parent, p) && time[p] < time[v]
  }

  /** No gate is ever lost: a gate of a known block, other than the block, also gates its parent. */
  ghost predicate KeepsGates(g: Graph, rank: seq<nat>, parent: seq<nat>, c: nat)
    requires |rank| == |g| && c < |parent|
  {
    forall x: nat :: x != c && Gate(g, rank, x, c) ==> Gate(g, rank, x, parent[c])
  }

  ghost predicate Good(g: Graph, root: nat, rank: seq<nat>, parent: seq<nat>, time: seq<nat>, clock: nat) {
    && Forest(g, root, rank, parent, time)
    && (forall v: nat :: Set(parent, v) ==> time[v] < clock)
    && (forall v: nat {:trigger HasSupport(g, parent, time, v)} :: v != root && Set(parent, v) ==>
      HasSupport(g, parent, time, v))
    && (forall c: nat {:trigger KeepsGates(g, rank, parent, c)} :: c != root && Set(parent, c) ==>
      KeepsGates(g, rank, parent, c))
  }

  /** The gates of a known block are among its crests. */
  lemma {:induction false} GatesAreCrests(g: Graph, root: nat, rank: seq<nat>, parent: seq<nat>, time: seq<nat>,
                                          clock: nat, c: nat, x: nat)
    requires Good(g, root, rank, parent, time, clock) && Set(parent, c) && Gate(g, rank, x, c)
    ensures Crest(rank, parent, c, x)
    decreases time[c]
  {
    hide Crest, Gate;
    CrestSelf(rank, parent, c);
    if x != c {
      assert x < |g| by { GateInRange(g, rank, x, c); }
      GateIsEarlier(g, rank, x, c);
      assert KeepsGates(g, rank, parent, c) && ParentBefore(parent, time, c);
      GatesAreCrests(g, root, rank, parent, time, clock, parent[c], x);
      CrestStep(rank, parent, c, x);
    }
  }

  lemma GateInRange(g: Graph, rank: seq<nat>, x: nat, b: nat)
    requires |rank| == |g| && Gate(g, rank, x, b)
    ensures x < |g|
  {
  }

  /** A gate of a block gates the crests of the block that it does not lie below. */
  lemma {:induction false} GateOfCrest(g: Graph, root: nat, rank: seq<nat>, parent: seq<nat>, time: seq<nat>,
                                       clock: nat,
                                       c: nat, d: nat, x: nat)
    requires Good(g, root, rank, parent, time, clock) && Set(parent, c) && Gate(g, rank, x, c)
    requires Crest(rank, parent, c, d) && Crest(rank, parent, d, x)
    ensures Gate(g, rank, x, d)
    decreases time[c]
  {
    hide Crest, Gate, TellApart;
    CrestCases(rank, parent, c, d);
    CrestCases(rank, parent, d, x);
    if c != d {
      assert KeepsGates(g, rank, parent, c) && ParentBefore(parent, time, c);
      GateOfCrest(g, root, rank, parent, time, clock, parent[c], d, x);
    }
  }

  lemma KnownSource(sources: seq<nat>, parent: seq<nat>, rank: seq<nat>, d: nat) returns (p: nat)
    requires IsMeet(rank, parent, sources, d) && d != UNSET
    ensures p in sources && Set(parent, p)
  {
    p :| p in sources && Set(parent, p);
  }

  /** The meet is a crest of each known source, so it is known and not after any of them in time. */
  lemma MeetIsCrest(g: Graph, root: nat, rank: seq<nat>, parent: seq<nat>, time: seq<nat>, sources: seq<nat>, d: nat,
                    p: nat)
    requires Forest(g, root, rank, parent, time) && IsMeet(rank, parent, sources, d) && d != UNSET
    requires p in sources && Set(parent, p)
    ensures Crest(rank, parent, p, d) && Set(parent, d) && time[d] <= time[p]
  {
    hide Crest;
    CrestSelf(rank, parent, d);
    assert CommonCrest(rank, parent, sources, d);
    CrestKnown(g, root, rank, parent, time, p, d);
  }

  /** A gate of `b` other than `b` gates the meet of its known sources. */
  lemma MeetKeepsGates(g: Graph, root: nat, rank: seq<nat>, parent: seq<nat>, time: seq<nat>, clock: nat,
                       sources: seq<seq<nat>>, b: nat, d: nat, x: nat)
    requires Good(g, root, rank, parent, time, clock) && Inverse(g, sources) && b < |g|
    requires IsMeet(rank, parent, sources[b], d) && d != UNSET && x != b && Gate(g, rank, x, b)
    ensures Gate(g, rank, x, d)
  {
    hide Crest, Gate, Edge;
    var p0 := KnownSource(sources[b], parent, rank, d);
    forall p | p in sources[b] && Set(parent, p) ensures Crest(rank, parent, p, x) && Gate(g, rank, x, p) {
      assert Edge(g, p, b);
      GateOfSource(g, rank, x, p, b);
      GatesAreCrests(g, root, rank, parent, time, clock, p, x);
    }
    assert CommonCrest(rank, parent, sources[b], x);
    MeetIsCrest(g, root, rank, parent, time, sources[b], d, p0);
    GateOfCrest(g, root, rank, parent, time, clock, p0, d, x);
  }

  /** A block that becomes known gets the current time. */
  ghost function NextTime(parent: seq<nat>, time: seq<nat>, clock: nat, b: nat): seq<nat>
    requires b < |time|
  {
    if Set(parent, b) then time else time[b := clock]
  }

  /** Giving a block the meet of its known sources as parent keeps the invariant. */
  lemma StepGood(g: Graph, root: nat, rank: seq<nat>, parent: seq<nat>, time: seq<nat>, clock: nat,
                 sources: seq<seq<nat>>, b: nat, d: nat)
    requires Good(g, root, rank, parent, time, clock) && Inverse(g, sources) && b < |g| && b != root
    requires IsMeet(rank, parent, sources[b], d) && d != UNSET
    ensures Good(g, root, rank, parent[b := d], NextTime(parent, time, clock, b), clock + 1)
  {
    hide Crest, Gate, Edge, IsMeet, TellApart, KeepsGates;
    var t, s := parent[b := d], NextTime(parent, time, clock, b);
    var q := StepSupport(g, root, rank, parent, time, clock, sources, b, d);
    assert forall v: nat :: Set(t, v) <==> Set(parent, v) || v == b;
    assert forall v: nat :: Set(parent, v) ==> s[v] == time[v];
    forall v: nat | v != root && Set(t, v) ensures ParentBefore(t, s, v) {
      assert v != b ==> ParentBefore(parent, time, v);
    }
    forall v: nat | v != root && Set(t, v) ensures HasSupport(g, t, s, v) {
      if v != b {
        assert HasSupport(g, parent, time, v);
        var p: nat :| p < |g| && Edge(g, p, v) && Set(parent, p) && time[p] < time[v];
        assert Set(t, p) && s[p] < s[v];
      } else {
        assert Edge(g, q, b) && Set(t, q) && s[q] < s[b];
      }
    }
    forall c: nat | c != root && Set(t, c) ensures KeepsGates(g, rank, t, c) {
      StepKeepsGates(g, root, rank, parent, time, clock, sources, b, d, c);
    }
  }

  lemma StepKeepsGates(g: Graph, root: nat, rank: seq<nat>, parent: seq<nat>, time: seq<nat>, clock: nat,
                       sources: seq<seq<nat>>, b: nat, d: nat, c: nat)
    requires Good(g, root, rank, parent, time, clock) && Inverse(g, sources) && b < |g| && b != root
    requires IsMeet(rank, parent, sources[b], d) && d != UNSET && c != root && Set(parent[b := d], c)
    ensures KeepsGates(g, rank, parent[b := d], c)
  {
    hide Gate, Edge, IsMeet, TellApart, HasSupport, ParentBefore, Inverse;
    if c != b {
      assert KeepsGates(g, rank, parent, c);
    } else {
      forall x: nat | x != b && Gate(g, rank, x, b) ensures Gate(g, rank, x, d) {
        MeetKeepsGates(g, root, rank, parent, time, clock, sources, b, d, x);
      }
    }
  }

  /** A source that supports the block after the step, and the meet before it in time. */
  lemma StepSupport(g: Graph, root: nat, rank: seq<nat>, parent: seq<nat>, time: seq<nat>, clock: nat,
                    sources: seq<seq<nat>>, b: nat, d: nat) returns (p: nat)
    requires Good(g, root, rank, parent, time, clock) && Inverse(g, sources) && b < |g| && b != root
    requires IsMeet(rank, parent, sources[b], d) && d != UNSET
    ensures p < |g| && Edge(g, p, b) && Set(parent, p) && Set(parent, d)
    ensures var s := NextTime(parent, time, clock, b); s[d] <= s[p] < s[b]
  {
    hide Crest, Gate, Edge, TellApart, IsMeet;
    if Set(parent, b) {
      assert HasSupport(g, parent, time, b);
      p :| p < |g| && Edge(g, p, b) && Set(parent, p) && time[p] < time[b];
      assert p in sources[b];
    } else {
      p := KnownSource(sources[b], parent, rank, d);
    }
    MeetIsCrest(g, root, rank, parent, time, sources[b], d, p);
  }

  // ---------------------------------------------------------------- from above: paths of bounded length

  /** The parent of `c` gates every source of `c`, as far as paths of at most `k` blocks can tell. */
  ghost predicate SettledAt(g: Graph, rank: seq<nat>, parent: seq<nat>, c: nat, k: nat)
    requires |rank| == |g|
  {
    Set(parent, c) && parent[c] < |g| && forall p: nat :: Edge(g, p, c) ==> GateWithin(g, rank, parent[c], p, k)
  }

  ghost predicate Settled(g: Graph, root: nat, rank: seq<nat>, parent: seq<nat>, k: nat)
    requires |rank| == |g|
  {
    forall c: nat {:trigger SettledAt(g, rank, parent, c, k)} :: c < |g| && c != root ==>
      SettledAt(g, rank, parent, c, k)
  }

  /** Crests gate, as far as paths of one block more can tell. */
  lemma {:induction false} CrestsGate(g: Graph, root: nat, rank: seq<nat>, parent: seq<nat>, time: seq<nat>, k: nat,
                                      c: nat, x: nat)
    requires Forest(g, root, rank, parent, time) && Settled(g, root, rank, parent, k)
    requires Set(parent, c) && Crest(rank, parent, c, x)
    ensures GateWithin(g, rank, x, c, k + 1)
    decreases time[c]
  {
    hide Crest, GateWithin, TellApart, StartsBefore;
    CrestCases(rank, parent, c, x);
    if x != c {
      assert ParentBefore(parent, time, c) && SettledAt(g, rank, parent, c, k);
      CrestCases(rank, parent, parent[c], x);
      CrestsGate(g, root, rank, parent, time, k, parent[c], x);
      GateThrough(g, rank, x, parent[c], c, k);
    } else {
      GateItself(g, rank, x, k + 1);
    }
  }

  lemma GateItself(g: Graph, rank: seq<nat>, x: nat, k: nat)
    requires |rank| == |g| && x < |g|
    ensures GateWithin(g, rank, x, x, k)
  {
  }

  /** If `e` gates the sources of `c` and `x` gates `e`, then `x` gates `c`. */
  lemma GateThrough(g: Graph, rank: seq<nat>, x: nat, e: nat, c: nat, k: nat)
    requires |rank| == |g| && x < |g| && e < |g| && c < |g| && rank[x] <= rank[e] && rank[x] < rank[c]
    requires GateWithin(g, rank, x, e, k + 1) && forall p: nat :: Edge(g, p, c) ==> GateWithin(g, rank, e, p, k)
    ensures GateWithin(g, rank, x, c, k + 1)
  {
    forall q | StartsBefore(g, rank, q, x, c) && |q| <= k + 1 ensures x in q {
      assert |q| > 1;
      var p := LastEdge(g, q, q[0], c);
      var r := q[..|q| - 1];
      assert StartsBefore(g, rank, r, e, p) && |r| <= k;
      assert e in r;
      var i :| 0 <= i < |r| && r[i] == e;
      PathSplits(g, q, q[0], c, i);
      assert StartsBefore(g, rank, q[..i + 1], x, e);
      assert x in q[..i + 1];
    }
  }

  lemma Weaken(g: Graph, rank: seq<nat>, parent: seq<nat>, c: nat, k: nat)
    requires |rank| == |g| && SettledAt(g, rank, parent, c, k + 1)
    ensures SettledAt(g, rank, parent, c, k)
  {
    forall p: nat | Edge(g, p, c) ensures GateWithin(g, rank, parent[c], p, k) {
      assert GateWithin(g, rank, parent[c], p, k + 1);
    }
  }

  /** A step settles its block for paths of one block more. */
  lemma StepSettles(g: Graph, root: nat, rank: seq<nat>, parent: seq<nat>, time: seq<nat>, sources: seq<seq<nat>>,
                    b: nat, d: nat, k: nat)
    requires Forest(g, root, rank, parent, time) && Inverse(g, sources) && b < |g| && b != root
    requires Settled(g, root, rank, parent, k) && IsMeet(rank, parent, sources[b], d) && d != UNSET
    ensures SettledAt(g, rank, parent[b := d], b, k + 1) && Settled(g, root, rank, parent[b := d], k)
  {
    hide Crest, GateWithin, Edge, TellApart, IsMeet;
    var t := parent[b := d];
    var p0 := KnownSource(sources[b], parent, rank, d);
    MeetIsCrest(g, root, rank, parent, time, sources[b], d, p0);
    forall p: nat | Edge(g, p, b) ensures GateWithin(g, rank, d, p, k + 1) {
      assert p in sources[b];
      assert Set(parent, p) by { SourceKnown(g, root, rank, parent, k, p, b); }
      MeetIsCrest(g, root, rank, parent, time, sources[b], d, p);
      CrestsGate(g, root, rank, parent, time, k, p, d);
    }
    Weaken(g, rank, t, b, k);
    forall c: nat | c < |g| && c != root ensures SettledAt(g, rank, t, c, k) {
      assert c != b ==> SettledAt(g, rank, parent, c, k);
    }
  }

  lemma SourceKnown(g: Graph, root: nat, rank: seq<nat>, parent: seq<nat>, k: nat, p: nat, b: nat)
    requires RootFirst(g, root, rank) && |parent| == |g| && Settled(g, root, rank, parent, k) && Edge(g, p, b)
    requires Set(parent, root)
    ensures Set(parent, p)
  {
    if p != root {
      assert SettledAt(g, rank, parent, p, k);
    }
  }

  /** Once paths of all lengths are covered, the meet is the latest gate of all sources. */
  lemma StepIsLatest(g: Graph, root: nat, rank: seq<nat>, parent: seq<nat>, time: seq<nat>, clock: nat,
                     sources: seq<seq<nat>>, b: nat, d: nat)
    requires Good(g, root, rank, parent, time, clock) && Inverse(g, sources) && b < |g| && b != root
    requires Settled(g, root, rank, parent, |g|) && IsMeet(rank, parent, sources[b], d) && d != UNSET
    ensures Latest(g, rank, b, d)
  {
    hide Crest, Gate, Edge, TellApart, IsMeet, GateWithin, HasSupport, KeepsGates, ParentBefore;
    StepSettles(g, root, rank, parent, time, sources, b, d, |g|);
    forall p: nat | Edge(g, p, b) ensures Gate(g, rank, d, p) {
      assert GateWithin(g, rank, d, p, |g| + 1);
      WithinIsGate(g, rank, d, p);
    }
    forall y: nat | GatesSources(g, rank, y, b) ensures rank[y] <= rank[d] {
      GateIsMet(g, root, rank, parent, time, clock, sources, b, d, y);
    }
  }

  lemma WithinIsGate(g: Graph, rank: seq<nat>, x: nat, b: nat)
    requires |rank| == |g| && GateWithin(g, rank, x, b, |g| + 1)
    ensures Gate(g, rank, x, b)
  {
    GateBounded(g, rank, x, b);
  }

  lemma GateIsMet(g: Graph, root: nat, rank: seq<nat>, parent: seq<nat>, time: seq<nat>, clock: nat,
                  sources: seq<seq<nat>>, b: nat, d: nat, y: nat)
    requires Good(g, root, rank, parent, time, clock) && Inverse(g, sources) && b < |g|
    requires IsMeet(rank, parent, sources[b], d) && d != UNSET && GatesSources(g, rank, y, b)
    ensures d < |g| && rank[y] <= rank[d]
  {
    hide Crest, Gate, Edge, TellApart, HasSupport, KeepsGates, ParentBefore;
    forall p | p in sources[b] && Set(parent, p) ensures Crest(rank, parent, p, y) {
      assert Edge(g, p, b);
      GatesAreCrests(g, root, rank, parent, time, clock, p, y);
    }
    assert CommonCrest(rank, parent, sources[b], y);
    CrestCases(rank, parent, d, y);
  }

  // ---------------------------------------------------------------- whole passes

  ghost function Known(parent: seq<nat>): set<nat> {
    set v: nat | v < |parent| && parent[v] != UNSET
  }

  /** What a pass from `parent` to `next` achieves; `same` tells that it changed nothing. */
  ghost predicate IsPass(g: Graph, root: nat, rank: seq<nat>, parent: seq<nat>, next: seq<nat>, same: bool) {
    && |rank| == |g| == |parent| == |next| && (same <==> next == parent)
    // known blocks stay known, and so do the blocks they lead to
    && (forall v: nat :: Set(parent, v) ==> Set(next, v))
    && (forall p: nat, c: nat :: Set(parent, p) && Edge(g, p, c) ==> Set(next, c))
    // one block more of every path is taken into account
    && (forall k: nat :: Settled(g, root, rank, parent, k) ==> Settled(g, root, rank, next, k + 1))
    // when paths of all lengths are, the result is the hierarchy, which the pass does not change
    && (Settled(g, root, rank, parent, |g|) ==> IsHierarchy(g, root, rank, next))
  }

  /** The same for a pass that has reached position `i` of the order. */
  ghost predicate IsPartPass(g: Graph, root: nat, rank: seq<nat>, order: seq<nat>, parent: seq<nat>, current: seq<nat>,
                             i: nat, same: bool) {
    && Ranked(|g|, root, order, rank) && i <= |order| && |parent| == |current| == |g|
    && (same <==> current == parent) && (forall j :: i <= j < |order| ==> current[order[j]] == parent[order[j]])
    && current[root] == parent[root]
    && (forall v: nat :: Set(parent, v) ==> Set(current, v))
    && (forall j, p: nat :: 0 <= j < i && Set(parent, p) && Edge(g, p, order[j]) ==> Set(current, order[j]))
    && (forall k: nat :: Settled(g, root, rank, parent, k) ==> SettledUpTo(g, root, rank, order, current, i, k))
    && (Settled(g, root, rank, parent, |g|) ==> LatestUpTo(g, rank, order, current, i))
  }

  ghost predicate SettledUpTo(g: Graph, root: nat, rank: seq<nat>, order: seq<nat>, current: seq<nat>, i: nat, k: nat)
    requires |rank| == |g| && i <= |order|
  {
    Settled(g, root, rank, current, k) && forall j :: 0 <= j < i ==> SettledAt(g, rank, current, order[j], k + 1)
  }

  ghost predicate LatestUpTo(g: Graph, rank: seq<nat>, order: seq<nat>, current: seq<nat>, i: nat)
    requires |rank| == |g| && i <= |order|
  {
    forall j :: 0 <= j < i ==> order[j] < |current| && Latest(g, rank, order[j], current[order[j]])
  }

  lemma PassStarts(g: Graph, root: nat, rank: seq<nat>, order: seq<nat>, parent: seq<nat>)
    requires Ranked(|g|, root, order, rank) && |parent| == |g|
    ensures IsPartPass(g, root, rank, order, parent, parent, 0, true)
  {
    hide Settled, Latest, Edge;
  }

  lemma PlaceInOrder(n: nat, root: nat, order: seq<nat>, rank: seq<nat>, c: nat) returns (j: nat)
    requires Ranked(n, root, order, rank) && c < n && c != root
    ensures j < |order| && order[j] == c
  {
    j := rank[c] - 1;
  }

  lemma PassFinishes(g: Graph, root: nat, rank: seq<nat>, order: seq<nat>, parent: seq<nat>, next: seq<nat>, same: bool)
    requires IsPartPass(g, root, rank, order, parent, next, |order|, same) && RootFirst(g, root, rank)
    requires parent[root] == root < UNSET
    ensures IsPass(g, root, rank, parent, next, same)
  {
    hide Latest, Edge, SettledAt, Ranked;
    forall p: nat, c: nat | Set(parent, p) && Edge(g, p, c) ensures Set(next, c) {
      EdgeInRange(g, p, c);
      if c != root {
        var j := PlaceInOrder(|g|, root, order, rank, c);
        assert Set(next, order[j]);
      }
    }
    forall k: nat | Settled(g, root, rank, parent, k) ensures Settled(g, root, rank, next, k + 1) {
      assert SettledUpTo(g, root, rank, order, next, |order|, k);
      var m := k + 1;
      forall c: nat | c < |g| && c != root ensures SettledAt(g, rank, next, c, m) {
        var j := PlaceInOrder(|g|, root, order, rank, c);
        assert SettledAt(g, rank, next, order[j], k + 1);
      }
    }
    if Settled(g, root, rank, parent, |g|) {
      forall b: nat | b < |g| && b != root ensures Latest(g, rank, b, next[b]) {
        var j := PlaceInOrder(|g|, root, order, rank, b);
        assert Latest(g, rank, order[j], next[order[j]]);
      }
    }
  }

  /** Without a known source a block stays unknown, and the pass changes nothing at it. */
  lemma UnknownStays(g: Graph, root: nat, rank: seq<nat>, parent: seq<nat>, time: seq<nat>, clock: nat,
                     sources: seq<seq<nat>>, b: nat)
    requires Good(g, root, rank, parent, time, clock) && Inverse(g, sources) && b < |g| && b != root
    requires IsMeet(rank, parent, sources[b], UNSET)
    ensures parent[b] == UNSET
  {
    hide Edge, TellApart, KeepsGates, ParentBefore;
    assert forall p: nat :: Edge(g, p, b) ==> p in sources[b];
    assert !HasSupport(g, parent, time, b);
  }

  lemma PassSkips(g: Graph, root: nat, rank: seq<nat>, order: seq<nat>, parent: seq<nat>, current: seq<nat>, i: nat,
                  same: bool,
                  time: seq<nat>, clock: nat, sources: seq<seq<nat>>)
    requires IsPartPass(g, root, rank, order, parent, current, i, same) && i < |order|
    requires Good(g, root, rank, current, time, clock) && Inverse(g, sources)
    requires IsMeet(rank, current, sources[order[i]], UNSET)
    ensures current[order[i]] == UNSET && IsPartPass(g, root, rank, order, parent, current, i + 1, same)
  {
    hide Latest, SettledAt, TellApart, KeepsGates, ParentBefore, HasSupport, Edge;
    var b := order[i];
    UnknownStays(g, root, rank, current, time, clock, sources, b);
    assert forall p: nat :: Edge(g, p, b) ==> p in sources[b];
    assert !SettledAt(g, rank, current, b, 0) && forall k: nat :: !Settled(g, root, rank, parent, k) by {
      forall k: nat ensures !Settled(g, root, rank, parent, k) {
        UnknownIsUnsettled(g, root, rank, parent, b, k);
      }
      UnknownIsUnsettled(g, root, rank, current, b, 0);
    }
  }

  lemma UnknownIsUnsettled(g: Graph, root: nat, rank: seq<nat>, parent: seq<nat>, b: nat, k: nat)
    requires |rank| == |g| && b < |g| && b != root && !Set(parent, b)
    ensures !SettledAt(g, rank, parent, b, k) && !Settled(g, root, rank, parent, k)
  {
  }

  lemma PassSteps(g: Graph, root: nat, rank: seq<nat>, order: seq<nat>, parent: seq<nat>, current: seq<nat>, i: nat,
                  same: bool,
                  time: seq<nat>, clock: nat, sources: seq<seq<nat>>, d: nat)
    requires IsPartPass(g, root, rank, order, parent, current, i, same) && i < |order|
    requires Good(g, root, rank, current, time, clock) && Inverse(g, sources)
    requires IsMeet(rank, current, sources[order[i]], d) && d != UNSET
    ensures IsPartPass(g, root, rank, order, parent, current[order[i] := d], i + 1, same && current[order[i]] == d)
  {
    hide Latest, SettledAt, TellApart, KeepsGates, ParentBefore, HasSupport, Edge, IsMeet, Inverse, Settled;
    var b, t := order[i], current[order[i] := d];
    assert t[b] == d && forall v: nat :: v < |g| && v != b ==> t[v] == current[v];
    assert forall j :: 0 <= j < |order| && j != i ==> order[j] != b;
    forall k: nat | Settled(g, root, rank, parent, k) ensures SettledUpTo(g, root, rank, order, t, i + 1, k) {
      assert SettledUpTo(g, root, rank, order, current, i, k);
      StepSettles(g, root, rank, current, time, sources, b, d, k);
      forall j | 0 <= j < i ensures SettledAt(g, rank, t, order[j], k + 1) {
        SettledElsewhere(g, rank, current, b, d, order[j], k + 1);
      }
    }
    if Settled(g, root, rank, parent, |g|) {
      assert SettledUpTo(g, root, rank, order, current, i, |g|);
      StepIsLatest(g, root, rank, current, time, clock, sources, b, d);
    }
  }

  lemma SettledElsewhere(g: Graph, rank: seq<nat>, parent: seq<nat>, b: nat, d: nat, c: nat, k: nat)
    requires |rank| == |g| && b < |parent| && b != c && SettledAt(g, rank, parent, c, k)
    ensures SettledAt(g, rank, parent[b := d], c, k)
  {
  }

  lemma HierarchySettled(g: Graph, root: nat, rank: seq<nat>, parent: seq<nat>, k: nat)
    requires IsHierarchy(g, root, rank, parent) && |g| < UNSET
    ensures Settled(g, root, rank, parent, k)
  {
    hide Edge, TellApart, StartsBefore;
    forall c: nat | c < |g| && c != root ensures SettledAt(g, rank, parent, c, k) {
      assert Latest(g, rank, c, parent[c]);
      assert GatesSources(g, rank, parent[c], c);
    }
  }

  /** A pass does not change the hierarchy. */
  lemma HierarchyStays(g: Graph, root: nat, rank: seq<nat>, parent: seq<nat>, next: seq<nat>, same: bool)
    requires IsPass(g, root, rank, parent, next, same) && IsHierarchy(g, root, rank, parent) && |g| < UNSET
    ensures same
  {
    hide Settled, IsHierarchy, Edge;
    HierarchySettled(g, root, rank, parent, |g|);
    HierarchyIsUnique(g, root, rank, parent, next);
  }

  lemma {:induction false} SettledForever(g: Graph, root: nat, rank: seq<nat>, parent: seq<nat>, k: nat)
    requires IsPass(g, root, rank, parent, parent, true) && Settled(g, root, rank, parent, 0)
    ensures Settled(g, root, rank, parent, k)
  {
    hide Settled, IsHierarchy, Edge;
    if k > 0 {
      SettledForever(g, root, rank, parent, k - 1);
    }
  }

  /** If all blocks are known, nothing is claimed about paths yet. */
  lemma KnownIsSettled(g: Graph, root: nat, rank: seq<nat>, parent: seq<nat>, time: seq<nat>, clock: nat)
    requires Good(g, root, rank, parent, time, clock) && forall v: nat :: v < |g| ==> Set(parent, v)
    ensures Settled(g, root, rank, parent, 0)
  {
    hide KeepsGates, HasSupport, Edge, TellApart;
    forall c: nat | c < |g| && c != root ensures SettledAt(g, rank, parent, c, 0) {
      assert ParentBefore(parent, time, c);
    }
  }

  /** A pass that makes no block known leaves none unknown, because the root reaches all of them. */
  lemma AllKnown(g: Graph, root: nat, rank: seq<nat>, parent: seq<nat>, next: seq<nat>, same: bool, v: nat)
    requires IsPass(g, root, rank, parent, next, same) && Known(next) == Known(parent)
    requires Set(parent, root) && Reach(g, root, v)
    ensures Set(parent, v)
  {
    hide Settled, IsHierarchy, Reach, Edge;
    var s := Known(parent);
    forall p, c | p in s && Edge(g, p, c) ensures c in s {
      assert Set(next, c);
      assert c in Known(next);
    }
    ReachStaysIn(g, s, root, v);
  }

  /** Any pass that changes nothing has found the hierarchy. */
  lemma ExitIsHierarchy(g: Graph, root: nat, rank: seq<nat>, parent: seq<nat>, time: seq<nat>, clock: nat)
    requires Good(g, root, rank, parent, time, clock) && IsPass(g, root, rank, parent, parent, true)
    requires forall v: nat :: v < |g| ==> Reach(g, root, v)
    ensures IsHierarchy(g, root, rank, parent)
  {
    hide Settled, IsHierarchy, Reach, Edge, KeepsGates, HasSupport, TellApart, ParentBefore, IsPass;
    forall v: nat | v < |g| ensures Set(parent, v) {
      AllKnown(g, root, rank, parent, parent, true, v);
    }
    KnownIsSettled(g, root, rank, parent, time, clock);
    SettledForever(g, root, rank, parent, |g|);
    PassEnds(g, root, rank, parent, parent, true);
  }

  lemma PassEnds(g: Graph, root: nat, rank: seq<nat>, parent: seq<nat>, next: seq<nat>, same: bool)
    requires IsPass(g, root, rank, parent, next, same) && Settled(g, root, rank, parent, |g|)
    ensures IsHierarchy(g, root, rank, next)
  {
  }

  ghost function Reached(g: Graph, root: nat, rank: seq<nat>, parent: seq<nat>): nat {
    if IsHierarchy(g, root, rank, parent) then 1 else 0
  }

  /** What the passes so far have achieved. */
  ghost function Gained(g: Graph, root: nat, rank: seq<nat>, parent: seq<nat>, level: nat): nat {
    |Known(parent)| + level + Reached(g, root, rank, parent)
  }

  lemma WeakenAll(g: Graph, root: nat, rank: seq<nat>, parent: seq<nat>, k: nat)
    requires |rank| == |g| && Settled(g, root, rank, parent, k + 1)
    ensures Settled(g, root, rank, parent, k)
  {
    hide SettledAt;
    var m := k + 1;
    forall c: nat | c < |g| && c != root ensures SettledAt(g, rank, parent, c, k) {
      assert SettledAt(g, rank, parent, c, m);
      Weaken(g, rank, parent, c, k);
    }
  }

  lemma KnownGrows(g: Graph, root: nat, rank: seq<nat>, parent: seq<nat>, next: seq<nat>, same: bool)
    requires IsPass(g, root, rank, parent, next, same)
    ensures Known(parent) <= Known(next) && |Known(parent)| <= |Known(next)| <= |g|
    ensures Known(parent) != Known(next) ==> |Known(parent)| < |Known(next)|
  {
    hide Settled, IsHierarchy, Edge;
    forall v | v in Known(parent) ensures v in Known(next) {
      assert Set(next, v);
    }
    SubsetSizes(Known(parent), Known(next));
    CardinalityUpTo(Known(next), |g|);
  }

  lemma SubsetSizes(a: set<nat>, b: set<nat>)
    requires a <= b
    ensures |a| <= |b| && (a != b ==> |a| < |b|)
  {
    assert b == a + (b - a) && a !! (b - a);
  }

  /**
   Every pass but the last makes a block known, or takes longer paths into account, or reaches the
   hierarchy; the last one finds the hierarchy.
   */
  lemma Progress(g: Graph, root: nat, rank: seq<nat>, parent: seq<nat>, next: seq<nat>, same: bool, time: seq<nat>,
                 clock: nat,
                 level: nat) returns (level': nat)
    requires Good(g, root, rank, parent, time, clock) && IsPass(g, root, rank, parent, next, same)
    requires forall v: nat :: v < |g| ==> Reach(g, root, v)
    requires level <= |g| && (level > 0 ==> Settled(g, root, rank, parent, level))
    ensures level' <= |g| && (level' > 0 ==> Settled(g, root, rank, next, level')) && |Known(next)| <= |g|
    ensures same ==> next == parent && level' == level && IsHierarchy(g, root, rank, next)
    ensures same || Gained(g, root, rank, parent, level) < Gained(g, root, rank, next, level')
  {
    hide Settled, IsHierarchy, Reach, Edge, KeepsGates, HasSupport, TellApart, ParentBefore, Known;
    KnownGrows(g, root, rank, parent, next, same);
    level' := level;
    if same {
      ExitIsHierarchy(g, root, rank, parent, time, clock);
    } else {
      if IsHierarchy(g, root, rank, parent) {
        HierarchyStays(g, root, rank, parent, next, same);
      }
      if Known(next) != Known(parent) {
        if level > 0 {
          WeakenAll(g, root, rank, next, level);
        }
      } else {
        forall v: nat | v < |g| ensures Set(parent, v) {
          AllKnown(g, root, rank, parent, next, same, v);
        }
        KnownIsSettled(g, root, rank, parent, time, clock);
        if level < |g| {
          level' := level + 1;
        } else {
          WeakenAll(g, root, rank, next, level);
        }
      }
    }
  }

  lemma RankedIsFirst(g: Graph, root: nat, order: seq<nat>, rank: seq<nat>)
    requires Ranked(|g|, root, order, rank)
    ensures RootFirst(g, root, rank)
  {
    forall u: nat, v: nat | u < |rank| && v < |rank| && rank[u] == rank[v] ensures u == v {
      assert u != root ==> order[rank[u] - 1] == u;
      assert v != root ==> order[rank[v] - 1] == v;
    }
  }

  /** Initially only the root is known; it is its own parent. */
  function Initial(n: nat, root: nat): seq<nat>
    requires root < n
  {
    seq<nat>(n, _ => UNSET)[root := root]
  }

  lemma InitialGood(g: Graph, root: nat, rank: seq<nat>)
    requires RootFirst(g, root, rank) && |g| < UNSET
    ensures Good(g, root, rank, Initial(|g|, root), seq(|g|, _ => 0), 1)
    ensures Known(Initial(|g|, root)) == {root}
  {
    assert forall v: nat :: Set(Initial(|g|, root), v) <==> v == root;
  }
}
