/** Finite directed graphs given by destination lists, and reachability in them. */
module Graphs {

  ghost predicate Closed(g: seq<seq<nat>>) {
    forall v, j :: 0 <= v < |g| && 0 <= j < |g[v]| ==> g[v][j] < |g|
  }

  /** `g[v]` lists the destinations of block `v`. */
  type Graph = g: seq<seq<nat>> | Closed(g) witness []

  predicate Edge(g: Graph, u: nat, v: nat) {
    u < |g| && v in g[u]
  }

  ghost predicate IsPath(g: Graph, p: seq<nat>, u: nat, v: nat) {
    && |p| > 0 && p[0] == u && p[|p| - 1] == v
    && (forall i :: 0 <= i < |p| ==> p[i] < |g|)
    && forall i :: 0 < i < |p| ==> Edge(g, p[i - 1], p[i])
  }

  ghost predicate Reach(g: Graph, u: nat, v: nat) {
    exists p :: IsPath(g, p, u, v)
  }

  lemma EdgeInRange(g: Graph, u: nat, v: nat)
    requires Edge(g, u, v)
    ensures v < |g|
  {
    var j :| 0 <= j < |g[u]| && g[u][j] == v;
  }

  lemma PathJoins(g: Graph, p: seq<nat>, q: seq<nat>, u: nat, v: nat, w: nat)
    requires IsPath(g, p, u, v) && IsPath(g, q, v, w)
    ensures IsPath(g, p + q[1..], u, w)
    ensures forall x: nat :: x in p + q[1..] <==> x in p || x in q
  {
    var r := p + q[1..];
    forall i | 0 < i < |r| ensures Edge(g, r[i - 1], r[i]) {
      if i >= |p| {
        assert r[i] == q[i - |p| + 1] && r[i - 1] == q[i - |p|];
        assert Edge(g, q[i - |p| + 1 - 1], q[i - |p| + 1]);
      } else {
        assert Edge(g, p[i - 1], p[i]);
      }
    }
    assert q == [q[0]] + q[1..];
    assert q[0] == p[|p| - 1];
  }

  lemma PathExtends(g: Graph, q: seq<nat>, u: nat, p: nat, b: nat)
    requires IsPath(g, q, u, p) && Edge(g, p, b)
    ensures IsPath(g, q + [b], u, b)
  {
    EdgeInRange(g, p, b);
    assert IsPath(g, [p, b], p, b);
    PathJoins(g, q, [p, b], u, p, b);
    assert [p, b][1..] == [b];
  }

  /** The part of a path up to position `i`, and the part from there on. */
  lemma PathSplits(g: Graph, q: seq<nat>, u: nat, v: nat, i: nat)
    requires IsPath(g, q, u, v) && i < |q|
    ensures IsPath(g, q[..i + 1], u, q[i]) && IsPath(g, q[i..], q[i], v)
  {
    var r := q[i..];
    forall j | 0 < j < |r| ensures Edge(g, r[j - 1], r[j]) {
      assert Edge(g, q[i + j - 1], q[i + j]);
    }
  }

  /** A path of more than one block ends with an edge from one of the sources of its end. */
  lemma LastEdge(g: Graph, q: seq<nat>, u: nat, v: nat) returns (p: nat)
    requires IsPath(g, q, u, v) && |q| > 1
    ensures p == q[|q| - 2] && Edge(g, p, v) && IsPath(g, q[..|q| - 1], u, p)
  {
    p := q[|q| - 2];
    PathSplits(g, q, u, v, |q| - 2);
    assert Edge(g, q[|q| - 1 - 1], q[|q| - 1]);
  }

  lemma SomePath(g: Graph, u: nat, v: nat) returns (q: seq<nat>)
    requires Reach(g, u, v)
    ensures IsPath(g, q, u, v)
  {
    q :| IsPath(g, q, u, v);
  }

  lemma ReachRefl(g: Graph, u: nat)
    requires u < |g|
    ensures Reach(g, u, u)
  {
    assert IsPath(g, [u], u, u);
  }

  lemma ReachEdge(g: Graph, u: nat, v: nat)
    requires Edge(g, u, v)
    ensures Reach(g, u, v)
  {
    EdgeInRange(g, u, v);
    assert IsPath(g, [u, v], u, v);
  }

  lemma ReachTrans(g: Graph, u: nat, v: nat, w: nat)
    requires Reach(g, u, v) && Reach(g, v, w)
    ensures Reach(g, u, w)
  {
    var p :| IsPath(g, p, u, v);
    var q :| IsPath(g, q, v, w);
    PathJoins(g, p, q, u, v, w);
  }

  ghost predicate ClosedSet(g: Graph, s: set<nat>) {
    forall u, v :: u in s && Edge(g, u, v) ==> v in s
  }

  /** A set closed under edges keeps everything reachable from it. */
  lemma ReachStaysIn(g: Graph, s: set<nat>, u: nat, v: nat)
    requires ClosedSet(g, s) && u in s && Reach(g, u, v)
    ensures v in s
  {
    var p :| IsPath(g, p, u, v);
    var i := 0;
    while i < |p| - 1
      invariant 0 <= i < |p| && p[i] in s
    {
      assert Edge(g, p[i + 1 - 1], p[i + 1]);
      i := i + 1;
    }
  }
}
