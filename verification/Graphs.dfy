/**
 Finite directed multigraphs of heap nodes, and the paths through them.

 A node stands for the identity of a `ubi::Node` (a referent's address); its
 outgoing edges are the sequence that `node.edges(cx)` enumerates, so self-loops,
 cycles and parallel edges are all possible.
 */
module Graphs {

  type Node = int

  datatype Edge = Edge(name: string, referent: Node)

  type Graph = map<Node, seq<Edge>>

  /** Every edge of the graph leads to a node of the graph. */
  ghost predicate Closed(g: Graph) {
    forall n, i :: n in g && 0 <= i < |g[n]| ==> g[n][i].referent in g
  }

  ghost predicate Linked(g: Graph, a: Node, b: Node) {
    a in g && exists i :: 0 <= i < |g[a]| && g[a][i].referent == b
  }

  ghost predicate IsPath(g: Graph, p: seq<Node>) {
    p != [] && (|p| == 1 || (IsPath(g, p[..|p| - 1]) && Linked(g, p[|p| - 2], p[|p| - 1])))
  }

  ghost predicate PathFrom(g: Graph, a: Node, b: Node, p: seq<Node>) {
    IsPath(g, p) && p[0] == a && p[|p| - 1] == b
  }

  /** Reachability along zero or more edges. */
  ghost predicate Reaches(g: Graph, a: Node, b: Node) {
    exists p :: PathFrom(g, a, b, p)
  }

  ghost predicate ReachableFrom(g: Graph, starts: seq<Node>, b: Node) {
    exists a :: a in starts && Reaches(g, a, b)
  }

  /** No edge lies on a cycle. */
  ghost predicate Acyclic(g: Graph) {
    forall a, b :: Linked(g, a, b) ==> !Reaches(g, b, a)
  }

  ghost predicate Distinct(s: seq<Node>) {
    forall i, j :: 0 <= i < j < |s| ==> s[i] != s[j]
  }

  /** How often an edge occurs among a node's edges. */
  ghost function Copies(edges: seq<Edge>, e: Edge): nat {
    multiset(edges)[e]
  }

  lemma ReachesSelf(g: Graph, a: Node)
    ensures Reaches(g, a, a)
  {
    assert PathFrom(g, a, a, [a]);
  }

  lemma PathExtends(g: Graph, p: seq<Node>, c: Node)
    requires IsPath(g, p) && Linked(g, p[|p| - 1], c)
    ensures IsPath(g, p + [c])
  {
    assert (p + [c])[..|p|] == p;
  }

  lemma ReachesStep(g: Graph, a: Node, b: Node, c: Node)
    requires Reaches(g, a, b) && Linked(g, b, c)
    ensures Reaches(g, a, c)
  {
    var p :| PathFrom(g, a, b, p);
    PathExtends(g, p, c);
    assert PathFrom(g, a, c, p + [c]);
  }

  lemma ReachesLinked(g: Graph, a: Node, b: Node)
    requires Linked(g, a, b)
    ensures Reaches(g, a, b)
  {
    ReachesSelf(g, a);
    ReachesStep(g, a, a, b);
  }

  lemma ReachesTransitive(g: Graph, a: Node, b: Node, c: Node)
    requires Reaches(g, a, b) && Reaches(g, b, c)
    ensures Reaches(g, a, c)
  {
    var q :| PathFrom(g, b, c, q);
    ReachesAlong(g, a, q);
  }

  lemma {:induction false} ReachesAlong(g: Graph, a: Node, q: seq<Node>)
    requires IsPath(g, q) && Reaches(g, a, q[0])
    ensures Reaches(g, a, q[|q| - 1])
    decreases |q|
  {
    if |q| > 1 {
      ReachesAlong(g, a, q[..|q| - 1]);
      ReachesStep(g, a, q[|q| - 2], q[|q| - 1]);
    }
  }

  /** A set that holds a path's first node and is closed under edges holds the whole path. */
  lemma {:induction false} ClosedSetKeepsPath(g: Graph, s: set<Node>, p: seq<Node>)
    requires IsPath(g, p) && p[0] in s
    requires forall a, b :: a in s && Linked(g, a, b) ==> b in s
    ensures forall i :: 0 <= i < |p| ==> p[i] in s
    decreases |p|
  {
    if |p| > 1 {
      var q := p[..|p| - 1];
      ClosedSetKeepsPath(g, s, q);
      assert q[|q| - 1] in s;
      assert Linked(g, p[|p| - 2], p[|p| - 1]);
    }
  }
}
